/**
  The record shapes of the habit tracker (src/types/habit.ts) and the few
  facts about lists of habits that the store and the page share.
 */
module Habits {
  import opened Seqs

  datatype Option<+T> = None | Some(value: T)

  /** A calendar date written `YYYY-MM-DD`. */
  type Date = string

  /**
    The value of a record's `status` field. The declared type allows only the
    first three; `Other` carries any other name a record read back from
    storage may hold, such as the older schema's "new".
   */
  datatype StatusValue = Active | Completed | Archived | Other(name: string)

  /** `HabitStatus`: exactly one of active, completed or archived. */
  type HabitStatus = s: StatusValue | !s.Other? witness Active

  /**
    `Habit`: `description` and `target` are optional, every other field is
    required. `completedDates` is a list (order and repetitions are kept),
    and `isCompleted` is stored apart from `status`.
   */
  datatype Habit = Habit(
    id: string,
    title: string,
    description: Option<string>,
    status: StatusValue,
    createdAt: string,
    completedDates: seq<Date>,
    isCompleted: bool,
    target: Option<int>)

  /** `HabitFormData`: only the title is required. */
  datatype HabitFormData = HabitFormData(
    title: string,
    description: Option<string>,
    target: Option<int>)

  /** The stored flag agrees with the status. */
  predicate Consistent(h: Habit) {
    h.isCompleted == (h.status == Completed)
  }

  predicate AllConsistent(hs: seq<Habit>) {
    forall i :: 0 <= i < |hs| ==> Consistent(hs[i])
  }

  /** No two records share an id. */
  predicate UniqueIds(hs: seq<Habit>) {
    forall i, j :: 0 <= i < j < |hs| ==> hs[i].id != hs[j].id
  }

  /** The test `h => h.id === id`, named so that every use denotes the same function. */
  function HasId(id: string): Habit -> bool {
    (h: Habit) => h.id == id
  }

  /** The test `h => h.id !== id`. */
  function LacksId(id: string): Habit -> bool {
    (h: Habit) => h.id != id
  }

  /** `hs.findIndex(h => h.id === id)`. */
  function IndexOfId(hs: seq<Habit>, id: string): (r: int)
    ensures -1 <= r < |hs|
    ensures r == -1 <==> forall i :: 0 <= i < |hs| ==> hs[i].id != id
    ensures 0 <= r ==> hs[r].id == id && forall i :: 0 <= i < r ==> hs[i].id != id
  {
    FindIndex(hs, HasId(id))
  }

  /** `hs.filter(h => h.id !== id)`, used both by the store and by the page. */
  function WithoutId(hs: seq<Habit>, id: string): (r: seq<Habit>)
    ensures |r| <= |hs|
    ensures forall i :: 0 <= i < |r| ==> r[i].id != id && r[i] in hs
    ensures forall i :: 0 <= i < |hs| && hs[i].id != id ==> hs[i] in r
  {
    Filter(hs, LacksId(id))
  }

  /** Removing an id keeps the rest in order: it distributes over concatenation. */
  lemma WithoutIdAppend(a: seq<Habit>, b: seq<Habit>, id: string)
    ensures WithoutId(a + b, id) == WithoutId(a, id) + WithoutId(b, id)
  {
    FilterAppend(a, b, LacksId(id));
  }

  /** Removing an id that no record has changes nothing. */
  lemma WithoutAbsentId(hs: seq<Habit>, id: string)
    requires IndexOfId(hs, id) == -1
    ensures WithoutId(hs, id) == hs
  {
    FilterKeepsAll(hs, LacksId(id));
  }

  /** Deleting twice is deleting once. */
  lemma WithoutIdIdempotent(hs: seq<Habit>, id: string)
    ensures WithoutId(WithoutId(hs, id), id) == WithoutId(hs, id)
  {
    FilterIdempotent(hs, LacksId(id));
  }

  /** After a removal the id is gone, so every later lookup of it fails. */
  lemma WithoutIdNotFound(hs: seq<Habit>, id: string)
    ensures IndexOfId(WithoutId(hs, id), id) == -1
  {
  }

  /** Removal keeps ids unique and every record consistent. */
  lemma WithoutIdKeeps(hs: seq<Habit>, id: string)
    ensures UniqueIds(hs) ==> UniqueIds(WithoutId(hs, id))
    ensures AllConsistent(hs) ==> AllConsistent(WithoutId(hs, id))
  {
    if UniqueIds(hs) {
      WithoutIdKeepsUniqueIds(hs, id);
    }
    if AllConsistent(hs) {
      var r := WithoutId(hs, id);
      forall k | 0 <= k < |r| ensures Consistent(r[k]) {
        var m :| 0 <= m < |hs| && hs[m] == r[k];
      }
    }
  }

  /** The unique-ids half of `WithoutIdKeeps`, by induction on the list. */
  lemma {:induction false} WithoutIdKeepsUniqueIds(hs: seq<Habit>, id: string)
    requires UniqueIds(hs)
    ensures UniqueIds(WithoutId(hs, id))
  {
    if hs != [] {
      var tail := hs[1..];
      UniqueIdsTail(hs);
      WithoutIdKeepsUniqueIds(tail, id);
      assert hs == [hs[0]] + tail;
      WithoutIdAppend([hs[0]], tail, id);
      if hs[0].id != id {
        var rest := WithoutId(tail, id);
        forall k | 0 <= k < |rest| ensures rest[k].id != hs[0].id {
          var m :| 0 <= m < |tail| && tail[m] == rest[k];
          assert hs[m + 1] == rest[k];
        }
        UniqueIdsCons(hs[0], rest);
      }
    }
  }

  lemma UniqueIdsTail(hs: seq<Habit>)
    requires UniqueIds(hs) && hs != []
    ensures UniqueIds(hs[1..])
  {
    var tail := hs[1..];
    forall i, j | 0 <= i < j < |tail| ensures tail[i].id != tail[j].id {
      assert tail[i] == hs[i + 1] && tail[j] == hs[j + 1];
    }
  }

  lemma UniqueIdsCons(h: Habit, rest: seq<Habit>)
    requires UniqueIds(rest) && forall k :: 0 <= k < |rest| ==> rest[k].id != h.id
    ensures UniqueIds([h] + rest)
  {
    var r := [h] + rest;
    forall i, j | 0 <= i < j < |r| ensures r[i].id != r[j].id {
      assert r[j] == rest[j - 1];
      if i > 0 {
        assert r[i] == rest[i - 1];
      }
    }
  }

  /** Appending a record whose id is not yet used keeps ids unique. */
  lemma AppendFreshKeepsUniqueIds(hs: seq<Habit>, h: Habit)
    requires UniqueIds(hs) && IndexOfId(hs, h.id) == -1
    ensures UniqueIds(hs + [h])
  {
    var r := hs + [h];
    forall i, j | 0 <= i < j < |r| ensures r[i].id != r[j].id {
      assert r[i] == hs[i];
    }
  }
}
