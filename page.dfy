/**
  The home page of src/app/page.tsx: the in-memory list of habits, the status
  filter, the per-status counts and the reducers the list and the form call
  back into.
 */
module Page {
  import opened Seqs
  import opened Habits
  import opened Storage

  /** The filter bar's choice: every habit, or the habits of one status. */
  datatype StatusFilter = All | Only(status: HabitStatus)

  datatype Counts = Counts(all: nat, active: nat, completed: nat, archived: nat)

  /** The test `h => h.status === s`. */
  function StatusIs(s: StatusValue): Habit -> bool {
    (h: Habit) => h.status == s
  }

  /** `hs.filter(h => h.status === s)`. */
  function WithStatus(hs: seq<Habit>, s: StatusValue): (r: seq<Habit>)
    ensures |r| <= |hs|
    ensures forall i :: 0 <= i < |r| ==> r[i].status == s && r[i] in hs
    ensures forall i :: 0 <= i < |hs| && hs[i].status == s ==> hs[i] in r
  {
    Filter(hs, StatusIs(s))
  }

  /** `counts`: the list length and the number of habits of each status. */
  function CountsOf(hs: seq<Habit>): (c: Counts)
    ensures c.all == |hs|
    ensures c.active <= c.all && c.completed <= c.all && c.archived <= c.all
  {
    Counts(|hs|, |WithStatus(hs, Active)|, |WithStatus(hs, Completed)|, |WithStatus(hs, Archived)|)
  }

  /** `filteredHabits`: everything for 'all', else exactly the habits of that status. */
  function FilteredHabits(hs: seq<Habit>, filter: StatusFilter): (r: seq<Habit>)
    ensures filter == All ==> r == hs
    ensures filter.Only? ==> forall i :: 0 <= i < |r| ==> r[i].status == filter.status && r[i] in hs
    ensures filter.Only? ==> forall i :: 0 <= i < |hs| && hs[i].status == filter.status ==> hs[i] in r
  {
    match filter
    case All => hs
    case Only(s) => WithStatus(hs, s)
  }

  /** Filtering keeps the original order: it distributes over concatenation. */
  lemma FilteredAppend(a: seq<Habit>, b: seq<Habit>, filter: StatusFilter)
    ensures FilteredHabits(a + b, filter) == FilteredHabits(a, filter) + FilteredHabits(b, filter)
  {
    if filter.Only? {
      FilterAppend(a, b, StatusIs(filter.status));
    }
  }

  /** Each filter lists as many habits as the count shown beside it. */
  lemma CountsMatchFilters(hs: seq<Habit>)
    ensures |FilteredHabits(hs, All)| == CountsOf(hs).all
    ensures |FilteredHabits(hs, Only(Active))| == CountsOf(hs).active
    ensures |FilteredHabits(hs, Only(Completed))| == CountsOf(hs).completed
    ensures |FilteredHabits(hs, Only(Archived))| == CountsOf(hs).archived
  {
  }

  /** When every status is one of the three, the three counts add up to `all`. */
  lemma CountsAddUp(hs: seq<Habit>)
    requires forall i :: 0 <= i < |hs| ==> !hs[i].status.Other?
    ensures CountsOf(hs).active + CountsOf(hs).completed + CountsOf(hs).archived == CountsOf(hs).all
  {
    StatusesPartition(hs);
  }

  /** The three status filters split a list without other statuses. */
  lemma {:induction false} StatusesPartition(hs: seq<Habit>)
    requires forall i :: 0 <= i < |hs| ==> !hs[i].status.Other?
    ensures |WithStatus(hs, Active)| + |WithStatus(hs, Completed)| + |WithStatus(hs, Archived)| == |hs|
  {
    if hs != [] {
      StatusesPartition(hs[1..]);
      assert hs == [hs[0]] + hs[1..];
      FilterAppend([hs[0]], hs[1..], StatusIs(Active));
      FilterAppend([hs[0]], hs[1..], StatusIs(Completed));
      FilterAppend([hs[0]], hs[1..], StatusIs(Archived));
    }
  }

  /** The update reducer `hs.map(h => h.id === u.id ? u : h)`. */
  function ReplaceById(hs: seq<Habit>, u: Habit): (r: seq<Habit>)
    ensures |r| == |hs|
    ensures forall i :: 0 <= i < |hs| ==> r[i].id == hs[i].id
    ensures forall i :: 0 <= i < |hs| && hs[i].id == u.id ==> r[i] == u
    ensures forall i :: 0 <= i < |hs| && hs[i].id != u.id ==> r[i] == hs[i]
  {
    seq(|hs|, i requires 0 <= i < |hs| => if hs[i].id == u.id then u else hs[i])
  }

  /** Applying the update reducer twice is applying it once. */
  lemma ReplaceByIdIdempotent(hs: seq<Habit>, u: Habit)
    ensures ReplaceById(ReplaceById(hs, u), u) == ReplaceById(hs, u)
  {
  }

  /**
    With unique ids, the page's reducer (every match replaced) and the store's
    `updateHabit` (the first match replaced) produce the same list.
   */
  lemma ReplaceByIdAgreesWithStore(hs: seq<Habit>, u: Habit)
    requires UniqueIds(hs)
    ensures ReplaceById(hs, u) == AtFirstId(hs, u.id, Replacement(u))
  {
    var k := IndexOfId(hs, u.id);
    var r, s := ReplaceById(hs, u), AtFirstId(hs, u.id, Replacement(u));
    forall i | 0 <= i < |hs| ensures r[i] == s[i] {
      if hs[i].id == u.id {
        assert k != -1 && k <= i;
        assert k == i;
      }
    }
  }

  /**
    With unique ids, the page replacing a listed record by a changed copy of
    it agrees with the store applying the same change to that id.
   */
  lemma ReplaceListedAgreesWithStore(hs: seq<Habit>, h: Habit, f: Habit -> Habit)
    requires UniqueIds(hs) && h in hs && f(h).id == h.id
    ensures ReplaceById(hs, f(h)) == AtFirstId(hs, h.id, f)
  {
    ReplaceByIdAgreesWithStore(hs, f(h));
    var j :| 0 <= j < |hs| && hs[j] == h;
    assert IndexOfId(hs, h.id) == j;
  }

  /** With a repeated id, the two disagree: the page replaces both records, the store only the first. */
  lemma DuplicateIdsDiverge(a: Habit, b: Habit, u: Habit)
    requires a.id == b.id == u.id && b != u
    ensures ReplaceById([a, b], u) != AtFirstId([a, b], u.id, Replacement(u))
  {
    assert ReplaceById([a, b], u)[1] == u;
    assert AtFirstId([a, b], u.id, Replacement(u))[1] == b;
  }

  /** Dropping one record's id and replacing by id keep ids unique. */
  lemma ReducersKeepUniqueIds(hs: seq<Habit>, u: Habit, id: string)
    requires UniqueIds(hs)
    ensures UniqueIds(ReplaceById(hs, u))
    ensures UniqueIds(WithoutId(hs, id))
  {
    WithoutIdKeeps(hs, id);
  }

  /** The creation form is shown only under 'all' and 'active'. */
  predicate ShowsForm(filter: StatusFilter) {
    filter == All || filter == Only(Active)
  }

  /**
    Under every filter that shows the form, and only under those, an active
    habit appended to the page's list appears at the end of the visible list.
   */
  lemma AddedHabitShown(hs: seq<Habit>, h: Habit, filter: StatusFilter)
    requires h.status == Active
    ensures ShowsForm(filter) ==> FilteredHabits(hs + [h], filter) == FilteredHabits(hs, filter) + [h]
    ensures !ShowsForm(filter) ==> FilteredHabits(hs + [h], filter) == FilteredHabits(hs, filter)
  {
    FilteredAppend(hs, [h], filter);
    if filter.Only? {
      assert Filter([h], StatusIs(filter.status)) == if filter.status == Active then [h] else [];
    }
  }

  /** The page component's state: the list it renders and the current filter. */
  class Home {
    const store: HabitStore
    var habits: seq<Habit>
    var filter: StatusFilter

    constructor (store: HabitStore)
      ensures this.store == store && habits == [] && filter == All
    {
      this.store := store;
      habits := [];
      filter := All;
    }

    /** The list mirrors the store's. */
    predicate InSync()
      reads this, store
    {
      habits == store.Loaded()
    }

    /** The habits handed to the list component. */
    function Shown(): seq<Habit>
      reads this
    {
      FilteredHabits(habits, filter)
    }

    /** The mount effect: `setHabits(getHabits())`. */
    method Load()
      modifies this
      ensures habits == store.Loaded() && filter == old(filter)
      ensures InSync()
    {
      habits := store.GetHabits();
    }

    /** The filter bar's `onFilterChange`. */
    method SetFilter(f: StatusFilter)
      modifies this
      ensures filter == f && habits == old(habits)
    {
      filter := f;
    }

    /** `onHabitAdded`: the new habit goes to the end of the list. */
    method OnHabitAdded(habit: Habit)
      modifies this
      ensures habits == old(habits) + [habit] && filter == old(filter)
    {
      habits := habits + [habit];
    }

    /** `onHabitUpdate`: every habit with the id is replaced. */
    method OnHabitUpdate(updated: Habit)
      modifies this
      ensures habits == ReplaceById(old(habits), updated) && filter == old(filter)
    {
      habits := ReplaceById(habits, updated);
    }

    /** `onHabitDelete`: every habit with the id is dropped. */
    method OnHabitDelete(habitId: string)
      modifies this
      ensures habits == WithoutId(old(habits), habitId) && filter == old(filter)
    {
      habits := WithoutId(habits, habitId);
    }
  }
}
