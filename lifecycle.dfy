/**
  The habit lifecycle of src/components/HabitList.tsx: progress, the date
  toggle and its "target reached" signal, the status changes, the guards that
  decide which of them each status offers, and the list component's own
  state (which habit is expanded, which action waits for confirmation).
 */
module Lifecycle {
  import opened Seqs
  import opened Habits
  import opened Storage
  import opened Page

  /** `Math.round(num / den)` on exact integers: the largest integer not above num/den + 1/2. */
  function RoundHalfUp(num: int, den: int): (r: int)
    requires den != 0
    ensures den > 0 ==> 2 * den * r <= 2 * num + den < 2 * den * (r + 1)
    ensures den < 0 ==> -2 * den * r <= -(2 * num + den) < -2 * den * (r + 1)
  {
    if den > 0 then (2 * num + den) / (2 * den) else -(2 * num + den) / (-2 * den)
  }

  /** A target is set when it is present and not zero (`if (!habit.target)`). */
  predicate HasTarget(h: Habit) {
    h.target.Some? && h.target.value != 0
  }

  /** `Math.min(100, Math.round(n / t * 100))` for a non-zero target `t`. */
  function CappedPercent(n: nat, t: int): (p: int)
    requires t != 0
    ensures t > 0 ==> 0 <= p <= 100
    ensures t > 0 && n >= t ==> p == 100
    ensures t > 0 && n < t ==> p == RoundHalfUp(100 * n, t)
    ensures t < 0 ==> p == RoundHalfUp(100 * n, t) && p <= 0
  {
    var r := RoundHalfUp(100 * n, t);
    if t > 0 then
      ProgressBounds(n, t);
      if r < 100 then r else 100
    else
      NegativeTargetBound(n, t);
      if r < 100 then r else 100
  }

  /** `getCompletionPercentage`. */
  function CompletionPercentage(h: Habit): (p: int)
    ensures !HasTarget(h) ==> p == 0
    ensures HasTarget(h) && h.target.value > 0 ==> 0 <= p <= 100
    ensures HasTarget(h) && h.target.value > 0 && |h.completedDates| >= h.target.value ==> p == 100
    ensures HasTarget(h) && h.target.value > 0 && |h.completedDates| < h.target.value ==>
      p == RoundHalfUp(100 * |h.completedDates|, h.target.value)
    // a negative target, which migration keeps, gives the rounded ratio itself, never above 0
    ensures HasTarget(h) && h.target.value < 0 ==>
      p == RoundHalfUp(100 * |h.completedDates|, h.target.value) && p <= 0
  {
    if !HasTarget(h) then 0 else CappedPercent(|h.completedDates|, h.target.value)
  }

  /** How the rounded ratio of `n` dates to a positive target compares with 0 and 100. */
  lemma ProgressBounds(n: nat, t: int)
    requires t > 0
    ensures 0 <= RoundHalfUp(100 * n, t)
    ensures n >= t ==> RoundHalfUp(100 * n, t) >= 100
    ensures n < t ==> RoundHalfUp(100 * n, t) <= 100
  {
    var r := RoundHalfUp(100 * n, t);
    assert 2 * t * (r + 1) > 0;
    PositiveFactor(2 * t, r + 1);
    if n >= t {
      assert 2 * t * (r + 1) > 2 * t * 100;
      LessFactor(2 * t, 100, r + 1);
    } else {
      assert 2 * t * r < 2 * t * 101;
      LessFactor(2 * t, r, 101);
    }
  }

  /** With a negative target the rounded ratio of `n` dates is never positive. */
  lemma NegativeTargetBound(n: nat, t: int)
    requires t < 0
    ensures RoundHalfUp(100 * n, t) <= 0
  {
    var r := RoundHalfUp(100 * n, t);
    assert -2 * t * r < -2 * t * 1;
    LessFactor(-2 * t, r, 1);
  }

  /** A habit without dates shows no progress. */
  lemma NoDatesNoProgress(h: Habit)
    requires h.completedDates == []
    ensures CompletionPercentage(h) == 0
  {
    if HasTarget(h) {
      var t := h.target.value;
      var r := RoundHalfUp(0, t);
      if t > 0 {
        assert 2 * t * r < 2 * t * 1;
        LessFactor(2 * t, r, 1);
        PositiveFactor(2 * t, r + 1);
      } else {
        NegativeTargetBound(0, t);
        assert -2 * t * 0 < -2 * t * (r + 1);
        LessFactor(-2 * t, 0, r + 1);
      }
    }
  }

  /** A stored target of -1 with one date reads -100%. */
  lemma NegativeTargetExample(h: Habit)
    requires h.target == Some(-1) && |h.completedDates| == 1
    ensures CompletionPercentage(h) == -100
  {
  }

  lemma PositiveFactor(a: int, b: int)
    requires a > 0 && a * b > 0
    ensures b > 0
  {
  }

  lemma LessFactor(a: int, b: int, c: int)
    requires a > 0 && a * b < a * c
    ensures b < c
  {
  }

  /** With the same positive target, more dates never show less progress. */
  lemma ProgressMonotone(h: Habit, g: Habit)
    requires h.target == g.target && HasTarget(h) && h.target.value > 0
    requires |h.completedDates| <= |g.completedDates|
    ensures CompletionPercentage(h) <= CompletionPercentage(g)
  {
    var t := h.target.value;
    var a, b := RoundHalfUp(100 * |h.completedDates|, t), RoundHalfUp(100 * |g.completedDates|, t);
    assert 2 * t * a < 2 * t * (b + 1);
    LessFactor(2 * t, a, b + 1);
  }

  /** The progress bar can read 100% one date before the target is reached. */
  lemma FullProgressBeforeTarget(h: Habit)
    requires h.target == Some(200) && |h.completedDates| == 199
    ensures CompletionPercentage(h) == 100 && !TargetReached(h)
  {
  }

  /** `habit.completedDates.includes(date)`. */
  predicate IsCompletedOn(h: Habit, date: Date) {
    date in h.completedDates
  }

  /** The test `d => d !== date`. */
  function NotDate(date: Date): Date -> bool {
    (d: Date) => d != date
  }

  /** `ds.filter(d => d !== date)`: every copy of the date dropped, every other date kept with its repeats. */
  function WithoutDate(ds: seq<Date>, date: Date): (r: seq<Date>)
    ensures multiset(r) == multiset(ds)[date := 0]
    ensures date !in r
  {
    WithoutDateCounts(ds, date);
    Filter(ds, NotDate(date))
  }

  lemma {:induction false} WithoutDateCounts(ds: seq<Date>, date: Date)
    ensures multiset(Filter(ds, NotDate(date))) == multiset(ds)[date := 0]
  {
    if ds != [] {
      WithoutDateCounts(ds[1..], date);
      assert ds == [ds[0]] + ds[1..];
      assert multiset(ds) == multiset{ds[0]} + multiset(ds[1..]);
    }
  }

  /** Dropping a date keeps the other dates in their order: it distributes over concatenation. */
  lemma WithoutDateAppend(a: seq<Date>, b: seq<Date>, date: Date)
    ensures WithoutDate(a + b, date) == WithoutDate(a, date) + WithoutDate(b, date)
  {
    FilterAppend(a, b, NotDate(date));
  }

  /** `handleToggleDate`'s record update: a present date is removed everywhere, an absent one appended. */
  function ToggleDate(h: Habit, date: Date): (r: Habit)
    ensures r.(completedDates := h.completedDates) == h
    ensures !IsCompletedOn(h, date) ==> r.completedDates == h.completedDates + [date]
    ensures IsCompletedOn(h, date) ==> r.completedDates == WithoutDate(h.completedDates, date)
    ensures IsCompletedOn(h, date) ==>
      && multiset(r.completedDates) == multiset(h.completedDates)[date := 0]
      && |r.completedDates| < |h.completedDates|
    ensures forall d :: IsCompletedOn(r, d) <==> (IsCompletedOn(h, d) != (d == date))
  {
    if IsCompletedOn(h, date) then
      var kept := WithoutDate(h.completedDates, date);
      assert |kept| < |h.completedDates| by {
        FilterDropsOne(h.completedDates, NotDate(date), date);
      }
      h.(completedDates := kept)
    else
      h.(completedDates := h.completedDates + [date])
  }

  /** A filter that rejects an element of the sequence makes it shorter. */
  lemma {:induction false} FilterDropsOne(s: seq<Date>, p: Date -> bool, x: Date)
    requires x in s && !p(x)
    ensures |Filter(s, p)| < |s|
  {
    if s[0] != x {
      assert x in s[1..] by {
        var k :| 0 <= k < |s| && s[k] == x;
        assert s[1..][k - 1] == x;
      }
      FilterDropsOne(s[1..], p, x);
    }
  }

  /** `updatedHabit.target && updatedHabit.completedDates.length >= updatedHabit.target`. */
  predicate TargetReached(h: Habit) {
    HasTarget(h) && |h.completedDates| >= h.target.value
  }

  /** A reached positive target shows as full progress. */
  lemma ReachedMeansFull(h: Habit)
    requires TargetReached(h) && h.target.value > 0
    ensures CompletionPercentage(h) == 100
  {
  }

  /**
    Toggling a date twice gives back the same dates; it gives back the very
    same record when the date was absent.
   */
  lemma ToggleTwice(h: Habit, date: Date)
    ensures forall d :: IsCompletedOn(ToggleDate(ToggleDate(h, date), date), d) <==> IsCompletedOn(h, d)
    ensures !IsCompletedOn(h, date) ==> ToggleDate(ToggleDate(h, date), date) == h
  {
    if !IsCompletedOn(h, date) {
      var ds := h.completedDates;
      FilterAppend(ds, [date], NotDate(date));
      FilterKeepsAll(ds, NotDate(date));
      assert Filter([date], NotDate(date)) == [];
    }
  }

  /** A present date that is not the last one moves to the end: the list is not restored. */
  lemma ToggleTwiceReorders(h: Habit, d: Date, e: Date)
    requires h.completedDates == [d, e] && d != e
    ensures ToggleDate(ToggleDate(h, d), d).completedDates == [e, d]
  {
    assert [d, e][1..] == [e];
    assert Filter([e], NotDate(d)) == [e];
    assert ToggleDate(h, d).completedDates == [e];
  }

  /** Toggling keeps a duplicate-free list duplicate-free and moves its length by one. */
  lemma ToggleKeepsNoDuplicates(h: Habit, date: Date)
    requires NoDuplicates(h.completedDates)
    ensures NoDuplicates(ToggleDate(h, date).completedDates)
    ensures |ToggleDate(h, date).completedDates| ==
      |h.completedDates| + (if IsCompletedOn(h, date) then -1 else 1)
  {
    var ds := h.completedDates;
    if IsCompletedOn(h, date) {
      FilterNoDuplicates(ds, NotDate(date));
      FilterOutPresent(ds, NotDate(date), date);
    } else {
      var r := ds + [date];
      forall i, j | 0 <= i < j < |r| ensures r[i] != r[j] {
        if j == |ds| {
          assert r[i] == ds[i] && ds[i] in ds;
        } else {
          assert r[i] == ds[i] && r[j] == ds[j];
        }
      }
    }
  }

  /** From a target of two and no dates, the second of two new dates raises the signal, the first does not. */
  lemma TargetSignalOnSecondDate(h: Habit, d1: Date, d2: Date)
    requires h.target == Some(2) && h.completedDates == [] && d1 != d2
    ensures !TargetReached(ToggleDate(h, d1))
    ensures TargetReached(ToggleDate(ToggleDate(h, d1), d2))
  {
  }

  /** The guard on the round "mark as completed for today" button: it exists unless the habit is completed or archived. */
  predicate OffersTodayToggle(h: Habit) {
    h.status != Completed && h.status != Archived
  }

  /** The guard on the archive icon button: only active habits offer it. */
  predicate OffersArchive(h: Habit) {
    h.status == Active
  }

  /** The guard on the progress bar: it shows for active habits with a target. */
  predicate ShowsProgress(h: Habit) {
    HasTarget(h) && h.status == Active
  }

  /** The guard on the expandable calendar section: it shows for an expanded habit unless it is archived. */
  predicate OffersCalendar(h: Habit, expanded: bool) {
    expanded && h.status != Archived
  }

  /** What each status offers. */
  lemma OfferedByStatus(h: Habit)
    ensures h.status == Active ==> OffersTodayToggle(h) && OffersArchive(h) && OffersCalendar(h, true)
    ensures h.status == Completed ==> !OffersTodayToggle(h) && !OffersArchive(h) && OffersCalendar(h, true)
    ensures h.status == Archived ==> !OffersTodayToggle(h) && !OffersArchive(h) && !OffersCalendar(h, true)
  {
  }

  /**
    No offered change brings a completed or archived habit back to active:
    toggles leave the status alone, completing and archiving set their own.
   */
  lemma NoReturnToActive(h: Habit, date: Date)
    requires h.status == Completed || h.status == Archived
    ensures ToggleDate(h, date).status == h.status
    ensures MarkCompleted(h).status == Completed
    ensures !OffersArchive(h)
  {
  }

  /** A completed habit loses its "today" button but keeps the calendar, through which it still gains dates. */
  lemma CompletedHabitsStillGainDates(h: Habit, date: Date)
    requires h.status == Completed && !IsCompletedOn(h, date)
    ensures !OffersTodayToggle(h) && OffersCalendar(h, true)
    ensures IsCompletedOn(ToggleDate(h, date), date) && ToggleDate(h, date).status == Completed
  {
  }

  /** `toggleExpand`: the same id collapses, any other id is expanded. */
  function NextExpanded(current: Option<string>, habitId: string): (r: Option<string>)
    ensures r == Some(habitId) <==> current != Some(habitId)
    ensures r == None <==> current == Some(habitId)
  {
    if current == Some(habitId) then None else Some(habitId)
  }

  datatype ConfirmKind = DeleteKind | CompleteKind | ArchiveKind

  /** The pending confirmation: what it is for and which habit it concerns. */
  datatype ConfirmAction = ConfirmAction(kind: ConfirmKind, habitId: string)

  /** The list component's state and handlers. */
  class HabitList {
    const home: Home
    var expandedHabit: Option<string>
    var confirmAction: Option<ConfirmAction>

    constructor (home: Home)
      ensures this.home == home && expandedHabit == None && confirmAction == None
    {
      this.home := home;
      expandedHabit := None;
      confirmAction := None;
    }

    /** The `habits` prop: the page's filtered list. */
    function Listed(): seq<Habit>
      reads this, home
    {
      home.Shown()
    }

    /**
      The outcome both toggles share, from the state before to the state after:
      the 'complete' confirmation is raised exactly when the toggled record
      reaches its target, the store's first record with the id and every page
      record with it become the toggled record, the filter and the expanded
      habit are kept, and a page in sync with unique ids stays so.
     */
    twostate predicate Toggled(habit: Habit, date: Date)
      reads this, home, home.store
    {
      && confirmAction ==
        (if TargetReached(ToggleDate(habit, date)) then Some(ConfirmAction(CompleteKind, habit.id))
         else old(confirmAction))
      && expandedHabit == old(expandedHabit)
      && (IndexOfId(old(home.store.Loaded()), habit.id) == -1 ==> home.store.slot == old(home.store.slot))
      && home.store.Loaded() ==
        AtFirstId(old(home.store.Loaded()), habit.id, Replacement(ToggleDate(habit, date)))
      && home.habits == ReplaceById(old(home.habits), ToggleDate(habit, date))
      && home.filter == old(home.filter)
      && (old(home.InSync()) && UniqueIds(old(home.habits)) ==> home.InSync() && UniqueIds(home.habits))
    }

    /**
      The body `toggleHabitStatus` and `handleToggleDate` share: the toggled
      record raises the 'complete' confirmation when it reaches its target and
      is written to the store and to the page.
     */
    method SaveToggled(habit: Habit, date: Date)
      modifies this, home, home.store
      ensures Toggled(habit, date)
    {
      var updatedHabit := ToggleDate(habit, date);
      if TargetReached(updatedHabit) {
        confirmAction := Some(ConfirmAction(CompleteKind, habit.id));
      }
      ghost var before := home.habits;
      home.store.UpdateHabit(updatedHabit);
      home.OnHabitUpdate(updatedHabit);
      if UniqueIds(before) {
        ReplaceByIdAgreesWithStore(before, updatedHabit);
        ReducersKeepUniqueIds(before, updatedHabit, habit.id);
      }
    }

    /** `handleToggleDate`, reached only through the calendar, which an expanded, unarchived habit shows. */
    method HandleToggleDate(habit: Habit, date: Date)
      requires OffersCalendar(habit, expandedHabit == Some(habit.id))
      modifies this, home, home.store
      ensures Toggled(habit, date)
    {
      SaveToggled(habit, date);
    }

    /** `toggleHabitStatus`: the same toggle for today's date, reached only through the "today" button. */
    method ToggleHabitStatus(habit: Habit, today: Date)
      requires OffersTodayToggle(habit)
      modifies this, home, home.store
      ensures Toggled(habit, today)
    {
      SaveToggled(habit, today);
    }

    /** `handleComplete`: the store and the page both mark the habit completed; the dialog closes. */
    method HandleComplete(habitId: string)
      modifies this, home, home.store
      ensures confirmAction == None && expandedHabit == old(expandedHabit)
      ensures IndexOfId(old(home.store.Loaded()), habitId) == -1 ==> home.store.slot == old(home.store.slot)
      ensures home.store.Loaded() == AtFirstId(old(home.store.Loaded()), habitId, MarkCompleted)
      ensures var k := IndexOfId(old(Listed()), habitId);
        home.habits == if k == -1 then old(home.habits) else ReplaceById(old(home.habits), MarkCompleted(old(Listed())[k]))
      ensures home.filter == old(home.filter)
      ensures old(home.InSync()) && UniqueIds(old(home.habits)) && IndexOfId(old(Listed()), habitId) != -1 ==>
        home.InSync() && UniqueIds(home.habits)
    {
      var habits := home.Shown();
      ghost var before := home.habits;
      home.store.CompleteHabit(habitId);
      var k := IndexOfId(habits, habitId);
      if k != -1 {
        // `habits.find(h => h.id === habitId)` found the record
        home.OnHabitUpdate(MarkCompleted(habits[k]));
        if UniqueIds(before) {
          assert habits[k] in before;
          ReplaceListedAgreesWithStore(before, habits[k], MarkCompleted);
          ReducersKeepUniqueIds(before, MarkCompleted(habits[k]), habitId);
        }
      }
      // otherwise the spread record has no id, so the page's map replaces nothing
      confirmAction := None;
    }

    /** `handleArchive`: the store and the page both mark the habit archived; the dialog closes. */
    method HandleArchive(habitId: string)
      modifies this, home, home.store
      ensures confirmAction == None && expandedHabit == old(expandedHabit)
      ensures IndexOfId(old(home.store.Loaded()), habitId) == -1 ==> home.store.slot == old(home.store.slot)
      ensures home.store.Loaded() == AtFirstId(old(home.store.Loaded()), habitId, MarkArchived)
      ensures var k := IndexOfId(old(Listed()), habitId);
        home.habits == if k == -1 then old(home.habits) else ReplaceById(old(home.habits), MarkArchived(old(Listed())[k]))
      ensures home.filter == old(home.filter)
      ensures old(home.InSync()) && UniqueIds(old(home.habits)) && IndexOfId(old(Listed()), habitId) != -1 ==>
        home.InSync() && UniqueIds(home.habits)
    {
      var habits := home.Shown();
      ghost var before := home.habits;
      home.store.ArchiveHabit(habitId);
      var k := IndexOfId(habits, habitId);
      if k != -1 {
        home.OnHabitUpdate(MarkArchived(habits[k]));
        if UniqueIds(before) {
          assert habits[k] in before;
          ReplaceListedAgreesWithStore(before, habits[k], MarkArchived);
          ReducersKeepUniqueIds(before, MarkArchived(habits[k]), habitId);
        }
      }
      confirmAction := None;
    }

    /** `handleDelete`: only records the pending delete; nothing is removed yet. */
    method HandleDelete(habitId: string)
      modifies this
      ensures confirmAction == Some(ConfirmAction(DeleteKind, habitId))
      ensures expandedHabit == old(expandedHabit)
    {
      confirmAction := Some(ConfirmAction(DeleteKind, habitId));
    }

    /** `confirmDelete`: the removal itself, from the store and the page; the dialog closes. */
    method ConfirmDelete(habitId: string)
      modifies this, home, home.store
      ensures confirmAction == None && expandedHabit == old(expandedHabit)
      ensures home.store.slot == old(home.store.Saved(WithoutId(home.store.Loaded(), habitId)))
      ensures home.store.available ==> home.store.Loaded() == WithoutId(old(home.store.Loaded()), habitId)
      ensures home.habits == WithoutId(old(home.habits), habitId)
      ensures home.filter == old(home.filter)
      ensures old(home.InSync()) && UniqueIds(old(home.habits)) ==> home.InSync() && UniqueIds(home.habits)
    {
      ghost var before := home.habits;
      home.store.DeleteHabit(habitId);
      home.OnHabitDelete(habitId);
      WithoutIdKeeps(before, habitId);
      confirmAction := None;
    }

    /** The archive icon button, which only an active habit shows: asks for confirmation first. */
    method RequestArchive(habit: Habit)
      requires OffersArchive(habit)
      modifies this
      ensures confirmAction == Some(ConfirmAction(ArchiveKind, habit.id))
      ensures expandedHabit == old(expandedHabit)
    {
      confirmAction := Some(ConfirmAction(ArchiveKind, habit.id));
    }

    /** The dialog's Cancel button. */
    method Cancel()
      modifies this
      ensures confirmAction == None && expandedHabit == old(expandedHabit)
    {
      confirmAction := None;
    }

    /** The dialog's confirming button, which runs the handler its kind names. */
    method Confirm()
      requires Listed() != []
      modifies this, home, home.store
      ensures confirmAction == None && expandedHabit == old(expandedHabit)
      ensures home.filter == old(home.filter)
      ensures old(confirmAction) == None ==>
        home.store.slot == old(home.store.slot) && home.habits == old(home.habits)
      // the delete button: confirmDelete
      ensures var a := old(confirmAction); a.Some? && a.value.kind == DeleteKind ==>
        && home.store.slot == old(home.store.Saved(WithoutId(home.store.Loaded(), a.value.habitId)))
        && (home.store.available ==> home.store.Loaded() == WithoutId(old(home.store.Loaded()), a.value.habitId))
        && home.habits == WithoutId(old(home.habits), a.value.habitId)
        && (old(home.InSync()) && UniqueIds(old(home.habits)) ==> home.InSync() && UniqueIds(home.habits))
      // the "Mark as Completed" button: handleComplete
      ensures var a := old(confirmAction); a.Some? && a.value.kind == CompleteKind ==>
        && (IndexOfId(old(home.store.Loaded()), a.value.habitId) == -1 ==> home.store.slot == old(home.store.slot))
        && home.store.Loaded() == AtFirstId(old(home.store.Loaded()), a.value.habitId, MarkCompleted)
        && home.habits == (var k := IndexOfId(old(Listed()), a.value.habitId);
             if k == -1 then old(home.habits) else ReplaceById(old(home.habits), MarkCompleted(old(Listed())[k])))
        && (old(home.InSync()) && UniqueIds(old(home.habits)) && IndexOfId(old(Listed()), a.value.habitId) != -1 ==>
             home.InSync() && UniqueIds(home.habits))
      // the Archive button: handleArchive
      ensures var a := old(confirmAction); a.Some? && a.value.kind == ArchiveKind ==>
        && (IndexOfId(old(home.store.Loaded()), a.value.habitId) == -1 ==> home.store.slot == old(home.store.slot))
        && home.store.Loaded() == AtFirstId(old(home.store.Loaded()), a.value.habitId, MarkArchived)
        && home.habits == (var k := IndexOfId(old(Listed()), a.value.habitId);
             if k == -1 then old(home.habits) else ReplaceById(old(home.habits), MarkArchived(old(Listed())[k])))
        && (old(home.InSync()) && UniqueIds(old(home.habits)) && IndexOfId(old(Listed()), a.value.habitId) != -1 ==>
             home.InSync() && UniqueIds(home.habits))
    {
      match confirmAction
      case None =>
      case Some(ConfirmAction(kind, habitId)) =>
        match kind
        case DeleteKind => ConfirmDelete(habitId);
        case CompleteKind => HandleComplete(habitId);
        case ArchiveKind => HandleArchive(habitId);
    }

    /** `toggleExpand`. */
    method ToggleExpand(habitId: string)
      modifies this
      ensures expandedHabit == NextExpanded(old(expandedHabit), habitId)
      ensures confirmAction == old(confirmAction)
    {
      if expandedHabit == Some(habitId) {
        expandedHabit := None;
      } else {
        expandedHabit := Some(habitId);
      }
    }
  }
}
