/**
  The habit store of src/utils/storage.ts: one localStorage slot holding the
  list of records, a migration applied on every read, and the mutation
  primitives, each of which loads the list, changes it and saves it again.
 */
module Storage {
  import opened Seqs
  import opened Habits

  /**
    The default habit length of 21 days: the target a record from the older
    schema receives when it has none. The form uses the same value for its
    initial and reset target and as the slider's fallback.
   */
  const DefaultTarget := 21

  /** The status name of the older schema that migration renames to active. */
  const LegacyNewStatus := "new"

  /**
    A record as it is parsed back from the slot. Whether it has an
    `isCompleted` property is the only version marker: `Current` records have
    one, `Unversioned` records were written before the property existed.
   */
  datatype StoredHabit =
    | Current(habit: Habit)
    | Unversioned(
        id: string,
        title: string,
        description: Option<string>,
        status: StatusValue,
        createdAt: string,
        completedDates: seq<Date>,
        target: Option<int>)

  /**
    The parsed text of the slot: an array of records, or `Invalid` for any
    text on which `JSON.parse` or the migration throws.
   */
  datatype Payload = Records(records: seq<StoredHabit>) | Invalid

  /** `habit.target || 21`: an absent or zero target is replaced, any other is kept. */
  function TargetOrDefault(target: Option<int>): (t: Option<int>)
    ensures t.Some? && t.value != 0
    ensures target.Some? && target.value != 0 ==> t == target
    ensures target == None || target == Some(0) ==> t == Some(DefaultTarget)
  {
    if target == None || target == Some(0) then Some(DefaultTarget) else target
  }

  /** The migration of one record. */
  function MigrateHabit(r: StoredHabit): (h: Habit)
    // a record that already has isCompleted passes through untouched, however inconsistent
    ensures r.Current? ==> h == r.habit
    // an older record keeps every field it had, apart from status and target
    ensures r.Unversioned? ==>
      && h.id == r.id && h.title == r.title && h.description == r.description
      && h.createdAt == r.createdAt && h.completedDates == r.completedDates
    // ... and the flag it receives agrees with its status
    ensures r.Unversioned? ==> h.isCompleted == (r.status == Completed) && Consistent(h)
    ensures r.Unversioned? ==> h.status != Other(LegacyNewStatus)
    ensures r.Unversioned? && r.status == Other(LegacyNewStatus) ==> h.status == Active
    ensures r.Unversioned? && r.status != Other(LegacyNewStatus) ==> h.status == r.status
    ensures r.Unversioned? ==> h.target.Some? && h.target.value != 0
    ensures r.Unversioned? && r.target.Some? && r.target.value != 0 ==> h.target == r.target
    ensures r.Unversioned? && (r.target == None || r.target == Some(0)) ==> h.target == Some(DefaultTarget)
  {
    match r
    case Current(habit) => habit
    case Unversioned(id, title, description, status, createdAt, completedDates, target) =>
      Habit(
        id, title, description,
        if status == Other(LegacyNewStatus) then Active else status,
        createdAt, completedDates,
        status == Completed,
        TargetOrDefault(target))
  }

  /** `migrateHabits`: the records migrated one by one, same length and order. */
  function MigrateHabits(rs: seq<StoredHabit>): (hs: seq<Habit>)
    ensures |hs| == |rs|
    ensures forall i :: 0 <= i < |rs| ==> hs[i] == MigrateHabit(rs[i])
  {
    if rs == [] then [] else [MigrateHabit(rs[0])] + MigrateHabits(rs[1..])
  }

  /**
    What `JSON.stringify` writes for a list of habits, as it is parsed back:
    every record carries `isCompleted`, so every one reads back as current.
   */
  function Serialized(hs: seq<Habit>): (rs: seq<StoredHabit>)
    ensures |rs| == |hs|
    ensures forall i :: 0 <= i < |rs| ==> rs[i].Current? && rs[i].habit == hs[i]
  {
    seq(|hs|, i requires 0 <= i < |hs| => Current(hs[i]))
  }

  /** Reading back what was saved gives the saved list. */
  lemma SaveThenLoad(hs: seq<Habit>)
    ensures MigrateHabits(Serialized(hs)) == hs
  {
    var back := MigrateHabits(Serialized(hs));
    assert |back| == |hs|;
    forall i | 0 <= i < |hs| ensures back[i] == hs[i] {
      assert Serialized(hs)[i] == Current(hs[i]);
    }
  }

  /** Migrating, saving and migrating again equals migrating once. */
  lemma MigrateTwice(rs: seq<StoredHabit>)
    ensures MigrateHabits(Serialized(MigrateHabits(rs))) == MigrateHabits(rs)
  {
    SaveThenLoad(MigrateHabits(rs));
  }

  /** A legacy record with status 'new', no dates and no target migrates to an active, uncompleted 21-day habit. */
  lemma LegacyNewRecordMigrates(id: string, title: string, description: Option<string>, createdAt: string)
    ensures var h := MigrateHabit(Unversioned(id, title, description, Other(LegacyNewStatus), createdAt, [], None));
      h == Habit(id, title, description, Active, createdAt, [], false, Some(DefaultTarget))
  {
  }

  /** A payload written entirely by the older schema migrates to consistent records. */
  lemma UnversionedMigratesConsistent(rs: seq<StoredHabit>)
    requires forall i :: 0 <= i < |rs| ==> rs[i].Unversioned?
    ensures AllConsistent(MigrateHabits(rs))
  {
  }

  /** `{...h, isCompleted: true, status: 'completed'}`. */
  function MarkCompleted(h: Habit): (r: Habit)
    ensures r.status == Completed && r.isCompleted && Consistent(r)
    ensures r.(status := h.status, isCompleted := h.isCompleted) == h
  {
    h.(isCompleted := true, status := Completed)
  }

  /** `{...h, status: 'archived'}`: the flag is left as it was. */
  function MarkArchived(h: Habit): (r: Habit)
    ensures r.status == Archived && r.isCompleted == h.isCompleted
    ensures r.(status := h.status) == h
    ensures Consistent(r) <==> !h.isCompleted
  {
    h.(status := Archived)
  }

  /** The change `updateHabit` makes to the record it finds: it is replaced wholesale. */
  function Replacement(u: Habit): Habit -> Habit {
    _ => u
  }

  /**
    `i = hs.findIndex(h => h.id === id); if (i !== -1) hs[i] = f(hs[i])`:
    only the first record with the id can change.
   */
  function AtFirstId(hs: seq<Habit>, id: string, f: Habit -> Habit): (r: seq<Habit>)
    ensures |r| == |hs|
    ensures forall i :: 0 <= i < |hs| && i != IndexOfId(hs, id) ==> r[i] == hs[i]
    ensures IndexOfId(hs, id) == -1 ==> r == hs
    ensures IndexOfId(hs, id) != -1 ==> r[IndexOfId(hs, id)] == f(hs[IndexOfId(hs, id)])
  {
    var i := IndexOfId(hs, id);
    if i == -1 then hs else hs[i := f(hs[i])]
  }

  /** A change that keeps the id keeps every id of the list, so ids stay unique. */
  lemma AtFirstIdKeepsIds(hs: seq<Habit>, id: string, f: Habit -> Habit)
    requires forall h: Habit :: h.id == id ==> f(h).id == id
    ensures forall i :: 0 <= i < |hs| ==> AtFirstId(hs, id, f)[i].id == hs[i].id
    ensures UniqueIds(hs) ==> UniqueIds(AtFirstId(hs, id, f))
  {
    var r := AtFirstId(hs, id, f);
    forall i | 0 <= i < |hs| ensures r[i].id == hs[i].id {
      if i == IndexOfId(hs, id) {
        assert f(hs[i]).id == id;
      }
    }
  }

  /** A change that keeps records consistent keeps the whole list consistent. */
  lemma AtFirstIdKeepsConsistent(hs: seq<Habit>, id: string, f: Habit -> Habit)
    requires AllConsistent(hs)
    requires IndexOfId(hs, id) != -1 ==> Consistent(f(hs[IndexOfId(hs, id)]))
    ensures AllConsistent(AtFirstId(hs, id, f))
  {
    var r := AtFirstId(hs, id, f);
    forall i | 0 <= i < |r| ensures Consistent(r[i]) {
      if i != IndexOfId(hs, id) {
        assert r[i] == hs[i];
      }
    }
  }

  /** Once an id is deleted, updating, completing or archiving it changes nothing. */
  lemma DeletionIsFinal(hs: seq<Habit>, id: string, f: Habit -> Habit)
    ensures AtFirstId(WithoutId(hs, id), id, f) == WithoutId(hs, id)
  {
    WithoutIdNotFound(hs, id);
  }

  /** Archiving a consistent completed record leaves it inconsistent. */
  lemma ArchivingCompletedBreaksConsistency(h: Habit)
    requires Consistent(h) && h.status == Completed
    ensures !Consistent(MarkArchived(h))
  {
  }

  /** The single storage slot and the two localStorage operations on it. */
  class HabitStore {
    /** Whether a browser window, and with it localStorage, exists. */
    const available: bool
    /** The slot's text, already parsed; `None` when the key is unset or empty. */
    var slot: Option<Payload>

    constructor (available: bool, slot: Option<Payload>)
      ensures this.available == available && this.slot == slot
    {
      this.available := available;
      this.slot := slot;
    }

    /** The list `getHabits` returns in the current state. */
    function Loaded(): (hs: seq<Habit>)
      reads this
      ensures !available || slot == None || slot == Some(Invalid) ==> hs == []
      ensures available && slot.Some? && slot.value.Records? ==> |hs| == |slot.value.records|
    {
      if !available then []
      else match slot
        case None => []
        case Some(Invalid) => []
        case Some(Records(rs)) => MigrateHabits(rs)
    }

    /** The slot's value after `saveHabits(hs)`. */
    function Saved(hs: seq<Habit>): (p: Option<Payload>)
      reads this
      ensures !available ==> p == slot
      // with a window the slot holds a list that migrates back to exactly the saved one
      ensures available ==> p.Some? && p.value.Records? && MigrateHabits(p.value.records) == hs
    {
      if available then SaveThenLoad(hs); Some(Records(Serialized(hs))) else slot
    }

    /** `getHabits`: empty without a window, for an empty slot or an unparseable one. */
    method GetHabits() returns (habits: seq<Habit>)
      ensures !available || slot == None || slot == Some(Invalid) ==> habits == []
      ensures available && slot.Some? && slot.value.Records? ==>
        |habits| == |slot.value.records| &&
        forall i :: 0 <= i < |habits| ==> habits[i] == MigrateHabit(slot.value.records[i])
      ensures habits == Loaded()
    {
      if !available {
        return [];
      }
      if slot == None {
        return [];
      }
      match slot.value
      case Invalid =>
        habits := [];
      case Records(rs) =>
        habits := MigrateHabits(rs);
    }

    /** `saveHabits`: overwrites the slot wholesale, or does nothing without a window. */
    method SaveHabits(habits: seq<Habit>)
      modifies this
      ensures slot == old(Saved(habits))
      ensures available ==> Loaded() == habits
    {
      if available {
        slot := Some(Records(Serialized(habits)));
        SaveThenLoad(habits);
      }
    }

    /** `addHabit`: the loaded list followed by the new record. */
    method AddHabit(habit: Habit)
      modifies this
      ensures slot == old(Saved(Loaded() + [habit]))
      ensures available ==> Loaded() == old(Loaded()) + [habit]
      ensures available ==> |Loaded()| == |old(Loaded())| + 1
      ensures !available ==> slot == old(slot)
    {
      var habits := GetHabits();
      habits := habits + [habit];
      SaveHabits(habits);
    }

    /** `updateHabit`: replaces the first record with the same id; writes nothing if there is none. */
    method UpdateHabit(updated: Habit)
      modifies this
      ensures IndexOfId(old(Loaded()), updated.id) == -1 ==> slot == old(slot)
      ensures IndexOfId(old(Loaded()), updated.id) != -1 ==>
        slot == old(Saved(AtFirstId(Loaded(), updated.id, Replacement(updated))))
      ensures Loaded() == AtFirstId(old(Loaded()), updated.id, Replacement(updated))
    {
      var habits := GetHabits();
      var index := IndexOfId(habits, updated.id);
      if index != -1 {
        habits := habits[index := updated];
        SaveHabits(habits);
      }
    }

    /** `deleteHabit`: keeps every record without the id, and always saves. */
    method DeleteHabit(habitId: string)
      modifies this
      ensures slot == old(Saved(WithoutId(Loaded(), habitId)))
      ensures available ==> Loaded() == WithoutId(old(Loaded()), habitId)
      ensures IndexOfId(Loaded(), habitId) == -1
    {
      var habits := GetHabits();
      var filteredHabits := WithoutId(habits, habitId);
      SaveHabits(filteredHabits);
      WithoutIdNotFound(habits, habitId);
    }

    /** `completeHabit`: marks the first record with the id completed; writes nothing if there is none. */
    method CompleteHabit(habitId: string)
      modifies this
      ensures IndexOfId(old(Loaded()), habitId) == -1 ==> slot == old(slot)
      ensures IndexOfId(old(Loaded()), habitId) != -1 ==>
        slot == old(Saved(AtFirstId(Loaded(), habitId, MarkCompleted)))
      ensures Loaded() == AtFirstId(old(Loaded()), habitId, MarkCompleted)
    {
      var habits := GetHabits();
      var index := IndexOfId(habits, habitId);
      if index != -1 {
        habits := habits[index := MarkCompleted(habits[index])];
        SaveHabits(habits);
      }
    }

    /** `archiveHabit`: marks the first record with the id archived; writes nothing if there is none. */
    method ArchiveHabit(habitId: string)
      modifies this
      ensures IndexOfId(old(Loaded()), habitId) == -1 ==> slot == old(slot)
      ensures IndexOfId(old(Loaded()), habitId) != -1 ==>
        slot == old(Saved(AtFirstId(Loaded(), habitId, MarkArchived)))
      ensures Loaded() == AtFirstId(old(Loaded()), habitId, MarkArchived)
    {
      var habits := GetHabits();
      var index := IndexOfId(habits, habitId);
      if index != -1 {
        habits := habits[index := MarkArchived(habits[index])];
        SaveHabits(habits);
      }
    }
  }
}
