/**
  The creation form of src/components/HabitForm.tsx: the form's state, the
  quick-add presets, the target slider, and the submission that trims the
  input, builds a new active habit, stores it and hands it to the page.
 */
module Form {
  import opened Habits
  import opened Storage
  import opened Page
  import opened Lifecycle

  /**
    The characters `String.prototype.trim` removes: the white space and line
    terminator code points of the ECMAScript grammar.
   */
  predicate IsWhitespace(c: char) {
    || c == '\t' || c == '\n' || c == '\U{000B}' || c == '\U{000C}' || c == '\r' || c == ' '
    || c == '\U{00A0}' || c == '\U{1680}' || ('\U{2000}' <= c <= '\U{200A}')
    || c == '\U{2028}' || c == '\U{2029}' || c == '\U{202F}' || c == '\U{205F}'
    || c == '\U{3000}' || c == '\U{FEFF}'
  }

  /** The number of white space characters `s` starts with. */
  function Lead(s: string): (k: nat)
    ensures k <= |s|
    ensures forall i :: 0 <= i < k ==> IsWhitespace(s[i])
    ensures k < |s| ==> !IsWhitespace(s[k])
  {
    if s == [] then 0
    else if IsWhitespace(s[0]) then
      var k := Lead(s[1..]);
      assert forall i :: 1 <= i < k + 1 ==> s[i] == s[1..][i - 1];
      1 + k
    else 0
  }

  /** Where the white space `s` ends with begins. */
  function Trail(s: string): (k: nat)
    ensures k <= |s|
    ensures forall i :: k <= i < |s| ==> IsWhitespace(s[i])
    ensures k > 0 ==> !IsWhitespace(s[k - 1])
  {
    if s == [] then 0
    else if IsWhitespace(s[|s| - 1]) then
      var k := Trail(s[..|s| - 1]);
      assert forall i :: k <= i < |s| - 1 ==> s[i] == s[..|s| - 1][i];
      k
    else |s|
  }

  /** The string contains nothing but white space. */
  predicate Blank(s: string) {
    forall i :: 0 <= i < |s| ==> IsWhitespace(s[i])
  }

  /** `s.trim()`: the part of `s` between its leading and its trailing white space. */
  function Trim(s: string): (r: string)
    ensures r == [] <==> Blank(s)
    ensures r != [] ==> !IsWhitespace(r[0]) && !IsWhitespace(r[|r| - 1])
    ensures Lead(s) + |r| <= |s| && r == s[Lead(s)..Lead(s) + |r|]
    ensures forall i :: 0 <= i < Lead(s) || Lead(s) + |r| <= i < |s| ==> IsWhitespace(s[i])
  {
    var a, b := Lead(s), Trail(s);
    if a == |s| then []
    else
      assert a < b;
      s[a..b]
  }

  /** Trimming twice is trimming once. */
  lemma TrimIdempotent(s: string)
    ensures Trim(Trim(s)) == Trim(s)
  {
    var r := Trim(s);
    if r != [] {
      assert Lead(r) == 0;
      assert Trail(r) == |r|;
      assert r[0..|r|] == r;
    }
  }

  /** A string without surrounding white space is its own trim. */
  lemma TrimOfTrimmed(s: string)
    requires s != [] && !IsWhitespace(s[0]) && !IsWhitespace(s[|s| - 1])
    ensures Trim(s) == s
  {
    assert Lead(s) == 0 && Trail(s) == |s|;
    assert s[0..|s|] == s;
  }

  /** The form's initial and reset value: empty texts and a 21-day target. */
  const DefaultFormData := HabitFormData("", Some(""), Some(DefaultTarget))

  /** The quick-add choices. */
  const Presets := [
    HabitFormData("Drink water", Some("8 glasses per day"), Some(30)),
    HabitFormData("Exercise", Some("30 minutes daily"), Some(30)),
    HabitFormData("Read", Some("15 minutes before bed"), Some(21)),
    HabitFormData("Meditate", Some("5 minutes in the morning"), Some(21))
  ]

  /** The initial form data and the four presets, field by field. */
  lemma FormConstants()
    ensures DefaultFormData.title == "" && DefaultFormData.description == Some("")
    ensures DefaultFormData.target == Some(21)
    ensures |Presets| == 4
    ensures Presets[0].target == Some(30) && Presets[1].target == Some(30)
    ensures Presets[2].target == Some(21) && Presets[3].target == Some(21)
  {
  }

  /** A target the slider can produce: a whole number of days from 1 to 100. */
  predicate TargetInRange(f: HabitFormData) {
    f.target.Some? && 1 <= f.target.value <= 100
  }

  /** The default and every preset have a target the slider can show. */
  lemma StartingTargetsInRange()
    ensures TargetInRange(DefaultFormData)
    ensures forall i :: 0 <= i < |Presets| ==> TargetInRange(Presets[i])
  {
  }

  /** The value the slider and its label show: `formData.target || 21`. */
  function SliderValue(f: HabitFormData): (v: int)
    ensures f.target.Some? && f.target.value != 0 ==> v == f.target.value
    ensures f.target == None || f.target == Some(0) ==> v == DefaultTarget
  {
    TargetOrDefault(f.target).value
  }

  /** The record `handleSubmit` builds, with the id and timestamp it is given. */
  function NewHabit(f: HabitFormData, id: string, createdAt: string): (h: Habit)
    ensures h.id == id && h.createdAt == createdAt && h.title == Trim(f.title)
    ensures h.description.Some? <==> f.description.Some?
    ensures f.description.Some? ==> h.description.value == Trim(f.description.value)
    ensures h.status == Active && !h.isCompleted && Consistent(h)
    ensures h.completedDates == [] && h.target == f.target
  {
    Habit(
      id, Trim(f.title),
      match f.description case None => None case Some(d) => Some(Trim(d)),
      Active, createdAt, [], false, f.target)
  }

  /**
    A habit created from a form whose target the slider produced starts with
    no progress, offers every action and shows its progress bar.
   */
  lemma NewHabitStartsFresh(f: HabitFormData, id: string, createdAt: string)
    requires TargetInRange(f)
    ensures var h := NewHabit(f, id, createdAt);
      && CompletionPercentage(h) == 0 && !TargetReached(h)
      && OffersTodayToggle(h) && OffersArchive(h) && ShowsProgress(h) && OffersCalendar(h, true)
  {
    NoDatesNoProgress(NewHabit(f, id, createdAt));
  }

  /** The form component's state: its fields and whether it is open. */
  class HabitForm {
    const home: Home
    var formData: HabitFormData
    var isOpen: bool

    constructor (home: Home)
      ensures this.home == home && formData == DefaultFormData && !isOpen
    {
      this.home := home;
      formData := DefaultFormData;
      isOpen := false;
    }

    /** Every target the form can hold is one the slider can produce. */
    predicate Valid()
      reads this
    {
      TargetInRange(formData)
    }

    /** The "Create New Habit" button. */
    method Open()
      modifies this
      ensures isOpen && formData == old(formData)
    {
      isOpen := true;
    }

    /** The close and Cancel buttons: the entered values are kept. */
    method Close()
      modifies this
      ensures !isOpen && formData == old(formData)
    {
      isOpen := false;
    }

    /** `selectPredefinedHabit`: the preset replaces all three fields. */
    method SelectPreset(i: nat)
      requires i < |Presets|
      modifies this
      ensures formData == Presets[i] && isOpen == old(isOpen)
      ensures Valid()
    {
      formData := Presets[i];
    }

    /** The title input's `onChange`. */
    method EditTitle(title: string)
      modifies this
      ensures formData == old(formData).(title := title) && isOpen == old(isOpen)
      ensures old(Valid()) ==> Valid()
    {
      formData := formData.(title := title);
    }

    /** The description textarea's `onChange`. */
    method EditDescription(description: string)
      modifies this
      ensures formData == old(formData).(description := Some(description)) && isOpen == old(isOpen)
      ensures old(Valid()) ==> Valid()
    {
      formData := formData.(description := Some(description));
    }

    /** The slider's `onChange`: `parseInt` of a value between its `min` and `max`. */
    method SlideTarget(value: int)
      requires 1 <= value <= 100
      modifies this
      ensures formData == old(formData).(target := Some(value)) && isOpen == old(isOpen)
      ensures Valid() && SliderValue(formData) == value
    {
      formData := formData.(target := Some(value));
    }

    /**
      `handleSubmit`: a blank title changes nothing; otherwise the new habit is
      stored, appended to the page's list, and the form is reset and closed.
      The form is rendered only while open and only under 'all' and 'active'.
     */
    method HandleSubmit(id: string, createdAt: string)
      requires isOpen && ShowsForm(home.filter)
      modifies this, home, home.store
      ensures Blank(old(formData).title) ==>
        && formData == old(formData) && isOpen == old(isOpen)
        && home.habits == old(home.habits) && home.store.slot == old(home.store.slot)
      ensures !Blank(old(formData).title) ==>
        && home.store.slot == old(home.store.Saved(home.store.Loaded() + [NewHabit(formData, id, createdAt)]))
        && home.habits == old(home.habits) + [NewHabit(old(formData), id, createdAt)]
        && formData == DefaultFormData && !isOpen
      ensures home.filter == old(home.filter)
      ensures old(Valid()) ==> Valid()
      // the new habit shows at the end of the visible list
      ensures !Blank(old(formData).title) ==>
        home.Shown() == old(home.Shown()) + [NewHabit(old(formData), id, createdAt)]
      // a form whose target came from the slider creates a habit that starts fresh
      ensures !Blank(old(formData).title) && old(Valid()) ==>
        var h := NewHabit(old(formData), id, createdAt);
        CompletionPercentage(h) == 0 && !TargetReached(h) && ShowsProgress(h)
      ensures old(home.InSync()) && home.store.available ==> home.InSync()
      ensures UniqueIds(old(home.habits)) && IndexOfId(old(home.habits), id) == -1 ==> UniqueIds(home.habits)
    {
      if Trim(formData.title) == [] {
        return;
      }
      var newHabit := NewHabit(formData, id, createdAt);
      if Valid() {
        NewHabitStartsFresh(formData, id, createdAt);
      }
      AddedHabitShown(home.habits, newHabit, home.filter);
      home.store.AddHabit(newHabit);
      home.OnHabitAdded(newHabit);
      formData := DefaultFormData;
      isOpen := false;
      if UniqueIds(old(home.habits)) && IndexOfId(old(home.habits), id) == -1 {
        AppendFreshKeepsUniqueIds(old(home.habits), newHabit);
      }
    }
  }
}
