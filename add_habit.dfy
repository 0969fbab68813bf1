/** The Add/Edit Habit screen: the rules that decide what Save writes (or
    which message it shows), the two-phase delete, the archive toggle, the
    presets and the mapping of a fetched row into the form. The backend is
    replaced by the answers it gives, passed in as parameters; each handler
    returns the calls it makes, in order. */
module AddHabit {
  import opened Wrappers
  import opened JsStrings

  const MsgRequired := "Name and unit are required."
  const MsgDefaultNotNumber := "Default quantity must be a number."
  const MsgWeeklyNotNumber := "Weekly limit must be a number."
  const MsgNotLoggedIn := "You must be logged in."
  const MsgDuplicate := "You already have a habit with that name."
  const MsgSaveFailed := "Could not save habit. Please try again."
  const MsgSaveChangesFailed := "Could not save changes."
  const MsgDeleteFailed := "Could not delete habit. Please try again."
  const MsgLoadFailed := "Could not load habit."

  /** A JavaScript number, represented by the text `String(n)` renders it as. */
  datatype Num = Num(text: string)

  /** A row of the habits table as the edit screen selects it; any column may be null. */
  datatype HabitRow = HabitRow(
    id: string,
    name: Option<string>,
    unit: Option<string>,
    defaultQuantity: Option<Num>,
    weeklyLimit: Option<Num>,
    active: Option<bool>)

  /** An `(id, name)` pair listed for the duplicate check. */
  datatype ExistingHabit = ExistingHabit(id: string, name: Option<string>)

  /** The columns Save writes. A numeric column is null or holds the text
      whose `parseFloat` value is written. */
  datatype HabitFields = HabitFields(
    name: string,
    unit: string,
    defaultQuantity: Option<string>,
    weeklyLimit: Option<string>,
    active: bool)

  /** Update keyed by the habit id in edit mode; insert tagged with the user id otherwise. */
  datatype HabitWrite =
    | Update(id: string, fields: HabitFields)
    | Insert(userId: string, fields: HabitFields)

  /** What a handler asks of the outside world: backend calls and navigation. */
  datatype Effect =
    | FetchHabit(id: string)
    | GetSession
    | ListHabits
    | Write(write: HabitWrite)
    | DeleteHabit(id: string)
    | NavigateBack

  /** The answer to the `(id, name)` listing: an error, or data that may be null. */
  datatype Listing = ListingFailed | Listed(rows: Option<seq<ExistingHabit>>)

  /** The form after validation: trimmed name and unit, parsed optional numbers. */
  datatype ValidForm = ValidForm(
    name: string,
    unit: string,
    defaultQuantity: Option<string>,
    weeklyLimit: Option<string>)

  /** The four text inputs and the archive flag of the form. */
  datatype FormFields = FormFields(
    name: string,
    unit: string,
    defaultQuantity: string,
    weeklyLimit: string,
    isArchived: bool)

  /** A preset button: it fills name, unit and default quantity. */
  datatype Preset = Preset(buttonLabel: string, name: string, unit: string, defaultQuantity: Num)

  const Presets: seq<Preset> := [
    Preset("Weed", "Weed", "grams", Num("0.1")),
    Preset("Alcohol", "Alcohol", "drinks", Num("1")),
    Preset("Smoking", "Smoking", "cigarettes", Num("1")),
    Preset("Coffee", "Coffee", "cups", Num("1")),
    Preset("Running", "Running", "km", Num("1")),
    Preset("Calories", "Calories", "kcal", Num("100"))
  ]

  // ---------------------------------------------------------------------
  // Validation

  /** An optional numeric input passes when blank or when `parseFloat` reads a number from it. */
  function NumericInputOk(raw: string): (r: bool)
    ensures r <==> AllWhitespace(raw) || ParseFloatReadsNumber(raw)
  {
    TrimBlankIff(raw);
    Trim(raw) == [] || ParseFloatReadsNumber(raw)
  }

  /** The value an optional numeric input stands for: null when blank. */
  function NumericValue(raw: string): (r: Option<string>)
    ensures r.None? <==> Trim(raw) == []
    ensures r.Some? ==> r.value == raw
  {
    if Trim(raw) == [] then None else Some(raw)
  }

  /** The checks Save runs before any backend call, first failure wins:
      name and unit, then default quantity, then weekly limit. */
  function Validate(name: string, unit: string, defaultQuantity: string, weeklyLimit: string): (r: Result<ValidForm>)
    ensures Trim(name) == [] || Trim(unit) == [] ==> r == Err(MsgRequired)
    ensures Trim(name) != [] && Trim(unit) != [] && !NumericInputOk(defaultQuantity) ==>
      r == Err(MsgDefaultNotNumber)
    ensures Trim(name) != [] && Trim(unit) != [] && NumericInputOk(defaultQuantity) && !NumericInputOk(weeklyLimit) ==>
      r == Err(MsgWeeklyNotNumber)
    ensures r.Ok? <==>
      Trim(name) != [] && Trim(unit) != [] && NumericInputOk(defaultQuantity) && NumericInputOk(weeklyLimit)
    ensures r.Ok? ==>
      && r.value.name != [] && IsTrimmed(r.value.name) && r.value.name == Trim(name)
      && r.value.unit != [] && IsTrimmed(r.value.unit) && r.value.unit == Trim(unit)
    ensures r.Ok? ==>
      r.value.defaultQuantity == NumericValue(defaultQuantity) && r.value.weeklyLimit == NumericValue(weeklyLimit)
  {
    var trimmedName := Trim(name);
    var trimmedUnit := Trim(unit);
    if trimmedName == [] || trimmedUnit == [] then
      Err(MsgRequired)
    else if !NumericInputOk(defaultQuantity) then
      Err(MsgDefaultNotNumber)
    else if !NumericInputOk(weeklyLimit) then
      Err(MsgWeeklyNotNumber)
    else
      Ok(ValidForm(trimmedName, trimmedUnit, NumericValue(defaultQuantity), NumericValue(weeklyLimit)))
  }

  /** A blank optional input never causes an error and stands for null. */
  lemma BlankOptionalInputs(name: string, unit: string, defaultQuantity: string, weeklyLimit: string)
    requires Trim(defaultQuantity) == [] && Trim(weeklyLimit) == []
    ensures Trim(name) != [] && Trim(unit) != [] ==>
      Validate(name, unit, defaultQuantity, weeklyLimit) ==
        Ok(ValidForm(Trim(name), Trim(unit), None, None))
    ensures Validate(name, unit, defaultQuantity, weeklyLimit) != Err(MsgDefaultNotNumber)
    ensures Validate(name, unit, defaultQuantity, weeklyLimit) != Err(MsgWeeklyNotNumber)
  {
  }

  // ---------------------------------------------------------------------
  // Duplicate names

  /** The comparison key of a name: trimmed, then lower-cased. */
  function NameKey(name: string): string {
    ToLower(Trim(name))
  }

  /** Whether a listed habit takes part in the check: in edit mode the habit
      being edited does not. */
  predicate Compared(h: ExistingHabit, habitId: Option<string>) {
    !(habitId.Some? && h.id == habitId.value)
  }

  /** Whether the listed habit `h` clashes with the already trimmed candidate name. */
  predicate Clashes(h: ExistingHabit, trimmedName: string, habitId: Option<string>) {
    Compared(h, habitId) && NameKey(h.name.GetOr("")) == ToLower(trimmedName)
  }

  /** The duplicate scan over the listed habits, habit by habit. */
  function HasDuplicate(habits: seq<ExistingHabit>, trimmedName: string, habitId: Option<string>): (r: bool)
    ensures r ==> exists i :: 0 <= i < |habits| && Clashes(habits[i], trimmedName, habitId)
  {
    if habits == [] then false
    else if Clashes(habits[0], trimmedName, habitId) then true
    else
      var r := HasDuplicate(habits[1..], trimmedName, habitId);
      assert forall k :: 0 <= k < |habits[1..]| ==> habits[1..][k] == habits[k + 1];
      r
  }

  /** The scan finds a duplicate exactly when some habit other than the one
      being edited has the candidate's key. */
  lemma {:induction false} HasDuplicateIff(habits: seq<ExistingHabit>, trimmedName: string, habitId: Option<string>)
    ensures HasDuplicate(habits, trimmedName, habitId) <==>
      exists i :: 0 <= i < |habits| && Clashes(habits[i], trimmedName, habitId)
  {
    if habits != [] {
      var rest := habits[1..];
      HasDuplicateIff(rest, trimmedName, habitId);
      if Clashes(habits[0], trimmedName, habitId) {
        assert 0 < |habits| && Clashes(habits[0], trimmedName, habitId);
      } else if HasDuplicate(rest, trimmedName, habitId) {
        var k :| 0 <= k < |rest| && Clashes(rest[k], trimmedName, habitId);
        assert habits[k + 1] == rest[k];
      } else {
        forall i | 0 <= i < |habits| ensures !Clashes(habits[i], trimmedName, habitId) {
          if i > 0 {
            assert habits[i] == rest[i - 1];
          }
        }
      }
    }
  }

  /** Names that differ only in case and surrounding whitespace clash: a
      candidate `w1 + c + w2` with whitespace `w1`, `w2` and `c` equal to a
      listed name up to case is a duplicate. */
  lemma CaseAndPaddingVariantIsDuplicate(
    habits: seq<ExistingHabit>, i: nat, w1: string, c: string, w2: string, habitId: Option<string>)
    requires i < |habits| && Compared(habits[i], habitId) && habits[i].name.Some?
    requires AllWhitespace(w1) && AllWhitespace(w2)
    requires ToLower(c) == ToLower(habits[i].name.value)
    ensures HasDuplicate(habits, Trim(w1 + c + w2), habitId)
  {
    var n := habits[i].name.value;
    TrimIgnoresPadding(w1, c, w2);
    ToLowerTrim(c);
    ToLowerTrim(n);
    assert Clashes(habits[i], Trim(w1 + c + w2), habitId);
    HasDuplicateIff(habits, Trim(w1 + c + w2), habitId);
  }

  /** Editing a habit never clashes with its own record: if every listed habit
      with the candidate's key is the one being edited, there is no duplicate. */
  lemma KeepingOwnNameIsNotDuplicate(habits: seq<ExistingHabit>, candidate: string, id: string)
    requires forall i :: 0 <= i < |habits| && NameKey(habits[i].name.GetOr("")) == NameKey(candidate) ==>
      habits[i].id == id
    ensures !HasDuplicate(habits, Trim(candidate), Some(id))
  {
    HasDuplicateIff(habits, Trim(candidate), Some(id));
  }

  /** In create mode every listed habit takes part: a listed habit with the
      candidate's key is always a duplicate. */
  lemma CreateRejectsEveryClash(habits: seq<ExistingHabit>, candidate: string, i: nat)
    requires i < |habits| && NameKey(habits[i].name.GetOr("")) == NameKey(candidate)
    ensures HasDuplicate(habits, Trim(candidate), None)
  {
    assert Clashes(habits[i], Trim(candidate), None);
    HasDuplicateIff(habits, Trim(candidate), None);
  }

  /** No two habits of the list share a key. */
  predicate NamesUnique(habits: seq<ExistingHabit>) {
    forall i, j :: 0 <= i < j < |habits| ==>
      NameKey(habits[i].name.GetOr("")) != NameKey(habits[j].name.GetOr(""))
  }

  /** No two habits of the list share an id. */
  predicate IdsUnique(habits: seq<ExistingHabit>) {
    forall i, j :: 0 <= i < j < |habits| ==> habits[i].id != habits[j].id
  }

  /** The key of a saved name is the key of the name typed. */
  lemma SavedNameKey(candidate: string)
    ensures NameKey(Trim(candidate)) == NameKey(candidate)
  {
    TrimIdempotent(candidate);
  }

  /** Inserting a name that passed the check keeps the names unique. */
  lemma InsertKeepsNamesUnique(habits: seq<ExistingHabit>, candidate: string, newId: string)
    requires NamesUnique(habits)
    requires !HasDuplicate(habits, Trim(candidate), None)
    ensures NamesUnique(habits + [ExistingHabit(newId, Some(Trim(candidate)))])
  {
    HasDuplicateIff(habits, Trim(candidate), None);
    var saved := ExistingHabit(newId, Some(Trim(candidate)));
    var after := habits + [saved];
    assert NameKey(saved.name.GetOr("")) == ToLower(Trim(candidate)) by {
      SavedNameKey(candidate);
    }
    forall i, j | 0 <= i < j < |after|
      ensures NameKey(after[i].name.GetOr("")) != NameKey(after[j].name.GetOr(""))
    {
      assert after[i] == habits[i];
      if j == |habits| {
        assert after[j] == saved;
        assert !Clashes(habits[i], Trim(candidate), None);
      } else {
        assert after[j] == habits[j];
      }
    }
  }

  /** The list after the habit `id` is renamed. */
  function Renamed(habits: seq<ExistingHabit>, id: string, newName: string): (r: seq<ExistingHabit>)
    ensures |r| == |habits|
    ensures forall i :: 0 <= i < |habits| ==>
      r[i] == if habits[i].id == id then ExistingHabit(id, Some(newName)) else habits[i]
  {
    seq(|habits|, i requires 0 <= i < |habits| =>
      if habits[i].id == id then ExistingHabit(id, Some(newName)) else habits[i])
  }

  /** Renaming a habit to a name that passed the check keeps the names unique. */
  lemma UpdateKeepsNamesUnique(habits: seq<ExistingHabit>, candidate: string, id: string)
    requires NamesUnique(habits) && IdsUnique(habits)
    requires !HasDuplicate(habits, Trim(candidate), Some(id))
    ensures NamesUnique(Renamed(habits, id, Trim(candidate)))
  {
    SavedNameKey(candidate);
    HasDuplicateIff(habits, Trim(candidate), Some(id));
    var after := Renamed(habits, id, Trim(candidate));
    forall i, j | 0 <= i < j < |after|
      ensures NameKey(after[i].name.GetOr("")) != NameKey(after[j].name.GetOr(""))
    {
      if habits[i].id == id {
        assert !Clashes(habits[j], Trim(candidate), Some(id));
      } else if habits[j].id == id {
        assert !Clashes(habits[i], Trim(candidate), Some(id));
      }
    }
  }

  // ---------------------------------------------------------------------
  // The write and its failure

  /** The write Save issues once every check passed. */
  function WriteFor(v: ValidForm, habitId: Option<string>, isArchived: bool, userId: string): (w: HabitWrite)
    ensures w.fields.name == v.name && w.fields.unit == v.unit
    ensures w.fields.defaultQuantity == v.defaultQuantity && w.fields.weeklyLimit == v.weeklyLimit
    ensures habitId.Some? ==> w.Update? && w.id == habitId.value && w.fields.active == !isArchived
    ensures habitId.None? ==> w.Insert? && w.userId == userId && w.fields.active
  {
    match habitId
    case Some(id) =>
      Update(id, HabitFields(v.name, v.unit, v.defaultQuantity, v.weeklyLimit, !isArchived))
    case None =>
      Insert(userId, HabitFields(v.name, v.unit, v.defaultQuantity, v.weeklyLimit, true))
  }

  /** What is written always carries the trimmed, non-empty name and unit typed. */
  lemma WrittenNameAndUnitAreTrimmed(
    name: string, unit: string, defaultQuantity: string, weeklyLimit: string,
    habitId: Option<string>, isArchived: bool, userId: string)
    requires Validate(name, unit, defaultQuantity, weeklyLimit).Ok?
    ensures var w := WriteFor(Validate(name, unit, defaultQuantity, weeklyLimit).value, habitId, isArchived, userId);
      && w.fields.name == Trim(name) && w.fields.name != [] && Trim(w.fields.name) == w.fields.name
      && w.fields.unit == Trim(unit) && w.fields.unit != [] && Trim(w.fields.unit) == w.fields.unit
  {
    TrimIdempotent(name);
    TrimIdempotent(unit);
  }

  /** A backend message reports a uniqueness violation when, lower-cased, it
      contains "duplicate" or "unique". */
  function IsUniquenessViolation(message: string): (r: bool)
    ensures r <==> OccursIn("duplicate", ToLower(message)) || OccursIn("unique", ToLower(message))
  {
    var m := ToLower(message);
    Includes(m, "duplicate") || Includes(m, "unique")
  }

  /** The message shown when the write fails. */
  function WriteErrorMessage(backendMessage: string, editMode: bool): (m: string)
    ensures m == MsgDuplicate <==> IsUniquenessViolation(backendMessage)
    ensures !IsUniquenessViolation(backendMessage) ==>
      m == if editMode then MsgSaveChangesFailed else MsgSaveFailed
  {
    if IsUniquenessViolation(backendMessage) then MsgDuplicate
    else if editMode then MsgSaveChangesFailed
    else MsgSaveFailed
  }

  /** The classification ignores case. */
  lemma UniquenessIgnoresCase(message: string)
    ensures IsUniquenessViolation(message) <==> IsUniquenessViolation(ToLower(message))
  {
    ToLowerIdempotent(message);
  }

  /** A message with the word "duplicate" or "unique" anywhere in it, written
      in any case, reads as a duplicate. */
  lemma KeywordAnywhereIsDuplicate(before: string, word: string, after: string, editMode: bool)
    requires ToLower(word) == "duplicate" || ToLower(word) == "unique"
    ensures WriteErrorMessage(before + word + after, editMode) == MsgDuplicate
  {
    var m := ToLower(before + word + after);
    assert ToLower(word) <= m[|before|..] by {
      forall k | 0 <= k < |word| ensures m[|before|..][k] == ToLower(word)[k] {
        assert (before + word + after)[|before| + k] == word[k];
      }
    }
  }

  // ---------------------------------------------------------------------
  // Loading a row, presets

  /** The text a nullable numeric column shows in the form. */
  function NumText(n: Option<Num>): string {
    match n
    case None => ""
    case Some(x) => x.text
  }

  /** The value a nullable numeric column is written back as. */
  function NumValue(n: Option<Num>): Option<string> {
    match n
    case None => None
    case Some(x) => Some(x.text)
  }

  /** The form a fetched row fills: null text becomes empty, a null number
      becomes an empty input, and the habit counts as archived exactly when
      `active` is false (not when it is null). */
  function FormFromRow(row: HabitRow): (f: FormFields)
    ensures f.name == row.name.GetOr("") && f.unit == row.unit.GetOr("")
    ensures row.defaultQuantity.None? ==> f.defaultQuantity == ""
    ensures row.defaultQuantity.Some? ==> f.defaultQuantity == row.defaultQuantity.value.text
    ensures row.weeklyLimit.None? ==> f.weeklyLimit == ""
    ensures row.weeklyLimit.Some? ==> f.weeklyLimit == row.weeklyLimit.value.text
    ensures f.isArchived <==> row.active == Some(false)
  {
    FormFields(row.name.GetOr(""), row.unit.GetOr(""), NumText(row.defaultQuantity),
      NumText(row.weeklyLimit), row.active == Some(false))
  }

  /** Loading a row and saving the form unchanged writes the row back: the
      same numbers, the name and unit trimmed, and `active` kept, a null
      `active` becoming true. */
  lemma LoadThenSaveWritesRowBack(row: HabitRow, userId: string)
    requires row.name.Some? && Trim(row.name.value) != []
    requires row.unit.Some? && Trim(row.unit.value) != []
    requires row.defaultQuantity.Some? ==> ParseFloatReadsNumber(row.defaultQuantity.value.text)
    requires row.weeklyLimit.Some? ==> ParseFloatReadsNumber(row.weeklyLimit.value.text)
    ensures var f := FormFromRow(row);
      var v := Validate(f.name, f.unit, f.defaultQuantity, f.weeklyLimit);
      && v.Ok?
      && WriteFor(v.value, Some(row.id), f.isArchived, userId) ==
        Update(row.id, HabitFields(Trim(row.name.value), Trim(row.unit.value),
          NumValue(row.defaultQuantity), NumValue(row.weeklyLimit), row.active != Some(false)))
  {
    var f := FormFromRow(row);
    assert NumericInputOk(f.defaultQuantity) && NumericValue(f.defaultQuantity) == NumValue(row.defaultQuantity);
    assert NumericInputOk(f.weeklyLimit) && NumericValue(f.weeklyLimit) == NumValue(row.weeklyLimit);
    var v := Validate(f.name, f.unit, f.defaultQuantity, f.weeklyLimit);
    assert v == Ok(ValidForm(Trim(row.name.value), Trim(row.unit.value),
      NumValue(row.defaultQuantity), NumValue(row.weeklyLimit)));
  }

  /** The shape every preset has: a trimmed, non-empty name and unit and a
      default quantity that starts with a digit. */
  predicate WellShaped(p: Preset) {
    && p.name != [] && IsTrimmed(p.name) && p.unit != [] && IsTrimmed(p.unit)
    && p.defaultQuantity.text != [] && IsDigit(p.defaultQuantity.text[0])
  }

  /** Every preset has that shape. */
  lemma PresetsWellShaped()
    ensures forall p :: p in Presets ==> WellShaped(p)
  {
    assert WellShaped(Presets[0]) by { assert !IsWhitespace('W') && !IsWhitespace('d') && !IsWhitespace('g') && !IsWhitespace('s'); }
    assert WellShaped(Presets[1]) by { assert !IsWhitespace('A') && !IsWhitespace('l') && !IsWhitespace('d') && !IsWhitespace('s'); }
    assert WellShaped(Presets[2]) by { assert !IsWhitespace('S') && !IsWhitespace('g') && !IsWhitespace('c') && !IsWhitespace('s'); }
    assert WellShaped(Presets[3]) by { assert !IsWhitespace('C') && !IsWhitespace('e') && !IsWhitespace('c') && !IsWhitespace('s'); }
    assert WellShaped(Presets[4]) by { assert !IsWhitespace('R') && !IsWhitespace('g') && !IsWhitespace('k') && !IsWhitespace('m'); }
    assert WellShaped(Presets[5]) by { assert !IsWhitespace('C') && !IsWhitespace('s') && !IsWhitespace('k') && !IsWhitespace('l'); }
  }

  /** A form filled with a trimmed name and unit and a default quantity that
      starts with a digit passes validation for any valid weekly limit. */
  lemma PresetShapeValidates(p: Preset, weeklyLimit: string)
    requires WellShaped(p)
    requires NumericInputOk(weeklyLimit)
    ensures var v := Validate(p.name, p.unit, p.defaultQuantity.text, weeklyLimit);
      v.Ok? && v.value.name == p.name && v.value.unit == p.unit &&
      v.value.defaultQuantity == Some(p.defaultQuantity.text)
  {
    TrimOfTrimmed(p.name);
    TrimOfTrimmed(p.unit);
    var q := p.defaultQuantity.text;
    assert !IsWhitespace(q[0]);
    assert TrimStart(q) == q;
  }

  /** Every preset fills a form that passes validation whatever valid weekly
      limit is typed, with its default quantity as the written value. */
  lemma PresetsPassValidation(p: Preset, weeklyLimit: string)
    requires p in Presets
    requires NumericInputOk(weeklyLimit)
    ensures var v := Validate(p.name, p.unit, p.defaultQuantity.text, weeklyLimit);
      v.Ok? && v.value.name == p.name && v.value.unit == p.unit &&
      v.value.defaultQuantity == Some(p.defaultQuantity.text)
  {
    PresetsWellShaped();
    PresetShapeValidates(p, weeklyLimit);
  }

  // ---------------------------------------------------------------------
  // The two-phase delete

  datatype DeleteEvent = PressDelete | CancelDelete

  /** Whether the delete button is armed after an event: a press on an
      unarmed button arms it, a press on an armed button runs the deletion
      and disarms it whatever the outcome, a cancel disarms it. */
  function NextArmed(armed: bool, e: DeleteEvent): (r: bool)
    ensures r ==> e == PressDelete && !armed
    ensures !armed && e == PressDelete ==> r
  {
    match e
    case PressDelete => !armed
    case CancelDelete => false
  }

  /** Whether the button is armed after the events, starting unarmed. */
  function ArmedAfter(events: seq<DeleteEvent>): bool {
    if events == [] then false
    else NextArmed(ArmedAfter(events[..|events| - 1]), events[|events| - 1])
  }

  /** Whether the event at `i` runs the deletion: a press on an armed button. */
  predicate RunsDeletion(events: seq<DeleteEvent>, i: nat) {
    i < |events| && events[i] == PressDelete && ArmedAfter(events[..i])
  }

  /** A press runs the deletion exactly when the event before it is a press
      that only armed the button: two consecutive presses, no cancel between. */
  lemma {:induction false} DeletionNeedsTwoPresses(events: seq<DeleteEvent>, i: nat)
    requires i < |events| && events[i] == PressDelete
    ensures RunsDeletion(events, i) <==>
      i >= 1 && events[i - 1] == PressDelete && !RunsDeletion(events, i - 1)
  {
    if i >= 1 {
      assert events[..i][..i - 1] == events[..i - 1];
      assert events[..i][i - 1] == events[i - 1];
    }
  }

  // ---------------------------------------------------------------------
  // The screen's state

  /** The screen's state; `habitId` is the route parameter, present in edit mode. */
  class HabitForm {
    const habitId: Option<string>
    var name: string
    var unit: string
    var defaultQuantity: string
    var weeklyLimit: string
    var isSaving: bool
    var errorMessage: string
    var isLoadingHabit: bool
    var isArchived: bool
    var confirmDelete: bool

    constructor (habitId: Option<string>)
      ensures this.habitId == habitId
      ensures name == "" && unit == "" && defaultQuantity == "" && weeklyLimit == ""
      ensures !isSaving && errorMessage == "" && !isLoadingHabit && !isArchived && !confirmDelete
    {
      this.habitId := habitId;
      name, unit, defaultQuantity, weeklyLimit := "", "", "", "";
      isSaving, errorMessage, isLoadingHabit := false, "", false;
      isArchived, confirmDelete := false, false;
    }

    /** The form's inputs and archive flag. */
    function Fields(): FormFields
      reads this
    {
      FormFields(name, unit, defaultQuantity, weeklyLimit, isArchived)
    }

    /** The fetch effect of edit mode: it fetches the habit by id; `answer`
        is the row, or None when the fetch failed or found nothing. In create
        mode nothing happens. */
    method Load(answer: Option<HabitRow>) returns (effects: seq<Effect>)
      modifies this`name, this`unit, this`defaultQuantity, this`weeklyLimit
      modifies this`isArchived, this`errorMessage, this`isLoadingHabit
      ensures habitId.None? ==> effects == [] && unchanged(this)
      ensures habitId.Some? ==> effects == [FetchHabit(habitId.value)]
      ensures habitId.Some? ==> !isLoadingHabit
      ensures habitId.Some? && answer.None? ==>
        errorMessage == MsgLoadFailed && Fields() == old(Fields())
      ensures habitId.Some? && answer.Some? ==>
        Fields() == FormFromRow(answer.value) && errorMessage == old(errorMessage)
    {
      if habitId.None? {
        return [];
      }
      isLoadingHabit := true;
      effects := [FetchHabit(habitId.value)];
      if answer.None? {
        errorMessage := MsgLoadFailed;
        isLoadingHabit := false;
        return;
      }
      var row := answer.value;
      name := row.name.GetOr("");
      unit := row.unit.GetOr("");
      defaultQuantity := if row.defaultQuantity.None? then "" else row.defaultQuantity.value.text;
      weeklyLimit := if row.weeklyLimit.None? then "" else row.weeklyLimit.value.text;
      isArchived := row.active == Some(false);
      isLoadingHabit := false;
    }

    /** A preset button (create mode only): fills name, unit and default quantity. */
    method ApplyPreset(p: Preset)
      requires habitId.None?
      modifies this`name, this`unit, this`defaultQuantity
      ensures name == p.name && unit == p.unit && defaultQuantity == p.defaultQuantity.text
    {
      name := p.name;
      unit := p.unit;
      defaultQuantity := p.defaultQuantity.text;
    }

    /** The archive button flips the flag locally; only Save persists it. */
    method ToggleArchive()
      modifies this`isArchived
      ensures isArchived == !old(isArchived)
    {
      isArchived := !isArchived;
    }

    /** The Save button. `session` is the signed-in user's id, if any;
        `listing` answers the `(id, name)` listing; `writeError` is the
        message of a failed write, None when the write succeeds. The calls
        made are returned in order; answers that are never asked for are
        ignored. */
    method Save(session: Option<string>, listing: Listing, writeError: Option<string>)
      returns (effects: seq<Effect>)
      modifies this`isSaving, this`errorMessage
      // validation fails: its message, no call, isSaving untouched
      ensures var v := old(Validate(name, unit, defaultQuantity, weeklyLimit));
        v.Err? ==> effects == [] && errorMessage == v.message && isSaving == old(isSaving)
      ensures var v := old(Validate(name, unit, defaultQuantity, weeklyLimit));
        v.Ok? ==> SubmitOutcome(v.value, old(isArchived), session, listing, writeError, effects)
    {
      var v := Validate(name, unit, defaultQuantity, weeklyLimit);
      if v.Err? {
        errorMessage := v.message;
        effects := [];
        return;
      }
      effects := Submit(v.value, session, listing, writeError);
    }

    /** What Save does once validation passed: every path ends with isSaving
        cleared; no session, a failed listing and a duplicate each stop with
        their message; otherwise the write is issued, and its failure shows
        WriteErrorMessage while success clears the message and goes back. */
    ghost predicate SubmitOutcome(form: ValidForm, wasArchived: bool, session: Option<string>, listing: Listing,
                                  writeError: Option<string>, effects: seq<Effect>)
      reads this
    {
      && !isSaving
      && (session.None? ==> effects == [GetSession] && errorMessage == MsgNotLoggedIn)
      && (session.Some? && listing.ListingFailed? ==>
            effects == [GetSession, ListHabits] && errorMessage == MsgSaveFailed)
      && (session.Some? && listing.Listed? && HasDuplicate(listing.rows.GetOr([]), form.name, habitId) ==>
            effects == [GetSession, ListHabits] && errorMessage == MsgDuplicate)
      && (session.Some? && listing.Listed? && !HasDuplicate(listing.rows.GetOr([]), form.name, habitId) ==>
            var w := WriteFor(form, habitId, wasArchived, session.value);
            && effects == [GetSession, ListHabits, Write(w)] + (if writeError.None? then [NavigateBack] else [])
            && errorMessage == if writeError.None? then "" else WriteErrorMessage(writeError.value, habitId.Some?))
    }

    /** Save past validation: the session, the listing, the duplicate scan
        and the write, with the answers each call gets. */
    method Submit(form: ValidForm, session: Option<string>, listing: Listing, writeError: Option<string>)
      returns (effects: seq<Effect>)
      modifies this`isSaving, this`errorMessage
      ensures SubmitOutcome(form, old(isArchived), session, listing, writeError, effects)
    {
      errorMessage := "";
      isSaving := true;

      effects := [GetSession];
      if session.None? {
        errorMessage := MsgNotLoggedIn;
        isSaving := false;
        return;
      }

      effects := [GetSession, ListHabits];
      if listing.ListingFailed? {
        errorMessage := MsgSaveFailed;
        isSaving := false;
        return;
      }

      var existing := listing.rows.GetOr([]);
      if HasDuplicate(existing, form.name, habitId) {
        errorMessage := MsgDuplicate;
        isSaving := false;
        return;
      }

      var write := WriteFor(form, habitId, isArchived, session.value);
      effects := [GetSession, ListHabits, Write(write)];
      if writeError.Some? {
        if IsUniquenessViolation(writeError.value) {
          errorMessage := MsgDuplicate;
        } else if habitId.Some? {
          errorMessage := MsgSaveChangesFailed;
        } else {
          errorMessage := MsgSaveFailed;
        }
        isSaving := false;
        return;
      }

      isSaving := false;
      effects := [GetSession, ListHabits, Write(write), NavigateBack];
    }

    /** The delete button (edit mode only). Unarmed, a press only arms it.
        Armed, a press asks for the session, deletes by id when signed in,
        goes back on success, and disarms on every outcome. */
    method PressDelete(session: Option<string>, deleteFailed: bool) returns (effects: seq<Effect>)
      requires habitId.Some?
      modifies this`confirmDelete, this`isSaving, this`errorMessage
      ensures confirmDelete == NextArmed(old(confirmDelete), DeleteEvent.PressDelete)
      ensures !old(confirmDelete) ==>
        effects == [] && isSaving == old(isSaving) && errorMessage == old(errorMessage)
      ensures old(confirmDelete) ==> !isSaving
      ensures old(confirmDelete) && session.None? ==>
        effects == [GetSession] && errorMessage == MsgNotLoggedIn
      ensures old(confirmDelete) && session.Some? ==>
        && effects == [GetSession, DeleteHabit(habitId.value)] + (if deleteFailed then [] else [NavigateBack])
        && errorMessage == if deleteFailed then MsgDeleteFailed else ""
    {
      effects := [];
      if !confirmDelete {
        confirmDelete := true;
        return;
      }

      errorMessage := "";
      isSaving := true;

      effects := [GetSession];
      if session.None? {
        errorMessage := MsgNotLoggedIn;
        isSaving := false;
        confirmDelete := false;
        return;
      }

      effects := [GetSession, DeleteHabit(habitId.value)];
      if deleteFailed {
        errorMessage := MsgDeleteFailed;
        isSaving := false;
        confirmDelete := false;
        return;
      }

      isSaving := false;
      confirmDelete := false;
      effects := [GetSession, DeleteHabit(habitId.value), NavigateBack];
    }

    /** The cancel button shown while armed: disarms without deleting. */
    method CancelDelete()
      modifies this`confirmDelete
      ensures confirmDelete == NextArmed(old(confirmDelete), DeleteEvent.CancelDelete)
      ensures !confirmDelete
    {
      confirmDelete := false;
    }
  }
}
