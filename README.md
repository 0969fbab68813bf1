# Habit tracker client: form and session logic in Dafny

This project models the two pieces of client-side logic in a mobile habit
tracker whose data and authentication live in a remote backend:

- **The Add/Edit Habit screen** (`app/add-habit.tsx`). Save runs its checks
  in a fixed order, and the first failure decides the message: name and unit
  are required after trimming; then the optional default quantity and weekly
  limit must be numbers; then a session must exist. Next comes a duplicate-name
  check, which compares names trimmed and case-insensitively and skips the
  habit being edited. Finally Save issues an update (edit mode) or an insert
  (create mode) and maps a failed write to a duplicate message or a generic
  one. The screen also has a two-phase delete, a local archive toggle that is
  persisted only on Save, preset buttons, and the loading of a fetched row
  into the form.
- **The root layout** (`app/_layout.tsx`). It tracks the auth session. Until
  the first session lookup resolves it shows a loading view. After that it
  redirects signed-out users to `/login` and signed-in users away from
  `/login` to `/home`. It also upserts the signed-in user's profile unless
  that user is the one whose profile it last upserted.

Modules:

- `Wrappers` (`wrappers.dfy`): `Option` for nullable values (`GetOr` is
  `??`) and `Result` for a validation outcome.
- `JsStrings` (`js_strings.dfy`): the JavaScript string primitives used.
  `Trim` strips the ECMAScript WhiteSpace and LineTerminator set. `ToLower`
  lower-cases the capitals of Basic Latin and Latin-1. `Includes` is
  `String.prototype.includes`. `ParseFloatReadsNumber` says when `parseFloat`
  does not return NaN: after leading whitespace and an optional sign, the text
  starts with `Infinity`, a digit, or a point followed by a digit. Any text
  after that prefix is ignored, so `"3abc"` counts as a number. The model
  never claims that the whole text is numeric.
- `AddHabit` (`add_habit.dfy`): pure functions for validation, the duplicate
  scan, the write payload, write-error classification and row loading, and
  lemmas about them. It also holds the class `HabitForm`, whose fields are the
  screen's React state. Its handlers are methods. Each handler takes the
  backend's answers as parameters and returns the calls it makes, in order
  (`FetchHabit`, `GetSession`, `ListHabits`, `Write`, `DeleteHabit`,
  `NavigateBack`).
- `RootLayout` (`root_layout.dfy`): the pure redirect decision and the layout
  state machine (`Step`, `Run` over events), with lemmas about them. It also
  holds the class `LayoutController`, whose methods are proved to move its
  fields exactly as `Step` does.

Two behaviours of the code worth knowing:

- The profile guard at `app/_layout.tsx:47` remembers only the last upserted
  user id. So signing in as `a`, then `b`, then `a` again upserts `a` twice
  (`SwitchingBackUpsertsAgain`). The upsert is idempotent, so the effect is
  one extra write.
- `app/index.tsx` redirects signed-in users to `/(tabs)`, while the layout
  redirects them to `/home`. The model covers only the layout and does not
  reconcile the two.

## Model

| member | source | states |
|---|---|---|
| JsStrings.Trim | app/add-habit.tsx:202-203 | the result has no whitespace at either end and is no longer than the input |
| JsStrings.TrimBlankIff | app/add-habit.tsx:204 | a text trims to empty exactly when it is all whitespace, so `!trimmedName` means a blank input |
| JsStrings.TrimStart | app/add-habit.tsx:209-212 | the leading whitespace `parseFloat` skips: the result does not start with whitespace and is no longer than the input |
| JsStrings.TrimStartDrops | app/add-habit.tsx:209-212 | TrimStart keeps a suffix of the text, and every character it drops is whitespace |
| JsStrings.TrimEnd | app/add-habit.tsx:202-203 | the result does not end with whitespace and is no longer than the input |
| JsStrings.TrimEndDrops | app/add-habit.tsx:202-203 | TrimEnd keeps a prefix of the text, and every character it drops is whitespace |
| JsStrings.AllWhitespaceAppend | app/add-habit.tsx:252 | whitespace followed by whitespace is all whitespace |
| JsStrings.TrimOfTrimmed | app/add-habit.tsx:202-203 | trim leaves a string with no outer whitespace unchanged |
| JsStrings.TrimIdempotent | app/add-habit.tsx:252 | trimming an already trimmed name changes nothing |
| JsStrings.TrimStartPadded | app/add-habit.tsx:252 | leading whitespace does not change what TrimStart returns |
| JsStrings.TrimEndPadded | app/add-habit.tsx:252 | trailing whitespace does not change what TrimEnd returns |
| JsStrings.TrimStartAppend | app/add-habit.tsx:252 | text after a string that is not all whitespace survives TrimStart |
| JsStrings.TrimEndPrepend | app/add-habit.tsx:252 | text before a string that is not all whitespace survives TrimEnd |
| JsStrings.TrimIgnoresPadding | app/add-habit.tsx:252 | two names differing only by surrounding whitespace trim to the same name |
| JsStrings.ToLower | app/add-habit.tsx:249 | lower-casing keeps the length and maps each character by the case map |
| JsStrings.ToLowerIdempotent | app/add-habit.tsx:275 | lower-casing twice equals lower-casing once |
| JsStrings.LowerCharKeepsWhitespace | app/add-habit.tsx:252 | lower-casing neither creates nor removes whitespace |
| JsStrings.ToLowerTrimStart | app/add-habit.tsx:252 | lower-casing commutes with removing leading whitespace |
| JsStrings.ToLowerTrimEnd | app/add-habit.tsx:252 | lower-casing commutes with removing trailing whitespace |
| JsStrings.ToLowerTrim | app/add-habit.tsx:249-252 | lower-casing commutes with trimming |
| JsStrings.Includes | app/add-habit.tsx:275 | `includes` holds exactly when the searched text occurs at some position of the message |
| JsStrings.ParseFloatReadsNumber | app/add-habit.tsx:209-212 | judged by the first character after leading whitespace: a digit always reads a number, a character other than a sign, a point or `I` never does, and a text that reads a number is never blank after trimming |
| JsStrings.ParseFloatReadsPrefix | app/add-habit.tsx:210 | parseFloat accepts a numeric prefix such as "3abc", so the model does not claim whole-string validation |
| JsStrings.ParseFloatRejectsWord | app/add-habit.tsx:212 | a text without a numeric prefix, such as "abc", is NaN |
| JsStrings.ParseFloatRejectsPoint | app/add-habit.tsx:212 | a lone "." is NaN |
| AddHabit.NumericInputOk | app/add-habit.tsx:209-223 | an optional numeric input passes exactly when it is all whitespace or parseFloat reads a number from it |
| AddHabit.NumericValue | app/add-habit.tsx:209-211 | an optional numeric input stands for null exactly when it is blank after trimming, and otherwise for the text parseFloat reads |
| AddHabit.Validate | app/add-habit.tsx:202-223 | first failure wins: a blank trimmed name or unit gives the required message, whatever the numeric inputs are; then a non-numeric default quantity; then a non-numeric weekly limit; success exactly when all checks pass, with the name and unit trimmed and non-empty and each optional number the NumericValue of its input |
| AddHabit.BlankOptionalInputs | app/add-habit.tsx:209-223 | blank optional inputs never produce an error and are written as null |
| AddHabit.HasDuplicate | app/add-habit.tsx:250-253 | a reported duplicate always has a listed habit, other than the one being edited, with the candidate's key as its witness |
| AddHabit.HasDuplicateIff | app/add-habit.tsx:249-253 | the scan reports a duplicate exactly when some listed habit, other than the one being edited, has the candidate's trimmed lower-cased name |
| AddHabit.CaseAndPaddingVariantIsDuplicate | app/add-habit.tsx:249-253 | a candidate that equals a listed name up to case and surrounding whitespace is a duplicate |
| AddHabit.KeepingOwnNameIsNotDuplicate | app/add-habit.tsx:250-251 | in edit mode, a name whose only match is the habit being edited is never a duplicate |
| AddHabit.CreateRejectsEveryClash | app/add-habit.tsx:250-253 | in create mode, any listed habit with the same key makes the name a duplicate |
| AddHabit.SavedNameKey | app/add-habit.tsx:249-265 | the stored trimmed name has the same comparison key as the name typed |
| AddHabit.InsertKeepsNamesUnique | app/add-habit.tsx:249-298 | inserting a name that passed the check keeps names unique by trimmed, case-insensitive key |
| AddHabit.Renamed | app/add-habit.tsx:262-271 | the update renames only the habit with the edited id and leaves every other habit as it was |
| AddHabit.UpdateKeepsNamesUnique | app/add-habit.tsx:249-272 | renaming a habit to a name that passed the check keeps names unique, given unique ids |
| AddHabit.WriteFor | app/add-habit.tsx:261-298 | the write carries the validated fields; an update is keyed by the habit id with `active = !isArchived`; an insert carries the user id and `active = true` |
| AddHabit.WrittenNameAndUnitAreTrimmed | app/add-habit.tsx:202-298 | the written name and unit are the trimmed inputs, non-empty, and unchanged by a further trim |
| AddHabit.IsUniquenessViolation | app/add-habit.tsx:275 | true exactly when "duplicate" or "unique" occurs somewhere in the lower-cased backend message |
| AddHabit.WriteErrorMessage | app/add-habit.tsx:274-309 | the duplicate message appears exactly when the lower-cased backend message contains "duplicate" or "unique"; otherwise the message is "Could not save changes." on edit and "Could not save habit. Please try again." on create |
| AddHabit.UniquenessIgnoresCase | app/add-habit.tsx:275 | the classification gives the same answer for a message and its lower-cased form |
| AddHabit.KeywordAnywhereIsDuplicate | app/add-habit.tsx:303-304 | a backend message with "duplicate" or "unique" anywhere in it, in any case, gives the duplicate message |
| AddHabit.FormFromRow | app/add-habit.tsx:48-60 | null name or unit becomes empty; a null or undefined number becomes an empty input, otherwise its string form; archived exactly when `active` is false |
| AddHabit.LoadThenSaveWritesRowBack | app/add-habit.tsx:48-60 | saving a freshly loaded form unchanged writes back the row's numbers and trimmed name and unit; `active` is kept, and a null `active` becomes true |
| AddHabit.PresetsWellShaped | app/add-habit.tsx:22-29 | every preset has a trimmed, non-empty name and unit and a default quantity starting with a digit |
| AddHabit.PresetShapeValidates | app/add-habit.tsx:79-83 | a filled form with a trimmed name and unit and a default quantity starting with a digit passes validation |
| AddHabit.PresetsPassValidation | app/add-habit.tsx:22-29 | every preset fills a form that passes validation, and its default quantity is the value written |
| AddHabit.NextArmed | app/add-habit.tsx:147-185 | only a press on an unarmed button leaves it armed; a press on an armed one (which runs the deletion) and a cancel both disarm it |
| AddHabit.DeletionNeedsTwoPresses | app/add-habit.tsx:146-185 | a press deletes exactly when the event before it was a press that only armed the button: two consecutive presses with no cancel between |
| AddHabit.HabitForm.constructor | app/add-habit.tsx:9-17 | every input starts empty and every flag starts false |
| AddHabit.HabitForm.Load | app/add-habit.tsx:31-65 | in create mode nothing changes and no call is made; in edit mode it fetches the habit by id, a fetched row fills the form as FormFromRow says, and a failed fetch shows "Could not load habit." and leaves the inputs alone; loading ends cleared |
| AddHabit.HabitForm.ApplyPreset | app/add-habit.tsx:79-83 | a preset sets the name, the unit and the default quantity's string form |
| AddHabit.HabitForm.ToggleArchive | app/add-habit.tsx:136 | only the local archive flag flips |
| AddHabit.HabitForm.Save | app/add-habit.tsx:201-223 | a failed validation shows its message, makes no call and leaves isSaving alone; a passed one continues as Submit with the validated form and the archive flag held before the press |
| AddHabit.HabitForm.Submit | app/add-habit.tsx:225-314 | isSaving ends false on every path; no session, a failed listing and a duplicate each stop with their message after the calls made so far; otherwise the write WriteFor builds is issued, and a failed write shows WriteErrorMessage while success clears the message and navigates back |
| AddHabit.HabitForm.PressDelete | app/add-habit.tsx:146-177 | unarmed, a press only arms the button; armed, a press asks for the session, deletes by id when signed in, navigates back on success, shows the matching message otherwise, and disarms and clears isSaving on every outcome |
| AddHabit.HabitForm.CancelDelete | app/add-habit.tsx:185 | cancel disarms the delete button and changes nothing else |
| RootLayout.RenderedView | app/_layout.tsx:66-74 | the loading view renders exactly while the first session lookup has not resolved |
| RootLayout.RedirectTarget | app/_layout.tsx:33-43 | no navigation before the lookup resolves; `/login` exactly when signed out and not on `/login`; `/home` exactly when signed in and on `/login`; nothing otherwise |
| RootLayout.RedirectIsStable | app/_layout.tsx:36-42 | on the path it redirected to, the effect does not redirect again |
| RootLayout.UpsertTarget | app/_layout.tsx:45-47 | the upsert is skipped exactly when there is no session or its user id equals the last upserted id; otherwise it targets the session's user |
| RootLayout.Step | app/_layout.tsx:14-64 | the session becomes checked only when the first lookup resolves while mounted; while mounted, the lookup's answer and each auth change become the session, and every other event keeps it; auth changes touch nothing else; the last upserted id changes only after a successful upsert, to that upsert's user; a failed upsert changes nothing; only unmounting unmounts |
| RootLayout.MountedUntilUnmount | app/_layout.tsx:15-28 | the layout stays mounted until the first unmount event |
| RootLayout.CheckedOnlyByResolutionWhileMounted | app/_layout.tsx:17-21 | after any run of events, the session counts as checked exactly when a first-lookup answer arrived before any unmount |
| RootLayout.UpsertOutcome | app/_layout.tsx:55-60 | after a successful upsert the same session is no longer a target; after a failed one the same user stays the target, so the next run of the profile effect (after the session changes) upserts it again |
| RootLayout.NoRepeatUpsertForSameUser | app/_layout.tsx:45-64 | once a user's profile has been upserted, no further upsert happens until a different user signs in, even if the user signs out and back in |
| RootLayout.SwitchingBackUpsertsAgain | app/_layout.tsx:47 | the guard remembers only the last user: signing in as a, then b, then a again targets a a second time |
| RootLayout.LayoutController.constructor | app/_layout.tsx:10-12 | the layout starts mounted, signed out, unchecked, with no upserted user |
| RootLayout.LayoutController.OnSessionResolved | app/_layout.tsx:17-21 | the first lookup's answer moves the state as Step says: ignored once unmounted |
| RootLayout.LayoutController.OnAuthStateChange | app/_layout.tsx:23-25 | an auth change moves the state as Step says: it sets the session only |
| RootLayout.LayoutController.Unmount | app/_layout.tsx:27-30 | unmounting moves the state as Step says |
| RootLayout.LayoutController.SyncProfile | app/_layout.tsx:45-64 | returns the user the guard lets through (none when skipped) and moves the state as Step says: the ref records that user only on success |

## Left out

- `app/login.tsx`, `app/home.tsx`, `app/index.tsx`, `app/(tabs)/index.tsx`, `app/(tabs)/stats.tsx` and `eslint.config.js`: thin wrappers over backend auth and list calls, a one-shot redirect, and lint configuration. They are not part of this model.
- Backend calls (`getSession`, `onAuthStateChange`, the habits and profiles tables) and router navigation: their results are method parameters or events. The screen's calls are returned as `Effect` values. The layout's session lookup and auth subscription arrive as events, and its profile upsert is returned as the upserted user id.
- The profile upsert's timezone (`Intl.DateTimeFormat().resolvedOptions().timeZone`) and the `console.error` logging on failure: foreign calls with no effect on the state.
- Async interleaving: each handler runs to completion as one step. This leaves out the race between the duplicate pre-check and the write, a second press while a save is in flight (the buttons are disabled while `isSaving` is true), and a profile upsert that finishes after the session has changed.
- When React effects run: the redirect decision and the profile effect are functions of the state, and `ProfileSynced` is an event the environment fires. The model does not follow React's dependency tracking, and `ProfileSynced` is not ignored after unmount.
- `parseFloat`'s numeric value and `String(n)`: a written number is represented by the text it is parsed from, and a loaded number by the text `String(n)` shows. Floating point is not modelled.
- JavaScript strings are UTF-16 code units; the model's characters are Unicode scalar values. Whitespace above the Basic Multilingual Plane does not arise for `trim`, so the difference affects only case mapping.
- JsStrings.ToLower: maps only the capitals of Basic Latin and Latin-1 (not U+00D7), because the full Unicode case map of `toLowerCase` is a large table. Every other character is left unchanged.
- The Cancel button (`app/add-habit.tsx:195`) only navigates back. Rendering and styles are left out; a preset's button label is kept as data only.
- `isLoadingHabit` is set to true during the fetch and back to false when it ends. `Load` shows only the final value.
- A failed fetch and a fetch that finds no row both become `None` in `Load`, as the source handles them the same way.
