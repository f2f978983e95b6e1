# Class schedule store — a Dafny model

This project models the logic of a single-page class-schedule widget
(`Dev_XYZ/app.js`). Users add up to eight timed "class" entries. The page
shows which entry is active at the current time, and the user can attach
notes to a selected entry. The model covers three parts:

- **Time arithmetic** (`clock.dfy`, module `Clock`): how `computeEndFromDuration`
  reads `"HH:MM"` strings with `split(":")` and `Number`, adds a start and a
  duration, wraps at 24 hours and formats the result as zero-padded `"HH:MM"`.
  It also models JavaScript's string `<=`, which the active-entry test uses.
- **Entries and the resolver** (`schedule.dfy`, module `Schedule`): the entry
  record and `formatTimeRange`. The `find` calls of `updateActiveClass` give the
  *active* entry (the first entry whose date is today and whose start/end
  window contains the current time, both ends included) and the *focused*
  entry (the selected entry, falling back to the active one). The module also
  has the `filter` and `map` that Remove and Save-notes rebuild the list with,
  and the submit handler's validation and end-time resolution as a pure
  function.
- **The store** (`store.dfy`, module `Store`): class `AppState` holds the
  page's `classes`, `selectedClassId` and whether the add dialog is open. Its
  methods are the handlers that change that state: `OpenModal`, `CloseModal`,
  `Focus`, `Remove`, `SaveNotes` and `Submit`. Each method states its whole new
  state. `Remove`, `SaveNotes` and `Submit` state the new list through
  `WithoutId`, `WithNotes` and `PrepareEntry`, and state which of the
  eight-entry cap, distinct ids and complete entries (non-empty name, start
  and end) they keep. `OpenModal`, `CloseModal` and `Focus` change only the
  dialog flag or the selection; their `modifies` clauses leave the list as it
  was, and `OpenModal` and `CloseModal` keep the cap.

The clock, random ids and storage are parameters. `today` and `now` are passed
to the resolver. The new entry's id is passed to `Submit`. The constructor
takes the list that storage yielded.

Main results:

- `ComputeEndFromDuration` gives no result exactly when the duration is empty
  or an hour piece is not a number. When both times parse, it returns a
  well-formed `"HH:MM"` (hour 00–23, minute 00–59) that names
  `(start + duration) mod 1440` minutes. `ComputeEndRoundTrip` shows that
  parsing the result again gives that number. When an hour parses but a minute
  piece does not, the result is the text `"NaN:NaN"`.
- On well-formed clock strings, string order is the same as minute-of-day
  order (`ClockOrder`). The active test is therefore the inclusive minute
  window (`ActiveOnClocks`).
- A duration that carries an entry past midnight produces an end that sorts
  before its start. Such an entry is never active (`OvernightEntryNeverActive`).
  An end of `"NaN:NaN"` sorts after every clock string, so that entry stays
  active for the rest of its day (`NaNEndStaysOpen`).
- Remove keeps every other entry in its original order (`WithoutIdConcat`,
  `WithoutIdAt`). Saving notes changes only the `notes` of the matching entries
  (`WithNotes`, `WithNotesKeepsOtherFields`). After a save, the focused entry
  carries exactly the saved text (`SavedNotesAreFocused`).
- The dialog opens only below the cap. Submit does not re-check the cap. The
  cap still holds as long as submissions come from the open dialog, which
  closes after each successful submit (`OpenModal`, `Submit`).

Behaviour of the code worth knowing:

- `computeEndFromDuration` also returns the text `"NaN:NaN"` when a minute
  piece is missing or not numeric, for example a time with no `:`. It returns
  no result only for an empty duration or a non-numeric hour.
- The cap of eight is checked only when the dialog opens (`openModal`). It is
  not checked when the form is submitted.
- `saveNotes` tests `!selectedClassId`. An empty-string id therefore counts as
  "no selection", just like `null`.

## Model

| member | source | states |
|---|---|---|
| `Clock.ParseNumber` | Dev_XYZ/app.js:53-55 | `Number(piece)` is a number (not NaN) exactly when the piece is all decimal digits, and then its value is the digits read front to back by place value (`DigitsValue`); the empty piece is 0 |
| `Clock.DecimalString` | Dev_XYZ/app.js:61 | `String(n)` is all digits, one digit exactly when n < 10, at most two when n < 100, and `Number` reads it back as n |
| `Clock.PadStart2` | Dev_XYZ/app.js:61 | `padStart(2, "0")` leaves a string of length two or more as it is and fills a shorter one with leading zeros up to length two |
| `Clock.ParseTwoDigits` | Dev_XYZ/app.js:53-54 | a two-digit piece parses to ten times its first digit plus its second |
| `Clock.TwoDigits` | Dev_XYZ/app.js:61 | `String(n).padStart(2, "0")` for n < 100 is exactly two digits whose value is n |
| `Clock.Split` | Dev_XYZ/app.js:53-54 | `split(":")` yields at least one piece, no piece contains the separator, and joining the pieces gives the input back |
| `Clock.SplitWithoutSeparator` | Dev_XYZ/app.js:53-54 | a string without the separator splits into itself alone |
| `Clock.SplitAfterFirstPiece` | Dev_XYZ/app.js:53-54 | a separator-free prefix followed by the separator is the first piece; the rest splits on its own |
| `Clock.SplitJoin` | Dev_XYZ/app.js:53-54 | splitting a join of separator-free pieces returns the same pieces (split inverts join) |
| `Clock.HourField` | Dev_XYZ/app.js:53-54 | the hour `Number(s.split(":")[0])` is a number iff the first piece is all digits, and then it is that piece's digit value |
| `Clock.MinuteField` | Dev_XYZ/app.js:53-54 | the minute `Number(s.split(":")[1])` is a number iff there is a second piece and it is all digits (a missing piece is `undefined`, i.e. NaN), and then it is that piece's digit value |
| `Clock.ClockMinutes` | Dev_XYZ/app.js:53-58 | `h * 60 + m` is a number iff both fields are; with a minute below 60 it divides back into that hour and minute |
| `Clock.ClockMinutesOfClock` | Dev_XYZ/app.js:53-58 | parsing a well-formed "HH:MM" as the source does gives its hour, its minute and hour*60+minute |
| `Clock.ClockValueInjective` | Dev_XYZ/app.js:59-61 | two well-formed clock strings naming the same minute of the day are equal |
| `Clock.WrapAtMidnight` | Dev_XYZ/app.js:58-60 | hours `floor(total/60) % 24` and minutes `total % 60` together name `total mod 1440` |
| `Clock.FormatTotal` | Dev_XYZ/app.js:58-61 | the formatted end is a well-formed "HH:MM" (hour 0..23, minute 0..59, zero-padded) naming total mod 1440 |
| `Clock.ComputeEndFromDuration` | Dev_XYZ/app.js:49-62 | no result iff the duration is empty or either hour is NaN; with both times parsed, a well-formed clock at (start+duration) mod 1440; with a NaN minute, "NaN:NaN" |
| `Clock.ComputeEndRoundTrip` | Dev_XYZ/app.js:53-61 | parsing the computed end again gives (start minutes + duration minutes) mod 1440 |
| `Clock.ComputeEndOfClocks` | Dev_XYZ/app.js:49-62 | for well-formed start and duration the result is the unique clock string naming the wrapped sum |
| `Clock.ComputeEndWrapExample` | Dev_XYZ/app.js:49-62 | 23:30 + 01:00 gives 00:30 |
| `Clock.ComputeEndPlainExample` | Dev_XYZ/app.js:49-62 | 09:00 + 01:30 gives 10:30, and an empty duration gives no result |
| `Clock.LexLe` | Dev_XYZ/app.js:129-130 | JavaScript's string `<=`: a prefix of a string is `<=` it, and a string is never `<=` its own proper prefix |
| `Clock.LexLeTransitive` | Dev_XYZ/app.js:129-130 | JavaScript's string `<=` is transitive |
| `Clock.LexLeTotal` | Dev_XYZ/app.js:129-130 | any two strings are related by `<=` one way or the other |
| `Clock.LexLeAntisymmetric` | Dev_XYZ/app.js:129-130 | `a <= b` and `b <= a` only for equal strings |
| `Clock.ClockOrder` | Dev_XYZ/app.js:128-130 | on well-formed clock strings, string `<=` holds iff the minute of the day is `<=` |
| `Schedule.FormatTimeRange` | Dev_XYZ/app.js:40-42 | the range label starts with the start, ends with the end, with exactly the three characters " → " between |
| `Schedule.FormatTimeRangeInjective` | Dev_XYZ/app.js:40-42 | entries with clock-string starts and the same label have the same start and end |
| `Schedule.FirstIsUnique` | Dev_XYZ/app.js:126-134 | a sequence has at most one first position satisfying a predicate |
| `Schedule.FirstIndex` | Dev_XYZ/app.js:126-134 | the index `find` stops at satisfies the predicate and no earlier element does; none means no element does |
| `Schedule.Find` | Dev_XYZ/app.js:126-134 | `find` returns the element at the first satisfying position, and nothing iff no element satisfies the predicate |
| `Schedule.ActiveWindowOrdered` | Dev_XYZ/app.js:126-131 | an entry that passes the `find` test (`IsActiveAt`: date === today, start <= now <= end in string order) is dated today and its start is `<=` its end |
| `Schedule.ActiveEntry` | Dev_XYZ/app.js:126-132 | the active entry is the first in list order with date == today and start <= now <= end; none iff no entry qualifies |
| `Schedule.FocusedEntry` | Dev_XYZ/app.js:134 | the first entry carrying the selected id when one exists; otherwise (no selection or id not in the list) the active entry; always an entry of the list |
| `Schedule.ActiveOnClocks` | Dev_XYZ/app.js:126-132 | on well-formed clocks an entry is active iff its date is today and its minute window contains now, both ends included |
| `Schedule.InvertedWindowNeverActive` | Dev_XYZ/app.js:128-130 | an entry whose end sorts before its start is never active |
| `Schedule.NaNEndStaysOpen` | Dev_XYZ/app.js:126-132 | an entry with end "NaN:NaN" is active at every clock time at or after its start on its date |
| `Schedule.ActiveBoundaryExamples` | Dev_XYZ/app.js:126-132 | at 10:15, 10:00–10:30 and 10:00–10:15 are active and 10:16–10:30 is not |
| `Schedule.WithoutId` | Dev_XYZ/app.js:102 | the filtered list is no longer than the list and no entry in it carries the removed id |
| `Schedule.WithoutIdMembers` | Dev_XYZ/app.js:102 | an entry is in the filtered list iff it is in the list and its id differs |
| `Schedule.WithoutIdConcat` | Dev_XYZ/app.js:102 | filtering distributes over concatenation, so kept entries keep their relative order |
| `Schedule.WithoutIdAbsent` | Dev_XYZ/app.js:102 | removing an id no entry carries leaves the list unchanged |
| `Schedule.WithoutIdAt` | Dev_XYZ/app.js:102 | removing an id only position k carries gives the list with exactly position k deleted |
| `Schedule.WithoutIdKeepsDistinctIds` | Dev_XYZ/app.js:102 | filtering a list with distinct ids leaves distinct ids |
| `Schedule.AppendKeepsDistinctIds` | Dev_XYZ/app.js:233-242 | appending an entry whose id no entry carries keeps ids distinct |
| `Schedule.UpdateNotes` | Dev_XYZ/app.js:179-182 | the `map` callback: the entry's notes become the saved text iff its id matches, and no other field changes |
| `Schedule.WithNotes` | Dev_XYZ/app.js:178-183 | same length; each entry carrying the id gets the new notes, every other entry is unchanged |
| `Schedule.WithNotesKeepsOtherFields` | Dev_XYZ/app.js:178-183 | saving changes no id, name, date, start or end, and notes only where the id matches |
| `Schedule.SavedNotesAreFocused` | Dev_XYZ/app.js:134 | after saving notes for a selected id in the list, the focused entry is that entry with exactly the saved notes |
| `Schedule.RemovedEntryNotFocused` | Dev_XYZ/app.js:101-105 | after Remove, the focused entry, if any, is an old entry not carrying the removed id |
| `Schedule.IsJsWhitespace` | Dev_XYZ/app.js:212 | the characters `trim()` removes; none of them is a digit or `:`, so trimming never eats into a time |
| `Schedule.TrimStart` | Dev_XYZ/app.js:212 | the result is a suffix of the input, everything dropped is white space, and it does not start with white space |
| `Schedule.TrimEnd` | Dev_XYZ/app.js:212 | the result is a prefix of the input, everything dropped is white space, and it does not end with white space |
| `Schedule.Trim` | Dev_XYZ/app.js:212 | the trimmed name is empty iff the name is all white space; otherwise it neither starts nor ends with white space |
| `Schedule.TrimIsSlice` | Dev_XYZ/app.js:212 | the trimmed name is a slice of the name with only white space cut off before and after it |
| `Schedule.WithoutIdKeepsComplete` | Dev_XYZ/app.js:102 | filtering a list whose entries all have a non-empty name, start and end keeps that true |
| `Schedule.WithNotesKeepsComplete` | Dev_XYZ/app.js:178-183 | saving notes into a list whose entries all have a non-empty name, start and end keeps that true |
| `Schedule.ResolveEnd` | Dev_XYZ/app.js:214-226 | without a computable end the typed end stays; with parsed start and duration the computed clock overrides it; empty iff the typed end is empty and nothing is computed |
| `Schedule.PrepareEntry` | Dev_XYZ/app.js:209-240 | silent refusal iff the name is blank or the start empty; alert iff additionally no end results; otherwise an entry with the given id, trimmed name, date defaulting to today, the start, the resolved end, empty notes, and non-empty name, start and end |
| `Schedule.OvernightEndBeforeStart` | Dev_XYZ/app.js:221-226 | a clock start and duration whose sum reaches midnight resolve to a well-formed end earlier in the day than the start |
| `Schedule.OvernightEntryNeverActive` | Dev_XYZ/app.js:221-240 | a form with a non-blank name and a clock start and duration that cross midnight creates an entry, and that entry is never active |
| `Schedule.AlgebraEntryExample` | Dev_XYZ/app.js:209-240 | "Algebra" at 09:00 for 01:30 with no date becomes an entry on today from 09:00 to 10:30 with empty notes |
| `Schedule.SaveNotesOnNewEntryExample` | Dev_XYZ/app.js:173-183 | once a freshly appended entry is selected, saving `"<b>hi</b>"` makes the focused entry that entry with exactly those notes |
| `Store.AppState.constructor` | Dev_XYZ/app.js:21-22 | the page starts with the stored list, no selection and the dialog closed |
| `Store.AppState.OpenModal` | Dev_XYZ/app.js:157-165 | the dialog opens iff fewer than 8 entries exist; the list is untouched; the cap invariant is kept |
| `Store.AppState.CloseModal` | Dev_XYZ/app.js:167-171 | the dialog is closed afterwards and the cap invariant is kept |
| `Store.AppState.Focus` | Dev_XYZ/app.js:93-94 | the entry's id becomes the selection |
| `Store.AppState.Remove` | Dev_XYZ/app.js:101-105 | the list becomes the filtered list; the selection is cleared iff it was the removed id; cap, distinct ids and complete entries are kept |
| `Store.AppState.SaveNotes` | Dev_XYZ/app.js:173-183 | saves iff the selection is non-null and non-empty; then the list is the notes-updated list, else unchanged; length, ids and complete entries are kept |
| `Store.AppState.Submit` | Dev_XYZ/app.js:209-245 | the outcome is the validation result; on success exactly one entry is appended, selected and the dialog closed; on failure nothing changes; submitted from the open dialog the cap holds; a fresh id keeps ids distinct; complete entries stay complete, since the appended entry is complete |

## Left out

- Rendering and event wiring are not modelled: `renderClasses`, the status line and detail panel of `updateActiveClass`, the focus calls and the listeners. Only the state they change is modelled. Alerts appear as the `false` or `Failure` results of the handlers.
- `loadClasses`/`saveClasses` are not modelled, because `localStorage` and JSON are outside the model. The constructor takes the list storage yielded. The write after each change is not modelled; the stored list is `classes` after each method.
- Clock reads (`getTodayDateString`, `tickClock`, the `new Date()` in `updateActiveClass`) and the two timers are not modelled. `today` and `now` are parameters. The source takes the date in UTC and the time in local time; that difference belongs to the clock and is not modelled.
- `crypto.randomUUID()` is not modelled. The id is a parameter of `Submit`. Distinct ids are promised only when that id is fresh.
- Store.AppState.constructor: does not promise distinct ids or complete entries for the list read from storage, because `loadClasses` accepts whatever JSON array is stored. Those invariants are kept from then on (`Remove`, `SaveNotes`, `Submit`), not established.
- `classForm.reset()` inside `closeModal` is not modelled, because the form's contents are inputs to `Submit`, not state.
- Clock.ParseNumber: only digit strings are numbers. JavaScript's `Number` also accepts surrounding white space, signs, decimals, exponents and hexadecimal; the model treats those as NaN. Time inputs never produce them. Doubles are exact integers here, so precision above 2^53 is not modelled.
- Clock.LexLe compares characters by code point. JavaScript compares UTF-16 code units. The two orders differ only for characters outside the Basic Multilingual Plane.
- Schedule.IsJsWhitespace lists JavaScript's white-space and line-terminator characters as of the Unicode version at hand. Changes to the Unicode space-separator category are not tracked.
- `C.py` (a console calculator on floating-point numbers) is not part of this model.
