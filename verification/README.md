# Assignment tracker: a Dafny model

The tracker is a single-page browser application (`script.js`) for filing
school assignments under colour-coded subjects. It keeps two collections:
subjects (a name and a palette colour) and assignments (subject, copied
colour, status, name, due date). The user adds and deletes them, edits
assignments in place in a table, and looks at them in a calendar. This
project models that logic as pure Dafny functions over immutable data and
proves what the code promises about it.

Modules, following the structure of the script:

- `Records`: the two record kinds and the first-match colour lookup
  (`subjects.find(...).color`).
- `Text`, `Seqs`: the JavaScript built-ins the handlers rely on. These are
  `trim` with its whitespace set, case folding, `includes`, `String(n)`,
  `padStart`, `splice(idx, 1)` with its index clamping, and `filter`.
- `Registry`: the subject registry (palette availability, add, delete).
- `Repository`: the assignment repository (add, delete, clear, and the
  single-field edits the inline editors commit).
- `InlineEdit`: the per-cell editor state machine. It covers the click guard
  that allows one editor per cell, the text and date commit rule, and the
  select commit rule.
- `Special`: the `/\b(quiz|exam|midterm)\b/i` classifier, against an
  independent whole-word definition.
- `TableView`: the table rows. The three filters keep a row, the rows come in
  collection order, and the days-left count maps to an urgency class.
- `Gregorian`: the date arithmetic of ECMAScript's `Date`. It covers
  `MakeDay`, weekdays, and day-by-day stepping with month and year carry.
- `Calendar`: the month cursor and its navigation, the `Y-MM-DD` day key, the
  per-day cell, the month grid and the week strip.
- `Store`: the whole application state with its stored copies, each handler
  as one action, and the invariants that every session keeps.

The clock and the days-left computation are parameters: "today" is a `Date`
argument and `daysLeft` is a function argument. Browser storage is modelled
as a stored copy of each collection.

## Model

| member | source | states |
|---|---|---|
| `Records.ColorOf` | script.js:98 | The lookup returns no colour exactly when no subject has the name; otherwise it returns the colour of the FIRST subject with that name. |
| `Records.ColorOfStableUnderAppend` | script.js:98 | Subjects appended later never change the colour that an already registered name resolves to. |
| `Text.Trim` | script.js:59 | The result is a contiguous slice of the input with every stripped character a JavaScript whitespace code point. It neither starts nor ends with whitespace. |
| `Text.TrimEmptyIffBlank` | script.js:59-61 | A name trims to the empty string exactly when it consists only of whitespace. |
| `Text.Lower` | script.js:124 | `toLowerCase` maps each character to its lower-case form and keeps the length. |
| `Text.Upper` | script.js:37 | `toUpperCase` maps each character to its upper-case form and keeps the length. |
| `Text.Includes` | script.js:129 | `includes` is true exactly when the search text occurs at some position of the string. |
| `Text.NatToString` | script.js:370 | `String(n)` is a non-empty digit string with no leading zero that parses back to `n`. |
| `Text.IntToString` | script.js:370 | `String(n)` of any integer: a non-negative number is its digit string, which parses back to it. A negative number is a minus sign followed by the digits of its magnitude. |
| `Text.Pad2` | script.js:370 | `padStart(2, "0")` leaves strings of length two or more unchanged and left-fills shorter ones with zeros up to length 2. |
| `Text.TwoDigits` | script.js:370 | A month or day number below 100 becomes exactly two digits that spell it back. |
| `Text.FourDigits` | script.js:370 | A four-digit year is written with exactly four characters. |
| `Seqs.SpliceStart` | script.js:86 | The start index of `splice`: a negative index counts from the end and is clamped at 0, and an index past the end is clamped to the length. |
| `Seqs.RemoveAt` | script.js:86 | `splice(idx, 1)` removes exactly the element at the clamped index and keeps the others in order (multiset minus one). An index at or past the end removes nothing. |
| `Seqs.RemoveAtThenReinsert` | script.js:194 | Putting the removed element back at its index restores the collection. |
| `Seqs.Filter` | script.js:371 | `filter` keeps each element as many times as it occurs when the predicate holds, and drops it otherwise. |
| `Seqs.FilterConcat` | script.js:371 | Filtering distributes over concatenation, so the kept elements stay in collection order. |
| `Seqs.FilterMembership` | script.js:371 | An element is kept exactly when it is present and satisfies the predicate. |
| `Registry.UsedColors` | script.js:37 | `usedColors` lists, for each subject in order, its colour upper-cased. |
| `Registry.Availability` | script.js:39-51 | The ten palette colours in order, each marked used exactly when some subject has that colour ignoring letter case. |
| `Registry.AddSubject` | script.js:56-63 | The add is refused, with nothing changed, exactly when the name is blank or no colour is chosen. Otherwise exactly one subject with the trimmed, non-empty name is appended. |
| `Registry.DeleteSubject` | script.js:85-87 | Deleting by position removes exactly that subject and keeps the rest in order. A position past the end changes nothing. |
| `Registry.AddMarksColorUsed` | script.js:37-62 | After a successful add, the chosen colour shows as used, and every colour that was used before still shows as used. |
| `Registry.DuplicateColorAccepted` | script.js:56-62 | A colour that differs from a taken one only in letter case is accepted. The registry does not keep colours distinct. |
| `Repository.AddAssignmentAsWritten` | script.js:91-107 | The add is refused exactly when the subject, the untrimmed name or the date is empty, or when no subject has that name. Otherwise one record is appended with the trimmed name and the subject's colour. The celebration fires exactly when the status is Completed. |
| `Repository.BlankNameAccepted` | script.js:97-102 | A name made of spaces passes the guard and is stored as the empty name. |
| `Repository.AddAssignment` | script.js:91-107 | Same as the handler as written, but the guard is applied to the trimmed name. Every appended record has a non-empty name. |
| `Repository.BlankNameRejected` | script.js:97-102 | The corrected add refuses a name made of spaces and changes nothing. |
| `Repository.AddAgreesOnVisibleNames` | script.js:97-102 | For any name with a visible character, the corrected add and the handler as written give the same result. |
| `Repository.DeleteAssignment` | script.js:193-195 | Deleting by position removes exactly that record and keeps the rest in order. No record is created. |
| `Repository.ClearAll` | script.js:199-213 | A confirmed clear leaves no assignments and fires the celebration. |
| `Repository.EditText` | script.js:165-167 | A non-empty input replaces the name or date. An empty input keeps the record as it was. No other field changes. |
| `Repository.EditTextIdempotent` | script.js:165-171 | Saving the same input twice has the same effect as saving it once. |
| `Repository.EditTextUnchangedValue` | script.js:163-166 | Saving the value the input opened with leaves the record unchanged. |
| `Repository.EditStatus` | script.js:182-186 | The chosen label replaces the status. The celebration fires exactly when the label is Completed. |
| `Repository.EditSubjectAsWritten` | script.js:182-186 | The subject is always replaced. The record is saved, with its new subject's colour, exactly when some subject has the chosen name. Otherwise it keeps its old colour and is not saved. |
| `Repository.StaleSubjectEdit` | script.js:183-184 | A stale option leaves a record whose colour is not its subject's, held only in memory. |
| `Repository.EditSubject` | script.js:183-184 | The corrected edit succeeds exactly when the chosen subject exists. On success it sets the subject and that subject's colour together and keeps the other fields. |
| `Repository.EditSubjectAgrees` | script.js:183-184 | Wherever the lookup succeeds, the corrected edit and the handler as written produce the same record. |
| `Repository.UpdateAt` | script.js:166 | An edit replaces the one record it targets and leaves every other record as it was. |
| `InlineEdit.Options` | script.js:152-153 | The status select offers the three status labels. The subject select offers the subject names in registry order as they were when the row was drawn. |
| `InlineEdit.Preselected` | script.js:174-180 | A new select shows the option equal to the current value. When no option matches, it shows the first option. |
| `InlineEdit.Click` | script.js:157-181 | A click on a cell that already holds an editor changes nothing. Otherwise a text or date cell opens an input holding the current value, and a select cell opens a select over its options. |
| `InlineEdit.ClickIdempotent` | script.js:159 | A second click changes nothing: a cell never holds two editors. |
| `InlineEdit.TypeText` | script.js:163-164 | Typing replaces the text of an open input and does nothing when no input is open. |
| `InlineEdit.SaveText` | script.js:165-171 | A commit closes the editor. A non-empty input becomes the cell's value, and an empty one keeps the record. Every other cell and the colour stay as they were. |
| `InlineEdit.OpenThenSaveKeeps` | script.js:163-166 | Opening a text cell and committing without typing leaves the record unchanged. |
| `InlineEdit.EnterThenBlur` | script.js:170-171 | Enter followed by the blur of the removed input gives the record that one commit gives. |
| `InlineEdit.ChangeSelect` | script.js:182-188 | A change always writes the chosen value into the cell and touches no other cell. It is saved, and the editor closes, exactly unless it names an unregistered subject. An unregistered subject stays in memory with the old colour, and the select stays open showing the picked label. A status change keeps the colour and fires the celebration exactly for Completed. A saved subject change brings the new subject's colour, as the corrected edit does. |
| `InlineEdit.FreshOptionsSaved` | script.js:153 | A subject option drawn from the current registry is always saved. |
| `InlineEdit.StaleOptionKeepsSelectOpen` | script.js:152-188 | A row drawn while Math existed, changed to Math after Math is deleted, holds Math with Art's colour, unsaved, and its select stays open on Math. |
| `Special.SpecialFrom` | script.js:132 | The scan from a position finds a match exactly when a keyword occurs at or after that position, delimited as whole words. |
| `Special.IsSpecial` | script.js:132 | A name is special exactly when "quiz", "exam" or "midterm" occurs in it, ignoring letter case, with a word boundary on both sides. |
| `Special.MidtermReviewIsSpecial` | script.js:132 | "Midterm review" is special. |
| `Special.PreExamIsSpecial` | script.js:132 | "Pre-exam QUIZ" is special: a hyphen is a boundary and letter case is ignored. |
| `Special.ExamineIsNotSpecial` | script.js:132 | "Examine" is not special: a keyword followed by a word character does not match. |
| `Special.ExamsIsNotSpecial` | script.js:132 | "exams" is not special, because the plural has no boundary after "exam". |
| `TableView.Classify` | script.js:133 | A negative count is overdue, 0 to 3 is due soon, and anything larger gets no highlight. |
| `TableView.ClassifyMonotone` | script.js:133 | A later due date is never more urgent. |
| `TableView.Passes` | script.js:127-129 | With no filter set, every record is shown. A shown record matches the subject filter and the status filter whenever they are set. |
| `TableView.PassesIffSurvives` | script.js:127-129 | The guard chain keeps a record exactly when each filter is unset or matches. The subject and status filters are exact matches, and the search is a case-insensitive substring of the name. |
| `TableView.MakeRowIsRowOf` | script.js:131-142 | A drawn row carries its record's position, the record, its days-left count, its urgency and its special flag. |
| `TableView.RowsUpTo` | script.js:126-129 | Among the first `n` records, the rows are exactly those kept by the filters, each drawn once, in collection order. |
| `TableView.Rows` | script.js:119-146 | Every row shows a kept record at its position. The rows come in increasing position. Every kept record has a row. |
| `TableView.SubjectFilterOnly` | script.js:127 | With only the subject filter set, a record is shown exactly when it is filed under that subject. |
| `TableView.EmptyTable` | script.js:119-126 | An empty collection draws no rows. |
| `Gregorian.IsLeap` | script.js:349 | The Gregorian leap rule: a year not divisible by 4 is common, one divisible by 4 but not by 100 is leap, and a century year is leap exactly when 400 divides it. |
| `Gregorian.DaysInMonth` | script.js:349 | A month has 28 to 31 days. February has 29 exactly in a Gregorian leap year. |
| `Gregorian.MonthStep` | script.js:349 | The days before the following month are the days before this month plus this month's length. The twelve months make up the year. |
| `Gregorian.YearStep` | script.js:348 | The first day of the next year comes one year length after the first day of this year. |
| `Gregorian.DayFromYearBounds` | script.js:348 | `DayFromYear`, the day number of 1 January, is 0 for 1970, and the start of any year lies between 365 and 366 days per year away from 1970. |
| `Gregorian.MakeDay` | script.js:348-349 | For a month in 0..11 and a day within its length, `MakeDay` falls inside the year: at or after the year's first day and before the next year's first day. |
| `Gregorian.DateInYear` | script.js:348 | The first day of the year plus the days of the earlier months plus the day minus one lies within the year, for a day within its month. |
| `Gregorian.MonthsFill` | script.js:348 | The days before any month boundary 0..12 are between 0 and the year length. |
| `Gregorian.MonthOrder` | script.js:348 | A later month starts no earlier than the end of an earlier month of the same year. |
| `Gregorian.DayFromYearMonotone` | script.js:348 | A later year starts no earlier than the end of an earlier year. |
| `Gregorian.DayNumberInYear` | script.js:348 | A valid date's day number lies within its own year. |
| `Gregorian.DayNumberInjective` | script.js:348 | Two valid dates with the same day number are the same date, so a `Date` value determines its year, month and day. |
| `Gregorian.SameDayNumberSameYear` | script.js:348 | Valid dates with the same day number lie in the same year. |
| `Gregorian.YearOfDay` | script.js:348 | A day number falls within at most one year. |
| `Gregorian.SameOffsetSameDate` | script.js:348 | Within one year, a valid date is determined by its offset from 1 January. |
| `Gregorian.MakeDayInYear` | script.js:348 | The day number of a date is the year's start plus the days of the earlier months plus the day of the month minus one. |
| `Gregorian.MakeDayCarry` | script.js:349 | Month 12 carries into January of the next year. |
| `Gregorian.DayZeroIsLastDay` | script.js:349 | Day 0 of the next month is the last day of this month, so `new Date(y, m + 1, 0).getDate()` is this month's length. |
| `Gregorian.FirstWeekdayAdvance` | script.js:348 | The weekday of the first of the next month is this month's first weekday advanced by its length. |
| `Gregorian.WeekdayOf` | script.js:348 | The weekday of a day number is in 0..6, day 0 (1970-01-01) is a Thursday, and the weekday is the day number shifted by that Thursday modulo 7. |
| `Gregorian.Weekday` | script.js:348 | `getDay` of a date is in 0..6, is Thursday for 1970-01-01, and agrees with its day number modulo 7. |
| `Gregorian.WeekdayShift` | script.js:348 | Moving `n` days moves the weekday by `n` modulo 7. |
| `Gregorian.BackToSunday` | script.js:364 | Stepping back by the weekday lands on a Sunday. |
| `Gregorian.DaysAfterSunday` | script.js:365 | The `i`-th day after a Sunday is weekday `i`, for `i` below 7. |
| `Gregorian.DayNumberIsMakeDay` | script.js:348 | A date's day number is the `MakeDay` value of its fields. |
| `Gregorian.NextDate` | script.js:365 | The day after a valid date is a valid date, with the carry into the next month and year. Its day number is stated by `Gregorian.NextDateNumber`. |
| `Gregorian.PrevDate` | script.js:364 | The day before a valid date is a valid date, with the borrow from the previous month and year. Its day number is stated by `Gregorian.PrevDateNumber`. |
| `Gregorian.NextDateNumber` | script.js:365 | The next calendar date is one day number later, with the carry into the next month and year. |
| `Gregorian.PrevDateNumber` | script.js:364 | The previous calendar date is one day number earlier, with the borrow from the previous month and year. |
| `Gregorian.StepRoundTrip` | script.js:364 | One day back then forward, or forward then back, returns the same date. |
| `Gregorian.StepBack` | script.js:364 | Renormalising `n` days back from a valid date gives a valid date. Its day number is stated by `Gregorian.StepBackNumber`. |
| `Gregorian.StepForward` | script.js:365 | Stepping `n` days forward from a valid date gives a valid date. Its day number is stated by `Gregorian.StepForwardNumber`. |
| `Gregorian.StepBackNumber` | script.js:364 | `setDate(getDate() - n)` renormalises to the date `n` days earlier. |
| `Gregorian.StepForwardNumber` | script.js:365 | Stepping forward `n` days gives the date `n` day numbers later. |
| `Gregorian.BackThenForward` | script.js:364-365 | Stepping back `n` days and then forward `n` days returns the original date. |
| `Gregorian.LeapFebruaries` | script.js:349 | February has 29 days in 2024 and 2000, and 28 days in 2023 and 1900. |
| `Gregorian.KnownWeekdays` | script.js:348 | 1 January 1970 is a Thursday, 1 February 2024 a Thursday, and 1 February 2023 a Wednesday. |
| `Calendar.Prev` | script.js:317-324 | The previous-month button keeps the month in 0..11 and moves back exactly one month, rolling the year. |
| `Calendar.Next` | script.js:326-333 | The next-month button keeps the month in 0..11 and moves forward exactly one month, rolling the year. |
| `Calendar.TodayCursor` | script.js:335-340 | The today button shows the month and year of "now". |
| `Calendar.MonthIndexInjective` | script.js:317-333 | A displayed month is determined by its count of months since year 0. |
| `Calendar.NavigationRoundTrip` | script.js:317-333 | Previous then next, or next then previous, returns to the same month. |
| `Calendar.YearRollover` | script.js:319-330 | Before January comes December of the previous year. After December comes January of the next year. |
| `Calendar.DayKey` | script.js:370 | For a four-digit year, a month in 0..11 and a day below 100, the key is ten characters: four digits, a dash, two digits, a dash, two digits. |
| `Calendar.DecodeKey` | script.js:370 | A key is only decoded when it has the `YYYY-MM-DD` shape: ten characters with dashes at positions 4 and 7. |
| `Calendar.KeyRoundTrip` | script.js:370 | For four-digit years, the day key decodes back to the year, the month plus one, and the day. |
| `Calendar.KeyParts` | script.js:370 | The key puts the year, month and day at fixed offsets, separated by dashes. |
| `Calendar.KeyDayInjective` | script.js:370 | Two days of the same month below 100 have the same key only when they are the same day. |
| `Calendar.AnySpecial` | script.js:396-397 | A cell is marked as an exam day exactly when one of its records has a special name. |
| `Calendar.AddCalendarDay` | script.js:369-397 | A cell lists exactly the records whose due date equals its key, with their multiplicities. It has a task exactly when it lists a record. It is today exactly when its day, month and year are today's. |
| `Calendar.HasTaskIffDue` | script.js:369-397 | A cell has a task exactly when some record is due on its key. |
| `Calendar.ExamDayIffSpecialDue` | script.js:390-397 | A cell is an exam day exactly when some record due on it has a special name. |
| `Calendar.CellKeepsCollectionOrder` | script.js:371 | A cell lists its records in the order of the collection. |
| `Calendar.FirstDay` | script.js:348 | The weekday of the first of the month is in 0..6. |
| `Calendar.ConstructorYear` | script.js:348-349 | The `Date` constructor reads a year 0..99 as 1900 plus that year, and keeps every other year as given. |
| `Calendar.MonthLength` | script.js:349 | The month length is the Gregorian length of the month, in the year the `Date` constructor uses. |
| `Calendar.MonthGrid` | script.js:351-361 | The grid is one blank per weekday before the first, then days 1 to the month length, in order. |
| `Calendar.GridDayColumns` | script.js:348-360 | In a seven-column grid, every day falls in the column of its own weekday. |
| `Calendar.DueInOneDay` | script.js:370-371 | A record due on some day of the displayed month appears in that day's cell and in no other cell of the month. |
| `Calendar.GridBucketsOnce` | script.js:359-371 | In the month grid, a record due in the displayed month appears in exactly one slot, the one for its day. |
| `Calendar.FebruaryGrids` | script.js:348-349 | February 2024 starts on a Thursday and has 29 days. February 2023 starts on a Wednesday and has 28. |
| `Calendar.TodayCellShowsDue` | script.js:373-388 | Today's cell is highlighted as today and lists every record due today. |
| `Calendar.WeekStart` | script.js:363-364 | The week starts on a Sunday: today stepped back by its own weekday number. |
| `Calendar.CellsFrom` | script.js:365-366 | Seven cells, the `i`-th numbered `start.day + i` in the start's month and year. |
| `Calendar.WeekStripAsWritten` | script.js:362-366 | The week view as written: cell `i` is the full cell for day `start + i` of the start's month and year, with no carry, so its key is that day's key. |
| `Calendar.DatesFrom` | script.js:365 | The `i`-th date is the start advanced by `i` days. |
| `Calendar.WeekDates` | script.js:362-365 | The seven dates of today's week are consecutive, from Sunday to Saturday. Today's own weekday slot holds today. |
| `Calendar.WeekDateFacts` | script.js:365 | The `i`-th day after a Sunday is valid, `i` day numbers later, and weekday `i`. |
| `Calendar.TodayInItsWeek` | script.js:363-365 | Today is reached from its week's Sunday by stepping forward its weekday. |
| `Calendar.WeekStrip` | script.js:362-366 | The corrected week view: seven cells, one for each date of today's week with month and year carried. Today's cell is highlighted. |
| `Calendar.WeekOverflow` | script.js:365 | On Wednesday 2024-01-31 the week as written shows "2024-01-32" and omits a record due 2024-02-01. The corrected week lists it under Thursday. |
| `Calendar.LateJanuaryWeekStart` | script.js:363-364 | Wednesday 2024-01-31 is weekday 3, and its week starts on Sunday 2024-01-28. |
| `Calendar.LateJanuaryAsWrittenMisses` | script.js:365-371 | In the week of 2024-01-31 as written, Thursday's key is "2024-01-32", and no cell lists a record due 2024-02-01. |
| `Calendar.LateJanuaryCarried` | script.js:365-371 | In the carried week of 2024-01-31, Thursday's cell lists the record due 2024-02-01. |
| `Calendar.StepForwardSucc` | script.js:365 | Stepping `n + 1` days forward is the next date after stepping `n`. |
| `Store.Load` | script.js:4-5 | At start-up, memory holds what storage holds. |
| `Store.Apply` | script.js:56-213 | Every handler keeps storage in step with memory. A subject action leaves the assignments alone, and every other action leaves the subjects alone. Each action has its effect. Adding a subject gives the registry's add. Deleting a subject or a record is `splice(idx, 1)`: at a valid position it removes that element, past the end it changes nothing. Adding an assignment gives the corrected add and its celebration. A text save gives the text edit. A status change sets the status and celebrates exactly on Completed. A subject change to a registered subject sets it with its colour, and one to an unregistered subject changes nothing. An edit changes only its target record. Only add, status change and clear can celebrate. Clear empties the collection. |
| `Store.ApplyRegistry` | script.js:56-89 | The add-subject and delete-subject handlers change only the registry, write it back, and never celebrate. Adding gives the registry's add, and deleting gives `splice(idx, 1)`. |
| `Store.ApplyCollection` | script.js:91-213 | The add, delete and clear handlers for assignments leave the registry alone and write the collection back. Adding gives the corrected add with its celebration. Deleting gives `splice(idx, 1)`. A confirmed clear empties the collection and celebrates. |
| `Store.ApplyEdit` | script.js:165-188 | With the corrected subject edit, an inline edit keeps the subjects and the number of records, and changes no record but its target. A text save applies the text edit to the target. A status change sets its status and celebrates exactly on Completed. A subject change to a registered subject sets it with its colour, and one to an unregistered subject changes nothing. |
| `Store.RemoveAtKeepsMembers` | script.js:86 | `splice` never introduces an element. |
| `Store.AddSubjectKeepsNamed` | script.js:59-62 | Adding a subject keeps every subject with a non-empty name and colour. |
| `Store.AddAssignmentKeepsFilled` | script.js:97-105 | The corrected add keeps every record with a subject, a non-empty name and a due date. |
| `Store.WellFormedPreserved` | script.js:56-213 | With the corrected add and subject edit, every action keeps every subject named and coloured, and every assignment filled. |
| `Store.AddSubjectKeepsColors` | script.js:62 | Adding a subject never changes the colour an existing record resolves to. |
| `Store.ConsistentPreserved` | script.js:56-213 | With the corrected add and subject edit, every action except deleting a subject keeps every record's colour equal to its subject's colour. |
| `Store.RemoveSubjectOrphans` | script.js:85-89 | Deleting a subject leaves every record unchanged. A record filed under its name, when no other subject has that name, no longer resolves to a colour, so the collection is no longer consistent. |
| `Store.RemoveOnlySubjectOrphans` | script.js:85-89 | Deleting the only subject "Math" orphans a record filed under Math. |
| `Store.RemoveDuplicateNameStillResolves` | script.js:85-89 | Names are not kept distinct: with two subjects named Math, deleting the first leaves Math resolving to the second one's colour. |
| `Store.ClearEmptiesTable` | script.js:203-205 | After a clear the table draws no rows, whatever the filters. |
| `Store.Run` | script.js:4-213 | With the corrected add and subject edit, over any session, storage stays in step with memory and the collections stay well formed. |
| `Store.SessionFromEmpty` | script.js:4-5 | With the corrected add and subject edit, a session from empty storage ends synced and well formed. |

## Left out

- Storage encoding: the JSON text in `localStorage` is not modelled. Each
  collection's stored copy is a value (`savedSubjects`, `savedAssignments`),
  and `Load` starts from given collections. A stored value that does not
  parse makes `JSON.parse` throw at start-up (script.js:4-5). It is not
  treated as absent, and that failure is outside the model.
- Theme toggle, keyboard shortcut and theme persistence (script.js:13-32):
  presentation only.
- Confetti (script.js:108, 185, 207-212): only the boolean "celebrate" signal
  is modelled.
- The confirmation dialog of clear-all (script.js:200): `ClearAssignments`
  is the confirmed branch. The cancelled branch changes nothing and is
  not an action.
- Days left (script.js:131): `Math.ceil` of a millisecond difference between
  two parsed dates, in floating point and local time. The table takes it as
  a function argument `daysLeft`, and only the classification of its value is
  modelled.
- Locale month titles (script.js:259-260, 345-346), the HTML markup of rows,
  lists and cells, the coloured dots, and the mobile day-details overlay
  (script.js:409-443): presentation only.
- The first `renderCalendar` and the first previous-month and next-month
  handlers (script.js:238-298) are replaced by later definitions before they
  can run (script.js:317-367). Only the later ones are modelled.
- Text.Upper: models ASCII case mapping only, like `Text.Lower`.
- Text.Lower: models ASCII case mapping only. JavaScript's `toLowerCase`
  and `toUpperCase` also map non-ASCII letters. The `/i` regex without the
  `u` flag behaves like the model for ASCII keywords.
- Gregorian.DayFromYear: carries no contract of its own. Its properties
  are stated by `Gregorian.YearStep` and `Gregorian.DayFromYearBounds`.
- Gregorian.ValidDate: model years are unbounded. JavaScript `Date` values
  are limited to about 275,000 years either side of 1970, and times of day
  and time zones are not modelled.
- Calendar.AddCalendarDay: the exam-day flag is stated by the separate lemma
  `Calendar.ExamDayIffSpecialDue`, not by the function's own contract.
- Store.ConsistentPreserved: excludes deleting a subject. The code lets that
  action orphan records, as `Store.RemoveSubjectOrphans` shows.
- Store.Apply: inline edits address a record by its position in the
  collection. The code captures the record object when it draws the row, and
  it redraws the table after every change, so the two agree. A position that
  no longer exists makes the action not applicable (`Store.Run` returns
  `None`).
- Store.Apply: adds and subject edits use the corrected `AddAssignment` and
  `EditSubject` (see Findings). The handlers as written are modelled in
  `Repository`.
- Store.ApplyEdit: a change to an unregistered subject changes nothing,
  following the corrected `EditSubject`. The handler as written keeps the
  new subject in memory with the old colour, unsaved (script.js:183-184).
  That behaviour is modelled by `InlineEdit.ChangeSelect` and
  `Repository.EditSubjectAsWritten`.
- Registry.AddSubject: a colour that is already used is not refused. The
  code only greys out used swatches (script.js:43-49), and the handler
  accepts any chosen colour (script.js:60-62).
  `Registry.DuplicateColorAccepted` shows a case-variant duplicate accepted.
- Registry.DeleteSubject: a negative position is not refused. `splice`
  counts it from the end, so -1 deletes the last subject (script.js:86,
  `Seqs.RemoveAt`).
- Special.IsSpecial: "Administer exams" is not special. The regular
  expression needs a word boundary after "exam", and "exams" has none
  (script.js:132, `Special.ExamsIsNotSpecial`).

## Findings

| source | as written | input that shows it | evidently intended | confidence | as-written member | corrected member |
|---|---|---|---|---|---|---|
| script.js:97-102 | The guard tests the untrimmed name, and the stored name is trimmed. | Name "   " with a subject, status and date chosen: an assignment with the empty name is stored. | Refuse a name that is blank after trimming, as the subject handler does (script.js:59-61). | not executed | `Repository.AddAssignmentAsWritten`, `Repository.BlankNameAccepted` | `Repository.AddAssignment`, `Repository.BlankNameRejected` |
| script.js:183-184 | The subject is written into the record before the colour lookup. That lookup throws when the chosen name is no longer registered. | Subjects [Art]. A row drawn while "Math" existed is changed to "Math" after Math is deleted. The record now says "Math" with Art's colour and is not saved. | Change nothing when the chosen subject no longer exists. Otherwise set the subject and its colour together. | not executed | `Repository.EditSubjectAsWritten`, `Repository.StaleSubjectEdit`, `InlineEdit.ChangeSelect`, `InlineEdit.StaleOptionKeepsSelectOpen` | `Repository.EditSubject`, `Repository.EditSubjectAgrees` |
| script.js:364-365 | The week view passes `start.getDate() + i` with the start's month and year, so the day is not carried into the next month. | Today 2024-01-31 (a Wednesday). The cells after it are keyed "2024-01-32" to "2024-01-34", and a record due 2024-02-01 appears in no cell. | Show the seven consecutive dates of the week, carrying into the next month and year. | not executed | `Calendar.WeekStripAsWritten`, `Calendar.WeekOverflow` | `Calendar.WeekStrip`, `Calendar.WeekDates` |
