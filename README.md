# To-do list core, modelled in Dafny

This is a model of `main.py`. It is a console to-do list for school assignments that keeps a list of task records. Each record has six strings:
- title (`nama_tugas`);
- subject (`mata_pelajaran`);
- teacher (`guru`);
- deadline date (`tanggal`);
- deadline time (`jam`);
- status: `"Belum Selesai"` (incomplete) or `"Selesai"` (complete).

The model covers:
- the four dialogs that change the list: add, edit, delete and toggle;
- the subject filter;
- the deadline warnings;
- the `strptime` date and time checks the dialogs use;
- the column cuts of the task tables.

Modules, in dependency order:

- `Text`: the built-ins the program leans on.
  - `str.strip()`, using the whitespace set of `str.isspace()`.
  - `int()` on a typed answer: surrounding whitespace as `str.isspace()` defines it except U+001C..U+001F, an optional sign, single `_` between digits, and at most 4300 digits.
  - The numeral `str(n)`.
  - The hard prefix cut `s[:n]`.
- `Calendar`: `datetime.strptime` with `"%Y-%m-%d"`, `"%H:%M"` and the deadline's `"%Y-%m-%d %H:%M"`. Each directive is the regular expression it stands for:
  - the year takes exactly four digits;
  - the month may drop its leading zero;
  - the day may drop its leading zero or be written after a space;
  - the hour and the minute may drop their leading zeros;
  - the space in the deadline format matches any run of whitespace;
  - the date must exist, with the Gregorian leap rule, in years 1 to 9999.

  Naive datetimes become whole seconds counted from the proleptic ordinal of `date.toordinal()`.
- `Tasks`: the record, the two statuses, the toggle rule, the 1-based choice of a task by number (`Choose`), the field-by-field edit rule and the new record of the add dialog.
- `Deadlines`: `show_deadline_warnings`.
  - Only a task whose status is exactly `"Belum Selesai"` and whose deadline parses gets a warning.
  - It is overdue when the deadline has passed, and upcoming otherwise.
  - An upcoming warning is given only once at least a whole minute is left.
  - The time is reported as whole hours plus the minutes beyond them.
  - The loop itself is a method, proved equal to the functional definition.
- `Presenter`: the rows of the full table and of the one-subject table, and the empty-list notice.
  - The title, subject and teacher are cut to 23, 13 and 18 characters.
  - The deadline column is the date and the time joined by a space.
- `SubjectFilter`: the subject menu and the tasks of the chosen subject.
  - The menu comes from a Python set, so its order is not fixed. It is a parameter, required to list every subject present exactly once.
- `Operations`: the class `TaskList`, whose methods are the add, edit, delete and toggle dialogs. Each dialog gets its answers as parameters.
  - Add's re-prompting loop for the date and the time is a method over the sequence of answers typed. It stops at the first one that passes.
  - The ghost field `saved` is the list as last written to the data file.

Two behaviours of the code are worth stating plainly:
- The program's prompts ask for `YYYY-MM-DD` and `HH:MM` (main.py:122, 127, 131, 136), but `strptime` accepts more. `2025-1-5`, `2025-01- 5` and `9:5` all pass, and the model accepts exactly what `strptime` does.
- Toggling makes an incomplete task complete, and makes a task with *any other* status incomplete. So toggling twice restores a task only when its status was one of the two (`Tasks.ToggledTwice`).

## Model

| member | source | states |
|---|---|---|
| Text.TrimShape | main.py:105 | `strip()` gives the empty text exactly for an all-whitespace answer. Otherwise the result starts and ends with a non-blank character and is what lies between a blank prefix and a blank suffix of the answer. |
| Text.StripShape | main.py:105-131 | `str.strip()` gives the empty text exactly for an all-whitespace answer. Otherwise it gives the part of the answer after its leading whitespace, which starts and ends with a character that is not whitespace and is followed only by whitespace. |
| Text.TrimIdempotent | main.py:122 | Stripping an already stripped answer leaves it unchanged. |
| Text.GroupDigits | main.py:166 | The digit groups are accepted exactly when every character is a digit or an underscore followed by a digit. Then the result is the text without its underscores, all digits. A plain run of digits is kept as it is. |
| Text.ParseInt | main.py:166 | An empty or all-whitespace answer makes `int()` fail. |
| Text.GroupedNumeralParses | main.py:166 | One underscore between two runs of digits is skipped: `int("12_345")` is 12345. |
| Text.GroupedJoin | main.py:166 | Two runs of digits joined by one underscore group into the two runs joined. |
| Text.MisplacedUnderscoreRefused | main.py:166 | An underscore at the front, at the back, or next to another underscore makes `int()` fail. |
| Text.LongNumeralRefused | main.py:166 | A run of more than 4300 digits makes `int()` fail. |
| Text.LongSignedNumeralRefused | main.py:166 | So does a sign followed by more than 4300 digits. |
| Text.ParseIntOfTrimmed | main.py:166 | An answer with no whitespace at either end is read as it stands. |
| Text.DecimalRoundTrip | main.py:162-166 | The numeral shown for a number reads back as that number. |
| Text.DecimalParses | main.py:166 | `int()` of the numeral of `n` is `n`, for a numeral of at most 4300 digits. |
| Text.NumeralParses | main.py:224 | `int()` of any plain run of at most 4300 digits is its decimal value, leading zeros included. |
| Text.SignedNumeralParses | main.py:250 | `int()` of a sign followed by at most 4300 digits is the signed value. |
| Text.Cut | main.py:52-54 | `s[:n]` is a prefix of `s` whose length is the smaller of `|s|` and `n`. |
| Calendar.DaysInMonth | main.py:124 | A month has 28 to 31 days, and exactly 29 only in February of a Gregorian leap year. |
| Calendar.ParseDate | main.py:124 | Every date the check accepts exists, in years 1 to 9999. |
| Calendar.ParseTime | main.py:133 | Every accepted time is an hour 0-23 and a minute 0-59. |
| Calendar.DateTextParses | main.py:124 | Every existing date in years 1 to 9999 is accepted, and read back as itself. This holds with the month written with or without its leading zero, and the day with a leading zero, without one, or after a space. |
| Calendar.ParsedDateHasText | main.py:190 | Conversely, every accepted date text is one of those spellings of the date it denotes. |
| Calendar.ClockTextParses | main.py:133 | Every time of day is accepted, with each field written with or without its leading zero, and read back as itself. |
| Calendar.ParsedClockHasText | main.py:198 | Conversely, every accepted time text is one of those spellings of its time. |
| Calendar.ParseDateTime | main.py:74 | A text that `strptime(_, "%Y-%m-%d %H:%M")` accepts is an existing date in years 1 to 9999 and a valid time of day. |
| Calendar.ParseDeadline | main.py:73-74 | A parsed deadline is an existing date and a valid time. |
| Calendar.DeadlineOfValidFields | main.py:73-74 | A date and a time that each pass their own check also pass the combined deadline check, joined by a space, and denote that date at that time. |
| Calendar.NextDay | main.py:76 | The day after a valid date is a valid date. |
| Calendar.YearLength | main.py:76 | The months of a year add up to 366 days in a leap year and 365 otherwise. |
| Calendar.DaysBeforeNextYear | main.py:76 | The day count before each year grows by that year's length. |
| Calendar.OrdinalOfNextDay | main.py:76 | Consecutive days have consecutive ordinals, so differences of instants are real elapsed seconds. |
| Calendar.OrdinalRange | main.py:76 | `toordinal()` runs from 1, for 1 January of year 1 and no other day, to 3652059, for 31 December 9999. |
| Calendar.InstantParts | main.py:76 | An instant is not negative. Divided by 86400 it gives the ordinal less one, and its remainder is the seconds since that day's midnight. |
| Tasks.Flip | main.py:253-257 | Toggling always gives one of the two statuses. The result is complete exactly when the old status was the incomplete one. |
| Tasks.Toggled | main.py:252-258 | A toggle changes only the status, and does change it whenever the status was one of the two. |
| Tasks.ToggledTwice | main.py:252-258 | Toggling twice restores the task if and only if its status was one of the two. |
| Tasks.ToggledWellFormed | main.py:252-258 | Toggling keeps a well-formed task well formed. |
| Tasks.Choose | main.py:165-167 | The result depends on the answer and the list length. An empty list stops the dialog. A failing `int()` is reported. Otherwise the answer picks position `p - 1` exactly when `1 <= p <= len(tasks)`, and is out of range in every other case. |
| Tasks.ChooseShownNumber | main.py:162-168 | Typing the number printed in front of a task picks that task, whenever that numeral has at most 4300 digits. |
| Tasks.ChooseOutside | main.py:225 | Zero, a negative number and any number past the end pick nothing. They are out of range, or not a number at all when the numeral is longer than 4300 digits. |
| Tasks.KeepOrReplace | main.py:175-185 | A blank answer keeps the field. Any other answer replaces it, stripped. |
| Tasks.DateAnswer | main.py:187-193 | The date changes only to a stripped answer that passes the date check, and it always changes to one that does. |
| Tasks.TimeAnswer | main.py:195-201 | The time changes only to a stripped answer that passes the time check, and it always changes to one that does. |
| Tasks.EditedTask | main.py:174-201 | The edit never changes the status. |
| Tasks.EditAllBlankIdentity | main.py:175-201 | Blank answers to every question leave the record identical. |
| Tasks.EditRejectedDateKeepsOthers | main.py:187-193 | A rejected date does not cancel the other answers. The result is the same as leaving the date blank. |
| Tasks.EditRejectedTimeKeepsOthers | main.py:195-201 | A rejected time does not cancel the other answers. The result is the same as leaving the time blank. |
| Tasks.EditPreservesWellFormed | main.py:175-201 | An edited well-formed task is still well formed. Its text fields are stripped and non-empty, and its date and time pass their checks. |
| Tasks.EditKeepsListWellFormed | main.py:168-201 | Editing one task of a well-formed list keeps the list well formed. |
| Tasks.NewTask | main.py:139-146 | A new task is incomplete. |
| Tasks.NewTaskWellFormed | main.py:105-146 | The task the add dialog builds from non-blank answers and checked date and time is well formed. |
| Deadlines.Assess | main.py:71-90 | This is the warning of one task, given its status, its title and the difference `d` to its deadline, with `None` when the deadline does not parse; `Classify` applies it to a task at time `now`. Only an incomplete task whose deadline parses gets a warning, carrying its title. The warning is overdue exactly when `d` is negative. The hours and minutes it reports are `|d|` truncated to whole minutes, with minutes below 60. There is no warning exactly when the task is not incomplete, its deadline does not parse, or `0 <= d < 60`. |
| Deadlines.RemainingOfValidFields | main.py:72-76 | A task whose date and time each pass their own check has a deadline, which is its date at its time of day. The difference is that instant less `now`. |
| Deadlines.ClassifyValidFields | main.py:71-88 | Take an incomplete task whose date and time pass their checks. It gets no warning exactly in the last minute before its deadline, up to and including the deadline itself. Any warning it does get is overdue exactly when the deadline has passed. |
| Deadlines.Warnings | main.py:68-90 | There is at most one warning per task. |
| Deadlines.WarningsConcat | main.py:70 | Warnings follow the list order: those of two lists in a row are those of each list in turn. |
| Deadlines.WarningsOnlyIncomplete | main.py:71 | A list with no incomplete task gets no warning. |
| Deadlines.WarningsComeFromTasks | main.py:70-90 | Every warning is the warning of some incomplete task of the list. |
| Deadlines.UpcomingIn | main.py:84-88 | An incomplete task whose deadline is exactly `h` hours and `m` minutes ahead, at least one minute in all, is reported as upcoming in `h` hours `m` minutes. |
| Deadlines.OverdueBy | main.py:78-82 | An incomplete task whose deadline is `h` hours, `m` minutes and under 60 seconds past is reported as overdue by `h` hours `m` minutes. |
| Deadlines.NoonTaskAtTen | main.py:84-88 | An incomplete task due "2025-01-01" at "12:00", seen at 10:00 that day, is upcoming in 2 h 0 min. |
| Deadlines.NoonTaskAtTwo | main.py:78-82 | The same task, seen at 14:00, is overdue by 2 h 0 min. |
| Deadlines.NoonTaskJustBefore | main.py:84-88 | The same task, seen thirty seconds before noon, gets no warning. |
| Deadlines.NoonParses | main.py:73-74 | `"2025-01-01"` and `"12:00"` parse as noon on 1 January 2025. |
| Deadlines.ShowDeadlineWarnings | main.py:65-90 | The `for` loop collects exactly the warnings `Warnings` defines, in list order. |
| Presenter.DeadlineText | main.py:55 | The deadline column is the date, one space and the time. |
| Presenter.TaskRow | main.py:51-56 | A row shows its number, the status and the deadline text. It shows a prefix of the title, subject and teacher that is at most 23, 13 and 18 characters long, the whole field when it fits, and exactly the column width when it does not. |
| Presenter.ShowsUnique | main.py:52-54 | Those conditions determine the text shown. |
| Presenter.Table | main.py:51-58 | The table has one row per task, in list order, numbered from 1. |
| Presenter.SubjectTable | main.py:291-296 | The one-subject table has the rows of the full table for its own list, without the subject column. |
| Presenter.ViewAll | main.py:39-63 | An empty list gives the notice and nothing else. Any other list gives one row per task and the list's warnings. |
| Presenter.ListingShowsEveryTask | main.py:51-58 | Row `i` of the listing shows task `i`. |
| SubjectFilter.Subjects | main.py:272 | Every task's subject is in the set of subjects. |
| SubjectFilter.FirstSeenSubjects | main.py:272 | Listing subjects in first-seen order is one valid menu: no duplicates, and exactly the subjects present. |
| SubjectFilter.MenuExists | main.py:272 | Every list of tasks has a menu. |
| SubjectFilter.MenuEmptyIff | main.py:267-272 | The menu is empty exactly when the list is. |
| SubjectFilter.Filter | main.py:284 | The filter keeps a task if and only if it is in the list and has the chosen subject. |
| SubjectFilter.FilterConcat | main.py:284 | Filtering keeps the tasks in their relative order. |
| SubjectFilter.FilterMultiplicity | main.py:284 | A kept task occurs as often as in the list, and any other task not at all. |
| SubjectFilter.FilterOnPresentSubject | main.py:284 | Filtering on a subject that is present keeps at least one task. |
| SubjectFilter.MenuChoiceNonEmpty | main.py:272-284 | Every subject the menu offers has tasks. |
| SubjectFilter.FilterBySubject | main.py:265-284 | An empty list stops the dialog. A bad answer is refused for the reason `Choose` gives. A valid answer shows the chosen menu subject with a non-empty list that is exactly the filter of the tasks on that subject. |
| SubjectFilter.SubjectScreen | main.py:291-299 | The one-subject screen is the one-subject table of the matching tasks, row `i` being task `i` without its subject column, and the matching tasks' warnings. |
| SubjectFilter.ChoosingShownSubject | main.py:277-284 | Typing the number printed in front of a subject shows that subject's tasks, whenever that numeral has at most 4300 digits. |
| Operations.FirstAccepted | main.py:121-136 | The answer the re-prompting loop keeps is accepted, and every earlier one is rejected. |
| Operations.Reprompt | main.py:121-127 | The `while True` loop keeps the stripped first accepted answer. |
| Operations.Removed | main.py:227 | `pop(k)` leaves one task fewer. Earlier tasks stay in place and later ones move up by one. The multiset of tasks loses exactly the removed one. |
| Operations.TaskList.constructor | main.py:311 | The list starts as loaded, and the loaded list counts as saved. |
| Operations.TaskList.Add | main.py:100-150 | A blank title, subject or teacher, checked in that order, stops with the list unchanged and nothing saved. Otherwise one incomplete task is appended from the stripped answers and the first accepted date and time, and the list is saved. Well-formedness is kept. |
| Operations.TaskList.Edit | main.py:152-208 | The choice follows `Choose`. Only a valid choice replaces the chosen task, by the edit rule, and saves. A rejected date or time is reported exactly when it was non-blank and failed its check. Well-formedness is kept. |
| Operations.TaskList.Delete | main.py:210-233 | Only a valid choice removes the chosen task, reports its title and saves. Anything else leaves the list as it was. Well-formedness is kept. |
| Operations.TaskList.Toggle | main.py:235-263 | Only a valid choice toggles the chosen task and saves. Anything else leaves the list as it was. Well-formedness is kept. |

## Left out

- `load_tasks` and `save_tasks` (main.py:8-21) are JSON file I/O and are not modelled. The ghost field `saved` stands for the last list written. Records read from the file are values of the record type, so a missing key (a `KeyError` in the program) is not modelled either.
- The console is not modelled: `print`, the emoji, the column padding (`:<25` and so on), `display_menu` and the `main` menu loop (main.py:23-37, main.py:305-337).
- `datetime.now()` and the fractional seconds of `total_seconds()` are left out. The current time is a parameter in whole seconds, so the float floor division of the program becomes integer division.
- Python versions without the limit on the digits of `int()` (before 3.11, apart from the security releases of 3.7 to 3.10) are not modelled. The model follows the versions that refuse more than 4300 digits.
- Unicode digits are left out. `strptime`'s `\d` and `int()` also accept non-ASCII decimal digits; the model accepts only `0`-`9`.
- `Operations.Reprompt`: the unbounded re-prompting loop is modelled over a finite sequence of answers that contains an accepted one, which is a precondition. An input stream that never supplies a valid date or time is not modelled.
- `Operations.TaskList.Edit`: the program assigns fields of the dict it shares with the list. The model edits a copy of the record and writes it back, which gives the same list, since nothing else holds the dict.
- The order of the subject menu is not modelled, because it comes from iterating a Python set. `SubjectFilter.FilterBySubject` takes any menu that lists every subject present exactly once.
- The table-printing `for` loops (main.py:51-58, main.py:291-296) only print, so the model defines the rows they print as functions instead.
