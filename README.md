# Attendance register — a Dafny model

This project models the server side of a small PHP attendance register. The
register keeps a roster of students (roll number and name) and one attendance
status per student per date. The four statuses are present `p`, absent `a`,
half day morning `hm` and half day evening `he`. The model covers:

- the main page `intex.php`, which validates statuses, records one cell over
  AJAX or a whole date through the form, keeps an activity log, adds students,
  seeds an empty roster and counts the absent and half-day students of a date;
- the summary page `summary.php`, which shows one date or counts over a date
  range, and clears all attendance on confirmation;
- the two roster managers `students.php` (AJAX, with a transactional delete)
  and `manage_students.php` (plain form, with a non-transactional delete).

The store is the class `Schema.Database`. It holds the two tables:

- `student` is a sequence of rows kept in primary-key (roll) order;
- `attendance` is a map from (roll, date) to a status.

It also carries the invariant `Schema.TablesValid`: rolls are sorted and
distinct, values fit their VARCHAR columns, and every attendance row's roll is
on the roster, which is the foreign key of intex.php:49.

Each SQL statement is a function from the old tables to the new tables or to
the server's error, and the class methods run it in place. MySQL strict mode is
assumed:

- a duplicate primary key gives error 1062;
- a value too wide for its column gives 1406;
- an attendance row for an unknown roll gives 1452.

Deleting a student cascades to its attendance rows.

The modules are:

- `PhpText`: PHP string built-ins (`trim`, `stripslashes`, `htmlspecialchars`
  with ENT_QUOTES, `empty`, `strtolower`, string `<`);
- `Schema`: the tables and statements;
- `DailyCounts`: the per-date figures;
- `Recorder`: the intex.php request handlers;
- `Summary`: summary.php;
- `StudentsAjax`: students.php;
- `ManageStudents`: manage_students.php.

Dates, log timestamps and the first day of the month are parameters. Failures
of the store that the model cannot produce itself are also parameters: a
failing TRUNCATE, a failing DELETE, a failing attendance SELECT on page load
(`selectFails` of `DailyCounts.PageLoadTally`), a failing sample insert
(`failAt` of `Recorder.InsertAll` and `Recorder.SeedIfEmpty`), and a log file
that does not open.

## Model

| member | source | states |
|---|---|---|
| Schema.ParseStatus | intex.php:159-162 | Accepts exactly `p`, `a`, `hm`, `he`; an accepted code maps back to itself. |
| Schema.ParseStatusOfCode | intex.php:42-47 | Every stored status code passes the validation and decodes to the same status. |
| Schema.ErrorCode | intex.php:111 | The error number is 1062 exactly for a duplicate primary key. |
| Schema.InsertByRoll | intex.php:32-35 | Inserting a new roll into the roll-ordered roster keeps it sorted and adds exactly that row. |
| Schema.WithoutRoll | students.php:81-83 | Removing a roll keeps every other row and the order, and takes exactly that roll out of the set of rolls. |
| Schema.Renamed | students.php:55-57 | UPDATE ... SET name WHERE roll: same rolls in the same places; only the row with that roll gets the new name. |
| Schema.InsertStudent | intex.php:101-103 | INSERT INTO student succeeds iff the roll is new and both values fit their columns. A duplicate of a fitting pair is error 1062. On success the tables stay valid, the roster gains exactly that row, and attendance is unchanged. |
| Schema.ReplaceAttendance | intex.php:166-169 | REPLACE INTO attendance succeeds iff the roll is rostered (foreign key). It then sets exactly that (roll, date) to the status, keeps every other key and the roster, and keeps the tables valid. |
| Schema.ReplaceAttendanceIdempotent | intex.php:265-268 | Repeating a successful upsert changes nothing. |
| Schema.DeleteAttendanceOf | students.php:77-79 | DELETE FROM attendance WHERE roll removes exactly that roll's rows and keeps all other rows and the roster. |
| Schema.DeleteStudent | intex.php:49 | DELETE FROM student removes that roll from the roster; ON DELETE CASCADE removes its attendance rows; everything else is kept. |
| Schema.UpdateName | students.php:55-58 | The UPDATE fails only for a rostered roll with a name too long for its column. The affected-row count is positive iff a row with that roll had a different name. Zero affected rows means nothing changed, and attendance is never touched. |
| Schema.Truncate | summary.php:24 | TRUNCATE TABLE attendance empties the attendance map and keeps the roster. |
| Schema.Database.Insert | intex.php:101-104 | The store runs InsertStudent in place: new state on success, old state and the error otherwise. |
| Schema.Database.Replace | intex.php:166-169 | The store runs ReplaceAttendance in place. |
| Schema.Database.DeleteAttendance | students.php:77-79 | The store runs DeleteAttendanceOf in place. |
| Schema.Database.Delete | students.php:81-83 | The store runs DeleteStudent in place. |
| Schema.Database.Update | students.php:55-57 | The store runs UpdateName in place and returns the affected-row count. |
| Schema.Database.TruncateAttendance | summary.php:24 | The store runs Truncate in place. |
| Schema.Database.Restore | students.php:86-87 | Rollback: the store returns to the saved tables. |
| PhpText.Trim | intex.php:96-97 | trim() drops the PHP whitespace set from both ends: the result neither starts nor ends with one. |
| PhpText.TrimKeepsInnerBlock | students.php:18 | trim() returns the inner block of its input, and everything it cut is whitespace. |
| PhpText.TrimIdempotent | manage_students.php:24 | Trimming twice is trimming once. |
| PhpText.StripSlashes | students.php:18 | stripslashes() never lengthens its input and leaves a string without a backslash unchanged. |
| PhpText.StripSlashesUndoesAddSlashes | manage_students.php:25 | On every string addslashes() produces, stripslashes() gives back the original: each backslash it added is dropped, and `\0` gives NUL. |
| PhpText.HtmlSpecialChars | students.php:18 | htmlspecialchars() never shortens its input, and its result is empty iff the input is. |
| PhpText.HtmlSpecialCharsIsSafe | students.php:18 | After htmlspecialchars(..., ENT_QUOTES) no raw `<`, `>`, `"` or `'` remains, and every `&` starts one of the five entities. |
| PhpText.DecodeUndoesHtmlSpecialChars | manage_students.php:26 | Decoding the five entities gives back the escaped input, so escaping loses nothing. |
| PhpText.PhpEmpty | intex.php:99 | "" is empty; a string that empty() calls empty has at most one character; a one-character string is empty iff it is "0". |
| PhpText.AsciiLower | summary.php:476 | strtolower() keeps the length and lower-cases exactly the ASCII capitals. |
| PhpText.StrLessTrichotomy | summary.php:64 | On two non-numeric strings, such as the validated dates compared at summary.php:64, PHP's `>` is byte order, a strict total order: exactly one of equal, less or greater holds. (Numeric strings are compared as numbers, and that mixed order is not total.) |
| PhpText.StrLessTransitive | summary.php:64 | On non-numeric strings, such as the validated dates compared at summary.php:64, PHP's string order is byte order, which is transitive. |
| PhpText.StrLessIrreflexive | summary.php:64 | No string is before itself. |
| DailyCounts.RowsOnDate | intex.php:304-310 | The map of a date holds a roll iff the store has a row for (roll, date), with that row's status. |
| DailyCounts.EffectiveStatus | intex.php:329 | A student with a row for the date has that row's status; one with no row is present. |
| DailyCounts.LeftJoinOnDate | intex.php:191 | The LEFT JOIN has one row per rostered student, in roster order, with the student's roll and name. Its status is null iff there is no row for (roll, date), and otherwise it is that row's status. |
| DailyCounts.CountDay | intex.php:326-341 | The page-load loop computes DayTally: each counter is the length of its list, and each list holds the roster students with that effective status, in roster order. |
| DailyCounts.PageLoadTally | intex.php:288-341 | The page-load figures are DayTally over the roster and the date's rows. If the attendance SELECT fails, the error is caught, every student shows as present, and all counters and lists are empty. |
| DailyCounts.RecountJoined | intex.php:196-207 | The AJAX loop over the LEFT JOIN counts each non-null status into its counter and list. |
| DailyCounts.JoinedListMatchesDayList | intex.php:191-207 | For each of absent, hm and he, the LEFT JOIN list equals the page-load list. |
| DailyCounts.RecountMatchesPageLoad | intex.php:191-207 | The AJAX recount and the page-load computation give the same counters and lists for every roster, store and date, given that the join and the page load match rolls the same way (see the collation line under Left out). |
| DailyCounts.InDayList | intex.php:329-340 | A student is in the list of a status iff it is on the roster and its status for the day is that one, with no row meaning present. |
| DailyCounts.UnrecordedStudentIsPresent | intex.php:329 | A rostered student with no row for the date is in none of the three lists. |
| DailyCounts.CountersBoundedByRoster | intex.php:326-341 | The three counters add up to at most the roster size. |
| DailyCounts.DayListInRollOrder | intex.php:290 | Every list is in roll order. |
| DailyCounts.UpsertThenRead | intex.php:166-169 | After a successful upsert the day reads back the new status for that roll and the old one for every other roll. |
| DailyCounts.StatusDisplayText | intex.php:136-145 | The text of a stored code is neither a code nor "N/A"; any other value, "N/A" included, is shown unchanged. |
| DailyCounts.StatusDisplayTextIdentifies | intex.php:136-145 | getStatusDisplayText gives the four codes four different texts, none of which is itself a code; any other value except "N/A" is shown as it is. |
| Recorder.UpdateCell | intex.php:150-245 | An invalid status answers "Invalid status value provided." with no write. A failing upsert answers "Database error during update." with no write. Otherwise the cell is upserted and the answer carries the figures of the date after the write. |
| Recorder.LogLine | intex.php:270 | A log line starts with "[" and the timestamp and ends with a line feed. When no field holds a line feed, that final one is its only line feed. |
| Recorder.BatchEffect | intex.php:256-276 | The batch keeps the roster and keeps the tables valid. |
| Recorder.SubmitBatch | intex.php:249-285 | The batch loop leaves the store as BatchEffect says and appends its log lines to an open log file. |
| Recorder.BatchLogsAcceptedEntries | intex.php:269-271 | Exactly one log line, carrying the timestamp, date, roll and submitted value, per entry with a valid status for a rostered roll, in submission order. |
| Recorder.BatchLeavesOtherKeys | intex.php:256-276 | Rows of other dates are untouched, and so are the rows of a roll that only rejected entries name (an invalid status or an unrostered roll is skipped) or that no entry names. |
| Recorder.BatchStoresAcceptedEntry | intex.php:256-276 | Entries are independent: an accepted entry whose roll is not submitted again later is stored, whatever the other entries do. |
| Recorder.AddStudent | intex.php:95-122 | Trimmed roll and name must both be non-empty for PHP `empty()`, where "0" counts as empty. A duplicate (1062) and any other error are told apart, and neither changes the store. Otherwise exactly that pair is added. |
| Recorder.SecondAddIsDuplicate | intex.php:111-112 | Adding a roll a second time is refused with 1062, and the first name stays. |
| Recorder.SampleStudentsOrdered | intex.php:61-80 | The 36 sample rows are in roll order and fit the columns. |
| Recorder.InsertAll | intex.php:81-85 | Inserting an ordered, fitting list into an empty roster yields exactly that list. If the insert at some index fails, the loop stops there and the roster is the rows before it. Attendance is unchanged either way. |
| Recorder.SeedIfEmpty | intex.php:57-91 | An empty roster becomes exactly the sample list when no insert fails. When one fails, the exception is caught and the roster keeps the sample rows inserted before it. A non-empty store, including a partly seeded one, is left untouched, so a partial seed is never completed. |
| Summary.ClearAllData | summary.php:21-36 | Attendance is truncated only when `confirm_clear` is exactly "yes" and the TRUNCATE succeeds; every other case leaves the store unchanged, each with its redirect message. |
| Summary.ClearedStoreHasNoRows | summary.php:24 | After the clear no (roll, date) has a row, and the roster is kept. |
| Summary.MatchesDatePattern | summary.php:59 | The regex as written accepts every well-shaped date; the only other strings it accepts are a well-shaped date plus one trailing newline. |
| Summary.DatePatternAcceptsTrailingNewline | summary.php:59 | "2024-01-10\n" passes the check as written but is not a well-shaped date. |
| Summary.IsDateShape | summary.php:59 | The corrected check accepts only ten characters, each a digit or a dash, and no line break. |
| Summary.DateOrderIsNumericOrder | summary.php:64 | For well-shaped dates, PHP's string comparison agrees with the order of the numbers YYYYMMDD, which is the order BETWEEN uses. |
| Summary.RequestOf | summary.php:40-56 | The filter defaults to "single". Dates not set by the mode are today. |
| Summary.ResolveFilter | summary.php:40-68 | Uses the corrected date check `Summary.IsDateShape` (see Findings). Stops with "Invalid date format provided." iff one of the three requested dates is malformed. Single mode queries the selected date. Any other mode queries an ordered range made of the two requested dates, swapped iff inverted in custom mode and marked in the title. A mode other than single or custom queries [today, today]. |
| Summary.StatusOn | summary.php:92-97 | The single-date status is "N/A" iff there is no row; otherwise it is the stored code. |
| Summary.BuildSummary | summary.php:86-137 | The loop over the roster produces SummaryOf: one row per student, or one per student with a counted row. |
| Summary.SingleViewShape | summary.php:86-103 | The single-date view has one row per student, in roster order, with the stored code or "N/A", never a default of present. |
| Summary.RangeCount | summary.php:106-112 | A status count is positive iff the student has a row with that status dated within [start, end]. |
| Summary.RangeCountsPartition | summary.php:106-122 | The four range counts of a student sum to the number of its rows in the inclusive range. |
| Summary.RangeRowIffRecorded | summary.php:124-135 | A student contributes a range row iff it has a row in the range. |
| Summary.RangeViewListsRecordedStudents | summary.php:104-135 | A rostered student appears in the range view iff it has an attendance row dated within [start, end]. |
| Summary.SummaryInRollOrder | summary.php:74 | Both views are in strictly increasing roll order. |
| Summary.InvertedRangeIsEmpty | summary.php:64-68 | A range with its end before its start has no rows, which is why custom mode swaps it. |
| Summary.SummaryStatusCell | summary.php:474-497 | "N/A" gets class `status-na`. Any other value gets class `status-` followed by the value in lower case. An unknown code is shown unchanged. |
| Summary.SummaryStatusCellIdentifies | summary.php:477-489 | The four codes are shown with four different texts, none of them "N/A", and each gets the CSS class `status-` followed by its own code. |
| StudentsAjax.SanitizeInput | students.php:17-19 | The sanitised value is HTML-safe, and decoding it gives back the trimmed, unslashed input. |
| StudentsAjax.SanitizedEmptyIff | students.php:27 | PHP `empty()` judges the sanitised value exactly as the trimmed, unslashed one. |
| StudentsAjax.AjaxAdd | students.php:24-44 | An empty field answers "Roll No. and Name are required." with no write. A duplicate answers "Duplicate Roll No.", any other error "Database error: " and its text, both with no write. Otherwise the sanitised pair is inserted and echoed. |
| StudentsAjax.AjaxEdit | students.php:46-66 | An empty field is rejected with no write. Success is affected rows > 0, with "Updated successfully." or "No changes made.". An error answers "Error: " and its text, with no write. |
| StudentsAjax.AjaxDelete | students.php:68-94 | An empty roll is rejected with no change. A failure of either DELETE rolls back to the exact previous tables. Otherwise attendance rows and then the student are deleted. |
| StudentsAjax.DeleteAttendanceThenStudent | students.php:75-85 | Deleting attendance first gives the same tables as the cascading student delete. Afterwards the roll is on no row of either table, and all other rows are kept. |
| ManageStudents.SanitizeInput | manage_students.php:23-28 | The three-step sanitiser computes the same string as students.php's one-expression version. |
| ManageStudents.FormAdd | manage_students.php:33-57 | The sanitised pair is inserted with no emptiness check. A failing insert prints "Error adding student: " and the error, and changes nothing. |
| ManageStudents.FormEdit | manage_students.php:61-85 | Only the name of the matching roll changes. An unknown roll changes nothing. A failure prints "Error updating student: ". |
| ManageStudents.FormDeleteEffect | manage_students.php:88-119 | Without a transaction, a failing student delete leaves the student with its attendance already gone. A failing attendance delete still ends, through the cascade, as a full delete. Both failing changes nothing. |
| ManageStudents.FormDelete | manage_students.php:88-119 | Both DELETEs are attempted in order; each failure is reported with its own message and does not stop the other. |
| ManageStudents.FormDeleteFailureOutcomes | manage_students.php:96-118 | Spells out the partial outcome and the cascade outcome of a failing step. |
| ManageStudents.ListStudents | manage_students.php:123 | The listing holds every rostered student, in roll order. |

## Left out

- HTML, CSS and browser script are not modelled. This covers:
  - page markup and the HTML fragments of the lists (intex.php:217-239, 344-369);
  - alerts and redirects, apart from their messages;
  - JSON encoding;
  - the client-side `clearAttendance` fetches;
  - the login and sign-up stub in script.js and signup.js.
- set_db.php is not part of this model. Its `attendance` table declares `status CHAR(1)`, which would truncate `hm` and `he`, and that table's foreign key to `students` has no cascade. Both conflict with intex.php:44-50, which this model follows.
- Table names differ across the pages. intex.php, summary.php:74 and students.php:97 use `student`; students.php's statements, manage_students.php and set_db.php use `students`. The model has a single roster table.
- MySQL collation is not modelled. The default collation compares rolls case-insensitively; the model orders and matches rolls by character code. `DailyCounts.RecountMatchesPageLoad` depends on this choice. On the server, the foreign-key check and the LEFT JOIN of intex.php:191 match rolls case-insensitively, while the page load looks rows up by exact PHP array key (intex.php:309, 329). So a row stored for "ttc0824001" when the roster holds "TTC0824001" would be counted by the AJAX recount but not by the page load. The model cannot produce that row.
- MySQL DATE parsing is not modelled. Dates are strings ordered as strings. `Summary.DateOrderIsNumericOrder` shows this agrees with date order for well-shaped dates. The server also accepts relaxed forms such as "2024-1-5", "2024/01/05" and "20240105", stores them as 2024-01-05, and normalises the `WHERE date = ?` arguments of intex.php:304 and summary.php:92 the same way. The model keys each of these as a distinct string, and it accepts strings the server would reject.
- Connection handling, `die` on a failed connection or table creation, and `error_log` are not modelled.
- DailyCounts.RecountJoined: the failure of the recount query (intex.php:209-213) is not modelled. That path answers success with zero counts.
- The error texts of `Schema.ErrorMessage` approximate the server's messages.
- manage_students.php is modelled as checking each statement's return value, as written. Under PHP 8.1's default mysqli error mode, a failing statement would throw an uncaught exception instead.
- A failure to prepare a statement in manage_students.php is not modelled.
- Missing POST fields are taken to be empty strings.
- A POST with an unknown `action` falls through to the listing, and is not modelled separately.
- htmlspecialchars on invalid UTF-8 (the empty result) is not modelled; strings are sequences of characters.
- The wall clock and timezone are not modelled: today's date, the first of the month and the log timestamp are parameters.
- Whether the log file opens is a parameter (a null log).
- The title strings of summary.php are modelled only as part of `Summary.ResolveFilter`; the rest of the page text is not.

## Findings

| source | as written | input that shows it | evidently intended | confidence | as-written member | corrected member |
|---|---|---|---|---|---|---|
| summary.php:59 | `preg_match("/^\d{4}-\d{2}-\d{2}$/", $date)` without the `D` modifier: `$` also matches before a final newline | `to=2024-01-10%0A` (the date followed by "\n") passes the check and reaches the query | accept only the ten characters `dddd-dd-dd` | medium, not executed | Summary.MatchesDatePattern (counterexample: Summary.DatePatternAcceptsTrailingNewline) | Summary.IsDateShape (its contract states it admits no line break; used by Summary.ResolveFilter) |
