# Attendance reports: a verified model

This project models the reporting page of an attendance management app (a
Next.js/React page backed by a Firestore store). A manager picks an employee (or
"All Employees") and a date range. The page then:

- queries the attendance collection for that window and sorts the answer, newest first;
- counts the records as present, late and absent;
- shows one table row per record, with the check-in, check-out and duration cells;
- on request, exports the same content as a PDF with a generated file name. A busy
  flag ignores a second export click while one is still running.

The model is split by concern:

- `wrappers.dfy`: an `Option` type.
- `text.dfy`: integer interpolation, the regular-expression `\s` class and ASCII lowercasing.
- `records.dfy`: the attendance and user documents, and instants in milliseconds.
- `duration.dfy`: `calculateDuration`.
- `summary.dfy`: `calculateSummaryStats`.
- `selection.dfy`: the date window, the query constraints, the store's filtering and the in-place sort.
- `names.dfy`: the id-to-name map and the Employee fallbacks.
- `rows.dfy`: the cells of the PDF table and of the on-screen table.
- `export.dfy`: the PDF file name.
- `reports_page.dfy`: the page's state (class `ReportsPage`) and its operations.

Inputs from outside the page are parameters of the model:

- the two store collections (a sequence of documents), and whether the store answers;
- the current instant, as the `today` of the constructor, as the `now` of the
  PDF footer and as the formatted `stamp` of the file name;
- the date library's minute difference, as the function `minutesBetween`;
- the PDF engine's success or failure.

The two Employee columns fall back differently, and the model keeps both as
written. The PDF shows "Unknown" (src/app/dashboard/reports/page.tsx:219), while
the on-screen table shows the raw user id (line 432). The PDF's Employee line
interpolates the map entry directly, so an id with no entry prints "undefined"
(line 191).

## Model

| member | source | states |
|---|---|---|
| Text.NatToString | src/app/dashboard/reports/page.tsx:37 | interpolating a non-negative integer gives at least one decimal digit, with no leading zero unless the value is 0 |
| Text.IntToString | src/app/dashboard/reports/page.tsx:37 | interpolating any integer gives a non-empty text made only of digits and '-' |
| Text.NatToStringRoundTrip | src/app/dashboard/reports/page.tsx:37 | the digits written for n read back as n |
| Text.IntToStringRoundTrip | src/app/dashboard/reports/page.tsx:37 | the text written for any integer i, negative ones included, parses back to exactly i |
| Text.LowerChar | src/app/dashboard/reports/page.tsx:246 | `toLowerCase` on one character gives no upper-case letter, keeps whitespace as whitespace, and leaves every other character alone |
| Text.Lower | src/app/dashboard/reports/page.tsx:246 | `toLowerCase` keeps the length and lowercases position by position |
| Records.Seconds | src/app/dashboard/reports/page.tsx:154 | the timestamp's `seconds` is the whole number of seconds before the instant: s*1000 <= t < (s+1)*1000 |
| Duration.JsRemainder | src/app/dashboard/reports/page.tsx:35 | JavaScript `%` by a positive divisor: lies strictly between -b and b, equals the Euclidean remainder for a >= 0, and is <= 0 for a < 0 |
| Duration.JsFloorDiv | src/app/dashboard/reports/page.tsx:34 | `Math.floor(a / b)` is the q with q*b <= a < (q+1)*b |
| Duration.JsTruncDiv | src/app/dashboard/reports/page.tsx:34-35 | division truncated toward zero agrees with the floor for a >= 0, and with the truncating remainder it adds back to a |
| Duration.CalculateDurationAsWritten | src/app/dashboard/reports/page.tsx:30-38 | the text is exactly "In Progress" if and only if the check-out is missing |
| Duration.CalculateDuration | src/app/dashboard/reports/page.tsx:30-38 | "In Progress" exactly when the check-out is missing; equal to the code as written for every difference >= 0 |
| Duration.HoursMinutes | src/app/dashboard/reports/page.tsx:37 | the template `{h}h {m}m` has at least five characters, starts with the hours' sign or first digit, and ends in 'm' |
| Duration.HoursMinutesParses | src/app/dashboard/reports/page.tsx:37 | the text `{h}h {m}m` of any pair of integers reads back as that pair |
| Duration.DurationSplitsMinutes | src/app/dashboard/reports/page.tsx:33-37 | for m >= 0 the text shows h = m div 60 and r = m mod 60, with 0 <= r < 60 and h*60 + r == m, so it shows m |
| Duration.DurationInjective | src/app/dashboard/reports/page.tsx:33-37 | distinct non-negative differences give distinct texts |
| Duration.DurationShowsDifference | src/app/dashboard/reports/page.tsx:33-37 | the corrected text of any difference, negative ones included, adds back to that difference; its minutes part lies in (-60, 60) and both parts share the sign of the difference |
| Duration.NegativeDurationOffByAnHour | src/app/dashboard/reports/page.tsx:34-35 | as written, every negative difference that is not a whole number of hours shows one hour less than it is; the corrected text shows the difference itself |
| Duration.AsWrittenMinutes | src/app/dashboard/reports/page.tsx:33-37 | what the text as written adds back to: the difference when it is >= 0, and the difference minus 60 when it is negative and not a whole number of hours |
| Duration.NegativeDurationAsWritten | src/app/dashboard/reports/page.tsx:34-35 | as written, a difference of -90 shows "-2h -30m", which adds back to -150 |
| Duration.WorkdayExample | src/app/dashboard/reports/page.tsx:30-38 | 09:00 to 17:30, i.e. 510 minutes, shows "8h 30m" |
| Summary.CountStatus | src/app/dashboard/reports/page.tsx:89-91 | a status count is at most the number of records, is 0 exactly when no record has that status, and equals the total exactly when every record has it |
| Summary.SummaryStats | src/app/dashboard/reports/page.tsx:86-92 | the total is the number of records, and none of the three counts exceeds it |
| Summary.CountUnrecognized | src/app/dashboard/reports/page.tsx:86-92 | the records counted in none of the three categories: at most the total, and 0 exactly when every status is PRESENT, LATE or ABSENT |
| Summary.CountConcat | src/app/dashboard/reports/page.tsx:89-91 | counting is additive over concatenation |
| Summary.CountPermutation | src/app/dashboard/reports/page.tsx:89-91 | a count depends only on the multiset of records, not on their order |
| Summary.StatsPermutation | src/app/dashboard/reports/page.tsx:86-92 | any reordering of the records, such as the sort, gives the same four numbers |
| Summary.CountsPartition | src/app/dashboard/reports/page.tsx:86-92 | the three status counts plus the unrecognised ones add up to the number of records: every record is counted exactly once |
| Summary.CategorySumBound | src/app/dashboard/reports/page.tsx:86-92 | present + late + absent <= total, with equality if and only if every status is recognised |
| Selection.StartOfDay | src/app/dashboard/reports/page.tsx:123-124 | the first millisecond of the instant's day: a multiple of the day length, at most the instant, and less than a day before it |
| Selection.EndOfDay | src/app/dashboard/reports/page.tsx:125-126 | the last millisecond (23:59:59.999) of the instant's day, which holds the instant |
| Selection.StartOfDayBound | src/app/dashboard/reports/page.tsx:123-124 | an instant is at or after the start of t's day exactly when its day number is at least t's |
| Selection.EndOfDayBound | src/app/dashboard/reports/page.tsx:125-126 | an instant is at or before the end of t's day exactly when its day number is at most t's |
| Selection.SameDayWindow | src/app/dashboard/reports/page.tsx:123-126 | an instant is between the start and the end of t's day, both inclusive, if and only if it falls on t's day |
| Selection.Satisfies | src/app/dashboard/reports/page.tsx:133-139 | a record passing a user clause has exactly that user id under an equality; a date clause compares with an instant, and a record passing `>=` or `<=` lies on that side of it |
| Selection.Selected | src/app/dashboard/reports/page.tsx:123-139 | a record is selected exactly when its day lies between the start date's day and the end date's day, both included, and it is the chosen employee's unless "all" is chosen |
| Selection.BuildQueryConstraints | src/app/dashboard/reports/page.tsx:132-142 | a record matches every clause if and only if it is selected (date within [start of start day, end of end day], and the chosen user's unless "all"); a user clause is present exactly when the selection is not "all", and it is `userId == selectedUser` |
| Selection.RunQuery | src/app/dashboard/reports/page.tsx:144-151 | the store answers with exactly the matching documents, each as many times as the collection holds it |
| Selection.SortKey | src/app/dashboard/reports/page.tsx:154 | the sort key is the date's whole seconds, rounded down: k*1000 <= date < (k+1)*1000 |
| Selection.SwapDown | src/app/dashboard/reports/page.tsx:154 | exchanges two neighbouring elements and keeps the multiset |
| Selection.SortedButStart | src/app/dashboard/reports/page.tsx:154 | a sorted prefix followed by one new element is sorted except at that element |
| Selection.SortedButStep | src/app/dashboard/reports/page.tsx:154 | swapping the out-of-order element with a predecessor that has a smaller key moves the exception one place left |
| Selection.SortedButDone | src/app/dashboard/reports/page.tsx:154 | once the exception stops before a key at least its own, the prefix is sorted |
| Selection.InsertAt | src/app/dashboard/reports/page.tsx:154 | one insertion step: the first i+1 elements become descending by `seconds`, the multiset is kept, and nothing after i changes |
| Selection.SortByDateDescending | src/app/dashboard/reports/page.tsx:154 | `records.sort((a, b) => b.date.seconds - a.date.seconds)`: the array becomes non-increasing in `seconds` and is a permutation of what it held |
| Selection.SelectRecords | src/app/dashboard/reports/page.tsx:123-154 | the records on show are sorted descending, are a permutation of the store's answer, and hold each selected document of the collection as often as the collection does, and nothing else |
| Names.DisplayName | src/app/dashboard/reports/page.tsx:109 | `user.name || user.email`: the name when non-empty, otherwise the email |
| Names.NamesMap | src/app/dashboard/reports/page.tsx:107-110 | the map's keys are exactly the users' ids, and the last user visited wrote its own entry |
| Names.NamesMapValue | src/app/dashboard/reports/page.tsx:107-110 | an id's entry is the display name of the last user with that id |
| Names.NamesMapEntries | src/app/dashboard/reports/page.tsx:107-110 | one entry per user id, holding the display name of the last user with that id |
| Names.NamesMapDistinct | src/app/dashboard/reports/page.tsx:107-110 | with distinct document ids the map has exactly one entry per user, holding that user's display name |
| Names.BuildNamesMap | src/app/dashboard/reports/page.tsx:107-111 | the `forEach` loop builds the map specified above: keys are the users' ids, and each entry is its last writer's display name |
| Names.TableEmployee | src/app/dashboard/reports/page.tsx:432 | the table's Employee cell is the mapped name when it is non-empty, otherwise the raw user id |
| Names.PdfEmployee | src/app/dashboard/reports/page.tsx:219 | the PDF's Employee cell is never empty: the mapped name when non-empty, otherwise "Unknown" |
| Names.PdfEmployeeHeading | src/app/dashboard/reports/page.tsx:191 | the PDF's Employee line is "All Employees" for "all", otherwise the mapped name, and "undefined" when the id has no entry |
| Names.TableEmployeeFromUsers | src/app/dashboard/reports/page.tsx:107-110 | with the map built from the users, the table shows a user's display name (or the id when that is empty), and an unknown id shows as itself |
| Rows.Elapsed | src/app/dashboard/reports/page.tsx:33 | a minute difference exists exactly when both times are there, and then it is the library's difference from check-in to check-out |
| Rows.TimeOrPlaceholder | src/app/dashboard/reports/page.tsx:435-446 | a time cell shows the placeholder exactly when the time is missing, and otherwise the instant itself |
| Rows.Overtime | src/app/dashboard/reports/page.tsx:469-475 | overtime hours are shown exactly when positive, and then they are the record's own hours |
| Rows.PdfRow | src/app/dashboard/reports/page.tsx:216-231 | a PDF row keeps the record's date; its Employee and Status cells are never empty, and Status shows the record's status when there is one; a time cell is "-" exactly when that time is missing; overtime is shown exactly when it is positive |
| Rows.TableRow | src/app/dashboard/reports/page.tsx:423-476 | a table row keeps the date and shows the status unchanged; check-in shows "Not Marked" and check-out "Not marked" exactly when that time is missing; overtime is shown exactly when positive |
| Rows.PdfRows | src/app/dashboard/reports/page.tsx:216 | one PDF row per record, in the same order |
| Rows.DurationCells | src/app/dashboard/reports/page.tsx:226 | no row ever reads "In Progress"; the PDF cell is "-" exactly when a time is missing; the table cell says "Absent" exactly when a time is missing and the status is ABSENT; otherwise both tables show the same text |
| Rows.DurationCellMinutes | src/app/dashboard/reports/page.tsx:226 | the duration cell adds back to the minute difference when that is >= 0, and to an hour less when it is negative and not a whole number of hours |
| Rows.EmployeeCells | src/app/dashboard/reports/page.tsx:219 | the PDF Employee cell is never empty, and the two Employee cells differ only where the table shows the raw id and the PDF says "Unknown" |
| Export.DropWhitespace | src/app/dashboard/reports/page.tsx:246 | strips exactly a leading whitespace run: what remains is a suffix starting with non-whitespace |
| Export.CollapseWhitespace | src/app/dashboard/reports/page.tsx:246 | `replace(/\s+/g, '-')` leaves no whitespace, never lengthens, and is empty exactly for the empty name |
| Export.Slug | src/app/dashboard/reports/page.tsx:246 | the slug has no whitespace and no upper-case letter, and is empty exactly for the empty name |
| Export.Subject | src/app/dashboard/reports/page.tsx:246 | "all-employees" for "all"; "unknown" when the id has no entry or an empty name; otherwise the slug of the name. It is never empty and has no whitespace or upper case |
| Export.ExportFilename | src/app/dashboard/reports/page.tsx:246 | the name is "attendance-report-", then the subject, then "-", the stamp and ".pdf", with that exact length |
| Export.DropWhitespaceInvisible | src/app/dashboard/reports/page.tsx:246 | dropping leading whitespace changes neither the text nor the hyphens |
| Export.CollapseKeepsText | src/app/dashboard/reports/page.tsx:246 | the collapse keeps every other character in order, and adds exactly one hyphen per whitespace run |
| Export.CollapseIdentity | src/app/dashboard/reports/page.tsx:246 | a name without whitespace is left as it is |
| Export.LowerIdentity | src/app/dashboard/reports/page.tsx:246 | lowercasing a text without upper-case letters changes nothing |
| Export.SlugIdempotent | src/app/dashboard/reports/page.tsx:246 | a slug is its own slug |
| Export.CollapseKeep | src/app/dashboard/reports/page.tsx:246 | a leading non-whitespace character passes through the collapse |
| Export.CollapseSpace | src/app/dashboard/reports/page.tsx:246 | a single leading whitespace character becomes one hyphen |
| Export.CollapseWord | src/app/dashboard/reports/page.tsx:246 | a leading word without whitespace passes through the collapse unchanged |
| Export.DropRun | src/app/dashboard/reports/page.tsx:246 | dropping leading whitespace removes exactly a whole whitespace run |
| Export.LowerConcat | src/app/dashboard/reports/page.tsx:246 | lowercasing distributes over concatenation |
| Export.CollapseRun | src/app/dashboard/reports/page.tsx:246 | any non-empty whitespace run becomes a single hyphen |
| Export.CollapseTwoWords | src/app/dashboard/reports/page.tsx:246 | two words separated by any whitespace run collapse to the words joined by one hyphen |
| Export.SlugTwoWords | src/app/dashboard/reports/page.tsx:246 | the slug of two words separated by whitespace is the lowercased words joined by one hyphen |
| Export.FilenameForTwoWordName | src/app/dashboard/reports/page.tsx:246 | the file name for an employee named "First Last" is attendance-report-first-last-{stamp}.pdf |
| Export.JaneDoeSlug | src/app/dashboard/reports/page.tsx:246 | "Jane Doe" becomes "jane-doe" |
| Export.JaneDoeExample | src/app/dashboard/reports/page.tsx:246 | an employee named "Jane Doe" exports to attendance-report-jane-doe-{stamp}.pdf |
| Reports.ReportsPage.constructor | src/app/dashboard/reports/page.tsx:41-56 | the first render: no records, zero counts, the spinner on, no export running, "all" selected, both dates today |
| Reports.ReportsPage.Screen | src/app/dashboard/reports/page.tsx:271-287 | the permission message exactly for non-managers, the spinner exactly for a manager while loading, the report otherwise |
| Reports.ReportsPage.SetFilter | src/app/dashboard/reports/page.tsx:322-357 | the employee selector and date pickers set the filter and nothing else, and the page invariant holds |
| Reports.ReportsPage.FetchUsers | src/app/dashboard/reports/page.tsx:96-115 | for a manager whose store answers, the users and the name map built from them; otherwise nothing changes; the page invariant holds |
| Reports.ReportsPage.FetchAttendanceRecords | src/app/dashboard/reports/page.tsx:117-167 | non-managers: no change. A manager's page sends one query meaning exactly the current selection and ends not loading. On an answer: each selected document of the collection is shown as often as it is stored, sorted, and the counts are those of the store's answer. On a failure: the old records and counts stay and the error alert is shown. In every case the counts describe the shown records |
| Reports.ReportsPage.Document | src/app/dashboard/reports/page.tsx:177-241 | the PDF content has one row per shown record, the page's counts, the Employee line and the footer's generation instant |
| Reports.ReportsPage.BeginGeneratePdf | src/app/dashboard/reports/page.tsx:169-261 | while an export is in flight nothing changes and nothing is sent; otherwise the flag is set and exactly one request is sent, with the current document and file name; the page invariant holds |
| Reports.ReportsPage.FinishGeneratePdf | src/app/dashboard/reports/page.tsx:263-268 | the flag is cleared whether the engine succeeded or failed, and the failure alert is shown exactly on failure; the page invariant holds |
| Reports.ReportsPage.GeneratePdf | src/app/dashboard/reports/page.tsx:169-269 | a call during an export changes nothing; any other call sends one request and ends with the flag cleared, with at most the failure alert added; the page invariant holds |
| Reports.OverlappingExports | src/app/dashboard/reports/page.tsx:169-173 | a click while the first export runs sends no second request, and the flag is down once the first ends |

## Left out

- The pdfMake script loading (src/app/dashboard/reports/page.tsx:59-83) is left out: it is a network side effect whose flag is never read.
- The `html2pdf` rendering and saving (line 261) is left out. It is a foreign library, so the model sends the document and file name to it, and its success or failure is an input. A failure while building the HTML belongs to the same `try` and is merged into that outcome.
- The HTML, CSS, colours, status colouring and row-parity shading are left out: they are presentation.
- Formatting dates and times with the date library is left out. Time cells keep the instant, and the export stamp is an opaque string.
- The local time zone of `setHours` is left out. Days are UTC days of 86,400,000 ms, so daylight-saving days are not modelled.
- `differenceInMinutes` is left out: it is an input function.
- `toFixed(2)` on overtime is left out. Only the choice between the hours and "-" is modelled, and the hours stay a real number.
- `toLowerCase` on non-ASCII letters is left out: it depends on Unicode case tables.
- React scheduling is left out, and so are overlapping fetches that finish out of order. Each fetch is one atomic step on the page state.
- The store's filtering is a sequence filter, and the order of its answer is not relied on. Indexes, pagination and the network are not modelled.
- A rejected `fetchUsers` (line 114) leaves the state unchanged. The unhandled rejection itself is not modelled.
- src/components/Navigation.tsx and src/lib/firebase.ts are not part of this model.
- Rows.PdfRow, Rows.TableRow: the duration cell follows the code as written, so for a check-out before the check-in it can show a text that adds back to an hour less than the difference (Rows.DurationCellMinutes). The corrected formatter is kept apart, in Duration.CalculateDuration.
- The name map is a Dafny `map`. The page uses a plain object, so an id such as "constructor" would find an inherited property and an id "__proto__" would not be stored as an entry; neither is modelled.
- A user with neither a name nor an email: the page stores `undefined` for them, and the PDF's Employee line prints "undefined". The model stores the empty string, so that line is empty. Both Employee cells agree with the page (the table shows the raw id, the PDF "Unknown").
- Names.NamesMapDistinct, Names.TableEmployeeFromUsers: these assume distinct user ids. The store does not guarantee it, because a user document with its own `id` field overrides the document id (line 101). Names.NamesMapEntries covers the general case.
- The footer's instant is kept as an instant: its formatting is the date library's, and its fixed "Generated by" text is presentation.
- Selection.SortByDateDescending: does not prove the sort stable. JavaScript's `sort` is stable, but the order of equal keys is not specified here, since the store's own order is not modelled either.

## Findings

| source | as written | input that shows it | evidently intended | confidence | as-written member | corrected member |
|---|---|---|---|---|---|---|
| src/app/dashboard/reports/page.tsx:34-35 | hours by `Math.floor(minutes / 60)`, minutes by the truncating `minutes % 60` | a check-out 90 minutes before the check-in: `minutes` = -90 gives "-2h -30m", which adds back to -150 | the design leaves a negative difference open, suggesting to clamp it to zero or report a data error; whatever the fix, the two parts should not contradict each other, and truncating both toward zero ("-1h -30m") is one such fix | low: not executed, and it needs a record whose check-out is earlier than its check-in | Duration.CalculateDurationAsWritten, Duration.NegativeDurationAsWritten | Duration.CalculateDuration, Duration.DurationShowsDifference |

The rows (`Rows.PdfRow`, `Rows.TableRow`) keep `calculateDuration` as written.
The discrepancy holds for every negative difference that is not a whole number of hours (`Duration.NegativeDurationOffByAnHour`).
The corrected `Duration.CalculateDuration` agrees with the code for every difference of zero or more.
`Duration.DurationShowsDifference` proves that its text always adds back to the difference.
