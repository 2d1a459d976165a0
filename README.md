# UBCal course extractor: a Dafny model

This project models the data-extraction core of UBCal's course extractor
(`UBCalCourseExtractor`). The extractor opens the University of Bordeaux student
portal with a previously saved session and reads two things from its pages: the
student's personal details, and the courses of the current enrollment period. The browser is taken out of the model.
Each DOM query becomes the text it would return, and the clock becomes a month and a
year passed in as parameters.

- `wrappers.dfy` (module `Wrappers`): `Option` for a cell that is absent or a number that
  is NaN, and `Result` for an operation that throws.
- `js_string.dfy` (module `JsString`): the JavaScript string built-ins the extractor
  calls. `trim` uses the full ECMAScript white-space and line-terminator set.
  `toLowerCase` covers ASCII and Latin-1. `split` on one separator has its inverse
  `Join`. The unary `+` on a year string, `ToNumber`, has its inverse `Decimal`.
- `course_extractor.dfy` (module `CourseExtractor`): the `StudentDetails` and `Course`
  records, `generateURL`, `semesterNumber`, and the two extraction operations:
  - `GetStudentDetails` models `studentDetails`. It is a `for` loop over the form rows
    with the source's mutable locals, `continue` and `break`. It is proved against an
    independent definition: scanning stops at the first row that assigns no field
    once all three fields are filled (`StopIndex`). Each field holds the last value
    assigned to it before that row (`Latest`, `LastValue`).
  - `GetCourseDetails` models `courseDetails`. Its first loop looks for the enrollment
    row whose selected year is the current year, and stops at the first one. Its
    second loop keeps the course rows whose trimmed code ends with `U`. It is proved
    equal to `CourseList`, whose parts `CourseRowsOf`/`SearchEnd` and
    `ExtractCourses`/`KeptIndices` carry the properties.

The source's exceptions become `Error` values:
- `NoEnrollmentRows`: the 10-second wait for enrollment rows (line 89) fails once no
  row ever appears.
- `MissingCell`: a `cells[0]!` or `columns[1]!` dereference of an absent cell throws
  (lines 97, 112, 117).
- `PopupTimeout`: the popup wait after the expand click fails (line 102).

Three consequences of the code for the student details:
- A later row with the same label, read before the scan stops, overwrites the earlier
  value (`LastAssignmentWins`).
- The all-fields-filled test runs only on a row that assigns no field (index.ts:72-74).
  So the scan ends at the first such row once the fields are filled, or at the end of
  the rows (`StopIndex`, `LaterRowsIgnored`).
- A matching row whose value is white space only is truthy before trimming. It stores
  the empty string, which can empty a field that was filled before.

## Model

| member | source | states |
|---|---|---|
| CourseExtractor.GenerateURL | services/course-extractor/src/index.ts:155-168 | every view's address is the base URL followed by a `#!` fragment |
| CourseExtractor.GenerateURLInjective | services/course-extractor/src/index.ts:155-168 | the personal and course views have different addresses, in both directions of the equivalence |
| CourseExtractor.GenerateURLValues | services/course-extractor/src/index.ts:155-168 | the two addresses are the base URL + `#!etatCivilView` and the base URL + `#!inscriptionsView` |
| CourseExtractor.SemesterNumber | services/course-extractor/src/index.ts:175-178 | the semester index is always 0 or 1 |
| CourseExtractor.SemesterOfMonth | services/course-extractor/src/index.ts:175-178 | 0-based months 0..6 give index 1 and months 7..11 give index 0 |
| CourseExtractor.FieldOfLabel | services/course-extractor/src/index.ts:58-70 | a caption names field f exactly when it equals f's French label |
| CourseExtractor.LabelIsRecognised | services/course-extractor/src/index.ts:58-70 | a caption written as a label is still that label after lower-casing and trimming, so each of the three branches can be taken |
| CourseExtractor.LabelIsLowerCase | services/course-extractor/src/index.ts:59-67 | the three labels contain nothing that lower-casing changes, and neither end of a label is white space |
| CourseExtractor.RowEntry | services/course-extractor/src/index.ts:55-70 | a row that assigns a field has both texts present and non-empty, its lower-cased trimmed caption is that field's label, and the stored text is the trimmed value |
| CourseExtractor.RowEntryMeaning | services/course-extractor/src/index.ts:55-70 | a row assigns field f the text v exactly when both texts are present and non-empty, the lower-cased trimmed caption is f's label, and v is the trimmed value |
| CourseExtractor.StopIndex | services/course-extractor/src/index.ts:72-74 | the scan stops at the first row that assigns nothing while all three fields are filled; no earlier row is such a row |
| CourseExtractor.StopIndexPast | services/course-extractor/src/index.ts:52-75 | a row where the scan does not stop is passed over, so the scan goes on to the next row |
| CourseExtractor.LatestSnoc | services/course-extractor/src/index.ts:58-70 | one more row changes only the field it assigns, and a row that assigns nothing changes no field |
| CourseExtractor.GetStudentDetails | services/course-extractor/src/index.ts:39-77 | the result holds, for each field, the last trimmed value assigned to it before the row where the scan stops |
| CourseExtractor.EarlyStopIsComplete | services/course-extractor/src/index.ts:72-74 | when the scan stops before the last row, all three fields are non-empty |
| CourseExtractor.LastValueAbsent | services/course-extractor/src/index.ts:49-51 | a field that no row assigns keeps its initial empty string |
| CourseExtractor.LastValueSource | services/course-extractor/src/index.ts:57-70 | a non-empty field value is the text some row assigns to that field |
| CourseExtractor.LastValueAt | services/course-extractor/src/index.ts:59-70 | a field's value is the text of the last row that assigns it |
| CourseExtractor.AbsentLabelStaysEmpty | services/course-extractor/src/index.ts:49-76 | a field whose label appears in no row with both texts present is the empty string in the result |
| CourseExtractor.FieldProvenance | services/course-extractor/src/index.ts:55-76 | each non-empty result field is the trimmed value of some row whose caption is that field's label |
| CourseExtractor.LastAssignmentWins | services/course-extractor/src/index.ts:59-74 | of several rows with the same label before the stop, the last one decides the field |
| CourseExtractor.LaterRowsIgnored | services/course-extractor/src/index.ts:72-74 | rows appended after the stop row change neither the stop position nor the result |
| CourseExtractor.StopIndexFirst | services/course-extractor/src/index.ts:72-74 | a stop row with no stop row before it is where the scan ends |
| CourseExtractor.NoStopScansAll | services/course-extractor/src/index.ts:52-75 | without a stop row, the result reflects every row |
| CourseExtractor.PeriodYear | services/course-extractor/src/index.ts:97-98 | the selected year is a number exactly when the split has a piece at the semester index and that piece, trimmed, is all digits; the number is never negative |
| CourseExtractor.SearchEnd | services/course-extractor/src/index.ts:95-107 | the period search ends at the first row that has no cells or whose selected year is the current year; every earlier row has cells and is not current |
| CourseExtractor.SearchEndAt | services/course-extractor/src/index.ts:95-107 | the first row with no cells or with the current year is where the search ends |
| CourseExtractor.CourseRowsOf | services/course-extractor/src/index.ts:94-107 | a non-empty course table is the popup of some current period; a missing-cell error comes from a period row without cells; a timeout comes from a current period whose popup never appears; the search never reports the no-rows error |
| CourseExtractor.FirstCurrentPeriodWins | services/course-extractor/src/index.ts:95-107 | the first current period's course table is used, whatever later rows hold; if its popup never appears, the result is a timeout error |
| CourseExtractor.NoCurrentPeriod | services/course-extractor/src/index.ts:94-107 | with every period readable and none current, the course table is empty |
| CourseExtractor.MissingCellBeforeCurrent | services/course-extractor/src/index.ts:96-97 | a period row without cells, reached before any current row, makes the operation throw |
| CourseExtractor.LaterPeriodsIgnored | services/course-extractor/src/index.ts:99-106 | once the search has ended, appending period rows changes nothing |
| CourseExtractor.AcademicYearHalves | services/course-extractor/src/index.ts:97-98 | the period cell "a/b" gives year a at index 0 and year b at index 1 |
| CourseExtractor.CurrentAcademicYear | services/course-extractor/src/index.ts:92-99 | period "a/(a+1)" is current from August of year a to July of year a+1, and in no other month of those years |
| CourseExtractor.PeriodYearExample | services/course-extractor/src/index.ts:97-98 | "2023/2024" gives 2024 at index 1 and 2023 at index 0 |
| CourseExtractor.ExtractCourses | services/course-extractor/src/index.ts:108-121 | the course filter can throw only because a cell is missing |
| CourseExtractor.ExtractOk | services/course-extractor/src/index.ts:111-118 | the filter succeeds exactly when every course row has a first cell, plus a second cell when it is kept |
| CourseExtractor.IsCourseMeaning | services/course-extractor/src/index.ts:113 | a course row is kept exactly when its first cell has a `U` followed by nothing but white space |
| CourseExtractor.KeptIndicesExact | services/course-extractor/src/index.ts:113 | the kept positions increase, each one is a row whose trimmed first cell ends with `U`, and every such row is among them |
| CourseExtractor.ExtractExact | services/course-extractor/src/index.ts:108-121 | the list has one course per kept row, in input order, with code = trimmed cell 0 and name = trimmed cell 1 |
| CourseExtractor.CourseCodesWellFormed | services/course-extractor/src/index.ts:113-117 | every listed code ends with `U` and has no white space at either end |
| CourseExtractor.CourseFilterExample | services/course-extractor/src/index.ts:108-121 | of the rows INFO, 101 and LIC3U, only {LIC3U, Systems} is kept |
| CourseExtractor.NoCurrentPeriodNoCourses | services/course-extractor/src/index.ts:94-121 | when enrollment rows exist, all readable but none current, the course list is empty |
| CourseExtractor.CourseList | services/course-extractor/src/index.ts:83-122 | the result is the no-rows error exactly when there are no enrollment rows |
| CourseExtractor.GetCourseDetails | services/course-extractor/src/index.ts:83-122 | the result is the first current period's filtered course list, or the error the code throws; it is the no-rows error exactly when there are no enrollment rows; every listed code is trimmed and ends with `U` |
| JsString.Trim | services/course-extractor/src/index.ts:58-68 | the result is no longer than the input, and neither its first nor its last character is white space |
| JsString.TrimPadding | services/course-extractor/src/index.ts:113-117 | the result is a slice of the input with nothing but white space before and after it |
| JsString.Lower | services/course-extractor/src/index.ts:58 | the result has the input's length, with each character lower-cased in place |
| JsString.Split | services/course-extractor/src/index.ts:97 | there is always at least one piece, and no piece contains the separator |
| JsString.ToNumber | services/course-extractor/src/index.ts:98 | the result is NaN exactly when the trimmed text has a non-digit; a number read is never negative |
| JsString.TrimIdempotent | services/course-extractor/src/index.ts:113-116 | trimming an already trimmed text changes nothing |
| JsString.JoinSplit | services/course-extractor/src/index.ts:97 | joining the pieces of a split gives back the original text |
| JsString.SplitAtSeparator | services/course-extractor/src/index.ts:97 | the text before the first `/` is the first piece |
| JsString.DecimalRoundTrip | services/course-extractor/src/index.ts:98 | converting a numeral back to a number gives the number it was made from |
| JsString.ToNumberDecimal | services/course-extractor/src/index.ts:98 | unary plus on the numeral of n gives n |

## Left out

- Browser automation is not modelled: launching, contexts, `goto`, `waitForSelector`,
  `waitForTimeout`, `click`, `scrollIntoViewIfNeeded`, the XPath queries, `init`,
  `close`, and the popup helpers `#waitForPopup` and `#closePopup`. This is foreign I/O
  with timing. The rows those queries return are inputs instead.
- Only three of the popup waits' outcomes are modelled: the initial popups appear, and
  the course popup either appears with its rows or times out (`PopupTimeout`). A wait
  that hangs is not modelled.
- The 5-second settling delays and the unawaited 100-second `waitForTimeout` are
  left out. They have no effect on the extracted data.
- `new Date()` is not modelled. Month and year are parameters.
- The course rows that the page-wide popup query returns after the expand click are
  modelled as belonging to the clicked enrollment row.
- The expand button in the third cell is not modelled. Whether clicking it brings up
  the popup is all the model keeps.
- `JsString.ToNumber` models unary `+` only for blank strings (0) and decimal digit
  strings. Signs, fractions, exponents, hexadecimal and `Infinity` read as NaN here. An
  out-of-range index (`undefined`) gives NaN. Digit strings above 2^53 are read
  exactly, where JavaScript rounds them to the nearest double.
- `JsString.Lower` models `toLowerCase` for ASCII and Latin-1 letters only. For every
  other code point it leaves the text unchanged, which differs from JavaScript for
  letters outside Latin-1.
- Strings are sequences of Unicode scalar values. JavaScript strings are UTF-16 code
  units, which makes no difference to any text these operations compare.
- `generateURL` has a `default` branch that throws. It is not modelled, because the
  parameter's type admits only the two views.
- services/cookie-dumper/src/index.ts is not part of this model. It launches a
  browser, navigates to the login page, retries unboundedly while waiting for the
  success message, and saves storage state, which is all I/O.
- apps/cli/src/index.ts is not part of this model. `main` only sequences the two units
  and `generateContextPath` uses uuid and tmpdir. `table` post-processes the output of
  Node's `Console.table`, whose format belongs to a library outside this repository.
