# Course-record pipeline of the course-catalogue scraper

The scraper reads a university department's course catalogue page, turns each
table row into a `Course` record, keeps the undergraduate required courses,
orders them "as teams" and writes them to a CSV file. This project models the
part between the HTML scraper and the file:

- **Field parsers** (`FieldParsers`):
  - `Split_course_type_and_name` splits a course title into a type and a name;
  - `ParseGradeFromNotes` extracts the class token that follows "/ 資工系";
  - `calculateHours` counts the class periods in a schedule string;
  - `stripTags` deletes HTML tags.

  Each regular expression is a left-to-right scanner that keeps the regex
  semantics: leftmost match, `.*?` as short as possible, `.` not matching a
  newline, `\d` and `[A-Z0-9,]` as ASCII classes, and `\s` as `[\t\n\f\r ]`.
- **Record assembly** (`Assembly`): the row callback of the crawler. A row's
  cell strings become a `Course`, or the row is dropped. The
  `Assembly.CourseList` class holds the list that accepted courses are
  appended to.
- **Team sort** (`TeamSort`, `Sorting`): `SortCoursesAsTeam`.
  - Courses are grouped by name in a map. Each group keeps the least code as
    text.
  - Each group is sorted by the integer value of its codes.
  - The groups are sorted by the integer value of their text-least code, then
    concatenated.
  - `Sorting.SortByKey` is the in-place array sort standing in for `sort.Slice`.
- **CSV export** (`CsvExport`): the three input checks of `write_csv_file`, in
  order, and the records it hands to the CSV writer. These are the header,
  then one eight-field row per course.
- **Support modules**:
  - `Strings`: the parts of Go's `strings` package in use (`TrimSpace`,
    `Index`, `Contains`, `ReplaceAll`, `Split`, `Join`);
  - `Strconv`: `strconv.Atoi` and `strconv.Itoa`;
  - `Records`: the `Course` record;
  - `Wrappers`: `Option` and `Result`.

Properties worth noting:

- **Team ranking.** A group's minimum code is chosen by comparing codes as text
  (`string_split.go:60`), but groups are ranked by the code's integer value
  (`string_split.go:104-108`). The model reproduces this. For codes "9" and
  "10", the group is ranked by 10 (`TeamSort.TextualMinimumOfNineAndTen`).
- **Whitespace-only code cell.** The row callback tests the raw code cell for
  emptiness before trimming it (`crawler.go:146-152`). A cell holding only white
  space therefore passes the test and yields a course whose code is empty, so
  "every accepted course has a code" does not hold. The model follows the code
  (`Assembly.BlankCodeCellYieldsEmptyCode`).

## Model

| member | source | states |
|---|---|---|
| Strings.TrimSpace | crawler.go:152 | the result is the input with a leading and a trailing run of white space cut off, and has no white space at either end itself; already-trimmed text is returned unchanged; all-white-space text becomes "" |
| Strings.IndexFrom | string_split.go:17 | a found index is an occurrence with no earlier occurrence at or after the start; `None` means there is no occurrence at or after the start |
| Strings.Split | string_split.go:21 | at least one piece; without a separator the only piece is the input; otherwise there are at least two pieces, the first being the text before the first separator |
| Strings.SplitJoin | string_split.go:21 | joining the pieces of a split with the separator gives back the input |
| Strings.SplitPiecesAvoidSep | string_split.go:21 | no piece of a split contains the separator |
| Strings.SplitUndoesJoin | crawler.go:166 | splitting a join of one or more parts gives back the parts, whenever no part contains the separator's first character |
| Strings.JoinAvoidsChar | crawler.go:166 | a character that is in neither the parts nor the separator is not in their join |
| Strings.ReplaceAll | crawler.go:156 | text without the pattern is returned unchanged |
| Strings.ReplaceAllIsJoinOfSplit | crawler.go:156 | replacing every non-overlapping occurrence, left to right, equals splitting at the pattern and joining the pieces with the replacement |
| Strconv.ParseInt | string_split.go:95-96 | a parse succeeds if and only if the text is an optional '+' or '-' followed by at least one ASCII digit; the value is that of the digits, negated after '-' |
| Strconv.Atoi | string_split.go:95-105 | with the error ignored, text that is not a signed decimal reads as 0; digit strings read as their value, '+' digits as the same value, '-' digits as its negation; a negative result needs a leading '-' |
| Strconv.NatToDecimal | crawler.go:94 | non-empty, all digits, no leading zero, and its decimal value is the number |
| Strconv.Itoa | crawler.go:94 | `Atoi`'s parser reads the number back from the text; the text is canonical (no '+', no leading zero, no "-0") and starts with '-' exactly when the number is negative |
| Strconv.LeadingDigitBound | crawler.go:94 | a digit string is worth at least its leading digit, so canonical text after '-' is never zero |
| Strconv.DecimalOfDigits | crawler.go:94 | canonical digits are exactly the decimal text of their own value |
| Strconv.ItoaOfNegative | crawler.go:94 | canonical digits with a non-zero lead, negated, are written as '-' followed by those digits |
| Strconv.ItoaOfAtoi | crawler.go:94 | every canonical text is `Itoa` of the number it parses to, so `Itoa` has one spelling per number |
| FieldParsers.SpanEnd | crawler.go:45 | a span that starts at `k` ends at a position at or after `k` inside the text |
| FieldParsers.RemoveSpans | crawler.go:45-46 | deleting spans never lengthens the scanned text |
| FieldParsers.SpanEndIsNearestClose | crawler.go:45 | a non-greedy `<.*?>` ends at the nearest `>`, with no newline before it; when there is none, every later `>` has a newline before it |
| FieldParsers.RemoveSpansWithoutOpen | crawler.go:45-46 | text with no opening character is copied unchanged |
| FieldParsers.RemoveSpansDeletesFirstSpan | crawler.go:45-46 | the first span, from its opening character to its nearest closing character, is deleted and the rest is scanned again; the text before it is kept whenever each opening character in it is cut off by a line break with no closing character up to it |
| FieldParsers.SpanEndBlocked | crawler.go:45 | a line break reached before any closing character ends the search: no span starts there |
| FieldParsers.StripTagsKeepsUnclosedBeforeTag | crawler.go:44-47 | in `a<b` newline `<i>c`, the `<` cut off by the line break is kept and the later tag is still deleted |
| FieldParsers.RemoveSpansLeavesNoSpan | crawler.go:45-46 | no complete span is left in the output |
| FieldParsers.RemoveSpansOfClean | crawler.go:45-46 | text with no complete span is a fixed point |
| FieldParsers.StripTags | crawler.go:44-47 | the output is never longer than the input |
| FieldParsers.StripTagsRemovesEveryTag | crawler.go:44-47 | no tag without a line break inside survives (a `<` whose nearest `>` comes after a newline is kept, as `.` does not match a newline); stripping twice is stripping once; input without `<` (and so "") is returned unchanged |
| FieldParsers.TrimSpaceKeepsNoSpan | crawler.go:174 | trimming text that has no tag leaves no tag |
| FieldParsers.StripTagsSimpleTag | string_split_test.go:149 | `<p>Hello</p>` gives `Hello` |
| FieldParsers.StripTagsNestedTags | string_split_test.go:150 | `<div><span>World</span></div>` gives `World` |
| FieldParsers.StripTagsAttributes | string_split_test.go:153 | `<a href="/path">Link</a>` gives `Link` |
| FieldParsers.CountDigitRuns | crawler.go:114-116 | the number of `\d+` matches is at most the length of the scanned text |
| FieldParsers.CountDigitRunsCountsRunStarts | crawler.go:114-116 | the `\d+` matches are exactly the maximal runs of ASCII digits, one per run start |
| FieldParsers.CalculateHours | crawler.go:108-117 | the hours are never negative and never exceed the length of the schedule string |
| FieldParsers.CalculateHoursCountsPeriods | crawler.go:108-117 | a schedule containing "無資料" gives 0; otherwise the hours are the number of maximal digit runs left after every `[...]` segment is deleted, and no such segment is left |
| FieldParsers.HoursOfOneDay | string_split_test.go:172 | `星期二/6,7,8[C118]` gives 3 |
| FieldParsers.HoursOfTwoDays | string_split_test.go:173 | `星期二/9,三/9[H307] 星期一/1,2[H308]` gives 4 |
| FieldParsers.HoursWithoutRoom | string_split_test.go:174 | `一/1,2,3` gives 3 |
| FieldParsers.HoursOfNoData | string_split_test.go:175 | `無資料` gives 0 |
| FieldParsers.HoursOfEmptySchedule | string_split_test.go:176 | "" gives 0 |
| FieldParsers.HoursOfRoomOnly | string_split_test.go:177 | `[ST436]` gives 0 |
| FieldParsers.PeriodsOfTwoDays | string_split_test.go:173 | the cleaned two-day schedule holds four digit runs |
| FieldParsers.GradeAt | crawler.go:15 | a capture starting at a given position is non-empty and made only of `A`-`Z`, `0`-`9` and `,` |
| FieldParsers.FindGrade | crawler.go:19 | a capture from the leftmost match is non-empty text of the class `[A-Z0-9,]` |
| FieldParsers.ParseGradeFromNotes | crawler.go:17-29 | the grade is either "未知" or non-empty text of the class `[A-Z0-9,]` |
| FieldParsers.UnknownIsNotGradeText | crawler.go:28-29 | "未知" can never be a captured class token |
| FieldParsers.GradeAtIsMatch | crawler.go:15 | a capture comes from a match of the pattern and is the maximal `[A-Z0-9,]` run at its place |
| FieldParsers.MatchIsFoundByGradeAt | crawler.go:15 | wherever the pattern matches, the scanner finds a capture that extends the matched token |
| FieldParsers.MaximalMatchIsCaptured | crawler.go:15 | a match whose token cannot be extended is exactly what the scanner captures |
| FieldParsers.FindGradeMissesOnlyWithoutMatch | crawler.go:19 | the search fails exactly when no position from the start begins a match |
| FieldParsers.FindGradeIsLeftmost | crawler.go:19 | a found capture is the capture at some position, and no earlier position begins a match |
| FieldParsers.FindGradeSkips | crawler.go:19 | text without '/' can be skipped without changing the result |
| FieldParsers.FirstSlashDecides | crawler.go:19 | when the first '/' begins a match, that match is the result |
| FieldParsers.GradeTextIsTrimmed | crawler.go:25 | trimming a captured token changes nothing |
| FieldParsers.MatchGivesGrade | crawler.go:22-25 | if the pattern matches anywhere, the result is not "未知" |
| FieldParsers.GradeComesFromMatch | crawler.go:22-25 | a result other than "未知" implies that the pattern matches |
| FieldParsers.ParseGradeIsCapture | crawler.go:22-25 | when the search succeeds, the result is its capture |
| FieldParsers.ParseGradeUnknownIffNoMatch | crawler.go:17-29 | the result is "未知" if and only if the pattern matches nowhere |
| FieldParsers.ParseGradeIsLeftmostCapture | crawler.go:15-25 | a result other than "未知" is the capture at the leftmost position that begins a match |
| FieldParsers.GradeAtNeedsSlashAndMarker | crawler.go:15 | a capture needs both a '/' and "資工系" in the notes |
| FieldParsers.NoMarkerMeansUnknown | crawler.go:28-29 | notes without "資工系", or without '/', give "未知" |
| FieldParsers.GradeAfterMarker | string_split_test.go:196-197 | '/' (with no earlier '/'), white space, "資工系", white space, then a maximal token gives that token, commas included (e.g. `2A,2B`) |
| FieldParsers.GraduateClassIsUnknown | string_split_test.go:198 | "/ 資工碩…" with no other '/' gives "未知" |
| FieldParsers.GradeWithoutMarkerIsUnknown | string_split_test.go:199 | plain notes without the marker give "未知" |
| FieldParsers.SplitCourseTypeAndName | string_split.go:14-30 | the type never contains '-'; when the title has a '-', the type, a '-' and the name fit within the title, and the name contains neither '-' nor a space |
| FieldParsers.SplitCourseTypeAndNameWithoutDash | string_split.go:17-20 | a title without '-' gives ("未知", title), unchanged |
| FieldParsers.SplitCourseTypeAndNameSplitsAtFirstDash | string_split.go:21-26 | with a '-', the type is the text before the first '-'; the name follows it and runs up to the next '-', space or end; neither part contains '-', and the name has no space |
| FieldParsers.CourseTypeEndsAtFirstDash | string_split.go:21-23 | the type is exactly the prefix before the first '-' |
| FieldParsers.NameAfterFirstDash | string_split.go:26 | the name sits right after the first '-' and ends at a '-', a space or the end of the title |
| FieldParsers.CourseNameIsFirstWord | string_split.go:26 | the name is exactly the text from after the first '-' to the next '-' or space |
| FieldParsers.SplitCourseTypeAndNameRecoversParts | string_split.go:14-30 | type + "-" + name + (English part) splits back into (type, name) |
| FieldParsers.TitleWithEnglishName | string_split_test.go:17-22 | `選修-這是中文課程 course name` gives (選修, 這是中文課程) |
| FieldParsers.TitleWithoutEnglishName | string_split_test.go:23-28 | `必修-資料結構` gives (必修, 資料結構) |
| FieldParsers.TitleWithoutSeparator | string_split_test.go:29-34 | `專題討論` gives (未知, 專題討論) |
| FieldParsers.EmptyTitle | string_split_test.go:35-40 | "" gives (未知, "") |
| Assembly.CleanTitle | crawler.go:155-156 | the title is trimmed at both ends and no longer than the text after the line breaks are replaced |
| Assembly.CleanTitleJoinsLines | crawler.go:155-156 | a title made of lines separated by "<br/>" (no other '<') comes out as the same lines separated by single spaces, trimmed |
| Assembly.InstructorLine | crawler.go:161-167 | the instructor field always ends in "教授" |
| Assembly.InstructorNamesRecoverable | crawler.go:161-167 | no instructor links give just "教授"; otherwise, when no name contains "與", cutting off "教授" and splitting at "與" gives the names back |
| Assembly.CleanNotes | crawler.go:169-174 | the notes are trimmed and contain no tag |
| Assembly.CleanNotesJoinsLines | crawler.go:169-174 | notes made of lines separated by "<br/>" (no other '<') come out as the same lines separated by newlines, trimmed |
| Assembly.BuildCourse | crawler.go:145-189 | a row is dropped if and only if its raw code cell is empty, its cleaned notes contain "碩" or its type contains "選修"; every field of a kept course is derived from its cell as the callback does it, and the course is well formed (not elective, not graduate, grade "未知" or a class token, instructor ending in "教授", tag-free trimmed notes, hours ≥ 0) |
| Assembly.Accepted | crawler.go:178-187 | a row contributes at most one course, and that course is well formed |
| Assembly.BlankCodeCellYieldsEmptyCode | crawler.go:146-152 | a non-empty code cell of white space only yields a course whose code is empty |
| Assembly.AppendKeepsWellFormed | crawler.go:186 | appending a well-formed course keeps the list well formed |
| Assembly.CourseList.constructor | crawler.go:143 | the list starts empty |
| Assembly.CourseList.OnRow | crawler.go:145-189 | the callback for one row, field by field: the list becomes the old list plus the row's accepted course (if any), so earlier courses are untouched; every course in the list stays well formed |
| Sorting.SwapStep | string_split.go:94-98 | swapping an out-of-place element with its left neighbour moves the gap one step to the left, keeps the multiset and leaves everything after the prefix alone |
| Sorting.Insert | string_split.go:94-98 | one insertion step extends the sorted prefix by one element; the prefix is a rearrangement of the old prefix, and the elements after it are untouched |
| Sorting.SortByKey | string_split.go:103-110 | in place: the array ends in nondecreasing key order and is a permutation of its old contents |
| TeamSort.StringLess | string_split.go:60 | a string is never less than itself, and nothing is less than "" |
| TeamSort.StringLessProperPrefix | string_split.go:60 | a proper prefix is less than the longer string ("1" before "10") |
| TeamSort.StringLessTransitive | string_split.go:60 | comparing codes as text is transitive |
| TeamSort.StringLessTotal | string_split.go:60 | comparing codes as text is a strict total order |
| TeamSort.WithName | string_split.go:47-64 | a name's courses are no more than the input's, and every one of them has that name |
| TeamSort.GroupByName | string_split.go:46-64 | after the grouping loop, the map sends each name in the input to its courses in input order, with the least code as text; it has no other keys |
| TeamSort.AddCourse | string_split.go:50-63 | one step of the grouping loop, for a new name or an existing one, keeps that description of the map |
| TeamSort.MinCodeSnoc | string_split.go:59-62 | a new member replaces the kept minimum exactly when its code is smaller as text |
| TeamSort.MinCodeIsLeast | string_split.go:55-62 | a group's minimum code is one of its codes, and no member's code is smaller as text |
| TeamSort.TextualMinimumOfNineAndTen | string_split.go:103-110 | for codes "9" and "10" the minimum kept at line 60 is "10", so the group is ranked by 10, not 9 |
| TeamSort.SortMembers | string_split.go:94-98 | a group's members are rearranged into nondecreasing integer-code order; its name and minimum code are kept |
| TeamSort.CollectTeams | string_split.go:90-100 | the map becomes a list of teams: one per name, each complete and ordered, with all courses between them |
| TeamSort.AddTeam | string_split.go:92-100 | adding one finished team per step keeps that description |
| TeamSort.OrderTeams | string_split.go:103-110 | the teams are rearranged into nondecreasing integer order of their minimum codes |
| TeamSort.FlattenRearranged | string_split.go:113-116 | reordering the teams does not change the multiset of courses |
| TeamSort.RearrangedTeams | string_split.go:103-110 | reordering the teams keeps the names distinct, each team complete and all courses present |
| TeamSort.Concatenate | string_split.go:112-116 | the output is the teams' members, one team after another |
| TeamSort.TeamsInOrder | string_split.go:113-118 | concatenating distinct, complete, code-ordered teams in minimum-code order keeps each name together, members in code order and teams in order |
| TeamSort.SortCoursesAsTeam | string_split.go:40-119 | a permutation of the input (same multiset, hence same length); empty input gives empty output; courses of a name are contiguous; within a name, codes never decrease numerically; teams follow the numeric order of their textual minimum code |
| TeamSort.WorkedExample | string_split_test.go:59-82 | any result with those properties, on input B/30, A/20, C/5, B/10, is exactly C/5, B/10, B/30, A/20 |
| CsvExport.CsvRow | crawler.go:88-97 | a row has exactly eight fields, and reading them back (hours parsed from the decimal text) gives the course again, so the order Code, Type, Name, Grade, Credits, Hours, Instructor, Notes loses nothing; the hours column is canonical decimal text |
| CsvExport.WriteCsvFile | crawler.go:50-101 | an empty file name, then empty contents, then an empty header are refused, each before anything is written; otherwise the records are the header followed by the row of each course, in order |

## Left out

- Fetching the page and finding cells: the colly collector, its scraped and
  error callbacks, `Visit` and the goquery selectors (`crawler.go:139-201`).
  These are network and foreign-library calls. The row callback takes the cell
  strings they produce as inputs (`Assembly.RowCells`).
- Console input and output: reading the year and term, the term check,
  `log.Fatal`, and every `fmt.Printf` and `log` call. This includes the logging
  in the no-match branch of the second copy of `ParseGradeFromNotes`
  (`string_split.go:205-210`), which does not change its result.
- `main`'s term-to-label mapping and file-name concatenation, and the call
  sequence in `main` (collect, sort, export).
- The 7-label header that `main` passes to `write_csv_file` while each row has
  8 fields. `CsvExport.WriteCsvFile` takes any non-empty header, as the source
  does.
- Writing the file:
  - creating it, the byte-order mark, `encoding/csv` quoting, `Flush` and
    `Close`, and the write errors these can return (`crawler.go:66-84, 98-100`);
  - `CsvExport.WriteCsvFile` yields the records handed to the writer instead
    of writing them;
  - the three checks come before any of these steps, so "refused before the
    file is created" holds of the model.
- `string_split.go` repeats `stripTags`, `calculateHours`,
  `ParseGradeFromNotes` and `write_csv_file` from `crawler.go`. Each is modelled
  once and cited at its `crawler.go` lines.
- Go map iteration order (`string_split.go:92`). `TeamSort.CollectTeams` picks
  the next name with an arbitrary choice, so its contract holds for every
  order.
- `sort.Slice` is not stable.
  - `Sorting.SortByKey` is an insertion sort, one admissible outcome.
  - The contracts of `TeamSort.SortMembers`, `TeamSort.OrderTeams` and
    `TeamSort.SortCoursesAsTeam` state order only up to ties. They promise no
    particular order among equal keys.
- The grouping map holds `*CourseGroup` pointers in the source. The model keeps
  `CourseGroup` values in a `map` and writes the updated group back, which
  behaves the same because no pointer is shared.
- `SortCoursesAsTeam`'s loops are modelled as the helper methods
  `GroupByName`, `CollectTeams` (with `SortMembers`), `OrderTeams` and
  `Concatenate`, called in the source's order.
- Strconv.ParseInt: out-of-range values are not modelled. For text outside
  the 64-bit range Go returns the value clamped to the nearest 64-bit bound, with a
  range error, and the ignored error leaves the clamped value. The model keeps
  the full value: course codes are assumed to be short enough.
- Strconv.Atoi: inherits that gap; a code beyond 64 bits reads as its full value.
- Strings, and the comparison of codes as text, are sequences of Unicode code
  points. Go works on UTF-8 bytes:
  - `TrimSpace` and the regex classes are the same on code points;
  - the order used by `TeamSort.StringLess` is the same for valid UTF-8;
  - lengths in `FieldParsers.CalculateHours` and `FieldParsers.StripTags`
    count code points, not bytes.
- Strings.TrimSpace: white space is the set Go's `unicode.IsSpace` accepts.
  Invalid UTF-8 is not modelled.
