# CSV listings of the course academy site, in Dafny

The site reads three listings from spreadsheet exports: its courses, its team (split
into staff and volunteers) and its accreditation logos. Each listing is plain CSV
text that one of three parsers turns into records: `parseCoursesCSV`,
`parseTeamCSV` and `parseAccreditationsCSV` in `utils/api.ts`. The record shapes
come from `types.ts`. This project models those parsers as pure Dafny functions
over `seq<char>` and proves what they promise.

All three parsers share one pipeline. That pipeline is modelled once, in module `Csv`:

1. Trim the text, drop a byte-order mark, and cut it into lines at `\n` or `\r\n`.
2. Return nothing when there are fewer than two lines.
3. Cut the header line at every comma. Each name is trimmed and loses all its `"`.
4. Cut each data line at the commas that have an even number of `"` after them on the line.
   - Each field loses one leading and one trailing `"`, then is trimmed.
5. Drop blank lines, and lines whose field count differs from the header's.
6. Apply the listing's rules:
   - the skip marker `##` in the field that names the record;
   - per-field defaults;
   - the team parser's staff/volunteer split;
   - the required-column check of the team and accreditation parsers.

Modules:
- `Types`: the records `Course`, `TeamMember`, `TeamData` and `Accreditation`, `Option`, and `Filter`, which selects the elements of a sequence that satisfy a predicate. The team lists are filters.
- `Text`: string operations as ECMAScript defines them.
  - `trim`, with its full white-space set.
  - `split` on one character, and the join that inverts it.
  - Deleting a character.
  - ASCII lower-casing.
- `Uri`: `encodeURIComponent`. It escapes the UTF-8 bytes of every reserved character as `%XX`.
- `Numeric`: `Number(x) || 0` on decimal integers.
- `Csv`: the shared pipeline.
  - Cutting into lines, header names and data fields.
  - Finding a cell by column name: the last column of a name, as the object built by
    `Object.fromEntries` does, or the first, as `indexOf` does.
  - The filtering loop over the data lines, modelled as `FilterMap`.
- `Courses`, `Team`, `Accreditations`: one parser each.
  - `Team.ParseTeam` is a loop that pushes every member onto one of two lists, as the
    source does. Its result is proved equal to a functional reference, `Team.TeamOf`.

The data-line split is characterised exactly. `Csv.SplitFields` returns pieces whose
comma-join is the line (`Csv.CutAtSeparators`). In those pieces:
- the comma after every piece but the last has an even number of `"` after it;
- no comma inside a piece does.

`Csv.FieldsOfJoin` proves this cut is the only one with those properties.

## Model

| member | source | states |
|---|---|---|
| Text.Trim | utils/api.ts:6 | the trimmed text is a slice of the input with only white space removed at both ends; it starts and ends with a non-space; it is empty exactly when the input is all white space |
| Text.TrimIdempotent | utils/api.ts:14 | trimming an already trimmed cell changes nothing |
| Text.TrimTrimmed | utils/api.ts:14 | a string that starts and ends with a non-space is its own trim |
| Text.SplitOn | utils/api.ts:9 | `split(',')` yields at least one piece; rejoining the pieces with the separator gives the input back; no piece contains the separator |
| Text.SplitJoin | utils/api.ts:9 | splitting the join of separator-free pieces gives back exactly those pieces |
| Text.SplitCount | utils/api.ts:9 | a split has one piece more than the input has separators |
| Text.RemoveAll | utils/api.ts:9 | `replace(/"/g, '')` leaves no `"` and keeps every other character with its multiplicity; a single character is kept exactly when it is not `"` |
| Text.RemoveAllAppend | utils/api.ts:9 | deletion works piece by piece, so the remaining characters keep their order |
| Text.RemoveAbsent | utils/api.ts:9 | deleting a character that does not occur is the identity |
| Text.LowerCase | utils/api.ts:76 | `toLowerCase` keeps the length and lower-cases each character on its own |
| Text.LowerCaseMatchesOnlyItself | utils/api.ts:76 | lower-casing produces a string without ASCII letters only from that same string |
| Uri.EncodeComponent | utils/api.ts:26 | `encodeURIComponent` output holds only unreserved characters and `%`, so it cannot break the path or query of the URL it is put in, and it is never shorter than its input |
| Uri.EncodeUnreserved | utils/api.ts:26 | a title of unreserved characters is put into the URL unchanged |
| Uri.EncodeAppend | utils/api.ts:68 | encoding is applied character by character: the encoding of a concatenation is the concatenation of the encodings |
| Uri.Utf8RoundTrip | utils/api.ts:26 | the escaped bytes are the UTF-8 form of the character: decoding them gives its code point back |
| Uri.PercentByte | utils/api.ts:26 | a byte is escaped as `%` and two upper-case hex digits whose value is the byte |
| Numeric.NumberOrZero | utils/api.ts:25 | a price cell without any digit gives 0 |
| Numeric.NumberOfShowInt | utils/api.ts:25 | every integer written in decimal reads back as itself |
| Numeric.DigitsOfShowNat | utils/api.ts:25 | the decimal digits of a natural number read back as that number |
| Csv.StripBom | utils/api.ts:6 | a leading byte-order mark is removed, and nothing else is |
| Csv.BomGoneAfterTrim | utils/api.ts:6 | after `trim`, removing the byte-order mark never changes anything |
| Csv.SplitLines | utils/api.ts:6 | `split(/\r?\n/)` gives one line more than there are line feeds, and no line holds a line feed |
| Csv.LfLinesRoundTrip | utils/api.ts:6 | lines written with LF breaks are read back exactly, provided no line but the last ends in a carriage return |
| Csv.CrlfLinesRoundTrip | utils/api.ts:6 | lines written with CRLF breaks are read back exactly, carriage returns removed |
| Csv.Lines | utils/api.ts:6 | a sheet has one line more than its trimmed text has line feeds |
| Csv.SingleLine | utils/api.ts:6-7 | text whose trimmed form has no line feed is a single line, so it has no data lines |
| Csv.HeaderNames | utils/api.ts:9 | the header has one name more than its line has commas, and no name holds a `"` or a comma |
| Csv.HeaderName | utils/api.ts:9 | a header name never holds a `"`, and a cell that is already clean is kept as it is |
| Csv.QuotedHeaderName | utils/api.ts:9 | a header cell written between quotes becomes the text between the quotes |
| Csv.HeaderOfQuotedNames | utils/api.ts:9 | names free of commas and quotes, each written between quotes in a header line, are read back as they were, which is what the column checks at lines 45-50 and 92-95 look for |
| Csv.HeaderNameCommaFree | utils/api.ts:9 | cleaning a header cell adds no comma |
| Csv.HeaderRoundTrip | utils/api.ts:9 | trimmed names without commas or quotes, written as a header line, are read back as they were |
| Csv.IsSeparator | utils/api.ts:14 | the lookahead of the data-line pattern: a comma with an even number of `"` after it on the line |
| Csv.SeparatorLooksAhead | utils/api.ts:14 | whether a comma separates depends only on the text after it |
| Csv.SplitFields | utils/api.ts:14 | the data-line split cuts the line exactly at the commas followed by an even number of `"`: the pieces rejoin to the line and satisfy `CutAtSeparators` |
| Csv.FieldsOfJoin | utils/api.ts:14 | any pieces cut at exactly the separator commas are what the split returns for their join |
| Csv.FieldCount | utils/api.ts:14-15 | a data line has one field more than it has separator commas |
| Csv.StripQuotePair | utils/api.ts:14 | `replace(/^"\|"$/g, '')` removes at most one `"` in front and one at the back, and removes the one in front whenever it is there |
| Csv.CleanField | utils/api.ts:14 | every field value is trimmed |
| Csv.RowValues | utils/api.ts:14 | a data line has as many values as split fields, each trimmed |
| Csv.QuotedCellRoundTrip | utils/api.ts:14 | a quoted cell loses exactly its surrounding quotes |
| Csv.QuotedRowCut | utils/api.ts:14 | a row of quoted cells is cut exactly between the cells, even where cells hold commas |
| Csv.QuotedRowRoundTrip | utils/api.ts:14 | trimmed cells without quotes, written as a row of quoted cells, are read back as they were |
| Csv.DataRow | utils/api.ts:13-15 | a data line is dropped exactly when it is blank or its separator count plus one differs from the header's width; otherwise its cells are its cleaned fields |
| Csv.IndexOf | utils/api.ts:45-47 | `indexOf` finds a column exactly when the name is in the header, and then it is the first column of that name |
| Csv.LastIndexOf | utils/api.ts:17 | the last column of a name is found exactly when the name is in the header |
| Csv.Entries | utils/api.ts:17 | `Object.fromEntries` has one key per header name, and a key whose column does not repeat later holds that column's cell |
| Csv.LookupLastWins | utils/api.ts:17 | with duplicate column names, a row's object holds the cell of the last column of the name |
| Csv.OrElse | utils/api.ts:24 | `cell \|\| fallback` gives the cell or the fallback, the cell whenever it is non-empty, and never an empty string when the fallback is not empty |
| Csv.Usable | utils/api.ts:26-27 | `cell && cell !== '##'` holds exactly when `cell \|\| '##'` is something other than `##` |
| Csv.FilterMap | utils/api.ts:12-33 | the loop yields at most one record per line, and each record comes from one of the lines |
| Csv.FilterMapComplete | utils/api.ts:12-33 | every line that yields a record contributes it |
| Csv.FilterMapAppend | utils/api.ts:12-33 | records come in line order: two blocks of lines yield the records of the first, then those of the second |
| Csv.FilterMapSnoc | utils/api.ts:12-33 | one more line appends what it yields |
| Csv.FilterMapSkip | utils/api.ts:13-15 | a line that yields nothing can be inserted anywhere without changing the records |
| Courses.PlaceholderImage | utils/api.ts:26 | the picsum URL is its fixed prefix and suffix around the encoded title, and the title part holds only characters that cannot end the path segment |
| Courses.PriceOf | utils/api.ts:25 | a missing price column gives 0, and a price is non-zero only when its cell holds a digit |
| Courses.WrittenPriceReadsBack | utils/api.ts:25 | a price cell holding a written integer gives that integer |
| Courses.CourseOfRow | utils/api.ts:17-31 | a row becomes a course only with a title that is not empty and not `##` |
| Courses.ParseCourses | utils/api.ts:5-34 | text with a single line gives no courses; there are fewer courses than lines; every course has a title that is not empty and not `##` |
| Courses.CoursesTitled | utils/api.ts:19-20 | every parsed course has a usable title |
| Courses.CourseOfLineNone | utils/api.ts:13-20 | a data line yields no course exactly when it is blank, has the wrong width, or its last `CourseName` cell is missing, empty or `##` |
| Courses.CourseFields | utils/api.ts:19-30 | each course field in terms of the last column of its name: the title verbatim; description, instructor, days and time verbatim unless empty or missing, then their Arabic placeholders; image and booking link verbatim unless empty, missing or `##`, then the picsum URL keyed by the title or `#`; the price as a number, 0 when missing |
| Courses.SkipMarkerPerColumn | utils/api.ts:24-30 | `##` in description, instructor, days or time is shown as it is, while in the image or booking column it selects the default |
| Courses.NonNumericPriceIsZero | utils/api.ts:25 | a missing price, or one with no digit, is 0 |
| Courses.CoursesInLineOrder | utils/api.ts:12-33 | courses come in the order of their lines |
| Courses.DroppedLineChangesNothing | utils/api.ts:13-20 | a blank line, a line of the wrong width or a line without a usable title contributes nothing, wherever it stands |
| Courses.EveryTitledLineKept | utils/api.ts:12-31 | every line of the right width with a usable title yields a course that is in the result |
| Team.AvatarImage | utils/api.ts:68 | the ui-avatars URL is its fixed prefix and suffix around the encoded name, and the name part holds no `&`, `=` or other character that could end the `name` parameter |
| Team.IsVolunteer | utils/api.ts:76 | the volunteer test holds exactly when the trimmed job is `متطوع`: lower-casing cannot make any other job match |
| Team.TeamOf | utils/api.ts:36-83 | the reference result of the parser: two empty lists for single-line text or a header without `Name` or `job`, otherwise the members split by their job (further facts in Team.TeamOfFacts) |
| Team.TeamColumns | utils/api.ts:45-53 | the columns are found exactly when the header has both `Name` and `job`, and they lie within the header |
| Team.MemberOfRow | utils/api.ts:60-74 | a row becomes a member only with a name that is not empty and not `##`; a member's job is never empty |
| Team.ParseTeam | utils/api.ts:36-83 | the loop computes the reference result; single-line text or a header without `Name` or `job` gives two empty lists; volunteers are exactly the members whose job is `متطوع`, and no team member has that job; every name is usable; there are fewer members than lines |
| Team.SortMembers | utils/api.ts:55-81 | after the loop, the team list holds the non-volunteer members and the volunteer list the volunteers, each in line order |
| Team.MembersOneMore | utils/api.ts:76-80 | one more line appends its member to exactly the list its job selects |
| Team.KeepMembers | utils/api.ts:76-80 | each list holds exactly the members of its kind, and nothing else |
| Team.KeepAppend | utils/api.ts:76-80 | each list keeps line order across blocks of lines |
| Team.KeepSnoc | utils/api.ts:76-80 | a pushed member goes to the end of its own list only |
| Team.KeepPartition | utils/api.ts:76-80 | the two lists together hold every member exactly as often as the sheet does; their lengths add up to the member count |
| Team.TeamOfFacts | utils/api.ts:36-83 | the reference result has the properties promised for `ParseTeam` |
| Team.SortedByJob | utils/api.ts:76-80 | volunteers have exactly the job `متطوع`, team members another job, and nobody is lost |
| Team.DefaultJobFacts | utils/api.ts:63 | the default job is trimmed, non-empty and not the volunteer marker |
| Team.MarkerOnlyFromItself | utils/api.ts:76 | lower-casing turns a job into `متطوع` only when it already is `متطوع` |
| Team.MemberOfRowWellFormed | utils/api.ts:57-74 | a member read from a row has a usable name and a trimmed, non-empty job |
| Team.MembersWellFormed | utils/api.ts:55-74 | every member read from a sheet is well formed |
| Team.VolunteerExactly | utils/api.ts:76 | for a member read from a sheet, the trimmed, lower-cased volunteer test is plain equality with `متطوع` |
| Team.MembersInLineOrder | utils/api.ts:55-81 | both lists keep the order of the lines |
| Team.MemberOfLineNone | utils/api.ts:56-61 | a data line yields no member exactly when it is blank, has the wrong width, or its first `Name` cell is empty or `##` |
| Team.MemberFields | utils/api.ts:60-68 | each member field in terms of the first column of its name: the name verbatim; the job verbatim unless empty, then `عضو فريق`; the picture verbatim unless missing, empty or `##`, then the avatar URL keyed by the name |
| Team.BlankJobIsStaff | utils/api.ts:63-80 | a member with an empty job cell gets `عضو فريق` and is not a volunteer |
| Team.MemberInOneList | utils/api.ts:76-80 | every member read from a line is in the volunteers' list exactly when its job is `متطوع`, and in the team list exactly when it is not |
| Team.DroppedLineChangesNothing | utils/api.ts:56-61 | a blank line, a line of the wrong width or a line without a usable name contributes nothing, wherever it stands |
| Accreditations.LogoColumns | utils/api.ts:92-98 | the columns are found exactly when the header has both `AltText` and `ImageURL`, and they lie within the header |
| Accreditations.LogoOfRow | utils/api.ts:105-111 | a row becomes a logo only with an image that is not empty and not `##`, and its alternative text is never empty |
| Accreditations.ParseAccreditations | utils/api.ts:85-114 | single-line text or a header without `AltText` or `ImageURL` gives no logos; there are fewer logos than lines; every logo has a usable image and a non-empty alternative text |
| Accreditations.LogosUsable | utils/api.ts:105-111 | every parsed logo has a usable image and a non-empty alternative text |
| Accreditations.LogoFields | utils/api.ts:105-110 | in terms of the first column of each name: the image verbatim, and the alternative text verbatim unless empty, then `Accreditation Logo` |
| Accreditations.LogoOfLineNone | utils/api.ts:101-106 | a data line yields no logo exactly when it is blank, has the wrong width, or its first `ImageURL` cell is empty or `##` |
| Accreditations.LogosInLineOrder | utils/api.ts:100-113 | logos come in the order of their lines |
| Accreditations.DroppedLineChangesNothing | utils/api.ts:101-106 | a blank line, a line of the wrong width or a line without a usable image contributes nothing, wherever it stands |
| Accreditations.EveryUsableLineKept | utils/api.ts:100-112 | every line of the right width with a usable image yields a logo that is in the result |

## Left out

- Fetching with fallback (`fetchDataWithFallback`, utils/api.ts:128-139), and the `fetchCourses`, `fetchTeamData` and `fetchAccreditations` wrappers: network I/O. The parsers take the fetched text as their input.
- `submitRegistration` (utils/api.ts:160-185): a fire-and-forget HTTP POST with no parsing logic.
- `App.tsx` and `components/*.tsx`: presentation only, including the card's display of a zero price and the image-error fallbacks.
- The `console.error` diagnostics for missing columns: logging, with no effect on the result.
- Numeric.NumberOrZero: reads an optionally signed decimal integer, with white space around it allowed, and gives 0 for anything else.
  - `Number` also accepts fractions, exponents, hexadecimal, binary and octal numerals, and `Infinity`.
  - A price like `99.5` is 0 in the model, but 99.5 in the site.
  - Prices are `int` in the model, where the site uses floating-point numbers.
- Text.LowerCase: lower-cases ASCII letters only, where `toLowerCase` follows the full Unicode case mapping.
  - The one comparison it feeds is against an Arabic word, which has no case.
  - Only a non-ASCII character that lower-cases to an Arabic letter could tell the difference, and Unicode has none.
- Uri.EncodeComponent: lone surrogate code units, on which `encodeURIComponent` throws, cannot occur because a Dafny `char` is a Unicode scalar value.
- Details of the code worth knowing:
  - The header line is cut at every comma, with no regard for quotes, unlike the data lines.
  - Data lines are cut at the commas followed by an even number of `"` on the rest of the line. On a line with an odd number of `"` this is not the same as counting the `"` before the comma.
  - `##` selects the default only for the image and booking-link columns. In the description, instructor, days, time, job and alternative-text columns it is kept verbatim.
  - The volunteer marker is the Arabic word `متطوع` ("volunteer").
- Csv.StripBom is kept for fidelity, but after `trim` it never does anything (Csv.BomGoneAfterTrim): U+FEFF is white space to ECMAScript.
