# Student Performance Analyzer: a Dafny model of its text-to-metrics core

The Student Performance Analyzer is a browser page (one script, `app.js`).
A teacher pastes or uploads a CSV table: a header `Name,<subject>,…` and one
row per student. The page turns each row into a student record:

- a name;
- one mark per subject;
- the total and the average of the present marks;
- a letter grade;
- a pass/fail status.

It also computes class aggregates: the class average, the highest and
lowest average, and a grade histogram. From there the teacher can list the
students that reach a minimum average, sorted by average, and export the
table again as CSV.

This project models that core in Dafny 4.11 and proves what the code
promises about it. There are six modules:

- `Text` (text.dfy): `String.prototype.trim` over the ECMAScript white-space
  set, and `Array.prototype.join`.
- `Numeric` (numeric.dfy):
  - a stated decimal-literal grammar that stands for `isNumeric`/`Number`;
  - the decimal rendering of a natural number;
  - rounding to hundredths, standing for `+x.toFixed(2)`, on exact reals.
- `Csv` (csv.dfy):
  - `splitCSVLine`, as a method with a loop, proved equal to a fold of its
    loop body;
  - `parseCSV`;
  - the text the export button writes, with the conditions under which
    parsing that text gives the table back.
- `Metrics` (metrics.dfy): `assignGrade` and `computeMetrics`. The grade
  histogram is also built by a counting loop, as the source's `reduce` does.
- `View` (view.dfy): the filter and sort step of the apply-filter handler.
  The filtered students are copied into a fresh array, which an insertion
  sort orders in place.
- `App` (app.js's `currentData` and its handlers, app.dfy): a `Session` class
  whose field `current` stands for `currentData`. Its methods are parse,
  clear, apply filter and export. An alert becomes an `Alert` outcome that
  leaves the state as it was.

Marks and averages are `real`. An absent mark (NaN in the source) is
`Mark.Absent`. Sums and means are exact reals; what that leaves out is
listed under "## Left out".

The model follows the code where its behaviour is easy to misread:

- `parseCSV` trims only the whole text. `filter(Boolean)` then drops only
  the empty lines, so a line holding only blanks is kept and becomes a row
  with one empty cell (`Csv.Lines`, app.js:27).
- The grade is computed from the unrounded average (app.js:70). The stored
  average is the rounded one (app.js:71). A mark of 84.996 is therefore
  stored as 85 but graded B (`Metrics.GradeFromUnroundedAverage`). Rounding
  can only raise the letter the stored average would get, never lower it.
- A student with no subject columns passes, because `every` over no marks
  is true, and is graded F (`Metrics.ZeroSubjects`).
- The apply-filter handler replaces only the student list. The class
  average, the extremes and the histogram keep the values computed for the
  whole class (`{...currentData.metrics, students}`, app.js:214).
- Export does not quote cells. Parsing the exported text gives the table
  back under these conditions (`Csv.Exportable`): every cell is free of
  commas, quotes and line breaks and has no blanks at either end; there is
  at least one row; and no line comes out empty. The conditions are
  sufficient, not necessary: the table with no header and no rows is read
  back from its export too (`Csv.EmptyTableExported`). A cell holding a comma
  is written as it is: the cells `a, b` and `1` are exported as `a, b,1`,
  which reads back as three cells (`Csv.CommaCellExported`).

## Model

| member | source | states |
|---|---|---|
| Text.Trim | app.js:39 | the result has no ECMAScript white space at either end, holds only characters of the input, and a string already trimmed is returned as it is |
| Text.TrimIsInfix | app.js:39-42 | trim removes white space at the two ends and nothing else: the result is the infix that starts after the leading white space and is followed only by white space |
| Text.Join | app.js:220-221 | `join` of a single piece is that piece; Csv.SplitJoin, Csv.SplitJoinLines and Csv.JoinedLine state what joined pieces read back as |
| Numeric.ParseNumber | app.js:46 | a cell is numeric only if it is non-empty, uses only digits, signs, `.`, `e` and `E`, and holds at least one digit (the grammar sign? mantissa exponent? lies in its comment); which strings it accepts and their values are stated by the lemmas below, and Numeric.NumberShape, Numeric.UnsignedShape, Numeric.MantissaShape and Numeric.ExponentShape together state that it accepts nothing else |
| Numeric.IsNumeric | app.js:46 | `isNumeric` on a cell holds only for a non-empty string of digits, signs, `.`, `e` and `E` that holds a digit; it holds exactly for the cells Numeric.ParseNumber gives a value |
| Numeric.MantissaShape | app.js:46 | an accepted mantissa is either digits, worth their value, or whole digits, a point and fraction digits with at least one digit in all, worth the mantissa value of the two |
| Numeric.UnsignedShape | app.js:46 | an accepted unsigned literal is either an accepted mantissa with the same value, or an accepted mantissa, `e` or `E`, and an accepted exponent, worth the mantissa scaled by the exponent |
| Numeric.NumberShape | app.js:46 | an accepted cell is an accepted unsigned literal with no sign or `+` before it, worth its value, or with `-` before it, worth its value negated |
| Numeric.SecondPointNotNumeric | app.js:46 | a string of digits and points whose fraction after the first point holds another point is not numeric |
| Numeric.TwoPoints | app.js:46 | digits, a point, digits, a point and digits are not numeric |
| Numeric.SignedTwice | app.js:46 | two signs in front are not numeric |
| Numeric.BadExponent | app.js:46 | an accepted mantissa and `e` or `E` followed by anything that is not an accepted exponent are not numeric |
| Numeric.MissingExponent | app.js:46 | an accepted mantissa followed by `e` or `E` and nothing else is not numeric |
| Numeric.SecondMarker | app.js:46 | an exponent holding a further `e` or `E` is refused |
| Numeric.RejectedExamples | app.js:46 | `1.2.3`, `--5` and `5e` are not numeric |
| Numeric.SecondMarkerExample | app.js:46 | `1e2e3` is not numeric |
| Numeric.ParseMantissa | app.js:46 | an accepted mantissa uses only digits and `.`, holds at least one digit, and denotes a value that is not negative; its value is stated by Numeric.MantissaShape (digits alone, or digits, a point and digits) and by Numeric.DecimalMantissa for every `w.f` |
| Numeric.ParseExponent | app.js:46 | an accepted exponent is non-empty and uses only number characters; Numeric.ExponentShape states that it is digits with an optional sign, and Numeric.ExponentValue states its value |
| Numeric.ExponentShape | app.js:46 | an accepted exponent is digits with no sign or `+` before them, worth their value, or digits with `-` before them, worth their value negated |
| Numeric.ParseUnsigned | app.js:46 | an accepted unsigned literal uses only number characters and holds a digit; Numeric.NoExponent and Numeric.WithExponent state its value |
| Numeric.NatLiteralIsNumeric | app.js:46 | the decimal rendering of every natural number is a numeric cell, and it denotes that number |
| Numeric.NatToStringValue | app.js:61 | the digits written for the row number of a default name denote that number |
| Numeric.NatToString | app.js:61 | `String(n)` of a natural number: at least one digit, only digits, and no leading zero unless it is `0` itself |
| Numeric.DecimalMantissa | app.js:46 | whole digits, a point and fraction digits, one side possibly empty, are an accepted mantissa worth the whole digits plus the fraction digits over ten to the number of fraction digits |
| Numeric.NoExponent | app.js:46 | a mantissa without an exponent is an accepted unsigned literal with the same value |
| Numeric.WithExponent | app.js:46 | a mantissa, `e` or `E`, and an accepted exponent form an accepted literal worth the mantissa times ten to the exponent |
| Numeric.ExponentValue | app.js:46 | digits, `+` digits and `-` digits are accepted exponents worth the digits, the digits, and the digits negated |
| Numeric.SignedNumber | app.js:64 | an accepted unsigned literal is a numeric cell with its value, with no sign or `+` before it, and with `-` before it it is worth the value negated |
| Numeric.DecimalNumber | app.js:63-64 | whole digits, a point and fraction digits form a numeric cell that `Number` turns into the mantissa's value |
| Numeric.NegativeNumber | app.js:63-64 | a minus before an accepted mantissa gives a numeric cell worth the mantissa's value negated |
| Numeric.ExponentNumber | app.js:63-64 | a decimal mantissa followed by `e` and exponent digits is a numeric cell worth the mantissa times ten to the exponent |
| Numeric.LiteralExamples | app.js:63-64 | `72.5`, `-72.5` and `72.5e1` are numeric cells worth 72.5, -72.5 and 725 |
| Numeric.Round2 | app.js:71 | `+x.toFixed(2)` is within half a hundredth of x, is a whole number of hundredths, and keeps the sign of x |
| Numeric.Round2Monotone | app.js:75 | rounding to hundredths never reverses the order of two values |
| Numeric.Round2Fixed | app.js:75 | a value that is already a whole number of hundredths is not changed by rounding |
| Csv.SplitCSVLine | app.js:34-44 | the character loop returns exactly the fields of the fold of its loop body over the line, and ends on every line, including one with an unbalanced quote |
| Csv.Step | app.js:37-41 | one pass of the loop body: a quote flips the quote flag and is dropped, a comma outside quotes pushes the trimmed field and starts an empty one, any other character is appended; its effect on whole strings is stated by Csv.ScanCounts, Csv.ScanQuoted and Csv.ScanLoose |
| Csv.ScanFrom | app.js:37-41 | the loop run over a string from a given state, one character after another; Csv.ScanCounts and Csv.FieldCount state what it leaves |
| Csv.SplitFields | app.js:34-44 | a split line has at least one field (the one pushed after the loop ends); Csv.FieldCount, Csv.SplitFieldsClean and Csv.SplitJoin state the rest |
| Csv.LooseFields | app.js:39-42 | three cells without quotes or commas, joined by commas, split into those three cells, each trimmed |
| Csv.ScanCounts | app.js:36-41 | after the loop, the quote flag is set exactly when the line holds an odd number of quotes, and one field has been pushed per comma that occurs outside quotes |
| Csv.ScanQuoted | app.js:38-40 | a quoted section without quotes inside is copied into the current field whole, commas included, and leaves the quote flag off |
| Csv.FieldCount | app.js:34-44 | a split line has one field more than it has commas outside quotes |
| Csv.SplitFieldsClean | app.js:38-42 | no field contains a double quote, and every field is trimmed |
| Csv.SplitNoLineFeed | app.js:34-44 | a line without line feeds splits into fields without line feeds |
| Csv.QuotedFieldKeepsCommas | app.js:38-39 | a quoted first field keeps its commas and loses its quotes, and the plain fields after it are split at commas |
| Csv.QuotedNameExample | app.js:34-44 | `"Doe, Jane",88,91` splits into `Doe, Jane`, `88` and `91` |
| Csv.CommaCellExported | app.js:220-221 | export does not quote: the cells `a, b` and `1` are written as `a, b,1`, and that line splits into the three cells `a`, `b` and `1` |
| Csv.SplitJoin | app.js:221 | splitting plain cells joined by commas gives back the cells |
| Csv.SplitLines | app.js:27 | splitting at LF or CRLF gives at least one piece, and no piece holds a line feed; Csv.SplitJoinLines and Csv.SplitJoinLinesCRLF state that pieces joined by `\n` or by `\r\n` come back as they were |
| Csv.NonEmpty | app.js:27 | filter(Boolean) keeps only non-empty lines, taken from the input, and changes nothing when no line is empty; Csv.NonEmptyOne and Csv.NonEmptyAppend pin down exactly which lines it keeps, and in what order |
| Csv.NonEmptyOne | app.js:27 | a single line is kept exactly when it is not empty |
| Csv.NonEmptyAppend | app.js:27 | filter(Boolean) goes line by line in order: the kept lines of a + b are the kept lines of a followed by those of b |
| Csv.Lines | app.js:27 | every line parseCSV works on is non-empty and holds no line feed |
| Csv.ParseCSV | app.js:26-32 | fewer than two lines give empty headers and no rows, and the header is empty only then; otherwise the header is the split first line and each remaining line, in order, is one split row |
| Csv.SplitAll | app.js:30 | `lines.map(splitCSVLine)`: one split line per line, in the same order |
| Csv.ParsedCellsClean | app.js:26-32 | every parsed cell is trimmed and holds no quote and no line feed |
| Csv.JoinedLine | app.js:221 | a non-empty row of plain cells joined by commas is trimmed, holds no line break, and splits back into its cells |
| Csv.SerializeLines | app.js:220-221 | with at least one row, the exported text is the header line and the row lines joined by line feeds |
| Csv.Serialize | app.js:220-221 | the exported text: the header joined by commas, a line feed, then the rows joined by commas and separated by line feeds; Csv.SerializeLines and Csv.ExportRoundTrip state what it gives back |
| Csv.ExportLine | app.js:220-221 | each exported line of an exportable table is non-empty, trimmed, free of line breaks, and splits back into the header or its row |
| Csv.RowsReadBack | app.js:221 | the exported row lines of an exportable table split back into exactly its rows, in order |
| Csv.SplitJoinLines | app.js:27 | splitting lines free of line breaks, joined by line feeds, gives back the lines |
| Csv.SplitFirstLine | app.js:27 | a line without line feeds and not ending in a carriage return, followed by a line feed, is the first piece the split returns, and the rest splits on its own; a carriage return inside it is kept |
| Csv.InnerCRLine | app.js:27 | `a\rb\nc` splits into `a\rb` and `c`: only a carriage return directly before the line feed is dropped |
| Csv.SplitFirstLineCRLF | app.js:27 | a line without line feeds followed by a CR LF pair is the first piece the split returns, without the carriage return, and the rest splits on its own |
| Csv.SplitJoinLinesCRLF | app.js:27 | lines without line feeds, joined by CR LF pairs, split back into exactly those lines: `\r?\n` drops the carriage return of every pair |
| Csv.ExportedTextLines | app.js:220-221 | the lines parseCSV reads from an exported table are exactly the header line and the row lines |
| Csv.ExportRoundTrip | app.js:220-221 | parsing the exported text of an exportable table gives back the same headers and rows |
| Csv.EmptyTableExported | app.js:220-221 | the table with no header and no rows is exported as a lone line feed and read back unchanged, although it is not exportable |
| Csv.RowLines | app.js:221 | `rows.map(r => r.join(','))`: one line per row, as many as there are rows; Csv.SerializeLines and Csv.RowsReadBack state what they hold |
| Metrics.AssignGrade | app.js:48-54 | the grade is the best letter whose band the average reaches (85 A, 70 B, 50 C, 35 D, otherwise F); each boundary falls in the higher band |
| Metrics.GradeMonotone | app.js:48-54 | a larger average never gets a worse letter |
| Metrics.RoundingNeverLowersGrade | app.js:70-71 | the letter of the rounded average is never worse than the letter recorded from the unrounded one |
| Metrics.GradeFromUnroundedAverage | app.js:70-71 | one mark of 84.996 gives a stored average of 85 but a grade of B, while 85 itself is an A |
| Metrics.MarksShape | app.js:62-65 | there is one mark per subject column; a cell missing past the end of the row is absent; cells beyond the last subject are ignored |
| Metrics.CellMark | app.js:63-64 | the mark of one subject: the cell after the name column when the row has it and `isNumeric` holds, with the value `Number` gives; otherwise absent. Metrics.MarksShape and Metrics.CarolExample state its cases |
| Metrics.MarksOf | app.js:62-65 | one mark per subject column, in column order; Metrics.MarksShape states it |
| Metrics.PresentValues | app.js:66 | the values of the present marks, in order, never more than there are marks; Metrics.AbsentIgnored states that an absent mark anywhere adds no value; Metrics.AllPresentValues and Metrics.PresentAt state that, when every mark is present, it is exactly their values, position by position |
| Metrics.Sum | app.js:67 | the reduce that adds the values from 0; Metrics.SumBounds bounds it |
| Metrics.RawAverage | app.js:68 | the total over the number of present marks, or 0 without any; Metrics.AverageWithinMarks and Metrics.NoPresentMarks state it |
| Metrics.StatusOf | app.js:69 | `every` present mark at least 35; Metrics.StatusByValues states it as an if-and-only-if |
| Metrics.AbsentIgnored | app.js:66-68 | an absent mark, wherever it stands among the marks, leaves the values summed, and so the total and the average, unchanged |
| Metrics.AbsentIsNotZero | app.js:66-68 | a present 0 lowers a positive average while an absent mark does not, so absent marks are never counted as 0 |
| Metrics.SumBounds | app.js:67 | values between lo and hi sum to between n·lo and n·hi |
| Metrics.MeanBounds | app.js:68 | the mean of values between lo and hi lies between lo and hi |
| Metrics.AverageWithinMarks | app.js:66-68 | with at least one present mark, the average lies between any bounds on the present marks |
| Metrics.NoPresentMarks | app.js:67-70 | with no present mark, the total and the average are 0 and the grade is F |
| Metrics.StatusByValues | app.js:69 | the status is Pass exactly when no mark is absent and every mark is at least 35 |
| Metrics.ZeroSubjects | app.js:69-70 | with no subject column, the student passes with grade F, total 0 and average 0 |
| Metrics.PassingStudent | app.js:69-71 | a passing student with a subject has every mark, an exact and a stored average of at least 35, and a grade better than F |
| Metrics.PassingMarks | app.js:69-70 | marks that pass are all present, their exact and rounded averages are at least 35, and their grade is better than F |
| Metrics.DefaultName | app.js:61 | an empty or missing name cell gives `Student ` followed by the digits of the 1-based row number |
| Metrics.NameOf | app.js:61 | the name cell, or the default name when it is empty or missing; Metrics.DefaultName states the default |
| Metrics.StudentOf | app.js:60-72 | the record of one row: name, marks, total and rounded average of the present marks, the grade of the unrounded average, and the status; Metrics.OneMarkOneAbsent, Metrics.CarolExample, Metrics.NoPresentMarks and Metrics.PassingStudent state its cases |
| Metrics.OneMarkOneAbsent | app.js:60-72 | a named row with one numeric and one non-numeric cell under two subjects has that mark as total and as average, and fails |
| Metrics.CarolExample | app.js:60-72 | the row `Carol,70,` under two subjects gives marks 70 and absent, total 70, average 70, grade B, status Fail |
| Metrics.MaxOf | app.js:76 | Math.max returns an element of the list and no element exceeds it |
| Metrics.MinOf | app.js:77 | Math.min returns an element of the list and no element is below it |
| Metrics.GradeCountsCorrect | app.js:78 | the histogram's keys are exactly the letters that occur, each counted as often as it occurs, and the counts add up to the number of grades |
| Metrics.GradeCounts | app.js:78 | the reduce that adds 1 to the count of each student's letter; Metrics.GradeCountsCorrect states what it holds |
| Metrics.CountGrades | app.js:78 | the counting loop builds exactly the histogram the reduce defines |
| Metrics.Subjects | app.js:59 | `headers.slice(1)`: every column after the name column; Metrics.RecordShape states that the metrics' subject names are exactly these columns, and how many there are |
| Metrics.Students | app.js:60-72 | `rows.map`: one record per row, in order, built by Metrics.StudentOf with the row's index; Metrics.RecordShape states that there are as many records as rows and that record i is Metrics.StudentOf of row i |
| Metrics.Averages | app.js:74 | `students.map(s => s.avg)`: every record's rounded average, in order; Metrics.ClassAggregates states that the class average is their mean to within half a hundredth |
| Metrics.ComputeMetrics | app.js:57-80 | the records and the class aggregates (class average, highest and lowest average, histogram); Metrics.RecordShape, Metrics.NoStudents, Metrics.ClassAggregates and Metrics.GradeDistribution state what they hold |
| Metrics.RecordShape | app.js:59-72 | the subject names are exactly the header without its first column (none for an empty header), so one fewer than the header columns, there is one record per row in row order, and each record has one mark per subject |
| Metrics.NoStudents | app.js:74-78 | without rows there are no students, the class average and both extremes are 0, and the histogram is empty |
| Metrics.AveragesBetweenExtremes | app.js:74-77 | for averages that are whole hundredths, the rounded mean lies between their minimum and their maximum |
| Metrics.ClassAggregates | app.js:74-77 | with students, the class average is within half a hundredth of the mean of the averages; the highest and lowest averages are students' averages that bound every average; the class average lies between them |
| Metrics.HistogramOf | app.js:78 | the histogram of a student list has as keys exactly the letters the students got, and its counts add up to the number of students |
| Metrics.GradeDistribution | app.js:78-79 | the class histogram counts each letter as often as students got it, has only those letters as keys, and its counts add up to the number of rows |
| View.MinAverage | app.js:207 | `Number(input)`, or 0 when that is falsy: the number the trimmed box denotes, or 0 when it holds none; View.MinAverageOfNumber states its value for any numeric text, and View.MinAverageOfNumeral, View.MinAverageOfDigits and View.MinAverageOfDecimal for whole numbers, digit strings and decimals |
| View.MinAverageOfNumeral | app.js:207 | the usual decimal rendering of a whole number, with or without blanks around it, gives that number |
| View.MinAverageOfNumber | app.js:207 | any text the number grammar accepts, with or without blanks around it, gives the value the grammar assigns it |
| View.MinAverageOfDigits | app.js:207 | any non-empty digit string, leading zeros included (`007`), with or without blanks around it, gives the number it denotes |
| View.MinAverageOfDecimal | app.js:207 | a decimal `w.f` (`72.5`), with or without blanks around it, gives its exact decimal value |
| View.Filter | app.js:209 | every element filter keeps passes the test; View.FilterOne, View.FilterAppend and View.FilterCounts state exactly which it keeps and in what order |
| View.FilterOne | app.js:209 | a single element is kept exactly when it passes |
| View.FilterAppend | app.js:209 | filter goes element by element in order: the result for xs + ys is the result for xs followed by the result for ys |
| View.FilterCounts | app.js:209 | filter keeps no element more often than it occurs, and keeps every passing element exactly as often as it occurs |
| View.AtLeast | app.js:209 | the students whose stored average reaches the minimum, in their order; View.FilterAndSort states it |
| View.SortInPlace | app.js:211-212 | the sort leaves the array ordered by rank and holding the same elements |
| View.Insert | app.js:211-212 | one insertion step extends the ordered prefix by one element; the array keeps its elements, the prefix keeps its own, and the cells after it are not touched |
| View.SplitKeeps | app.js:211-212 | two sequences with the same elements and the same suffix have the same elements in the prefix before it |
| View.Swap | app.js:211-212 | an exchange of neighbours changes exactly those two cells of the array and keeps its elements |
| View.SortedAverages | app.js:211-212 | ordered by the rank of avg_desc means non-increasing averages; ordered by the rank of avg_asc means non-decreasing ones |
| View.FilterAndSort | app.js:208-212 | the result holds exactly the students whose average reaches the minimum; averages are non-increasing for avg_desc and non-decreasing for avg_asc; with no sort the filter order is kept |
| App.Load | app.js:184-190 | the parse handler: an alert for a blank text or for a header with fewer than two columns, otherwise the table and its metrics; App.LoadOutcome, App.LoadRefusesBlank and App.LoadParses state its outcomes |
| App.LoadOutcome | app.js:184-190 | a blank text is refused as empty, and only a blank text; an accepted text has a header of at least two columns, at least one row, one record per row and one mark per subject, and aggregates that bound every average |
| App.LoadParses | app.js:186-190 | a text that is not blank is refused for too few columns exactly when fewer than two non-empty lines remain or the header line has no comma outside quotes; otherwise the stored headers and rows are `parseCSV` of the text and the metrics are computed from them |
| App.LoadRefusesBlank | app.js:185-186 | a text is refused as empty exactly when it is blank after trimming |
| App.LoadAccepted | app.js:185-190 | an accepted text has a header of at least two columns and at least one row, and the stored metrics are those computed from them |
| App.LoadedMetrics | app.js:189 | the metrics of a table with a header and a row have one record per row, one subject per column after the first, and aggregates that bound every average |
| App.Session.constructor | app.js:23 | a new session holds no data |
| App.Session.Parse | app.js:184-193 | an alert leaves the stored data as it was; otherwise the parsed table and its metrics replace it; for a text that is not blank, the alert is the too-few-columns one exactly when fewer than two non-empty lines remain or the header line has no comma outside quotes, and an accepted text stores the headers and rows `parseCSV` gives and returns `computeMetrics` of them |
| App.Session.Clear | app.js:195-203 | clearing forgets the stored data |
| App.Session.ApplyFilter | app.js:205-216 | without data, an alert; otherwise the metrics with only the students replaced by the filtered, sorted copy; the stored data is not changed |
| App.Session.Export | app.js:218-221 | without data, an alert; otherwise the serialised stored table, which parses back to that table when it is exportable |

## Left out

- DOM lookups, table rendering and `innerHTML` (app.js:4-21, 83-95), and the canvas charts (app.js:98-173): user interface and floating-point drawing.
- `FileReader`, the `fetch` of the sample file, `localStorage` and the Blob/URL download (app.js:176-182, 192, 202, 222-227, 231): browser I/O. Export is modelled up to the text it writes.
- The alerts' wording and the event wiring: each alert is an `Alert` outcome that leaves the state unchanged.
- The reading of the text box, the minimum box and the sort box: the text, the minimum's input string and a `SortKey` are parameters.
- The sort by name with `localeCompare` (app.js:213): locale-dependent library behaviour. `SortKey` has only the two average orders and no sort.
- View.SortInPlace: the stability of `Array.prototype.sort` is not stated. Students with equal averages come out in some order; that it is the input order is not proved.
- Numeric.ParseNumber: IEEE-754 `parseFloat`/`isFinite`/`Number` are replaced by the stated decimal grammar on exact reals. Hexadecimal, binary and octal literals (which `Number` accepts) are not numeric in the model. A literal too large for a double (`1e400`, which the source rejects as not finite) is numeric in the model. A cell with blanks around it (` 5`) is not numeric in the model, while `isNumeric` and `Number` accept it; no parsed cell has such blanks, because `splitCSVLine` trims every cell (Csv.ParsedCellsClean).
- View.MinAverage: `Infinity`, or a hexadecimal, binary or octal literal (`0x1f`, `0b101`, `0o17`), typed as the minimum is read as 0 in the model, not as the value `Number` gives.
- Floating-point arithmetic: the source adds and divides marks in doubles (app.js:67-68, 75); the model adds and divides exact reals. The unrounded `total` the page shows can therefore differ from the model's (0.1 and 0.2 total 0.30000000000000004 in the source, 0.3 in the model). A mean that is exactly on a band edge can land just below it in doubles, so `assignGrade` (app.js:70) can give the lower letter where Metrics.AssignGrade of the exact mean gives the higher one.
- Numeric.Round2: `toFixed(2)` is rounding half away from zero on the exact value. The binary representation, which can move a tie in `toFixed`, is not modelled.
- Metrics.GradeCounts: the insertion order of the histogram's keys is not modelled (a `map` has none).
- The manual-input handler (app.js:235-236): its text is cut off, so its behaviour cannot be stated.
