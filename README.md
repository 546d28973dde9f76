# relis: the extraction pipeline, modelled in Dafny

relis reads AMBER molecular-dynamics `.lis` reports and tabulates the
values they print. This project models the in-memory part of that work in
`src/main.rs`:

- **Region filter** (`read_lines_until_pattern`). It keeps the lines of a
  report from the first line that contains `RESULTS` up to the first line that
  contains `A V E R A G E`. The end-marker line is not kept.
- **Value extraction** (`extract_values`). The pattern
  `([1\-4\s]*[A-Za-z]+[\(A-Z)]*)\s+=\s+([-]?\d+[\.]?\d*)` is applied to every
  kept line. A line that contains `KE` or `err` is skipped. Otherwise the
  trimmed label of each match becomes a key, and the parsed number is appended
  to that key's series in a map (a `BTreeMap`, whose key order the model does
  not keep). The first number that does not parse
  aborts the whole call with an error.
- **Column ordering** (the block in `extract_all_values`). If the frame has a
  `TIME(PS)` column, that column is moved to the front and the rows are sorted
  by it in ascending order.

Modules, one file each:

- `Wrappers`: `Option` and `Result`.
- `Text`:
  - `str::contains`.
  - Unicode `White_Space` as `\s` and `str::trim` use it.
  - `str::trim`.
- `Region`: the filter loop and its reference definition (`KeptLines`).
- `Pattern`: a hand-written matcher for the pattern, following the regex
  crate's semantics:
  - leftmost-first, greedy;
  - `captures_iter` resumes at the end of each match;
  - `\s` and `\d` are Unicode classes.
  It also holds a declarative statement of what a match is.
- `Numbers`: `str::parse::<f64>` on the texts the number group can capture.
- `Extract`: the nested loop of `extract_values` and the map it builds. Its
  facts are stated for any matcher and parser (`Engine`) and then for the
  pattern and parser the program uses (`Source`).
- `Columns`: the frame as a value (column names and rows), the
  `position`/`remove`/`insert` of the names, `select`, and a sort by the time
  column.

How the model reads the code:

- **The start-marker line is kept.** The flag is set (src/main.rs:133-135)
  before the keep test (src/main.rs:139-141) on the same turn of the loop. The
  comment above the function (src/main.rs:121-124) only says that the lines
  "between two patterns" are kept, which leaves open whether the start-marker
  line is one of them; the model follows the code.
- **How a captured number can fail to parse.** The regex crate's `\d`
  accepts every Unicode decimal digit. Rust's float parser accepts ASCII
  digits only. So a number written in Arabic-Indic digits (U+0661 U+0662) is captured,
  fails to parse, and aborts the whole extraction. `Extract.SourceFails`
  states exactly when that happens.

## Model

| member | source | states |
|---|---|---|
| `Region.ReadLinesUntilPattern` | src/main.rs:126-144 | The loop returns exactly `KeptLines`, the reference definition of the region. That region is the lines from the first start-marker line (included) up to the first end-marker line (excluded), and it is empty when the end marker comes first or on the same line. |
| `Region.FirstWith` | src/main.rs:133-138 | Gives the index of the first line containing a marker: no earlier line contains it, and the line at the index does (or the index is the end). |
| `Region.RegionCharacterized` | src/main.rs:130-141 | The result is empty exactly when every start-marker line is at or after some end-marker line. Otherwise it is a contiguous slice `lines[a..b]` in original order, where `a` is the first start-marker line and `b` is the first end-marker line or the end of input. |
| `Region.NoStartNoRegion` | src/main.rs:130-135 | If no line contains the start marker, nothing is kept. |
| `Region.RegionKeepsLinesInPlace` | src/main.rs:133-141 | Every line from the first start-marker line up to the first end-marker line is kept at its offset, including later lines that repeat the start marker. |
| `Region.BothMarkersOnFirstStartLine` | src/main.rs:133-138 | A first start-marker line that also holds the end marker yields an empty result. |
| `Region.PreambleIgnored` | src/main.rs:130-141 | Lines before the region that hold neither marker never change what is kept, whatever they contain. |
| `Region.FirstWithAfter` | src/main.rs:133-138 | Past lines without the marker, the first line holding it is found at the same place in the rest. |
| `Text.Contains` | src/main.rs:157 | `str::contains`: a string can only contain a pattern no longer than itself, and the empty pattern is contained in every string. |
| `Text.ContainsAt` | src/main.rs:133 | `Contains` holds exactly when the pattern occurs at some index of the string (substring test). |
| `Text.Trim` | src/main.rs:160 | `str::trim`: the result is no longer than the input and neither starts nor ends with white space. |
| `Text.TrimSpec` | src/main.rs:160 | Trimming returns a slice of the input, and everything cut away is white space. |
| `Text.TrimIdempotent` | src/main.rs:160 | Trimming twice is trimming once. |
| `Pattern.SkipWhile` | src/main.rs:153 | A greedy run of a character class: every character skipped is in the class, and the first one not skipped is not. |
| `Pattern.MatchBoundsAt` | src/main.rs:153 | Soundness: every match the matcher reports satisfies the pattern, piece by piece (`IsMatch`). |
| `Pattern.MatchAt` | src/main.rs:153 | A reported match is non-empty, lies within the line, and its number group has the shape `[-]?\d+[\.]?\d*`. |
| `Pattern.LabelAtComplete` | src/main.rs:153 | Any label that the pattern allows at a position is the one the matcher finds there. |
| `Pattern.SeparatorAtComplete` | src/main.rs:153 | Any `\s+=\s+` that the pattern allows after a label is the one the matcher finds. |
| `Pattern.NumberAtLongest` | src/main.rs:153 | Any number the pattern allows at a position is at most as long as the one the matcher takes (greedy quantifiers). |
| `Pattern.MatchAtComplete` | src/main.rs:153 | Completeness: whenever the pattern matches at a position, the matcher reports a match there. It has the same label and the same number start, and the longest number. |
| `Pattern.MatchAtAnchored` | src/main.rs:153 | A match reported at a position starts there and ends after it, inside the line. |
| `Pattern.CapturesFrom` | src/main.rs:156 | Every capture `captures_iter` reports lies inside the line, at or after where the search began, and is the match the anchored search reports at the capture's own start. |
| `Pattern.CapturesFromAscending` | src/main.rs:156 | The captures come in order, each ending after the one before it. |
| `Pattern.CapturesFromLeftmost` | src/main.rs:156 | No match is skipped. Capture `a` is the match at the leftmost position where one is found, counted from the start or from the end of capture `a - 1`. After the last capture there is no match left. |
| `Pattern.Captures` | src/main.rs:156 | `re.captures_iter(line)`: the captures lie inside the line, have number texts of the group-2 shape, and come in ascending order. |
| `Pattern.CapturesLeftmost` | src/main.rs:153-156 | The leftmost, no-match-skipped property for the program's own pattern on a line. |
| `Numbers.ParseDecimal` | src/main.rs:162 | `parse::<f64>`: a text that parses is non-empty and made only of ASCII digits, decimal points and a leading `-`. |
| `Numbers.ParsedTextAlphabet` | src/main.rs:162 | A text whose whole part is a non-empty ASCII digit string and whose fraction is an ASCII digit string has only ASCII digits, the point and a leading `-`. |
| `Numbers.DotIndexAt` | src/main.rs:162 | Characterises where a number text's decimal point is. |
| `Numbers.DotIndexIsDot` | src/main.rs:162 | The split point of a number text is a `.` unless it is the end of the text. |
| `Numbers.SplitNumberText` | src/main.rs:162 | A captured number text splits into sign, whole digits and fraction digits at the boundaries of the pattern's pieces. |
| `Numbers.CapturedNumberParses` | src/main.rs:153-162 | A captured number text parses if and only if all of its digits are ASCII. |
| `Numbers.AsciiNumberParses` | src/main.rs:162 | A captured number text whose digits are all ASCII parses. |
| `Numbers.NonAsciiDigitFails` | src/main.rs:153-162 | A non-ASCII digit in either part of a captured number makes the parse fail. |
| `Numbers.ParseDecimalWhole` | src/main.rs:162 | A text of ASCII digits reads as the integer it denotes. |
| `Numbers.ParseDecimalNegative` | src/main.rs:162 | A leading `-` negates the value and does not change whether the text parses. |
| `Extract.ExtractValuesWith` | src/main.rs:149-167 | The nested loop returns exactly the reference result. That result folds every kept capture into the map in line order and stops at the first number that does not parse. |
| `Extract.ExtractValues` | src/main.rs:149-167 | The same, for the program's own pattern and parser. |
| `Extract.Excluded` | src/main.rs:157 | A line is skipped exactly when `KE` or `err` occurs in it at some index. |
| `Extract.Push` | src/main.rs:163 | `entry(key).or_insert(Vec::new()).push(v)`: the key set gains `key`, `v` is appended to the series of `key`, and every other series is unchanged. |
| `Extract.Step` | src/main.rs:160-163 | One turn of the inner loop fails, with the number's text, exactly when the number does not parse. Otherwise the trimmed label joins the keys, and only its series changes, gaining the parsed value. |
| `Extract.ExtractReport` | src/main.rs:31-32 | One report: the values extracted from exactly the lines between the first `RESULTS` line and the first `A V E R A G E` line. |
| `Extract.ExcludedLineIgnored` | src/main.rs:155-159 | Inserting a line that contains `KE` or `err` anywhere in the input does not change the result, whatever its captures. |
| `Extract.ExtractedSeries` | src/main.rs:155-166 | On success, every number parsed. The keys are exactly the trimmed labels of the captures on non-excluded lines. Each key's series is non-empty and lists that key's values in capture order. The series hold one value per kept capture in total. |
| `Extract.ExtractedLineOrder` | src/main.rs:155-165 | Values from earlier lines come before values from later lines in every series. |
| `Extract.ExtractedFails` | src/main.rs:162 | The call fails exactly when some kept capture's number does not parse. |
| `Extract.SourceFails` | src/main.rs:153-162 | With the program's pattern and Rust's parser, the call fails exactly when some kept number holds a non-ASCII digit. |
| `Extract.KeptNumbersWellFormed` | src/main.rs:153-156 | Every kept number text has the shape of the pattern's number group. |
| `Extract.AccumulateFails` | src/main.rs:162 | Folding captures fails exactly when one does not parse. The error is the first such capture's, and every capture before it parsed. |
| `Extract.AccumulateContents` | src/main.rs:160-163 | When all numbers parse, each key's series is its old series followed by that key's values, in capture order. |
| `Extract.AccumulateKeys` | src/main.rs:160-163 | When all numbers parse, the new keys are the old keys plus the trimmed labels of the captures. |
| `Extract.AccumulateTotal` | src/main.rs:163 | Each capture adds exactly one value across all series. |
| `Extract.AccumulateAppend` | src/main.rs:155-165 | Folding `x + y` is folding `x`, then `y`; a failure in `x` is final. |
| `Extract.FailureIsFinal` | src/main.rs:162 | A parse failure inside the loop is the result of the whole call (the early return of `?`). |
| `Extract.ValuesForNonEmpty` | src/main.rs:163 | A key has values exactly when some capture carries it, because entries are created only on push. |
| `Extract.ValuesForAppend` | src/main.rs:155-165 | The values of later captures follow those of earlier ones. |
| `Extract.KeptCapturesAppend` | src/main.rs:155-156 | The kept captures of concatenated inputs are the concatenation of their kept captures. |
| `Extract.TotalValuesPush` | src/main.rs:163 | One push adds one value in total. |
| `Columns.FindPosition` | src/main.rs:49 | `position` returns the index of the first column named `TIME(PS)`, or none when there is no such column. |
| `Columns.Position` | src/main.rs:49 | Gives the first occurrence: the name is at the index, not before it, and there is no index exactly when the name is absent. |
| `Columns.PositionAt` | src/main.rs:49 | An index holding the name with no earlier occurrence is the position. |
| `Columns.MoveToFront` | src/main.rs:50-51 | `remove(p)` then `insert(0, ..)` puts the removed element first, keeps the others in order, and keeps the multiset of elements. |
| `Columns.Select` | src/main.rs:52 | `select` keeps the rows and, in each, the cell under each chosen column name. |
| `Columns.SelectMoved` | src/main.rs:50-52 | Selecting the moved names moves each row's time cell to the front. |
| `Columns.InsertByTime` | src/main.rs:53 | Inserting a row adds that row to the multiset of rows. |
| `Columns.InsertByTimeSorted` | src/main.rs:53 | Inserting into sorted rows keeps them sorted by time. |
| `Columns.SortByTime` | src/main.rs:53 | The sort returns a permutation of the rows, ascending in the time cell. |
| `Columns.OrderColumns` | src/main.rs:48-54 | Without `TIME(PS)`, the frame is returned unchanged and not sorted. With it at index `p`:<br>- The names become `TIME(PS)` followed by the others in their order, and the set of names is unchanged.<br>- The rows are a permutation of the original rows, each with its time cell moved first, in non-decreasing time order.<br>- The frame stays well formed. |
| `Columns.MovedStaysValid` | src/main.rs:50-53 | After the move and sort, names stay distinct and every row keeps one cell per column. |

## Left out

- File I/O in `read_lines_until_pattern` (src/main.rs:127-132). Opening the file, reading lines and read errors are not modelled; the filter runs on lines already read.
- `main`, `parse_args` and `list_files` (src/main.rs:15-22, 72-119). These cover command-line handling, the current directory, glob matching and `process::exit`.
- Building the data frame from the maps and `vstack` (src/main.rs:28-39). The model starts from a frame whose rows are already filled; missing (null) cells are not modelled.
- The `is_empty` exit (src/main.rs:41-45), CSV writing (src/main.rs:55-58), and mean and standard deviation (src/main.rs:60-67). These are I/O and library numerics.
- All printing.
- `Regex::new` failing (src/main.rs:153). The pattern is a fixed, valid literal, so the error path cannot be taken.
- `select` and `sort_in_place` failing (src/main.rs:52-53). Both only fail on a missing column, which cannot happen here.
- Numbers.ParseDecimal: f64 rounding. Numbers are read as exact reals, and no rounding to binary64 is modelled.
- Numbers.ParseDecimal: other float syntax. It covers the texts the number group can capture (`-?D+(.D*)?`). Rust also accepts texts such as `.5`, `+5`, `1e3`, `inf` and `nan`, for which `ParseDecimal` returns `None`; group 2 never captures them, so the difference never reaches `extract_values`.
- Extract.Data: the key order of the `BTreeMap`. A Dafny `map` is unordered, so the sorted order in which `data.iter()` visits the keys, and with it the column order of the frame built at src/main.rs:35-38, is not modelled.
- Pattern.IsDigit: only part of Unicode Nd. It lists the ASCII digits plus the Arabic-Indic, Extended Arabic-Indic, Devanagari, Thai and Fullwidth digit blocks. The other decimal-digit blocks of Unicode category Nd are not listed.
- Extract.Error: the error's content. It carries the number text that failed. Rust returns a boxed `ParseFloatError` without that text; only the fact of failure and where it happens are modelled.
- Columns.SortByTime: the order of rows with equal times. It is not stated, because the library does not promise a stable sort. Null handling in the sort is also not modelled.
- Columns.OrderColumns: the frame is a value. It is a value reassigned in place of `df` (src/main.rs:52-53), and the column data of the library's frame is shown as rows of cells.
