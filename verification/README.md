# G4RNA output converter, modelled in Dafny

The G4RNA screener writes its results as tab-separated text. The converter
`g4rna_convert_output.py` turns each such file into a CSV file next to it.
Its function `convert_output(file)` does the following:

- It derives the base name `file[:-4]` and the output path `<base>.csv`.
- It iterates over the input's lines. Each line becomes fields by
  `line.strip().split("\t")`.
- The first line is the header. Its second and third fields are exchanged,
  it is stored as `header`, and it is printed comma-joined.
- Every later line is a data row. It loses its first field, then the second
  and third fields of what remains (originally the third and fourth) are
  exchanged, and it is printed comma-joined. So `r1 x y z` becomes `x,z,y`.
- It returns the base name. `flag_done` names a completion marker
  `<base>_S2507I_g4rna_convert_end.txt` after it.

The input is opened with universal newlines, so `"\r\n"` and a lone `'\r'`
both end a line. The output file is opened, and so truncated, before the
first input line is read. An input whose path already ends in `.csv` is its
own output path, so the loop sees an empty file and leaves it empty.

A row too short for the tuple swap raises `IndexError`. This ends the loop,
and the lines printed so far stay in the output file.

The modules follow the program's layers:

- `PySlice`: Python's clamped slices `s[:k]` and `s[k:]`.
- `PyText`: `str.isspace`, `strip`, `split` and `join`.
- `PyLines`: `for line in f` and `print(..., file=f)` as text in and out.
- `Naming`: the base, output and marker names.
- `Rows`: the per-line field transforms.
- `Convert`: the loop, as a fold over lines with the header flag as its
  state, plus a position-indexed reference definition `Expected` the fold
  is proved against.
- `Scenario`: whole-file consequences and a worked example.

## Model

| member | source | states |
|---|---|---|
| PySlice.SliceTo | g4rna_convert_output.py:21 | `s[:stop]` is a prefix of `s`. Its length is `stop` clamped to the length, counting from the end when `stop` is negative. It never fails. |
| PySlice.SliceFrom | g4rna_convert_output.py:36 | `s[start:]` is a suffix of `s`, of length `len - start` for a non-negative `start` (empty when `start` is past the end), counting from the end when `start` is negative (`s[-2:]` has length `min(2, len)`). It never fails, even on an empty row. |
| PySlice.SlicesPartition | g4rna_convert_output.py:21 | `s[:k] + s[k:] == s` for every integer `k`, negative or out of range. |
| PyText.IsWhitespace | g4rna_convert_output.py:26 | The characters `str.strip()` removes: exactly the 29 characters for which Python 3's `str.isspace` is true. |
| PyText.WhitespaceRanges | g4rna_convert_output.py:26 | The same set as code point ranges: TAB to CR, FS to SPACE, NEL, NO-BREAK SPACE, OGHAM SPACE MARK, U+2000 to U+200A, the line and paragraph separators, U+202F, U+205F and U+3000. |
| PyText.LStrip | g4rna_convert_output.py:26 | The left strip is a suffix of the input. What it removed is all whitespace, and it does not start with whitespace. |
| PyText.RStrip | g4rna_convert_output.py:26 | The right strip is a prefix of the input. What it removed is all whitespace, and it does not end with whitespace. |
| PyText.Strip | g4rna_convert_output.py:26 | `line.strip()` neither starts nor ends with whitespace, and it is no longer than the line. |
| PyText.StripShape | g4rna_convert_output.py:26 | The line is leading whitespace, then the stripped text, then trailing whitespace. |
| PyText.StripInfix | g4rna_convert_output.py:26 | The stripped text is the slice of the line that starts after its leading whitespace. |
| PyText.StripUnique | g4rna_convert_output.py:26 | Whitespace around a string with no whitespace at its ends is exactly what `strip` removes. |
| PyText.StripTrimmed | g4rna_convert_output.py:26 | A string with no whitespace at either end is left unchanged. |
| PyText.StripIdempotent | g4rna_convert_output.py:26 | Stripping twice is the same as stripping once. |
| PyText.LStripSkips | g4rna_convert_output.py:26 | The left strip removes a whitespace prefix and stops at the first non-whitespace character. |
| PyText.RStripSkips | g4rna_convert_output.py:26 | The right strip removes a whitespace suffix and stops at the last non-whitespace character. |
| PyText.LStripSnoc | g4rna_convert_output.py:26 | Appending whitespace to a string changes its left strip only by that character, or leaves it empty. |
| PyText.RStripSnoc | g4rna_convert_output.py:26 | Appending a whitespace character does not change the right strip. |
| PyText.StripIgnoresTrailingWhitespace | g4rna_convert_output.py:25-26 | A trailing whitespace character, such as the newline the line iteration keeps, does not change the stripped line. |
| PyText.StripChars | g4rna_convert_output.py:26 | `strip` adds no character: every character of the result occurs in the line. |
| PyText.Join | g4rna_convert_output.py:32 | `",".join` of a single field is that field. |
| PyText.Split | g4rna_convert_output.py:26 | `split("\t")` gives at least one piece, and no piece holds the separator. |
| PyText.JoinSplit | g4rna_convert_output.py:26 | Joining the pieces of a split with the separator gives back the string. |
| PyText.SplitJoin | g4rna_convert_output.py:26 | Splitting a join of separator-free fields gives back the fields. |
| PyText.SplitCount | g4rna_convert_output.py:26 | A split has one more piece than the string has separators. |
| PyText.SplitWithoutSeparator | g4rna_convert_output.py:26 | A string without the separator splits into itself alone. |
| PyText.SplitCons | g4rna_convert_output.py:26 | A separator-free prefix followed by the separator is the first piece of the split. |
| PyText.JoinAvoids | g4rna_convert_output.py:32 | A character that is neither the separator nor in any field does not appear in the join. |
| PyText.SplitAvoids | g4rna_convert_output.py:26 | A character missing from the string is missing from every piece of its split. |
| PyText.JoinContains | g4rna_convert_output.py:42 | Every character of a field appears in the join. |
| PyText.JoinSnoc | g4rna_convert_output.py:42 | Joining one more field appends the separator and that field. |
| PyLines.IndexOf | g4rna_convert_output.py:25 | Gives the position of the first newline, the point where file iteration cuts a line. |
| PyLines.Universal | g4rna_convert_output.py:23 | Reading in text mode leaves no carriage return, and the text gets no longer. |
| PyLines.UniversalPlainPrefix | g4rna_convert_output.py:23 | Text without carriage returns passes through unchanged in front of whatever follows it. |
| PyLines.UniversalCrLf | g4rna_convert_output.py:23-25 | Wherever it stands, a `"\r\n"` pair is read as a single `'\n'`. |
| PyLines.UniversalLoneCr | g4rna_convert_output.py:23-25 | Wherever it stands, a `'\r'` that no `'\n'` follows is read as `'\n'`. |
| PyLines.UniversalKeepsPlain | g4rna_convert_output.py:23 | Text without carriage returns is read unchanged. |
| PyLines.UniversalIdempotent | g4rna_convert_output.py:23 | Translating newlines twice is the same as translating once. |
| PyLines.LoneCarriageReturnEndsLine | g4rna_convert_output.py:23-25 | `"a\rb"` is read as the two lines `"a\n"` and `"b"`. |
| PyLines.ReadLines | g4rna_convert_output.py:25 | `for line in input_tsv`, on the translated text, yields no empty line, and the lines written back to back are that text. |
| PyLines.ReadLinesShape | g4rna_convert_output.py:25 | Each line read keeps its `'\n'`. Only the last line may lack one, and no line holds a newline before its end. |
| PyLines.Terminated | g4rna_convert_output.py:32 | Each printed line, followed by the newline `print` adds. |
| PyLines.Render | g4rna_convert_output.py:32 | The text that `print(..., file=output_csv)` leaves ends with a newline when anything was printed. |
| PyLines.RenderAvoids | g4rna_convert_output.py:42 | `print` adds only newlines, so a character no printed line holds is not in the output text. |
| PyLines.RenderCountsNewlines | g4rna_convert_output.py:42 | Printing newline-free lines writes exactly one newline per line. |
| PyLines.ReadRendered | g4rna_convert_output.py:32 | Reading the output file back gives the printed lines, each followed by its newline. |
| Naming.BaseName | g4rna_convert_output.py:21 | `file[:-4]` is the path without its last four characters, and the empty string for a shorter path. |
| Naming.CsvName | g4rna_convert_output.py:22 | The output path keeps the base and ends in `.csv`. It is as long as the input when the input has at least four characters, and four characters otherwise. |
| Naming.MarkerName | g4rna_convert_output.py:15 | The marker path is the base name followed by `_S2507I_g4rna_convert_end.txt`. |
| Naming.BaseOfCsvName | g4rna_convert_output.py:21-22 | Taking the base of the output path gives back the base of the input. |
| Naming.CsvNameIsInputIff | g4rna_convert_output.py:21-22 | The output path equals the input path exactly when the input already ends in `.csv`. |
| Naming.CsvNameInjective | g4rna_convert_output.py:21-22 | Two inputs with the same extension share an output path only if they are the same path. |
| Naming.MarkerIsNeverCsvName | g4rna_convert_output.py:15 | No marker path is ever an output path. |
| Naming.ExampleNames | g4rna_convert_output.py:15-22 | `a.tsv` gives the base `a`, the output `a.csv` and the marker `a_S2507I_g4rna_convert_end.txt`. |
| Rows.Fields | g4rna_convert_output.py:26 | `line.strip().split("\t")` gives at least one field, and no field holds a tab. |
| Rows.FieldsJoin | g4rna_convert_output.py:26 | The fields joined by tabs give back the stripped line. |
| Rows.FieldsIgnoreNewline | g4rna_convert_output.py:25-26 | The newline that ends a line read from the file does not change its fields. |
| Rows.SwapOneTwo | g4rna_convert_output.py:30 | The tuple swap exchanges fields 1 and 2 and moves nothing else. It raises IndexError exactly when there are fewer than three fields. |
| Rows.SwapInvolution | g4rna_convert_output.py:30 | Swapping twice gives back the row. |
| Rows.SwapIsPermutation | g4rna_convert_output.py:30 | The swap keeps the same fields, as many times each. |
| Rows.DropFirstSwap | g4rna_convert_output.py:36-39 | `line_data[1:]` followed by the swap gives `[f1, f3, f2] + f[4:]`. It raises IndexError exactly when the row has fewer than four fields. |
| Rows.RestoreDataRow | g4rna_convert_output.py:36-39 | The inverse of the data-row transform puts the dropped field back in front. |
| Rows.DataRowRoundTrip | g4rna_convert_output.py:36-39 | Restoring a transformed data row with its first field gives back the row. |
| Rows.DataRowRoundTripBack | g4rna_convert_output.py:36-39 | Transforming a restored row gives back the transformed row. |
| Rows.BlankLineFails | g4rna_convert_output.py:26-39 | A blank line has the single field `""`, so the header swap and the data-row transform both raise IndexError on it. |
| Rows.EmptyLastFieldLost | g4rna_convert_output.py:26 | `strip` also removes a trailing tab, so a row whose last field is empty loses that field. |
| Convert.Reordered | g4rna_convert_output.py:30-39 | The fields of the output line at position `i`: the header swap for line 0 and the data-row transform after it. A header row keeps its length, and a data row is one field shorter. |
| Convert.HeaderSpec | g4rna_convert_output.py:29-33 | The header's CSV line is missing exactly when the tuple swap of its fields raises IndexError. |
| Convert.DataSpec | g4rna_convert_output.py:35-42 | A data row's CSV line is missing exactly when dropping its first field and swapping raises IndexError. |
| Convert.Expected | g4rna_convert_output.py:26-42 | The reference for line `i` on its own: line 0 needs at least three fields and any later line at least four. Otherwise it is IndexError. |
| Convert.HeaderSeen | g4rna_convert_output.py:28 | Models the `if not header` test, negated: a header has been stored. |
| Convert.InputLines | g4rna_convert_output.py:23-25 | The loop sees no line when the input is its own output path. Otherwise the lines, written back to back, are the input text after newline translation. No line holds a carriage return. Each line is cut after its only `'\n'`, and only the last line may lack one. |
| Convert.DataReorderDropsFirst | g4rna_convert_output.py:36-39 | A data row's fields come out as its input fields less the first, permuted. |
| Convert.Step | g4rna_convert_output.py:26-42 | With the header list empty, the loop body handles the line as the header: IndexError when it has fewer than 3 fields, otherwise it stores a non-empty header. Once a header is stored, the body handles the line as a data row (fewer than 4 fields raise IndexError) and keeps the header. |
| Convert.Fold | g4rna_convert_output.py:25-42 | Lines printed before the loop ends stay at the front of the output. The loop either handles every line, or fails at one line with exactly the lines before it printed. |
| Convert.ConvertLines | g4rna_convert_output.py:19-42 | A finished loop prints one line per input line. A failed loop prints one line per line before the failing one. |
| Convert.FoldSteady | g4rna_convert_output.py:25-42 | While the loop state is kept, line i is printed at position i until the first line the body rejects. |
| Convert.FoldFirstStep | g4rna_convert_output.py:25-33 | The first pass prints its line and hands its new state to the rest of the loop. |
| Convert.FoldAfterFirst | g4rna_convert_output.py:25-42 | After the first line, every later line is handled in the state the first line left. |
| Convert.SeenIsSteady | g4rna_convert_output.py:28 | Once the header is stored, every pass keeps it and handles its line as a data row. |
| Convert.FoldFirstThenRest | g4rna_convert_output.py:25-42 | For any loop body that sets a header-seen flag on the first line and then keeps it, line 0 is handled by the header rule and every later line by the data rule. |
| Convert.StepIsHeaderThenData | g4rna_convert_output.py:28-42 | The loop body on an empty header list is the header rule. On a stored header it is the data rule, and it keeps the header. |
| Convert.ConvertLinesSpec | g4rna_convert_output.py:25-42 | The loop converts line 0 as the header and every later line as a data row, in order. It fails exactly at the first too-short line, with every line before it printed. |
| Convert.ExpectedIsJoin | g4rna_convert_output.py:32-42 | A converted line is the reordered fields joined by commas. |
| Convert.ReorderedAvoids | g4rna_convert_output.py:30-39 | Reordering brings in no character that was not in some field. |
| Convert.StrippedLineHasNoNewline | g4rna_convert_output.py:25-26 | Stripping a line as file iteration yields it removes its only newline. |
| Convert.ExpectedHasNoNewline | g4rna_convert_output.py:26-42 | A converted line never holds a newline, so each `print` writes exactly one output line. |
| Convert.CsvLineFields | g4rna_convert_output.py:26-42 | A CSV line holds no tab. When no field holds a comma, splitting the CSV line at commas gives back the reordered fields: no quoting, no change. |
| Convert.ConvertLinesDoneIff | g4rna_convert_output.py:25-42 | The loop completes exactly when every line is long enough for its rule. |
| Convert.PrintedLines | g4rna_convert_output.py:25-42 | What the loop printed is the converted line for each input line before the stopping point, and none of them holds a newline. |
| Convert.ConvertOutput | g4rna_convert_output.py:18-43 | `convert_output` writes to `<base>.csv`. It returns the base name exactly when every line it reads converts, and otherwise raises IndexError. When the output path is the input path, the output is empty and the function returns the base name. |
| Convert.CsvInputIsEmptied | g4rna_convert_output.py:21-25 | An input path ending in `.csv` is truncated by its own output before the loop reads it. It is left empty whatever it held, and the function returns the base name. |
| Convert.ConvertOutputSucceedsIff | g4rna_convert_output.py:25-43 | `convert_output` returns normally exactly when every line it reads converts. |
| Convert.CsvTextReadBack | g4rna_convert_output.py:32-42 | Reading the output file back gives the printed lines, each with its newline. |
| Convert.ConvertOutputSpec | g4rna_convert_output.py:18-43 | On success the output file holds one line per input line, each the expected CSV line. On IndexError it holds exactly the lines before the first too-short line. |
| Scenario.FieldsOfTsvLine | g4rna_convert_output.py:25-26 | A TSV row, read as a newline-terminated line, splits back into its fields. |
| Scenario.ReadTwoLines | g4rna_convert_output.py:23-25 | Two printed lines without line breaks read back as two newline-terminated lines. |
| Scenario.PlainTwoLines | g4rna_convert_output.py:23 | Two printed lines without carriage returns need no newline translation. |
| Scenario.ReadOneLine | g4rna_convert_output.py:23-25 | A printed line without line breaks reads back as that line with its newline. |
| Scenario.HeaderStep | g4rna_convert_output.py:28-33 | When the header line converts, the loop body stores a header and prints the header CSV line. |
| Scenario.DataStep | g4rna_convert_output.py:35-42 | When a data line converts and a header is stored, the loop body prints the data CSV line and keeps the header. |
| Scenario.TwoLinesConvert | g4rna_convert_output.py:25-42 | A header line and a data line that each convert produce those two CSV lines. |
| Scenario.OneLineConverts | g4rna_convert_output.py:25-33 | A lone header line that converts produces its CSV line. |
| Scenario.HeaderAndOneRow | g4rna_convert_output.py:18-43 | A header of at least 3 columns over a row of at least 4 returns the base name. When the input is not its own output path, the output file holds the two CSV lines. |
| Scenario.HeaderOnly | g4rna_convert_output.py:18-43 | A file holding only a header of at least 3 columns returns the base name. Unless the input is its own output path, the output is the swapped header line. |
| Scenario.EmptyFile | g4rna_convert_output.py:18-43 | An empty input gives an empty output file and returns the base name. |
| Scenario.ExampleHeader | g4rna_convert_output.py:30-32 | The header `id valA valB extra` becomes `id,valB,valA,extra`. |
| Scenario.ExampleRow | g4rna_convert_output.py:36-42 | The row `r1 x y z` becomes `x,z,y`. |
| Scenario.ExampleFile | g4rna_convert_output.py:18-43 | `a.tsv` holding that header and row gives `a.csv` holding `id,valB,valA,extra` and `x,z,y`, and the function returns `a`. |

## Left out

- `main` and `read_options` (lines 5-12 and 45-54) are left out. They parse the command line with argparse and run the sequence for each file: convert, print the marker name, touch the marker. That sequence is not modelled. So nothing here states that an IndexError skips the marker of that file and leaves all later files unconverted.
- `pathlib.Path(done_path).touch()` (line 16) is left out because it is file-system I/O. Only the marker's name is modelled.
- The stdout `print` of the marker name (line 11) is left out because it is console output.
- Opening and closing files (lines 23-24) is left out. The input file's contents are a parameter, and the output file's contents are a result. A missing or unreadable input, which raises an OSError, is not modelled.
- Paths are compared as strings. The model does not see one file reached under two names, such as a symbolic link, or `a.CSV` and `a.csv` on a case-insensitive file system. In those cases the program would truncate its input as well.
- Writing uses `'\n'`. Translation of `'\n'` to `os.linesep` on platforms where it differs is left out.
- Text decoding is left out. Strings are sequences of already-decoded characters.
- Convert.Reordered: its contract states only the length. It is defined through `Rows.SwapOneTwo` and `Rows.DropFirstSwap`, whose contracts say what the fields are. `Rows.SwapIsPermutation` and `Convert.DataReorderDropsFirst` state the permutations.
- PyText.Join: its contract states only the one-field case. The rest is stated by `JoinSplit`, `SplitJoin`, `JoinAvoids`, `JoinContains` and `JoinSnoc`.
- PyText.Strip: its contract states only that the result is trimmed and no longer than the line. That the result is the line less its leading and trailing whitespace is stated by `StripShape`, `StripInfix` and `StripUnique`. This is kept out of the contract because every line's conversion unfolds `Strip`.
- PyText.Split: its contract states only that there is at least one piece and that no piece holds the separator. Which pieces they are is pinned by the round trips `JoinSplit` and `SplitJoin`, and by `SplitCount`.
- Rows.Fields: its contract states only that there is at least one field and that no field holds a tab. That the fields, joined by tabs, give back the stripped line is `FieldsJoin`.
- PyLines.Universal: its contract states only that no carriage return is left and that the text gets no longer. The translation is `UniversalCrLf` and `UniversalLoneCr`, and text without carriage returns is `UniversalPlainPrefix`.
- PyLines.ReadLines: its contract states only that the lines are non-empty and concatenate to the text. Where the cuts fall is `ReadLinesShape`, with the predicate `LinesKeepTerminators`.
- PyLines.Render: its contract states only the final newline. The newline count is `RenderCountsNewlines`, and the read-back is `ReadRendered`.
- Convert.Fold: its contract states only that earlier output is kept and where a failure can fall. Which line each printed line comes from is `FoldSteady`, `FoldAfterFirst` and `FoldFirstThenRest`.
- Convert.ConvertLines: its contract states only the output lengths. The contents are `ConvertLinesSpec`, and when the loop finishes is `ConvertLinesDoneIff`.
- Convert.ConvertOutput: its contract states the output's contents only for an input that is its own output path. In the other case, the contents are `ConvertOutputSpec` and `CsvTextReadBack`.

Two facts about the behaviour follow from the code:

- There is one marker per file, named `<base>_S2507I_g4rna_convert_end.txt` (line 15).
- A data row needs at least four fields. `line_data[1:]` (line 36) runs before the swap reads `line_data[2]` (line 39).
