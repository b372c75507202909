# Spreadsheet-row normaliser of IT23763180

The repository drives a Singlish-to-Sinhala transliteration site from a
spreadsheet of test cases. Sheet `IT23763180` holds one test case per row:
column 0 is the identifier, columns 1 to 4 are the name, the length type,
the input and the expected output, and column 8 is a multi-line category
cell. Two copies of one normaliser turn those rows into three ordered lists:
positive, negative and ui test cases.

- `readTestCases` in tests/excel-functional.spec.js
  - Reads every row, the header included.
  - Keeps the rows whose column 0 is a non-empty string.
  - Cleans columns 0, 1, 2, 3, 4 and 8. The cleaner strips a leading
    mis-decoded bullet (U+00E2 U+20AC U+00A2) and the whitespace after it,
    then trims.
  - Routes each row on its cleaned identifier.
  - The same file's scenarios check that the page text contains a
    character of the Sinhala block.
- scripts/update_test_data.js
  - Drops the header row and skips rows with a falsy identifier.
  - Keeps the cell values raw.
  - Parses the category cell: split on line breaks, clean each line
    (strip a leading U+2022 bullet and its whitespace, trim), drop the
    empty lines, take lines 0, 1 and 3.
  - Routes each row on its raw identifier.
  - Adds `expectedIssue` to negative records and `description` to ui
    records.

Both copies use the same prefix routing:
- `Pos_Fun_` goes to positive.
- `Neg_Fun_` goes to negative.
- `Pos_UI_` or `Neg_UI_` goes to ui.
- Anything else is dropped.

Layout:

- `text.dfy` (module `Text`): the JavaScript string built-ins the
  normaliser uses, over `string`. These are the `\s` class, `trim`,
  `startsWith`, `replace(/^M\s*/, '')`, `split` on one character and
  `join`.
  - `\s` is a definition: the set of the 25 WhiteSpace and LineTerminator
    code points of ECMA-262.
  - `startsWith` is characterised by `StartsWithPrefix`.
  - `trim` and the anchored replace are characterised by what they remove
    (`TrimDecomposes`, `TrimUnique`, `StripAndTrimMarked`).
  - `split` and `join` are inverses (`SplitJoin`, `JoinSplit`), and each
    distributes over concatenation (`SplitConcat`, `JoinAppend`).
- `sheet.dfy` (module `Sheet`): cells (`Str` or `Empty`), rows, the
  workbook as a map from sheet names to rows, and the prefix routing.
  It also has a generic, order-preserving selection of the elements routed
  to one bucket (`Select`), with the positions it picks (`Indices`).
- `functional_spec.dfy` (module `FunctionalSpec`): `readTestCases`, its
  `clean`, and the Sinhala check.
- `update_test_data.dfy` (module `UpdateTestData`): the script body,
  `cleanText` and the category parsing.
- `drift.dfy` (module `Drift`): inputs on which the two copies disagree.

Both row loops are methods with loop invariants:
- `ReadTestCases` and `UpdateTestData`.
- Each loop body is a method of its own, `ReadRow` and `AddRow`.
- Each is proved against a specification function. `Normalize` and
  `Collect` fold `Push` over the rows.
- The lemmas `NormalizeSelects` and `CollectSelects` relate those folds to
  the generic `Select`. The routing and ordering lemmas of `Sheet` are
  stated in terms of `Select`.

## Model

| member | source | states |
|---|---|---|
| Text.Trim | tests/excel-functional.spec.js:36 | `trim` never lengthens its input and leaves no whitespace at either end |
| Text.TrimUnique | tests/excel-functional.spec.js:36 | whitespace, then a trimmed string t, then whitespace trims to exactly t |
| Text.TrimDecomposes | tests/excel-functional.spec.js:36 | every string is whitespace, then its trim, then whitespace |
| Text.TrimStartIsSuffix | tests/excel-functional.spec.js:36 | what `\s*` at the start removes is an all-whitespace prefix; the rest is a suffix |
| Text.TrimEndIsPrefix | tests/excel-functional.spec.js:36 | trailing trimming removes an all-whitespace suffix; the rest is a prefix |
| Text.TrimStart | tests/excel-functional.spec.js:36 | leading trimming never lengthens the string and leaves no whitespace at its start |
| Text.TrimEnd | tests/excel-functional.spec.js:36 | trailing trimming never lengthens the string and leaves no whitespace at its end |
| Text.TrimStartOfWsPrefix | tests/excel-functional.spec.js:36 | whitespace followed by a string not starting with whitespace loses exactly the whitespace at the start |
| Text.TrimEndOfWsSuffix | tests/excel-functional.spec.js:36 | a string not ending in whitespace followed by whitespace loses exactly the whitespace at the end |
| Text.IsWs | tests/excel-functional.spec.js:36 | definition of `\s`: membership in the 25 WhiteSpace and LineTerminator code points of ECMA-262 (`WsChars`) |
| Text.StartsWith | tests/excel-functional.spec.js:48-52 | definition of `s.startsWith(p)` |
| Text.StartsWithPrefix | tests/excel-functional.spec.js:48-52 | p followed by anything starts with p, and a string that starts with p is p followed by the rest |
| Text.TrimStartThenTrim | tests/excel-functional.spec.js:36 | first removing leading whitespace does not change the trim |
| Text.StripMarker | tests/excel-functional.spec.js:36 | the anchored replace changes nothing without the marker, and removes at least the marker with it |
| Text.StripAndTrim | tests/excel-functional.spec.js:36 | replace then trim: trimmed, no longer than the input, and at least the marker shorter when the marker is present |
| Text.StripAndTrimMarked | tests/excel-functional.spec.js:36 | marker, whitespace, trimmed body, whitespace gives exactly the body |
| Text.Split | scripts/update_test_data.js:44 | `split` gives at least one piece and no piece holds the separator |
| Text.Join | scripts/update_test_data.js:14 | definition of `parts.join(sep)`; its meaning is stated by `JoinAppend`, `SplitJoin` and `JoinSplit` |
| Text.SplitJoin | scripts/update_test_data.js:44 | joining the pieces of a split with the separator gives back the string |
| Text.JoinSplit | scripts/update_test_data.js:44 | splitting a join of separator-free pieces gives back the pieces |
| Text.JoinAppend | scripts/update_test_data.js:14 | joining two non-empty lists is joining each and putting one separator between them |
| Text.SplitAfterPiece | scripts/update_test_data.js:44 | a separator-free piece followed by the separator splits off as one piece |
| Text.SplitNoSep | scripts/update_test_data.js:44 | a string without the separator splits into itself alone |
| Text.SplitConcat | scripts/update_test_data.js:44 | splitting at a separator splits both sides on their own, so two line breaks in a row produce one empty piece |
| Sheet.CellAt | scripts/update_test_data.js:35-43 | definition of `row[i]`: the cell when i is in range, `undefined` (Empty) past the end; `CellAtPadded` states what that means for short rows |
| Sheet.CellAtPadded | scripts/update_test_data.js:35-43 | a row padded with empty cells reads like the short row at every index: a missing trailing cell and an empty one look the same |
| Sheet.Truthy | scripts/update_test_data.js:36 | definition of JavaScript truthiness for a cell: a non-empty string |
| Sheet.PrefixesExclusive | tests/excel-functional.spec.js:48-54 | no identifier starts with two of the four prefixes |
| Sheet.Route | tests/excel-functional.spec.js:48-54 | each bucket is chosen exactly when the id carries its prefix, and the id is dropped exactly when it carries none |
| Sheet.Select | tests/excel-functional.spec.js:29-55 | a bucket never holds more records than there are rows |
| Sheet.Indices | tests/excel-functional.spec.js:29-55 | the selected positions are in range, strictly increasing, and routed to the bucket |
| Sheet.IndicesComplete | tests/excel-functional.spec.js:29-55 | every row routed to a bucket is selected for it |
| Sheet.IndicesExactly | tests/excel-functional.spec.js:29-55 | a position is selected for a bucket if and only if its row is routed there |
| Sheet.SelectAtIndices | tests/excel-functional.spec.js:29-55 | the k-th record of a bucket is built from the row at the k-th selected position, so row order is kept |
| Sheet.BucketSizes | tests/excel-functional.spec.js:29-55 | the three bucket sizes plus the dropped rows add up to the number of rows |
| Sheet.BucketsDisjoint | tests/excel-functional.spec.js:48-54 | no row is selected for two buckets |
| FunctionalSpec.Clean | tests/excel-functional.spec.js:34-37 | a non-string comes back unchanged; a string comes back trimmed, no longer, and at least the marker shorter when it starts with the mis-decoded bullet |
| FunctionalSpec.CleanMarked | tests/excel-functional.spec.js:36 | the mis-decoded bullet, whitespace, a trimmed body and whitespace clean to exactly the body |
| FunctionalSpec.CleanUnmarked | tests/excel-functional.spec.js:36 | without the bullet at the start, `clean` is `trim` |
| FunctionalSpec.NotFoundMessage | tests/excel-functional.spec.js:19 | definition of the error thrown for a missing sheet, naming it |
| FunctionalSpec.RowRoute | tests/excel-functional.spec.js:30-54 | definition: a row whose column 0 is not a non-empty string goes nowhere; the others go by the prefix of the cleaned id |
| FunctionalSpec.RowRecord | tests/excel-functional.spec.js:39-46 | definition: `clean` of columns 0, 1, 2, 3, 4 and 8 |
| FunctionalSpec.Push | tests/excel-functional.spec.js:48-54 | definition: the row's record appended to the list its route names, the other lists unchanged |
| FunctionalSpec.Normalize | tests/excel-functional.spec.js:29-55 | definition: `Push` folded over the rows in order, from three empty lists |
| FunctionalSpec.ReadTestCases | tests/excel-functional.spec.js:13-58 | a missing sheet is the error with the sheet name; otherwise the loop over every row returns the buckets `Normalize` describes |
| FunctionalSpec.ReadRow | tests/excel-functional.spec.js:30-54 | one pass of the loop body appends the row's cleaned record to the list its route names, and changes nothing else |
| FunctionalSpec.NormalizeSelects | tests/excel-functional.spec.js:29-55 | each returned list is the in-order selection of the records of the rows routed to it |
| FunctionalSpec.RowLandsIn | tests/excel-functional.spec.js:30-54 | a row is in a list if and only if its id is a non-empty string whose cleaned form carries that list's prefix |
| FunctionalSpec.RecordsAreCleanedRows | tests/excel-functional.spec.js:39-54 | each record's fields are `clean` of columns 0, 1, 2, 3, 4 and 8 of its row, the category is one string, and the cleaned id carries the list's prefix |
| FunctionalSpec.NormalizeSizes | tests/excel-functional.spec.js:29-55 | the three lists together hold at most as many records as the sheet has rows |
| FunctionalSpec.IsSinhala | tests/excel-functional.spec.js:95 | definition of the class `[\u0D80-\u0DFF]` |
| FunctionalSpec.ContainsSinhala | tests/excel-functional.spec.js:95 | the page-text test holds if and only if some character lies in U+0D80 to U+0DFF |
| UpdateTestData.CleanText | scripts/update_test_data.js:29-32 | falsy input gives ''; the result is trimmed, no longer than the input, and at least the bullet shorter when the input starts with the bullet |
| UpdateTestData.CleanTextMarked | scripts/update_test_data.js:31 | the bullet, whitespace, a trimmed body and whitespace clean to exactly the body |
| UpdateTestData.CleanTextOfPlain | scripts/update_test_data.js:31 | a non-empty trimmed string without a leading bullet is its own clean text |
| UpdateTestData.CleanTextNotIdempotent | scripts/update_test_data.js:31 | `• • x` cleans to `• x`, which cleans to `x`: one bullet per call |
| UpdateTestData.CleanEach | scripts/update_test_data.js:44 | the map keeps the number of lines |
| UpdateTestData.CleanEachAt | scripts/update_test_data.js:44 | line k of the map is `cleanText` of piece k |
| UpdateTestData.CleanEachAppend | scripts/update_test_data.js:44 | the map distributes over concatenation |
| UpdateTestData.DropEmpty | scripts/update_test_data.js:44 | the filter keeps only non-empty lines taken from its input and never adds lines |
| UpdateTestData.DropEmptyAppend | scripts/update_test_data.js:44 | the filter distributes over concatenation |
| UpdateTestData.DropEmptyOfNonEmpty | scripts/update_test_data.js:44 | the filter keeps a list with no empty line as it is |
| UpdateTestData.CategoryLines | scripts/update_test_data.js:43-44 | every kept category line is non-empty and trimmed |
| UpdateTestData.LineOr | scripts/update_test_data.js:47-49 | definition of `lines[i] || ''` on the kept lines |
| UpdateTestData.CategoryOf | scripts/update_test_data.js:46-50 | definition: kept lines 0, 1 and 3 as inputType, sentenceFocus and qualityFocus |
| UpdateTestData.ParseCategory | scripts/update_test_data.js:43-50 | definition: `CategoryOf` of the kept lines of column 8 |
| UpdateTestData.KeptLinesOfJoined | scripts/update_test_data.js:44 | the kept lines of a cell written as separator-free pieces are those pieces cleaned, with the empty ones dropped |
| UpdateTestData.KeptLinesOfPlainPieces | scripts/update_test_data.js:44 | for one or more separator-free pieces none of which cleans to '', the kept lines of their join are exactly the cleaned pieces, in order |
| UpdateTestData.DropEmptySkipBlank | scripts/update_test_data.js:44 | one more empty line anywhere does not change what the filter keeps |
| UpdateTestData.KeptLinesSkipBlank | scripts/update_test_data.js:44 | an empty piece anywhere among the pieces adds nothing to the kept lines |
| UpdateTestData.BlankLineShifts | scripts/update_test_data.js:43-44 | a blank line anywhere in the cell is dropped before indexing: doubling any line break leaves the kept lines as they are, so every later line moves up by one |
| UpdateTestData.MissingCategory | scripts/update_test_data.js:43-50 | a missing or empty category cell gives three empty fields |
| UpdateTestData.CategoryFieldsAreKeptLines | scripts/update_test_data.js:46-50 | each field is '' or a kept line; inputType, sentenceFocus and qualityFocus are set exactly when there are at least 1, 2 and 4 kept lines |
| UpdateTestData.LineTwoIgnored | scripts/update_test_data.js:46-50 | changing kept line 2 never changes the category |
| UpdateTestData.FourLineCategory | scripts/update_test_data.js:43-50 | `a\nb\nc\nd` with non-blank lines gives the cleaned a, b and d |
| UpdateTestData.ThreeLineCategory | scripts/update_test_data.js:46-59 | a three-line cell gives the cleaned first two lines and an empty qualityFocus, with no re-indexing |
| UpdateTestData.FourLineExample | scripts/update_test_data.js:46-50 | the cell `A\nB\nC\nD` gives `{A, B, D}` |
| UpdateTestData.DataRows | scripts/update_test_data.js:27 | definition of `data.slice(1)`; `DataRowsAfterHeader` and `HeaderIgnored` state its meaning |
| UpdateTestData.HeaderIgnored | scripts/update_test_data.js:27 | two sheets that differ only in their header row give the same lists |
| UpdateTestData.DataRowsAfterHeader | scripts/update_test_data.js:27 | there is one data row fewer than sheet rows (none for an empty sheet), and data row k is sheet row k + 1 |
| UpdateTestData.NotFoundMessage | scripts/update_test_data.js:14 | definition of the message printed for a missing sheet, naming it and listing the available sheets |
| UpdateTestData.RowRoute | scripts/update_test_data.js:35-90 | definition: a row with a falsy id goes nowhere; the others go by the prefix of the raw id |
| UpdateTestData.RowRecord | scripts/update_test_data.js:61-88 | definition: the raw cells, the parsed category, and `expectedIssue` or `description` by bucket |
| UpdateTestData.Push | scripts/update_test_data.js:71-90 | definition: the row's record appended to the list its route names, the other lists unchanged |
| UpdateTestData.Collect | scripts/update_test_data.js:34-91 | definition: `Push` folded over the data rows in order, from three empty lists |
| UpdateTestData.Normalize | scripts/update_test_data.js:27-91 | definition: `Collect` of the rows after the header |
| UpdateTestData.UpdateTestData | scripts/update_test_data.js:10-91 | a missing sheet is the error listing the available sheets; otherwise the loop over the rows after the header returns the lists `Normalize` describes |
| UpdateTestData.AddRow | scripts/update_test_data.js:34-91 | one call of the `forEach` callback appends the row's record, with its extra field, to the list its raw id names, and changes nothing else |
| UpdateTestData.CollectSelects | scripts/update_test_data.js:34-91 | each list is the in-order selection of the records of the data rows routed to it |
| UpdateTestData.RowLandsIn | scripts/update_test_data.js:35-90 | a data row is in a list if and only if its raw id is truthy and carries that list's prefix |
| UpdateTestData.RecordsMatchRows | scripts/update_test_data.js:61-90 | each record has its row's raw cells and parsed category; expectedIssue is set exactly on negative records and equals expectedOutput; description is set exactly on ui records and equals name |
| UpdateTestData.NormalizeSizes | scripts/update_test_data.js:27-91 | the three lists together hold at most as many records as there are data rows, which is one fewer than the sheet's rows for a non-empty sheet |
| Drift.EachCleanerHandlesOneBullet | tests/excel-functional.spec.js:36 | the test file's `clean` keeps a leading U+2022 and the script's `cleanText` keeps a leading mis-decoded bullet |
| Drift.PaddedIdCleans | tests/excel-functional.spec.js:40 | `clean` turns the id ` Pos_Fun_0001 ` into `Pos_Fun_0001` |
| Drift.PaddedIdRoutes | scripts/update_test_data.js:71 | `Pos_Fun_0001` is positive and ` Pos_Fun_0001 ` carries no prefix |
| Drift.PaddedIdRoutesDifferently | tests/excel-functional.spec.js:39-48 | a row with id ` Pos_Fun_0001 ` is positive for the test file, which routes on the cleaned id, and dropped by the script, which routes on the raw id |

## Left out

- The Playwright scenarios are browser I/O and timing, so they are not modelled (tests/excel-functional.spec.js:60-164). This covers navigation, locators, filling the input, fixed waits, screenshots, visibility checks and serial mode. Only the Sinhala test on the page text is kept, as `ContainsSinhala`.
- `XLSX.readFile` and `sheet_to_json` are parsing inside a library. The workbook is an input: its sheet names and its rows of cells.
- Writing the JSON file, `JSON.stringify`, console output and `process.exit` are I/O. The missing-sheet exit is the `Failure` result with the printed message.
- scripts/inspect_excel.js is not part of this model. It only prints the header and first row.
- Numeric and other non-string cells are not modelled. Their `toString` formatting involves floating point, so a cell is a string or absent.
  - In the script, such cells would throw on a truthy non-string id (`startsWith`) or category (`split`). With string-or-absent cells those paths cannot happen.
  - In `readTestCases`, the non-string branch of `clean` is modelled only for absent cells.
- The empty `if` for three-line categories (scripts/update_test_data.js:53-59) does nothing, so it has no counterpart. `ThreeLineCategory` states its outcome.
- Strings are sequences of Unicode scalar values, not the UTF-16 code units of JavaScript. A lone surrogate cannot be represented, and lengths count scalar values, not UTF-16 units. No character the code inspects (whitespace, the bullets, the line break, the prefixes) lies outside the Basic Multilingual Plane.
- `Workbook.sheetNames` is not tied to the keys of `Workbook.sheets`: the code looks the sheet up by name and only prints the list, so the model takes both as given.
