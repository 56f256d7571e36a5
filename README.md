# lesser_pandas in Dafny

This project models `lesser_pandas.h`, a small columnar table engine. It covers:

- **The CSV constructor.** Lines are split with `getline`, short rows are padded, and every column's dtype is inferred.
- **The `Column` value.** Twelve relational mask operators and `fillna` with an integer fill value.
- **`DataFrame` operations.** `rename`, `fillna`, `dropna`, the boolean-mask filter `operator[](vector<bool>)`, the column lookup `operator[](string)`, and the text that `save_to_csv` writes.

The model is organised as follows:

- **`DataFrame` is a class.** Its fields are `colData` (a map from names to column values), `columns` and `rowData`. Its methods update them in place, and each method is proved against a pure specification function:
  - `Parse`: `ColDataOf`, `HeaderOf` and `RowsOf`;
  - `Rename`: `RenameAll`;
  - `FillNa`: `FillAll`;
  - `DropNa`: `Dropped`;
  - `Filter`: `Filtered` and `Select`.

  Lemmas then prove what the source promises about those functions.
- **The loops are `while` loops with invariants**, as in the source: header and row reading, dtype inference, map building, the renaming of `columns`, filling, the collection of missing positions, the erase loop with its shifting `idx - jdx` offset, and the mask selection.
- **Pure code stays pure.** Type inference, the mask operators and the rendering of `save_to_csv` are functions with lemmas.

Modules, one file each:

| file | module | content |
|---|---|---|
| `wrappers.dfy` | `Wrappers` | `Option`, `Result`, `Outcome` and the error kinds `OutOfRange` and `RuntimeError` |
| `text.dfy` | `Text` | `getline` splitting, joining, `stoi` recognition (`is_integer`), `to_string` for `int`, `std::string::compare` |
| `column.dfy` | `Columns` | `Column`, dtype inference, the twelve mask operators, `Column::fillna` |
| `rows.dfy` | `Rows` | the selection by mask shared by the filter and `dropna` |
| `csv.dfy` | `Csv` | what the CSV constructor reads from a text, and what `save_to_csv` writes |
| `dataframe.dfy` | `Frame` | the `DataFrame` class, its specification functions and the loop helpers |
| `roundtrip.dfy` | `RoundTrip` | saving with `index = false` and the other defaults, then reading back, gives the same header and the same columns with their dtypes re-inferred (the same `colData` when the dtypes already were the inferred ones); `rowData` is not compared, and all of it holds only for tables meeting `Saveable` |

What the model fixes or keeps abstract:

- **`is_float`** runs `strtod`'s grammar. It is a parameter `isFloat: string -> bool`.
- **`is_integer ==> is_float`** is the predicate `FloatExtendsInteger(isFloat)`. It is required only by the lemmas that need it.
- **Numeric comparisons.** `stod` and the double comparisons `==` and `<` are the parameter `DoubleModel`. The other four operators are built from those two, as IEEE comparisons are. `stod` returns `None` where it throws.
- **Strings** are sequences of Unicode code points, not bytes. `std::string::compare` orders bytes; the two orders agree on UTF-8 text.
- **`rowData` on an empty table.** The filter computes `row_data.size() - 1` in `size_t`. On an empty table this wraps to `SizeMax`, so every mask is rejected there.

Where the code and its description disagree, the model follows the code:

- A column with no non-missing cell is inferred as `"int"`, not as text. `all_int` starts true and nothing clears it (`AllMissingIsInt`).
- An empty `selected_columns` saves all of `columns`. It does not save zero rows.
- Renaming a name to itself erases its entry from `colData`, while `columns` still lists it (`RenameToItselfErases`).
- `dropna` on an absent name default-inserts an empty column under that name (`DroppedAbsentKey`).
- The filter's result is documented to hold only the rows where the mask is true. The code copies the whole table, then appends the header row and the kept rows to the copied `row_data`, which already holds every row (`Frame.DataFrame.Filter`).

## Model

| member | source | states |
|---|---|---|
| Text.Split | lesser_pandas.h:594-628 | at least one segment, and no segment holds the delimiter |
| Text.SplitGetline | lesser_pandas.h:594-628 | the pieces repeated `getline` extracts hold no delimiter |
| Text.DropLastEmpty | lesser_pandas.h:614-619 | the segments without the last one when that one is empty, as `getline` extracts no final empty segment |
| Text.SplitOfDelimiterFree | lesser_pandas.h:614-619 | a delimiter-free text splits into itself alone |
| Text.SplitCons | lesser_pandas.h:614-619 | a piece, then a delimiter, then the rest splits into the piece followed by the rest's segments |
| Text.SplitJoin | lesser_pandas.h:895-900 | splitting a join of delimiter-free pieces gives the pieces back |
| Text.Join | lesser_pandas.h:895-900 | the pieces with the separator written between each two neighbours and after none, as the header and row loops write `sep` only when `i < size() - 1` |
| Text.SplitGetlineJoin | lesser_pandas.h:614-619 | `getline` on a join of delimiter-free pieces gives them back when the last piece is not empty |
| Text.SplitGetlineJoinLastEmpty | lesser_pandas.h:614-625 | when the last piece is empty, `getline` loses exactly that piece |
| Text.SplitTerminated | lesser_pandas.h:594-594 | splitting `endl`-terminated lines gives the lines and one empty segment |
| Text.SplitGetlineTerminated | lesser_pandas.h:594-594 | `getline(file, line)` on `endl`-terminated lines gives exactly the lines; the last terminator adds none |
| Text.Terminated | lesser_pandas.h:917-929 | every line followed by the terminator, as each `file << ... << endl` writes it |
| Text.SkipSpace | lesser_pandas.h:516-524 | the result is no longer than the input and does not start with white space |
| Text.SkipSpaceSuffix | lesser_pandas.h:516-524 | the result is the input's suffix of that length, and every character skipped is white space |
| Text.IsSpace | lesser_pandas.h:519-519 | the characters C `isspace` accepts in the "C" locale, which `stoi` skips first: space, tab, newline, vertical tab, form feed and carriage return |
| Text.NatToString | lesser_pandas.h:913-913 | decimal text: non-empty, all digits, its digit value is `n`, and no leading zero unless `n` is 0 |
| Text.IntToString | lesser_pandas.h:225-225 | `to_string(int)`: a leading minus exactly for negative values, then the digits of the magnitude, with no leading zero unless the value is 0 |
| Text.IntToStringRoundTrip | lesser_pandas.h:217-231 | the fill text of an `int` is non-empty, passes `is_integer`, and `stoi` reads back the same value |
| Text.IsInteger | lesser_pandas.h:516-524 | by definition: after optional white space and an optional sign, at least one decimal digit and nothing else, with a value in the `int` range (`stoi` otherwise throws) |
| Text.IsIntegerShape | lesser_pandas.h:516-524 | `stoi` skips leading white space only: an integer text ends in a digit, and it reads the same with its leading white space dropped |
| Text.DigitsValue | lesser_pandas.h:519-519 | the value of a decimal numeral, most significant digit first |
| Text.Magnitude | lesser_pandas.h:519-519 | the text `stoi` reads digits from: after the leading white space and an optional sign |
| Text.IsNegative | lesser_pandas.h:519-519 | the first character after the leading white space is a minus sign |
| Text.IntegerValue | lesser_pandas.h:519-519 | the value `stoi` returns for a text it reads whole: the digits' value, negated after a minus sign |
| Text.LexCompare | lesser_pandas.h:440-450 | the comparison sign is -1, 0 or 1, and it is 0 exactly when the strings are equal |
| Text.LexCompareFlip | lesser_pandas.h:459-469 | swapping the operands negates the comparison |
| Text.LexCompareFirstDifference | lesser_pandas.h:440-450 | when two strings agree before position k and differ at k, the one with the smaller character at k compares less |
| Text.LexComparePrefix | lesser_pandas.h:440-450 | a proper prefix compares less than the longer string, and the longer string compares greater |
| Columns.InferDtype | lesser_pandas.h:630-655 | the loop, with its early `break`, assigns exactly the dtype `DtypeOf` gives the cells |
| Columns.DtypeOf | lesser_pandas.h:648-654 | by definition: "int" when every non-missing cell is an integer text, else "float" when every one is a float text, else "string" |
| Columns.PrefixStep | lesser_pandas.h:633-643 | how `all_int`/`all_float` change when one more cell is read; a missing cell changes neither |
| Columns.PrefixFails | lesser_pandas.h:644-646 | a test that failed on a prefix fails on the column, so the early `break` never changes the result |
| Columns.DtypeOfCases | lesser_pandas.h:648-654 | "int" iff all non-missing cells are integers; "float" iff all are floats and some is not an integer; "string" iff some non-missing cell is not a float |
| Columns.AllMissingIsInt | lesser_pandas.h:631-648 | a column without non-missing cells is "int" |
| Columns.DefaultColumn | lesser_pandas.h:46-50 | a default-constructed `Column`: empty name, no cells, dtype "string", which `col_data[col]` inserts for an absent key |
| Columns.NumericMask | lesser_pandas.h:240-393 | fails with runtime_error exactly on a "string" column; otherwise the mask has the column's length, is false on missing or unparseable cells under every operator, and elsewhere is the double comparison |
| Columns.NumericNeVersusEq | lesser_pandas.h:267-285 | a missing cell is false under both `==` and `!=`; a parseable cell under `!=` is the negation of `==` |
| Columns.HoldsNumeric | lesser_pandas.h:245-392 | `x op key` on doubles: `==` and `<` from the double model, `!=` their negation, `<=` and `>=` as `<` or `==` |
| Columns.CellNumeric | lesser_pandas.h:245-392 | one mask entry under a numeric key: false for a missing cell and for one `stod` rejects, else `HoldsNumeric` of the parsed value |
| Columns.StringMask | lesser_pandas.h:402-507 | fails with runtime_error exactly on "int"/"float" columns; otherwise every cell, missing included, is compared lexicographically, and the mask has the column's length |
| Columns.StringMaskComplements | lesser_pandas.h:402-507 | under a string key, `!=` negates `==`, `>=` negates `<`, `<=` negates `>`, and `<=` is `<` or `==` |
| Columns.StringGtIsFlippedLt | lesser_pandas.h:459-469 | `cell > key` iff `key < cell` |
| Columns.HoldsString | lesser_pandas.h:402-507 | `s op key` on strings: `==` and `!=` by equality, the four orderings by the sign of `std::string::compare` |
| Columns.FillNa | lesser_pandas.h:217-231 | the loop sets every missing cell to the decimal text of the value and keeps name and dtype |
| Columns.FillMissing | lesser_pandas.h:217-231 | by definition: every missing cell becomes the fill text, every other cell stays |
| Columns.FillMissingCells | lesser_pandas.h:217-231 | the length and the non-missing cells are kept, missing cells hold the fill text, and no missing cell is left |
| Columns.FillMissingIdempotent | lesser_pandas.h:217-231 | a second fill with the same text changes nothing |
| Columns.FillMissingKeepsDtype | lesser_pandas.h:217-231 | filling with an integer keeps the dtype the cells infer |
| Columns.FillKeepsAll | lesser_pandas.h:217-231 | a property of all non-missing cells holds after filling iff it held before, provided the fill text has it |
| Rows.Select | lesser_pandas.h:959-963 | the selection has as many elements as the mask has true entries |
| Rows.SelectAppend | lesser_pandas.h:959-963 | selection distributes over concatenation |
| Rows.SelectAllTrue | lesser_pandas.h:959-963 | an all-true mask keeps every element |
| Rows.SelectAllFalse | lesser_pandas.h:959-963 | an all-false mask keeps nothing |
| Rows.SelectFrom | lesser_pandas.h:959-963 | every kept element sits at a position where the mask is true |
| Rows.PresentMask | lesser_pandas.h:821-825 | one entry per key cell |
| Rows.PresentMaskSplit | lesser_pandas.h:821-825 | the mask of a prefix splits at any point |
| Rows.MaskStep | lesser_pandas.h:821-825 | the mask up to `p + 1` is the mask up to `b`, then `[b, p)`, then key cell `p` |
| Rows.Erase | lesser_pandas.h:830-830 | `vector::erase` shortens by one |
| Rows.DropRows | lesser_pandas.h:817-834 | by definition: of the rows the key column covers, those whose key cell is missing are gone and the rest keep their order; rows past the key's length stay |
| Rows.PartlyDropped | lesser_pandas.h:827-833 | after the passes for the missing key cells before `b`, a column is as long as the kept rows before `b` plus the rows from `b` on |
| Rows.PartlyDroppedNone | lesser_pandas.h:827-833 | before the first pass nothing is erased |
| Rows.DropStep | lesser_pandas.h:827-833 | erasing at the shifted position `p - (rows erased so far)` removes exactly row `p` of the original |
| Rows.EraseShifted | lesser_pandas.h:830-830 | erasing at `|a| + (p - b)` in `a + o[b..]` removes `o[p]` |
| Rows.SelectUpTo | lesser_pandas.h:827-833 | with no missing key cell in `[b, p)` and one at `p`, the rows kept up to `p` are those kept before `b` plus `o[b..p]` |
| Rows.DropFinish | lesser_pandas.h:827-833 | once there is no missing key cell from `b` on, the partly dropped column equals `DropRows` |
| Rows.SelectKeepAllAfter | lesser_pandas.h:959-963 | a mask whose tail is all true keeps that tail whole |
| Rows.DropRowsOfKey | lesser_pandas.h:817-834 | after dropping, the key column has no missing cell |
| Rows.DropRowsNoMissing | lesser_pandas.h:817-834 | a key column without missing cells removes nothing |
| Csv.Pad | lesser_pandas.h:621-625 | a short row gets exactly one "", at the index equal to the number of fields read; a full row is unchanged |
| Csv.LinesOf | lesser_pandas.h:594-594 | by definition: the lines `getline(file, line)` yields |
| Csv.HeaderOf | lesser_pandas.h:600-611 | by definition: the fields of the first line, none for an empty text |
| Csv.RowsOf | lesser_pandas.h:594-628 | by definition: `row_data`, the header row followed by the padded data rows |
| Csv.ColDataOf | lesser_pandas.h:630-659 | by definition: the columns with their inferred dtypes, stored by name |
| Csv.DataRowsOf | lesser_pandas.h:594-628 | one data row per line after the header |
| Csv.ColumnsOf | lesser_pandas.h:600-611 | one column per header field |
| Csv.ToMapKeys | lesser_pandas.h:657-659 | the map's keys are exactly the column names |
| Csv.ToMapLastWins | lesser_pandas.h:657-659 | for a duplicate name, the last column with that name wins |
| Csv.ToMapUniform | lesser_pandas.h:657-659 | when every column is `m`'s entry for its name, the map agrees with `m` on those names |
| Csv.CellsOfFull | lesser_pandas.h:614-619 | when every row has field `j`, column `j` has one cell per row, namely that field |
| Csv.ParseShape | lesser_pandas.h:594-659 | the keys are exactly the header fields, and each entry carries its key as its name and the dtype its cells infer |
| Csv.LastIndex | lesser_pandas.h:657-659 | each name that occurs has a last occurrence |
| Csv.ParseColumnLengths | lesser_pandas.h:614-625 | if every data line has n or n-1 fields, every row has width n, every column has one cell per data line, and cell i of column j is field j of row i |
| Csv.ColumnsOfAt | lesser_pandas.h:600-655 | column j is named by header field j, holds field j of every row that has one, and has the inferred dtype |
| Csv.DataRowsWidth | lesser_pandas.h:621-625 | padding makes every row as wide as the header when no line is short by more than one field |
| Csv.DataRowsAt | lesser_pandas.h:614-627 | data row i is line i+1, split and padded |
| Csv.FieldsOf | lesser_pandas.h:602-619 | the fields `getline(ss, element, ',')` yields from one line |
| Csv.PaddedRows | lesser_pandas.h:614-627 | every line after the first, split on commas and padded to the header width, one row per line |
| Csv.CellsOf | lesser_pandas.h:615-624 | the cells pushed onto column j: field j of every row that has one, in row order |
| Csv.ToMap | lesser_pandas.h:657-659 | `col_data[col.name] = col` applied to each column in order, so the last column of a name wins |
| Csv.SaveToCsv | lesser_pandas.h:855-934 | fails, always with out_of_range, exactly when a selected name is missing, or the first saved name is missing, or at least one row is written and some saved name is missing; in particular it succeeds whenever every saved name exists (with zero rows a missing name after the first is only written into the header and the call succeeds, as in the source) |
| Csv.HeaderLine | lesser_pandas.h:890-901 | by definition: "index" and the separator when the index is written, then the names joined by the separator |
| Csv.RowLine | lesser_pandas.h:912-930 | by definition: the row number and the separator when the index is written, then the row's cells, `na_rep` for a missing one, joined by the separator |
| Csv.OutputLines | lesser_pandas.h:889-930 | the header line when `header` is set, then one line per row of the first saved column |
| Csv.OutputHeader | lesser_pandas.h:890-901 | the header line is "index" and the separator when `index` is set, then the names joined by the separator |
| Csv.OutputLineAt | lesser_pandas.h:912-930 | the line after the header lines at position k is the line of row k - h, `h` being 1 exactly when the header is written |
| Csv.RowLineNoBreak | lesser_pandas.h:912-930 | a row's line, with or without the index, holds no line break when its cells, `na_rep` and the separator hold none |
| Csv.OutputHeaderFree | lesser_pandas.h:890-901 | the header line holds no line break when no name and not the separator holds one |
| Csv.OutputRowFree | lesser_pandas.h:912-930 | each row's line holds no line break under the same conditions |
| Csv.OutputLinesFree | lesser_pandas.h:889-930 | no written line holds a line break under the same conditions |
| Csv.SavedTextLines | lesser_pandas.h:855-934 | for every option (`index`, `sep`, `header`, `na_rep`, a selection), a successful save with no line break in the names, cells, separator or `na_rep` is read back by `getline` as exactly the written lines |
| Csv.ColumnsToSave | lesser_pandas.h:876-887 | the selection when it is non-empty, otherwise `columns` |
| Csv.RowCount | lesser_pandas.h:904-909 | the length of the first saved column, or 0 when nothing is saved (when the first name is missing the save has already failed) |
| Csv.CellText | lesser_pandas.h:920-921 | an empty cell is written as `na_rep`, any other cell as itself |
| Csv.RowTexts | lesser_pandas.h:917-927 | row i's cells as written, one per saved name, in the saved order |
| Csv.BodyLines | lesser_pandas.h:911-930 | one data line per row, `RowLine` of that row |
| Frame.RenameAll | lesser_pandas.h:765-786 | by definition: the pairs are applied in order; the first pair whose old name is missing stops with out_of_range |
| Frame.RenameStep | lesser_pandas.h:771-775 | the old key is gone, the new key holds the old column renamed, and other keys are untouched |
| Frame.RenameStopsAtMissing | lesser_pandas.h:766-785 | the first pair whose old name is missing raises out_of_range, with earlier pairs applied and later ones not |
| Frame.RenameMovesColumn | lesser_pandas.h:771-780 | renaming `o` to `n != o` moves data and dtype to key `n`, removes `o`, and replaces every `o` in `columns` in place |
| Frame.RenameToItselfErases | lesser_pandas.h:771-780 | renaming a name to itself erases its entry and leaves `columns` unchanged |
| Frame.RenameKeepsNamesAndKeys | lesser_pandas.h:771-780 | if the names in `columns` are exactly the keys before renaming to a different name, they still are after |
| Frame.ReplaceName | lesser_pandas.h:777-781 | the loop over `columns` replaces every occurrence of the old name |
| Frame.ReplaceAll | lesser_pandas.h:777-781 | `columns` with every element equal to the old name overwritten by the new one, the rest kept in place |
| Frame.FillAll | lesser_pandas.h:797-809 | by definition: every column's missing cells get the fill text |
| Frame.FillAllProperties | lesser_pandas.h:797-809 | `fillna` keeps keys, names, dtypes and lengths, leaves no missing cell, and a second call changes nothing |
| Frame.WithKey | lesser_pandas.h:818-818 | `col_data[col]` leaves the key present |
| Frame.Dropped | lesser_pandas.h:817-834 | by definition: the key is inserted with a default column when absent, and every column is `DropRows` by the key column |
| Frame.DroppedAbsentKey | lesser_pandas.h:817-834 | an absent key inserts a default column and removes nothing |
| Frame.DroppedProperties | lesser_pandas.h:817-834 | keys, names and dtypes are kept, the key column has no missing cell left, the result is again droppable, and a second `dropna` changes nothing |
| Frame.Filtered | lesser_pandas.h:966-978 | by definition: each listed column is rebuilt under its key, with the key as its name, its dtype, and those of its first `|mask|` cells where the mask is true; entries not listed are copied unchanged |
| Frame.FilteredAllTrue | lesser_pandas.h:966-978 | an all-true mask gives back unchanged every listed column that is named by its key and as long as the mask (a column whose name differs from its key, such as the default column `dropna` inserts, comes back under its key with the key as its name) |
| Frame.FilteredAllFalse | lesser_pandas.h:966-978 | an all-false mask leaves every listed column empty, with its name and dtype |
| Frame.ReadHeader | lesser_pandas.h:600-611 | the header loop yields the names, one empty "string" column per name, and the header row |
| Frame.ReadRow | lesser_pandas.h:614-627 | the row loop appends field j to column j and pads a short row with one "" on the column after its last field |
| Frame.ReadLine | lesser_pandas.h:594-628 | one pass of the line loop, header or data row, keeps the loop state for the next line |
| Csv.CellsOfSnoc | lesser_pandas.h:615-619 | one more row adds that row's field j to column j |
| Csv.ReadLineStep | lesser_pandas.h:614-627 | after reading data line n, the rows and columns hold exactly the first n data rows |
| Csv.RowsOfStep | lesser_pandas.h:610-627 | `row_data` has one row per line: the header row first, then data row n-1 at position n |
| Csv.ReadDone | lesser_pandas.h:594-628 | once every line is read, the loop state is the header, all of `row_data`, and columns holding every data row's field j |
| Frame.ReadLines | lesser_pandas.h:594-628 | the line loop yields `HeaderOf` as the names, `RowsOf` as `row_data`, and column j holding field j of every row |
| Frame.InferAll | lesser_pandas.h:630-655 | every column gets the dtype its cells infer |
| Frame.BuildMap | lesser_pandas.h:657-659 | the map the loop builds is `ToMap` of the columns |
| Rows.CountAppend | lesser_pandas.h:827-833 | counting true entries distributes over concatenation |
| Rows.CountBounds | lesser_pandas.h:827-833 | the count is at most the length, and equals it for an all-true mask |
| Frame.MissingPositions | lesser_pandas.h:821-825 | the collected indices increase strictly and are exactly the positions of the missing cells |
| Frame.CountStep | lesser_pandas.h:827-833 | the number of rows kept, after one more missing key cell |
| Frame.EraseEachStep | lesser_pandas.h:828-831 | erasing at `p - jdx` in every column handles the rows up to `p` |
| Frame.ColumnStep | lesser_pandas.h:828-831 | erasing at `p - jdx` in one column handles that column's rows up to `p` |
| Frame.EraseEachBounds | lesser_pandas.h:828-831 | the shifted index is inside every column |
| Frame.PartlyDroppedDone | lesser_pandas.h:827-833 | after the last pass every column is `DropRows` of itself |
| Frame.EraseAt | lesser_pandas.h:829-831 | the inner loop erases position `p` from every column |
| Frame.PassBounds | lesser_pandas.h:828-832 | the next collected index is after the rows already handled and is a missing key cell, and no missing cell lies between |
| Frame.EraseStart | lesser_pandas.h:827-827 | the loop state holds before the first pass |
| Frame.EraseNextBounds | lesser_pandas.h:830-830 | `idx - jdx` is a valid position in every column |
| Frame.EraseNext | lesser_pandas.h:828-833 | one pass of the outer loop keeps the loop state |
| Frame.ErasePass | lesser_pandas.h:828-833 | one pass of the outer loop, erasing at `idx - jdx` in every column, keeps the loop state for the next pass |
| Frame.EraseDone | lesser_pandas.h:827-833 | after all passes the columns are what `DropRows` says |
| Frame.EraseRows | lesser_pandas.h:827-833 | the erase loop with its shifting offset removes from every column exactly the rows whose key cell is missing, keeping the others in order |
| Frame.KeepMasked | lesser_pandas.h:959-963 | the loop keeps the elements at the positions where the mask is true, in order |
| Frame.DataFrame.Copy | lesser_pandas.h:567-571 | the copy has the same fields; columns are values, so nothing is shared |
| Frame.DataFrame.Parse | lesser_pandas.h:581-660 | `columns` is the header, `rowData` the padded rows, and `colData` is `ColDataOf` of the text |
| Frame.DataFrame.Get | lesser_pandas.h:990-996 | returns the column stored under the name, or out_of_range exactly when there is none |
| Frame.DataFrame.Rename | lesser_pandas.h:765-786 | the new `colData`, new `columns` and outcome are `RenameAll` of the old state; `rowData` is unchanged |
| Frame.DataFrame.FillNa | lesser_pandas.h:797-809 | `colData` becomes `FillAll` of the old one with the value's decimal text; `columns` and `rowData` are unchanged |
| Frame.DataFrame.DropNa | lesser_pandas.h:817-834 | `colData` becomes `Dropped(old colData, key)`; `columns` and `rowData` are unchanged |
| Frame.DataFrame.Filter | lesser_pandas.h:947-981 | fails with out_of_range iff the mask length is not `row_data.size() - 1` (in `size_t`) or a listed column is missing; otherwise returns a fresh table with the same `columns`, `rowData` plus the header row plus the kept rows, and `colData` re-filtered by `Filtered`; the source is not modified |
| Frame.DataRowCount | lesser_pandas.h:948-948 | `row_data.size() - 1` in `size_t`: one less than the number of rows, wrapping to `SIZE_MAX` on an empty table |
| Text.JoinFree | lesser_pandas.h:895-900 | a character in no piece and not in the separator is not in the joined line |
| RoundTrip.RowBack | lesser_pandas.h:621-625 | a comma-joined row read back and padded is the row itself |
| RoundTrip.Saved | lesser_pandas.h:855-861 | `save_to_csv(path, index = false)` with the other defaults: comma separator, header, empty `na_rep`, all columns |
| RoundTrip.RowCells | lesser_pandas.h:917-928 | cell j of saved row i is cell i of column j (`na_rep` is "") |
| RoundTrip.RowLineFree | lesser_pandas.h:912-930 | a written data line holds no line break when no cell does |
| RoundTrip.BodyLineAt | lesser_pandas.h:912-930 | data line i written without the index is row i's cells joined by commas |
| RoundTrip.WrittenLines | lesser_pandas.h:890-930 | one line per row after the header line, the header being the names and line i+1 row i's cells joined by commas, and no line holds a line break |
| RoundTrip.SavedIsWritten | lesser_pandas.h:855-934 | saving with `index = false` succeeds and writes the written lines, each ended by `endl` |
| RoundTrip.SavedLines | lesser_pandas.h:890-930 | saving succeeds, and `getline` reads back the header line and one joined line per row |
| RoundTrip.ReadRows | lesser_pandas.h:594-628 | the saved text fits the constructor, its header is the column list, and data row i holds cell i of every column |
| RoundTrip.ReadColumn | lesser_pandas.h:630-655 | column j read back is the original column with its inferred dtype |
| RoundTrip.ToMapCovers | lesser_pandas.h:657-659 | the columns read back, stored by name, form the expected map |
| RoundTrip.SaveThenRead | lesser_pandas.h:855-934 | for a table with at least one column, whose listed names are exactly its keys, whose entries are named by their keys, whose columns are equally long, whose names and cells hold no comma or newline and whose last name is not empty, saving with `index = false` and reading back gives the same header and columns, each with the dtype its cells infer |
| RoundTrip.SaveThenReadExact | lesser_pandas.h:581-660 | if the dtypes are already the inferred ones, reading the saved file back gives exactly the original `colData` |

## Left out

- **Printing.** `print`, `head`, `tail`, `operator<<` and `operator[](vector<string>)` only write to standard output.
- **Floating-point aggregates.** `mean`, `sum`, `sorted`, `min` and `max` need double arithmetic.
- **File I/O.** Both constructors and `save_to_csv` use the file system:
  - the CSV constructor reads the text of the file, which is its parameter here;
  - `save_to_csv`'s text is the function result;
  - not modelled: the `runtime_error` raised when a file cannot be opened, directory creation, the success message, and the `file_dir` field.
- **Non-integer fills.** `fillna` with a `double` value renders through `%f` formatting, and `fillna` with a string is not modelled.
- **Aliasing and heap lifetime.**
  - The filter returns a fresh object. The source leaks it on the heap and returns a reference.
  - `operator[](string)` returns a copy of the column rather than a live reference.
- **Column** is a value. The in-place loops of `Column::fillna`, `DataFrame::fillna` and the filter update a copy and store it back.
- Frame.DataFrame.Parse: it requires that no data line has more fields than the header. The source then writes past the end of its column vector.
- Frame.DataFrame.DropNa: the source stores the `size_t` row positions in a `vector<int>` and shifts them by an `int` counter; the model keeps them as unbounded naturals, so it does not capture the corrupted erase positions past `INT_MAX` rows.
- Frame.DataFrame.DropNa: it requires that no column is shorter than the key column. The source can then erase past a column's end, but not always (a short column is safe when every missing key cell lies within it), so the requires is stronger than what definedness needs.
- Frame.DataFrame.Filter: it requires that every listed column is at least as long as the mask. It also requires a bounded mask length, `|mask| < SizeMax`.
- Csv.SaveToCsv: it requires every saved column to be at least as long as the first one. It models a failure as producing no text. When `col_data.at` throws for a missing name of `columns`, the source has already written the header, and possibly the start of the first data line (the row number and separator when `index` is set, then the cells of the names before the missing one); every data row looks up every saved name, so no complete data row is written before the throw. The length requires is stronger than definedness needs: it also excludes inputs where the source throws `out_of_range` during the first row before it reads the short column, for example the names `[a, zz, b]` with `zz` missing and `b` shorter than `a`.
- Csv.SaveToCsv: the lines read back are stated for every option (`SavedTextLines`, `OutputHeader`, `OutputLineAt`), but getting the cells back out of a line is proved only for the round trip with `index = false`, a comma separator and an empty `na_rep`.
- Columns.NumericMask: `stod`'s parse, including its acceptance of a numeric prefix such as `"5abc"`, and the double comparisons are parameters. So the mask is exact only relative to them.
- Columns.DtypeOfCases: `is_float` is a parameter. The only fact assumed about it is `FloatExtendsInteger`.
