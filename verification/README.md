# grider formula engine in Dafny

A model of the core of grider, a terminal spreadsheet written in Go: cell names, the formula
evaluator, the resolver that turns a cell reference into a value, the grid maintenance behind
the editing keys, and the two on-disk layouts of a sheet.

- `Text` models the standard-library string and number helpers the core relies on
  (`strings.TrimSpace`, `strings.Split`, `strings.ToUpper`, `strconv.Atoi`, `%d`).
- `Grid` models `internal/grid/grid.go`: the bijective base-26 column names, cell names and
  `ParseCellRef` with its sheet prefix, `$` removal, case folding and error cases.
- `Numeric` models the part of `strconv.ParseFloat` that formulas and cells use, and the
  `ROUND` arithmetic (`math.Round` rounds halves away from zero).
- `Calc` models `internal/calc/calc.go`: the recursive-descent parser that evaluates as it
  parses (sums, products, signed factors, parentheses, numbers, cell references) and the
  functions SUM, AVERAGE, MIN, MAX, COUNT, ROUND, IF, AND, OR and NOT, whose arguments are cut
  out of the text and evaluated by a sub-parser. Values are `real`, errors are the codes
  `#REF`, `#DIV/0`, `#CYCLE` and `#ERR`. The resolver is a parameter of type
  `string -> Val`, as it is in the program.
- `CalcSpec` is an independent reference semantics: an expression tree `Expr`, its value
  `Eval` and a printer `ShowSum`. Its lemmas prove that the parser computes `Eval` on every
  printed tree, and the error code on the malformed texts around one.
- `CalcCalls`, `CalcLogic` and `CalcRange` prove the same for calls: the list functions over
  printed arguments and over `A1:B3` ranges, ROUND, IF, AND, OR and NOT.
- `App` models the resolver and cycle guard of `internal/app/app.go`, `GetDisplayText`,
  `EnsureColExists`/`EnsureRowExists`, `SetCellValue`, committing an edit, the F2–F5 keys
  (insert row, insert column, delete row, delete column), `splitLines` and `chunkString`.
- `Storage` models `internal/storage/storage.go`: the `"r,c"` key codec, the conversions
  between the grid and the document's string-keyed grid, the dense CSV layout written by
  `SaveCSV` and the cells `LoadCSV` extracts from it.

The resolver's evaluation stack is a set passed by value. The program pushes a cell before it
evaluates that cell's formula and pops it afterwards, so every caller sees the stack it passed.
Termination of the mutual recursion between the resolver and the evaluator follows from the
number of grid cells not yet on the stack.

AND and OR skip the remaining arguments once one argument decides the result. The program
resumes at the first `)` that follows, at any depth. `Calc` takes the skip rule as part of its
environment (`SkipRule`). `App` evaluates with the program's rule, `FirstClose`. The rule that
resumes after the call's own `)` is `MatchingClose`; see "## Findings".

## Model

| member | source | states |
|---|---|---|
| Grid.ColToName | internal/grid/grid.go:14-27 | `?` for a negative column; otherwise a non-empty upper-case name whose bijective base-26 value is `col + 1` |
| Grid.ColRowToName | internal/grid/grid.go:29-39 | the column's letters followed by the decimal of `row + 1`; only the digits for a negative column |
| Grid.ParseCellRef | internal/grid/grid.go:73-77 | a parsed reference never has a negative row or column; the stripping of the text is stated by Grid.ParseCellRefSheet and Grid.ParseCellRefDollar |
| Grid.ParseCellRefSheet | internal/grid/grid.go:44-48 | a sheet prefix is ignored: `p!n` parses as `n` when `n` holds no `!`, whatever `p` is |
| Grid.ParseCellRefDollar | internal/grid/grid.go:44-50 | inserting a `$` anywhere into a name without `!` and without white space at its ends does not change what it parses to |
| Grid.ParseCellRefFails | internal/grid/grid.go:51-76 | parsing fails exactly when there are no leading letters, no rest, a rest `Atoi` rejects, or a row number below 1 |
| Grid.ParseCellRefInverse | internal/grid/grid.go:62-68 | the upper-cased letters of a parsed name are the name of the column it parsed to |
| Grid.RefRoundTrip | internal/grid/grid.go:29-78 | parsing the name of any cell of an int64 sheet gives back that cell |
| Grid.ColToNameInjective | internal/grid/grid.go:14-27 | different columns have different names |
| Grid.ColToNameMonotone | internal/grid/grid.go:14-27 | a larger column has a longer name, or an equally long and alphabetically larger one |
| Grid.ParseCellRefCaseInsensitive | internal/grid/grid.go:44-62 | upper-casing a name does not change what it parses to |
| Numeric.ParseFloatOfDecimal | internal/app/app.go:991-995 | the decimal text of a natural number parses to that number |
| Numeric.RoundHalfAwayUnique | internal/calc/calc.go:824-825 | the rounding is within a half, and at a tie it lies farther from zero; only one integer meets both |
| Numeric.RoundTo | internal/calc/calc.go:823-825 | ROUND's result is a whole number of units of the last kept decimal place: scaled back up it is `math.Round` of the scaled value, so it lies within half a unit of the value |
| Numeric.RoundScaled | internal/calc/calc.go:823-825 | the core of ROUND for a scale `m` (ten to the places): the result times `m` is `math.Round` of the value times `m`, and it lies within half a step `1 / m` of the value |
| Numeric.RoundToUnique | internal/calc/calc.go:823-825 | a multiple of the last kept place that lies within half a unit of the value, and farther from zero at a tie, is the rounded value |
| CalcSpec.EvalShown | internal/calc/calc.go:13-203 | the evaluator gives every printed expression tree its reference value, or the first error in evaluation order (`#DIV/0` for a zero divisor, the resolver's code for a reference) |
| CalcSpec.SubShown | internal/calc/calc.go:48-149 | the sub-parser used for arguments agrees with the reference value on every printed tree |
| CalcSpec.EvalCellName | internal/calc/calc.go:184-199 | a formula that is a cell name has exactly the resolver's answer for that name |
| CalcSpec.LeftoverText | internal/calc/calc.go:25-28 | a complete formula followed by a stray `)` is `#ERR`, unless evaluation already failed |
| CalcSpec.UnclosedParen | internal/calc/calc.go:137-146 | a `(` never closed is `#ERR`, unless the inside already failed |
| CalcSpec.MissingOperand | internal/calc/calc.go:131-135 | a sum with nothing after its last `+` or `-` is `#ERR`, unless the left side already failed |
| CalcSpec.EmptyFormula | internal/calc/calc.go:131-135 | the empty formula is `#ERR` |
| CalcCalls.ListFormula | internal/calc/calc.go:211-720 | SUM, AVERAGE, MIN, MAX and COUNT over printed arguments, in any letter case, equal the reference fold: the first error aborts, AVERAGE/MIN/MAX of nothing is 0, COUNT counts the arguments that have a value |
| CalcCalls.ValuesFromMeans | internal/calc/calc.go:273-302 | the values are collected in order when every argument has one; otherwise the result is the first argument's error |
| CalcCalls.CountFromMeans | internal/calc/calc.go:675-703 | COUNT equals the number of arguments exactly when all have a value, and 0 exactly when all fail |
| CalcCalls.EmptyCall | internal/calc/calc.go:213-218 | `SUM()`, `AVERAGE()`, `MIN()`, `MAX()`, `COUNT()` and `OR()` are 0 and `AND()` is 1 (the same opening check as SUM's recurs at 971-976 and 1046-1051) |
| CalcCalls.EmptyCallFails | internal/calc/calc.go:722-726 | `ROUND()`, `IF()` and `NOT()` are `#ERR` (IF and NOT open with the same check at 827-831 and 1121-1125) |
| CalcCalls.UnknownFunction | internal/calc/calc.go:1179-1180 | a call of any other name is `#ERR` |
| CalcCalls.BareName | internal/calc/calc.go:1184-1192 | letters without digits or `(` are `#REF` |
| CalcCalls.WholeCall | internal/calc/calc.go:196-210 | a formula that is one call has the call's value if the call ends the text and is `#ERR` if a `)` follows it |
| CalcCalls.ArgItemsShown | internal/calc/calc.go:246-288 | an argument that is a printed expression contributes its value (for COUNT: a mark when it has one) |
| CalcRange.RangeShape | internal/calc/calc.go:246-262 | a range covers the rectangle between its corners in row-major order: `(rmax-rmin+1)*w` cells, the `i`-th at `(rmin + i/w, cmin + i%w)` |
| CalcRange.RangeCovers | internal/calc/calc.go:253-262 | every cell inside the rectangle appears in the range at its row-major index |
| CalcRange.ResolveAllMeans | internal/calc/calc.go:259-268 | a range yields every cell's value in order when all are numbers, and otherwise the first failing cell's error |
| CalcRange.CountCellsAll | internal/calc/calc.go:659-670 | COUNT counts every cell of a range exactly when each is a number or `#CYCLE` |
| CalcRange.CountCellsNone | internal/calc/calc.go:659-670 | COUNT of a range is 0 exactly when no cell is a number or `#CYCLE` |
| CalcRange.CountCellsAppend | internal/calc/calc.go:659-670 | counting distributes over concatenated cell lists |
| CalcRange.CountCellsOne | internal/calc/calc.go:662-668 | a single cell counts once when it is a number or `#CYCLE`, and not at all otherwise |
| CalcRange.RangeCornersOf | internal/calc/calc.go:246-254 | the text `LEFT:RIGHT` built from two cell names splits back into those two cells |
| CalcRange.RangeFormula | internal/calc/calc.go:246-271 | a list function over one range equals the fold over the range's cells; COUNT counts the number and `#CYCLE` cells |
| CalcRange.CountWholeRange | internal/calc/calc.go:611-720 | COUNT over a range whose cells all count is the rectangle's area |
| CalcRange.SumRange | internal/calc/calc.go:211-304 | `SUM(A:B)` is a number exactly when every cell is one, the sum of the cell values in order; otherwise a failing cell's code |
| CalcLogic.IfFormula | internal/calc/calc.go:826-969 | `IF(c,t,f)` is `t` when `c` is farther than the tolerance from zero and `f` otherwise; an error in `c` wins and the other branch is not looked at |
| CalcLogic.IfNoElseFormula | internal/calc/calc.go:935-953 | a missing else branch reads as 0 |
| CalcLogic.IfOneArgFormula | internal/calc/calc.go:873-876 | `IF(c)` is `#ERR` unless `c` already failed |
| CalcLogic.NotFormula | internal/calc/calc.go:1120-1178 | `NOT(x)` is 1 when `x` is within the tolerance of zero and 0 otherwise; an error passes through |
| CalcLogic.NotTwoArgsFormula | internal/calc/calc.go:1167-1172 | NOT with a second argument is `#ERR` unless the first already failed |
| CalcLogic.RoundFormula | internal/calc/calc.go:721-825 | `ROUND(x,d)` is the value of `x` rounded half away from zero to the places of `d`: scaled by ten to those places it is `math.Round` of `x` scaled alike, within half a unit of the last place; errors pass through, `x` first |
| CalcLogic.RoundOneFormula | internal/calc/calc.go:768-825 | `ROUND(x)` rounds to a whole number, halves away from zero |
| CalcLogic.LogicFromMeans | internal/calc/calc.go:1018-1028 | the AND/OR fold gives the neutral value exactly when no argument decides it; an error comes from the first failing argument before any deciding one |
| CalcLogic.LogicFormula | internal/calc/calc.go:970-1119 | AND and OR over printed arguments equal the fold that stops at the first deciding argument, whenever the skip reaches the call's `)`: always when it skips to the matching `)`, and under the program's first-`)` skip when no argument after a deciding one holds a `)` |
| CalcLogic.FirstCloseMisreadsNested | internal/calc/calc.go:1019-1027 | with the program's skip, `AND(0,-(1+2))` is `#ERR` |
| CalcLogic.MatchingCloseReadsNested | internal/calc/calc.go:1019-1027 | skipping to the call's own `)`, `AND(0,-(1+2))` is 0 |
| App.NewSheet | internal/app/app.go:82-87 | a new sheet has no cells and eight columns and rows of the default size |
| App.Resolve | internal/app/app.go:966-970 | a name that does not parse is `#REF`; otherwise the cell it names is resolved |
| App.ResolveAt | internal/app/app.go:971-995 | out of extents is `#REF`, on the stack is `#CYCLE`, absent or empty is 0, a literal is its number or `#ERR` |
| App.Literal | internal/app/app.go:991-995 | a literal cell is a number exactly when it parses as one, and `#ERR` otherwise |
| App.ResolveFormula | internal/app/app.go:985-990 | a formula cell off the stack is evaluated with the cell pushed |
| App.ResolveName | internal/app/app.go:966-990 | resolving, or evaluating, the name of a cell resolves that cell |
| App.SelfReference | internal/app/app.go:956-980 | a cell whose formula names itself shows `#CYCLE` |
| App.CycleFrom | internal/app/app.go:956-990 | following a reference cycle with the cells already visited on the stack, evaluation ends in `#CYCLE`: each step pushes a cell not yet on the stack, and the last names the first |
| App.ReferenceCycle | internal/app/app.go:956-990 | every cell of a reference cycle of any length, each formula naming the next cell and the last the first, shows `#CYCLE` |
| App.MutualReference | internal/app/app.go:956-990 | two cells whose formulas name each other show `#CYCLE` (the cycle of length two) |
| App.ReferenceToNumber | internal/app/app.go:985-1001 | a formula naming a number cell shows that number |
| App.ReferenceToEmpty | internal/app/app.go:971-984 | a formula naming an empty cell shows 0, or `#REF` beyond the extents |
| App.ShowVal | internal/app/app.go:998-1001 | a number is shown as that number and an error as its code, which starts with `#` |
| App.ShowValInjective | internal/app/app.go:998-1001 | the text shown for an error names it: no two error codes share a text, and no error shows as a number |
| App.GetDisplayText | internal/app/app.go:942-1001 | an absent or empty cell shows nothing, plain text shows verbatim, a formula shows its value or error code, evaluated with the cell on the stack |
| App.EnsureColExists | internal/app/app.go:653-657 | column `idx` exists afterwards, old widths are kept, new ones are the default, nothing else changes |
| App.EnsureRowExists | internal/app/app.go:659-663 | row `idx` exists afterwards, old heights are kept, new ones are the default, nothing else changes |
| App.SetCellValue | internal/app/app.go:404-409 | the cursor cell holds the value, the grid is otherwise unchanged and every cell stays within the extents; the widths and heights keep their entries and grow by defaults just far enough to reach the cursor |
| App.Commit | internal/app/app.go:106-121 | a non-empty buffer is stored and an empty one deletes the cursor cell; with advance the cursor moves down into an existing row; widths grow by defaults to the cursor column only when storing, heights to the final cursor row only when storing or advancing, and are otherwise unchanged |
| App.InsertColumn | internal/app/app.go:259-279 | a default-width column appears after the cursor's; cells at or right of it move one column right |
| App.InsertRowAsWritten | internal/app/app.go:249-258 | a default-height row appears after the cursor's, no cell moves and the cursor stays |
| App.InsertRowAsWrittenMisplaces | internal/app/app.go:249-258 | on a concrete sheet the row insert leaves a cell in the new row, where the shifting insert leaves that row empty |
| App.InsertRow | internal/app/app.go:259-279 | the row insert with the cell shift that the column insert performs |
| App.ShiftRowsMoves | internal/app/app.go:269-279 | after the shift, every cell is found at its shifted key with its contents |
| App.DeleteRow | internal/app/app.go:280-300 | the cursor row's height and cells go, lower rows move up, and the cursor is kept within the rows |
| App.DeleteColumn | internal/app/app.go:301-322 | the cursor column's width and cells go, later columns move left, and the cursor is kept within the columns |
| App.SplitLines | internal/app/app.go:678-698 | no lines for a non-positive count; otherwise exactly that many, the text's lines padded with empty ones |
| App.ChunkString | internal/app/app.go:829-841 | the chunks concatenate to the text, none is empty or longer than the size, and all but the last are full |
| Storage.KeyToString | internal/storage/storage.go:23-25 | the comma sits right after the row's digits |
| Storage.KeyRoundTrip | internal/storage/storage.go:23-31 | decoding an encoded key gives back the key |
| Storage.StringToKeyCanonical | internal/storage/storage.go:23-31 | a string that decodes is the encoding of what it decodes to |
| Storage.KeyToStringInjective | internal/storage/storage.go:23-25 | different keys are encoded differently |
| Storage.ToDocument | internal/storage/storage.go:81-87 | the document holds exactly the encoded keys of the grid, each with its cell |
| Storage.ToDocumentSize | internal/storage/storage.go:81-87 | no two cells collide in the document |
| Storage.FromDocument | internal/storage/storage.go:90-100 | conversion fails exactly when some key does not decode; otherwise the grid holds exactly the decoded keys with their cells |
| Storage.DocumentRoundTrip | internal/storage/storage.go:81-100 | converting a grid to a document and back gives the grid |
| Storage.GridRoundTrip | internal/storage/storage.go:81-100 | converting a document that converts to a grid and back gives the document |
| Storage.Extents | internal/storage/storage.go:38-46 | the scan finds the largest row and column, or -1 when there are none |
| Storage.Dense | internal/storage/storage.go:55-66 | `maxR + 1` rows of `maxC + 1` fields, each the cell's text or empty |
| Storage.SaveLayout | internal/storage/storage.go:38-66 | an empty grid gives no rows; otherwise the dense layout up to the largest row and column |
| Storage.LayoutEmpty | internal/storage/storage.go:47-54 | the empty file is written exactly when the grid has no cells |
| Storage.Extract | internal/storage/storage.go:117-124 | the loaded grid holds exactly the non-empty fields, at their row and column |
| Storage.LoadGrid | internal/storage/storage.go:117-134 | the loaded grid is the extraction, with its largest row and column, both -1 exactly when it is empty |
| Storage.LayoutRoundTrip | internal/storage/storage.go:38-134 | reading the non-empty fields back out of the dense rows written for a grid gives exactly its non-empty cells, at their rows and columns |

## Left out

- Terminal drawing, key dispatch, popups, the status line, the viewport, commands, and file and
  JSON input and output. Only the logic listed above is modelled.
- Grid.ParseCellRef: does not model int64 wrap-around. A row of `MinInt64` wraps to `MaxInt64`
  in the program but is rejected here. A column name whose value exceeds `MaxInt64` (some
  fourteen-letter names, every name of fifteen or more letters) overflows the accumulator in the
  program but is read exactly here.
- Grid.RefOfParts: the same int64 wrap-around is not modelled.
- Grid.ColRowToName: `row + 1` and `col + 1` wrapping at `MaxInt64` are not modelled. The name
  is built from the unbounded values.
- Grid.ColToName: `col + 1` wrapping to a negative number at `MaxInt64` is not modelled. The
  name of that column is read with unbounded integers.
- Numeric.RoundTo: scales by ten to the power of the floor of the places, not by
  `math.Pow(10, places)`. The two agree on whole numbers of places, and the model does not
  promise the program's result for fractional places.
- Numeric.ParseFloat: accepts the decimal forms digits, `.`, digits, and an optional exponent,
  with an optional sign. Hexadecimal floats, `inf`, `nan`, underscores and range errors are not
  modelled.
- Text.TrimSpace: trims the ASCII white space only, not the other Unicode spaces.
- Text.IsSpace: the same ASCII-only restriction.
- App.ChunkString: cuts the text per character, where the program cuts per rune. A character
  here stands for a byte of the text, so multi-byte runes are not kept whole. Its size must be
  positive: the program loops forever on size 0 and panics on a negative size.
- App.GetDisplayText: a value is shown as a number, not as the digits the program prints
  (`%.0f` near whole numbers, otherwise six decimals with trailing zeros cut). The NaN and
  infinity checks (also at internal/calc/calc.go:29-32) have no counterpart, since values are
  exact reals.
- Calc.EvalExprForCell: floating-point rounding, overflow to infinity and NaN are not modelled;
  values are exact reals.
- The nil-resolver branch of the evaluator (internal/calc/calc.go:1195-1197) is left out. The
  resolver is always supplied.
- Storage.StringToKey: decodes only the canonical `"r,c"` form with integers in the int64
  range. The leniency of `Sscanf` (spaces, a leading `+`, leading zeros, trailing text) is not
  modelled.
- CSV quoting and file creation around the layout in `SaveCSV` and `LoadCSV` are left out.
- Storage.LayoutRoundTrip: holds for the rows of fields, not for the CSV file. With a single
  column, an empty row is one empty field, which the CSV writer puts out as a blank line, and
  the CSV reader skips blank lines. So a one-column grid with an empty row between filled ones
  loads with its later cells moved up: `{(0,0): "a", (2,0): "b"}` is written as `a`, a blank
  line, `b`, and loads as `{(0,0): "a", (1,0): "b"}`. The model reads rows, not lines, and does
  not show this loss.

## Findings

| source | as written | input that shows it | evidently intended | confidence | as-written member | corrected member |
|---|---|---|---|---|---|---|
| internal/calc/calc.go:1019-1027, 1095-1101 | once an argument decides AND or OR, the parser resumes after the first `)` at any depth | `=AND(0,-(1+2))` stops inside `-(1+2)`, leaves `)` unread and the formula is `#ERR` | resume after the `)` that closes the call, giving 0 | not executed | CalcLogic.FirstCloseMisreadsNested | CalcLogic.MatchingCloseReadsNested, CalcLogic.LogicFormula |
| internal/app/app.go:249-258 | F2 ("add row after current") inserts a row height but moves no cell, unlike the column insert at 259-279 | a cell in row 2 with the cursor on row 1: after F2 it sits in the new empty row | cells at or below the new row move down one row | not executed | App.InsertRowAsWritten, App.InsertRowAsWrittenMisplaces | App.InsertRow, App.ShiftRowsMoves |
