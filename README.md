# SudokuValidator in Dafny

A model of the SudokuValidator command-line program. The program reads a text file, parses it into a 9x9 grid of digits and says whether the grid is a solved Sudoku. It prints "Yes, valid" when every row, column and 3x3 box holds each of the digits 1..9 once. Otherwise it prints "No, invalid".

The model follows the program's one source file, `SudokuValidator/Program.cs`, in four modules:

- `sudoku_rules.dfy` (module `SudokuRules`) holds the game rules the program checks:
  - the grid and its 27 units (nine rows, nine columns, nine boxes), with `Program.cs`'s box numbering `x + y * 3`;
  - what a solution is (no blank cell and no digit twice in a unit);
  - the proof that this is the same as every unit being a permutation of 1..9.
- `sudoku_parser.dfy` (module `SudokuParser`) models `ParseSudokuSolution`.
  - It has a pure specification, `Parse`. The text is split at `'\n'`. Every space, carriage return and `'0'` is deleted from each line, and lines left empty are dropped. Exactly nine lines must remain, each of exactly nine decimal digits.
  - The three `FormatException`s become the three `FormatError`s, with the row, column and character they report.
  - `ParseSudokuSolution` is the imperative method. It fills a fresh `array2<int>` row by row and column by column, as `Program.ParseSudokuSolution` does, and is proved to agree with `Parse`.
- `sudoku_validator.dfy` (module `SudokuValidator`) models `IsValidSolution`. There are three arrays of nine 32-bit masks, each starting at `0b1111111110`. For every cell, the bit `1 << digit` is XOR-ed into the masks of the cell's row, column and box. The method answers `false` as soon as a flip leaves the bit set.
  - The proof ties each mask to the set of digits its unit has already seen. A bit of digit `d` is set exactly when `d` is 1..9 and not yet seen.
  - The method is proved to answer `true` exactly when the grid is a solution.
- `sudoku_program.dfy` (module `SudokuProgram`) models `Main`:
  - the argument check and the file-existence check;
  - parsing and validation;
  - a caught format error, which becomes "No, invalid".

## Model

| member | source | states |
|---|---|---|
| SudokuRules.UnitIndex | SudokuValidator/Program.cs:92-94 | every cell's row, column and box index (box `column / 3 + (row / 3) * 3`) is one of the nine mask slots 0..8 |
| SudokuRules.UnitCellOf | SudokuValidator/Program.cs:92-94 | every cell (r, c) is the `PositionInUnit`-th cell of the unit it is assigned to, for rows, columns and boxes alike |
| SudokuRules.CellInUnit | SudokuValidator/Program.cs:88-94 | the t-th cell of unit u lies on the board and has unit index u and position t: the nine cells of a unit are exactly the cells the loop assigns to it |
| SudokuRules.GridOf | SudokuValidator/Program.cs:53 | the grid held by a 9x9 `int[,]`, cell for cell |
| SudokuRules.SolutionIffUnitsArePermutations | SudokuValidator/Program.cs:73-114 | a digit grid is a solution (no 0 and no repeat in any unit) exactly when all 27 rows, columns and boxes are permutations of 1..9 |
| SudokuRules.NoRepeatByUnits | SudokuValidator/Program.cs:97-109 | no two cells of a unit share a value exactly when every unit's nine values are distinct |
| SudokuRules.DistinctDigitsArePermutation | SudokuValidator/Program.cs:73-114 | nine values in 0..9 are pairwise distinct and non-zero exactly when they contain every digit 1..9 |
| SudokuRules.DistinctDigitsCover | SudokuValidator/Program.cs:73-114 | nine pairwise distinct values in 1..9 contain every digit 1..9 (counting argument) |
| SudokuRules.PermutationIsDistinct | SudokuValidator/Program.cs:73-114 | nine values containing all of 1..9 are pairwise distinct and non-zero |
| SudokuRules.UnitIsPermutation | SudokuValidator/Program.cs:73-114 | one unit is a permutation of 1..9 exactly when it holds no 0 and no repeat |
| SudokuRules.SameGrid | SudokuValidator/Program.cs:66 | two 9x9 grids that agree on every cell are equal |
| SudokuValidator.BitIsShift | SudokuValidator/Program.cs:95 | the mask bit of digit d is `1 << d` |
| SudokuValidator.UnseenBits | SudokuValidator/Program.cs:80-86 | the initial mask `0b1111111110` has the bit of d set exactly for d in 1..9 |
| SudokuValidator.Bit | SudokuValidator/Program.cs:95 | the single-bit mask `1 << d` of a digit 0..9, written out value by value; BitIsShift proves it equal to the shift and BitsDisjoint that the ten bits are distinct single bits |
| SudokuValidator.HasBit | SudokuValidator/Program.cs:100 | the test `(mask & bit) != 0` for the bit of digit d; FlipBit and UnseenBits state how it reacts to the XOR and to the initial mask |
| SudokuValidator.FlipBit | SudokuValidator/Program.cs:99-100 | XOR with the bit of x toggles bit x and leaves every other digit's bit unchanged |
| SudokuValidator.FlipStep | SudokuValidator/Program.cs:99-109 | after the XOR, the bit is set exactly when the digit is 0 or already seen in the unit; otherwise the new mask tracks the seen set plus the digit |
| SudokuValidator.FlipAndTest | SudokuValidator/Program.cs:99-101 | one XOR into one mask array slot and the `(mask & bit) != 0` test: only that slot changes, and the test reports a duplicate exactly when the digit is 0 or already seen |
| SudokuValidator.VisitUnit | SudokuValidator/Program.cs:95-109 | visiting a cell for one unit kind reports a duplicate exactly when the unit kind stops being repeat-free at this cell, and otherwise keeps every mask tracking its unit's seen digits |
| SudokuValidator.VisitCell | SudokuValidator/Program.cs:92-109 | one cell's three flips and tests: no duplicate exactly when rows, columns and boxes are all still repeat-free after the cell, with all three mask arrays still tracking |
| SudokuValidator.SeenStep | SudokuValidator/Program.cs:88-90 | visiting (r, c) in row-major order adds g[r][c] to the seen digits of the cell's own unit only |
| SudokuValidator.CleanStep | SudokuValidator/Program.cs:97-109 | a unit kind stays repeat-free after (r, c) exactly when it was before, the cell is non-zero, and its digit was not yet seen in its unit |
| SudokuValidator.VisitStep | SudokuValidator/Program.cs:97-109 | a duplicate at (r, c) means a zero or an already-seen digit; otherwise only the cell's unit's seen set grows, by the cell's digit |
| SudokuValidator.NextRow | SudokuValidator/Program.cs:88-90 | the end of one row of the loop is the start of the next |
| SudokuValidator.Start | SudokuValidator/Program.cs:80-86 | before the first cell nothing has been seen and every unit is repeat-free |
| SudokuValidator.StartMasks | SudokuValidator/Program.cs:80-86 | masks all equal to `0b1111111110` track units that have seen nothing |
| SudokuValidator.StoreTracks | SudokuValidator/Program.cs:99-109 | storing a tracking mask into one slot keeps every slot tracking |
| SudokuValidator.SolutionIsClean | SudokuValidator/Program.cs:97-113 | on a solution no prefix of the scan ever finds a duplicate |
| SudokuValidator.CleanAtEnd | SudokuValidator/Program.cs:113 | the scan finishes repeat-free in rows, columns and boxes exactly when the grid is a solution |
| SudokuValidator.CleanNoRepeat | SudokuValidator/Program.cs:113 | a unit kind repeat-free at the end of the scan has no repeat at all |
| SudokuValidator.IsValidSolution | SudokuValidator/Program.cs:73-114 | answers true exactly when the grid is a Sudoku solution |
| SudokuParser.Split | SudokuValidator/Program.cs:45 | splitting at '\n' yields at least one piece |
| SudokuParser.JoinSplit | SudokuValidator/Program.cs:45 | joining the pieces with '\n' gives the text back |
| SudokuParser.SplitJoin | SudokuValidator/Program.cs:45 | splitting the join of newline-free pieces gives the pieces back |
| SudokuParser.IsNoise | SudokuValidator/Program.cs:46 | the three alternatives of the regular expression, a space, a carriage return and '0': exactly the characters the replacement deletes |
| SudokuParser.Strip | SudokuValidator/Program.cs:46 | deleting spaces, CRs and '0's never lengthens a line |
| SudokuParser.StripIdempotent | SudokuValidator/Program.cs:46 | stripping twice is stripping once, and a line is unchanged by stripping exactly when it holds no space, CR or '0' |
| SudokuParser.StripConcat | SudokuValidator/Program.cs:46 | stripping distributes over concatenation |
| SudokuParser.StripAll | SudokuValidator/Program.cs:46 | every line is stripped, one for one |
| SudokuParser.DropEmptyConcat | SudokuValidator/Program.cs:47 | dropping empty lines distributes over concatenation |
| SudokuParser.DropEmpty | SudokuValidator/Program.cs:47 | the `Where(x => x.Length > 0)` filter; never yields more lines than it is given (DropEmptyOne and DropEmptyConcat pin it down: the non-empty lines, kept in order) |
| SudokuParser.DropEmptyOne | SudokuValidator/Program.cs:47 | on a single line the filter drops it exactly when it is empty and otherwise keeps it |
| SudokuParser.DropEmptyAllKept | SudokuValidator/Program.cs:47 | a list with no empty line passes the filter unchanged |
| SudokuParser.Lines | SudokuValidator/Program.cs:44-48 | the `lines` list: split, strip, drop empty; never more lines than pieces of the split |
| SudokuParser.LinesClean | SudokuValidator/Program.cs:44-48 | every retained line is non-empty and free of spaces, CRs and '0's |
| SudokuParser.IsDigit | SudokuValidator/Program.cs:62-63 | `int.TryParse` of a one-character string succeeds exactly for '0'..'9' |
| SudokuParser.CheckRow | SudokuValidator/Program.cs:56-64 | one retained line's check: a column-count error for row `row` exactly when its length is not 9, and otherwise only an invalid-character error of that row |
| SudokuParser.CheckRowsFrom | SudokuValidator/Program.cs:54-64 | the row loop from row i on: any error is a column-count or invalid-character error naming a row from i to the last line |
| SudokuParser.Parse | SudokuValidator/Program.cs:44-66 | the parser as a function of the text: a grid only when nine lines are retained, and then a digit grid; an error other than the row count names one of the nine retained rows |
| SudokuParser.DigitValue | SudokuValidator/Program.cs:62 | a decimal digit's value is 0..9, and 0 exactly for '0' |
| SudokuParser.CheckCharsFrom | SudokuValidator/Program.cs:60-64 | an invalid-character error names the row, a column at or after the start, and the character at that column |
| SudokuParser.CharsFromOk | SudokuValidator/Program.cs:60-64 | no character error from column j on exactly when every character from j on is a digit |
| SudokuParser.RowsFromOk | SudokuValidator/Program.cs:54-64 | no error in the rows from i on exactly when each of them is nine digits |
| SudokuParser.RowValues | SudokuValidator/Program.cs:66 | the nine digit values of a good row |
| SudokuParser.GridOfLines | SudokuValidator/Program.cs:53-66 | nine good rows become a digit grid whose r-th row is the values of the r-th line |
| SudokuParser.RowCountError | SudokuValidator/Program.cs:44-51 | the parse fails with a row-count error exactly when the number of retained lines is not nine |
| SudokuParser.ColumnCountError | SudokuValidator/Program.cs:54-58 | with nine lines, the parse fails with a column-count error for row i exactly when the rows before i are good and row i is not nine characters long |
| SudokuParser.InvalidCharError | SudokuValidator/Program.cs:54-64 | with nine lines, the parse fails on character ch at (i, j) exactly when all earlier rows are good, row i has nine characters, its characters before j are digits, and its j-th character ch is not a digit |
| SudokuParser.ErrorIsRowError | SudokuValidator/Program.cs:54-64 | the row checks never produce a row-count error: that one comes only from the line count |
| SudokuParser.FirstError | SudokuValidator/Program.cs:54-64 | the error reported is that of the first bad row, all rows before it being good |
| SudokuParser.FirstBadChar | SudokuValidator/Program.cs:60-64 | the character error reported is that of the first non-digit of the row |
| SudokuParser.ParseOk | SudokuValidator/Program.cs:44-66 | the parse succeeds exactly when nine lines remain and each is nine digits; then every cell is the value of its digit and lies in 1..9 |
| SudokuParser.WellFormedText | SudokuValidator/Program.cs:44-66 | nine lines of nine digits 1..9 joined with '\n' are retained line for line, and the text parses to the grid of their digits |
| SudokuParser.NoiseInsert | SudokuValidator/Program.cs:44-48 | inserting spaces, CRs and '0's anywhere in the text does not change the parse |
| SudokuParser.NoiseInsertPieces | SudokuValidator/Program.cs:45-46 | inserting spaces, CRs and '0's does not change the stripped lines |
| SudokuParser.BlankLineInsert | SudokuValidator/Program.cs:44-48 | inserting a line of only spaces, CRs and '0's between any two lines does not change the parse |
| SudokuParser.BlankLineDropped | SudokuValidator/Program.cs:44-48 | the same blank line leaves the retained lines unchanged |
| SudokuParser.BlankPieceDropped | SudokuValidator/Program.cs:46-47 | a blank piece strips to an empty line that is then dropped |
| SudokuParser.ParseByLines | SudokuValidator/Program.cs:44-48 | the parse depends on the text only through its retained lines |
| SudokuParser.ParseRow | SudokuValidator/Program.cs:60-67 | the inner loop fills one row with its digit values and reports exactly the row's first invalid character; no other row changes |
| SudokuParser.ParseSudokuSolution | SudokuValidator/Program.cs:42-71 | fails with exactly the error of `Parse`, and otherwise returns a fresh 9x9 array holding `Parse`'s grid |
| SudokuProgram.Decide | SudokuValidator/Program.cs:25-37 | the answer is "Yes, valid" exactly when the text parses and every row, column and box of the grid is a permutation of 1..9 |
| SudokuProgram.DecideIgnoresNoise | SudokuValidator/Program.cs:23-29 | inserting spaces, CRs and '0's into the file does not change the answer |
| SudokuProgram.MalformedIsInvalid | SudokuValidator/Program.cs:31-37 | a text without nine retained lines of nine digits is answered "No, invalid" |
| SudokuProgram.WellFormedDecide | SudokuValidator/Program.cs:25-29 | for nine lines of nine digits 1..9 joined with `'\n'`, the answer is "Yes, valid" exactly when the grid of its digits is a Sudoku solution |
| SudokuProgram.Run | SudokuValidator/Program.cs:10-38 | a wrong number of arguments or a missing file ends in an argument error; otherwise the printed answer is `Decide` of the file's text |

## Left out

- Console output is modelled as the `Verdict` returned; the printed strings are not modelled. File reading is modelled as a lookup in a map from file names to contents.
- The `showErrors` rethrow of a `FormatException` is left out: `showErrors` is the constant `false`, so the catch always prints "No, invalid".
- Exceptions are modelled as values: `FormatException` as `Err(FormatError)`, and the escaping `ArgumentException` as `ArgumentError`. The exception messages are not modelled.
- Regular-expression and `int.TryParse` internals are out of scope. The replacement of `" |\r|0"` is modelled as deleting each space, CR and '0' character. `int.TryParse` of a one-character string is modelled as succeeding exactly for '0'..'9', with its value.
- SudokuParser.CheckRow, SudokuParser.ColumnCountError and SudokuParser.InvalidCharError: a Dafny `string` is a sequence of Unicode scalar values, while C#'s `line.Length` and `line[columnIndex]` count UTF-16 code units. For a retained line holding a character outside the Basic Multilingual Plane, which C# sees as two surrogate code units, the model's length, the column of the invalid character and the character reported can differ from the program's. For example, `"1234567"` followed by U+1D7D7 is a column-count error in the model but an invalid-character error at column 7 on the high surrogate in the program. Both fail on such a line, and neither a surrogate nor such a character is a digit, so the "No, invalid" answer is the same.
- SudokuValidator.IsValidSolution: it requires every cell to be in 0..9. That is all the parser can produce. For other values, C#'s `1 << v` uses only the low five bits of `v`, and that is not modelled.
- SudokuValidator.VisitUnit: the bit `1 << digit` is recomputed for each of the three units instead of once per cell. The value is the same.
- SudokuValidator.VisitCell: the contract says what the three mask arrays mean (each tracks the digits its units have seen). It does not give their exact new contents, which VisitUnit and FlipAndTest state per flip.
