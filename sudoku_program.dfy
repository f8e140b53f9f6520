/** The command-line program: it takes one file name, reads the file, parses
    it as a grid and validates the grid, answering "Yes, valid" or "No,
    invalid". A format error in the file is an invalid answer, not a
    failure; wrong arguments or a missing file are a failure. The file
    system is a map from file names to file contents. */
module SudokuProgram {
  import opened SudokuRules
  import opened SudokuParser
  import opened SudokuValidator

  /** The two answers the program prints: "Yes, valid" and "No, invalid". */
  datatype Verdict = YesValid | NoInvalid

  /** How a run ends: with a printed answer, or with an argument error that
      escapes (a wrong number of arguments, or a file that does not exist). */
  datatype Outcome = Answer(verdict: Verdict) | ArgumentError

  /** The answer for a file's text. "Yes, valid" exactly when the text
      parses and every row, column and box of its grid holds each of the
      digits 1..9 once. */
  ghost function Decide(text: string): (v: Verdict)
    ensures v == YesValid <==>
      Parse(text).Ok? &&
      forall u :: 0 <= u < 9 ==>
        IsPermutationOfDigits(UnitCells(Parse(text).value, Row, u)) &&
        IsPermutationOfDigits(UnitCells(Parse(text).value, Column, u)) &&
        IsPermutationOfDigits(UnitCells(Parse(text).value, Box, u))
  {
    ParseOk(text);
    if Parse(text).Err? then NoInvalid
    else
      SolutionIffUnitsArePermutations(Parse(text).value);
      if IsSolution(Parse(text).value) then YesValid else NoInvalid
  }

  /** Noise inserted into the file's text does not change the answer. */
  lemma DecideIgnoresNoise(a: string, noise: string, b: string)
    requires forall i :: 0 <= i < |noise| ==> IsNoise(noise[i])
    ensures Decide(a + noise + b) == Decide(a + b)
  {
    NoiseInsert(a, noise, b);
  }

  /** A text with the wrong number of retained lines, or with a line that is
      not nine digits, is answered "No, invalid". */
  lemma MalformedIsInvalid(text: string)
    requires |Lines(text)| != 9 || exists r :: 0 <= r < 9 && r < |Lines(text)| && !RowOk(Lines(text)[r])
    ensures Decide(text) == NoInvalid
  {
    ParseOk(text);
  }

  /** For a text of nine lines of nine digits 1..9, the answer is "Yes,
      valid" exactly when the grid of those digits is a Sudoku solution. */
  lemma WellFormedDecide(rows: seq<string>)
    requires |rows| == 9
    requires forall i :: 0 <= i < 9 ==> |rows[i]| == 9 && forall j :: 0 <= j < 9 ==> '1' <= rows[i][j] <= '9'
    ensures Decide(Join(rows)) == YesValid <==> IsSolution(GridOfLines(rows))
  {
    WellFormedText(rows);
  }

  /** The program's main routine over the given arguments and file system:
      check the arguments, read the file, parse it, and validate the grid.
      A format error is caught and answered "No, invalid". */
  method Run(args: seq<string>, files: map<string, string>) returns (o: Outcome)
    ensures o == if |args| != 1 || args[0] !in files then ArgumentError else Answer(Decide(files[args[0]]))
  {
    if |args| != 1 {
      return ArgumentError;
    }
    var fileName := args[0];
    if fileName !in files {
      return ArgumentError;
    }
    var sudokuText := files[fileName];
    var parsed := ParseSudokuSolution(sudokuText);
    ParseOk(sudokuText);
    if parsed.Err? {
      return Answer(NoInvalid);
    }
    var parsedSudoku := parsed.value;
    var valid := IsValidSolution(parsedSudoku);
    if valid {
      return Answer(YesValid);
    } else {
      return Answer(NoInvalid);
    }
  }
}
