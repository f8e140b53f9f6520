/** The lenient text-to-grid parser. The text is split into lines at '\n';
    every space, carriage return and '0' is deleted from each line; lines
    left empty are dropped. Exactly nine lines of exactly nine decimal digits
    must remain, and they become the nine rows of the grid. Each way of
    failing is a distinct format error, and the first one met in reading
    order is the one reported. */
module SudokuParser {
  import opened SudokuRules

  /** Why a text is not a grid. Rows and columns count the retained lines
      and the characters left in them, from 0. */
  datatype FormatError =
    | RowCount
    | ColumnCount(row: int)
    | InvalidChar(row: int, column: int, ch: char)

  datatype Option<T> = None | Some(value: T)

  datatype Result<T> = Ok(value: T) | Err(error: FormatError)

  // Line normalisation: split, strip, drop empty lines.

  /** The pieces of s between the '\n' characters (one more piece than
      there are '\n's; pieces may be empty). */
  function Split(s: string): (pieces: seq<string>)
    ensures |pieces| >= 1
  {
    if s == [] then [[]]
    else
      var rest := Split(s[1..]);
      if s[0] == '\n' then [[]] + rest
      else [[s[0]] + rest[0]] + rest[1..]
  }

  /** The pieces put back together with a '\n' between neighbours: the
      inverse of Split. */
  function Join(pieces: seq<string>): string
    requires |pieces| >= 1
  {
    if |pieces| == 1 then pieces[0] else pieces[0] + ['\n'] + Join(pieces[1..])
  }

  /** A character other than '\n' put in front of the first piece is put
      in front of the joined text. */
  lemma {:induction false} JoinFirst(ch: char, pieces: seq<string>)
    requires |pieces| >= 1 && ch != '\n'
    ensures Join([[ch] + pieces[0]] + pieces[1..]) == [ch] + Join(pieces)
  {
    if |pieces| > 1 {
      assert ([[ch] + pieces[0]] + pieces[1..])[1..] == pieces[1..];
    }
  }

  /** Joining the pieces of s gives s back. */
  lemma {:induction false} JoinSplit(s: string)
    ensures Join(Split(s)) == s
  {
    if s != [] {
      var rest := Split(s[1..]);
      JoinSplit(s[1..]);
      if s[0] == '\n' {
        assert ([[]] + rest)[1..] == rest;
      } else {
        JoinFirst(s[0], rest);
      }
    }
  }

  /** Splitting joined pieces that hold no '\n' gives the pieces back. */
  lemma {:induction false} SplitJoin(pieces: seq<string>)
    requires |pieces| >= 1
    requires forall i :: 0 <= i < |pieces| ==> '\n' !in pieces[i]
    ensures Split(Join(pieces)) == pieces
  {
    if |pieces| == 1 {
      SplitPiece(pieces[0]);
    } else {
      SplitJoin(pieces[1..]);
      SplitPrefix(pieces[0], Join(pieces[1..]));
      assert [pieces[0]] + pieces[1..] == pieces;
    }
  }

  /** A string with no '\n' is a single piece. */
  lemma {:induction false} SplitPiece(p: string)
    requires '\n' !in p
    ensures Split(p) == [p]
  {
    if p != [] {
      assert p[0] in p && [p[0]] + p[1..] == p;
      SplitPiece(p[1..]);
      SplitCons(p[0], p[1..]);
    }
  }

  /** How Split handles the first character of a text. */
  lemma SplitCons(ch: char, t: string)
    ensures Split([ch] + t) ==
      if ch == '\n' then [[]] + Split(t) else [[ch] + Split(t)[0]] + Split(t)[1..]
  {
    assert ([ch] + t)[0] == ch && ([ch] + t)[1..] == t;
  }

  /** A piece with no '\n' followed by '\n' and a text t splits into that
      piece followed by the pieces of t. */
  lemma {:induction false} SplitPrefix(p: string, t: string)
    requires '\n' !in p
    ensures Split(p + ['\n'] + t) == [p] + Split(t)
  {
    if p == [] {
      assert p + ['\n'] + t == ['\n'] + t;
      assert (['\n'] + t)[1..] == t;
    } else {
      SplitPrefix(p[1..], t);
      assert (p + ['\n'] + t)[1..] == p[1..] + ['\n'] + t;
      assert [p[0]] + p[1..] == p;
    }
  }

  /** The characters the parser deletes from every line. */
  predicate IsNoise(ch: char) {
    ch == ' ' || ch == '\r' || ch == '0'
  }

  /** The line with every space, carriage return and '0' deleted, the rest
      kept in order. */
  function Strip(line: string): (r: string)
    ensures |r| <= |line|
  {
    if line == [] then []
    else if IsNoise(line[0]) then Strip(line[1..])
    else [line[0]] + Strip(line[1..])
  }

  /** Stripping distributes over concatenation. */
  lemma {:induction false} StripConcat(a: string, b: string)
    ensures Strip(a + b) == Strip(a) + Strip(b)
  {
    if a == [] {
      assert a + b == b;
    } else {
      assert (a + b)[0] == a[0] && (a + b)[1..] == a[1..] + b;
      StripConcat(a[1..], b);
      if !IsNoise(a[0]) {
        assert [a[0]] + Strip(a[1..]) + Strip(b) == [a[0]] + (Strip(a[1..]) + Strip(b));
      }
    }
  }

  /** How Strip handles the first character of a line. */
  lemma StripCons(ch: char, t: string)
    ensures Strip([ch] + t) == if IsNoise(ch) then Strip(t) else [ch] + Strip(t)
  {
    assert ([ch] + t)[0] == ch && ([ch] + t)[1..] == t;
  }

  /** Stripping a stripped line changes nothing, and a line is unchanged by
      stripping exactly when it holds no noise. */
  lemma {:induction false} StripIdempotent(line: string)
    ensures Strip(Strip(line)) == Strip(line)
    ensures Strip(line) == line <==> forall i :: 0 <= i < |line| ==> !IsNoise(line[i])
  {
    if line != [] {
      StripIdempotent(line[1..]);
      if !IsNoise(line[0]) {
        assert ([line[0]] + Strip(line[1..]))[1..] == Strip(line[1..]);
        if Strip(line[1..]) == line[1..] {
          assert [line[0]] + line[1..] == line;
        }
        forall i | 1 <= i < |line| ensures line[i] == line[1..][i - 1] {
        }
      } else {
        assert line[0] in line;
        if Strip(line) == line {
          assert |Strip(line[1..])| <= |line[1..]| < |line|;
        }
      }
    }
  }

  /** Each piece stripped (LINQ's `Select` over the split lines). */
  function StripAll(pieces: seq<string>): (r: seq<string>)
    ensures |r| == |pieces| && forall i :: 0 <= i < |r| ==> r[i] == Strip(pieces[i])
  {
    seq(|pieces|, i requires 0 <= i < |pieces| => Strip(pieces[i]))
  }

  /** The lines that are not empty, in order (LINQ's `Where(x => x.Length > 0)`);
      never more lines than it is given. */
  function DropEmpty(lines: seq<string>): (r: seq<string>)
    ensures |r| <= |lines|
  {
    if lines == [] then []
    else if lines[0] == [] then DropEmpty(lines[1..])
    else [lines[0]] + DropEmpty(lines[1..])
  }

  /** Dropping empty lines distributes over concatenation. */
  lemma {:induction false} DropEmptyConcat(a: seq<string>, b: seq<string>)
    ensures DropEmpty(a + b) == DropEmpty(a) + DropEmpty(b)
  {
    if a == [] {
      assert a + b == b;
    } else {
      assert (a + b)[0] == a[0] && (a + b)[1..] == a[1..] + b;
      DropEmptyConcat(a[1..], b);
      assert [a[0]] + DropEmpty(a[1..]) + DropEmpty(b) == [a[0]] + (DropEmpty(a[1..]) + DropEmpty(b));
    }
  }

  /** The filter on a single line: an empty line is dropped and a non-empty
      one kept. With DropEmptyConcat this determines DropEmpty on every
      list. */
  lemma DropEmptyOne(x: string)
    ensures DropEmpty([x]) == if x == [] then [] else [x]
  {
    assert [x][1..] == [];
  }

  /** A list without empty lines passes the filter unchanged. */
  lemma {:induction false} DropEmptyAllKept(lines: seq<string>)
    requires forall i :: 0 <= i < |lines| ==> lines[i] != []
    ensures DropEmpty(lines) == lines
  {
    if lines != [] {
      DropEmptyAllKept(lines[1..]);
      assert [lines[0]] + lines[1..] == lines;
    }
  }

  /** Stripping every piece of a list with a first piece. */
  lemma StripAllCons(p: string, ps: seq<string>)
    ensures StripAll([p] + ps) == [Strip(p)] + StripAll(ps)
  {
    assert forall i :: 0 <= i < 1 + |ps| ==> StripAll([p] + ps)[i] == ([Strip(p)] + StripAll(ps))[i];
  }

  /** Stripping every piece distributes over concatenation. */
  lemma StripAllConcat(a: seq<string>, b: seq<string>)
    ensures StripAll(a + b) == StripAll(a) + StripAll(b)
  {
    assert forall i :: 0 <= i < |a| + |b| ==> StripAll(a + b)[i] == (StripAll(a) + StripAll(b))[i];
  }

  /** The retained lines of a text: split at '\n', stripped, empty ones
      dropped: at most one line per piece of the split. None is empty, and
      none holds '\n' or noise (LinesClean). */
  function Lines(text: string): (r: seq<string>)
    ensures |r| <= |Split(text)|
  {
    DropEmpty(StripAll(Split(text)))
  }

  /** A stripped line holds no noise. */
  lemma {:induction false} StripClean(line: string)
    ensures forall j :: 0 <= j < |Strip(line)| ==> !IsNoise(Strip(line)[j])
  {
    if line != [] {
      assert line == [line[0]] + line[1..];
      StripClean(line[1..]);
      StripCons(line[0], line[1..]);
    }
  }

  /** Every kept line is one of the lines and is not empty. */
  lemma {:induction false} DropEmptyKept(lines: seq<string>)
    ensures forall i :: 0 <= i < |DropEmpty(lines)| ==> DropEmpty(lines)[i] != [] && DropEmpty(lines)[i] in lines
  {
    if lines != [] {
      DropEmptyKept(lines[1..]);
    }
  }

  /** No retained line is empty, and none holds a space, a carriage return
      or a '0'. */
  lemma LinesClean(text: string)
    ensures forall i :: 0 <= i < |Lines(text)| ==>
      Lines(text)[i] != [] && forall j :: 0 <= j < |Lines(text)[i]| ==> !IsNoise(Lines(text)[i][j])
  {
    var stripped := StripAll(Split(text));
    DropEmptyKept(stripped);
    forall i | 0 <= i < |stripped| ensures forall j :: 0 <= j < |stripped[i]| ==> !IsNoise(stripped[i][j]) {
      StripClean(Split(text)[i]);
    }
  }

  // The row, column and character checks.

  /** `int.TryParse` of a one-character string: a decimal digit. */
  predicate IsDigit(ch: char) {
    '0' <= ch <= '9'
  }

  /** The value of a decimal digit. */
  function DigitValue(ch: char): (v: int)
    requires IsDigit(ch)
    ensures 0 <= v <= 9 && (v == 0 <==> ch == '0')
  {
    ch as int - '0' as int
  }

  /** The first character at or after column j of row `row` that is not a
      digit, as an error. */
  function CheckCharsFrom(line: string, row: int, j: nat): (e: Option<FormatError>)
    ensures e.Some? ==>
      e.value.InvalidChar? && e.value.row == row && j <= e.value.column < |line| && e.value.ch == line[e.value.column]
    decreases |line| - j
  {
    if j >= |line| then None
    else if !IsDigit(line[j]) then Some(InvalidChar(row, j, line[j]))
    else CheckCharsFrom(line, row, j + 1)
  }

  /** The error in one retained line, if any: its length is checked before
      any of its characters. */
  function CheckRow(line: string, row: int): (e: Option<FormatError>)
    ensures e == Some(ColumnCount(row)) <==> |line| != 9
    ensures e.Some? ==> (e.value.ColumnCount? || e.value.InvalidChar?) && e.value.row == row
  {
    if |line| != 9 then Some(ColumnCount(row)) else CheckCharsFrom(line, row, 0)
  }

  /** The first error in the rows from i on, if any. */
  function CheckRowsFrom(lines: seq<string>, i: nat): (e: Option<FormatError>)
    ensures e.Some? ==> (e.value.ColumnCount? || e.value.InvalidChar?) && i <= e.value.row < |lines|
    decreases |lines| - i
  {
    if i >= |lines| then None
    else if CheckRow(lines[i], i).Some? then CheckRow(lines[i], i)
    else CheckRowsFrom(lines, i + 1)
  }

  /** A row that passes every check: nine decimal digits. */
  predicate RowOk(line: string) {
    |line| == 9 && forall j :: 0 <= j < 9 ==> IsDigit(line[j])
  }

  /** No error from column j on means every character from j on is a digit,
      and the other way round. */
  lemma {:induction false} CharsFromOk(line: string, row: int, j: nat)
    ensures CheckCharsFrom(line, row, j).None? <==> forall k :: j <= k < |line| ==> IsDigit(line[k])
    decreases |line| - j
  {
    if j < |line| {
      CharsFromOk(line, row, j + 1);
    }
  }

  /** The character check stops at the first non-digit: with the columns
      before k all digits, the error is at k exactly when line[k] is not a
      digit. */
  lemma {:induction false} CharsFromFirst(line: string, row: int, j: nat, k: int)
    requires j <= k < |line| && forall m :: j <= m < k ==> IsDigit(line[m])
    ensures CheckCharsFrom(line, row, j) == Some(InvalidChar(row, k, line[k])) <==> !IsDigit(line[k])
    decreases k - j
  {
    if j < k {
      CharsFromFirst(line, row, j + 1, k);
    }
  }

  /** No error in the rows from i on means every one of them is a good row,
      and the other way round. */
  lemma {:induction false} RowsFromOk(lines: seq<string>, i: nat)
    ensures CheckRowsFrom(lines, i).None? <==> forall k :: i <= k < |lines| ==> RowOk(lines[k])
    decreases |lines| - i
  {
    if i < |lines| {
      RowsFromOk(lines, i + 1);
      CharsFromOk(lines[i], i, 0);
    }
  }

  /** With the rows from i to k - 1 good, the first error from row i on is
      the error of row k, if row k has one. */
  lemma {:induction false} RowsFromFirst(lines: seq<string>, i: nat, k: int)
    requires i <= k < |lines| && forall m :: i <= m < k ==> RowOk(lines[m])
    requires CheckRow(lines[k], k).Some?
    ensures CheckRowsFrom(lines, i) == CheckRow(lines[k], k)
    decreases k - i
  {
    if i < k {
      CharsFromOk(lines[i], i, 0);
      RowsFromFirst(lines, i + 1, k);
    }
  }

  /** The digit values of a good row. */
  function RowValues(line: string): (row: seq<int>)
    requires RowOk(line)
    ensures |row| == 9 && forall c :: 0 <= c < 9 ==> row[c] == DigitValue(line[c])
  {
    seq(9, c requires 0 <= c < 9 => DigitValue(line[c]))
  }

  /** The grid whose rows are the digit values of the nine good rows. */
  function GridOfLines(lines: seq<string>): (g: Grid)
    requires |lines| == 9 && forall r :: 0 <= r < 9 ==> RowOk(lines[r])
    ensures IsDigitGrid(g) && forall r :: 0 <= r < 9 ==> g[r] == RowValues(lines[r])
  {
    seq(9, r requires 0 <= r < 9 => RowValues(lines[r]))
  }

  /** What the parser makes of a text: a row-count error unless exactly nine
      lines are retained, then the first column-count or character error in
      reading order, and otherwise the grid of their digits. */
  function Parse(text: string): (r: Result<Grid>)
    ensures r.Ok? ==> |Lines(text)| == 9 && IsDigitGrid(r.value)
    ensures r.Err? && !r.error.RowCount? ==> |Lines(text)| == 9 && 0 <= r.error.row < 9
  {
    var lines := Lines(text);
    if |lines| != 9 then Err(RowCount)
    else match CheckRowsFrom(lines, 0)
      case Some(e) => Err(e)
      case None => RowsFromOk(lines, 0); Ok(GridOfLines(lines))
  }

  // What the parser promises.

  /** The row count is checked first: the parse fails with a row-count
      error exactly when the number of retained lines is not nine. */
  lemma RowCountError(text: string)
    ensures Parse(text) == Err(RowCount) <==> |Lines(text)| != 9
  {
    var lines := Lines(text);
    if |lines| == 9 {
      match CheckRowsFrom(lines, 0)
      case None =>
      case Some(e) =>
        ErrorIsRowError(lines, 0);
    }
  }

  /** An error found in the rows is never a row-count error. */
  lemma {:induction false} ErrorIsRowError(lines: seq<string>, i: nat)
    ensures CheckRowsFrom(lines, i) != Some(RowCount)
    decreases |lines| - i
  {
    if i < |lines| && CheckRow(lines[i], i).None? {
      ErrorIsRowError(lines, i + 1);
    }
  }

  /** The parse fails with a column-count error for row i exactly when nine
      lines are retained, every line before i is nine digits, and line i
      is not nine characters long. */
  lemma ColumnCountError(text: string, i: int)
    ensures Parse(text) == Err(ColumnCount(i)) <==>
      |Lines(text)| == 9 && 0 <= i < 9 && |Lines(text)[i]| != 9 &&
      forall k :: 0 <= k < i ==> RowOk(Lines(text)[k])
  {
    var lines := Lines(text);
    if |lines| == 9 {
      if 0 <= i < 9 && |lines[i]| != 9 && forall k :: 0 <= k < i ==> RowOk(lines[k]) {
        RowsFromFirst(lines, 0, i);
      }
      if Parse(text) == Err(ColumnCount(i)) {
        FirstError(lines, 0);
      }
    }
  }

  /** Any error in the rows from i on is the error of the first row that
      has one. */
  lemma {:induction false} FirstError(lines: seq<string>, i: nat)
    requires CheckRowsFrom(lines, i).Some?
    ensures exists k :: (i <= k < |lines| && CheckRow(lines[k], k).Some? &&
      CheckRowsFrom(lines, i) == CheckRow(lines[k], k) &&
      forall m :: i <= m < k ==> RowOk(lines[m]))
    decreases |lines| - i
  {
    if CheckRow(lines[i], i).None? {
      CharsFromOk(lines[i], i, 0);
      FirstError(lines, i + 1);
    }
  }

  /** The parse fails with an invalid-character error at (i, j) exactly
      when nine lines are retained, every line before i is nine digits,
      line i is nine characters long, the characters before column j in it
      are digits, and the character at j is `ch` and not a digit. */
  lemma InvalidCharError(text: string, i: int, j: int, ch: char)
    ensures Parse(text) == Err(InvalidChar(i, j, ch)) <==>
      |Lines(text)| == 9 && 0 <= i < 9 && (forall k :: 0 <= k < i ==> RowOk(Lines(text)[k])) &&
      |Lines(text)[i]| == 9 && 0 <= j < 9 && (forall m :: 0 <= m < j ==> IsDigit(Lines(text)[i][m])) &&
      Lines(text)[i][j] == ch && !IsDigit(ch)
  {
    var lines := Lines(text);
    if |lines| == 9 {
      if 0 <= i < 9 && (forall k :: 0 <= k < i ==> RowOk(lines[k])) && |lines[i]| == 9 && 0 <= j < 9 &&
         (forall m :: 0 <= m < j ==> IsDigit(lines[i][m])) && lines[i][j] == ch && !IsDigit(ch) {
        CharsFromFirst(lines[i], i, 0, j);
        RowsFromFirst(lines, 0, i);
      }
      if Parse(text) == Err(InvalidChar(i, j, ch)) {
        FirstError(lines, 0);
        var k :| 0 <= k < |lines| && CheckRow(lines[k], k).Some? &&
          CheckRowsFrom(lines, 0) == CheckRow(lines[k], k) && forall m :: 0 <= m < k ==> RowOk(lines[m]);
        FirstBadChar(lines[k], k, 0);
      }
    }
  }

  /** Any character error of a row is at its first non-digit. */
  lemma {:induction false} FirstBadChar(line: string, row: int, j: nat)
    requires CheckCharsFrom(line, row, j).Some?
    ensures exists k :: (j <= k < |line| && CheckCharsFrom(line, row, j) == Some(InvalidChar(row, k, line[k])) &&
      !IsDigit(line[k]) && forall m :: j <= m < k ==> IsDigit(line[m]))
    decreases |line| - j
  {
    if IsDigit(line[j]) {
      FirstBadChar(line, row, j + 1);
    }
  }

  /** The parse succeeds exactly when nine lines are retained, each nine
      digits long; then cell (r, c) is the value of character c of line r,
      and since every '0' was deleted it is a digit 1..9. */
  lemma ParseOk(text: string)
    ensures Parse(text).Ok? <==> |Lines(text)| == 9 && forall r :: 0 <= r < 9 ==> RowOk(Lines(text)[r])
    ensures Parse(text).Ok? ==>
      IsDigitGrid(Parse(text).value) &&
      forall r, c :: 0 <= r < 9 && 0 <= c < 9 ==>
        Parse(text).value[r][c] == DigitValue(Lines(text)[r][c]) && 1 <= Parse(text).value[r][c] <= 9
  {
    var lines := Lines(text);
    if |lines| == 9 {
      RowsFromOk(lines, 0);
      LinesClean(text);
    }
  }
  /** Nine lines of nine digits 1..9, joined with '\n', are read back line
      for line, and the text parses to the grid of their digits. */
  lemma WellFormedText(rows: seq<string>)
    requires |rows| == 9
    requires forall i :: 0 <= i < 9 ==> |rows[i]| == 9 && forall j :: 0 <= j < 9 ==> '1' <= rows[i][j] <= '9'
    ensures Lines(Join(rows)) == rows
    ensures Parse(Join(rows)) == Ok(GridOfLines(rows))
  {
    forall i | 0 <= i < 9 ensures '\n' !in rows[i] && Strip(rows[i]) == rows[i] {
      StripIdempotent(rows[i]);
    }
    SplitJoin(rows);
    assert StripAll(rows) == rows;
    DropEmptyAllKept(rows);
    RowsFromOk(rows, 0);
  }


  // Noise does not matter.

  /** Putting the same character in front of two texts whose pieces strip
      alike gives texts whose pieces strip alike. */
  lemma CharFront(ch: char, t: string, u: string)
    requires StripAll(Split(t)) == StripAll(Split(u))
    ensures StripAll(Split([ch] + t)) == StripAll(Split([ch] + u))
  {
    SplitCons(ch, t);
    SplitCons(ch, u);
    var pt, pu := Split(t), Split(u);
    if ch == '\n' {
      StripAllCons([], pt);
      StripAllCons([], pu);
    } else {
      assert Strip(pt[0]) == StripAll(pt)[0] == StripAll(pu)[0] == Strip(pu[0]);
      StripCons(ch, pt[0]);
      StripCons(ch, pu[0]);
      assert StripAll(pt[1..]) == StripAll(pt)[1..] == StripAll(pu)[1..] == StripAll(pu[1..]);
      StripAllCons([ch] + pt[0], pt[1..]);
      StripAllCons([ch] + pu[0], pu[1..]);
    }
  }

  /** Spaces, carriage returns and '0's in front of a text change no
      stripped piece. */
  lemma {:induction false} NoiseFront(noise: string, b: string)
    requires forall i :: 0 <= i < |noise| ==> IsNoise(noise[i])
    ensures StripAll(Split(noise + b)) == StripAll(Split(b))
  {
    if noise == [] {
      assert noise + b == b;
    } else {
      var rest := noise[1..] + b;
      assert noise + b == [noise[0]] + rest;
      NoiseFront(noise[1..], b);
      SplitCons(noise[0], rest);
      var p := Split(rest);
      StripCons(noise[0], p[0]);
      StripAllCons([noise[0]] + p[0], p[1..]);
      StripAllCons(p[0], p[1..]);
      assert [p[0]] + p[1..] == p;
    }
  }

  /** Inserting spaces, carriage returns and '0's anywhere in a text changes
      no stripped piece. */
  lemma {:induction false} NoiseInsertPieces(a: string, noise: string, b: string)
    requires forall i :: 0 <= i < |noise| ==> IsNoise(noise[i])
    ensures StripAll(Split(a + noise + b)) == StripAll(Split(a + b))
  {
    if a == [] {
      assert a + noise + b == noise + b && a + b == b;
      NoiseFront(noise, b);
    } else {
      NoiseInsertPieces(a[1..], noise, b);
      assert a + noise + b == [a[0]] + (a[1..] + noise + b);
      assert a + b == [a[0]] + (a[1..] + b);
      CharFront(a[0], a[1..] + noise + b, a[1..] + b);
    }
  }

  /** Inserting spaces, carriage returns and '0's anywhere in a text does
      not change the parse. */
  lemma NoiseInsert(a: string, noise: string, b: string)
    requires forall i :: 0 <= i < |noise| ==> IsNoise(noise[i])
    ensures Parse(a + noise + b) == Parse(a + b)
  {
    NoiseInsertPieces(a, noise, b);
    ParseByLines(a + noise + b, a + b);
  }

  /** The parse depends on a text only through its retained lines. */
  lemma ParseByLines(text: string, other: string)
    requires Lines(text) == Lines(other)
    ensures Parse(text) == Parse(other)
  {
  }

  /** Inserting, anywhere among the lines of a text, a line that holds only
      spaces, carriage returns and '0's does not change the parse. */
  lemma BlankLineInsert(front: seq<string>, blank: string, back: seq<string>)
    requires |front| + |back| >= 1
    requires forall i :: 0 <= i < |front| ==> '\n' !in front[i]
    requires forall i :: 0 <= i < |back| ==> '\n' !in back[i]
    requires forall i :: 0 <= i < |blank| ==> IsNoise(blank[i])
    ensures Parse(Join(front + [blank] + back)) == Parse(Join(front + back))
  {
    BlankLineDropped(front, blank, back);
    ParseByLines(Join(front + [blank] + back), Join(front + back));
  }

  /** The retained lines are those of the text without the blank line. */
  lemma BlankLineDropped(front: seq<string>, blank: string, back: seq<string>)
    requires |front| + |back| >= 1
    requires forall i :: 0 <= i < |front| ==> '\n' !in front[i]
    requires forall i :: 0 <= i < |back| ==> '\n' !in back[i]
    requires forall i :: 0 <= i < |blank| ==> IsNoise(blank[i])
    ensures Lines(Join(front + [blank] + back)) == Lines(Join(front + back))
  {
    var longer, shorter := front + [blank] + back, front + back;
    NoNewlineAround(front, blank, back);
    SplitJoin(shorter);
    SplitJoin(longer);
    BlankPieceDropped(front, blank, back);
  }

  /** Newline-free pieces around a blank line give newline-free lists of
      pieces, with the blank line and without it. */
  lemma NoNewlineAround(front: seq<string>, blank: string, back: seq<string>)
    requires forall i :: 0 <= i < |front| ==> '\n' !in front[i]
    requires forall i :: 0 <= i < |back| ==> '\n' !in back[i]
    requires forall i :: 0 <= i < |blank| ==> IsNoise(blank[i])
    ensures forall i :: 0 <= i < |front + [blank] + back| ==> '\n' !in (front + [blank] + back)[i]
    ensures forall i :: 0 <= i < |front + back| ==> '\n' !in (front + back)[i]
  {
    var longer, shorter := front + [blank] + back, front + back;
    forall i | 0 <= i < |longer| ensures '\n' !in longer[i] {
      if i < |front| {
        assert longer[i] == front[i];
      } else if i > |front| {
        assert longer[i] == back[i - |front| - 1];
      } else {
        assert forall j :: 0 <= j < |blank| ==> blank[j] != '\n';
      }
    }
    forall i | 0 <= i < |shorter| ensures '\n' !in shorter[i] {
      if i < |front| {
        assert shorter[i] == front[i];
      } else {
        assert shorter[i] == back[i - |front|];
      }
    }
  }

  /** Among stripped pieces, a piece of noise leaves no retained line. */
  lemma BlankPieceDropped(front: seq<string>, blank: string, back: seq<string>)
    requires forall i :: 0 <= i < |blank| ==> IsNoise(blank[i])
    ensures DropEmpty(StripAll(front + [blank] + back)) == DropEmpty(StripAll(front + back))
  {
    var sf, sb := StripAll(front), StripAll(back);
    StripBlank(blank);
    assert StripAll([blank]) == [[]];
    StripAllConcat(front + [blank], back);
    StripAllConcat(front, [blank]);
    StripAllConcat(front, back);
    assert StripAll(front + [blank] + back) == sf + [[]] + sb;
    var blankLine: seq<string> := [[]];
    assert DropEmpty(blankLine) == [] by {
      assert blankLine[1..] == [];
    }
    DropEmptyConcat(sf + [[]], sb);
    DropEmptyConcat(sf, [[]]);
    DropEmptyConcat(sf, sb);
    assert sf + [[]] + sb == (sf + [[]]) + sb;
    assert DropEmpty(sf + [[]]) == DropEmpty(sf) + [] == DropEmpty(sf);
  }

  /** A line of noise strips to nothing. */
  lemma {:induction false} StripBlank(blank: string)
    requires forall i :: 0 <= i < |blank| ==> IsNoise(blank[i])
    ensures Strip(blank) == []
  {
    if blank != [] {
      StripBlank(blank[1..]);
    }
  }

  // The parser itself.

  /** `Program.ParseSudokuSolution`: normalise the lines, check the row
      count, then fill a fresh 9x9 array row by row, checking each row's
      length before its characters and stopping at the first error. It
      fails exactly as Parse does and otherwise returns Parse's grid. */
  method ParseSudokuSolution(solution: string) returns (r: Result<array2<int>>)
    ensures Parse(solution).Err? ==> r == Err(Parse(solution).error)
    ensures Parse(solution).Ok? ==>
      r.Ok? && fresh(r.value) && r.value.Length0 == 9 && r.value.Length1 == 9 &&
      GridOf(r.value) == Parse(solution).value
  {
    var lines := Lines(solution);
    if |lines| != 9 {
      return Err(RowCount);
    }
    var parsedSolution := new int[9, 9];
    for lineIndex := 0 to |lines|
      invariant CheckRowsFrom(lines, 0) == CheckRowsFrom(lines, lineIndex)
      invariant forall k :: 0 <= k < lineIndex ==> RowOk(lines[k])
      invariant forall k, j :: 0 <= k < lineIndex && 0 <= j < 9 ==> parsedSolution[k, j] == DigitValue(lines[k][j])
    {
      var line := lines[lineIndex];
      if |line| != 9 {
        return Err(ColumnCount(lineIndex));
      }
      var rowError := ParseRow(parsedSolution, line, lineIndex);
      if rowError.Some? {
        return Err(rowError.value);
      }
    }
    RowsFromOk(lines, 0);
    SameGrid(GridOf(parsedSolution), GridOfLines(lines));
    return Ok(parsedSolution);
  }

  /** The inner loop of `Program.ParseSudokuSolution`: store the digit
      values of one nine-character row in row `row` of the array, stopping
      at the first character that is not a digit. It reports the error the
      row check reports; on success the row holds the row's values, and on
      either outcome no other row changes. */
  method ParseRow(parsedSolution: array2<int>, line: string, row: int) returns (e: Option<FormatError>)
    requires parsedSolution.Length0 == 9 && parsedSolution.Length1 == 9
    requires |line| == 9 && 0 <= row < 9
    modifies parsedSolution
    ensures e == CheckCharsFrom(line, row, 0)
    ensures e.None? ==> RowOk(line) && forall j :: 0 <= j < 9 ==> parsedSolution[row, j] == DigitValue(line[j])
    ensures forall k, j :: 0 <= k < 9 && k != row && 0 <= j < 9 ==> parsedSolution[k, j] == old(parsedSolution[k, j])
  {
    for columnIndex := 0 to |line|
      invariant CheckCharsFrom(line, row, 0) == CheckCharsFrom(line, row, columnIndex)
      invariant forall j :: 0 <= j < columnIndex ==> IsDigit(line[j])
      invariant forall j :: 0 <= j < columnIndex ==> parsedSolution[row, j] == DigitValue(line[j])
      invariant forall k, j :: 0 <= k < 9 && k != row && 0 <= j < 9 ==> parsedSolution[k, j] == old(parsedSolution[k, j])
    {
      var columnCharacter := line[columnIndex];
      if !IsDigit(columnCharacter) {
        return Some(InvalidChar(row, columnIndex, columnCharacter));
      }
      parsedSolution[row, columnIndex] := DigitValue(columnCharacter);
    }
    return None;
  }
}
