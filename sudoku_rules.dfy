/** The rules a solved 9x9 Sudoku grid must satisfy, stated independently of
    how the validator checks them. A grid is a sequence of nine rows of nine
    integers; rows and columns are numbered 0..8, and the nine 3x3 boxes are
    numbered 0..8 left to right, top to bottom. */
module SudokuRules {

  type Grid = seq<seq<int>>

  /** Nine rows of nine cells. */
  predicate IsGrid(g: Grid) {
    |g| == 9 && forall r :: 0 <= r < 9 ==> |g[r]| == 9
  }

  /** A grid whose every cell holds a value 0..9: what the parser can produce
      and what the validator is defined on. */
  predicate IsDigitGrid(g: Grid) {
    IsGrid(g) && forall r, c :: 0 <= r < 9 && 0 <= c < 9 ==> 0 <= g[r][c] <= 9
  }

  /** The grid held by a 9x9 two-dimensional array, row by row. */
  ghost function GridOf(a: array2<int>): (g: Grid)
    requires a.Length0 == 9 && a.Length1 == 9
    reads a
    ensures IsGrid(g)
    ensures forall r, c :: 0 <= r < 9 && 0 <= c < 9 ==> g[r][c] == a[r, c]
  {
    seq(9, r requires 0 <= r < 9 reads a => seq(9, c requires 0 <= c < 9 reads a => a[r, c]))
  }

  /** Two grids with the same cells are the same grid. */
  lemma SameGrid(g: Grid, h: Grid)
    requires IsGrid(g) && IsGrid(h)
    requires forall r, c :: 0 <= r < 9 && 0 <= c < 9 ==> g[r][c] == h[r][c]
    ensures g == h
  {
    forall r | 0 <= r < 9 ensures g[r] == h[r] {
      assert forall c :: 0 <= c < 9 ==> g[r][c] == h[r][c];
    }
  }

  /** The three kinds of unit: every cell belongs to one of each. */
  datatype UnitKind = Row | Column | Box

  /** The unit of the given kind that cell (r, c) belongs to; boxes are
      numbered `c / 3 + (r / 3) * 3`. */
  function UnitIndex(kind: UnitKind, r: int, c: int): (u: int)
    requires 0 <= r < 9 && 0 <= c < 9
    ensures 0 <= u < 9
  {
    match kind
    case Row => r
    case Column => c
    case Box => c / 3 + (r / 3) * 3
  }

  /** Row of the t-th cell (in row-major order) of unit u. */
  function CellRow(kind: UnitKind, u: int, t: int): int
    requires 0 <= u < 9 && 0 <= t < 9
  {
    match kind
    case Row => u
    case Column => t
    case Box => (u / 3) * 3 + t / 3
  }

  /** Column of the t-th cell (in row-major order) of unit u. */
  function CellColumn(kind: UnitKind, u: int, t: int): int
    requires 0 <= u < 9 && 0 <= t < 9
  {
    match kind
    case Row => t
    case Column => u
    case Box => (u % 3) * 3 + t % 3
  }

  /** Position of cell (r, c) within its unit of the given kind. */
  function PositionInUnit(kind: UnitKind, r: int, c: int): int
    requires 0 <= r < 9 && 0 <= c < 9
  {
    match kind
    case Row => c
    case Column => r
    case Box => (r % 3) * 3 + c % 3
  }

  /** The t-th cell of unit u lies on the grid and in unit u. */
  lemma CellInUnit(kind: UnitKind, u: int, t: int)
    requires 0 <= u < 9 && 0 <= t < 9
    ensures 0 <= CellRow(kind, u, t) < 9 && 0 <= CellColumn(kind, u, t) < 9
    ensures UnitIndex(kind, CellRow(kind, u, t), CellColumn(kind, u, t)) == u
    ensures PositionInUnit(kind, CellRow(kind, u, t), CellColumn(kind, u, t)) == t
  {
    if kind == Box {
      var r, c := (u / 3) * 3 + t / 3, (u % 3) * 3 + t % 3;
      assert r / 3 == u / 3 && r % 3 == t / 3;
      assert c / 3 == u % 3 && c % 3 == t % 3;
    }
  }

  /** Every cell is the PositionInUnit-th cell of its own unit. */
  lemma UnitCellOf(kind: UnitKind, r: int, c: int)
    requires 0 <= r < 9 && 0 <= c < 9
    ensures 0 <= PositionInUnit(kind, r, c) < 9
    ensures CellRow(kind, UnitIndex(kind, r, c), PositionInUnit(kind, r, c)) == r
    ensures CellColumn(kind, UnitIndex(kind, r, c), PositionInUnit(kind, r, c)) == c
  {
    if kind == Box {
      var u, t := c / 3 + (r / 3) * 3, (r % 3) * 3 + c % 3;
      assert u / 3 == r / 3 && u % 3 == c / 3;
      assert t / 3 == r % 3 && t % 3 == c % 3;
    }
  }

  /** The nine values of unit u, in row-major order. */
  function UnitCells(g: Grid, kind: UnitKind, u: int): (s: seq<int>)
    requires IsGrid(g) && 0 <= u < 9
    ensures |s| == 9
  {
    seq(9, t requires 0 <= t < 9 =>
      CellInUnit(kind, u, t);
      g[CellRow(kind, u, t)][CellColumn(kind, u, t)])
  }

  /** No two different cells of the same unit of this kind hold the same value. */
  ghost predicate NoRepeat(g: Grid, kind: UnitKind)
    requires IsGrid(g)
  {
    forall r1, c1, r2, c2 ::
      0 <= r1 < 9 && 0 <= c1 < 9 && 0 <= r2 < 9 && 0 <= c2 < 9 &&
      (r1 != r2 || c1 != c2) && UnitIndex(kind, r1, c1) == UnitIndex(kind, r2, c2)
      ==> g[r1][c1] != g[r2][c2]
  }

  /** The Sudoku rule for a grid of digits 0..9: no cell is 0 (every cell
      holds 1..9) and no row, column or box holds a digit twice. */
  ghost predicate IsSolution(g: Grid)
    requires IsDigitGrid(g)
  {
    (forall r, c :: 0 <= r < 9 && 0 <= c < 9 ==> g[r][c] != 0) &&
    NoRepeat(g, Row) && NoRepeat(g, Column) && NoRepeat(g, Box)
  }

  /** The integers lo..hi-1, as a set. */
  function Range(lo: int, hi: int): (s: set<int>)
    ensures forall x :: x in s <==> lo <= x < hi
    ensures |s| == if lo < hi then hi - lo else 0
    decreases hi - lo
  {
    if lo >= hi then {} else {lo} + Range(lo + 1, hi)
  }

  /** The reference notion: a sequence of nine values in which each of the
      digits 1..9 occurs (hence each exactly once and nothing else). */
  ghost predicate IsPermutationOfDigits(s: seq<int>) {
    |s| == 9 && forall d :: 1 <= d <= 9 ==> d in s
  }

  /** No value occurs twice in s. */
  ghost predicate Distinct(s: seq<int>) {
    forall i, j :: 0 <= i < j < |s| ==> s[i] != s[j]
  }

  function Elements(s: seq<int>): set<int> {
    set x | x in s
  }

  /** A sequence has at most as many distinct elements as it is long, and
      exactly as many when no value repeats. */
  lemma {:induction false} ElementsCount(s: seq<int>)
    ensures |Elements(s)| <= |s|
    ensures |Elements(s)| == |s| <==> Distinct(s)
  {
    if s == [] {
      assert Elements(s) == {};
    } else {
      var rest := s[1..];
      ElementsCount(rest);
      assert Elements(s) == {s[0]} + Elements(rest);
      if s[0] in rest {
        assert Elements(s) == Elements(rest);
        var k :| 0 <= k < |rest| && rest[k] == s[0];
        assert s[0] == s[k + 1];
      } else {
        assert |Elements(s)| == 1 + |Elements(rest)|;
        if Distinct(rest) {
          forall i, j | 0 <= i < j < |s| ensures s[i] != s[j] {
            if i > 0 {
              assert s[i] == rest[i - 1] && s[j] == rest[j - 1];
            } else {
              assert s[j] == rest[j - 1];
            }
          }
        } else {
          var i, j :| 0 <= i < j < |rest| && rest[i] == rest[j];
          assert s[i + 1] == s[j + 1];
        }
      }
    }
  }

  lemma SubsetCount(a: set<int>, b: set<int>)
    requires a <= b
    ensures |a| <= |b|
    ensures |a| == |b| ==> a == b
  {
    assert b == a + (b - a);
    assert |b| == |a| + |b - a|;
    if |a| == |b| {
      assert |b - a| == 0;
      assert b - a == {};
    }
  }

  /** Nine distinct values none of which is 0, all in 0..9, cover 1..9. */
  lemma DistinctDigitsCover(s: seq<int>)
    requires |s| == 9 && Distinct(s)
    requires forall i :: 0 <= i < 9 ==> 1 <= s[i] <= 9
    ensures IsPermutationOfDigits(s)
  {
    var e := Elements(s);
    assert e <= Range(1, 10) by {
      forall x | x in e ensures 1 <= x < 10 {
        var i :| 0 <= i < 9 && s[i] == x;
      }
    }
    ElementsCount(s);
    SubsetCount(e, Range(1, 10));
    assert e == Range(1, 10);
    forall d | 1 <= d <= 9 ensures d in s {
      assert d in e;
    }
  }

  /** Nine values in 0..9 that cover 1..9 are distinct and hold no 0. */
  lemma PermutationIsDistinct(s: seq<int>)
    requires IsPermutationOfDigits(s)
    requires forall i :: 0 <= i < 9 ==> 0 <= s[i] <= 9
    ensures (forall i :: 0 <= i < 9 ==> s[i] != 0) && Distinct(s)
  {
    var e := Elements(s);
    ElementsCount(s);
    assert Range(1, 10) <= e;
    SubsetCount(Range(1, 10), e);
    assert |e| == 9;
    assert e == Range(1, 10);
    forall i | 0 <= i < 9 ensures s[i] != 0 {
      assert s[i] in e;
    }
  }

  /** For nine values in 0..9: holding no 0 and no repeat is the same as
      being a permutation of the digits 1..9. */
  lemma DistinctDigitsArePermutation(s: seq<int>)
    requires |s| == 9
    requires forall i :: 0 <= i < 9 ==> 0 <= s[i] <= 9
    ensures ((forall i :: 0 <= i < 9 ==> s[i] != 0) && Distinct(s)) <==> IsPermutationOfDigits(s)
  {
    if (forall i :: 0 <= i < 9 ==> s[i] != 0) && Distinct(s) {
      DistinctDigitsCover(s);
    }
    if IsPermutationOfDigits(s) {
      PermutationIsDistinct(s);
    }
  }

  /** The cells of unit u are pairwise distinct exactly when the grid has no
      repeat inside that unit. */
  lemma NoRepeatByUnits(g: Grid, kind: UnitKind)
    requires IsGrid(g)
    ensures NoRepeat(g, kind) <==> forall u :: 0 <= u < 9 ==> Distinct(UnitCells(g, kind, u))
  {
    if NoRepeat(g, kind) {
      forall u, i, j | 0 <= u < 9 && 0 <= i < j < 9
        ensures UnitCells(g, kind, u)[i] != UnitCells(g, kind, u)[j]
      {
        CellInUnit(kind, u, i);
        CellInUnit(kind, u, j);
      }
    }
    if forall u :: 0 <= u < 9 ==> Distinct(UnitCells(g, kind, u)) {
      forall r1, c1, r2, c2 |
        0 <= r1 < 9 && 0 <= c1 < 9 && 0 <= r2 < 9 && 0 <= c2 < 9 &&
        (r1 != r2 || c1 != c2) && UnitIndex(kind, r1, c1) == UnitIndex(kind, r2, c2)
        ensures g[r1][c1] != g[r2][c2]
      {
        var u := UnitIndex(kind, r1, c1);
        UnitCellOf(kind, r1, c1);
        UnitCellOf(kind, r2, c2);
        var t1, t2 := PositionInUnit(kind, r1, c1), PositionInUnit(kind, r2, c2);
        assert t1 != t2;
        var s := UnitCells(g, kind, u);
        assert s[t1] == g[r1][c1] && s[t2] == g[r2][c2];
        if t1 < t2 { assert s[t1] != s[t2]; } else { assert s[t2] != s[t1]; }
      }
    }
  }

  /** A grid of digits is a Sudoku solution exactly when each of its 27
      units (9 rows, 9 columns, 9 boxes) is a permutation of 1..9. */
  lemma SolutionIffUnitsArePermutations(g: Grid)
    requires IsDigitGrid(g)
    ensures IsSolution(g) <==>
      forall u :: 0 <= u < 9 ==>
        IsPermutationOfDigits(UnitCells(g, Row, u)) &&
        IsPermutationOfDigits(UnitCells(g, Column, u)) &&
        IsPermutationOfDigits(UnitCells(g, Box, u))
  {
    NoRepeatByUnits(g, Row);
    NoRepeatByUnits(g, Column);
    NoRepeatByUnits(g, Box);
    forall kind: UnitKind, u | 0 <= u < 9
      ensures ((forall i :: 0 <= i < 9 ==> UnitCells(g, kind, u)[i] != 0) && Distinct(UnitCells(g, kind, u)))
              <==> IsPermutationOfDigits(UnitCells(g, kind, u))
    {
      UnitIsPermutation(g, kind, u);
    }
    RowsCoverCells(g);
  }

  /** A unit of a digit grid is a permutation of 1..9 exactly when it holds
      no 0 and no value twice. */
  lemma UnitIsPermutation(g: Grid, kind: UnitKind, u: int)
    requires IsDigitGrid(g) && 0 <= u < 9
    ensures ((forall i :: 0 <= i < 9 ==> UnitCells(g, kind, u)[i] != 0) && Distinct(UnitCells(g, kind, u)))
            <==> IsPermutationOfDigits(UnitCells(g, kind, u))
  {
    var s := UnitCells(g, kind, u);
    forall i | 0 <= i < 9 ensures 0 <= s[i] <= 9 {
      CellInUnit(kind, u, i);
    }
    DistinctDigitsArePermutation(s);
  }

  /** Every cell is in some row, so "no 0 in any row" is "no 0 anywhere". */
  lemma RowsCoverCells(g: Grid)
    requires IsGrid(g)
    ensures forall u, i :: 0 <= u < 9 && 0 <= i < 9 ==> UnitCells(g, Row, u)[i] == g[u][i]
  {
    forall u, i | 0 <= u < 9 && 0 <= i < 9 ensures UnitCells(g, Row, u)[i] == g[u][i] {
      CellInUnit(Row, u, i);
    }
  }
}
