/** The single-pass bitmask validator. Each of the 27 units keeps a 32-bit
    mask that starts as 0b1111111110 (bits 1..9 set, bit 0 clear); visiting a
    cell flips bit `digit` of its row, column and box masks, and a flip that
    leaves the bit set reports a violation. */
module SudokuValidator {
  import opened SudokuRules

  /** Starting value of every unit mask: digits 1..9 not yet seen. */
  const Unseen: bv32 := 0x3FE  // 0b11_1111_1110

  /** `1 << d`, written out for the ten digits so that the solver never has
      to turn an unbounded integer into a shift amount (BitIsShift shows
      that the two agree). */
  function Bit(d: int): bv32
    requires 0 <= d <= 9
  {
    if d == 0 then 0x1 else if d == 1 then 0x2 else if d == 2 then 0x4 else if d == 3 then 0x8
    else if d == 4 then 0x10 else if d == 5 then 0x20 else if d == 6 then 0x40
    else if d == 7 then 0x80 else if d == 8 then 0x100 else 0x200
  }

  /** Whether bit d of m is set: `(m & (1 << d)) != 0`. */
  predicate HasBit(m: bv32, d: int)
    requires 0 <= d <= 9
  {
    m & Bit(d) != 0
  }

  /** Bit is C#'s shift `1 << d` for every digit d. */
  lemma BitIsShift(d: int)
    requires 0 <= d <= 9
    ensures Bit(d) == 1 << d
  {
    if d == 0 {} else if d == 1 {} else if d == 2 {} else if d == 3 {} else if d == 4 {}
    else if d == 5 {} else if d == 6 {} else if d == 7 {} else if d == 8 {} else {}
  }

  /** Each Bit(d) is a single set bit, and different digits get different bits. */
  lemma BitsDisjoint(x: int, d: int)
    requires 0 <= x <= 9 && 0 <= d <= 9
    ensures Bit(d) != 0 && Bit(d) & (Bit(d) - 1) == 0
    ensures x != d ==> Bit(x) & Bit(d) == 0
  {
    if x == 0 {} else if x == 1 {} else if x == 2 {} else if x == 3 {} else if x == 4 {}
    else if x == 5 {} else if x == 6 {} else if x == 7 {} else if x == 8 {} else {}
  }

  /** Flipping a single bit a turns it on exactly when it was off. */
  lemma FlipSame(m: bv32, a: bv32)
    requires a != 0 && a & (a - 1) == 0
    ensures ((m ^ a) & a != 0) <==> (m & a == 0)
  {
  }

  /** Flipping bit b leaves every bit outside b alone. */
  lemma FlipOther(m: bv32, a: bv32, b: bv32)
    requires a & b == 0
    ensures (m ^ b) & a == m & a
  {
  }

  /** Flipping bit x changes bit x and no other bit. */
  lemma FlipBit(m: bv32, x: int, d: int)
    requires 0 <= x <= 9 && 0 <= d <= 9
    ensures HasBit(m ^ Bit(x), d) <==> (HasBit(m, d) != (d == x))
  {
    BitsDisjoint(x, d);
    if x == d {
      FlipSame(m, Bit(d));
    } else {
      FlipOther(m, Bit(d), Bit(x));
    }
  }

  /** In the starting mask exactly the digits 1..9 are marked unseen. */
  lemma UnseenBits(d: int)
    requires 0 <= d <= 9
    ensures HasBit(Unseen, d) <==> d != 0
  {
  }

  // The order of the pass and what it has seen so far (no bit-vectors here).

  /** Cell (r1, c1) is visited before cell (r, c) in row-major order; the
      position (r, 9) is the end of row r, the same as (r + 1, 0). */
  predicate Before(r1: int, c1: int, r: int, c: int) {
    r1 < r || (r1 == r && c1 < c)
  }

  /** Digit d occurs in unit u of this kind among the cells visited before (r, c). */
  ghost predicate Seen(g: Grid, kind: UnitKind, u: int, d: int, r: int, c: int)
    requires IsGrid(g)
  {
    exists r1, c1 :: 0 <= r1 < 9 && 0 <= c1 < 9 && Before(r1, c1, r, c) &&
      UnitIndex(kind, r1, c1) == u && g[r1][c1] == d
  }

  /** The digits seen in unit u of this kind before position (r, c). */
  ghost function SeenIn(g: Grid, kind: UnitKind, u: int, r: int, c: int): (s: set<int>)
    requires IsGrid(g)
    ensures forall d :: d in s <==> 0 <= d <= 9 && Seen(g, kind, u, d, r, c)
  {
    set d | 0 <= d <= 9 && Seen(g, kind, u, d, r, c)
  }

  /** The digits seen before (r, c) in each of the nine units of this kind. */
  ghost function SeenSets(g: Grid, kind: UnitKind, r: int, c: int): (s: seq<set<int>>)
    requires IsGrid(g)
    ensures |s| == 9 && forall u :: 0 <= u < 9 ==> s[u] == SeenIn(g, kind, u, r, c)
  {
    seq(9, u => SeenIn(g, kind, u, r, c))
  }

  /** No visited cell before (r, c) holds 0 or repeats a digit of an earlier
      cell of its unit of this kind. */
  ghost predicate Clean(g: Grid, kind: UnitKind, r: int, c: int)
    requires IsGrid(g)
  {
    forall r1, c1 :: 0 <= r1 < 9 && 0 <= c1 < 9 && Before(r1, c1, r, c) ==>
      g[r1][c1] != 0 && !Seen(g, kind, UnitIndex(kind, r1, c1), g[r1][c1], r1, c1)
  }

  /** Visiting cell (r, c) adds its digit to what its own unit has seen, and
      nothing to any other unit. */
  lemma SeenStep(g: Grid, kind: UnitKind, u: int, d: int, r: int, c: int)
    requires IsGrid(g) && 0 <= r < 9 && 0 <= c < 9
    ensures Seen(g, kind, u, d, r, c + 1) <==>
      Seen(g, kind, u, d, r, c) || (UnitIndex(kind, r, c) == u && g[r][c] == d)
  {
    if Seen(g, kind, u, d, r, c + 1) && !(UnitIndex(kind, r, c) == u && g[r][c] == d) {
      var r1, c1 :| 0 <= r1 < 9 && 0 <= c1 < 9 && Before(r1, c1, r, c + 1) &&
        UnitIndex(kind, r1, c1) == u && g[r1][c1] == d;
      assert Before(r1, c1, r, c);
    }
    if UnitIndex(kind, r, c) == u && g[r][c] == d {
      assert Before(r, c, r, c + 1);
    }
  }

  /** The end of row r and the start of row r + 1 are the same position. */
  lemma SeenNextRow(g: Grid, kind: UnitKind, u: int, d: int, r: int)
    requires IsGrid(g)
    ensures Seen(g, kind, u, d, r, 9) <==> Seen(g, kind, u, d, r + 1, 0)
  {
    if Seen(g, kind, u, d, r + 1, 0) {
      var r1, c1 :| 0 <= r1 < 9 && 0 <= c1 < 9 && Before(r1, c1, r + 1, 0) &&
        UnitIndex(kind, r1, c1) == u && g[r1][c1] == d;
      assert Before(r1, c1, r, 9);
    }
  }

  /** Moving from the end of row r to the start of row r + 1 changes
      neither what has been seen nor cleanliness. */
  lemma NextRow(g: Grid, kind: UnitKind, r: int)
    requires IsGrid(g) && 0 <= r < 9
    ensures SeenSets(g, kind, r, 9) == SeenSets(g, kind, r + 1, 0)
    ensures Clean(g, kind, r, 9) <==> Clean(g, kind, r + 1, 0)
  {
    forall u, d ensures Seen(g, kind, u, d, r, 9) <==> Seen(g, kind, u, d, r + 1, 0) {
      SeenNextRow(g, kind, u, d, r);
    }
    forall u | 0 <= u < 9 ensures SeenIn(g, kind, u, r, 9) == SeenIn(g, kind, u, r + 1, 0) {
    }
  }

  /** Before the first cell nothing has been seen and the prefix is clean. */
  lemma Start(g: Grid, kind: UnitKind)
    requires IsGrid(g)
    ensures Clean(g, kind, 0, 0)
    ensures forall u :: 0 <= u < 9 ==> SeenSets(g, kind, 0, 0)[u] == {}
  {
    forall u, d ensures !Seen(g, kind, u, d, 0, 0) {
    }
    forall u | 0 <= u < 9 ensures SeenIn(g, kind, u, 0, 0) == {} {
    }
  }

  /** Visiting cell (r, c) keeps the prefix clean exactly when the cell holds
      a digit other than 0 that its unit has not seen yet. */
  lemma CleanStep(g: Grid, kind: UnitKind, r: int, c: int)
    requires IsGrid(g) && 0 <= r < 9 && 0 <= c < 9
    ensures Clean(g, kind, r, c + 1) <==>
      Clean(g, kind, r, c) && g[r][c] != 0 && !Seen(g, kind, UnitIndex(kind, r, c), g[r][c], r, c)
  {
    assert Before(r, c, r, c + 1);
    forall r1, c1 | 0 <= r1 < 9 && 0 <= c1 < 9 && Before(r1, c1, r, c + 1) && !Before(r1, c1, r, c)
      ensures r1 == r && c1 == c
    {
    }
  }

  /** Visiting cell (r, c) adds its digit to the digits seen by its own unit
      and leaves every other unit's digits alone. */
  lemma SeenInStep(g: Grid, kind: UnitKind, u: int, r: int, c: int)
    requires IsDigitGrid(g) && 0 <= r < 9 && 0 <= c < 9
    ensures SeenIn(g, kind, u, r, c + 1) ==
      if UnitIndex(kind, r, c) == u then SeenIn(g, kind, u, r, c) + {g[r][c]} else SeenIn(g, kind, u, r, c)
  {
    forall d ensures Seen(g, kind, u, d, r, c + 1) <==>
      Seen(g, kind, u, d, r, c) || (UnitIndex(kind, r, c) == u && g[r][c] == d)
    {
      SeenStep(g, kind, u, d, r, c);
    }
  }

  /** Visiting cell (r, c), whose unit of this kind is u, keeps the prefix
      clean exactly when the cell holds a digit other than 0 that u has not
      seen yet; the digit is then added to what u has seen, and nothing else
      changes. */
  lemma VisitStep(g: Grid, kind: UnitKind, r: int, c: int, u: int)
    requires IsDigitGrid(g) && 0 <= r < 9 && 0 <= c < 9 && u == UnitIndex(kind, r, c)
    requires Clean(g, kind, r, c)
    ensures g[r][c] == 0 || g[r][c] in SeenSets(g, kind, r, c)[u] <==> !Clean(g, kind, r, c + 1)
    ensures Clean(g, kind, r, c + 1) ==>
      SeenSets(g, kind, r, c + 1) == SeenSets(g, kind, r, c)[u := SeenSets(g, kind, r, c)[u] + {g[r][c]}]
  {
    CleanStep(g, kind, r, c);
    var before, after := SeenSets(g, kind, r, c), SeenSets(g, kind, r, c + 1);
    forall v | 0 <= v < 9 ensures after[v] == before[u := before[u] + {g[r][c]}][v] {
      SeenInStep(g, kind, v, r, c);
    }
  }

  /** At any position, a solution has visited only clean cells. */
  lemma SolutionIsClean(g: Grid, kind: UnitKind, r: int, c: int)
    requires IsDigitGrid(g)
    ensures IsSolution(g) ==> Clean(g, kind, r, c)
  {
    if IsSolution(g) {
      SolutionPrefixIsClean(g, kind, r, c);
    }
  }

  lemma SolutionPrefixIsClean(g: Grid, kind: UnitKind, r: int, c: int)
    requires IsDigitGrid(g) && IsSolution(g)
    ensures Clean(g, kind, r, c)
  {
    forall r1, c1 | 0 <= r1 < 9 && 0 <= c1 < 9 && Before(r1, c1, r, c)
      ensures !Seen(g, kind, UnitIndex(kind, r1, c1), g[r1][c1], r1, c1)
    {
      forall r2, c2 | 0 <= r2 < 9 && 0 <= c2 < 9 && Before(r2, c2, r1, c1) &&
        UnitIndex(kind, r2, c2) == UnitIndex(kind, r1, c1)
        ensures g[r2][c2] != g[r1][c1]
      {
        assert r2 != r1 || c2 != c1;
      }
    }
  }

  /** A whole pass that stayed clean for one kind of unit saw no repeat in it. */
  lemma CleanNoRepeat(g: Grid, kind: UnitKind)
    requires IsDigitGrid(g) && Clean(g, kind, 9, 0)
    ensures NoRepeat(g, kind)
  {
    forall r1, c1, r2, c2 |
      0 <= r1 < 9 && 0 <= c1 < 9 && 0 <= r2 < 9 && 0 <= c2 < 9 &&
      (r1 != r2 || c1 != c2) && UnitIndex(kind, r1, c1) == UnitIndex(kind, r2, c2)
      ensures g[r1][c1] != g[r2][c2]
    {
      assert Before(r1, c1, 9, 0) && Before(r2, c2, 9, 0);
      if Before(r1, c1, r2, c2) {
        assert !Seen(g, kind, UnitIndex(kind, r2, c2), g[r2][c2], r2, c2);
      } else {
        assert !Seen(g, kind, UnitIndex(kind, r1, c1), g[r1][c1], r1, c1);
      }
    }
  }

  /** After the last cell, the three kinds of unit are all clean exactly
      when the grid is a solution. */
  lemma CleanAtEnd(g: Grid)
    requires IsDigitGrid(g)
    ensures Clean(g, Row, 9, 0) && Clean(g, Column, 9, 0) && Clean(g, Box, 9, 0) <==> IsSolution(g)
  {
    if Clean(g, Row, 9, 0) && Clean(g, Column, 9, 0) && Clean(g, Box, 9, 0) {
      CleanNoRepeat(g, Row);
      CleanNoRepeat(g, Column);
      CleanNoRepeat(g, Box);
    }
    if IsSolution(g) {
      SolutionIsClean(g, Row, 9, 0);
      SolutionIsClean(g, Column, 9, 0);
      SolutionIsClean(g, Box, 9, 0);
    }
  }

  // The unit masks (bit-vectors only; no grid here).

  /** The meaning of one mask: bit d is set exactly when d is a digit 1..9
      that is not in `seen` (bits above 9 are never looked at). */
  ghost predicate MaskTracks(m: bv32, seen: set<int>) {
    forall d {:trigger HasBit(m, d)} :: 0 <= d <= 9 ==> (HasBit(m, d) <==> d != 0 && d !in seen)
  }

  /** Each mask tracks the digits seen by its own unit. */
  ghost predicate MasksTrack(masks: seq<bv32>, seen: seq<set<int>>) {
    |masks| == |seen| && forall u :: 0 <= u < |masks| ==> MaskTracks(masks[u], seen[u])
  }

  /** Masks that all start as Unseen track units that have seen nothing. */
  lemma StartMasks(masks: seq<bv32>, seen: seq<set<int>>)
    requires |masks| == |seen| && forall u :: 0 <= u < |masks| ==> masks[u] == Unseen && seen[u] == {}
    ensures MasksTrack(masks, seen)
  {
    forall u, d | 0 <= u < |masks| && 0 <= d <= 9 ensures HasBit(masks[u], d) <==> d != 0 && d !in seen[u] {
      UnseenBits(d);
    }
  }

  /** Flipping bit x of a mask that tracks `seen` sets that bit exactly
      when x is 0 or already in `seen`. */
  lemma FlipTest(m: bv32, seen: set<int>, x: int)
    requires MaskTracks(m, seen) && 0 <= x <= 9
    ensures HasBit(m ^ Bit(x), x) <==> x == 0 || x in seen
  {
    FlipBit(m, x, x);
  }

  /** Flipping the bit of a new digit x makes the mask track `seen + {x}`. */
  lemma FlipTracks(m: bv32, seen: set<int>, x: int)
    requires MaskTracks(m, seen) && 1 <= x <= 9 && x !in seen
    ensures MaskTracks(m ^ Bit(x), seen + {x})
  {
    forall d | 0 <= d <= 9 ensures HasBit(m ^ Bit(x), d) <==> d != 0 && d !in seen + {x} {
      FlipBit(m, x, d);
    }
  }

  /** Storing a mask that tracks `s` for unit u keeps all masks tracking. */
  lemma StoreTracks(masks: seq<bv32>, seen: seq<set<int>>, u: int, m: bv32, s: set<int>)
    requires MasksTrack(masks, seen) && 0 <= u < |masks| && MaskTracks(m, s)
    ensures MasksTrack(masks[u := m], seen[u := s])
  {
  }

  /** The two facts about one flip of bit x in a mask that tracks `seen`:
      the flipped bit is set exactly when x is 0 or already in `seen`, and
      otherwise the flipped mask tracks `seen` plus x. */
  lemma FlipStep(m: bv32, seen: set<int>, x: int)
    requires MaskTracks(m, seen) && 0 <= x <= 9
    ensures HasBit(m ^ Bit(x), x) <==> x == 0 || x in seen
    ensures !(x == 0 || x in seen) ==> MaskTracks(m ^ Bit(x), seen + {x})
  {
    FlipTest(m, seen, x);
    if x != 0 && x !in seen {
      FlipTracks(m, seen, x);
    }
  }

  /** One of the three flip-and-test steps of the validator: flip the bit
      of digit x in the mask of unit u, and report whether that bit is now
      set. With the mask tracking `seen`, the bit is set exactly when x is 0
      or in `seen`; otherwise the flipped mask tracks `seen` plus x. No other
      mask changes. */
  method FlipAndTest(masks: array<bv32>, u: int, x: int, ghost seen: set<int>) returns (duplicate: bool)
    requires 0 <= u < masks.Length && 0 <= x <= 9 && MaskTracks(masks[u], seen)
    modifies masks
    ensures masks[..] == old(masks[..])[u := masks[u]] && masks[u] == old(masks[u]) ^ Bit(x)
    ensures duplicate <==> x == 0 || x in seen
    ensures !duplicate ==> MaskTracks(masks[u], seen + {x})
  {
    var m := masks[u];
    var flipped := m ^ Bit(x);
    FlipStep(m, seen, x);
    masks[u] := flipped;
    duplicate := HasBit(flipped, x);
  }

  // The validator.

  /** The flip-and-test of cell (r, c), holding `digit`, in the mask of
      its unit u of this kind: it fires exactly when the unit stops being
      clean at this cell, and otherwise the masks go on tracking the units
      one cell further on. */
  method VisitUnit(ghost g: Grid, kind: UnitKind, masks: array<bv32>, r: int, c: int, u: int, digit: int)
    returns (duplicate: bool)
    requires IsDigitGrid(g) && 0 <= r < 9 && 0 <= c < 9 && digit == g[r][c] && u == UnitIndex(kind, r, c)
    requires MasksTrack(masks[..], SeenSets(g, kind, r, c)) && Clean(g, kind, r, c)
    modifies masks
    ensures masks[..] == old(masks[..])[u := masks[u]] && masks[u] == old(masks[u]) ^ Bit(digit)
    ensures duplicate <==> !Clean(g, kind, r, c + 1)
    ensures !duplicate ==> MasksTrack(masks[..], SeenSets(g, kind, r, c + 1))
  {
    ghost var seen := SeenSets(g, kind, r, c);
    duplicate := FlipAndTest(masks, u, digit, seen[u]);
    VisitStep(g, kind, r, c, u);
    if !duplicate {
      StoreTracks(old(masks[..]), seen, u, masks[u], seen[u] + {digit});
    }
  }

  /** The body of the validator's inner loop at cell (r, c), whose digit
      is `digit`: flip and test the bit of the digit in the mask of the
      cell's row, then column, then box, stopping at the first test that
      fires. It fires exactly when one of the three units stops being clean
      at this cell; otherwise every mask goes on tracking its unit one cell
      further on. */
  method VisitCell(ghost g: Grid, rowMasks: array<bv32>, columnMasks: array<bv32>, squareMasks: array<bv32>,
                   r: int, c: int, digit: int) returns (duplicate: bool)
    requires IsDigitGrid(g) && 0 <= r < 9 && 0 <= c < 9 && digit == g[r][c]
    requires rowMasks != columnMasks && rowMasks != squareMasks && columnMasks != squareMasks
    requires MasksTrack(rowMasks[..], SeenSets(g, Row, r, c)) && Clean(g, Row, r, c)
    requires MasksTrack(columnMasks[..], SeenSets(g, Column, r, c)) && Clean(g, Column, r, c)
    requires MasksTrack(squareMasks[..], SeenSets(g, Box, r, c)) && Clean(g, Box, r, c)
    modifies rowMasks, columnMasks, squareMasks
    ensures !duplicate <==> Clean(g, Row, r, c + 1) && Clean(g, Column, r, c + 1) && Clean(g, Box, r, c + 1)
    ensures !duplicate ==>
      MasksTrack(rowMasks[..], SeenSets(g, Row, r, c + 1)) &&
      MasksTrack(columnMasks[..], SeenSets(g, Column, r, c + 1)) &&
      MasksTrack(squareMasks[..], SeenSets(g, Box, r, c + 1))
  {
    var x := c / 3;
    var y := r / 3;
    var squareIndex := x + y * 3;

    duplicate := VisitUnit(g, Row, rowMasks, r, c, r, digit);
    if duplicate {
      return;
    }
    duplicate := VisitUnit(g, Column, columnMasks, r, c, c, digit);
    if duplicate {
      return;
    }
    duplicate := VisitUnit(g, Box, squareMasks, r, c, squareIndex, digit);
  }

  /** The validator: one row-major pass over the grid that flips the bit of
      each cell's digit in the masks of its row, column and box, and answers
      false at the first flip that leaves the bit set. It answers true
      exactly when the grid is a Sudoku solution. */
  method IsValidSolution(solution: array2<int>) returns (valid: bool)
    requires solution.Length0 == 9 && solution.Length1 == 9
    requires forall r, c :: 0 <= r < 9 && 0 <= c < 9 ==> 0 <= solution[r, c] <= 9
    ensures valid <==> IsSolution(GridOf(solution))
  {
    ghost var g := GridOf(solution);
    var rowPermutation := new bv32[9];
    var columnPermutation := new bv32[9];
    var squarePermutation := new bv32[9];
    for i := 0 to 9
      invariant forall k :: 0 <= k < i ==> rowPermutation[k] == Unseen
      invariant forall k :: 0 <= k < i ==> columnPermutation[k] == Unseen
      invariant forall k :: 0 <= k < i ==> squarePermutation[k] == Unseen
    {
      rowPermutation[i], columnPermutation[i], squarePermutation[i] := Unseen, Unseen, Unseen;
    }
    Start(g, Row);
    Start(g, Column);
    Start(g, Box);
    StartMasks(rowPermutation[..], SeenSets(g, Row, 0, 0));
    StartMasks(columnPermutation[..], SeenSets(g, Column, 0, 0));
    StartMasks(squarePermutation[..], SeenSets(g, Box, 0, 0));

    for rowIndex := 0 to 9
      invariant MasksTrack(rowPermutation[..], SeenSets(g, Row, rowIndex, 0)) && Clean(g, Row, rowIndex, 0)
      invariant MasksTrack(columnPermutation[..], SeenSets(g, Column, rowIndex, 0)) && Clean(g, Column, rowIndex, 0)
      invariant MasksTrack(squarePermutation[..], SeenSets(g, Box, rowIndex, 0)) && Clean(g, Box, rowIndex, 0)
    {
      for columnIndex := 0 to 9
        invariant MasksTrack(rowPermutation[..], SeenSets(g, Row, rowIndex, columnIndex))
        invariant MasksTrack(columnPermutation[..], SeenSets(g, Column, rowIndex, columnIndex))
        invariant MasksTrack(squarePermutation[..], SeenSets(g, Box, rowIndex, columnIndex))
        invariant Clean(g, Row, rowIndex, columnIndex)
        invariant Clean(g, Column, rowIndex, columnIndex)
        invariant Clean(g, Box, rowIndex, columnIndex)
      {
        var duplicate := VisitCell(g, rowPermutation, columnPermutation, squarePermutation,
                                   rowIndex, columnIndex, solution[rowIndex, columnIndex]);
        if duplicate {
          SolutionIsClean(g, Row, rowIndex, columnIndex + 1);
          SolutionIsClean(g, Column, rowIndex, columnIndex + 1);
          SolutionIsClean(g, Box, rowIndex, columnIndex + 1);
          return false;
        }
      }
      NextRow(g, Row, rowIndex);
      NextRow(g, Column, rowIndex);
      NextRow(g, Box, rowIndex);
    }
    CleanAtEnd(g);
    return true;
  }
}
