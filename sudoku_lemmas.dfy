/** Properties of the value-level model of set and unset: the invariant they
    keep, the exact undo, the desynchronisation caused by unset after a
    rejected set, and the count of empty cells that bounds solve. */
module SudokuLemmas {
  import opened SudokuSpec

  // ------------------------------------------------- occurrences in groups

  /** After overwriting (x, y) with v, digit d occurs in group gr exactly
      when v is d and (x, y) lies in gr, or d occurs in gr at another cell. */
  lemma OccursAfterPlace(g: Grid, x: int, y: int, v: int, gr: Group, d: int)
    requires IsGrid(g) && InRange(x) && InRange(y) && IsDigit(d)
    ensures Occurs(Place(g, x, y, v), gr, d) <==>
            (InGroup(gr, x, y) && v == d) || OccursElsewhere(g, gr, d, x, y)
  {
    var g' := Place(g, x, y, v);
    if Occurs(g', gr, d) {
      var x', y' :| InRange(x') && InRange(y') && InGroup(gr, x', y') && g'[x'][y'] == d;
      if (x', y') != (x, y) {
        assert InRange(x') && InRange(y') && InGroup(gr, x', y') && (x', y') != (x, y) && g[x'][y'] == d;
      }
    }
    if InGroup(gr, x, y) && v == d {
      assert InRange(x) && InRange(y) && InGroup(gr, x, y) && g'[x][y] == d;
    }
    if OccursElsewhere(g, gr, d, x, y) {
      var x', y' :| InRange(x') && InRange(y') && InGroup(gr, x', y') && (x', y') != (x, y) && g[x'][y'] == d;
      assert InRange(x') && InRange(y') && InGroup(gr, x', y') && g'[x'][y'] == d;
    }
  }

  /** When (x, y) does not hold d inside gr, "d elsewhere in gr" is just
      "d in gr". */
  lemma ElsewhereIsOccurs(g: Grid, gr: Group, d: int, x: int, y: int)
    requires IsGrid(g) && InRange(x) && InRange(y)
    requires g[x][y] != d || !InGroup(gr, x, y)
    ensures OccursElsewhere(g, gr, d, x, y) <==> Occurs(g, gr, d)
  {
    if Occurs(g, gr, d) {
      var x', y' :| InRange(x') && InRange(y') && InGroup(gr, x', y') && g[x'][y'] == d;
      assert InRange(x') && InRange(y') && InGroup(gr, x', y') && (x', y') != (x, y) && g[x'][y'] == d;
    }
  }

  /** A cell of group gr makes its content occur in gr. */
  lemma OccursAt(g: Grid, gr: Group, x: int, y: int)
    requires IsGrid(g) && InRange(x) && InRange(y) && InGroup(gr, x, y)
    ensures Occurs(g, gr, g[x][y])
  {
  }

  /** On a grid without duplicates, a digit placed at (x, y) occurs nowhere
      else in a group that contains (x, y). */
  lemma NotElsewhere(g: Grid, gr: Group, d: int, x: int, y: int)
    requires IsGrid(g) && InRange(x) && InRange(y) && NoDuplicates(g)
    requires g[x][y] == d && d != 0 && InGroup(gr, x, y)
    ensures !OccursElsewhere(g, gr, d, x, y)
  {
  }

  // ------------------------------------------------------------- set / unset

  /** With masks that mirror the board, set(d, x, y) succeeds exactly when d
      is not yet placed in the horizontal line, the vertical line or the
      block of (x, y). */
  lemma AssignIffRuleAllows(s: BoardState, d: int, x: int, y: int)
    requires WellFormed(s) && Mirrors(s) && IsDigit(d) && InRange(x) && InRange(y)
    ensures Assign(s, d, x, y).0 <==>
            !Occurs(s.cells, Hor(y), d) && !Occurs(s.cells, Vert(x), d) && !Occurs(s.cells, Blk(Block(x, y)), d)
  {
    assert MaskOf(s, Hor(y)) == s.hor[y] && MaskOf(s, Vert(x)) == s.vert[x];
    assert MaskOf(s, Blk(Block(x, y))) == s.blk[Block(x, y)];
  }

  /** On a cell holding 0, set keeps the masks mirroring the board, whether
      it succeeds or not. */
  lemma AssignKeepsMirrors(s: BoardState, d: int, x: int, y: int)
    requires WellFormed(s) && Mirrors(s) && IsDigit(d) && InRange(x) && InRange(y)
    requires s.cells[x][y] == 0
    ensures Mirrors(Assign(s, d, x, y).1)
  {
    AssignEffect(s, d, x, y);
    var (ok, s') := Assign(s, d, x, y);
    if ok {
      forall gr, e | IsGroup(gr) && IsDigit(e)
        ensures Has(MaskOf(s', gr), e) <==> Occurs(s'.cells, gr, e)
      {
        AddHas(MaskOf(s, gr), d);
        OccursAfterPlace(s.cells, x, y, d, gr, e);
        ElsewhereIsOccurs(s.cells, gr, e, x, y);
      }
    }
  }

  /** After a successful set(d, x, y), d is recorded in the three masks of
      (x, y), so setting d again anywhere in that horizontal line, vertical
      line or block is rejected. */
  lemma AssignBlocksSameDigit(s: BoardState, d: int, x: int, y: int, x2: int, y2: int)
    requires WellFormed(s) && IsDigit(d) && InRange(x) && InRange(y) && InRange(x2) && InRange(y2)
    requires Assign(s, d, x, y).0
    requires x2 == x || y2 == y || Block(x2, y2) == Block(x, y)
    ensures !Assign(Assign(s, d, x, y).1, d, x2, y2).0
  {
    var s' := Assign(s, d, x, y).1;
    AssignEffect(s, d, x, y);
    AddHas(s.hor[y], d);
    AddHas(s.vert[x], d);
    AddHas(s.blk[Block(x, y)], d);
    assert s'.hor[y] == Add(s.hor[y], d);
    assert s'.vert[x] == Add(s.vert[x], d);
    assert s'.blk[Block(x, y)] == Add(s.blk[Block(x, y)], d);
  }

  /** A successful set never puts a digit twice into a line or a block. */
  lemma AssignKeepsNoDuplicates(s: BoardState, d: int, x: int, y: int)
    requires WellFormed(s) && Mirrors(s) && NoDuplicates(s.cells) && IsDigit(d) && InRange(x) && InRange(y)
    requires s.cells[x][y] == 0
    ensures NoDuplicates(Assign(s, d, x, y).1.cells)
  {
    AssignEffect(s, d, x, y);
    var (ok, s') := Assign(s, d, x, y);
    if ok {
      var g, g' := s.cells, s'.cells;
      forall gr, x1, y1, x2, y2 |
        InRange(x1) && InRange(y1) && InRange(x2) && InRange(y2) &&
        InGroup(gr, x1, y1) && InGroup(gr, x2, y2) && (x1, y1) != (x2, y2) && g'[x1][y1] != 0
        ensures g'[x1][y1] != g'[x2][y2]
      {
        if (x1, y1) == (x, y) {
          OccursAt(g, gr, x2, y2);
        } else if (x2, y2) == (x, y) {
          OccursAt(g, gr, x1, y1);
        }
      }
    }
  }

  /** On a cell holding 0, set keeps the whole invariant: masks mirror the
      board, and no digit appears twice in a line or a block. */
  lemma AssignKeepsConsistent(s: BoardState, d: int, x: int, y: int)
    requires Consistent(s) && IsDigit(d) && InRange(x) && InRange(y)
    requires s.cells[x][y] == 0
    ensures Consistent(Assign(s, d, x, y).1)
  {
    AssignKeepsMirrors(s, d, x, y);
    AssignKeepsNoDuplicates(s, d, x, y);
    AddHas(s.hor[y], d);
    AddHas(s.vert[x], d);
    AddHas(s.blk[Block(x, y)], d);
  }

  /** unset of the digit a cell holds keeps the whole invariant. */
  lemma ClearKeepsConsistent(s: BoardState, d: int, x: int, y: int)
    requires Consistent(s) && IsDigit(d) && InRange(x) && InRange(y)
    requires s.cells[x][y] == d
    ensures Consistent(Clear(s, d, x, y))
  {
    var s' := Clear(s, d, x, y);
    ClearEffect(s, d, x, y);
    RemoveHas(s.hor[y], d);
    RemoveHas(s.vert[x], d);
    RemoveHas(s.blk[Block(x, y)], d);
    forall gr, e | IsGroup(gr) && IsDigit(e)
      ensures Has(MaskOf(s', gr), e) <==> Occurs(s'.cells, gr, e)
    {
      RemoveHas(MaskOf(s, gr), d);
      OccursAfterPlace(s.cells, x, y, 0, gr, e);
      if e == d && InGroup(gr, x, y) {
        NotElsewhere(s.cells, gr, d, x, y);
      } else {
        ElsewhereIsOccurs(s.cells, gr, e, x, y);
      }
    }
  }

  /** A successful set on a cell holding 0 followed by unset of the same digit
      gives back the exact prior board: the cell and every mask bit. */
  lemma AssignClearRestores(s: BoardState, d: int, x: int, y: int)
    requires WellFormed(s) && IsDigit(d) && InRange(x) && InRange(y)
    requires s.cells[x][y] == 0 && Assign(s, d, x, y).0
    ensures Clear(Assign(s, d, x, y).1, d, x, y) == s
  {
    var s' := Assign(s, d, x, y).1;
    var k := Block(x, y);
    RemoveAdd(s.hor[y], d);
    RemoveAdd(s.vert[x], d);
    RemoveAdd(s.blk[k], d);
    var r := Clear(s', d, x, y);
    assert r.cells[x] == s.cells[x];
    assert r.cells == s.cells;
    assert r.hor == s.hor;
    assert r.vert == s.vert;
    assert r.blk == s.blk;
  }

  /** solve calls unset after a REJECTED set (sudokusolv.cc:67-68). On a
      consistent board this clears bit d-1 in the three masks although the
      digit d that blocked the set is still on the board elsewhere, so the
      masks no longer mirror the board. */
  lemma ClearAfterRejectedAssignBreaksMirrors(s: BoardState, d: int, x: int, y: int)
    requires Consistent(s) && IsDigit(d) && InRange(x) && InRange(y)
    requires s.cells[x][y] == 0 && !Assign(s, d, x, y).0
    ensures !Mirrors(Clear(s, d, x, y))
  {
    var s' := Clear(s, d, x, y);
    AssignEffect(s, d, x, y);
    ClearEffect(s, d, x, y);
    var gr :| IsGroup(gr) && InGroup(gr, x, y) && Has(MaskOf(s, gr), d);
    assert Occurs(s.cells, gr, d);
    ElsewhereIsOccurs(s.cells, gr, d, x, y);
    OccursAfterPlace(s.cells, x, y, 0, gr, d);
    RemoveHas(MaskOf(s, gr), d);
    assert !Has(MaskOf(s', gr), d) && Occurs(s'.cells, gr, d);
  }

  // ------------------------------------------------------------ empty cells

  /** The number of cells holding 0 in a line of the board. */
  function ZerosIn(line: seq<int>): (n: nat)
    ensures n == 0 <==> forall i :: 0 <= i < |line| ==> line[i] != 0
  {
    if line == [] then 0 else (if line[0] == 0 then 1 else 0) + ZerosIn(line[1..])
  }

  /** The number of cells holding 0 on the board; it is 0 exactly when every
      cell holds a digit. */
  function Zeros(g: Grid): (n: nat)
    ensures n == 0 <==> forall x, y :: 0 <= x < |g| && 0 <= y < |g[x]| ==> g[x][y] != 0
  {
    if g == [] then 0 else ZerosIn(g[0]) + Zeros(g[1..])
  }

  lemma {:induction false} ZerosInUpdate(line: seq<int>, j: int, v: int)
    requires 0 <= j < |line|
    ensures ZerosIn(line[j := v]) ==
            ZerosIn(line) - (if line[j] == 0 then 1 else 0) + (if v == 0 then 1 else 0)
  {
    if j == 0 {
      assert line[j := v][1..] == line[1..];
    } else {
      assert line[j := v][1..] == line[1..][j - 1 := v];
      ZerosInUpdate(line[1..], j - 1, v);
    }
  }

  lemma {:induction false} ZerosUpdate(g: Grid, x: int, line: seq<int>)
    requires 0 <= x < |g|
    ensures Zeros(g[x := line]) == Zeros(g) - ZerosIn(g[x]) + ZerosIn(line)
  {
    if x == 0 {
      assert g[x := line][1..] == g[1..];
    } else {
      assert g[x := line][1..] == g[1..][x - 1 := line];
      ZerosUpdate(g[1..], x - 1, line);
    }
  }

  /** Writing a digit into a cell holding 0 removes exactly one empty cell;
      writing 0 into a cell holding 0 changes nothing. */
  lemma ZerosPlace(g: Grid, x: int, y: int, v: int)
    requires IsGrid(g) && InRange(x) && InRange(y)
    ensures Zeros(Place(g, x, y, v)) ==
            Zeros(g) - (if g[x][y] == 0 then 1 else 0) + (if v == 0 then 1 else 0)
  {
    ZerosInUpdate(g[x], y, v);
    ZerosUpdate(g, x, g[x][y := v]);
  }
}
