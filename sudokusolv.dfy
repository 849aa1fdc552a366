/** The SudokuBoard class of sudokusolv.cc and the backtracking function
    solve that runs over it. */
module Sudokusolv {
  import opened SudokuSpec
  import opened SudokuLemmas

  /** A 9x9 board with the three families of digit masks, updated in place. */
  class SudokuBoard {
    const board: array2<int>
    const horSet: array<bv16>
    const vertSet: array<bv16>
    const blockSet: array<bv16>

    /** The arrays have the sizes of the C++ members and are distinct. */
    ghost predicate Valid()
    {
      board.Length0 == 9 && board.Length1 == 9 &&
      horSet.Length == 9 && vertSet.Length == 9 && blockSet.Length == 9 &&
      horSet != vertSet && horSet != blockSet && vertSet != blockSet
    }

    /** The cells of the board, indexed [x][y]. */
    ghost function Cells(): (g: Grid)
      requires Valid()
      reads board
      ensures IsGrid(g)
      ensures forall x, y :: InRange(x) && InRange(y) ==> g[x][y] == board[x, y]
    {
      seq(9, x requires InRange(x) reads board => seq(9, y requires InRange(y) reads board => board[x, y]))
    }

    /** The whole state of the board as a value. */
    ghost function State(): (s: BoardState)
      requires Valid()
      reads board, horSet, vertSet, blockSet
      ensures WellFormed(s)
    {
      BoardState(Cells(), horSet[..], vertSet[..], blockSet[..])
    }

    /** A board starts empty; the masks then hold no digit. */
    constructor ()
      ensures Valid() && State() == EmptyBoard()
      ensures fresh(board) && fresh(horSet) && fresh(vertSet) && fresh(blockSet)
    {
      board := new int[9, 9]((x, y) => 0);
      horSet := new bv16[9](i => 0);
      vertSet := new bv16[9](i => 0);
      blockSet := new bv16[9](i => 0);
      new;
      GridExt(Cells(), EmptyBoard().cells);
    }

    /** operator()(x, y): the digit in cell (x, y), or 0 for an empty cell. */
    function At(x: int, y: int): (v: int)
      requires Valid() && InRange(x) && InRange(y)
      reads board
      ensures v == Cells()[x][y]
    {
      board[x, y]
    }

    /** set(num, x, y): places num at (x, y) unless num is already recorded in
        the masks of its horizontal line, vertical line or block. */
    method Set(num: int, x: int, y: int) returns (ok: bool)
      requires Valid() && IsDigit(num) && InRange(x) && InRange(y)
      modifies board, horSet, vertSet, blockSet
      ensures (ok, State()) == Assign(old(State()), num, x, y)
      ensures old(Consistent(State())) && old(board[x, y]) == 0 ==> Consistent(State())
    {
      ghost var s0 := State();
      var mask := Bit(num);
      if horSet[y] & mask != 0 {
        assert !Fits(s0, num, x, y);
        return false;
      } else if vertSet[x] & mask != 0 {
        assert !Fits(s0, num, x, y);
        return false;
      }
      var k := Block(x, y);
      if blockSet[k] & mask != 0 {
        assert !Fits(s0, num, x, y);
        return false;
      }
      assert Fits(s0, num, x, y);
      board[x, y] := num;
      horSet[y] := Add(horSet[y], num);
      vertSet[x] := Add(vertSet[x], num);
      blockSet[k] := Add(blockSet[k], num);
      ok := true;
      GridExt(Cells(), Place(s0.cells, x, y, num));
      if Consistent(s0) && s0.cells[x][y] == 0 {
        AssignKeepsConsistent(s0, num, x, y);
      }
    }

    /** unset(num, x, y): empties (x, y) and clears num in its three masks,
        whatever the cell held before. */
    method Unset(num: int, x: int, y: int)
      requires Valid() && IsDigit(num) && InRange(x) && InRange(y)
      modifies board, horSet, vertSet, blockSet
      ensures State() == Clear(old(State()), num, x, y)
      ensures old(Consistent(State())) && old(board[x, y]) == num ==> Consistent(State())
    {
      ghost var s0 := State();
      if s0.cells[x][y] == num && Consistent(s0) {
        ClearKeepsConsistent(s0, num, x, y);
      }
      var k := Block(x, y);
      board[x, y] := 0;
      horSet[y] := Remove(horSet[y], num);
      vertSet[x] := Remove(vertSet[x], num);
      blockSet[k] := Remove(blockSet[k], num);
      GridExt(Cells(), Place(s0.cells, x, y, 0));
    }
  }

  /** solve(board) as written: row-major backtracking that tries 1..9 at every
      cell holding 0. It never returns true (its only `return true` needs a
      recursive call to return true, and there is no base case), and every
      cell holds on return what it held on entry. The masks are not restored:
      the unset after a rejected set clears bits owned by other cells. */
  method Solve(board: SudokuBoard) returns (solved: bool)
    requires board.Valid()
    modifies board.board, board.horSet, board.vertSet, board.blockSet
    ensures !solved
    ensures board.Cells() == old(board.Cells())
    decreases Zeros(board.Cells())
  {
    ghost var entry := board.Cells();
    for i := 0 to 9
      invariant board.Cells() == entry
    {
      for j := 0 to 9
        invariant board.Cells() == entry
      {
        if board.At(i, j) != 0 {
          continue;
        }
        for v := 1 to 10
          invariant board.Cells() == entry
        {
          PlaceSame(entry, i, j);
          var ok := board.Set(v, i, j);
          if !ok {
            board.Unset(v, i, j);
            continue;
          }
          ZerosPlace(entry, i, j, v);
          var r := Solve(board);
          if r {
            return true;
          }
          board.Unset(v, i, j);
          PlaceOver(entry, i, j, v, 0);
        }
      }
    }
    return false;
  }
}
