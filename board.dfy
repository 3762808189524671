/**
 * The Connect Four board as a value: a grid of RowCount rows by ColumnCount
 * columns, row 0 at the bottom. A cell holds 0 when it is empty and a
 * player's piece (1 or 2) otherwise. This module states what the board
 * operations mean; the imperative layer (module Engine) works on an
 * array2<int> and is proved against these definitions.
 */
module Board {

  /** The classic board parameters. */
  const RowCount: nat := 6
  const ColumnCount: nat := 7
  const WinningChainLength: nat := 4

  type Grid = seq<seq<int>>

  predicate InBounds(r: int, c: int) {
    0 <= r < RowCount && 0 <= c < ColumnCount
  }

  /** The grid has exactly RowCount rows of ColumnCount cells. */
  predicate WellFormed(g: Grid) {
    |g| == RowCount && forall r :: 0 <= r < |g| ==> |g[r]| == ColumnCount
  }

  /** Every cell is empty or holds the piece of player 1 or player 2. */
  ghost predicate Pieces(g: Grid)
    requires WellFormed(g)
  {
    forall r, c :: InBounds(r, c) ==> g[r][c] in {0, 1, 2}
  }

  /**
   * Gravity: in every column the occupied cells form a contiguous run that
   * starts at row 0, i.e. no empty cell lies below an occupied one.
   */
  ghost predicate Gravity(g: Grid)
    requires WellFormed(g)
  {
    forall r1, r2, c :: 0 <= r1 < r2 < RowCount && 0 <= c < ColumnCount && g[r2][c] != 0 ==> g[r1][c] != 0
  }

  /** The board of a new game: every cell empty. */
  function EmptyGrid(): (g: Grid)
    ensures WellFormed(g)
    ensures forall r, c :: InBounds(r, c) ==> g[r][c] == 0
  {
    seq(RowCount, _ => seq(ColumnCount, _ => 0))
  }

  /** The grid after `piece` is written into cell (row, col); nothing is checked. */
  function Place(g: Grid, row: int, col: int, piece: int): (g': Grid)
    requires WellFormed(g) && InBounds(row, col)
    ensures WellFormed(g')
    ensures g'[row][col] == piece
    ensures forall r, c :: InBounds(r, c) && (r != row || c != col) ==> g'[r][c] == g[r][c]
  {
    g[row := g[row][col := piece]]
  }

  /** A column accepts a drop when it is on the board and its top cell is empty. */
  predicate ValidLocation(g: Grid, col: int)
    requires WellFormed(g)
  {
    0 <= col < ColumnCount && g[RowCount - 1][col] == 0
  }

  /**
   * The first empty row of column `col` at or above row `from`, when every
   * row below `from` is occupied. The top cell being empty guarantees that
   * one exists.
   */
  function OpenRowFrom(g: Grid, col: int, from: nat): (row: nat)
    requires WellFormed(g) && ValidLocation(g, col) && from < RowCount
    requires forall r :: 0 <= r < from ==> g[r][col] != 0
    ensures from <= row < RowCount && g[row][col] == 0
    ensures forall r :: 0 <= r < row ==> g[r][col] != 0
    decreases RowCount - from
  {
    if g[from][col] == 0 then from else OpenRowFrom(g, col, from + 1)
  }

  /** The lowest empty row of a column that accepts a drop. */
  function NextOpenRow(g: Grid, col: int): (row: nat)
    requires WellFormed(g) && ValidLocation(g, col)
    ensures row < RowCount && g[row][col] == 0
    ensures forall r :: 0 <= r < row ==> g[r][col] != 0
  {
    OpenRowFrom(g, col, 0)
  }

  /** Number of occupied (non-zero) cells in a row. */
  function CountOccupied(s: seq<int>): nat {
    if s == [] then 0 else (if s[0] != 0 then 1 else 0) + CountOccupied(s[1..])
  }

  /** Number of occupied cells on the whole grid. */
  function Occupied(g: Grid): nat {
    if g == [] then 0 else CountOccupied(g[0]) + Occupied(g[1..])
  }

  /**
   * Under gravity, a column accepts a drop exactly when it is on the board
   * and has an empty cell somewhere.
   */
  lemma ValidLocationIffRoom(g: Grid, col: int)
    requires WellFormed(g) && Gravity(g)
    ensures ValidLocation(g, col) <==> 0 <= col < ColumnCount && exists r :: 0 <= r < RowCount && g[r][col] == 0
  {
  }

  /** On a full board every column is refused, so the game can no longer move. */
  lemma FullBoardRejectsEveryColumn(g: Grid)
    requires WellFormed(g)
    requires forall r, c :: InBounds(r, c) ==> g[r][c] != 0
    ensures forall col :: !ValidLocation(g, col)
  {
  }

  /**
   * Under gravity the next open row is the top of the column's stack: every
   * cell below it is occupied and every cell from it upwards is empty.
   */
  lemma NextOpenRowIsStackTop(g: Grid, col: int)
    requires WellFormed(g) && Gravity(g) && ValidLocation(g, col)
    ensures forall r :: 0 <= r < RowCount ==> (g[r][col] == 0 <==> NextOpenRow(g, col) <= r)
  {
  }

  /** Dropping a piece on top of a column's stack keeps gravity. */
  lemma PlacePreservesGravity(g: Grid, col: int, piece: int)
    requires WellFormed(g) && Gravity(g) && ValidLocation(g, col)
    ensures Gravity(Place(g, NextOpenRow(g, col), col, piece))
  {
  }

  lemma {:induction false} CountOccupiedUpdate(s: seq<int>, i: nat, v: int)
    requires i < |s| && s[i] == 0 && v != 0
    ensures CountOccupied(s[i := v]) == CountOccupied(s) + 1
  {
    if i == 0 {
      assert s[i := v][1..] == s[1..];
    } else {
      assert s[i := v][1..] == s[1..][i - 1 := v];
      CountOccupiedUpdate(s[1..], i - 1, v);
    }
  }

  lemma {:induction false} OccupiedUpdate(g: Grid, r: nat, row: seq<int>)
    requires r < |g| && CountOccupied(row) == CountOccupied(g[r]) + 1
    ensures Occupied(g[r := row]) == Occupied(g) + 1
  {
    if r == 0 {
      assert g[r := row][1..] == g[1..];
    } else {
      assert g[r := row][1..] == g[1..][r - 1 := row];
      OccupiedUpdate(g[1..], r - 1, row);
    }
  }

  /** Writing a piece into an empty cell adds exactly one occupied cell. */
  lemma PlaceAddsOne(g: Grid, row: int, col: int, piece: int)
    requires WellFormed(g) && InBounds(row, col) && g[row][col] == 0 && piece != 0
    ensures Occupied(Place(g, row, col, piece)) == Occupied(g) + 1
  {
    CountOccupiedUpdate(g[row], col, piece);
    OccupiedUpdate(g, row, g[row][col := piece]);
  }

  lemma {:induction false} CountOccupiedZeros(s: seq<int>)
    requires forall i :: 0 <= i < |s| ==> s[i] == 0
    ensures CountOccupied(s) == 0
  {
    if s != [] {
      CountOccupiedZeros(s[1..]);
    }
  }

  lemma {:induction false} OccupiedZeros(g: Grid)
    requires forall r, c :: 0 <= r < |g| && 0 <= c < |g[r]| ==> g[r][c] == 0
    ensures Occupied(g) == 0
  {
    if g != [] {
      CountOccupiedZeros(g[0]);
      OccupiedZeros(g[1..]);
    }
  }

  /** The new board has no occupied cell, holds only legal values and satisfies gravity. */
  lemma EmptyGridInvariants()
    ensures Occupied(EmptyGrid()) == 0
    ensures Pieces(EmptyGrid()) && Gravity(EmptyGrid())
  {
    OccupiedZeros(EmptyGrid());
  }
}
