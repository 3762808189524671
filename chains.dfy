/**
 * What a win is: WinningChainLength consecutive cells along one of four
 * directions, all on the board and all holding the same piece. This module
 * also states the start cells the win scan visits for each direction and
 * proves that they are exactly the cells from which a whole chain fits.
 */
module Chains {
  import opened Board

  /** The four direction families the scan checks. */
  datatype Direction = Horizontal | Vertical | PositiveDiagonal | NegativeDiagonal

  /** Row change per step: up for vertical and positive-slope, down for negative-slope. */
  function RowStep(d: Direction): int {
    match d
    case Horizontal => 0
    case Vertical => 1
    case PositiveDiagonal => 1
    case NegativeDiagonal => -1
  }

  /** Column change per step: every direction but vertical moves one column right. */
  function ColStep(d: Direction): int {
    if d == Vertical then 0 else 1
  }

  /** Row of the i-th cell of the chain that starts in row r. */
  function RowAt(r: int, d: Direction, i: int): int {
    r + i * RowStep(d)
  }

  /** Column of the i-th cell of the chain that starts in column c. */
  function ColAt(c: int, d: Direction, i: int): int {
    c + i * ColStep(d)
  }

  /** Every cell of the chain starting at (r, c) in direction d lies on the board. */
  predicate Fits(r: int, c: int, d: Direction) {
    forall i :: 0 <= i < WinningChainLength ==> InBounds(RowAt(r, d, i), ColAt(c, d, i))
  }

  /** The chain starting at (r, c) in direction d fits and every one of its cells holds `piece`. */
  ghost predicate ChainAt(g: Grid, piece: int, r: int, c: int, d: Direction)
    requires WellFormed(g)
  {
    forall i :: 0 <= i < WinningChainLength ==>
      InBounds(RowAt(r, d, i), ColAt(c, d, i)) && g[RowAt(r, d, i)][ColAt(c, d, i)] == piece
  }

  /** `piece` has a winning chain somewhere on the board. */
  ghost predicate HasChain(g: Grid, piece: int)
    requires WellFormed(g)
  {
    exists r, c, d :: ChainAt(g, piece, r, c, d)
  }

  /**
   * The start cells the win scan visits for direction d, written with the
   * loop bounds of the scan (limit = WinningChainLength - 1).
   */
  predicate ScanStart(d: Direction, r: int, c: int) {
    var limit := WinningChainLength - 1;
    match d
    case Horizontal => 0 <= r < RowCount && 0 <= c < ColumnCount - limit
    case Vertical => 0 <= c < ColumnCount && 0 <= r < RowCount - limit
    case PositiveDiagonal => 0 <= r < RowCount - limit && 0 <= c < ColumnCount - limit
    case NegativeDiagonal => WinningChainLength - 1 <= r < RowCount && 0 <= c < ColumnCount - limit
  }

  /**
   * The scan's loop bounds are exact: a start cell is visited if and only if
   * the whole chain from it stays on the board. So every index the scan
   * reads is in bounds, and no chain that fits is skipped.
   */
  lemma ScanStartIffFits(r: int, c: int, d: Direction)
    ensures ScanStart(d, r, c) <==> Fits(r, c, d)
  {
    var last := WinningChainLength - 1;
    if Fits(r, c, d) {
      assert InBounds(RowAt(r, d, 0), ColAt(c, d, 0));
      assert InBounds(RowAt(r, d, last), ColAt(c, d, last));
    }
  }

  /** Every chain starts at a cell the scan visits. */
  lemma ChainStartsInScan(g: Grid, piece: int, r: int, c: int, d: Direction)
    requires WellFormed(g) && ChainAt(g, piece, r, c, d)
    ensures ScanStart(d, r, c)
  {
    ScanStartIffFits(r, c, d);
  }

  /**
   * If no visited start cell of any direction begins a chain of `piece`,
   * then `piece` has no chain at all.
   */
  lemma NoChainFromScan(g: Grid, piece: int)
    requires WellFormed(g)
    requires forall r, c, d :: ScanStart(d, r, c) ==> !ChainAt(g, piece, r, c, d)
    ensures !HasChain(g, piece)
  {
    if HasChain(g, piece) {
      var r, c, d :| ChainAt(g, piece, r, c, d);
      ChainStartsInScan(g, piece, r, c, d);
    }
  }

  /** No player, and no piece other than 0, has a chain on the empty board. */
  lemma NoChainOnEmptyGrid(piece: int)
    requires piece != 0
    ensures !HasChain(EmptyGrid(), piece)
  {
    forall r, c, d ensures !ChainAt(EmptyGrid(), piece, r, c, d) {
      if InBounds(RowAt(r, d, 0), ColAt(c, d, 0)) {
        assert EmptyGrid()[RowAt(r, d, 0)][ColAt(c, d, 0)] != piece;
      }
    }
  }

  /**
   * Asked about piece 0, the win test reports a chain on the empty board:
   * the empty cells themselves form one.
   */
  lemma EmptyGridHasZeroChain()
    ensures HasChain(EmptyGrid(), 0)
  {
    assert ChainAt(EmptyGrid(), 0, 0, 0, Horizontal);
  }

  /**
   * Writing piece p into one cell never gives a different piece q a chain
   * it did not already have: a chain of q cannot contain the cell holding p.
   */
  lemma PlaceKeepsOtherChainless(g: Grid, row: int, col: int, p: int, q: int)
    requires WellFormed(g) && InBounds(row, col) && p != q
    requires !HasChain(g, q)
    ensures !HasChain(Place(g, row, col, p), q)
  {
    var g' := Place(g, row, col, p);
    if HasChain(g', q) {
      var r, c, d :| ChainAt(g', q, r, c, d);
      assert ChainAt(g, q, r, c, d);
    }
  }
}
