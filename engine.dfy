/**
 * The board operations on the board as the program keeps it: a two-
 * dimensional array of ints mutated in place. Each operation is proved
 * against the value-level definitions of modules Board and Chains through
 * Snapshot, the grid the array currently holds.
 */
module Engine {
  import opened Board
  import opened Chains

  /** The array has the board's dimensions. */
  predicate Shaped(board: array2<int>) {
    board.Length0 == RowCount && board.Length1 == ColumnCount
  }

  /** The grid the array currently holds, as a value. */
  ghost function Snapshot(board: array2<int>): (g: Grid)
    reads board
    requires Shaped(board)
    ensures WellFormed(g)
    ensures forall r, c :: InBounds(r, c) ==> g[r][c] == board[r, c]
  {
    seq(RowCount, r requires 0 <= r < RowCount reads board =>
      seq(ColumnCount, c requires 0 <= c < ColumnCount reads board => board[r, c]))
  }

  /** A fresh board with every cell empty. */
  method CreateBoard() returns (board: array2<int>)
    ensures fresh(board) && Shaped(board)
    ensures Snapshot(board) == EmptyGrid()
  {
    board := new int[RowCount, ColumnCount]((r, c) => 0);
    ghost var g := Snapshot(board);
    forall r | 0 <= r < RowCount
      ensures g[r] == EmptyGrid()[r]
    {
    }
  }

  /** Writes `piece` into cell (row, col) and touches no other cell. */
  method DropPiece(board: array2<int>, row: int, col: int, piece: int)
    requires Shaped(board) && InBounds(row, col)
    modifies board
    ensures Snapshot(board) == Place(old(Snapshot(board)), row, col, piece)
  {
    board[row, col] := piece;
    ghost var g, g' := old(Snapshot(board)), Snapshot(board);
    forall r | 0 <= r < RowCount
      ensures g'[r] == Place(g, row, col, piece)[r]
    {
    }
  }

  /**
   * Whether column `col` accepts a drop. The range test comes first, so a
   * column off the board is refused without reading the array.
   */
  function IsValidLocation(board: array2<int>, col: int): (ok: bool)
    reads board
    requires Shaped(board)
    ensures ok <==> ValidLocation(Snapshot(board), col)
    ensures ok ==> 0 <= col < ColumnCount
  {
    0 <= col < ColumnCount && board[RowCount - 1, col] == 0
  }

  /**
   * The lowest empty row of a column that accepts a drop, found by
   * scanning upwards from row 0 and stopping at the first empty cell.
   */
  method GetNextOpenRow(board: array2<int>, col: int) returns (row: int)
    requires Shaped(board) && IsValidLocation(board, col)
    ensures 0 <= row < RowCount && board[row, col] == 0
    ensures forall r :: 0 <= r < row ==> board[r, col] != 0
    ensures row == NextOpenRow(Snapshot(board), col)
  {
    row := 0;
    while board[row, col] != 0
      invariant 0 <= row < RowCount
      invariant forall r :: 0 <= r < row ==> board[r, col] != 0
      decreases RowCount - row
    {
      row := row + 1;
    }
    ghost var g := Snapshot(board);
    assert row == NextOpenRow(g, col) by {
      var expected := NextOpenRow(g, col);
      assert !(row < expected) && !(expected < row);
    }
  }

  /**
   * Whether every cell of the chain from (r, c) in direction d holds
   * `piece`; stops at the first cell that does not.
   */
  method AllMatch(board: array2<int>, piece: int, r: int, c: int, d: Direction) returns (all: bool)
    requires Shaped(board) && ScanStart(d, r, c)
    ensures all == ChainAt(Snapshot(board), piece, r, c, d)
  {
    ScanStartIffFits(r, c, d);
    var i := 0;
    while i < WinningChainLength
      invariant 0 <= i <= WinningChainLength
      invariant forall j :: 0 <= j < i ==> board[RowAt(r, d, j), ColAt(c, d, j)] == piece
    {
      if board[RowAt(r, d, i), ColAt(c, d, i)] != piece {
        return false;
      }
      i := i + 1;
    }
    return true;
  }

  /**
   * Whether `piece` has a winning chain: scans the horizontal, vertical,
   * positive-slope and negative-slope families in that order, each over
   * the start cells from which a whole chain fits, and answers true at the
   * first chain found. The board is only read.
   */
  method WinningMove(board: array2<int>, piece: int) returns (win: bool)
    requires Shaped(board)
    ensures win == HasChain(Snapshot(board), piece)
  {
    ghost var g := Snapshot(board);
    var limit := WinningChainLength - 1;

    // Horizontal: rows ascending, start columns ascending.
    var r := 0;
    while r < RowCount
      invariant 0 <= r <= RowCount
      invariant forall r', c' :: ScanStart(Horizontal, r', c') && r' < r ==> !ChainAt(g, piece, r', c', Horizontal)
    {
      var c := 0;
      while c < ColumnCount - limit
        invariant 0 <= c <= ColumnCount - limit
        invariant forall r', c' :: ScanStart(Horizontal, r', c') && (r' < r || (r' == r && c' < c)) ==> !ChainAt(g, piece, r', c', Horizontal)
      {
        var all := AllMatch(board, piece, r, c, Horizontal);
        if all {
          return true;
        }
        c := c + 1;
      }
      r := r + 1;
    }

    // Vertical: columns ascending, start rows ascending.
    var c := 0;
    while c < ColumnCount
      invariant 0 <= c <= ColumnCount
      invariant forall r', c' :: ScanStart(Vertical, r', c') && c' < c ==> !ChainAt(g, piece, r', c', Vertical)
    {
      r := 0;
      while r < RowCount - limit
        invariant 0 <= r <= RowCount - limit
        invariant forall r', c' :: ScanStart(Vertical, r', c') && (c' < c || (c' == c && r' < r)) ==> !ChainAt(g, piece, r', c', Vertical)
      {
        var all := AllMatch(board, piece, r, c, Vertical);
        if all {
          return true;
        }
        r := r + 1;
      }
      c := c + 1;
    }

    // Positively sloped diagonals: start rows ascending, start columns ascending.
    r := 0;
    while r < RowCount - limit
      invariant 0 <= r <= RowCount - limit
      invariant forall r', c' :: ScanStart(PositiveDiagonal, r', c') && r' < r ==> !ChainAt(g, piece, r', c', PositiveDiagonal)
    {
      c := 0;
      while c < ColumnCount - limit
        invariant 0 <= c <= ColumnCount - limit
        invariant forall r', c' :: ScanStart(PositiveDiagonal, r', c') && (r' < r || (r' == r && c' < c)) ==> !ChainAt(g, piece, r', c', PositiveDiagonal)
      {
        var all := AllMatch(board, piece, r, c, PositiveDiagonal);
        if all {
          return true;
        }
        c := c + 1;
      }
      r := r + 1;
    }

    // Negatively sloped diagonals: start rows ascending from WinningChainLength - 1, start columns ascending.
    r := WinningChainLength - 1;
    while r < RowCount
      invariant WinningChainLength - 1 <= r <= RowCount
      invariant forall r', c' :: ScanStart(NegativeDiagonal, r', c') && r' < r ==> !ChainAt(g, piece, r', c', NegativeDiagonal)
    {
      c := 0;
      while c < ColumnCount - limit
        invariant 0 <= c <= ColumnCount - limit
        invariant forall r', c' :: ScanStart(NegativeDiagonal, r', c') && (r' < r || (r' == r && c' < c)) ==> !ChainAt(g, piece, r', c', NegativeDiagonal)
      {
        var all := AllMatch(board, piece, r, c, NegativeDiagonal);
        if all {
          return true;
        }
        c := c + 1;
      }
      r := r + 1;
    }

    NoChainFromScan(g, piece);
    return false;
  }
}
