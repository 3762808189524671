/**
 * The game loop: the board, whose turn it is (0 for player 1, 1 for
 * player 2) and whether the game is over. One iteration of the loop takes
 * an already-parsed column; the loop itself runs until a player wins.
 */
module Connect4 {
  import opened Board
  import opened Chains
  import opened Engine

  /** The piece a turn places: 1 on turn 0, 2 otherwise. */
  function PieceFor(turn: int): int {
    if turn == 0 then 1 else 2
  }

  /** The loop's three variables as a value: the board, the turn and whether the game is over. */
  datatype State = State(grid: Grid, turn: int, gameOver: bool)

  /**
   * One iteration of the loop on the state as a value. A refused column
   * leaves the state as it is; otherwise the current player's piece lands
   * in the column's lowest open row and the game either ends or the turn
   * passes.
   */
  ghost function NextState(s: State, selection: int): (s': State)
    requires WellFormed(s.grid)
    ensures WellFormed(s'.grid)
    ensures !s.gameOver && s'.gameOver ==> HasChain(s'.grid, PieceFor(s'.turn))
  {
    if !ValidLocation(s.grid, selection) then s
    else
      var piece := PieceFor(s.turn);
      var g := Place(s.grid, NextOpenRow(s.grid, selection), selection, piece);
      if HasChain(g, piece) then State(g, s.turn, true) else State(g, 1 - s.turn, false)
  }

  /** The state after the loop has read `selections` until the game is over or they run out. */
  ghost function Run(s: State, selections: seq<int>): State
    requires WellFormed(s.grid)
    decreases |selections|
  {
    if s.gameOver || selections == [] then s else Run(NextState(s, selections[0]), selections[1..])
  }

  /** How many of `selections` the loop reads before it stops. */
  ghost function Consumed(s: State, selections: seq<int>): nat
    requires WellFormed(s.grid)
    decreases |selections|
  {
    if s.gameOver || selections == [] then 0 else 1 + Consumed(NextState(s, selections[0]), selections[1..])
  }

  /** How many of the selections the loop reads name a column that accepts a drop. */
  ghost function Accepted(s: State, selections: seq<int>): nat
    requires WellFormed(s.grid)
    decreases |selections|
  {
    if s.gameOver || selections == [] then 0
    else (if ValidLocation(s.grid, selections[0]) then 1 else 0) + Accepted(NextState(s, selections[0]), selections[1..])
  }

  /**
   * Running the loop over a script: every accepted move adds exactly one
   * occupied cell, no more selections are accepted than read nor read than
   * given, and a selection is left unread only once the game is over.
   */
  lemma {:induction false} RunAccounting(s: State, selections: seq<int>)
    requires WellFormed(s.grid)
    ensures Occupied(Run(s, selections).grid) == Occupied(s.grid) + Accepted(s, selections)
    ensures Accepted(s, selections) <= Consumed(s, selections) <= |selections|
    ensures Consumed(s, selections) < |selections| ==> Run(s, selections).gameOver
    decreases |selections|
  {
    if !s.gameOver && selections != [] {
      var sel := selections[0];
      if ValidLocation(s.grid, sel) {
        PlaceAddsOne(s.grid, NextOpenRow(s.grid, sel), sel, PieceFor(s.turn));
      }
      RunAccounting(NextState(s, sel), selections[1..]);
    }
  }

  class Game {
    var board: array2<int>
    var turn: int
    var gameOver: bool

    /**
     * The state the loop keeps: a board of the right shape holding only
     * 0, 1 and 2 under gravity; turn 0 or 1; when the game is over, the
     * player whose turn it still is has a chain, and while it is not over,
     * neither player has one.
     */
    ghost predicate Valid()
      reads this, board
    {
      && Shaped(board)
      && (turn == 0 || turn == 1)
      && Pieces(Snapshot(board))
      && Gravity(Snapshot(board))
      && (gameOver ==> HasChain(Snapshot(board), PieceFor(turn)))
      && (!gameOver ==> !HasChain(Snapshot(board), 1) && !HasChain(Snapshot(board), 2))
    }

    /** The current values of the loop's three variables. */
    ghost function Current(): (s: State)
      reads this, board
      requires Shaped(board)
      ensures WellFormed(s.grid)
    {
      State(Snapshot(board), turn, gameOver)
    }

    /** A new game: an empty board, player 1 to move, not over. */
    constructor ()
      ensures Valid() && fresh(board)
      ensures Snapshot(board) == EmptyGrid() && Occupied(Snapshot(board)) == 0
      ensures turn == 0 && !gameOver
    {
      var b := CreateBoard();
      board := b;
      gameOver := false;
      turn := 0;
      EmptyGridInvariants();
      NoChainOnEmptyGrid(1);
      NoChainOnEmptyGrid(2);
    }

    /**
     * One iteration of the loop on column `selection`. A column that is off
     * the board or full changes nothing. Otherwise the current player's
     * piece lands in the lowest open row of that column; the game is then
     * over if that player has a chain, and otherwise the turn passes.
     */
    method Step(selection: int)
      requires Valid() && !gameOver
      modifies this, board
      ensures Valid() && board == old(board)
      ensures Current() == NextState(old(Current()), selection)
      ensures !old(ValidLocation(Snapshot(board), selection)) ==>
        Snapshot(board) == old(Snapshot(board)) && turn == old(turn) && !gameOver
      ensures old(ValidLocation(Snapshot(board), selection)) ==>
        && Snapshot(board) == Place(old(Snapshot(board)), NextOpenRow(old(Snapshot(board)), selection), selection, PieceFor(old(turn)))
        && Occupied(Snapshot(board)) == old(Occupied(Snapshot(board))) + 1
        && gameOver == HasChain(Snapshot(board), PieceFor(old(turn)))
        && turn == (if gameOver then old(turn) else 1 - old(turn))
    {
      ghost var s := Current();
      if IsValidLocation(board, selection) {
        ghost var g := Snapshot(board);
        var row := GetNextOpenRow(board, selection);
        var piece := PieceFor(turn);
        DropPiece(board, row, selection, piece);
        PlacePreservesGravity(g, selection, piece);
        PlaceAddsOne(g, row, selection, piece);
        PlaceKeepsOtherChainless(g, row, selection, piece, 3 - piece);

        var win := WinningMove(board, piece);
        if win {
          gameOver := true;
        } else {
          turn := (turn + 1) % 2;
        }
        assert Current() == NextState(s, selection);
      }
    }

    /**
     * The loop `while not game_over`, fed a finite script of parsed
     * selections in place of keyboard input. It stops when the game is over
     * or the script runs out; `consumed` selections were read, `accepted`
     * of them were valid moves.
     */
    method Play(selections: seq<int>) returns (consumed: nat, accepted: nat)
      requires Valid()
      modifies this, board
      ensures Valid() && board == old(board)
      ensures accepted <= consumed <= |selections|
      ensures consumed < |selections| ==> gameOver
      ensures old(gameOver) ==> consumed == 0 && Snapshot(board) == old(Snapshot(board)) && turn == old(turn)
      ensures Occupied(Snapshot(board)) == old(Occupied(Snapshot(board))) + accepted
      ensures Current() == Run(old(Current()), selections)
      ensures consumed == Consumed(old(Current()), selections)
      ensures accepted == Accepted(old(Current()), selections)
    {
      consumed, accepted := 0, 0;
      while !gameOver && consumed < |selections|
        invariant Valid() && board == old(board)
        invariant accepted <= consumed <= |selections|
        invariant old(gameOver) ==> consumed == 0 && Snapshot(board) == old(Snapshot(board)) && turn == old(turn)
        invariant Occupied(Snapshot(board)) == old(Occupied(Snapshot(board))) + accepted
        invariant Run(Current(), selections[consumed..]) == Run(old(Current()), selections)
        invariant consumed + Consumed(Current(), selections[consumed..]) == Consumed(old(Current()), selections)
        invariant accepted + Accepted(Current(), selections[consumed..]) == Accepted(old(Current()), selections)
      {
        ghost var before := Current();
        assert selections[consumed..][1..] == selections[consumed + 1..];
        var valid := IsValidLocation(board, selections[consumed]);
        Step(selections[consumed]);
        if valid {
          accepted := accepted + 1;
        }
        consumed := consumed + 1;
      }
    }
  }
}
