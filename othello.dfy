/**
 * The rules engine as the source has it: a game object whose board (a list of
 * 64 cells that is only ever written by index, here an array) and whose player,
 * last move and pass count are updated in place. Every method is proved to
 * follow the functions of module Rules.
 */
module Othello {
  import opened Wrappers
  import opened Rules
  import opened RuleLemmas

  class OthelloGame {
    var board: array<int>
    var currentPlayer: int
    var lastMove: Option<int>
    var turnsPassed: nat

    ghost predicate Valid()
      reads this, board
    {
      board.Length == CellCount && ValidBoard(board[..]) && IsPlayer(currentPlayer)
    }

    /** The game as a value. */
    function State(): (s: GameState)
      reads this, board
    {
      GameState(board[..], currentPlayer, lastMove, turnsPassed)
    }

    /** A new game: the opening position, black to move, no move yet, no pass. */
    constructor ()
      ensures Valid() && fresh(board)
      ensures State() == InitialState()
    {
      var cells := InitialBoard();
      board := new int[CellCount](i => if 0 <= i < CellCount then cells[i] else 0);
      currentPlayer := 1;
      lastMove := None;
      turnsPassed := 0;
      new;
      assert board[..] == cells;
    }

    /** Whether a disc of the player to move on (x, y) captures in direction (dx, dy). */
    method CanFlip(x: int, y: int, dx: int, dy: int) returns (ok: bool)
      requires Valid() && InBounds(x, y) && IsDirection((dx, dy))
      ensures ok == Brackets(board[..], currentPlayer, Ray(x, y, (dx, dy)))
    {
      ghost var b := board[..];
      ghost var goal := CaptureWalk(b, currentPlayer, Ray(x, y, (dx, dy)), false);
      ghost var px, py := x, y;
      var opponent := -currentPlayer;
      var flipped := false;
      var nx, ny := x + dx, y + dy;
      while 0 <= nx < Side && 0 <= ny < Side
        invariant nx == px + dx && ny == py + dy
        invariant CaptureWalk(b, currentPlayer, Ray(px, py, (dx, dy)), flipped) == goal
        decreases |Ray(px, py, (dx, dy))|
      {
        var ni := nx * 8 + ny;
        RayWalkStep(b, currentPlayer, px, py, nx, ny, dx, dy, ni, flipped, goal);
        assert board[ni] == b[ni];
        if board[ni] == opponent {
          flipped := true;
        } else if board[ni] == currentPlayer {
          return flipped;
        } else {
          return false;
        }
        px, py := nx, ny;
        nx, ny := nx + dx, ny + dy;
      }
      RayWalkStep(b, currentPlayer, px, py, nx, ny, dx, dy, nx * 8 + ny, flipped, goal);
      return false;
    }

    /** Whether the player to move may play on cell index. */
    method IsValidMove(index: int) returns (ok: bool)
      requires Valid() && 0 <= index < CellCount
      ensures ok == ValidMove(board[..], currentPlayer, index)
    {
      if board[index] != 0 {
        return false;
      }
      DirectionsAreDirections();
      var x, y := index / 8, index % 8;
      var directions := ScanDirections;
      for t := 0 to 8
        invariant forall u :: 0 <= u < t ==> !Brackets(board[..], currentPlayer, RayFrom(index, ScanDirections[u]))
      {
        var dx, dy := directions[t].0, directions[t].1;
        var c := CanFlip(x, y, dx, dy);
        if c {
          return true;
        }
      }
      return false;
    }

    /** The legal moves of the player to move, scanning the cells upwards. */
    method GetValidMoves() returns (moves: seq<int>)
      requires Valid()
      ensures moves == ValidMoves(board[..], currentPlayer)
    {
      moves := [];
      for i := 0 to CellCount
        invariant moves == MovesBelow(board[..], currentPlayer, i)
      {
        var ok := IsValidMove(i);
        if ok {
          moves := moves + [i];
        }
      }
    }

    /**
     * The discs that a disc of player on cell move flips, direction by
     * direction; the walk along one direction is DirectionFlips.
     */
    method FlipDiscs(move: int, player: int) returns (flips: seq<int>)
      requires board.Length == CellCount && 0 <= move < CellCount && IsPlayer(player)
      ensures flips == Flips(board[..], player, move)
    {
      ghost var b := board[..];
      DirectionsAreDirections();
      var directions := FlipDirections;
      flips := [];
      for t := 0 to 8
        invariant flips == FlipsAlong(b, player, move, t)
      {
        var x, y := move / 8, move % 8;
        var dx, dy := directions[t].0, directions[t].1;
        var flipped := DirectionFlips(x, y, dx, dy, player);
        FlipsAlongNext(b, player, move, t, x, y, dx, dy, flipped);
        flips := flips + flipped;
      }
    }

    /**
     * Walk from (x, y) in direction (dx, dy) over discs that are neither empty
     * nor the player's: they are flipped if a disc of player closes the run,
     * and nothing is flipped if an empty cell or the edge comes first.
     */
    method DirectionFlips(x: int, y: int, dx: int, dy: int, player: int) returns (flipped: seq<int>)
      requires board.Length == CellCount && IsDirection((dx, dy)) && IsPlayer(player)
      ensures flipped == DirFlips(board[..], player, Ray(x, y, (dx, dy)))
    {
      ghost var b := board[..];
      ghost var r := Ray(x, y, (dx, dy));
      ghost var goal := FlipWalk(b, player, r, []);
      ghost var px, py := x, y;
      flipped := [];
      var run := [];
      var nx, ny := x + dx, y + dy;
      while 0 <= nx < Side && 0 <= ny < Side
        invariant nx == px + dx && ny == py + dy
        invariant FlipWalk(b, player, Ray(px, py, (dx, dy)), run) == goal
        decreases |Ray(px, py, (dx, dy))|
      {
        var index := nx * 8 + ny;
        RayFlipStep(b, player, px, py, nx, ny, dx, dy, index, run, goal);
        assert board[index] == b[index];
        if board[index] == 0 {
          break;
        }
        if board[index] == player {
          flipped := run;
          break;
        }
        run := run + [index];
        px, py := nx, ny;
        nx, ny := nx + dx, ny + dy;
      }
      RayFlipStep(b, player, px, py, nx, ny, dx, dy, nx * 8 + ny, run, goal);
      assert flipped == goal;
      FlipWalkDirFlips(b, player, r);
    }

    /** The player to move has no move: hand the turn over and count the pass. */
    method PassTurn()
      requires Valid()
      modifies this
      ensures Valid() && board == old(board)
      ensures State() == Pass(old(State()))
    {
      turnsPassed := turnsPassed + 1;
      currentPlayer := -currentPlayer;
    }

    /**
     * Play move if it is present and legal: place the disc, record the move,
     * flip, hand the turn over and clear the pass count. Otherwise nothing changes.
     */
    method ApplyMove(move: Option<int>)
      requires Valid() && (move.Some? ==> 0 <= move.value < CellCount)
      modifies this, board
      ensures Valid() && board == old(board)
      ensures State() == Apply(old(State()), move)
    {
      var legal := false;
      if move.Some? {
        legal := IsValidMove(move.value);
      }
      if legal {
        ghost var s := State();
        var m := move.value;
        var p := currentPlayer;
        board[m] := currentPlayer;
        lastMove := move;
        ghost var b1 := board[..];
        assert b1 == s.board[m := p];
        var flips := FlipDiscs(m, currentPlayer);
        assert flips == Flips(b1, p, m);
        ApplyLegalBoard(s, m);
        for k := 0 to |flips|
          invariant board == old(board) && currentPlayer == p && lastMove == move
          invariant board[..] == Placed(b1, m, p, flips[..k])
        {
          PlacedStep(b1, m, p, flips, k);
          board[flips[k]] := currentPlayer;
        }
        assert flips[..|flips|] == flips;
        currentPlayer := currentPlayer * -1;
        turnsPassed := 0;
        assert State() == GameState(Placed(b1, m, p, flips), -p, Some(m), 0);
      }
    }

    /** A copy with its own board: same cells and player, no last move, no pass. */
    method Clone() returns (g: OthelloGame)
      requires Valid()
      ensures fresh(g) && fresh(g.board) && g.Valid()
      ensures g.State() == CloneOf(State())
    {
      g := new OthelloGame();
      var cells := board[..];
      g.board := new int[CellCount](i => if 0 <= i < CellCount then cells[i] else 0);
      g.currentPlayer := currentPlayer;
      assert g.board[..] == cells;
    }

    /** The end-of-game test as the source writes it. */
    method IsGameOver() returns (over: bool)
      requires Valid()
      ensures over == GameOver(State())
    {
      if forall i | 0 <= i < CellCount :: board[i] != 0 {
        var moves := GetValidMoves();
        return moves == [];
      }
      if turnsPassed >= 2 {
        return false;
      }
      var moves := GetValidMoves();
      return moves == [];
    }
  }
}
