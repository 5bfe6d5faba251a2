/** Properties of the Othello rules: capture, move generation, playing a move and the end of the game. */
module RuleLemmas {
  import opened Wrappers
  import opened Rules

  // ---------------------------------------------------------------------
  // Rays

  /** (cx, cy) lies on (x, y) or behind it when walking in direction d. */
  predicate Behind(cx: int, cy: int, x: int, y: int, d: (int, int)) {
    (d.0 > 0 ==> cx <= x) && (d.0 < 0 ==> cx >= x) && (d.0 == 0 ==> cx == x) &&
    (d.1 > 0 ==> cy <= y) && (d.1 < 0 ==> cy >= y) && (d.1 == 0 ==> cy == y)
  }

  lemma {:induction false} RayAvoidsBehind(x: int, y: int, d: (int, int), cx: int, cy: int)
    requires IsDirection(d) && InBounds(cx, cy) && Behind(cx, cy, x, y, d)
    ensures cx * 8 + cy !in Ray(x, y, d)
    decreases StepsLeft(x, y, d)
  {
    var nx, ny := x + d.0, y + d.1;
    if InBounds(nx, ny) {
      RayAvoidsBehind(nx, ny, d, cx, cy);
      assert Ray(x, y, d) == [nx * 8 + ny] + Ray(nx, ny, d);
    }
  }

  /** A walk never comes back to the cell it starts next to. */
  lemma RayAvoidsStart(i: int, d: (int, int))
    requires 0 <= i < CellCount && IsDirection(d)
    ensures i !in RayFrom(i, d)
  {
    RayAvoidsBehind(i / 8, i % 8, d, i / 8, i % 8);
  }

  // ---------------------------------------------------------------------
  // Capture along one ray

  /**
   * On a board of -1, 0 and 1, the legality walk captures along r exactly when
   * the flip collection finds something to flip there, and what it flips are
   * opponent discs.
   */
  lemma BracketsIffDirFlips(b: seq<int>, p: int, r: seq<int>)
    requires ValidBoard(b) && IsPlayer(p) && InRange(r)
    ensures Brackets(b, p, r) <==> |DirFlips(b, p, r)| > 0
    ensures forall c :: c in DirFlips(b, p, r) ==> b[c] == -p
  {
    BracketsRun(b, p, r);
    var k := FirstStop(b, p, r);
    if Brackets(b, p, r) {
      var w :| 1 <= w < |r| && b[r[w]] == p && forall j :: 0 <= j < w ==> b[r[j]] == -p;
      assert k == w;
    }
    if |DirFlips(b, p, r)| > 0 {
      assert forall j :: 0 <= j < k ==> b[r[j]] == -p;
      assert 1 <= k < |r| && b[r[k]] == p;
    }
  }

  /** A run of opponent discs from index lo on, closed by a disc of p. */
  predicate RunFrom(b: seq<int>, p: int, r: seq<int>, lo: nat)
    requires |b| == CellCount && InRange(r)
  {
    exists k :: lo <= k < |r| && b[r[k]] == p && forall j :: 0 <= j < k ==> b[r[j]] == -p
  }

  /** The walk finds a capture exactly when a bracketing run starts where it stands. */
  lemma {:induction false} CaptureWalkRun(b: seq<int>, p: int, r: seq<int>, passed: bool)
    requires |b| == CellCount && InRange(r) && p != 0
    ensures CaptureWalk(b, p, r, passed) <==> RunFrom(b, p, r, if passed then 0 else 1)
  {
    var lo := if passed then 0 else 1;
    if r != [] && b[r[0]] == -p {
      var t := r[1..];
      CaptureWalkRun(b, p, t, true);
      if RunFrom(b, p, t, 0) {
        var k :| 0 <= k < |t| && b[t[k]] == p && forall j :: 0 <= j < k ==> b[t[j]] == -p;
        assert forall j :: 0 <= j < k + 1 ==> b[r[j]] == -p by {
          forall j | 0 <= j < k + 1 ensures b[r[j]] == -p {
            if j > 0 { assert r[j] == t[j - 1]; }
          }
        }
        assert lo <= k + 1 < |r| && b[r[k + 1]] == p;
      }
      if RunFrom(b, p, r, lo) {
        var k :| lo <= k < |r| && b[r[k]] == p && forall j :: 0 <= j < k ==> b[r[j]] == -p;
        assert k != 0;
        assert forall j :: 0 <= j < k - 1 ==> b[t[j]] == -p by {
          forall j | 0 <= j < k - 1 ensures b[t[j]] == -p {
            assert t[j] == r[j + 1];
          }
        }
        assert 0 <= k - 1 < |t| && b[t[k - 1]] == p;
      }
    } else if r != [] && b[r[0]] == p {
      if passed {
        assert RunFrom(b, p, r, 0) by { assert b[r[0]] == p; }
      }
    }
  }

  /**
   * One step of the capture walk along the ray beyond (px, py): the walk
   * stands on the next square (nx, ny), cell i. The outcome goal of the walk,
   * having passed opponent discs or not, is decided there or carried on to the
   * ray beyond (nx, ny).
   */
  lemma RayWalkStep(b: seq<int>, p: int, px: int, py: int, nx: int, ny: int, dx: int, dy: int, i: int, passed: bool, goal: bool)
    requires |b| == CellCount && IsDirection((dx, dy)) && p != 0
    requires nx == px + dx && ny == py + dy && i == nx * 8 + ny
    requires CaptureWalk(b, p, Ray(px, py, (dx, dy)), passed) == goal
    ensures !InBounds(nx, ny) ==> !goal
    ensures InBounds(nx, ny) ==> 0 <= i < CellCount && |Ray(nx, ny, (dx, dy))| < |Ray(px, py, (dx, dy))|
    ensures InBounds(nx, ny) && b[i] == -p ==> CaptureWalk(b, p, Ray(nx, ny, (dx, dy)), true) == goal
    ensures InBounds(nx, ny) && b[i] == p ==> passed == goal
    ensures InBounds(nx, ny) && b[i] != p && b[i] != -p ==> !goal
  {
    RayUnfold(px, py, nx, ny, dx, dy);
  }

  /** Brackets means a run of one or more opponent discs closed by a disc of p. */
  lemma BracketsRun(b: seq<int>, p: int, r: seq<int>)
    requires |b| == CellCount && InRange(r) && p != 0
    ensures Brackets(b, p, r) <==> RunFrom(b, p, r, 1)
  {
    CaptureWalkRun(b, p, r, false);
  }

  /** The walk only depends on the cells of r. */
  lemma {:induction false} CaptureWalkLocal(b: seq<int>, b': seq<int>, p: int, r: seq<int>, passed: bool)
    requires |b| == CellCount && |b'| == CellCount && InRange(r)
    requires forall j :: 0 <= j < |r| ==> b[r[j]] == b'[r[j]]
    ensures CaptureWalk(b, p, r, passed) == CaptureWalk(b', p, r, passed)
  {
    if r != [] && b[r[0]] == -p {
      CaptureWalkLocal(b, b', p, r[1..], true);
    }
  }

  /** The ray beyond (x, y) is the next square (nx, ny) followed by the ray beyond it, or empty off the board. */
  lemma RayUnfold(x: int, y: int, nx: int, ny: int, dx: int, dy: int)
    requires IsDirection((dx, dy)) && nx == x + dx && ny == y + dy
    ensures InBounds(nx, ny) ==> Ray(x, y, (dx, dy)) == [nx * 8 + ny] + Ray(nx, ny, (dx, dy))
    ensures InBounds(nx, ny) ==> |Ray(nx, ny, (dx, dy))| < |Ray(x, y, (dx, dy))|
    ensures !InBounds(nx, ny) ==> Ray(x, y, (dx, dy)) == []
  {
    var d := (dx, dy);
    assert d.0 == dx && d.1 == dy;
    if InBounds(nx, ny) {
      assert Ray(x, y, d) == [nx * 8 + ny] + Ray(nx, ny, d);
    }
  }

  /** The flip walk, having collected run, adds the cells before the first stop when that stop is a disc of p. */
  lemma {:induction false} FlipWalkRun(b: seq<int>, p: int, r: seq<int>, run: seq<int>)
    requires |b| == CellCount && InRange(r) && p != 0
    ensures var k := FirstStop(b, p, r);
      FlipWalk(b, p, r, run) == if k < |r| && b[r[k]] == p then run + r[..k] else []
  {
    if r != [] && b[r[0]] != 0 && b[r[0]] != p {
      var t := r[1..];
      FlipWalkRun(b, p, t, run + [r[0]]);
      var k := FirstStop(b, p, t);
      assert FirstStop(b, p, r) == k + 1;
      if k < |t| {
        assert r[k + 1] == t[k];
        assert r[..k + 1] == [r[0]] + t[..k];
      }
    }
  }

  /** The flip walk from the start of r with nothing collected computes DirFlips. */
  lemma FlipWalkDirFlips(b: seq<int>, p: int, r: seq<int>)
    requires |b| == CellCount && InRange(r) && p != 0
    ensures FlipWalk(b, p, r, []) == DirFlips(b, p, r)
  {
    FlipWalkRun(b, p, r, []);
  }

  /**
   * One step of the flip walk along the ray beyond (px, py): the walk stands
   * on the next square (nx, ny), cell i. The outcome goal of the walk, having
   * collected run, is decided there or carried on to the ray beyond (nx, ny)
   * with cell i collected.
   */
  lemma RayFlipStep(b: seq<int>, p: int, px: int, py: int, nx: int, ny: int, dx: int, dy: int, i: int, run: seq<int>, goal: seq<int>)
    requires |b| == CellCount && IsDirection((dx, dy)) && p != 0
    requires nx == px + dx && ny == py + dy && i == nx * 8 + ny
    requires FlipWalk(b, p, Ray(px, py, (dx, dy)), run) == goal
    ensures !InBounds(nx, ny) ==> goal == []
    ensures InBounds(nx, ny) ==> 0 <= i < CellCount && |Ray(nx, ny, (dx, dy))| < |Ray(px, py, (dx, dy))|
    ensures InBounds(nx, ny) && b[i] == 0 ==> goal == []
    ensures InBounds(nx, ny) && b[i] == p ==> goal == run
    ensures InBounds(nx, ny) && b[i] != 0 && b[i] != p ==> FlipWalk(b, p, Ray(nx, ny, (dx, dy)), run + [i]) == goal
  {
    RayUnfold(px, py, nx, ny, dx, dy);
  }

  /** Capture along r only depends on the cells of r. */
  lemma {:induction false} FirstStopLocal(b: seq<int>, b': seq<int>, p: int, r: seq<int>)
    requires |b| == CellCount && |b'| == CellCount && InRange(r)
    requires forall j :: 0 <= j < |r| ==> b[r[j]] == b'[r[j]]
    ensures FirstStop(b, p, r) == FirstStop(b', p, r)
  {
    if r != [] && b[r[0]] != 0 && b[r[0]] != p {
      FirstStopLocal(b, b', p, r[1..]);
    }
  }

  lemma BracketsLocal(b: seq<int>, b': seq<int>, p: int, r: seq<int>)
    requires |b| == CellCount && |b'| == CellCount && InRange(r)
    requires forall j :: 0 <= j < |r| ==> b[r[j]] == b'[r[j]]
    ensures Brackets(b, p, r) <==> Brackets(b', p, r)
    ensures DirFlips(b, p, r) == DirFlips(b', p, r)
  {
    FirstStopLocal(b, b', p, r);
    CaptureWalkLocal(b, b', p, r, false);
  }

  /** The flip collection over one more direction appends what that direction flips. */
  lemma FlipsAlongNext(b: seq<int>, p: int, i: int, t: nat, x: int, y: int, dx: int, dy: int, f: seq<int>)
    requires |b| == CellCount && 0 <= i < CellCount && t < 8 && x == i / 8 && y == i % 8
    requires (dx, dy) == FlipDirections[t] && IsDirection((dx, dy))
    requires f == DirFlips(b, p, Ray(x, y, (dx, dy)))
    ensures FlipsAlong(b, p, i, t + 1) == FlipsAlong(b, p, i, t) + f
  {
    FlipsAlongUnfold(b, p, i, t);
  }

  lemma FlipsAlongUnfold(b: seq<int>, p: int, i: int, t: nat)
    requires |b| == CellCount && t < 8 && IsDirection(FlipDirections[t])
    ensures FlipsAlong(b, p, i, t + 1) == FlipsAlong(b, p, i, t) + DirFlips(b, p, RayFrom(i, FlipDirections[t]))
  {
  }


  /** What one direction flips holds neither an empty cell nor a disc of p. */
  lemma DirFlipsCells(b: seq<int>, p: int, r: seq<int>)
    requires |b| == CellCount && InRange(r)
    ensures forall c :: c in DirFlips(b, p, r) ==> 0 <= c < CellCount && b[c] != 0 && b[c] != p
  {
    var f := DirFlips(b, p, r);
    var k := FirstStop(b, p, r);
    forall c | c in f
      ensures 0 <= c < CellCount && b[c] != 0 && b[c] != p
    {
      var j :| 0 <= j < |f| && f[j] == c;
      assert f[j] == r[j] && j < k;
    }
  }

  /** Everything the flip collection lists holds neither an empty cell nor a disc of p. */
  lemma {:induction false} FlipsAlongCells(b: seq<int>, p: int, i: int, n: nat)
    requires |b| == CellCount && n <= 8
    ensures forall c :: c in FlipsAlong(b, p, i, n) ==> 0 <= c < CellCount && b[c] != 0 && b[c] != p
  {
    DirectionsAreDirections();
    if n > 0 {
      FlipsAlongCells(b, p, i, n - 1);
      var r := RayFrom(i, FlipDirections[n - 1]);
      DirFlipsCells(b, p, r);
      assert FlipsAlong(b, p, i, n) == FlipsAlong(b, p, i, n - 1) + DirFlips(b, p, r);
    }
  }

  /** What one flip direction contributes is part of the concatenation. */
  lemma {:induction false} FlipsAlongContains(b: seq<int>, p: int, i: int, n: nat, u: nat)
    requires |b| == CellCount && u < n <= 8
    ensures IsDirection(FlipDirections[u])
    ensures forall c :: c in DirFlips(b, p, RayFrom(i, FlipDirections[u])) ==> c in FlipsAlong(b, p, i, n)
  {
    DirectionsAreDirections();
    if u < n - 1 {
      FlipsAlongContains(b, p, i, n - 1, u);
    }
  }

  lemma ScanDirectionIsFlipDirection(t: nat)
    requires t < 8
    ensures exists u :: 0 <= u < 8 && FlipDirections[u] == ScanDirections[t]
  {
    var perm := [4, 0, 5, 2, 3, 6, 1, 7];
    assert FlipDirections[perm[t]] == ScanDirections[t];
  }

  /**
   * A legal move flips at least one disc, every flipped cell held an opponent
   * disc before the move, and the placed cell is not among them.
   */
  lemma LegalMoveFlips(b: seq<int>, p: int, m: int)
    requires ValidBoard(b) && IsPlayer(p) && ValidMove(b, p, m)
    ensures |Flips(b[m := p], p, m)| > 0
    ensures var f := Flips(b[m := p], p, m); forall c :: c in f ==> 0 <= c < CellCount && c != m && b[c] == -p
  {
    LegalMoveHasFlip(b, p, m);
    FlippedWereOpponents(b, p, m);
  }

  lemma LegalMoveHasFlip(b: seq<int>, p: int, m: int)
    requires ValidBoard(b) && IsPlayer(p) && ValidMove(b, p, m)
    ensures |Flips(b[m := p], p, m)| > 0
  {
    DirectionsAreDirections();
    var b1 := b[m := p];
    var u := LegalMoveFlipDirection(b, p, m);
    var r := RayFrom(m, FlipDirections[u]);
    FlipsAlongContains(b1, p, m, 8, u);
    assert DirFlips(b1, p, r)[0] in Flips(b1, p, m);
  }

  /** Some flip direction of a legal move has discs to flip once the disc is placed. */
  lemma LegalMoveFlipDirection(b: seq<int>, p: int, m: int) returns (u: nat)
    requires ValidBoard(b) && IsPlayer(p) && ValidMove(b, p, m)
    ensures u < 8 && IsDirection(FlipDirections[u])
    ensures |DirFlips(b[m := p], p, RayFrom(m, FlipDirections[u]))| > 0
  {
    DirectionsAreDirections();
    var t :| 0 <= t < 8 && Brackets(b, p, RayFrom(m, ScanDirections[t]));
    CaptureSurvivesPlacing(b, p, m, ScanDirections[t]);
    BracketsIffDirFlips(b[m := p], p, RayFrom(m, ScanDirections[t]));
    ScanDirectionIsFlipDirection(t);
    u :| 0 <= u < 8 && FlipDirections[u] == ScanDirections[t];
  }

  /** Every cell the flip collection returns held an opponent disc, and the placed cell is not one of them. */
  lemma FlippedWereOpponents(b: seq<int>, p: int, m: int)
    requires ValidBoard(b) && IsPlayer(p) && 0 <= m < CellCount
    ensures var f := Flips(b[m := p], p, m); forall c :: c in f ==> 0 <= c < CellCount && c != m && b[c] == -p
  {
    var b1 := b[m := p];
    FlipsAlongCells(b1, p, m, 8);
    forall c | c in Flips(b1, p, m)
      ensures 0 <= c < CellCount && c != m && b[c] == -p
    {
      assert b1[c] != 0 && b1[c] != p;
    }
  }

  /** Putting the disc on cell m does not disturb the rays that start next to m. */
  lemma CaptureSurvivesPlacing(b: seq<int>, p: int, m: int, d: (int, int))
    requires ValidBoard(b) && IsPlayer(p) && 0 <= m < CellCount && IsDirection(d)
    requires Brackets(b, p, RayFrom(m, d))
    ensures ValidBoard(b[m := p])
    ensures Brackets(b[m := p], p, RayFrom(m, d))
  {
    var r := RayFrom(m, d);
    RayAvoidsStart(m, d);
    assert forall j :: 0 <= j < |r| ==> r[j] in r && r[j] != m;
    BracketsLocal(b, b[m := p], p, r);
  }

  // ---------------------------------------------------------------------
  // Move generation

  /** The moves below n lie below n and ascend strictly. */
  lemma {:induction false} MovesBelowAscending(b: seq<int>, p: int, n: nat)
    requires |b| == CellCount && n <= CellCount
    ensures forall j :: 0 <= j < |MovesBelow(b, p, n)| ==> 0 <= MovesBelow(b, p, n)[j] < n
    ensures forall j, k :: 0 <= j < k < |MovesBelow(b, p, n)| ==> MovesBelow(b, p, n)[j] < MovesBelow(b, p, n)[k]
  {
    if n > 0 {
      MovesBelowAscending(b, p, n - 1);
      var prev := MovesBelow(b, p, n - 1);
      var add := if ValidMove(b, p, n - 1) then [n - 1] else [];
      assert MovesBelow(b, p, n) == prev + add;
    }
  }

  /** The moves below n are exactly the legal cells below n. */
  lemma {:induction false} MovesBelowMembers(b: seq<int>, p: int, n: nat)
    requires |b| == CellCount && n <= CellCount
    ensures forall i :: i in MovesBelow(b, p, n) <==> 0 <= i < n && ValidMove(b, p, i)
  {
    if n > 0 {
      MovesBelowMembers(b, p, n - 1);
    }
  }

  /** With no legal cell below n there is no move below n. */
  lemma {:induction false} MovesBelowNone(b: seq<int>, p: int, n: nat)
    requires |b| == CellCount && n <= CellCount
    requires forall i :: 0 <= i < n ==> !ValidMove(b, p, i)
    ensures MovesBelow(b, p, n) == []
  {
    if n > 0 {
      MovesBelowNone(b, p, n - 1);
    }
  }

  /** With no legal cell from lo up to hi, the moves below hi are the moves below lo. */
  lemma {:induction false} MovesBelowSkip(b: seq<int>, p: int, lo: nat, hi: nat)
    requires |b| == CellCount && lo <= hi <= CellCount
    requires forall i :: lo <= i < hi ==> !ValidMove(b, p, i)
    ensures MovesBelow(b, p, hi) == MovesBelow(b, p, lo)
    decreases hi
  {
    if lo < hi {
      MovesBelowSkip(b, p, lo, hi - 1);
    }
  }

  /** The legal moves are exactly the legal cells, each once, ascending. */
  lemma ValidMovesExact(b: seq<int>, p: int)
    requires |b| == CellCount
    ensures forall i :: i in ValidMoves(b, p) <==> 0 <= i < CellCount && ValidMove(b, p, i)
    ensures forall j, k :: 0 <= j < k < |ValidMoves(b, p)| ==> ValidMoves(b, p)[j] < ValidMoves(b, p)[k]
  {
    MovesBelowMembers(b, p, |b|);
    MovesBelowAscending(b, p, |b|);
  }

  /** Every legal move is a cell index. */
  lemma ValidMovesInRange(b: seq<int>, p: int)
    requires |b| == CellCount
    ensures InRange(ValidMoves(b, p))
  {
    MovesBelowAscending(b, p, |b|);
  }

  /** An occupied cell is never a legal move; on a full board there are none. */
  lemma FullBoardHasNoMoves(b: seq<int>, p: int)
    requires |b| == CellCount && Full(b)
    ensures ValidMoves(b, p) == []
  {
    assert forall i :: 0 <= i < CellCount ==> !ValidMove(b, p, i);
    MovesBelowNone(b, p, |b|);
  }

  /**
   * The end-of-game test as written: over on a full board; never over on a
   * board with an empty cell once two passes are counted; otherwise over
   * exactly when the player to move has no legal move.
   */
  lemma GameOverCases(s: GameState)
    requires |s.board| == CellCount
    ensures Full(s.board) ==> GameOver(s)
    ensures !Full(s.board) && s.turnsPassed >= 2 ==> !GameOver(s)
    ensures s.turnsPassed < 2 ==> (GameOver(s) <==> ValidMoves(s.board, s.player) == [])
  {
    if Full(s.board) {
      FullBoardHasNoMoves(s.board, s.player);
    }
  }

  // ---------------------------------------------------------------------
  // Playing a move

  /**
   * A legal move puts the mover's disc on the cell and on every flipped cell
   * (there is at least one, and each held an opponent disc), leaves every other
   * cell alone, hands the turn over, records the move and clears the pass count.
   */
  lemma ApplyLegal(s: GameState, m: int)
    requires ValidState(s) && ValidMove(s.board, s.player, m)
    ensures var t := Apply(s, Some(m));
      var p := s.player;
      var f := Flips(s.board[m := p], p, m);
      && ValidState(t)
      && t.player == -p && t.lastMove == Some(m) && t.turnsPassed == 0
      && t.board[m] == p
      && |f| > 0
      && (forall c :: c in f ==> 0 <= c < CellCount && t.board[c] == p && s.board[c] == -p)
      && (forall i :: 0 <= i < CellCount && i != m && i !in f ==> t.board[i] == s.board[i])
  {
    var p := s.player;
    var b := s.board;
    var f := Flips(b[m := p], p, m);
    var nb := Placed(b[m := p], m, p, f);
    assert Apply(s, Some(m)) == GameState(nb, -p, Some(m), 0);
    LegalMoveFlips(b, p, m);
    PlacedCells(b, m, p, f);
  }

  /** The legal case of Apply spelled out: the new board is the placed board, and every flip is a cell index. */
  lemma ApplyLegalBoard(s: GameState, m: int)
    requires ValidState(s) && ValidMove(s.board, s.player, m)
    ensures var b1 := s.board[m := s.player];
      var f := Flips(b1, s.player, m);
      && Apply(s, Some(m)) == GameState(Placed(b1, m, s.player, f), -s.player, Some(m), 0)
      && ValidBoard(Placed(b1, m, s.player, f))
      && forall k :: 0 <= k < |f| ==> 0 <= f[k] < CellCount
  {
    ApplyLegal(s, m);
    var f := Flips(s.board[m := s.player], s.player, m);
    assert forall k :: 0 <= k < |f| ==> f[k] in f;
  }

  /**
   * Disc counts after a legal move: one empty cell fewer; the mover gains the
   * placed disc and every distinct flipped one, which the opponent loses.
   */
  lemma ApplyLegalCounts(s: GameState, m: int)
    requires ValidState(s) && ValidMove(s.board, s.player, m)
    ensures var t := Apply(s, Some(m));
      var p := s.player;
      var f := Flips(s.board[m := p], p, m);
      var fs := set c | c in f;
      && |fs| >= 1
      && Count(t.board, 0) == Count(s.board, 0) - 1
      && Count(t.board, p) == Count(s.board, p) + 1 + |fs|
      && Count(t.board, -p) == Count(s.board, -p) - |fs|
  {
    var p := s.player;
    var b := s.board;
    var f := Flips(b[m := p], p, m);
    var nb := Placed(b[m := p], m, p, f);
    assert Apply(s, Some(m)) == GameState(nb, -p, Some(m), 0);
    LegalMoveFlips(b, p, m);
    MemberCard((set c | c in f), f[0]);
    PlacedCounts(b, m, p, f);
  }

  /** Counting the cells of each kind after placing on m and flipping the opponent discs in f. */
  lemma PlacedCounts(b: seq<int>, m: int, p: int, f: seq<int>)
    requires ValidBoard(b) && IsPlayer(p) && 0 <= m < CellCount && b[m] == 0
    requires forall c :: c in f ==> 0 <= c < CellCount && c != m && b[c] == -p
    ensures var nb := Placed(b[m := p], m, p, f);
      var fs := set c | c in f;
      && ValidBoard(nb)
      && Count(nb, 0) == Count(b, 0) - 1
      && Count(nb, p) == Count(b, p) + 1 + |fs|
      && Count(nb, -p) == Count(b, -p) - |fs|
  {
    var nb := Placed(b[m := p], m, p, f);
    var fs := set c | c in f;
    PlacedCells(b, m, p, f);
    DisjointUnionCard(Cells(b, p), {m} + fs);
    DisjointUnionCard({m}, fs);
    DisjointUnionCard(Cells(nb, -p), fs);
    DisjointUnionCard(Cells(nb, 0), {m});
  }

  /** Setting the cells of a list of flips one at a time: one more cell set to p. */
  lemma PlacedStep(b: seq<int>, m: int, p: int, f: seq<int>, k: nat)
    requires k < |f| && 0 <= f[k] < |b|
    ensures Placed(b, m, p, f[..k + 1]) == Placed(b, m, p, f[..k])[f[k] := p]
  {
    assert f[..k + 1] == f[..k] + [f[k]];
  }

  lemma PlacedCells(b: seq<int>, m: int, p: int, f: seq<int>)
    requires ValidBoard(b) && IsPlayer(p) && 0 <= m < CellCount && b[m] == 0
    requires forall c :: c in f ==> 0 <= c < CellCount && c != m && b[c] == -p
    ensures var nb := Placed(b[m := p], m, p, f);
      var fs := set c | c in f;
      && ValidBoard(nb)
      && Cells(b, 0) == Cells(nb, 0) + {m}
      && Cells(nb, p) == Cells(b, p) + ({m} + fs)
      && Cells(b, -p) == Cells(nb, -p) + fs
      && Cells(b, p) !! {m} + fs && Cells(nb, 0) !! {m} && Cells(nb, -p) !! fs && {m} !! fs
  {
    var nb := Placed(b[m := p], m, p, f);
    var fs := set c | c in f;
    forall i | 0 <= i < CellCount
      ensures nb[i] == if i == m || i in fs then p else b[i]
    {
    }
    assert Cells(b, 0) == Cells(nb, 0) + {m};
    assert Cells(nb, p) == Cells(b, p) + ({m} + fs);
    assert Cells(b, -p) == Cells(nb, -p) + fs;
  }

  lemma MemberCard(a: set<int>, x: int)
    requires x in a
    ensures |a| >= 1
  {
    DisjointUnionCard(a - {x}, {x});
    assert a == (a - {x}) + {x};
  }

  lemma DisjointUnionCard(a: set<int>, c: set<int>)
    requires a !! c
    ensures |a + c| == |a| + |c|
  {
  }

  /** A move that is absent or illegal changes nothing. */
  lemma ApplyIllegal(s: GameState, move: Option<int>)
    requires |s.board| == CellCount && (move.Some? ==> 0 <= move.value < CellCount)
    requires move.None? || !ValidMove(s.board, s.player, move.value)
    ensures Apply(s, move) == s
  {
  }

  /** A cell is a legal move exactly when playing it gains the mover at least two discs. */
  lemma LegalIffGainsTwo(s: GameState, m: int)
    requires ValidState(s) && 0 <= m < CellCount
    ensures ValidMove(s.board, s.player, m) <==>
            Count(Apply(s, Some(m)).board, s.player) >= Count(s.board, s.player) + 2
  {
    if ValidMove(s.board, s.player, m) {
      ApplyLegalCounts(s, m);
    }
  }

  /** A copy has no pass recorded, so it is over exactly when its player has no move (or the board is full). */
  lemma CloneGameOver(s: GameState)
    requires |s.board| == CellCount
    ensures GameOver(CloneOf(s)) <==> ValidMoves(s.board, s.player) == []
  {
    GameOverCases(CloneOf(s));
  }

  /** A child of a valid state is valid. */
  lemma ChildValid(s: GameState, m: int)
    requires ValidState(s) && 0 <= m < CellCount
    ensures ValidState(Child(s, m))
  {
    var c := CloneOf(s);
    if ValidMove(c.board, c.player, m) {
      ApplyLegalBoard(c, m);
    }
  }

  /** The child for a legal move records that move, has no pass and has the other player to move. */
  lemma ChildOfLegal(s: GameState, m: int)
    requires ValidState(s) && ValidMove(s.board, s.player, m)
    ensures var t := Child(s, m);
      ValidState(t) && t.lastMove == Some(m) && t.turnsPassed == 0 && t.player == -s.player
  {
    ApplyLegal(CloneOf(s), m);
  }

  // ---------------------------------------------------------------------
  // The opening

  /** The four classic opening moves are legal for black. */
  lemma OpeningMovesLegal()
    ensures ValidMove(InitialBoard(), 1, 19) && ValidMove(InitialBoard(), 1, 26)
    ensures ValidMove(InitialBoard(), 1, 37) && ValidMove(InitialBoard(), 1, 44)
  {
    OpeningMove(19, 6, 27, 35);
    Opening26();
    Opening37();
    Opening44();
  }

  lemma Opening26() ensures ValidMove(InitialBoard(), 1, 26) { OpeningMove(26, 4, 27, 28); }
  lemma Opening37() ensures ValidMove(InitialBoard(), 1, 37) { OpeningMove(37, 3, 36, 35); }
  lemma Opening44() ensures ValidMove(InitialBoard(), 1, 44) { OpeningMove(44, 1, 36, 28); }

  lemma OpeningMove(i: int, t: nat, w: int, k: int)
    requires 0 <= i < CellCount && t < 8 && InitialBoard()[i] == 0
    requires InBounds(i / 8 + ScanDirections[t].0, i % 8 + ScanDirections[t].1)
    requires w == (i / 8 + ScanDirections[t].0) * 8 + (i % 8 + ScanDirections[t].1)
    requires InBounds(i / 8 + 2 * ScanDirections[t].0, i % 8 + 2 * ScanDirections[t].1)
    requires k == (i / 8 + 2 * ScanDirections[t].0) * 8 + (i % 8 + 2 * ScanDirections[t].1)
    requires InitialBoard()[w] == -1 && InitialBoard()[k] == 1
    ensures ValidMove(InitialBoard(), 1, i)
  {
    DirectionsAreDirections();
    OpeningCapture(i, ScanDirections[t], w, k);
  }

  /** From cell i in direction d the walk meets a white disc on w and then a black one on k. */
  lemma OpeningCapture(i: int, d: (int, int), w: int, k: int)
    requires 0 <= i < CellCount && IsDirection(d)
    requires InBounds(i / 8 + d.0, i % 8 + d.1) && w == (i / 8 + d.0) * 8 + (i % 8 + d.1)
    requires InBounds(i / 8 + 2 * d.0, i % 8 + 2 * d.1) && k == (i / 8 + 2 * d.0) * 8 + (i % 8 + 2 * d.1)
    requires InitialBoard()[w] == -1 && InitialBoard()[k] == 1
    ensures Brackets(InitialBoard(), 1, RayFrom(i, d))
  {
    var x, y := i / 8, i % 8;
    assert (d.0, d.1) == d;
    RayUnfold(x, y, x + d.0, y + d.1, d.0, d.1);
    RayUnfold(x + d.0, y + d.1, x + 2 * d.0, y + 2 * d.1, d.0, d.1);
    var r := RayFrom(i, d);
    assert r[0] == w;
    assert r[1] == k;
    assert forall j :: 0 <= j < 1 ==> InitialBoard()[r[j]] == -1;
    BracketsRun(InitialBoard(), 1, r);
  }

  /** On the opening board a black capture from cell i starts next to a white disc and ends two steps out. */
  lemma OpeningCaptureCells(i: int, d: (int, int))
    requires 0 <= i < CellCount && IsDirection(d)
    requires Brackets(InitialBoard(), 1, RayFrom(i, d))
    ensures i == 19 || i == 26 || i == 37 || i == 44
  {
    var b := InitialBoard();
    var x, y := i / 8, i % 8;
    assert (d.0, d.1) == d;
    var nx, ny := x + d.0, y + d.1;
    RayUnfold(x, y, nx, ny, d.0, d.1);
    var r := RayFrom(i, d);
    assert InBounds(nx, ny);
    assert r[0] == nx * 8 + ny && r[1..] == Ray(nx, ny, d);
    assert b[r[0]] == -1;
    OpeningPastWhite(nx, ny, d);
  }

  /** A black capture walk that has reached white's disc on (x, y) of the opening board ends on black's disc just beyond it. */
  lemma OpeningPastWhite(x: int, y: int, d: (int, int))
    requires IsDirection(d) && InBounds(x, y) && InitialBoard()[x * 8 + y] == -1
    requires CaptureWalk(InitialBoard(), 1, Ray(x, y, d), true)
    ensures x == y && (x == 3 || x == 4)
    ensures InBounds(x + d.0, y + d.1) && InitialBoard()[(x + d.0) * 8 + (y + d.1)] == 1
  {
    var b := InitialBoard();
    assert (d.0, d.1) == d;
    var mx, my := x + d.0, y + d.1;
    RayUnfold(x, y, mx, my, d.0, d.1);
    var r1 := Ray(x, y, d);
    assert InBounds(mx, my);
    assert r1[0] == mx * 8 + my && r1[1..] == Ray(mx, my, d);
    OpeningDiagonalEnds();
  }

  /** Past both white discs on the main diagonal lies an empty square, so no capture runs along it. */
  lemma OpeningDiagonalEnds()
    ensures !CaptureWalk(InitialBoard(), 1, Ray(4, 4, (1, 1)), true)
    ensures !CaptureWalk(InitialBoard(), 1, Ray(3, 3, (-1, -1)), true)
  {
    RayUnfold(4, 4, 5, 5, 1, 1);
    RayUnfold(3, 3, 2, 2, -1, -1);
  }

  /** Black's legal cells on the opening board are exactly 19, 26, 37 and 44. */
  lemma OpeningLegalCells()
    ensures forall i :: ValidMove(InitialBoard(), 1, i) <==> i == 19 || i == 26 || i == 37 || i == 44
  {
    OpeningMovesLegal();
    DirectionsAreDirections();
    forall i | ValidMove(InitialBoard(), 1, i)
      ensures i == 19 || i == 26 || i == 37 || i == 44
    {
      var t :| 0 <= t < 8 && Brackets(InitialBoard(), 1, RayFrom(i, ScanDirections[t]));
      OpeningCaptureCells(i, ScanDirections[t]);
    }
  }

  /** Black's opening move list, in the order the game generates it. */
  lemma OpeningMoves()
    ensures ValidMoves(InitialBoard(), 1) == [19, 26, 37, 44]
  {
    OpeningLegalCells();
    OpeningMoveList(InitialBoard(), 1);
  }

  /** A board whose legal cells for p are exactly the opening four lists them in that order. */
  lemma OpeningMoveList(b: seq<int>, p: int)
    requires |b| == CellCount
    requires forall i :: ValidMove(b, p, i) <==> i == 19 || i == 26 || i == 37 || i == 44
    ensures ValidMoves(b, p) == [19, 26, 37, 44]
  {
    MovesBelowNone(b, p, 19);
    MovesBelowSkip(b, p, 20, 26);
    MovesBelowSkip(b, p, 27, 37);
    MovesBelowSkip(b, p, 38, 44);
    MovesBelowSkip(b, p, 45, 64);
    assert MovesBelow(b, p, 20) == [19];
    assert MovesBelow(b, p, 27) == [19, 26];
    assert MovesBelow(b, p, 38) == [19, 26, 37];
    assert MovesBelow(b, p, 45) == [19, 26, 37, 44];
  }

  /** The square next to cell i in direction d is off the board, empty or p's own: nothing flips that way. */
  predicate Quiet(b: seq<int>, p: int, i: int, d: (int, int))
    requires |b| == CellCount && 0 <= i < CellCount
  {
    var nx, ny := i / 8 + d.0, i % 8 + d.1;
    !InBounds(nx, ny) || b[nx * 8 + ny] == 0 || b[nx * 8 + ny] == p
  }

  lemma DirFlipsQuiet(b: seq<int>, p: int, i: int, d: (int, int))
    requires |b| == CellCount && 0 <= i < CellCount && IsDirection(d) && Quiet(b, p, i, d)
    ensures DirFlips(b, p, RayFrom(i, d)) == []
  {
    assert (d.0, d.1) == d;
    RayUnfold(i / 8, i % 8, i / 8 + d.0, i % 8 + d.1, d.0, d.1);
  }

  /** From cell i in direction d an opponent disc on w is followed by p's disc on k: w alone flips that way. */
  lemma DirFlipsSingle(b: seq<int>, p: int, i: int, d: (int, int), w: int, k: int)
    requires |b| == CellCount && 0 <= i < CellCount && IsDirection(d) && IsPlayer(p)
    requires InBounds(i / 8 + d.0, i % 8 + d.1) && w == (i / 8 + d.0) * 8 + (i % 8 + d.1)
    requires InBounds(i / 8 + 2 * d.0, i % 8 + 2 * d.1) && k == (i / 8 + 2 * d.0) * 8 + (i % 8 + 2 * d.1)
    requires b[w] == -p && b[k] == p
    ensures DirFlips(b, p, RayFrom(i, d)) == [w]
  {
    var x, y := i / 8, i % 8;
    assert (d.0, d.1) == d;
    RayUnfold(x, y, x + d.0, y + d.1, d.0, d.1);
    RayUnfold(x + d.0, y + d.1, x + 2 * d.0, y + 2 * d.1, d.0, d.1);
    var r := RayFrom(i, d);
    assert r[0] == w && r[1..][0] == k;
    assert FirstStop(b, p, r[1..]) == 0;
  }

  /** Every one of the first n flip directions except u is quiet from cell i. */
  predicate QuietBelow(b: seq<int>, p: int, i: int, u: nat, n: nat)
    requires |b| == CellCount && 0 <= i < CellCount && n <= 8
  {
    n == 0 || (QuietBelow(b, p, i, u, n - 1) && (n - 1 == u || Quiet(b, p, i, FlipDirections[n - 1])))
  }

  /** When every flip direction but u is quiet and u flips exactly w, the first n directions flip w iff u is among them. */
  lemma {:induction false} FlipsAlongSingle(b: seq<int>, p: int, i: int, u: nat, d: (int, int), w: int, n: nat)
    requires |b| == CellCount && 0 <= i < CellCount && u < 8 && n <= 8
    requires QuietBelow(b, p, i, u, n)
    requires d == FlipDirections[u] && IsDirection(d) && DirFlips(b, p, RayFrom(i, d)) == [w]
    ensures FlipsAlong(b, p, i, n) == if u < n then [w] else []
  {
    DirectionsAreDirections();
    if n > 0 {
      FlipsAlongSingle(b, p, i, u, d, w, n - 1);
      var e := FlipDirections[n - 1];
      assert FlipsAlong(b, p, i, n) == FlipsAlong(b, p, i, n - 1) + DirFlips(b, p, RayFrom(i, e));
      if n - 1 != u {
        DirFlipsQuiet(b, p, i, e);
      }
    }
  }

  /** Each opening move of black flips exactly one white disc: 27 for 19 and 26, 36 for 37 and 44. */
  lemma OpeningFlips()
    ensures Flips(InitialBoard()[19 := 1], 1, 19) == [27]
    ensures Flips(InitialBoard()[26 := 1], 1, 26) == [27]
    ensures Flips(InitialBoard()[37 := 1], 1, 37) == [36]
    ensures Flips(InitialBoard()[44 := 1], 1, 44) == [36]
  {
    OpeningFlip19();
    OpeningFlip26();
    OpeningFlip37();
    OpeningFlip44();
  }

  // The four lemmas below assert QuietBelow level by level: the verifier
  // unfolds a recursive predicate at a literal bound only two levels deep on
  // its own, so each level from 1 to 8 is named once.

  lemma OpeningFlip19() ensures Flips(InitialBoard()[19 := 1], 1, 19) == [27] {
    var b := InitialBoard()[19 := 1];
    assert Quiet(b, 1, 19, FlipDirections[0]);
    assert QuietBelow(b, 1, 19, 1, 1);
    assert QuietBelow(b, 1, 19, 1, 2);
    assert QuietBelow(b, 1, 19, 1, 3);
    assert QuietBelow(b, 1, 19, 1, 4);
    assert QuietBelow(b, 1, 19, 1, 5);
    assert QuietBelow(b, 1, 19, 1, 6);
    assert QuietBelow(b, 1, 19, 1, 7);
    assert QuietBelow(b, 1, 19, 1, 8);
    OpeningFlip(b, 19, 1, (1, 0), 27, 35);
  }

  lemma OpeningFlip26() ensures Flips(InitialBoard()[26 := 1], 1, 26) == [27] {
    var b := InitialBoard()[26 := 1];
    assert Quiet(b, 1, 26, FlipDirections[0]);
    assert QuietBelow(b, 1, 26, 3, 1);
    assert QuietBelow(b, 1, 26, 3, 2);
    assert QuietBelow(b, 1, 26, 3, 3);
    assert QuietBelow(b, 1, 26, 3, 4);
    assert QuietBelow(b, 1, 26, 3, 5);
    assert QuietBelow(b, 1, 26, 3, 6);
    assert QuietBelow(b, 1, 26, 3, 7);
    assert QuietBelow(b, 1, 26, 3, 8);
    OpeningFlip(b, 26, 3, (0, 1), 27, 28);
  }

  lemma OpeningFlip37() ensures Flips(InitialBoard()[37 := 1], 1, 37) == [36] {
    var b := InitialBoard()[37 := 1];
    assert Quiet(b, 1, 37, FlipDirections[0]);
    assert QuietBelow(b, 1, 37, 2, 1);
    assert QuietBelow(b, 1, 37, 2, 2);
    assert QuietBelow(b, 1, 37, 2, 3);
    assert QuietBelow(b, 1, 37, 2, 4);
    assert QuietBelow(b, 1, 37, 2, 5);
    assert QuietBelow(b, 1, 37, 2, 6);
    assert QuietBelow(b, 1, 37, 2, 7);
    assert QuietBelow(b, 1, 37, 2, 8);
    OpeningFlip(b, 37, 2, (0, -1), 36, 35);
  }

  lemma OpeningFlip44() ensures Flips(InitialBoard()[44 := 1], 1, 44) == [36] {
    var b := InitialBoard()[44 := 1];
    assert Quiet(b, 1, 44, FlipDirections[1]);
    assert QuietBelow(b, 1, 44, 0, 1);
    assert QuietBelow(b, 1, 44, 0, 2);
    assert QuietBelow(b, 1, 44, 0, 3);
    assert QuietBelow(b, 1, 44, 0, 4);
    assert QuietBelow(b, 1, 44, 0, 5);
    assert QuietBelow(b, 1, 44, 0, 6);
    assert QuietBelow(b, 1, 44, 0, 7);
    assert QuietBelow(b, 1, 44, 0, 8);
    OpeningFlip(b, 44, 0, (-1, 0), 36, 28);
  }

  /**
   * Placing black on m flips w when flip direction u reaches white's w with
   * black's k behind it and every other flip direction is quiet.
   */
  lemma OpeningFlip(b: seq<int>, m: int, u: nat, d: (int, int), w: int, k: int)
    requires |b| == CellCount && 0 <= m < CellCount && u < 8 && QuietBelow(b, 1, m, u, 8)
    requires d == FlipDirections[u] && IsDirection(d)
    requires InBounds(m / 8 + d.0, m % 8 + d.1) && w == (m / 8 + d.0) * 8 + (m % 8 + d.1)
    requires InBounds(m / 8 + 2 * d.0, m % 8 + 2 * d.1) && k == (m / 8 + 2 * d.0) * 8 + (m % 8 + 2 * d.1)
    requires b[w] == -1 && b[k] == 1
    ensures Flips(b, 1, m) == [w]
  {
    DirFlipsSingle(b, 1, m, d, w, k);
    FlipsAlongSingle(b, 1, m, u, d, w, 8);
  }

  /** After black's opening move m the disc w has turned, white is to move and no pass is recorded. */
  lemma OpeningReply(m: int, w: int)
    requires (m, w) == (19, 27) || (m, w) == (26, 27) || (m, w) == (37, 36) || (m, w) == (44, 36)
    ensures Apply(InitialState(), Some(m)) == GameState(InitialBoard()[m := 1][w := 1], -1, Some(m), 0)
  {
    OpeningMovesLegal();
    OpeningFlips();
    SingleFlipMove(InitialState(), m, w);
  }

  /** A legal move that flips the single disc w turns m and w to the mover's colour and hands the turn over. */
  lemma SingleFlipMove(s: GameState, m: int, w: int)
    requires ValidState(s) && ValidMove(s.board, s.player, m)
    requires Flips(s.board[m := s.player], s.player, m) == [w]
    ensures 0 <= w < CellCount
    ensures Apply(s, Some(m)) == GameState(s.board[m := s.player][w := s.player], -s.player, Some(m), 0)
  {
    ApplyLegal(s, m);
    var t := Apply(s, Some(m));
    assert w in [w];
    var c := s.board[m := s.player][w := s.player];
    forall j | 0 <= j < CellCount
      ensures t.board[j] == c[j]
    {
      assert j == m || j == w || j !in [w];
    }
    assert t.board == c;
  }
}
