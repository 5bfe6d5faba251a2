/**
 * The Othello rules as functions of a game-state value: the 8x8 board as a
 * row-major sequence of 64 cells (1 black, -1 white, 0 empty), the player to
 * move, the last move played and the number of consecutive passes.
 * The class in othello.dfy updates this state in place and is proved to
 * follow these functions.
 */
module Rules {
  import opened Wrappers

  const Side := 8
  const CellCount := 64

  predicate IsPlayer(p: int) { p == 1 || p == -1 }

  predicate ValidBoard(b: seq<int>) {
    |b| == CellCount && forall i :: 0 <= i < |b| ==> -1 <= b[i] <= 1
  }

  datatype GameState = GameState(board: seq<int>, player: int, lastMove: Option<int>, turnsPassed: nat)

  predicate ValidState(s: GameState) {
    ValidBoard(s.board) && IsPlayer(s.player)
  }

  /** The opening position: white on 27 and 36, black on 28 and 35. */
  function InitialBoard(): (b: seq<int>)
    ensures ValidBoard(b)
  {
    seq(CellCount, i => if i == 27 || i == 36 then -1 else if i == 28 || i == 35 then 1 else 0)
  }

  function InitialState(): (s: GameState)
    ensures ValidState(s)
  {
    GameState(InitialBoard(), 1, None, 0)
  }

  // ---------------------------------------------------------------------
  // Walking along a direction

  /** The eight directions in the order the legality test tries them. */
  const ScanDirections: seq<(int, int)> := [(-1, -1), (-1, 0), (-1, 1), (0, -1), (0, 1), (1, -1), (1, 0), (1, 1)]

  /** The eight directions in the order the flip collection visits them. */
  const FlipDirections: seq<(int, int)> := [(-1, 0), (1, 0), (0, -1), (0, 1), (-1, -1), (-1, 1), (1, -1), (1, 1)]

  predicate IsDirection(d: (int, int)) {
    -1 <= d.0 <= 1 && -1 <= d.1 <= 1 && d != (0, 0)
  }

  lemma DirectionsAreDirections()
    ensures |ScanDirections| == 8 && |FlipDirections| == 8
    ensures forall t :: 0 <= t < 8 ==> IsDirection(ScanDirections[t]) && IsDirection(FlipDirections[t])
  {
  }

  predicate InBounds(x: int, y: int) { 0 <= x < Side && 0 <= y < Side }

  predicate InRange(r: seq<int>) {
    forall j :: 0 <= j < |r| ==> 0 <= r[j] < CellCount
  }

  function StepsLeft(x: int, y: int, d: (int, int)): int {
    if d.0 > 0 then Side - x else if d.0 < 0 then x + 1 else if d.1 > 0 then Side - y else y + 1
  }

  /**
   * The indices of the cells beyond (x, y) in direction d, nearest first, up to
   * the edge of the board: the cells a walk from (x, y) visits.
   */
  function Ray(x: int, y: int, d: (int, int)): (r: seq<int>)
    requires IsDirection(d)
    ensures InRange(r)
    decreases StepsLeft(x, y, d)
  {
    var nx, ny := x + d.0, y + d.1;
    if InBounds(nx, ny) then [nx * 8 + ny] + Ray(nx, ny, d) else []
  }

  /** The ray beyond cell i in direction d. */
  function RayFrom(i: int, d: (int, int)): (r: seq<int>)
    requires IsDirection(d)
    ensures InRange(r)
  {
    Ray(i / 8, i % 8, d)
  }

  // ---------------------------------------------------------------------
  // Capturing

  /**
   * The capture test as a walk along r: opponent discs are passed over, a disc
   * of p ends the walk with a capture if one was passed, anything else ends it
   * without one. passed says whether the walk has already passed an opponent disc.
   */
  predicate CaptureWalk(b: seq<int>, p: int, r: seq<int>, passed: bool)
    requires |b| == CellCount && InRange(r)
  {
    if r == [] then false
    else if b[r[0]] == -p then CaptureWalk(b, p, r[1..], true)
    else if b[r[0]] == p then passed
    else false
  }

  /**
   * Along r, the capture test finds one or more discs of -p followed directly
   * by a disc of p (RuleLemmas.BracketsRun states this as an explicit run).
   */
  predicate Brackets(b: seq<int>, p: int, r: seq<int>)
    requires |b| == CellCount && InRange(r)
  {
    CaptureWalk(b, p, r, false)
  }

  /** Cell i is empty and placing a disc of p there captures in one of the eight directions. */
  predicate ValidMove(b: seq<int>, p: int, i: int)
    requires |b| == CellCount
  {
    DirectionsAreDirections();
    0 <= i < CellCount && b[i] == 0 &&
    exists t :: 0 <= t < 8 && Brackets(b, p, RayFrom(i, ScanDirections[t]))
  }

  /** The legal moves among cells 0 .. n-1, in the order a scan upwards meets them. */
  function MovesBelow(b: seq<int>, p: int, n: nat): (ms: seq<int>)
    requires |b| == CellCount && n <= CellCount
  {
    if n == 0 then []
    else MovesBelow(b, p, n - 1) + (if ValidMove(b, p, n - 1) then [n - 1] else [])
  }

  /** All legal moves of p, ascending. */
  function ValidMoves(b: seq<int>, p: int): (ms: seq<int>)
    requires |b| == CellCount
  {
    MovesBelow(b, p, |b|)
  }

  /**
   * How many cells at the start of r hold neither an empty cell nor a disc of p:
   * the walk of the flip collection stops at the first cell that does.
   */
  function FirstStop(b: seq<int>, p: int, r: seq<int>): (k: nat)
    requires |b| == CellCount && InRange(r)
    ensures k <= |r|
    ensures forall j :: 0 <= j < k ==> b[r[j]] != 0 && b[r[j]] != p
    ensures k < |r| ==> b[r[k]] == 0 || b[r[k]] == p
  {
    if r == [] || b[r[0]] == 0 || b[r[0]] == p then 0 else 1 + FirstStop(b, p, r[1..])
  }

  /** The cells that a disc of p flips along r: the run before its own disc, if there is one. */
  function DirFlips(b: seq<int>, p: int, r: seq<int>): (f: seq<int>)
    requires |b| == CellCount && InRange(r)
  {
    var k := FirstStop(b, p, r);
    if k < |r| && b[r[k]] == p then r[..k] else []
  }

  /**
   * The flip collection as a walk along r: run holds the discs passed so far;
   * an empty cell or the edge of the board drops them, a disc of p keeps them.
   */
  function FlipWalk(b: seq<int>, p: int, r: seq<int>, run: seq<int>): (f: seq<int>)
    requires |b| == CellCount && InRange(r)
  {
    if r == [] || b[r[0]] == 0 then []
    else if b[r[0]] == p then run
    else FlipWalk(b, p, r[1..], run + [r[0]])
  }

  /** The flips of the first n flip directions around cell i, concatenated in that order. */
  function FlipsAlong(b: seq<int>, p: int, i: int, n: nat): (f: seq<int>)
    requires |b| == CellCount && n <= 8
  {
    DirectionsAreDirections();
    if n == 0 then []
    else FlipsAlong(b, p, i, n - 1) + DirFlips(b, p, RayFrom(i, FlipDirections[n - 1]))
  }

  /** Every disc that placing p on cell i flips. */
  function Flips(b: seq<int>, p: int, i: int): (f: seq<int>)
    requires |b| == CellCount
  {
    FlipsAlong(b, p, i, 8)
  }

  // ---------------------------------------------------------------------
  // State transitions

  /** Cell m and every cell listed in flips take the value p; the rest keep theirs. */
  function Placed(b: seq<int>, m: int, p: int, flips: seq<int>): (c: seq<int>) {
    seq(|b|, i requires 0 <= i < |b| => if i == m || i in flips then p else b[i])
  }

  /**
   * Playing a move: a legal move places the disc, flips (computed once the disc
   * is down), hands the turn over, records the move and clears the pass count;
   * an absent or illegal move changes nothing.
   */
  function Apply(s: GameState, move: Option<int>): (t: GameState)
    requires |s.board| == CellCount
    requires move.Some? ==> 0 <= move.value < CellCount
  {
    if move.Some? && ValidMove(s.board, s.player, move.value) then
      var m := move.value;
      var b1 := s.board[m := s.player];
      GameState(Placed(b1, m, s.player, Flips(b1, s.player, m)), -s.player, Some(m), 0)
    else s
  }

  function Pass(s: GameState): (t: GameState) {
    s.(player := -s.player, turnsPassed := s.turnsPassed + 1)
  }

  /** A copy keeps the board and the player; the last move and the pass count start afresh. */
  function CloneOf(s: GameState): (t: GameState) {
    GameState(s.board, s.player, None, 0)
  }

  /** The state of a search-tree child: a clone of the parent's game with the move applied. */
  function Child(s: GameState, m: int): (t: GameState)
    requires |s.board| == CellCount && 0 <= m < CellCount
    ensures |t.board| == CellCount
  {
    Apply(CloneOf(s), Some(m))
  }

  predicate Full(b: seq<int>) {
    forall i :: 0 <= i < |b| ==> b[i] != 0
  }

  /** The end-of-game test exactly as the source writes it. */
  predicate GameOver(s: GameState)
    requires |s.board| == CellCount
  {
    if Full(s.board) then ValidMoves(s.board, s.player) == []
    else if s.turnsPassed >= 2 then false
    else ValidMoves(s.board, s.player) == []
  }

  // ---------------------------------------------------------------------
  // Counting discs

  /** The indices of the cells holding v. */
  function Cells(b: seq<int>, v: int): (c: set<int>) {
    set i | 0 <= i < |b| && b[i] == v
  }

  function Count(b: seq<int>, v: int): (n: nat) {
    |Cells(b, v)|
  }

  function Sum(b: seq<int>): (n: int) {
    if b == [] then 0 else Sum(b[..|b| - 1]) + b[|b| - 1]
  }

  lemma CountSnoc(b: seq<int>, x: int, v: int)
    ensures Count(b + [x], v) == Count(b, v) + (if x == v then 1 else 0)
  {
    var c := b + [x];
    if x == v {
      assert Cells(c, v) == Cells(b, v) + {|b|};
    } else {
      assert Cells(c, v) == Cells(b, v);
    }
  }

  /** On cells valued -1, 0 or 1, the sum is the number of black discs minus the number of white ones. */
  lemma {:induction false} SumIsDiscDifference(b: seq<int>)
    requires forall i :: 0 <= i < |b| ==> -1 <= b[i] <= 1
    ensures Sum(b) == Count(b, 1) - Count(b, -1)
    ensures -|b| <= Sum(b) <= |b|
  {
    if b != [] {
      var init := b[..|b| - 1];
      SumIsDiscDifference(init);
      assert b == init + [b[|b| - 1]];
      CountSnoc(init, b[|b| - 1], 1);
      CountSnoc(init, b[|b| - 1], -1);
    }
  }

  /** The winner: 1 (black) or -1 (white) for the colour with more discs, 0 for a draw. */
  function Winner(b: seq<int>): (w: int)
    requires ValidBoard(b)
    ensures w == 1 <==> Count(b, 1) > Count(b, -1)
    ensures w == -1 <==> Count(b, -1) > Count(b, 1)
    ensures w == 0 <==> Count(b, 1) == Count(b, -1)
  {
    SumIsDiscDifference(b);
    var score := Sum(b);
    if score > 0 then 1 else if score < 0 then -1 else 0
  }
}
