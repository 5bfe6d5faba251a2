/**
 * NegaScout (principal variation search) over the rules engine: a depth-bounded
 * alpha-beta search that tries the first move with the full window and every
 * later move with a null window, searching again when the null window fails high.
 * Scores are material from black's point of view (the sum of the board) times
 * the colour of the searching side. The search is proved against Negamax, the
 * unpruned search over the same tree.
 */
module NegascoutSearch {
  import opened Wrappers
  import opened Rules
  import opened RuleLemmas
  import opened Othello

  /** Stands for an infinite window bound: every score lies in [-64, 64]. */
  const INF := 1000

  /** The evaluation: black discs minus white discs. */
  function Evaluate(s: GameState): (v: int)
    requires |s.board| == CellCount
    ensures ValidBoard(s.board) ==> -CellCount <= v <= CellCount
    ensures ValidBoard(s.board) ==> v == Count(s.board, 1) - Count(s.board, -1)
  {
    if ValidBoard(s.board) then SumIsDiscDifference(s.board); Sum(s.board) else Sum(s.board)
  }

  function Max(a: int, b: int): int { if a >= b then a else b }

  // ---------------------------------------------------------------------
  // The reference search

  /** The highest of v[0], ..., v[n-1], starting from -INF as the loop does. */
  function Best(v: seq<int>, n: nat): int
    requires n <= |v|
  {
    if n == 0 then -INF else Max(Best(v, n - 1), v[n - 1])
  }

  /** The index that a replace-on-strictly-greater scan of v[0], ..., v[n-1] keeps. */
  function FirstBest(v: seq<int>, n: nat): (k: nat)
    requires 0 < n <= |v|
    ensures k < n
  {
    if n > 1 && v[n - 1] <= Best(v, n - 1) then FirstBest(v, n - 1) else n - 1
  }

  /** Whether a search of s to the given depth walks the legal moves (rather than stopping or passing). */
  predicate Expands(s: GameState, depth: nat)
    requires |s.board| == CellCount
  {
    depth > 0 && !GameOver(s) && ValidMoves(s.board, s.player) != []
  }

  /**
   * The unpruned search: the evaluation at depth 0 or at the end of the game,
   * the negated value of the same state one level down when there is no move,
   * and otherwise the best of the negated values of the children.
   */
  function Negamax(s: GameState, depth: nat, color: int): int
    requires |s.board| == CellCount
    decreases depth, 1
  {
    if depth == 0 || GameOver(s) then color * Evaluate(s)
    else if ValidMoves(s.board, s.player) == [] then -Negamax(s, depth - 1, -color)
    else
      var moves := ValidMoves(s.board, s.player);
      ValidMovesInRange(s.board, s.player);
      Best(Scores(s, depth - 1, color, moves), |moves|)
  }

  /** The value of each move for the side to move: the negated search of its child. */
  function Scores(s: GameState, d: nat, color: int, moves: seq<int>): (v: seq<int>)
    requires |s.board| == CellCount
    requires InRange(moves)
    ensures |v| == |moves|
    decreases d + 1, 0, |moves|
  {
    if moves == [] then []
    else [-Negamax(Child(s, moves[0]), d, -color)] + Scores(s, d, color, moves[1..])
  }

  /** The move the search keeps: the first legal move of highest value. */
  function BestMove(s: GameState, depth: nat, color: int): (m: int)
    requires |s.board| == CellCount && Expands(s, depth)
    ensures m in ValidMoves(s.board, s.player)
  {
    var moves := ValidMoves(s.board, s.player);
    ValidMovesInRange(s.board, s.player);
    moves[FirstBest(Scores(s, depth - 1, color, moves), |moves|)]
  }

  /**
   * The fail-soft bound: a result at or below alpha bounds the true value from
   * above, one at or above beta bounds it from below, and one strictly inside
   * the window is the true value.
   */
  predicate FailSoft(r: int, v: int, alpha: int, beta: int) {
    (r <= alpha ==> v <= r) && (r >= beta ==> v >= r) && (alpha < r < beta ==> r == v)
  }

  // ---------------------------------------------------------------------
  // Properties of the reference

  /** Best(v, n) bounds each of the first n values from above. */
  lemma {:induction false} BestIsUpperBound(v: seq<int>, n: nat, j: nat)
    requires j < n <= |v|
    ensures v[j] <= Best(v, n)
  {
    if j < n - 1 {
      BestIsUpperBound(v, n - 1, j);
    }
  }

  /**
   * The kept index holds the highest value, every value before it is strictly
   * lower, and every value is at most the highest one.
   */
  lemma {:induction false} FirstBestIsFirstMaximum(v: seq<int>, n: nat)
    requires 0 < n <= |v| && forall j :: 0 <= j < n ==> v[j] > -INF
    ensures var k := FirstBest(v, n);
      && v[k] == Best(v, n)
      && (forall j :: 0 <= j < n ==> v[j] <= v[k])
      && (forall j :: 0 <= j < k ==> v[j] < v[k])
  {
    if n > 1 {
      FirstBestIsFirstMaximum(v, n - 1);
    }
  }

  lemma {:induction false} BestBounds(v: seq<int>, n: nat, lo: int, hi: int)
    requires 0 < n <= |v| && -INF < lo && forall j :: 0 <= j < n ==> lo <= v[j] <= hi
    ensures lo <= Best(v, n) <= hi
  {
    if n > 1 {
      BestBounds(v, n - 1, lo, hi);
    }
  }

  /** On valid states, every value of the reference search lies in [-64, 64]. */
  lemma {:induction false} NegamaxBounds(s: GameState, depth: nat, color: int)
    requires ValidState(s) && IsPlayer(color)
    ensures -CellCount <= Negamax(s, depth, color) <= CellCount
    decreases depth, 1
  {
    if depth == 0 || GameOver(s) {
    } else if ValidMoves(s.board, s.player) == [] {
      NegamaxBounds(s, depth - 1, -color);
    } else {
      var moves := ValidMoves(s.board, s.player);
      ValidMovesInRange(s.board, s.player);
      var d: nat := depth - 1;
      ScoresBounds(s, d, color, moves);
      var v := Scores(s, d, color, moves);
      BestBounds(v, |v|, -CellCount, CellCount);
    }
  }

  lemma ScoresBounds(s: GameState, d: nat, color: int, moves: seq<int>)
    requires ValidState(s) && IsPlayer(color) && InRange(moves)
    ensures forall j :: 0 <= j < |moves| ==> -CellCount <= Scores(s, d, color, moves)[j] <= CellCount
    decreases d + 1, 0
  {
    forall j | 0 <= j < |moves|
      ensures -CellCount <= Scores(s, d, color, moves)[j] <= CellCount
    {
      var t := Child(s, moves[j]);
      ChildValid(s, moves[j]);
      NegamaxBounds(t, d, -color);
      ScoreOfChild(s, d, color, moves, j, t);
    }
  }

  /** With the full window, a fail-soft result is the exact value. */
  lemma FullWindowExact(s: GameState, depth: nat, color: int, r: int)
    requires ValidState(s) && IsPlayer(color) && -CellCount <= r <= CellCount
    requires FailSoft(r, Negamax(s, depth, color), -INF, INF)
    ensures r == Negamax(s, depth, color)
  {
    NegamaxBounds(s, depth, color);
  }

  /** The winner is the sign of the evaluation. */
  lemma WinnerIsSignOfEvaluate(s: GameState)
    requires ValidBoard(s.board)
    ensures Winner(s.board) == 1 <==> Evaluate(s) > 0
    ensures Winner(s.board) == -1 <==> Evaluate(s) < 0
    ensures Winner(s.board) == 0 <==> Evaluate(s) == 0
  {
  }

  // ---------------------------------------------------------------------
  // One step of the scan over the moves

  /** Entry i of the scores is the negated reference value of the child for moves[i]. */
  lemma {:induction false} ScoreOfChild(s: GameState, d: nat, color: int, moves: seq<int>, i: nat, t: GameState)
    requires |s.board| == CellCount && InRange(moves) && i < |moves|
    requires t == Child(s, moves[i])
    ensures Scores(s, d, color, moves)[i] == -Negamax(t, d, -color)
  {
    if i > 0 {
      ScoreOfChild(s, d, color, moves[1..], i - 1, t);
    }
  }

  /** The reference value of a state whose moves are searched: the best of the scores. */
  lemma NegamaxOfExpanded(s: GameState, depth: nat, d: nat, color: int, moves: seq<int>)
    requires |s.board| == CellCount && Expands(s, depth) && d == depth - 1
    requires moves == ValidMoves(s.board, s.player)
    ensures InRange(moves)
    ensures Negamax(s, depth, color) == Best(Scores(s, d, color, moves), |moves|)
  {
    ValidMovesInRange(s.board, s.player);
    assert !(depth == 0 || GameOver(s)) && moves != [];
  }

  /**
   * The kept move is the first move of highest value: its score is the
   * reference value of s, no move scores more, and every earlier move scores
   * strictly less.
   */
  lemma BestMoveIsFirstBest(s: GameState, depth: nat, color: int)
    requires ValidState(s) && IsPlayer(color) && Expands(s, depth)
    ensures InRange(ValidMoves(s.board, s.player))
    ensures var moves := ValidMoves(s.board, s.player);
      var v := Scores(s, depth - 1, color, moves);
      var k := FirstBest(v, |moves|);
      && moves[k] == BestMove(s, depth, color)
      && v[k] == Negamax(s, depth, color)
      && (forall j :: 0 <= j < |moves| ==> v[j] <= v[k])
      && (forall j :: 0 <= j < k ==> v[j] < v[k])
  {
    var moves := ValidMoves(s.board, s.player);
    NegamaxOfExpanded(s, depth, depth - 1, color, moves);
    ScoresFirstBest(s, depth - 1, color, moves);
  }

  /** Over the scores of a non-empty move list, the kept index is the first of highest score. */
  lemma ScoresFirstBest(s: GameState, d: nat, color: int, moves: seq<int>)
    requires ValidState(s) && IsPlayer(color) && InRange(moves) && moves != []
    ensures var v := Scores(s, d, color, moves);
      var k := FirstBest(v, |moves|);
      && v[k] == Best(v, |moves|)
      && (forall j :: 0 <= j < |moves| ==> v[j] <= v[k])
      && (forall j :: 0 <= j < k ==> v[j] < v[k])
  {
    ScoresBounds(s, d, color, moves);
    FirstBestIsFirstMaximum(Scores(s, d, color, moves), |moves|);
  }

  /**
   * One child of the scan. Before it, score is the best result so far and the
   * window is (Max(alpha, score), beta); the child's result cs is fail-soft for
   * that window. Afterwards the scan's bounds on the best value still hold, and
   * the kept index moves to i exactly when cs beats score.
   */
  lemma {:induction false} ScanStep(v: seq<int>, i: nat, alpha: int, beta: int, a: int,
                                    score: int, k: nat, cs: int, next: int, nextK: nat)
    requires i < |v| && a == Max(alpha, score) && a < beta && -INF < cs
    requires i == 0 ==> score == -INF
    requires score <= alpha ==> Best(v, i) <= score
    requires score > alpha ==> i > 0 && score == Best(v, i) && k == FirstBest(v, i)
    requires FailSoft(cs, v[i], a, beta)
    requires next == (if cs > score then cs else score) && nextK == (if cs > score then i else k)
    ensures next <= alpha ==> Best(v, i + 1) <= next
    ensures alpha < next < beta ==> next == Best(v, i + 1) && nextK == FirstBest(v, i + 1)
    ensures next >= beta ==> v[i] >= next
  {
  }

  /** The bound a finished scan gives, whether it ran over every move or stopped at a cutoff. */
  lemma ScanResult(v: seq<int>, alpha: int, beta: int, score: int, cut: nat)
    requires 0 < |v| && alpha < beta
    requires cut < |v| ==> score >= beta && v[cut] >= score
    requires cut >= |v| ==> score < beta
    requires cut >= |v| && score <= alpha ==> Best(v, |v|) <= score
    requires cut >= |v| && score > alpha ==> score == Best(v, |v|)
    ensures FailSoft(score, Best(v, |v|), alpha, beta)
  {
    if cut < |v| {
      BestIsUpperBound(v, |v|, cut);
    }
  }

  // ---------------------------------------------------------------------
  // The search

  /** A search tree node: the state it stands for and the best move found there. */
  class NegascoutNode {
    const state: OthelloGame
    var bestMove: Option<int>

    constructor (state: OthelloGame)
      ensures this.state == state && bestMove == None
    {
      this.state := state;
      bestMove := None;
    }
  }

  class Negascout {
    const depthLimit: nat

    constructor (depthLimit: nat)
      ensures this.depthLimit == depthLimit
    {
      this.depthLimit := depthLimit;
    }

    /** The best move for the side to move in root, searched to depthLimit with the full window. */
    method Search(root: OthelloGame) returns (move: Option<int>)
      requires root.Valid()
      ensures var s := root.State();
        move == if Expands(s, depthLimit) then Some(BestMove(s, depthLimit, 1)) else None
      ensures move.Some? ==> ValidMove(root.board[..], root.currentPlayer, move.value)
    {
      var rootNode := new NegascoutNode(root);
      var score := Scout(rootNode, root.State(), depthLimit, -INF, INF, 1);
      move := rootNode.bestMove;
      ValidMovesExact(root.board[..], root.currentPlayer);
    }

    /**
     * NegaScout from node, whose game is in state s, to depth within the window
     * (alpha, beta) for the side of the given colour. Records in node the first
     * move that raised the score.
     */
    method Scout(node: NegascoutNode, ghost s: GameState, depth: nat, alpha: int, beta: int, color: int) returns (score: int)
      requires node.state.Valid() && s == node.state.State() && IsPlayer(color)
      requires -INF <= alpha <= INF && -INF <= beta <= INF
      modifies node
      decreases depth, 2
      ensures -CellCount <= score <= CellCount
      ensures depth == 0 || GameOver(s) ==> score == color * Evaluate(s)
      ensures alpha < beta ==> FailSoft(score, Negamax(s, depth, color), alpha, beta)
      ensures alpha == -INF && beta == INF ==> score == Negamax(s, depth, color)
      ensures !Expands(s, depth) ==> node.bestMove == old(node.bestMove)
      ensures Expands(s, depth) ==> node.bestMove.Some? && node.bestMove.value in ValidMoves(s.board, s.player)
      ensures Expands(s, depth) && alpha < score < beta ==> node.bestMove == Some(BestMove(s, depth, color))
    {
      var over := node.state.IsGameOver();
      if depth == 0 || over {
        score := color * Evaluate(node.state.State());
        FullWindow(s, depth, color, score, alpha, beta);
        return;
      }
      var moves := node.state.GetValidMoves();
      if moves == [] {
        var r := Scout(node, s, depth - 1, -beta, -alpha, -color);
        score := -r;
        FullWindow(s, depth, color, score, alpha, beta);
        return;
      }
      NegamaxOfExpanded(s, depth, depth - 1, color, moves);
      score := ScanMoves(node, s, moves, depth, alpha, beta, color);
      FullWindow(s, depth, color, score, alpha, beta);
    }

    /**
     * The loop of Scout over the moves of node, all legal: each child is
     * searched by SearchChild; a strictly higher result becomes the score and
     * its move the best move; the window's lower end rises to the score, and
     * the scan stops once it reaches beta.
     */
    method ScanMoves(node: NegascoutNode, ghost s: GameState, moves: seq<int>, depth: nat,
                     alpha: int, beta: int, color: int) returns (score: int)
      requires node.state.Valid() && s == node.state.State() && IsPlayer(color)
      requires InRange(moves) && moves != [] && depth > 0
      requires -INF <= alpha <= INF && -INF <= beta <= INF
      modifies node
      decreases depth, 1
      ensures -CellCount <= score <= CellCount
      ensures node.bestMove.Some? && node.bestMove.value in moves
      ensures alpha < beta ==> FailSoft(score, Best(Scores(s, depth - 1, color, moves), |moves|), alpha, beta)
      ensures alpha < score < beta ==>
        node.bestMove == Some(moves[FirstBest(Scores(s, depth - 1, color, moves), |moves|)])
    {
      ghost var v := Scores(s, depth - 1, color, moves);
      score := -INF;
      var a := alpha;
      ghost var cut := |moves|;
      ghost var k: nat := 0;
      for i := 0 to |moves|
        invariant s == node.state.State() && cut == |moves|
        invariant a == Max(alpha, score) && (i > 0 ==> a < beta)
        invariant i == 0 ==> score == -INF
        invariant i > 0 ==> -CellCount <= score <= CellCount && k < i && node.bestMove == Some(moves[k])
        invariant score <= alpha ==> Best(v, i) <= score
        invariant score > alpha ==> i > 0 && score == Best(v, i) && k == FirstBest(v, i)
      {
        var move := moves[i];
        var cs := SearchChild(node, s, moves, i, depth, a, beta, color);
        assert a < beta ==> FailSoft(cs, v[i], a, beta);
        ghost var before, kept := score, k;
        if cs > score {
          score := cs;
          node.bestMove := Some(move);
          k := i;
        }
        if a < beta {
          ScanStep(v, i, alpha, beta, a, before, kept, cs, score, k);
        }
        a := Max(a, score);
        if a >= beta {
          cut := i;
          break;
        }
      }
      if alpha < beta {
        ScanResult(v, alpha, beta, score, cut);
      }
    }

    /** A new node for a clone of the game of node with move applied. */
    method NewChild(node: NegascoutNode, ghost s: GameState, move: int) returns (child: NegascoutNode)
      requires node.state.Valid() && s == node.state.State() && 0 <= move < CellCount
      ensures fresh(child) && fresh(child.state) && fresh(child.state.board)
      ensures child.state.Valid() && child.state.State() == Child(s, move)
      ensures child.bestMove == None
    {
      var newState := node.state.Clone();
      newState.ApplyMove(Some(move));
      child := new NegascoutNode(newState);
      ChildValid(s, move);
    }

    /**
     * The child of node for moves[i], searched as the loop body of Scout does:
     * the first move with the whole window (alpha, beta), a later one by
     * NullWindowSearch.
     */
    method SearchChild(node: NegascoutNode, ghost s: GameState, moves: seq<int>, i: nat, depth: nat,
                       alpha: int, beta: int, color: int) returns (cs: int)
      requires node.state.Valid() && s == node.state.State() && IsPlayer(color)
      requires InRange(moves) && i < |moves| && depth > 0
      requires -INF <= alpha <= INF && -INF <= beta <= INF
      requires i > 0 ==> -CellCount <= alpha < beta
      decreases depth, 0
      ensures -CellCount <= cs <= CellCount
      ensures alpha < beta ==> FailSoft(cs, Scores(s, depth - 1, color, moves)[i], alpha, beta)
    {
      var move := moves[i];
      var child := NewChild(node, s, move);
      ghost var t := Child(s, move);
      var d, c := depth - 1, -color;
      ScoreOfChild(s, d, color, moves, i, t);
      if i == 0 {
        cs := WholeWindowSearch(child, t, d, alpha, beta, c);
      } else {
        cs := NullWindowSearch(child, t, d, alpha, beta, c);
      }
    }

    /** The first child, in state t, searched from the parent's side with the whole window (alpha, beta). */
    method WholeWindowSearch(child: NegascoutNode, ghost t: GameState, depth: nat,
                             alpha: int, beta: int, color: int) returns (cs: int)
      requires child.state.Valid() && t == child.state.State() && IsPlayer(color)
      requires -INF <= alpha <= INF && -INF <= beta <= INF
      modifies child
      decreases depth, 3
      ensures -CellCount <= cs <= CellCount
      ensures alpha < beta ==> FailSoft(cs, -Negamax(t, depth, color), alpha, beta)
    {
      var r := Scout(child, t, depth, -beta, -alpha, color);
      cs := -r;
      if alpha < beta {
        FailSoftNegated(r, Negamax(t, depth, color), -beta, -alpha);
      }
    }

    /**
     * A later child, in state t, searched from the parent's side: first with
     * the null window (alpha, alpha + 1) and, when that result falls strictly
     * inside (alpha, beta), once more with the window (result, beta).
     */
    method NullWindowSearch(child: NegascoutNode, ghost t: GameState, depth: nat,
                            alpha: int, beta: int, color: int) returns (cs: int)
      requires child.state.Valid() && t == child.state.State() && IsPlayer(color)
      requires -CellCount <= alpha < beta <= INF
      modifies child
      decreases depth, 3
      ensures -CellCount <= cs <= CellCount
      ensures FailSoft(cs, -Negamax(t, depth, color), alpha, beta)
    {
      ghost var x := Negamax(t, depth, color);
      var r := Scout(child, t, depth, -alpha - 1, -alpha, color);
      cs := -r;
      if alpha < cs < beta {
        var r2 := Scout(child, t, depth, -beta, -cs, color);
        cs := -r2;
        NullWindowThenResearch(x, alpha, beta, r, r2);
      } else {
        NullWindowDecides(x, alpha, beta, r);
      }
    }
  }

  lemma FailSoftNegated(r: int, x: int, lo: int, hi: int)
    requires FailSoft(r, x, lo, hi)
    ensures FailSoft(-r, -x, -hi, -lo)
  {
  }

  /**
   * A null-window result r for (-alpha - 1, -alpha), seen from the child's side,
   * that does not fall strictly inside (alpha, beta) once negated is already a
   * fail-soft result for (alpha, beta).
   */
  lemma NullWindowDecides(x: int, alpha: int, beta: int, r: int)
    requires alpha < beta && FailSoft(r, x, -alpha - 1, -alpha)
    requires !(alpha < -r < beta)
    ensures FailSoft(-r, -x, alpha, beta)
  {
  }

  /**
   * When the negated null-window result -r falls strictly inside (alpha, beta),
   * it bounds the value from below, and the search again with the window
   * (-beta, r) gives a fail-soft result for (alpha, beta).
   */
  lemma NullWindowThenResearch(x: int, alpha: int, beta: int, r: int, r2: int)
    requires FailSoft(r, x, -alpha - 1, -alpha) && alpha < -r < beta
    requires FailSoft(r2, x, -beta, r)
    ensures FailSoft(-r2, -x, alpha, beta)
  {
  }

  /** With the full window, Scout's fail-soft bound pins the score to the reference value. */
  lemma FullWindow(s: GameState, depth: nat, color: int, r: int, alpha: int, beta: int)
    requires ValidState(s) && IsPlayer(color) && -CellCount <= r <= CellCount
    requires alpha < beta ==> FailSoft(r, Negamax(s, depth, color), alpha, beta)
    ensures alpha == -INF && beta == INF ==> r == Negamax(s, depth, color)
  {
    if alpha == -INF && beta == INF {
      FullWindowExact(s, depth, color, r);
    }
  }
}
