/**
 * The bookkeeping of Monte Carlo tree search. The tree is an arena: a
 * sequence of nodes addressed by index, the root at index 0, each node holding
 * the index of its parent and the indices of its children in the order they
 * were expanded. The choice of a child by UCB1 and the random playout are
 * oracles passed in as functions; everything else is the search as written.
 */
module Mcts {
  import opened Wrappers
  import opened Rules
  import opened RuleLemmas
  import opened Othello

  /**
   * A tree node: the game state it stands for, its parent, its children, the
   * visit count, the win total and the legal moves not yet expanded.
   */
  datatype Node = Node(state: GameState, parent: Option<nat>, children: seq<nat>,
                       visits: nat, wins: int, untried: seq<int>)

  /** A node as it is created: no children, no visits, every legal move of its state untried. */
  function NewNode(s: GameState, parent: Option<nat>): Node
    requires |s.board| == CellCount
  {
    Node(s, parent, [], 0, 0, ValidMoves(s.board, s.player))
  }

  /** UCB1 as an oracle: for a node of the tree, the position among its children of the child picked. */
  type Policy = (seq<Node>, nat) -> nat

  /** The oracle picks one of the children whenever there is one, as a maximum over them does. */
  ghost predicate PicksChild(choose: Policy) {
    forall nodes: seq<Node>, i: nat ::
      i < |nodes| && nodes[i].children != [] ==> choose(nodes, i) < |nodes[i].children|
  }

  /**
   * The random playout as an oracle: the winner of the game played out from a
   * state in a given iteration. The iteration number stands for the position
   * in the random stream, so equal states may play out differently.
   */
  type Playout = (nat, GameState) -> int

  ghost predicate IsOutcome(playout: Playout) {
    forall it: nat, s: GameState :: -1 <= playout(it, s) <= 1
  }

  // ---------------------------------------------------------------------
  // The shape of the tree

  /** The root has no parent; every other node's parent comes before it. */
  predicate ParentsBelow(nodes: seq<Node>) {
    forall i :: 0 <= i < |nodes| ==>
      if i == 0 then nodes[i].parent.None? else nodes[i].parent.Some? && nodes[i].parent.value < i
  }

  /** Node c is a child of node i created for move m: it comes later, names i as parent and records m as its last move. */
  predicate ChildOk(nodes: seq<Node>, i: nat, c: nat, m: int) {
    i < c < |nodes| && nodes[c].parent == Some(i) && nodes[c].state.lastMove == Some(m)
  }

  /**
   * Node i holds a valid state; its untried moves are the legal moves not yet
   * expanded, a prefix of them since expansion takes the last one; its k-th
   * child was made for the k-th move taken from the end; and a node below the
   * root has no pass recorded.
   */
  predicate NodeOk(nodes: seq<Node>, i: nat)
    requires i < |nodes|
  {
    var n := nodes[i];
    ValidState(n.state) &&
    (i > 0 ==> n.state.turnsPassed == 0) &&
    var ms := ValidMoves(n.state.board, n.state.player);
    |n.untried| + |n.children| == |ms| && n.untried == ms[..|n.untried|] &&
    forall k :: 0 <= k < |n.children| ==> ChildOk(nodes, i, n.children[k], ms[|ms| - 1 - k])
  }

  /** Every node holds a valid state. */
  predicate StatesValid(nodes: seq<Node>) {
    forall i :: 0 <= i < |nodes| ==> ValidState(nodes[i].state)
  }

  /** The invariant of the tree. */
  predicate TreeOk(nodes: seq<Node>) {
    |nodes| > 0 && ParentsBelow(nodes) && StatesValid(nodes) && forall i :: 0 <= i < |nodes| ==> NodeOk(nodes, i)
  }

  /** Two nodes that differ at most in their visit counts and win totals. */
  predicate SameShape(x: Node, y: Node) {
    x.state == y.state && x.parent == y.parent && x.children == y.children && x.untried == y.untried
  }

  /** Two arenas of the same size whose nodes have the same parents. */
  predicate SameParents(a: seq<Node>, b: seq<Node>) {
    |a| == |b| && forall j :: 0 <= j < |a| ==> a[j].parent == b[j].parent
  }

  predicate Reshaped(a: seq<Node>, b: seq<Node>) {
    |a| == |b| && forall j :: 0 <= j < |a| ==> SameShape(a[j], b[j])
  }

  /** Every win total lies between minus the visit count and the visit count. */
  predicate WinsBounded(nodes: seq<Node>) {
    forall j :: 0 <= j < |nodes| ==> -(nodes[j].visits as int) <= nodes[j].wins <= nodes[j].visits
  }

  /** Whether every legal move of the node has been expanded. */
  predicate IsFullyExpanded(n: Node) {
    n.untried == []
  }

  /** Every node but the root is listed among the children of its parent. */
  predicate ChildrenListed(nodes: seq<Node>) {
    forall p, c :: 0 <= p < c < |nodes| && nodes[c].parent == Some(p) ==> c in nodes[p].children
  }

  /** The visit counts of the nodes listed in cs, summed; an index outside the arena counts nothing. */
  function VisitsOf(nodes: seq<Node>, cs: seq<nat>): nat {
    if cs == [] then 0
    else
      var c := cs[|cs| - 1];
      VisitsOf(nodes, cs[..|cs| - 1]) + (if c < |nodes| then nodes[c].visits else 0)
  }

  /** The visit counts of the children of node i, summed. */
  function ChildVisits(nodes: seq<Node>, i: nat): nat
    requires i < |nodes|
  {
    VisitsOf(nodes, nodes[i].children)
  }

  /** The child that the oracle picks, or None when there are no children. */
  function BestChild(nodes: seq<Node>, i: nat, choose: Policy): (c: Option<nat>)
    requires i < |nodes| && PicksChild(choose)
    ensures c.None? <==> nodes[i].children == []
    ensures c.Some? ==> c.value in nodes[i].children
  {
    if nodes[i].children == [] then None else Some(nodes[i].children[choose(nodes, i)])
  }

  // ---------------------------------------------------------------------
  // The operations on tree values

  /**
   * Expanding node i: when a move is untried, the last one is removed, a node
   * for the child state is appended and listed as the last child of i;
   * otherwise nothing changes.
   */
  function Expanded(nodes: seq<Node>, i: nat): seq<Node>
    requires i < |nodes| && |nodes[i].state.board| == CellCount && InRange(nodes[i].untried)
  {
    var n := nodes[i];
    if n.untried == [] then nodes
    else
      var m := n.untried[|n.untried| - 1];
      nodes[i := n.(untried := n.untried[..|n.untried| - 1], children := n.children + [|nodes|])]
        + [NewNode(Child(n.state, m), Some(i))]
  }

  /** The step of backpropagation at node i alone: one more visit and result added to its wins. */
  function Bumped(nodes: seq<Node>, i: nat, result: int): (next: seq<Node>)
    requires i < |nodes|
    ensures SameParents(nodes, next)
  {
    nodes[i := nodes[i].(visits := nodes[i].visits + 1, wins := nodes[i].wins + result)]
  }

  /** Backpropagation from node i: one more visit and result added to the wins, then the parent with -result. */
  function Propagated(nodes: seq<Node>, i: nat, result: int): (t: seq<Node>)
    requires ParentsBelow(nodes) && i < |nodes|
    ensures |t| == |nodes|
    decreases i
  {
    var next := Bumped(nodes, i, result);
    if nodes[i].parent.None? then next else Propagated(next, nodes[i].parent.value, -result)
  }

  /** The nodes backpropagation from i visits: i, its parent, and so on up to the root. */
  function Path(nodes: seq<Node>, i: nat): seq<nat>
    requires ParentsBelow(nodes) && i < |nodes|
    decreases i
  {
    [i] + if nodes[i].parent.None? then [] else Path(nodes, nodes[i].parent.value)
  }

  /**
   * The node selection reaches: from node i, while the game there is not over
   * and every move has been expanded, go to the child the oracle picks.
   * None stands for a fully expanded node without children, where the source
   * goes on with no node and fails.
   */
  function Descend(nodes: seq<Node>, i: nat, choose: Policy): Option<nat>
    requires TreeOk(nodes) && i < |nodes| && PicksChild(choose)
    decreases |nodes| - i
  {
    if GameOver(nodes[i].state) || !IsFullyExpanded(nodes[i]) then Some(i)
    else
      match BestChild(nodes, i, choose)
      case None => None
      case Some(c) =>
        BestChildIsChild(nodes, i, choose);
        Descend(nodes, c, choose)
  }

  /**
   * Selection and expansion: the node Descend reaches from the root is
   * expanded unless its game is over. The result is the new arena and the node
   * to play out from: the new child, or the node itself when its game is over
   * or it has no untried move. None where selection fails.
   */
  function Selected(nodes: seq<Node>, choose: Policy): (r: Option<(seq<Node>, nat)>)
    requires TreeOk(nodes) && PicksChild(choose)
    ensures r.Some? ==> ParentsBelow(r.value.0) && r.value.1 < |r.value.0|
  {
    match Descend(nodes, 0, choose)
    case None => None
    case Some(j) =>
      DescendStops(nodes, 0, choose);
      ExpandedOk(nodes, j);
      if GameOver(nodes[j].state) then Some((nodes, j))
      else Some((Expanded(nodes, j), if IsFullyExpanded(nodes[j]) then j else |nodes|))
  }

  /**
   * Iteration it of the search: selection and expansion, then the playout's
   * result for the node reached, backpropagated from that node. None where
   * selection fails.
   */
  function Stepped(nodes: seq<Node>, it: nat, choose: Policy, playout: Playout): Option<seq<Node>>
    requires TreeOk(nodes) && PicksChild(choose)
  {
    match Selected(nodes, choose)
    case None => None
    case Some((e, k)) => Some(Propagated(e, k, playout(it, e[k].state)))
  }

  /**
   * The iterations numbered 0 .. n - 1 in turn; None once one of them fails.
   * Every tree reached keeps the invariant (IteratedOk), so the test of TreeOk
   * only makes the next step well defined.
   */
  function Iterated(nodes: seq<Node>, n: nat, choose: Policy, playout: Playout): Option<seq<Node>>
    requires PicksChild(choose)
    decreases n
  {
    if n == 0 then Some(nodes)
    else
      match Iterated(nodes, n - 1, choose, playout)
      case None => None
      case Some(t) => if TreeOk(t) then Stepped(t, n - 1, choose, playout) else None
  }

  /**
   * The whole search: grow the tree of the root alone for n iterations, then
   * take the last move of the child the final oracle picks. Failure where the
   * source fails.
   */
  function SearchOutcome(root: GameState, n: nat, choose: Policy, finalChoice: Policy, playout: Playout): Result<Option<int>, string>
    requires ValidState(root) && PicksChild(choose) && PicksChild(finalChoice)
  {
    SingleNodeOk(root);
    match Iterated([NewNode(root, None)], n, choose, playout)
    case None => Failure("no child to select")
    case Some(t) =>
      IteratedOk([NewNode(root, None)], n, choose, playout);
      BestChildIsChild(t, 0, finalChoice);
      match BestChild(t, 0, finalChoice)
      case None => Failure("the root has no child")
      case Some(c) => Success(t[c].state.lastMove)
  }

  // ---------------------------------------------------------------------
  // Lemmas

  /** A child the oracle picks comes after its parent and names it as parent. */
  lemma BestChildIsChild(nodes: seq<Node>, i: nat, choose: Policy)
    requires TreeOk(nodes) && i < |nodes| && PicksChild(choose)
    ensures var c := BestChild(nodes, i, choose);
      c.Some? ==> i < c.value < |nodes| && nodes[c.value].parent == Some(i)
  {
    var n := nodes[i];
    if n.children != [] {
      var k := choose(nodes, i);
      assert NodeOk(nodes, i);
      var ms := ValidMoves(n.state.board, n.state.player);
      assert ChildOk(nodes, i, n.children[k], ms[|ms| - 1 - k]);
    }
  }

  /** The k-th child of node i records one of the legal moves of i as its last move. */
  lemma ChildMove(nodes: seq<Node>, i: nat, k: nat)
    requires TreeOk(nodes) && i < |nodes| && k < |nodes[i].children|
    ensures var s := nodes[i].state;
      var c := nodes[i].children[k];
      && c < |nodes|
      && var t := nodes[c].state;
      && t.lastMove.Some? && t.lastMove.value in ValidMoves(s.board, s.player)
  {
    var n := nodes[i];
    assert NodeOk(nodes, i);
    var ms := ValidMoves(n.state.board, n.state.player);
    var m := ms[|ms| - 1 - k];
    assert ChildOk(nodes, i, n.children[k], m);
    assert m in ms;
  }

  /** A node is fully expanded exactly when it has a child for every legal move. */
  lemma FullyExpandedIffAllChildren(nodes: seq<Node>, i: nat)
    requires TreeOk(nodes) && i < |nodes|
    ensures var s := nodes[i].state;
      IsFullyExpanded(nodes[i]) <==> |nodes[i].children| == |ValidMoves(s.board, s.player)|
  {
    assert NodeOk(nodes, i);
  }

  /** A new tree: the root alone. */
  lemma SingleNodeOk(s: GameState)
    requires ValidState(s)
    ensures TreeOk([NewNode(s, None)])
  {
    var nodes := [NewNode(s, None)];
    assert nodes[0].untried == ValidMoves(s.board, s.player);
    assert NodeOk(nodes, 0);
  }

  /** Changing only visit counts and win totals keeps the invariant. */
  lemma ReshapedOk(a: seq<Node>, b: seq<Node>)
    requires TreeOk(a) && Reshaped(a, b)
    ensures TreeOk(b)
  {
    forall i | 0 <= i < |b|
      ensures NodeOk(b, i)
    {
      assert NodeOk(a, i) && SameShape(a[i], b[i]);
      var n := b[i];
      var ms := ValidMoves(n.state.board, n.state.player);
      forall k | 0 <= k < |n.children|
        ensures ChildOk(b, i, n.children[k], ms[|ms| - 1 - k])
      {
        assert ChildOk(a, i, n.children[k], ms[|ms| - 1 - k]);
        assert SameShape(a[n.children[k]], b[n.children[k]]);
      }
    }
  }

  /** The untried moves of a node are legal moves of its state, the last one included. */
  lemma UntriedLegal(nodes: seq<Node>, i: nat)
    requires TreeOk(nodes) && i < |nodes|
    ensures NodeOk(nodes, i) && InRange(nodes[i].untried)
    ensures var n := nodes[i];
      n.untried != [] ==> ValidMove(n.state.board, n.state.player, n.untried[|n.untried| - 1])
  {
    assert NodeOk(nodes, i);
    var n := nodes[i];
    var ms := ValidMoves(n.state.board, n.state.player);
    ValidMovesInRange(n.state.board, n.state.player);
    assert forall j :: 0 <= j < |n.untried| ==> n.untried[j] == ms[j];
    if n.untried != [] {
      assert n.untried[|n.untried| - 1] == ms[|n.untried| - 1];
      ValidMovesExact(n.state.board, n.state.player);
    }
  }

  /** Expansion keeps the invariant. */
  lemma ExpandedOk(nodes: seq<Node>, i: nat)
    requires TreeOk(nodes) && i < |nodes|
    ensures NodeOk(nodes, i) && InRange(nodes[i].untried)
    ensures TreeOk(Expanded(nodes, i))
  {
    UntriedLegal(nodes, i);
    var n := nodes[i];
    if n.untried != [] {
      var m := n.untried[|n.untried| - 1];
      var t := Child(n.state, m);
      ChildOfLegal(n.state, m);
      var x := n.(untried := n.untried[..|n.untried| - 1], children := n.children + [|nodes|]);
      var c := NewNode(t, Some(i));
      assert Expanded(nodes, i) == nodes[i := x] + [c];
      AppendedOk(nodes, i, m, x, c);
    }
  }

  /**
   * Expanding a node with an untried move: the new node comes last, is a child
   * of i with no visits and records the move, which was the last untried one
   * and is a legal move of i; i has one child more and one untried move fewer.
   */
  lemma ExpandedShape(nodes: seq<Node>, i: nat)
    requires TreeOk(nodes) && i < |nodes| && nodes[i].untried != []
    ensures NodeOk(nodes, i) && InRange(nodes[i].untried)
    ensures var e := Expanded(nodes, i);
      var n := nodes[i];
      var m := n.untried[|n.untried| - 1];
      && |e| == |nodes| + 1
      && e[i].children == n.children + [|nodes|] && e[i].untried == n.untried[..|n.untried| - 1]
      && e[|nodes|].parent == Some(i) && e[|nodes|].children == [] && e[|nodes|].visits == 0
      && m in ValidMoves(n.state.board, n.state.player)
      && e[|nodes|].state.lastMove == Some(m)
      && forall j :: 0 <= j < |nodes| && j != i ==> e[j] == nodes[j]
  {
    UntriedLegal(nodes, i);
    var n := nodes[i];
    var m := n.untried[|n.untried| - 1];
    ValidMovesExact(n.state.board, n.state.player);
    ChildOfLegal(n.state, m);
  }

  /** Appending the child c of node i for its last untried move m, and updating i to x, keeps the invariant. */
  lemma AppendedOk(nodes: seq<Node>, i: nat, m: int, x: Node, c: Node)
    requires TreeOk(nodes) && i < |nodes| && NodeOk(nodes, i)
    requires var n := nodes[i]; n.untried != [] && m == n.untried[|n.untried| - 1]
    requires x == nodes[i].(untried := nodes[i].untried[..|nodes[i].untried| - 1], children := nodes[i].children + [|nodes|])
    requires ValidState(c.state) && c.state.turnsPassed == 0 && c.state.lastMove == Some(m)
    requires c.parent == Some(i) && c.children == [] && c.untried == ValidMoves(c.state.board, c.state.player)
    ensures TreeOk(nodes[i := x] + [c])
  {
    var e := nodes[i := x] + [c];
    var L := |nodes|;
    assert |e| == L + 1;
    assert ParentsBelow(e);
    assert StatesValid(e);
    forall j | 0 <= j < |e|
      ensures NodeOk(e, j)
    {
      if j == L {
        assert e[L] == c;
      } else if j == i {
        ExpandedNodeOk(nodes, i, m, x, c);
      } else {
        KeptNodeOk(nodes, i, x, c, j);
      }
    }
  }

  /** After the append, the expanded node i lists the new node as the child for m. */
  lemma ExpandedNodeOk(nodes: seq<Node>, i: nat, m: int, x: Node, c: Node)
    requires i < |nodes| && NodeOk(nodes, i)
    requires var n := nodes[i]; n.untried != [] && m == n.untried[|n.untried| - 1]
    requires x == nodes[i].(untried := nodes[i].untried[..|nodes[i].untried| - 1], children := nodes[i].children + [|nodes|])
    requires c.state.lastMove == Some(m) && c.parent == Some(i)
    ensures NodeOk(nodes[i := x] + [c], i)
  {
    var e := nodes[i := x] + [c];
    var n := nodes[i];
    var L := |nodes|;
    var ms := ValidMoves(n.state.board, n.state.player);
    assert e[i] == x;
    assert |x.untried| + |x.children| == |ms|;
    assert x.untried == ms[..|x.untried|];
    forall k | 0 <= k < |x.children|
      ensures ChildOk(e, i, x.children[k], ms[|ms| - 1 - k])
    {
      if k < |n.children| {
        assert ChildOk(nodes, i, n.children[k], ms[|ms| - 1 - k]);
      } else {
        assert x.children[k] == L;
        assert ms[|ms| - 1 - k] == m;
      }
    }
  }

  /** After the append, a node other than i keeps its children, which keep their states and parents. */
  lemma KeptNodeOk(nodes: seq<Node>, i: nat, x: Node, c: Node, j: nat)
    requires i < |nodes| && j < |nodes| && j != i && NodeOk(nodes, j)
    requires x.state == nodes[i].state && x.parent == nodes[i].parent
    ensures NodeOk(nodes[i := x] + [c], j)
  {
    var e := nodes[i := x] + [c];
    var y := e[j];
    assert y == nodes[j];
    var mj := ValidMoves(y.state.board, y.state.player);
    forall k | 0 <= k < |y.children|
      ensures ChildOk(e, j, y.children[k], mj[|mj| - 1 - k])
    {
      var d := y.children[k];
      assert ChildOk(nodes, j, d, mj[|mj| - 1 - k]);
      assert e[d].state == nodes[d].state && e[d].parent == nodes[d].parent;
    }
  }

  /** Backpropagation changes only visit counts and win totals. */
  lemma {:induction false} PropagatedReshaped(nodes: seq<Node>, i: nat, result: int)
    requires ParentsBelow(nodes) && i < |nodes|
    ensures Reshaped(nodes, Propagated(nodes, i, result))
    decreases i
  {
    var next := Bumped(nodes, i, result);
    assert Reshaped(nodes, next);
    if nodes[i].parent.Some? {
      PropagatedReshaped(next, nodes[i].parent.value, -result);
    }
  }

  /** Entry k of the path from i is a node at or below i. */
  lemma {:induction false} PathAt(nodes: seq<Node>, i: nat, k: nat)
    requires ParentsBelow(nodes) && i < |nodes| && k < |Path(nodes, i)|
    ensures Path(nodes, i)[k] <= i
    decreases i
  {
    if k > 0 {
      var q := nodes[i].parent.value;
      PathAt(nodes, q, k - 1);
    }
  }

  /** A node above i is not on the path from i. */
  lemma NotOnPath(nodes: seq<Node>, i: nat, x: nat)
    requires ParentsBelow(nodes) && i < |nodes| && i < x
    ensures x !in Path(nodes, i)
  {
    var p := Path(nodes, i);
    forall k | 0 <= k < |p|
      ensures p[k] != x
    {
      PathAt(nodes, i, k);
    }
  }

  /** The path from any node ends at the root. */
  lemma {:induction false} PathReachesRoot(nodes: seq<Node>, i: nat)
    requires ParentsBelow(nodes) && i < |nodes|
    ensures 0 in Path(nodes, i)
    decreases i
  {
    if nodes[i].parent.Some? {
      PathReachesRoot(nodes, nodes[i].parent.value);
    }
  }

  /** Arenas with the same parents have the same paths. */
  lemma {:induction false} PathSameParents(a: seq<Node>, b: seq<Node>, i: nat)
    requires ParentsBelow(a) && SameParents(a, b) && i < |a|
    ensures ParentsBelow(b) && Path(b, i) == Path(a, i)
    decreases i
  {
    assert ParentsBelow(b);
    if a[i].parent.Some? {
      PathSameParents(a, b, a[i].parent.value);
    }
  }

  /** One step of backpropagation from a node with a parent: what changes, and where the rest of it goes on. */
  lemma PropagatedStep(nodes: seq<Node>, i: nat, result: int)
    requires ParentsBelow(nodes) && i < |nodes| && nodes[i].parent.Some?
    ensures var next := Bumped(nodes, i, result);
      var q := nodes[i].parent.value;
      && q < i && ParentsBelow(next)
      && Path(nodes, i) == [i] + Path(next, q)
      && Propagated(nodes, i, result) == Propagated(next, q, -result)
      && i !in Path(next, q)
  {
    var next := Bumped(nodes, i, result);
    var q := nodes[i].parent.value;
    PathSameParents(nodes, next, q);
    NotOnPath(nodes, q, i);
  }

  /** Backpropagation from i adds one visit to node j exactly when j is on the path from i to the root. */
  lemma {:induction false} VisitsAt(nodes: seq<Node>, i: nat, result: int, j: nat)
    requires ParentsBelow(nodes) && i < |nodes| && j < |nodes|
    ensures Propagated(nodes, i, result)[j].visits == nodes[j].visits + (if j in Path(nodes, i) then 1 else 0)
    decreases i
  {
    if nodes[i].parent.Some? {
      PropagatedStep(nodes, i, result);
      VisitsAt(Bumped(nodes, i, result), nodes[i].parent.value, -result, j);
    } else {
      assert Path(nodes, i) == [i];
    }
  }

  /** Backpropagation from i leaves the wins of every node off the path alone. */
  lemma {:induction false} WinsOff(nodes: seq<Node>, i: nat, result: int, j: nat)
    requires ParentsBelow(nodes) && i < |nodes| && j < |nodes| && j !in Path(nodes, i)
    ensures Propagated(nodes, i, result)[j].wins == nodes[j].wins
    decreases i
  {
    assert Path(nodes, i)[0] == i;
    if nodes[i].parent.Some? {
      PropagatedStep(nodes, i, result);
      WinsOff(Bumped(nodes, i, result), nodes[i].parent.value, -result, j);
    }
  }

  /** The value gained k steps up from a node that gains r, the sign flipping at every step. */
  function Alternating(r: int, k: nat): int
    decreases k
  {
    if k == 0 then r else Alternating(-r, k - 1)
  }

  lemma {:induction false} AlternatingParity(r: int, k: nat)
    ensures Alternating(r, k) == if k % 2 == 0 then r else -r
    decreases k
  {
    if k > 0 {
      AlternatingParity(-r, k - 1);
    }
  }

  /** Backpropagation from i adds result to the wins of the node k steps up, with the sign flipped at every step. */
  lemma {:induction false} WinsAt(nodes: seq<Node>, i: nat, result: int, k: nat)
    requires ParentsBelow(nodes) && i < |nodes| && k < |Path(nodes, i)|
    ensures var j := Path(nodes, i)[k];
      j < |nodes| && Propagated(nodes, i, result)[j].wins == nodes[j].wins + Alternating(result, k)
    decreases i
  {
    if k == 0 {
      assert Path(nodes, i)[0] == i;
      WinsAtStart(nodes, i, result);
    } else {
      PropagatedStep(nodes, i, result);
      WinsAt(Bumped(nodes, i, result), nodes[i].parent.value, -result, k - 1);
      WinsAtAbove(nodes, i, result, k);
    }
  }

  /** The step of WinsAt above i: what the parent's backpropagation adds k - 1 steps above it is what i's adds k steps above i. */
  lemma WinsAtAbove(nodes: seq<Node>, i: nat, result: int, k: nat)
    requires ParentsBelow(nodes) && i < |nodes| && 0 < k < |Path(nodes, i)|
    requires nodes[i].parent.Some? && nodes[i].parent.value < i
    requires var next := Bumped(nodes, i, result);
      var q := nodes[i].parent.value;
      ParentsBelow(next) && k - 1 < |Path(next, q)| &&
      var j := Path(next, q)[k - 1];
      j < |next| && Propagated(next, q, -result)[j].wins == next[j].wins + Alternating(-result, k - 1)
    ensures var j := Path(nodes, i)[k];
      j < |nodes| && Propagated(nodes, i, result)[j].wins == nodes[j].wins + Alternating(result, k)
  {
    var next := Bumped(nodes, i, result);
    var q := nodes[i].parent.value;
    PropagatedStep(nodes, i, result);
    PathAt(next, q, k - 1);
    var j := Path(next, q)[k - 1];
    assert Path(nodes, i)[k] == j && next[j] == nodes[j];
    assert Propagated(nodes, i, result)[j] == Propagated(next, q, -result)[j];
  }

  /** Backpropagation from i adds result to the wins of i itself. */
  lemma WinsAtStart(nodes: seq<Node>, i: nat, result: int)
    requires ParentsBelow(nodes) && i < |nodes|
    ensures Propagated(nodes, i, result)[i].wins == nodes[i].wins + result
  {
    var next := Bumped(nodes, i, result);
    if nodes[i].parent.Some? {
      PropagatedStep(nodes, i, result);
      WinsOff(next, nodes[i].parent.value, -result, i);
    }
  }

  /**
   * Backpropagation from i adds one visit to every node on the path from i to
   * the root and to no other node; the node k steps up gains result when k is
   * even and -result when k is odd; off the path the wins do not change.
   */
  lemma PropagatedStats(nodes: seq<Node>, i: nat, result: int)
    requires ParentsBelow(nodes) && i < |nodes|
    ensures var t := Propagated(nodes, i, result);
      var p := Path(nodes, i);
      && (forall j :: 0 <= j < |nodes| ==> t[j].visits == nodes[j].visits + (if j in p then 1 else 0))
      && (forall j :: 0 <= j < |nodes| && j !in p ==> t[j].wins == nodes[j].wins)
      && (forall k :: 0 <= k < |p| ==>
            p[k] < |nodes| && t[p[k]].wins == nodes[p[k]].wins + (if k % 2 == 0 then result else -result))
  {
    var t := Propagated(nodes, i, result);
    var p := Path(nodes, i);
    forall j | 0 <= j < |nodes| {
      VisitsAt(nodes, i, result, j);
    }
    forall j | 0 <= j < |nodes| && j !in p {
      WinsOff(nodes, i, result, j);
    }
    forall k | 0 <= k < |p|
      ensures p[k] < |nodes| && t[p[k]].wins == nodes[p[k]].wins + (if k % 2 == 0 then result else -result)
    {
      WinsAt(nodes, i, result, k);
      AlternatingParity(result, k);
    }
  }

  /** The root is on every path, so each backpropagation adds exactly one visit to it. */
  lemma RootVisited(nodes: seq<Node>, i: nat, result: int)
    requires ParentsBelow(nodes) && i < |nodes|
    ensures Propagated(nodes, i, result)[0].visits == nodes[0].visits + 1
  {
    PathReachesRoot(nodes, i);
    VisitsAt(nodes, i, result, 0);
  }

  /**
   * Backpropagation keeps the invariant and the root's state and children,
   * adds one visit to the root and, with a result in [-1, 1], keeps the win
   * totals within the visit counts.
   */
  lemma PropagatedOk(nodes: seq<Node>, i: nat, result: int)
    requires TreeOk(nodes) && i < |nodes|
    ensures var t := Propagated(nodes, i, result);
      && TreeOk(t) && t[0].state == nodes[0].state && t[0].children == nodes[0].children
      && t[0].visits == nodes[0].visits + 1
    ensures WinsBounded(nodes) && -1 <= result <= 1 ==> WinsBounded(Propagated(nodes, i, result))
  {
    var t := Propagated(nodes, i, result);
    PropagatedReshaped(nodes, i, result);
    ReshapedOk(nodes, t);
    assert SameShape(nodes[0], t[0]);
    RootVisited(nodes, i, result);
    if WinsBounded(nodes) && -1 <= result <= 1 {
      PropagatedWinsBounded(nodes, i, result);
    }
  }

  /** With results in [-1, 1], win totals stay within the visit counts. */
  lemma {:induction false} PropagatedWinsBounded(nodes: seq<Node>, i: nat, result: int)
    requires ParentsBelow(nodes) && i < |nodes| && WinsBounded(nodes) && -1 <= result <= 1
    ensures WinsBounded(Propagated(nodes, i, result))
    decreases i
  {
    var next := Bumped(nodes, i, result);
    assert WinsBounded(next);
    if nodes[i].parent.Some? {
      PropagatedWinsBounded(next, nodes[i].parent.value, -result);
    }
  }

  // ---------------------------------------------------------------------
  // The children of the root

  /** The children of node i come after it, inside the arena, and name it as parent. */
  lemma ChildrenBelow(nodes: seq<Node>, i: nat)
    requires TreeOk(nodes) && i < |nodes|
    ensures forall k :: 0 <= k < |nodes[i].children| ==>
      i < nodes[i].children[k] < |nodes| && nodes[nodes[i].children[k]].parent == Some(i)
  {
    var n := nodes[i];
    assert NodeOk(nodes, i);
    var ms := ValidMoves(n.state.board, n.state.player);
    forall k | 0 <= k < |n.children|
      ensures i < n.children[k] < |nodes| && nodes[n.children[k]].parent == Some(i)
    {
      assert ChildOk(nodes, i, n.children[k], ms[|ms| - 1 - k]);
    }
  }

  /** No node is listed twice among the children of node i: each was made for a different move. */
  lemma ChildrenDistinct(nodes: seq<Node>, i: nat)
    requires TreeOk(nodes) && i < |nodes|
    ensures forall j, k :: 0 <= j < k < |nodes[i].children| ==> nodes[i].children[j] != nodes[i].children[k]
  {
    var n := nodes[i];
    assert NodeOk(nodes, i);
    var ms := ValidMoves(n.state.board, n.state.player);
    ValidMovesExact(n.state.board, n.state.player);
    forall j, k | 0 <= j < k < |n.children|
      ensures n.children[j] != n.children[k]
    {
      assert ChildOk(nodes, i, n.children[j], ms[|ms| - 1 - j]);
      assert ChildOk(nodes, i, n.children[k], ms[|ms| - 1 - k]);
    }
  }

  /** Sums over nodes with the same visit counts agree. */
  lemma {:induction false} VisitsOfSame(a: seq<Node>, b: seq<Node>, cs: seq<nat>)
    requires forall k :: 0 <= k < |cs| ==> cs[k] < |a| && cs[k] < |b| && a[cs[k]].visits == b[cs[k]].visits
    ensures VisitsOf(a, cs) == VisitsOf(b, cs)
  {
    if cs != [] {
      VisitsOfSame(a, b, cs[..|cs| - 1]);
    }
  }

  /** When node x alone gains a visit, a sum over distinct nodes gains one exactly when it counts x. */
  lemma {:induction false} VisitsOfBump(a: seq<Node>, b: seq<Node>, cs: seq<nat>, x: nat)
    requires forall j, k :: 0 <= j < k < |cs| ==> cs[j] != cs[k]
    requires forall k :: 0 <= k < |cs| ==>
      cs[k] < |a| && cs[k] < |b| && b[cs[k]].visits == a[cs[k]].visits + (if cs[k] == x then 1 else 0)
    ensures VisitsOf(b, cs) == VisitsOf(a, cs) + (if x in cs then 1 else 0)
  {
    if cs != [] {
      var init := cs[..|cs| - 1];
      VisitsOfBump(a, b, init, x);
      assert cs == init + [cs[|cs| - 1]];
      assert x in cs <==> x in init || x == cs[|cs| - 1];
    }
  }

  /** The path from a node below the root meets exactly one child of the root. */
  lemma {:induction false} RootChildOnPath(nodes: seq<Node>, i: nat) returns (x: nat)
    requires ParentsBelow(nodes) && 0 < i < |nodes|
    ensures 0 < x < |nodes| && x in Path(nodes, i) && nodes[x].parent == Some(0)
    ensures forall c :: 0 <= c < |nodes| && c in Path(nodes, i) && nodes[c].parent == Some(0) ==> c == x
    decreases i
  {
    var q := nodes[i].parent.value;
    assert Path(nodes, i) == [i] + Path(nodes, q);
    if q == 0 {
      assert Path(nodes, q) == [0];
      x := i;
    } else {
      x := RootChildOnPath(nodes, q);
    }
  }

  /** Expansion keeps every node listed under its parent and leaves the visits of the root's children alone. */
  lemma ExpandedChildren(nodes: seq<Node>, i: nat)
    requires TreeOk(nodes) && ChildrenListed(nodes) && i < |nodes| && InRange(nodes[i].untried)
    ensures ChildrenListed(Expanded(nodes, i))
    ensures ChildVisits(Expanded(nodes, i), 0) == ChildVisits(nodes, 0)
  {
    if nodes[i].untried != [] {
      var e := Expanded(nodes, i);
      ExpandedShape(nodes, i);
      assert e[i].parent == nodes[i].parent;
      AppendedListed(nodes, e, i);
      ExpandedChildVisits(nodes, i);
    }
  }

  /** Appending a child of node i, listed last among the children of i, keeps every node listed under its parent. */
  lemma AppendedListed(nodes: seq<Node>, e: seq<Node>, i: nat)
    requires ChildrenListed(nodes) && i < |nodes| && |e| == |nodes| + 1
    requires forall j :: 0 <= j < |nodes| && j != i ==> e[j] == nodes[j]
    requires e[i].parent == nodes[i].parent && e[i].children == nodes[i].children + [|nodes|]
    requires e[|nodes|].parent == Some(i)
    ensures ChildrenListed(e)
  {
    forall p, c | 0 <= p < c < |e| && e[c].parent == Some(p)
      ensures c in e[p].children
    {
      if c < |nodes| {
        assert c in nodes[p].children;
      }
    }
  }

  lemma ExpandedChildVisits(nodes: seq<Node>, i: nat)
    requires TreeOk(nodes) && i < |nodes| && InRange(nodes[i].untried) && nodes[i].untried != []
    ensures ChildVisits(Expanded(nodes, i), 0) == ChildVisits(nodes, 0)
  {
    var e := Expanded(nodes, i);
    var cs := nodes[0].children;
    ChildrenBelow(nodes, 0);
    assert forall c :: 0 <= c < |nodes| ==> e[c].visits == nodes[c].visits;
    VisitsOfSame(e, nodes, cs);
    if i == 0 {
      assert e[0].children == cs + [|nodes|];
      assert (cs + [|nodes|])[..|cs|] == cs;
    }
  }

  /**
   * Backpropagation keeps every node listed under its parent and, from a node
   * below the root, adds exactly one visit to the children of the root.
   */
  lemma PropagatedChildren(nodes: seq<Node>, i: nat, result: int)
    requires TreeOk(nodes) && ChildrenListed(nodes) && i < |nodes|
    ensures ChildrenListed(Propagated(nodes, i, result))
    ensures 0 < i ==> ChildVisits(Propagated(nodes, i, result), 0) == ChildVisits(nodes, 0) + 1
  {
    var t := Propagated(nodes, i, result);
    PropagatedReshaped(nodes, i, result);
    forall p, c | 0 <= p < c < |t| && t[c].parent == Some(p)
      ensures c in t[p].children
    {
      assert SameShape(nodes[c], t[c]) && SameShape(nodes[p], t[p]);
    }
    if 0 < i {
      assert SameShape(nodes[0], t[0]);
      var cs := nodes[0].children;
      var x := RootChildOnPath(nodes, i);
      assert x in cs;
      ChildrenBelow(nodes, 0);
      ChildrenDistinct(nodes, 0);
      forall k | 0 <= k < |cs|
        ensures cs[k] < |nodes| && cs[k] < |t|
        ensures t[cs[k]].visits == nodes[cs[k]].visits + (if cs[k] == x then 1 else 0)
      {
        VisitsAt(nodes, i, result, cs[k]);
      }
      VisitsOfBump(nodes, t, cs, x);
    }
  }

  /**
   * When the root has a legal move, the node an iteration plays out from lies
   * below the root: the root is not over, so either it has an untried move and
   * gains a new child, or selection went down to one of its children.
   */
  lemma PlayoutBelowRoot(before: seq<Node>, j: nat, node: nat)
    requires TreeOk(before) && j < |before|
    requires GameOver(before[j].state) || !IsFullyExpanded(before[j])
    requires node == if GameOver(before[j].state) || IsFullyExpanded(before[j]) then j else |before|
    requires ValidMoves(before[0].state.board, before[0].state.player) != []
    ensures 0 < node
  {
  }

  /**
   * Selection stops at a node whose game is over or that has an untried move;
   * it only leaves node i when that node is fully expanded and not over.
   */
  lemma {:induction false} DescendStops(nodes: seq<Node>, i: nat, choose: Policy)
    requires TreeOk(nodes) && i < |nodes| && PicksChild(choose)
    ensures var r := Descend(nodes, i, choose);
      r.Some? ==> r.value < |nodes| && (GameOver(nodes[r.value].state) || !IsFullyExpanded(nodes[r.value]))
    ensures var r := Descend(nodes, i, choose);
      r.Some? && r.value != i ==> IsFullyExpanded(nodes[i]) && !GameOver(nodes[i].state)
    decreases |nodes| - i
  {
    if !(GameOver(nodes[i].state) || !IsFullyExpanded(nodes[i])) {
      var c := BestChild(nodes, i, choose);
      if c.Some? {
        BestChildIsChild(nodes, i, choose);
        DescendStops(nodes, c.value, choose);
      }
    }
  }

  /**
   * When the root has a legal move, selection always reaches a node: below the
   * root no pass is recorded, so a node that is not over has a legal move and,
   * once fully expanded, a child.
   */
  lemma {:induction false} DescendReaches(nodes: seq<Node>, i: nat, choose: Policy)
    requires TreeOk(nodes) && i < |nodes| && PicksChild(choose)
    requires ValidMoves(nodes[0].state.board, nodes[0].state.player) != []
    ensures Descend(nodes, i, choose).Some?
    decreases |nodes| - i
  {
    var n := nodes[i];
    if !(GameOver(n.state) || !IsFullyExpanded(n)) {
      assert NodeOk(nodes, i);
      if i > 0 {
        GameOverCases(n.state);
      }
      assert n.children != [];
      BestChildIsChild(nodes, i, choose);
      DescendReaches(nodes, BestChild(nodes, i, choose).value, choose);
    }
  }

  // ---------------------------------------------------------------------
  // The tree, updated in place

  class MctsTree {
    var nodes: seq<Node>

    /** A tree of the root node alone, for the game in state root. */
    constructor (root: GameState)
      requires ValidState(root)
      ensures nodes == [NewNode(root, None)] && TreeOk(nodes) && ChildrenListed(nodes)
      ensures nodes[0].visits == 0 && ChildVisits(nodes, 0) == 0
    {
      nodes := [NewNode(root, None)];
      SingleNodeOk(root);
    }

    /** Selection from the root: the node Descend reaches, None where the source would fail. */
    method SelectNode(choose: Policy) returns (r: Option<nat>)
      requires TreeOk(nodes) && PicksChild(choose)
      ensures r == Descend(nodes, 0, choose)
      ensures r.Some? ==> r.value < |nodes| && (GameOver(nodes[r.value].state) || !IsFullyExpanded(nodes[r.value]))
      ensures r.Some? && r.value != 0 ==> IsFullyExpanded(nodes[0]) && !GameOver(nodes[0].state)
      ensures var s := nodes[0].state; ValidMoves(s.board, s.player) != [] ==> r.Some?
    {
      var node := 0;
      while !GameOver(nodes[node].state) && IsFullyExpanded(nodes[node])
        invariant node < |nodes| && Descend(nodes, node, choose) == Descend(nodes, 0, choose)
        invariant node != 0 ==> IsFullyExpanded(nodes[0]) && !GameOver(nodes[0].state)
        decreases |nodes| - node
      {
        var c := BestChild(nodes, node, choose);
        if c.None? {
          var s := nodes[0].state;
          if ValidMoves(s.board, s.player) != [] {
            DescendReaches(nodes, 0, choose);
          }
          return None;
        }
        BestChildIsChild(nodes, node, choose);
        node := c.value;
      }
      return Some(node);
    }

    /** Expansion of node i; the node returned is the new child, or i when every move was tried. */
    method Expand(i: nat) returns (j: nat)
      requires TreeOk(nodes) && i < |nodes|
      modifies this
      ensures NodeOk(old(nodes), i) && InRange(old(nodes)[i].untried)
      ensures nodes == Expanded(old(nodes), i) && TreeOk(nodes)
      ensures j == if old(nodes)[i].untried == [] then i else |old(nodes)|
    {
      UntriedLegal(nodes, i);
      var n := nodes[i];
      if n.untried == [] {
        return i;
      }
      ExpandedOk(nodes, i);
      var move := n.untried[|n.untried| - 1];
      var child := NewNode(Child(n.state, move), Some(i));
      j := |nodes|;
      nodes := nodes[i := n.(untried := n.untried[..|n.untried| - 1], children := n.children + [j])] + [child];
    }

    /** Backpropagation of result from node i up to the root, the sign flipping at each step. */
    method Backpropagate(i: nat, result: int)
      requires ParentsBelow(nodes) && i < |nodes|
      modifies this
      ensures nodes == Propagated(old(nodes), i, result)
      decreases i
    {
      var n := nodes[i];
      nodes := nodes[i := n.(visits := n.visits + 1, wins := n.wins + result)];
      assert SameParents(old(nodes), nodes);
      if n.parent.Some? {
        Backpropagate(n.parent.value, -result);
      }
    }

    /**
     * The first half of an iteration: select a node and expand it unless its
     * game is over. None when selection runs into a fully expanded node without
     * children, where the source fails; the tree is then unchanged. Otherwise
     * the node to play out from, which lies below the root when the root has a
     * legal move.
     */
    method SelectAndExpand(choose: Policy) returns (r: Option<nat>)
      requires TreeOk(nodes) && ChildrenListed(nodes) && PicksChild(choose)
      modifies this
      ensures r.None? ==> nodes == old(nodes) && Selected(old(nodes), choose).None?
      ensures r.Some? ==> Selected(old(nodes), choose) == Some((nodes, r.value))
      ensures TreeOk(nodes) && ChildrenListed(nodes) && nodes[0].state == old(nodes[0].state)
      ensures nodes[0].visits == old(nodes[0].visits) && ChildVisits(nodes, 0) == old(ChildVisits(nodes, 0))
      ensures WinsBounded(old(nodes)) ==> WinsBounded(nodes)
      ensures r.Some? ==> r.value < |nodes|
      ensures var s := nodes[0].state;
        ValidMoves(s.board, s.player) != [] ==> r.Some? && 0 < r.value && nodes[0].children != []
    {
      ghost var root := nodes[0].state;
      ghost var rootMoves := ValidMoves(root.board, root.player) != [];
      var selected := SelectNode(choose);
      if selected.None? {
        return None;
      }
      var node := selected.value;
      ghost var before := nodes;
      if !GameOver(nodes[node].state) {
        node := Expand(node);
      }
      ExpansionStep(before, nodes, selected.value, node, rootMoves);
      return Some(node);
    }

    /**
     * Iteration it of the search: select a node, expand it unless its game is
     * over, play out from the node reached and backpropagate the result. ok is
     * false when selection runs into a fully expanded node without children,
     * where the source fails; the tree is then unchanged.
     */
    method Iteration(it: nat, choose: Policy, playout: Playout) returns (ok: bool)
      requires TreeOk(nodes) && ChildrenListed(nodes) && PicksChild(choose) && IsOutcome(playout)
      modifies this
      ensures TreeOk(nodes) && ChildrenListed(nodes) && nodes[0].state == old(nodes[0].state)
      ensures ok ==> Stepped(old(nodes), it, choose, playout) == Some(nodes)
      ensures !ok ==> nodes == old(nodes) && Stepped(old(nodes), it, choose, playout).None?
      ensures ok ==> nodes[0].visits == old(nodes[0].visits) + 1
      ensures WinsBounded(old(nodes)) ==> WinsBounded(nodes)
      ensures var s := nodes[0].state; ValidMoves(s.board, s.player) != [] ==> ok && nodes[0].children != []
      ensures var s := nodes[0].state;
        ValidMoves(s.board, s.player) != [] ==> ChildVisits(nodes, 0) == old(ChildVisits(nodes, 0)) + 1
    {
      var selected := SelectAndExpand(choose);
      if selected.None? {
        return false;
      }
      var node := selected.value;
      var result := playout(it, nodes[node].state);
      ghost var expanded := nodes;
      Backpropagate(node, result);
      PropagatedOk(expanded, node, result);
      PropagatedChildren(expanded, node, result);
      return true;
    }

    /** The iterations of the search, stopping early where the source fails. */
    method Iterate(iterations: nat, choose: Policy, playout: Playout) returns (ok: bool)
      requires TreeOk(nodes) && ChildrenListed(nodes) && PicksChild(choose) && IsOutcome(playout)
      modifies this
      ensures TreeOk(nodes) && ChildrenListed(nodes) && nodes[0].state == old(nodes[0].state)
      ensures ok ==> Iterated(old(nodes), iterations, choose, playout) == Some(nodes)
      ensures !ok ==> Iterated(old(nodes), iterations, choose, playout).None?
      ensures iterations == 0 ==> nodes == old(nodes)
      ensures ok ==> nodes[0].visits == old(nodes[0].visits) + iterations
      ensures WinsBounded(old(nodes)) ==> WinsBounded(nodes)
      ensures var s := nodes[0].state; ValidMoves(s.board, s.player) != [] ==> ok
      ensures var s := nodes[0].state;
        iterations > 0 && ValidMoves(s.board, s.player) != [] ==> nodes[0].children != []
      ensures var s := nodes[0].state;
        ValidMoves(s.board, s.player) != [] ==> ChildVisits(nodes, 0) == old(ChildVisits(nodes, 0)) + iterations
    {
      ghost var root := nodes[0].state;
      ghost var rootMoves := ValidMoves(root.board, root.player) != [];
      for it := 0 to iterations
        invariant TreeOk(nodes) && ChildrenListed(nodes) && nodes[0].state == root
        invariant Iterated(old(nodes), it, choose, playout) == Some(nodes)
        invariant nodes[0].visits == old(nodes[0].visits) + it
        invariant WinsBounded(old(nodes)) ==> WinsBounded(nodes)
        invariant it > 0 && rootMoves ==> nodes[0].children != []
        invariant rootMoves ==> ChildVisits(nodes, 0) == old(ChildVisits(nodes, 0)) + it
      {
        ghost var before := nodes;
        var stepped := Iteration(it, choose, playout);
        IteratedAdvance(old(nodes), it, iterations, before, if stepped then Some(nodes) else None, choose, playout);
        if !stepped {
          return false;
        }
      }
      return true;
    }
  }

  /**
   * One selection and expansion keeps the invariant, every node listed under
   * its parent and the visits of the root's children; when the root has a
   * move, the root gains a child and the node played out from lies below it.
   */
  lemma ExpansionStep(before: seq<Node>, after: seq<Node>, j: nat, node: nat, rootMoves: bool)
    requires TreeOk(before) && ChildrenListed(before) && j < |before|
    requires GameOver(before[j].state) || !IsFullyExpanded(before[j])
    requires j != 0 ==> IsFullyExpanded(before[0])
    requires rootMoves == (ValidMoves(before[0].state.board, before[0].state.player) != [])
    requires NodeOk(before, j) && InRange(before[j].untried)
    requires after == (if GameOver(before[j].state) then before else Expanded(before, j))
    requires node == if GameOver(before[j].state) || IsFullyExpanded(before[j]) then j else |before|
    ensures ChildrenListed(after) && ChildVisits(after, 0) == ChildVisits(before, 0)
    ensures |after| >= |before| && after[0].state == before[0].state && after[0].visits == before[0].visits
    ensures WinsBounded(before) ==> WinsBounded(after)
    ensures rootMoves ==> after[0].children != [] && 0 < node
  {
    if !GameOver(before[j].state) {
      ExpandedChildren(before, j);
    }
    RootKeepsChildren(before, after, j, rootMoves);
    if rootMoves {
      PlayoutBelowRoot(before, j, node);
    }
  }

  /** A step keeps the tree invariant. */
  lemma SteppedOk(nodes: seq<Node>, it: nat, choose: Policy, playout: Playout)
    requires TreeOk(nodes) && PicksChild(choose)
    ensures var r := Stepped(nodes, it, choose, playout); r.Some? ==> TreeOk(r.value)
  {
    var s := Selected(nodes, choose);
    if s.Some? {
      var j := Descend(nodes, 0, choose).value;
      DescendStops(nodes, 0, choose);
      ExpandedOk(nodes, j);
      var (e, k) := s.value;
      PropagatedOk(e, k, playout(it, e[k].state));
    }
  }

  /** Every tree the iterations reach keeps the invariant. */
  lemma IteratedOk(nodes: seq<Node>, n: nat, choose: Policy, playout: Playout)
    requires TreeOk(nodes) && PicksChild(choose)
    ensures var r := Iterated(nodes, n, choose, playout); r.Some? ==> TreeOk(r.value)
  {
    IteratedOkFrom(nodes, 0, n, choose, playout);
  }

  /** If the tree after k iterations keeps the invariant, so does the tree after n >= k. */
  lemma {:induction false} IteratedOkFrom(nodes: seq<Node>, k: nat, n: nat, choose: Policy, playout: Playout)
    requires PicksChild(choose) && k <= n
    requires var r := Iterated(nodes, k, choose, playout); r.Some? ==> TreeOk(r.value)
    ensures var r := Iterated(nodes, n, choose, playout); r.Some? ==> TreeOk(r.value)
    decreases n - k
  {
    if k < n {
      IteratedNext(nodes, k, choose, playout);
      var t := Iterated(nodes, k, choose, playout);
      if t.Some? {
        SteppedOk(t.value, k, choose, playout);
      }
      IteratedOkFrom(nodes, k + 1, n, choose, playout);
    }
  }

  /**
   * The iterations numbered 0 .. n: after the first n reach t, iteration n
   * either gives the tree after n + 1, or fails, and then every run of m > n
   * iterations fails.
   */
  lemma IteratedAdvance(nodes: seq<Node>, n: nat, m: nat, t: seq<Node>, next: Option<seq<Node>>,
                        choose: Policy, playout: Playout)
    requires PicksChild(choose) && n < m && TreeOk(t)
    requires Iterated(nodes, n, choose, playout) == Some(t) && next == Stepped(t, n, choose, playout)
    ensures next.Some? ==> Iterated(nodes, n + 1, choose, playout) == next
    ensures next.None? ==> Iterated(nodes, m, choose, playout).None?
  {
    IteratedNext(nodes, n, choose, playout);
    if next.None? {
      IteratedFails(nodes, n + 1, m, choose, playout);
    }
  }

  /** Once an iteration has failed, every longer run fails too. */
  lemma {:induction false} IteratedFails(nodes: seq<Node>, n: nat, m: nat, choose: Policy, playout: Playout)
    requires PicksChild(choose) && n <= m
    requires Iterated(nodes, n, choose, playout).None?
    ensures Iterated(nodes, m, choose, playout).None?
    decreases m - n
  {
    if n < m {
      IteratedNext(nodes, n, choose, playout);
      IteratedFails(nodes, n + 1, m, choose, playout);
    }
  }

  /** The iterations numbered 0 .. n, unfolded once. */
  lemma IteratedNext(nodes: seq<Node>, n: nat, choose: Policy, playout: Playout)
    requires PicksChild(choose)
    ensures Iterated(nodes, n + 1, choose, playout) ==
      match Iterated(nodes, n, choose, playout)
      case None => None
      case Some(t) => if TreeOk(t) then Stepped(t, n, choose, playout) else None
  {
  }

  /** One selection and expansion leaves the root state alone and, when the root has a move, gives it a child. */
  lemma RootKeepsChildren(before: seq<Node>, after: seq<Node>, j: nat, rootMoves: bool)
    requires TreeOk(before) && j < |before|
    requires GameOver(before[j].state) || !IsFullyExpanded(before[j])
    requires j != 0 ==> IsFullyExpanded(before[0])
    requires rootMoves == (ValidMoves(before[0].state.board, before[0].state.player) != [])
    requires NodeOk(before, j) && InRange(before[j].untried)
    requires after == (if GameOver(before[j].state) then before else Expanded(before, j))
    ensures |after| >= |before| && after[0].state == before[0].state
    ensures WinsBounded(before) ==> WinsBounded(after)
    ensures rootMoves ==> after[0].children != []
  {
    assert NodeOk(before, 0);
  }

  // ---------------------------------------------------------------------
  // The search

  class MonteCarloSearch {
    const iterationLimit: nat

    constructor (iterationLimit: nat)
      ensures this.iterationLimit == iterationLimit
    {
      this.iterationLimit := iterationLimit;
    }

    /**
     * The move for the player to move in root: grow a tree from root for the
     * given number of iterations, then take the move of the child the final
     * oracle picks. Failure stands for the cases where the source fails: a
     * fully expanded node without children during selection, or a root
     * without children at the end.
     */
    method Search(root: OthelloGame, choose: Policy, finalChoice: Policy, playout: Playout)
      returns (r: Result<Option<int>, string>)
      requires root.Valid() && PicksChild(choose) && PicksChild(finalChoice) && IsOutcome(playout)
      ensures var s := root.State();
        r.Success? ==> r.value.Some? && r.value.value in ValidMoves(s.board, s.player)
      ensures var s := root.State();
        iterationLimit > 0 && ValidMoves(s.board, s.player) != [] ==> r.Success?
      ensures iterationLimit == 0 ==> r.Failure?
      ensures r == SearchOutcome(root.State(), iterationLimit, choose, finalChoice, playout)
    {
      var tree := new MctsTree(root.State());
      var ok := tree.Iterate(iterationLimit, choose, playout);
      if !ok {
        return Failure("no child to select");
      }
      var best := BestChild(tree.nodes, 0, finalChoice);
      if best.None? {
        return Failure("the root has no child");
      }
      var k := finalChoice(tree.nodes, 0);
      ChildMove(tree.nodes, 0, k);
      return Success(tree.nodes[best.value].state.lastMove);
    }
  }
}
