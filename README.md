# Othello: rules engine, NegaScout and Monte Carlo tree search

This project models a small Python Othello program. The program is in
`main.py` (rules engine with an MCTS player) and `main1.py` (the same rules
engine with a NegaScout player). The model covers three parts.

- **The rules engine**:
  - the board is 64 cells in row-major order, holding 1 for black, -1 for white and 0 for empty;
  - the state also holds the player to move, the last move and the number of consecutive passes.
  - `rules.dfy` (module `Rules`) states the rules as functions of a `GameState` value:
    - the capture walk along a ray;
    - move legality and the ascending list of legal moves;
    - the discs a move flips;
    - playing a move, passing and cloning;
    - the end-of-game test exactly as written;
    - counting discs and the winner.
  - `othello.dfy` (module `Othello`) is the game object. It has a board array written in place, and loops for the walks and scans. Every method is proved to compute the function of `Rules` that specifies it.
  - `rule_lemmas.dfy` (module `RuleLemmas`) proves the properties of the rules.
- **NegaScout** (`negascout.dfy`, module `NegascoutSearch`) is a depth-bounded principal variation search with a fail-soft null window and a re-search. It is proved against `Negamax`, the unpruned search over the same tree, with two results:
  - for any window (alpha, beta), the score is a fail-soft bound of the Negamax value;
  - with the whole window, the score is the Negamax value, and the recorded move is the first legal move of highest value.
- **Monte Carlo tree search bookkeeping** (`mcts.dfy`, module `Mcts`). The tree is an arena: nodes addressed by index, with the root at 0. Each node stores the index of its parent and the indices of its children.
  - Proved in full: expansion, backpropagation, selection, the iteration loop and the choice of the final move.
  - Each of these methods is proved to produce the value its specification function gives: `Descend` for selection, `Expanded` for expansion, `Propagated` for backpropagation, `Selected` for selection followed by expansion, `Stepped` for one iteration, `Iterated` for the loop of iterations and `SearchOutcome` for the whole search.
  - The UCB1 choice of a child is an oracle `Policy` that returns some child.
  - The random playout is an oracle `Playout` whose results lie in [-1, 1]. It takes the iteration number as well as the state: the iteration number stands for the position in the shared random stream, so two equal states may play out differently.

`wrappers.dfy` holds `Option` and `Result`.

Some behaviour is modelled exactly as the code has it:
- the end-of-game test answers false on a non-full board once two passes are recorded (main.py:225);
- a clone keeps only the board and the player to move;
- NegaScout's branch for "no legal move" searches the same state one level down with the colour negated, without passing.

A cloned state has no pass recorded. For such a state the end-of-game test (main1.py:24) answers true whenever the player has no legal move, so the no-move branch is never reached for it. That branch is reached only at a state that records two or more passes on a non-full board.

## Model

| member | source | states |
|---|---|---|
| Othello.OthelloGame.constructor | main.py:113-124 | a new game is the opening position: white on 27 and 36, black on 28 and 35, the rest empty; black to move, no last move, no pass |
| RuleLemmas.OpeningMovesLegal | main.py:134-165 | in the opening position black may play on cells 19, 26, 37 and 44 |
| RuleLemmas.OpeningCaptureCells | main.py:134-165 | in the opening position a black disc brackets in some direction only from cells 19, 26, 37 or 44 |
| RuleLemmas.OpeningLegalCells | main.py:134-165 | in the opening position a cell is a legal move for black exactly when it is 19, 26, 37 or 44 |
| RuleLemmas.OpeningMoves | main.py:126-132 | the legal-move list of the opening position is exactly [19, 26, 37, 44] |
| RuleLemmas.MovesBelowSkip | main.py:126-132 | a stretch of cells with no legal move adds nothing to the scanned list |
| RuleLemmas.OpeningFlips | main.py:167-192 | black on 19 or 26 flips exactly [27]; black on 37 or 44 flips exactly [36] |
| RuleLemmas.SingleFlipMove | main.py:200-210 | a legal move that flips a single cell sets exactly the move and that cell to the mover, hands the turn over, records the move and clears the pass count |
| RuleLemmas.OpeningReply | main.py:200-210 | each opening move gives the position with black on the move and on its one flipped cell, white to move, the move recorded and no pass |
| Othello.OthelloGame.CanFlip | main.py:146-165 | the walk from (x, y) in direction (dx, dy) answers Brackets on the ray of cells beyond (x, y) up to the edge |
| RuleLemmas.CaptureWalkRun | main.py:146-165 | the walk succeeds exactly when the ray starts with a run of opponent discs (of length at least one unless one was already passed) followed directly by a disc of the mover |
| RuleLemmas.BracketsRun | main.py:146-165 | Brackets holds exactly when the ray starts with one or more opponent discs followed directly by a disc of the mover |
| Othello.OthelloGame.IsValidMove | main.py:134-144 | the answer is ValidMove: the cell is empty and the ray in one of the eight directions, tried in the source's order, brackets |
| Othello.OthelloGame.GetValidMoves | main.py:126-132 | the list is ValidMoves, the legal cells met by the scan 0 .. 63 |
| RuleLemmas.ValidMovesExact | main.py:126-132 | a cell is in ValidMoves exactly when it lies in 0 .. 63 and is a legal move; the list is strictly ascending |
| RuleLemmas.ValidMovesInRange | main.py:126-132 | every listed move is a cell index |
| Othello.OthelloGame.DirectionFlips | main.py:172-190 | the walk in one direction returns DirFlips: the run of non-empty cells not of the player before the first stop, if that stop is a disc of the player, and nothing otherwise |
| RuleLemmas.FlipWalkDirFlips | main.py:179-190 | the walk that drops the run on an empty cell or the edge and keeps it on a disc of the player returns DirFlips |
| Othello.OthelloGame.FlipDiscs | main.py:167-192 | the flips are Flips: the flips of the eight flip directions concatenated in the source's order |
| RuleLemmas.BracketsIffDirFlips | main.py:146-192 | a direction brackets exactly when a disc there would flip something in that direction, and every cell it flips holds an opponent disc |
| RuleLemmas.CaptureSurvivesPlacing | main.py:203-205 | putting the disc on the move before collecting flips leaves every capture of that move in place |
| RuleLemmas.LegalMoveFlips | main.py:200-208 | a legal move flips at least one disc; every flipped cell is a cell index other than the move and held an opponent disc |
| RuleLemmas.FlippedWereOpponents | main.py:167-192 | whatever cell is played, every flipped cell is a cell index other than the move and held an opponent disc |
| Othello.OthelloGame.ApplyMove | main.py:200-212 | the new state is Apply(old state, move) on the same board array |
| RuleLemmas.ApplyLegal | main.py:200-210 | a legal move puts the mover's disc on the move and on every flipped cell; it leaves every other cell, negates the player, records the move and clears the pass count |
| RuleLemmas.ApplyIllegal | main.py:200-212 | an absent or illegal move changes nothing: board, player, last move and pass count |
| RuleLemmas.ApplyLegalCounts | main.py:200-210 | after a legal move there is one empty cell fewer; the mover gains 1 plus the number of distinct flipped cells (at least one), which the opponent loses |
| RuleLemmas.PlacedCounts | main.py:203-208 | placing on an empty cell and flipping opponent discs moves the counts as above and keeps a valid board |
| RuleLemmas.PlacedStep | main.py:207-208 | setting the flipped cells one at a time builds the placed board |
| RuleLemmas.LegalIffGainsTwo | main.py:200-210 | a cell is a legal move exactly when playing it gains the mover at least two discs |
| Othello.OthelloGame.PassTurn | main.py:194-198 | the player is negated and the pass count rises by one; the board is unchanged |
| Othello.OthelloGame.Clone | main.py:214-219 | the copy has a board array of its own (later writes to it never reach the original) with the same cells and player, no last move and no pass |
| RuleLemmas.CloneGameOver | main.py:214-226 | a clone is over exactly when its player has no legal move |
| Othello.OthelloGame.IsGameOver | main.py:221-226 | the answer is GameOver, the test as written |
| RuleLemmas.GameOverCases | main.py:221-226 | a full board is over; a non-full board with two or more passes is not; with fewer passes the game is over exactly when there is no legal move |
| RuleLemmas.FullBoardHasNoMoves | main.py:221-224 | a full board has no legal move |
| RuleLemmas.ChildValid | main.py:33-34 | the clone of a valid state with a move applied is valid |
| RuleLemmas.ChildOfLegal | main.py:33-34 | for a legal move, that child records the move, has no pass and has the other player to move |
| Rules.Winner | main.py:228-231 | 1 exactly when black has more discs, -1 exactly when white has more, 0 exactly on a tie |
| Rules.SumIsDiscDifference | main.py:228-231 | the sum of the board is black discs minus white discs and lies in [-64, 64] |
| NegascoutSearch.Evaluate | main1.py:55-57 | the evaluation lies in [-64, 64] and is black discs minus white discs |
| NegascoutSearch.WinnerIsSignOfEvaluate | main1.py:169-171 | the winner is the sign of the evaluation |
| NegascoutSearch.NegamaxBounds | main1.py:23-53 | every value of the reference search lies in [-64, 64] |
| NegascoutSearch.BestMove | main1.py:31-47 | the move the reference keeps is a legal move |
| NegascoutSearch.FirstBestIsFirstMaximum | main1.py:45-47 | a scan that only replaces on a strictly greater score keeps the first index of highest value |
| NegascoutSearch.ScoreOfChild | main1.py:33-39 | the score of move i is the negated reference value of the clone with move i applied |
| NegascoutSearch.NegamaxOfExpanded | main1.py:27-53 | where the moves are searched, the reference value is the best of the move scores |
| NegascoutSearch.ScoresFirstBest | main1.py:45-47 | over a non-empty move list, the kept index holds the best score, no score exceeds it and every earlier score is smaller |
| NegascoutSearch.BestMoveIsFirstBest | main1.py:31-47 | where the moves are searched, the move kept is the move at the first index of highest score, and that score is the reference value |
| NegascoutSearch.Negascout.Scout | main1.py:23-53 | the score lies in [-64, 64]; at depth 0 or game over it is color * evaluate; for any window it is a fail-soft bound of Negamax; with the whole window it equals Negamax; where moves are searched, the recorded move is legal, and it is the first best move whenever the score falls inside the window |
| NegascoutSearch.Negascout.ScanMoves | main1.py:31-53 | the loop's score is a fail-soft bound of the best move score, with or without a cutoff; the recorded move is one of the moves, and it is the first best one when the score is inside the window |
| NegascoutSearch.ScanStep | main1.py:45-51 | one pass of the loop body keeps the scan's bounds on the best score and moves the kept index exactly on a strictly greater score |
| NegascoutSearch.ScanResult | main1.py:49-53 | a finished or cut-off scan returns a fail-soft bound of the best score |
| NegascoutSearch.Negascout.SearchChild | main1.py:33-43 | the child's result is a fail-soft bound of that move's score for the current window |
| NegascoutSearch.Negascout.NewChild | main1.py:33-35 | the child node holds a fresh game whose state is the clone with the move applied |
| NegascoutSearch.Negascout.WholeWindowSearch | main1.py:38-39 | the first child searched with the negated whole window gives a fail-soft bound of its negated value |
| NegascoutSearch.FailSoftNegated | main1.py:39 | negating a fail-soft result and the window gives a fail-soft result |
| NegascoutSearch.Negascout.NullWindowSearch | main1.py:40-43 | the null-window search with its conditional re-search gives a fail-soft bound for the whole window |
| NegascoutSearch.NullWindowDecides | main1.py:41-42 | a null-window result outside (alpha, beta) already bounds the value for that window |
| NegascoutSearch.NullWindowThenResearch | main1.py:42-43 | a null-window result inside (alpha, beta), followed by the re-search with window (result, beta), bounds the value for (alpha, beta) |
| NegascoutSearch.FullWindowExact | main1.py:18-20 | with the whole window a fail-soft result is the exact value |
| NegascoutSearch.Negascout.Search | main1.py:18-21 | the move is the first best move of the reference search when the root's moves are searched, and none otherwise; any move returned is legal |
| Mcts.MctsTree.constructor | main.py:5-14 | a new tree is the root alone, with no parent, no children, no visits, no wins and every legal move untried; the tree invariant holds and the sum of the root's child visits is 0 |
| Mcts.SingleNodeOk | main.py:5-14 | the root alone satisfies the tree invariant |
| Mcts.FullyExpandedIffAllChildren | main.py:16-18 | a node is fully expanded exactly when it has one child per legal move |
| Mcts.BestChild | main.py:20-26 | none exactly when the node has no children; otherwise one of its children |
| Mcts.BestChildIsChild | main.py:20-26 | the child picked comes later in the arena and names the node as its parent |
| Mcts.UntriedLegal | main.py:28-32 | the untried moves are cell indices and the one expansion takes is a legal move |
| Mcts.MctsTree.Expand | main.py:28-39 | with an untried move, the last one is removed, and a new node for the clone with that move applied is appended as the node's last child and returned; otherwise nothing changes and the node itself is returned; the invariant is kept |
| Mcts.ExpandedOk | main.py:28-39 | expansion keeps the tree invariant, including that children plus untried moves are the node's legal moves |
| Mcts.ExpandedShape | main.py:28-39 | the new node comes last, names the node as parent, has no children and no visits, and records a legal move; the node gains that child and loses that untried move; every other node is unchanged |
| Mcts.ChildMove | main.py:32-36 | every child records one of its parent's legal moves as its last move |
| Mcts.MctsTree.Backpropagate | main.py:41-46 | the arena becomes Propagated: the node and then each ancestor in turn gain a visit and the result with the sign flipping at every step |
| Mcts.VisitsAt | main.py:41-46 | a node gains one visit exactly when it lies on the path from the node to the root |
| Mcts.WinsOff | main.py:41-46 | the wins of a node off the path do not change |
| Mcts.WinsAt | main.py:41-46 | the node k steps up the path gains the result with its sign flipped k times |
| Mcts.AlternatingParity | main.py:46 | a sign flipped k times is the result for even k and its negation for odd k |
| Mcts.PropagatedStats | main.py:41-46 | visits rise by one exactly on the path; the node k steps up gains the result for even k and its negation for odd k; wins off the path stay |
| Mcts.PathReachesRoot | main.py:45-46 | the walk up the parents ends at the root |
| Mcts.RootVisited | main.py:41-46 | each backpropagation adds exactly one visit to the root |
| Mcts.PropagatedReshaped | main.py:41-46 | backpropagation changes only visit counts and win totals |
| Mcts.PropagatedOk | main.py:41-46 | backpropagation keeps the tree invariant and the root's state and children; it adds one visit to the root and, with results in [-1, 1], keeps each win total within its visit count |
| Mcts.PropagatedWinsBounded | main.py:41-46 | with results in [-1, 1], every win total stays between minus the visit count and the visit count |
| Mcts.ChildrenBelow | main.py:28-39 | every child of a node lies later in the arena and names that node as its parent |
| Mcts.ChildrenDistinct | main.py:28-39 | a node lists each child once |
| Mcts.VisitsOfBump | main.py:41-46 | adding one visit to a single node raises the visit sum over a duplicate-free list by one exactly when the list holds that node |
| Mcts.RootChildOnPath | main.py:41-46 | the path from any node other than the root passes through exactly one child of the root |
| Mcts.ExpandedChildren | main.py:28-39 | expansion keeps every child listed by its parent and leaves the visit sum over the root's children unchanged |
| Mcts.PropagatedChildren | main.py:41-46 | backpropagation keeps every child listed and, from a node other than the root, adds exactly one visit to the sum over the root's children |
| Mcts.ExpansionStep | main.py:71-73 | expansion after selection keeps the children listed, the root's visits and child visit sum, and bounded wins; when the root has a move, the node handed to the playout is not the root |
| Mcts.MctsTree.SelectNode | main.py:79-85 | the loop reaches the node Descend describes, or none where the source would continue with no node; a node reached is over or has an untried move, and one other than the root lies below a fully expanded root that is not over; when the root has a move a node is reached |
| Mcts.DescendStops | main.py:79-85 | selection stops at a node whose game is over or that has an untried move, and only leaves a node that is fully expanded and not over |
| Mcts.DescendReaches | main.py:79-85 | when the root has a legal move, selection always reaches a node |
| Mcts.RootKeepsChildren | main.py:71-73 | selection and expansion leave the root's state alone, keep win totals bounded and, when the root has a move, leave it with a child |
| Mcts.MctsTree.SelectAndExpand | main.py:71-73 | the new arena and the node handed on are Selected: the node Descend reaches, expanded unless its game is over, and the new child (or that node when it is over or has no untried move); it fails, leaving the tree unchanged, exactly when Selected does; it keeps the invariant, the root's state and visits, the child visit sum and bounded wins; when the root has a move a node other than the root is handed on and the root has a child |
| Mcts.MctsTree.Iteration | main.py:71-75 | the new arena is Stepped: the playout's result for iteration it and the state of the node Selected hands on, backpropagated from that node in the arena Selected gives; it fails, leaving the tree unchanged, exactly when Stepped does; one iteration keeps the invariant and the root's state and adds one visit to the root; when the root has a move it adds exactly one visit to the sum over the root's children; it fails, leaving the tree unchanged, only when the root has no legal move |
| Mcts.SteppedOk | main.py:71-75 | one iteration keeps the tree invariant |
| Mcts.IteratedOk | main.py:67-75 | every tree the iterations reach keeps the tree invariant |
| Mcts.IteratedFails | main.py:67-75 | once the iterations fail, every longer run fails too |
| Mcts.IteratedAdvance | main.py:67-75 | after the first n iterations reach a tree, iteration n either gives the tree after n + 1 iterations or fails, and then every longer run fails |
| Mcts.MctsTree.Iterate | main.py:67-75 | the new arena is Iterated, the iterations numbered 0 .. n - 1 applied in turn, and the loop fails exactly when Iterated does; after n iterations that did not fail the root has n more visits; when the root has a move, no iteration fails, the root has a child and the visits of the root's children sum to n more than before; the invariant and bounded wins are kept |
| Mcts.MonteCarloSearch.Search | main.py:62-77 | the result is SearchOutcome: the last move of the child the final oracle picks at the root of the tree Iterated grows from the root alone, or Failure where the source fails; a move returned is a legal move of the root; with at least one iteration and a legal move at the root a move is returned; with no iterations the search fails as the source does |

## Left out

- Console output (`print_board`, the debug prints in `pass_turn`, `apply_move` and the node constructor, the move prompt) and the `main` drivers with their tallies: they are I/O.
- Wall-clock time: the time limit of the MCTS loop and the accumulated thinking time of both players are clocks.
- `MCTSPlayer.get_move` and `NegascoutPlayer.get_move` are drivers around the searches, which are modelled.
- UCB1 in `get_value` uses floating point (division, square root, an infinite value for unvisited nodes). It is the oracle `Policy`, constrained only to pick one of the children.
- `simulate` plays random moves drawn from one shared random stream. It is the oracle `Playout`, indexed by the iteration number and the state and constrained only to return a value in [-1, 1]; that the value is the winner of some random game from the state is not modelled.
- The `parent` and `children` fields of `NegascoutNode`, and `add_child`, are written but never read, so they are not modelled.
- The negascout bounds -inf and +inf are the integers -INF and INF with INF = 1000. Every score lies in [-64, 64], and the null window -alpha-1 is formed only once alpha is finite.
- Othello.OthelloGame.ApplyMove: the move must be a cell index 0 .. 63. Python's negative indexing, and the IndexError for 64 and above, are not modelled; every caller passes an element of the legal-move list.
- Othello.OthelloGame.IsValidMove: the index must be 0 .. 63, for the same reason.
- NegascoutSearch.Negascout.Scout: the colour must be 1 or -1 and the depth a natural number. The source only calls it that way.
- Mcts.MctsTree.Expand: the child node holds a game-state value (the clone with the move applied, `Rules.Child`), not a separate game object. The tree is an arena of node values rather than objects linked by references.
- Mcts.ChildOk, the per-child part of the tree invariant, records only the child's parent and its last move. The exact state of each new child is stated by the contract of Expand.
- Mcts.MonteCarloSearch.Search: where the source would fail (selection meeting a fully expanded node without children, or a root without children at the end, both an attribute error on `None`), the model returns `Failure`.
- The body of the `negascout` loop is split into helper methods (SearchChild, WholeWindowSearch, NullWindowSearch, NewChild), and the per-direction walk of `flip_discs` is its own method (DirectionFlips). The order of the steps is unchanged.
