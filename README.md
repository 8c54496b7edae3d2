# Minimal tic-tac-toe: a Dafny model

The program builds the whole tic-tac-toe game graph and scores it by
backward induction (minimax). It then looks for a small strategy table: the
fewest positions a computer player has to remember to play perfectly. A board
is nine cells holding 0 (empty), 1 (player 1) or 2 (player 2). A board's
fingerprint is its base-3 number. Its canonical key (minHash) is the smallest
fingerprint over the eight symmetries of the square. Positions that are
symmetric share one canonical key, and the strategy tables are indexed by it.

This project models the core of that program in Dafny and proves its
properties:

- `util.dfy` (module `Util`): cell indexing, the fingerprint and its inverse,
  the eight symmetries and their inverses, board permutation, the canonical
  key, side to move, depth, legal moves and the line-based outcome code.
- `node.dfy` (module `Nodes`): the game-graph node, its defaults, the indexer,
  `ClonePieces`, `PermuteBoard` and `BoardResult`. A graph is an arena (a
  sequence of nodes) with children given as arena indices.
- `traversal.dfy` (module `Traversal`): `Util.Count` and the two `Util.Recurse`
  walks, each described by the sequence of callback calls it makes.
- `generate_tree.dfy` (module `TreeGen`): the `GenerateTree` class.
  - `Generate` and `MakeGraph` expand positions into the node dictionary in
    the three registration methods: counter, fingerprint, canonical key.
  - `ScoreGraph` runs fixed-point passes; `SelectBest` does the minimax choice.
- `scoring.dfy` (module `Scoring`): the final form of every node after
  scoring. It gives the minimax value, the optimal moves and the leaf tallies,
  against which `ScoreGraph` is proved.
- `solver.dfy` (module `Solver`): the exact-cover search of `SolverZ3`
  without the SAT solver.
  - `FindEdge` is the bound search.
  - `Expr` holds the variable interning.
  - The two constraint builders produce an abstract formula.
  - The side selection of `FindOptimalGraph` is modelled.
  - `GetNode` and `BestMove` map selected keys back to moves.
- `misc.dfy` (module `Misc`): the heuristic cover.
  - `WalkPath` marks positions for one random trial of `ComputeMin`.
  - `ReduceToMin` rebuilds the dictionary from the marked positions.
- `play.dfy` (module `Play`): the table, tree, random and all-positions players.
- `tiny_play.dfy` (module `Tiny`): the register-machine player for a small
  device.
  - Its canonical key is proved equal to `Util.MinHash`'s.
  - Its answers are proved to be the table's moves mapped back to the
    caller's board.
- `wrappers.dfy` (module `Wrappers`): `Option` and `Result`. An exception
  becomes an `Err` carrying the exception's message.

Code that updates state step by step is modelled as methods proved against
specification functions: the `GenerateTree`, `Expr`, `SolverZ3` and `TinyPlay`
classes, the players' `GetMove`, the node dictionary of `Misc`, and the loops
of `Util`. A `Trace.Assert` in the source, which ends the process, becomes a
precondition.

## Model

| member | source | states |
|---|---|---|
| Util.DeindexIndex | Util.cs:7-10 | for row and column in 0..2, Index gives a cell in 0..8 and Deindex gives the (row, column) back |
| Util.IndexDeindex | Util.cs:7-10 | for a cell in 0..8, Deindex gives row and column in 0..2 and Index gives the cell back |
| Util.DeindexNegative | Util.cs:10 | C# truncating division: Deindex(-1) is (0, -1), not a cell |
| Util.Hash | Util.cs:13-19 | the loop from the last cell down returns the base-3 number of the board, cell i weighing 3^i |
| Util.Dehash | Util.cs:22-32 | returns a new nine-cell board holding the nine low base-3 digits of the hash, least significant first, with C# `%` and `/` |
| Util.HashBounds | Util.cs:12-19 | a board of n cells in {0,1,2} hashes into 0..3^n-1 |
| Util.HashRoundTrip | Util.cs:12-32 | every valid board hashes into 0..19682 and Dehash of its hash is the board |
| Util.DehashRoundTrip | Util.cs:12-32 | for every hash in 0..19682, Dehash gives a valid board whose hash is that number |
| Util.HashInjective | Util.cs:13-19 | two valid boards with the same hash are equal |
| Util.HashWeight | Util.cs:13-19 | cell i adds board[i] * 3^i to the hash |
| Util.ApplyPerm | Util.cs:81-93 | a cell in the 3x3 grid is sent to a cell in the grid (bit 1 flips the row, bit 2 the column, bit 4 transposes) |
| Util.PermInverse | Util.cs:81-109 | InvertPerm undoes ApplyPerm and ApplyPerm undoes InvertPerm, for every code and cell |
| Util.CodeBits | Util.cs:81-93 | the three bit tests of ApplyPerm read back the three flags a code in 0..7 is built from |
| Util.ComposeApply | Util.cs:81-93 | applying symmetry p and then q is applying one symmetry in 0..7 |
| Util.InvertPermIsCode | Util.cs:96-109 | InvertPerm is ApplyPerm of some code in 0..7 |
| Util.ComposeOnto | Util.cs:81-93 | composing with symmetry q reaches every code, so the eight symmetries form a group |
| Util.PermuteBoard | Util.cs:120-129 | returns a new board whose cell (row, col) is the original cell ApplyPerm(perm, row, col) |
| Util.PermutedBoardAt | Util.cs:120-129 | reading cell (row, col) of the image reads cell ApplyPerm(perm, row, col) of the board |
| Util.PermutedIdentity | Util.cs:120-129 | code 0 leaves the board unchanged |
| Util.PermutedFlipRows | Util.cs:86-87 | code 1 reverses the order of the rows |
| Util.PermutedFlipCols | Util.cs:88-89 | code 2 reverses every row |
| Util.PermutedExamples | Util.cs:120-129 | the two fixed board images checked in the repository's tests, for codes 1 and 2 |
| Util.PermutedCompose | Util.cs:120-129 | permuting by q and then by p is permuting by one composed code |
| Util.PermutedValid | Util.cs:120-129 | the image of a valid board is a valid board |
| Util.AtInjective | Util.cs:120-129 | distinct cells of the image read distinct cells of the board, so the image is a rearrangement |
| Util.MinImageSpec | Util.cs:36-43 | the smallest fingerprint over the first n images is at most every one of them and equals one of them |
| Util.FirstPermSpec | Util.cs:41 | the first code from p whose image has fingerprint v: it reaches v and no earlier code does |
| Util.MinHash | Util.cs:36-43 | hash is the board's own fingerprint; minPerm is in 0..7 and minHash is the fingerprint of image minPerm |
| Util.MinHashSpec | Util.cs:36-43 | minHash is at most every image fingerprint and minPerm is the first code reaching it |
| Util.CanonicalBoard | Util.cs:36-43 | minHash is in 0..19682 and Dehash(minHash) is the image of the board by minPerm |
| Util.MinHashInvariant | Util.cs:36-43 | every symmetric image of a board has the same minHash |
| Util.MinHashIdempotent | Util.cs:36-43 | the canonical board's own minHash and hash are both the original minHash |
| Util.CanonicalKey | Util.cs:36-43 | a board has no image with a smaller fingerprint exactly when its minHash is its own hash |
| Util.CanonicalImage | Util.cs:36-43 | the image by minPerm has fingerprint minHash and is canonical |
| Util.SameKeySymmetric | Util.cs:36-43 | two valid boards with the same minHash have the same canonical image |
| Util.Depth | Util.cs:69-70 | the depth is at most the number of cells |
| Util.DepthCounts | Util.cs:69-70 | depth plus the number of empty cells is the board size; on a valid board the depth is the number of pieces of both players |
| Util.PermutedCount | Util.cs:119-129 | a symmetry keeps the number of cells of each value, and so the depth |
| Util.DepthUpdate | Util.cs:69-70 | placing a piece on an empty cell adds one to the depth and removes one empty cell |
| Util.ToMove | Util.cs:59-67 | with the asserted piece counts as the precondition: player 1 moves exactly when both players have as many pieces, player 2 exactly when player 1 has one more |
| Util.EmptyBelow | Util.cs:72-78 | the empty cells below n, ascending, one per empty cell |
| Util.LegalMoves | Util.cs:72-78 | a move is listed exactly when it is an empty cell; the list ascends and holds 9 minus depth moves |
| Util.FirstRunSpec | Util.cs:170-181 | the scan from line k gives 0 exactly when no later line is complete, and otherwise the code of the first complete line |
| Util.OutcomeMeaning | Util.cs:165-192 | 9 for a full board, checked before the lines; otherwise 0 when no line is complete; otherwise the first complete line in `runs` order, as 1 + line, negative exactly when player 2 owns it |
| Util.RunAt | Util.cs:170-178 | reading `runs` at t = 3k reads line k, and one loop step's result is the code of line k or the scan of the next line |
| Util.Outcome | Util.cs:167-182 | the loop returns the outcome code that OutcomeMeaning describes |
| Nodes.Blank | Node.cs:24-40 | a new node holds the given board, nine null children, score 3 (unscored), zero counts, no best moves and no cover mark |
| Nodes.NewNode | Node.cs:24-40 | `new Node()` holds the empty board with every other field at its default |
| Nodes.EmptyBoard | Node.cs:28 | the default board is valid and has depth 0 |
| Nodes.BlankUnscored | Node.cs:34-44 | a new node is not Scored and has score 3 |
| Nodes.ScoredPositive | Node.cs:34-44 | with non-negative counts, Scored holds exactly when one of wins1, wins2, draws is positive |
| Nodes.Set | Node.cs:53 | the setter keeps the board's size |
| Nodes.SetGet | Node.cs:50-54 | the setter writes cell col + 3 * row, the getter reads it back, and no other cell or field changes |
| Nodes.ClonePieces | Node.cs:57-66 | the clone is a new node with every field at its default except the board, whose cells are copied from the original |
| Nodes.NodeToMove | Node.cs:68 | under the asserted piece counts the side to move is player 1 or player 2 |
| Nodes.PermuteNode | Node.cs:71 | the board is replaced by its image under the symmetry and no other field changes |
| Nodes.BoardResult | Node.cs:76-100 | returns the result of rows and columns checked in the order row i, column i for i = 0..2, then the two diagonals, then fullness |
| Nodes.ResultFromCodes | Node.cs:76-100 | on a valid board the result is one of 0, 1, 2, 3 |
| Nodes.RowColumnRuns | Node.cs:78-84 | row i and column i of the loop are lines i and 3 + i of Util's `runs`, starting at the same cell |
| Nodes.DiagonalRuns | Node.cs:86-89 | the two diagonal checks are lines 6 and 7 of `runs` |
| Nodes.ResultFromCases | Node.cs:76-100 | without a complete row or column from pass i on, the result is the diagonal and fullness check; with one, the result owns a complete line |
| Nodes.FullDepth | Node.cs:91-92 | every cell occupied is the depth reaching the board size |
| Nodes.WonByPlayer | Node.cs:95-99 | on a valid board the owner of a complete line is player 1 or player 2 |
| Nodes.BoardResultMeaning | Node.cs:74-100 | on a valid board: 1 or 2 only for a player owning a complete line; 0 exactly for a full board without one; 3 exactly for an unfinished board without one |
| Nodes.NoLineResult | Node.cs:91-93 | without a complete line the result is 0 on a full board and 3 otherwise |
| Nodes.LineResult | Node.cs:78-89 | with a complete line the result is a player who owns one |
| Nodes.OutcomeAgreesWithBoardResult | Node.cs:74-100 | Util.Outcome and BoardResult agree on valid boards: Outcome is 0 exactly when BoardResult says play goes on, and a line code means BoardResult names a winner |
| Nodes.KeyIsMinHash | Util.cs:36-43 | the key of a node is the minHash of its board |
| Nodes.Fingerprints | Util.cs:36-43 | the hash and minHash of a node's board, as MakeGraph and the solver take them from Util.MinHash |
| Scoring.Better | GenerateTree.cs:183-189 | the better of two scores for the side to move ranks at least as high as both and is one of them |
| Scoring.Final | GenerateTree.cs:133-149 | scoring a node fills in only its counters, score and best moves; its board, children and cover mark stay |
| Scoring.Solved | GenerateTree.cs:120-158 | the scored arena has the same size and every node in its final form |
| Scoring.TallyPositive | GenerateTree.cs:138-143 | on a ready graph every node's summed counters are non-negative and count at least one leaf |
| Scoring.SolvedScored | GenerateTree.cs:128-158 | once the passes end on a ready graph, every node is Scored |
| Scoring.SolvedStable | GenerateTree.cs:128-158 | the scored arena is a graph and scoring it again changes nothing, since every node is then skipped |
| Scoring.SameStructure | GenerateTree.cs:133-149 | scoring keeps boards and children, so the arena stays an acyclic graph |
| Scoring.Optimal | GenerateTree.cs:177-190 | the listed moves are strictly ascending, each has a child whose value is s, and every move below m whose child has value s is listed |
| Scoring.ValueRange | GenerateTree.cs:166-215 | when every scored node carries a game result (-1, 0 or 1), so does every minimax value |
| Scoring.ValueBelowRange | GenerateTree.cs:175-192 | the running best over the children below m stays in -1..1 when the children's values do |
| Scoring.ValueBelowBest | GenerateTree.cs:175-213 | the running best is at least as good for the side to move as every child below m, and is either the starting worst score or the value of one of those children |
| Scoring.ValueAttained | GenerateTree.cs:175-213 | on game-result scores, an unscored node with a child has a child whose value is the node's value |
| Scoring.BestNonEmpty | GenerateTree.cs:166-215 | on a ready graph with game-result scores, every node scoring settles gets a non-empty best-move list and every scored value is -1, 0 or 1 |
| Scoring.SolvedBestPresent | GenerateTree.cs:177-211 | when every best move leads to a child, scoring keeps it so: the moves SelectBest appends are children |
| Scoring.BestUnique | GenerateTree.cs:166-215 | the best score over the children is unique |
| Scoring.Achieving | GenerateTree.cs:177-190 | every listed move is below k, has a child, and its child scores s |
| Scoring.AchievingNone | GenerateTree.cs:183-189 | when no child scores s, no move is listed for s |
| Scoring.StuckBelowStep | GenerateTree.cs:133-152 | a pass that updates nothing leaves every node it visited either scored or with an unscored child |
| Scoring.UnscoredBelow | GenerateTree.cs:132-151 | the number of unscored nodes below n is at most n |
| Scoring.UnscoredSet | GenerateTree.cs:141-147 | scoring one unscored node lowers the unscored count by one, which bounds the number of passes |
| Scoring.AllStuckScored | GenerateTree.cs:156 | in an acyclic graph where no node can be scored, every node is already scored, so the passes end with all nodes scored |
| Scoring.ValueIsBest | GenerateTree.cs:166-215 | with the children in their final form, the minimax value is the best child score for the side to move, starting from the worst score |
| Scoring.AchievingIsOptimal | GenerateTree.cs:177-190 | with the children in their final form, the moves whose child scores the value are the optimal moves, ascending |
| Scoring.SumIsTally | GenerateTree.cs:138-143 | with the children in their final form, the summed counters are the leaf outcomes below the node, one per path |
| Scoring.StepFinal | GenerateTree.cs:135-149 | one scoring step on an unscored node whose children are all scored gives exactly its final form, which is Scored |
| TreeGen.Mover | GenerateTree.cs:103-110 | the player to move is player 1 or player 2, alternating with the depth from player 1 on the empty board |
| TreeGen.MoverIsToMove | Util.cs:59-67 | the depth-parity player MakeGraph passes down is the player Util.ToMove computes from the piece counts, on every board whose counts it accepts |
| TreeGen.Stored | GenerateTree.cs:70-74 | the stored board is nine cells: the canonical image in method 2, the board itself otherwise |
| TreeGen.ExpandedGrow | GenerateTree.cs:103-112 | an expanded node stays expanded when later nodes are added to the dictionary |
| TreeGen.ExpandedReplace | GenerateTree.cs:110 | an expanded node stays expanded when an earlier node gets a child |
| TreeGen.GenerateTree.constructor | GenerateTree.cs:5-14 | a new generator has no nodes, no examinations and method 0 |
| TreeGen.GenerateTree.Generate | GenerateTree.cs:19-52 | a method outside 0..2 throws "Method should be in 0-2" with nothing changed; otherwise the dictionary is rebuilt from the empty board with player 1 to move, the root is the first registered node and the result is Built |
| TreeGen.GenerateTree.Register | GenerateTree.cs:78 | Dictionary.Add of a fresh key appends the node and its key and keeps the dictionary consistent; nothing else changes |
| TreeGen.GenerateTree.Replace | GenerateTree.cs:84-110 | updating the fields of a registered node other than its board keeps the dictionary consistent and changes nothing else |
| TreeGen.GenerateTree.MakeGraph | GenerateTree.cs:55-117 | the call counts one examination; the returned node holds the stored board; the dictionary stays consistent and grows only by finished expansions; on a hit (methods 1 and 2) nothing but the count changes; on a miss the new node is the next one registered |
| TreeGen.GenerateTree.KeyFor | GenerateTree.cs:57-77 | the key is the new examination count in method 0, the hash in method 1, the minHash in method 2, and the node is re-oriented to its canonical image only in method 2 |
| TreeGen.GenerateTree.Revisit | GenerateTree.cs:64-68 | on a registered key the examination is counted and the registered node, whose board is the stored board, is returned; nothing else changes |
| TreeGen.GenerateTree.Miss | GenerateTree.cs:57-117 | on a new key the examination is counted, the node is registered as the next entry and every node from it on is a finished expansion |
| TreeGen.GenerateTree.AddFresh | GenerateTree.cs:78-114 | the new entry is registered, then scored if terminal or expanded otherwise, and every node from it on is a finished expansion |
| TreeGen.GenerateTree.ExpandMoves | GenerateTree.cs:103-114 | the loop over the cells leaves the earlier nodes untouched and makes the node and every node added after it finished expansions |
| TreeGen.GenerateTree.ExpandingStart | GenerateTree.cs:103 | before the first cell the loop state holds with no child set |
| TreeGen.GenerateTree.ExpandingDone | GenerateTree.cs:103-114 | after the ninth cell the node has a child exactly on each empty cell, so it is a finished expansion |
| TreeGen.GenerateTree.ExpandCell | GenerateTree.cs:105-111 | one cell: an empty cell gets the child built by placing the mover's piece there; an occupied cell is skipped; the loop state advances by one cell |
| TreeGen.GenerateTree.ScoreGraph | GenerateTree.cs:120-158 | the passes end with the arena equal to the solved arena, every node Scored, and the dictionary and keys unchanged; best moves that led to children still do; when the scored nodes held game results, every score is one and every node the passes scored has a non-empty best-move list |
| TreeGen.GenerateTree.ScorePass | GenerateTree.cs:132-152 | one pass over the nodes in order scores some nodes, each into its final form; a pass that scores none changes nothing and leaves every node scored or waiting on an unscored child |
| TreeGen.GenerateTree.ScoreNode | GenerateTree.cs:135-151 | node j changes exactly when it is unscored and all its non-null children are scored; it then becomes its final form (summed counters, then SelectBest) and nothing else changes; otherwise nothing changes and j is stuck for this pass |
| TreeGen.Terminal | GenerateTree.cs:80-101 | scoring a terminal position keeps the board, children and best moves |
| TreeGen.TerminalExpanded | GenerateTree.cs:80-101 | a terminal position scored for its winner or as a draw, without children, is a finished expansion |
| TreeGen.StartFacts | GenerateTree.cs:29-36 | the empty dictionary is consistent, and the new root is a valid board with player 1 to move |
| TreeGen.RootFacts | GenerateTree.cs:34-36 | a graph built from the empty board is Built: its root is the empty board under key 1 (method 0) or hash 0 |
| TreeGen.GeneratedScores | GenerateTree.cs:80-112 | a generated node scored as terminal has score 1, -1 or 0, no generated node has best moves yet, and a node with a child is unscored |
| TreeGen.EmptyInPlay | GenerateTree.cs:80-103 | the empty root board has no line and is not full, so MakeGraph expands it |
| TreeGen.GeneratedSolved | Program.cs:205-208 | after Generate and ScoreGraph the arena is acyclic, every best move leads to a child, every node with a child has a best move, and every score is -1, 0 or 1 |
| TreeGen.GeneratedRoot | GenerateTree.cs:34-36 | the scored root is the empty board with a child at every cell |
| TreeGen.GeneratedReady | GenerateTree.cs:55-117 | a graph of finished expansions is closed, each child one move deeper, counters non-negative, and every unscored node has a child: the passes of ScoreGraph can finish on it |
| TreeGen.ExpandedChildDepth | GenerateTree.cs:105-110 | a child of an expanded node holds one more piece |
| TreeGen.ExpandedCounters | GenerateTree.cs:80-114 | an expanded node has non-negative counters and has a child unless it is scored |
| TreeGen.MoverUpdate | GenerateTree.cs:107-109 | placing the mover's piece on an empty cell of a valid board gives a valid board where the other player moves |
| TreeGen.CellAdded | GenerateTree.cs:107-110 | linking the child built for an empty cell advances the loop state by one cell |
| TreeGen.CellsDone | GenerateTree.cs:103-114 | once every cell is handled, the node is expanded like the nodes after it |
| TreeGen.SoFarGrow | GenerateTree.cs:109 | the children set so far stay correct when the recursive call adds nodes |
| TreeGen.SoFarStep | GenerateTree.cs:110 | setting the child of an empty cell settles one more cell |
| TreeGen.SoFarSkip | GenerateTree.cs:105 | an occupied cell settles without a child |
| TreeGen.SoFarDone | GenerateTree.cs:103-114 | a non-terminal node whose nine cells are settled is a finished expansion |
| TreeGen.StoredShape | GenerateTree.cs:70-74 | the stored board is valid and has the same number of empty cells and the same depth |
| TreeGen.EmptyCanonical | GenerateTree.cs:34-36 | the empty board has hash 0 and is its own stored board in every method |
| TreeGen.PermutedEmpty | GenerateTree.cs:73 | every image of the empty board is the empty board |
| TreeGen.KeyHit | GenerateTree.cs:62-67 | a registered key identifies the stored board: the hash determines the board in method 1, and the minHash the canonical image in method 2 |
| TreeGen.FreshEntry | GenerateTree.cs:62-78 | a key not yet registered may be added for the stored board, which keeps the side to move and the number of empty cells |
| TreeGen.FreshFits | GenerateTree.cs:62-77 | the key computed for a new board fits the stored board: count, hash, or minHash of a canonical image |
| TreeGen.CounterFresh | GenerateTree.cs:57-77 | in method 0 the examination count is never a registered key yet, so Add cannot throw |
| TreeGen.SelectBest | GenerateTree.cs:166-215 | with an odd number of blank cells player 1 picks the highest child score from -1 up, otherwise the lowest from +1 down; the best moves are the moves reaching it, after the previous list when no child beats the start |
| TreeGen.PickBest | GenerateTree.cs:175-192 | the loop returns the best score over the non-null children and the ascending list of moves reaching it |
| TreeGen.PickKeep | GenerateTree.cs:180-183 | a null child, or one scoring worse, changes neither the best score nor its moves |
| TreeGen.PickTie | GenerateTree.cs:183-188 | a child scoring exactly the best joins the moves |
| TreeGen.PickBetter | GenerateTree.cs:185-188 | a child scoring strictly better becomes the best, alone in the cleared list |
| TreeGen.ProgressSet | GenerateTree.cs:141-147 | writing a node's final form keeps every node either untouched or final |
| TreeGen.ScoreStep | GenerateTree.cs:135-151 | a node that is scored, or has an unscored child, is skipped by the pass |
| TreeGen.ProgressDone | GenerateTree.cs:156 | when a pass updates nothing, the arena is the solved arena and every node is Scored |
| Misc.Draw | Misc.cs:68 | the k-th rand.Next(n) call yields an index below n |
| Misc.Mark | Misc.cs:49 | setting or clearing one onMinPath flag adds or removes exactly that position from the marked set and changes nothing else |
| Misc.SameWalkable | Misc.cs:47-88 | changing onMinPath flags keeps boards, children and best moves, so a walkable graph stays walkable |
| Misc.Leading | Misc.cs:63 | every move kept leads to a marked child |
| Misc.LeadingSpec | Misc.cs:63 | the filter keeps the best moves in order, keeps a move exactly when it is a best move with a marked child, and is empty exactly when no best move has one |
| Misc.Choice | Misc.cs:63-69 | the chosen move, when there is one, is a move with a child |
| Misc.ChoiceSpec | Misc.cs:63-69 | there is no choice exactly when the node has no best moves; a choice is always a best move, and it leads to a marked child whenever some best move does |
| Misc.Walk | Misc.cs:47-88 | a walk marks its start node, keeps every earlier mark and never takes back a draw |
| Misc.WalkFrom | Misc.cs:76-81 | the walks below the children keep every earlier mark and never take back a draw |
| Misc.WalkReach | Misc.cs:47-88 | a walk marks only positions reachable from its start node |
| Misc.CentreMarked | Misc.cs:53-57 | with startCenter the centre child is marked |
| Misc.RepliesMarked | Misc.cs:73-81 | without pickBest every child of the node is marked |
| Misc.BestMarked | Misc.cs:58-72 | with pickBest and a best move, the child of some best move is marked, and the walk continues from an already marked child whenever a best move leads to one |
| Misc.NoBestStops | Misc.cs:64-66 | with pickBest and no best move the walk marks only the node and draws nothing |
| Misc.CoveredSpec | Misc.cs:22-32 | one trial marks the root, every opening, the centre opening's every reply, and nothing unreachable from the root |
| Misc.ReducedFailed | Misc.cs:95-99 | once a duplicate key is met the rebuilt dictionary stays failed |
| Misc.ReducedMessage | Misc.cs:98 | rebuilding fails only with Dictionary.Add's duplicate-key error |
| Misc.ReducedSpec | Misc.cs:93-99 | rebuilding fails exactly when two marked positions share a canonical key; otherwise the dictionary maps the key of each marked position to it and holds nothing else |
| Misc.ReducedStep | Misc.cs:95-99 | one more position keeps the clash and dictionary characterisation of ReducedSpec |
| Misc.PrunedClosed | Misc.cs:101-105 | after rebuilding, every remaining best move of a registered position was a best move before and leads to a registered position |
| Misc.Registry.constructor | Misc.cs:7 | the registry holds the given node arena and dictionary |
| Misc.Registry.ClearMarks | Misc.cs:23-24 | every onMinPath flag is cleared, nothing else changes |
| Misc.Registry.CountMarked | Misc.cs:34 | returns the number of marked positions |
| Misc.Registry.WalkPath | Misc.cs:47-88 | the marks set and draws used are those of Walk from the marks before; only flags change |
| Misc.Registry.Trial | Misc.cs:22-40 | one loop iteration: the seed goes up by one, the marks become exactly the trial's cover under the new seed, and the best count and seed are replaced exactly when the count is strictly smaller |
| Misc.Registry.ReduceToMin | Misc.cs:91-106 | a duplicate key fails with the duplicate-key error, the nodes unchanged and the dictionary as the failing `Add` left it; otherwise the dictionary is the rebuilt one, and the first marked node with a best move outside the array or with a null child throws that exception after the marked nodes before it are pruned; without either failure each marked node keeps only its best moves with a marked child |
| Misc.Registry.Rebuild | Misc.cs:93-99 | the dictionary is cleared and refilled with every marked node under its canonical key; it succeeds exactly when no two marked nodes share a key, and otherwise stops with the dictionary built from the positions before the first clashing one |
| Misc.Registry.PruneMarked | Misc.cs:101-105 | each marked node in turn keeps only its best moves with a marked child; it fails exactly when some marked node's filter throws, with that exception, and then only the marked nodes before the first such node are pruned |
| Misc.Fault | Misc.cs:103 | the filter of one node throws exactly when some best move is outside the children array or has a null child, with the exception of the first such move |
| Misc.FirstFault | Misc.cs:101-105 | the first marked position whose filter throws; none exactly when every marked position's filter succeeds |
| Misc.FollowableNoFault | Misc.cs:101-105 | when every best move has a child, the pruning loop never throws |
| Misc.GeneratedWalkable | Program.cs:205-212 | the graph Generate builds and ScoreGraph scores is walkable (acyclic, every best move has a child), and the pruning loop of ReduceToMin never throws on it |
| Misc.LeadingSame | Misc.cs:63 | the filter depends only on the node's children, not on other flags |
| Play.MoveBack | Play.cs:100-102 | a move m chosen on the canonical image maps back to the caller's cell At(perm, m), which holds the piece the image shows at m; playing it and taking the image is playing m on the image |
| Play.FirstEntrySpec | Play.cs:97 | the scan stops at the first entry with the key, or at the end when no entry has it |
| Play.TableLookupFails | Play.cs:97 | the table player fails with First's no-match error exactly when no entry has the board's canonical key |
| Play.TableLookupFirst | Play.cs:96-103 | otherwise it answers from the first entry with the key, its move mapped back through the symmetry, and does not ask to stop |
| Play.TableMoveLegal | Play.cs:94-104 | when every entry's move is an empty cell of its canonical board, the answer is a legal move of the caller's board, and playing it gives, up to symmetry, the entry's position |
| Play.Pick | Play.cs:73 | the random pick is an element of the best-move list |
| Play.TreeMoveErrors | Play.cs:69-73 | the tree player fails with a missing key exactly when neither the board's fingerprint nor its canonical key is registered, and with an index error exactly when the node found has no best move |
| Play.TreeMoveChoices | Play.cs:69-80 | the answers are the best moves of the node found, as they are when found by the board's own fingerprint and mapped back through the symmetry when found by the canonical key |
| Play.TreeMoveReduced | Play.cs:73 | every random value gives the same answer as one below the number of best moves |
| Play.TreeMoveLegal | Play.cs:66-81 | over a dictionary whose nodes hold their key's board and legal best moves, the answer is a legal move of the caller's board |
| Play.RandomPlayer.constructor | Play.cs:17 | a new player starts its random stream from the beginning |
| Play.RandomPlayer.GetMove | Play.cs:21-26 | the answer is the legal move the next draw picks, never asks to stop, and uses one draw; a full board fails with an index error |
| Play.Placed | Play.cs:121 | placing a piece keeps the board's length |
| Play.FirstUnseenSpec | Play.cs:117-128 | the move found is the first whose position has an unseen fingerprint, and none is found exactly when every position has been seen |
| Play.Probe | Play.cs:120-123 | returns the fingerprint of the board with the piece placed, and leaves the board as it was |
| Play.AllPosPlayer.constructor | Play.cs:109 | a new player has seen no position |
| Play.AllPosPlayer.GetMove | Play.cs:112-131 | the board is left as it was; the answer is the first legal move to an unseen position, whose fingerprint is recorded; with every position seen it is the first legal move and nothing is recorded; no legal move fails with an index error |
| Solver.FindEdge | SolverZ3.cs:385-434 | a result passes with the bound below it failing, whatever the test; for a monotone test it reports all-succeeded exactly when 1 passes, all-failed when upperBound fails, and the threshold otherwise, except that an odd upperBound that is itself the threshold is reported as all-failed |
| Solver.OddBoundExample | SolverZ3.cs:404-418 | on upperBound 3 with the threshold at 3 the search reports that every bound failed |
| Solver.FindEdgeClamped | SolverZ3.cs:385-434 | with the doubling clamped to upperBound, a monotone test that fails at 1 and passes at upperBound always yields its threshold, and all-failed means upperBound itself failed |
| Solver.OddBoundClamped | SolverZ3.cs:404-418 | the clamped search finds the threshold 3 on the same input |
| Solver.ChainAppend | SolverZ3.cs:45-48 | conjoining one list of formulas and then another is conjoining their concatenation |
| Solver.Expr.constructor | SolverZ3.cs:15-23 | a new expression holds the given formula and no registered variables |
| Solver.Expr.AddEdge | SolverZ3.cs:25-32 | returns the variable named after the parent's canonical key and the move, registering it; the formula and position variables are untouched |
| Solver.Expr.AddVert | SolverZ3.cs:34-42 | returns the variable named after the node's canonical key, registering it; the formula and move variables are untouched |
| Solver.Expr.And | SolverZ3.cs:45-48 | the formula becomes its conjunction with the argument; the variables are untouched |
| Solver.ImageSameVertex | SolverZ3.cs:37-38 | a board and each of its eight images get the same position variable |
| Solver.AddVerts | SolverZ3.cs:196 | returns the position variables of the nodes in order, registering their keys and nothing else |
| Solver.ExpandParent | SolverZ3.cs:80-113 | for each followed move: its move variable and the grandchildren's position variables are registered, the alternative for the move is collected, and the grandchildren are gathered in order |
| Solver.Enqueue | SolverZ3.cs:104-106 | the grandchildren whose key is not processed are appended to the queue in order |
| Solver.UnseenKeys | SolverZ3.cs:104-106 | the grandchildren left out of the queue are exactly those whose key is processed |
| Solver.PresentSkipReady | SolverZ3.cs:80-90 | when every best move leads to a child, the builder's demands hold from any start nodes whose top-level members have a child at the opening |
| Solver.GeneratedSkipReady | SolverZ3.cs:292-304 | on the graph Generate builds and ScoreGraph scores, the builder's demands hold for both calls: from the root with an opening cell 0..8, and from the root's children with no opening |
| Solver.MakeGraphExpressionSkips | SolverZ3.cs:55-121 | the formula gains the start-node conjunct and one clause per expanded position, in the order the queue expands them, each key by the first node dequeued with it; the expanded positions have distinct keys, and their keys are the start keys plus every key reached; exactly their variables and the followed moves are registered |
| Solver.SkipRunStep | SolverZ3.cs:69-106 | one round of the loop, dropping a processed head or expanding it and enqueueing its unprocessed grandchildren, moves one step along the queue run: the nodes expanded so far followed by the rest of the run stay the same |
| Solver.MakeGraphExpressionAll | SolverZ3.cs:124-137 | the formula gains the start-node conjunct and the clauses of the walk from the first start node; exactly the keys it names are registered, and no move variable |
| Solver.Recurse | SolverZ3.cs:139-185 | the formula gains the clauses of the calls of the walk from b, in call order, and their keys are registered |
| Solver.RecurseAll | SolverZ3.cs:180-184 | the walks below the targets add their clauses in target order |
| Solver.AddEdges | SolverZ3.cs:189-201 | without targets nothing changes; otherwise the formula gains that b implies all of its targets or one of them, as the depth's parity and the side moving first decide |
| Solver.RequireAllFlips | SolverZ3.cs:191-192 | one level down the choice between all and one flips |
| Solver.CallsAlternate | SolverZ3.cs:139-185 | a walk started in step with the depth stays in step: every call picks a best move exactly where AddEdges accepts one target |
| Solver.ComputerPicksOne | SolverZ3.cs:191-192 | from the empty board the positions where a best move is picked get "one of the targets" and the others "all of the targets" |
| Solver.MakeOr | SolverZ3.cs:317-345 | a fresh expression registering the positions of both inputs and no move, whose formula says that for the selector either it holds with the computer-first constraints or fails with the human-first ones |
| Solver.SelectExpr | SolverZ3.cs:309-315 | errs exactly when neither side moves first; one side gives its own expression; both give MakeOr's |
| Solver.FirstMatchSpec | SolverZ3.cs:599-603 | the search stops at the first position whose own or canonical fingerprint is the key, and reaches the end exactly when none matches |
| Solver.MoveFromNone | SolverZ3.cs:577-594 | no move is reported, with result 9, exactly when no child's fingerprint is among the selected keys |
| Solver.MoveFromFound | SolverZ3.cs:579-590 | a reported move is selected, and its result is the outcome of the child's board |
| Solver.MoveFromLowest | SolverZ3.cs:579-590 | no move below the reported one is selected |
| Solver.SolverZ3.constructor | SolverZ3.cs:436 | a new solver has read no positions |
| Solver.SolverZ3.ReadPositions | SolverZ3.cs:438-447 | the positions become every node the full walk reaches, in walk order, as many as Util.Count gives, starting with the start node |
| Solver.SolverZ3.GetNode | SolverZ3.cs:597-607 | returns the first read position whose own or canonical fingerprint is the key |
| Solver.SolverZ3.BestMove | SolverZ3.cs:574-595 | returns the lowest move out of the key's position whose child is selected, with that child's outcome, or (-1, 9) |
| Tiny.TinyIndexRoundTrip | TinyPlay.cs:184-194 | for a cell in 0..8 Deindex gives (col, row) in 0..2 and Index gives the cell back; for (col, row) in 0..2 Index then Deindex gives them back |
| Tiny.TinyApply | TinyPlay.cs:196-204 | a symmetry keeps (col, row) on the 3-by-3 grid |
| Tiny.TinyInverse | TinyPlay.cs:196-215 | InvertPerm undoes ApplyPerm and ApplyPerm undoes InvertPerm, for every code |
| Tiny.TinyApplyIsUtil | TinyPlay.cs:196-204 | each device symmetry, which swaps before flipping, is one of Util's eight symmetries, which flip before swapping |
| Tiny.TinyCodeInvolution | TinyPlay.cs:196-204 | the correspondence between the two numberings of the symmetries is its own inverse, so the device covers the same eight images |
| Tiny.Reads | TinyPlay.cs:229-231 | the cell read for a grid position is on the board |
| Tiny.CornerRead | TinyPlay.cs:223-233 | the last cell MinHash reads, under code 7, is cell 8 |
| Tiny.TinyCell | TinyPlay.cs:297-302 | the cell a table move maps back to is on the board |
| Tiny.TinyCellIsAt | TinyPlay.cs:297-302 | the device maps a move back to the cell Util's PermuteBoard moves to it |
| Tiny.TinyImageIsUtil | TinyPlay.cs:226-233 | the board the device reads under a code is Util's image under the matching code |
| Tiny.LinesAreHash | TinyPlay.cs:225-233 | the double loop computes the fingerprint of that image |
| Tiny.KeptSpec | TinyPlay.cs:220-242 | the kept minimum is at most 50000 and at most every fingerprint seen; the kept code is in range, and once the minimum is lowered it is the first code whose fingerprint reaches it |
| Tiny.TinyMinIsUtil | TinyPlay.cs:218-243 | on a valid board the device's minHash is Util's canonical key |
| Tiny.TinyCanonical | TinyPlay.cs:218-243 | the image under the kept code is the canonical board |
| Tiny.ListedSpec | TinyPlay.cs:493-590 | Lookup answers exactly the keys its tests list, with the move and result of a test for that key |
| Tiny.TinyPlay.constructor | TinyPlay.cs:16-40 | a new device has an empty nine-cell board and every register zero |
| Tiny.TinyPlay.Index | TinyPlay.cs:191-194 | index becomes col * 3 + row, nothing else changes |
| Tiny.TinyPlay.Deindex | TinyPlay.cs:184-188 | (col, row) become index divided by 3 and its remainder with C# division, nothing else changes |
| Tiny.TinyPlay.ApplyPerm | TinyPlay.cs:196-204 | (col, row) are moved by the symmetry minPerm, nothing else changes |
| Tiny.TinyPlay.InvertPerm | TinyPlay.cs:207-215 | (col, row) are moved back by minPerm, nothing else changes |
| Tiny.TinyPlay.ToMove | TinyPlay.cs:177-181 | index becomes the side to move, 1 or 2 from the parity of depth |
| Tiny.TinyPlay.DrawMove | TinyPlay.cs:163-173 | (col, row) become the cursor coordinates of the cell |
| Tiny.TinyPlay.DoMove | TinyPlay.cs:134-161 | with move -1 nothing changes; otherwise the side to move's piece goes on cell move, depth goes up by one and only the registers the routine uses change |
| Tiny.TinyPlay.MinHash | TinyPlay.cs:218-243 | minHash becomes the smallest image fingerprint and minPerm the first code reaching it, the board is untouched and the loop registers end as the loops leave them |
| Tiny.TinyPlay.ImageFingerprint | TinyPlay.cs:225-233 | result becomes the fingerprint of the board's image under minPerm |
| Tiny.TinyPlay.LineFingerprint | TinyPlay.cs:227-233 | the inner loop shifts the three cells of one line into result |
| Tiny.TinyPlay.CellStep | TinyPlay.cs:229-232 | one cell is shifted into result and (col, row) are restored |
| Tiny.TinyPlay.Lookup | TinyPlay.cs:482-591 | for a listed key move and result become the first test's; otherwise move is 0 and error is set |
| Tiny.TinyPlay.GetComputerMove | TinyPlay.cs:291-303 | the canonical key and code are found, the table's move for the key is mapped back through the code, and move ends as that cell of the board; depth is unchanged |
| Tiny.TinyPlay.GetMove | TinyPlay.cs:595-606 | the caller's nine cells are copied onto the device's board and the answer is the table's move for their key mapped back to the caller's cell, never asking to stop |
| Tiny.DoMoveKeepsDepth | TinyPlay.cs:144-160 | when depth counts the pieces the device's side to move is Util's ToMove, and after DoMove depth still counts them on a valid board |
| Tiny.TinyMoveBack | TinyPlay.cs:595-606 | on a valid listed board the device's cell holds what the canonical board holds at the table's move, and playing it is playing that move on the canonical board |
| Traversal.D | Util.cs:70 | the depth of a node is at most 9 |
| Traversal.Count | Util.cs:46-57 | every node counts at least itself |
| Traversal.Visit | Util.cs:144-152 | the walk calls the checker on the start node first and only on nodes of the graph |
| Traversal.VisitEdges | Util.cs:132-140 | every triple handed to the checker is a parent, one of its moves, and the child that move leads to |
| Traversal.CountIsFullVisit | Util.cs:46-57 | Count equals the number of calls of a walk whose checker always continues |
| Traversal.VisitStopped | Util.cs:144-152 | a checker that always stops sees only the start node |
| Traversal.EdgesRefused | Util.cs:132-140 | a checker that refuses everything sees exactly the start node's edges, in move order |
| Traversal.Present | Util.cs:134-137 | lists exactly the moves with a child, strictly ascending |

## Left out

- The Z3 solver is not modelled: `Context`, `MkAtMost`, `Check`, `CheckBoundedExpr` and `model.Evaluate`, together with the part of `FindOptimalGraph` that runs `FindEdge` with a bounded solver check (SolverZ3.cs:357-381). `FindEdge` takes the feasibility test as a parameter, and the constraint builders produce a `Formula` datatype in place of Z3 expressions.
- `SolverZ3.Parse` is not modelled: it reads Z3's printed model with regular expressions. `BestMove` and `GetNode` take integer keys directly.
- `SolverZ3.MakeStats` and `SolverZ3.Solve` are drivers that print or chain solver runs, and are not modelled.
- Console, cursor and drawing code is not modelled: `Draw.cs`, `Play.PlayGame`, `ConsolePlayer`, the progress and statistics lines of `Generate`, `ScoreGraph`, `ComputeMin` and `FindOptimalGraph`, and TinyPlay's `Play`, `DrawResult`, `DrawInitialBoard` and the cursor output of `DrawMove`. `Tiny.TinyPlay.DrawMove` keeps only its register updates.
- TinyPlay's private `GetMove()` (TinyPlay.cs:272), `GetHumanMove` and `RandomMove` are not modelled: they choose who moves and make random or keyboard moves. The public `GetMove(board)` is modelled as `Tiny.TinyPlay.GetMove`.
- File output is not modelled: `Misc.MakeTable`, `Misc.DumpMathematicaGraph`, and `Misc.DumpGraph`, whose body is compiled out.
- `Program.cs` is not part of this model. Only the `TableEntry` record is copied, as `Play.TableEntry`.
- `Util.Pct` is not modelled: it formats floating-point percentages.
- `Util.Loop` is an iterator over the nine (row, col) pairs. It is written out inline where it is used.
- `System.Random` is replaced by an oracle. `rand(k, n)` is the k-th value `Next(n)` returns, reduced modulo n. `TreePlayer` takes its random value `w` as a parameter. Which seed gives which stream is not modelled.
- Misc.Registry.Trial: models one iteration of `ComputeMin`'s endless seed loop. The loop itself never returns, so only the per-trial update of the best count and seed is stated.
- Object identity and aliasing of C# `Node` objects are replaced by arena indices. A node updated in place is a new value stored at the same index, so two names for one object are one index.
- The key and the re-oriented board of `MakeGraph` are computed together, in `TreeGen.GenerateTree.KeyFor`, before the dictionary lookup. The source re-orients only after a miss. A node value that is not registered is dropped, so no caller sees the difference.
- TreeGen.GenerateTree.ScoreGraph: requires a graph as `Generate` builds it (acyclic, every unscored node has a child). On other graphs the source's `while (!done)` loop may never end.
- Solver.FindEdge: requires `upperBound >= 1`. With a bound of 0 or below, the source's doubling never exceeds the bound, and the search can loop forever.
- Misc.Walk: requires the centre child to exist when `startCenter` is set. The source dereferences it and would throw; `ComputeMin` always starts at the empty board, which has one.
- Solver.MakeGraphExpressionAll: requires every best move to be a cell index, and the opening `startPos` to be below 9 at depth 0. Otherwise the source indexes `children` out of range and throws.
- Solver.MakeGraphExpressionSkips: requires the `Trace.Assert` that every followed move has a child; `Solver.GeneratedSkipReady` shows that it holds on a generated and scored graph.
- Play.AllPosPlayer.GetMove: requires the piece counts that `Util.ToMove` asserts.
- Tiny.TinyPlay.Lookup: the `Trace.Assert(false)` before `error = 1` is treated as non-fatal, so the model takes the error path.
- 32-bit integer overflow is not modelled. Every quantity of the core stays far below 2^31: fingerprints are below 3^9, and counts are bounded by the size of the game graph.
- Whole-game numeric facts are not stated as lemmas: node counts, leaf counts and the cover sizes the source's comments log. They need evaluation of the full state space.

## Findings

| source | as written | input that shows it | evidently intended | confidence | as-written member | corrected member |
|---|---|---|---|---|---|---|
| SolverZ3.cs:404-418 | the doubling loop multiplies `minSuccess` by 2 and gives up once it exceeds `upperBound`, without testing `upperBound` itself | `upperBound = 3`, test `x >= 3`: halving stops at 1, doubling tests 1 and 2, then reaches 4 and throws "all failed!?" although 3 passes | clamp the doubling to `upperBound`, so that a monotone test passing at `upperBound` always yields its threshold | not executed | Solver.OddBoundExample | Solver.FindEdgeClamped |
