/** Game-graph nodes (Node.cs). A node is a value; the graph is an arena of
    nodes in which a child is referred to by its position. */
module Nodes {
  import opened Util
  import opened Wrappers

  /** A position in the game graph.
      board: cells 0,1,2; children[m]: the node reached by playing cell m;
      score: minimax value, 1 / 0 / -1, or 3 while unscored;
      wins1, wins2, draws: leaf outcomes below this node;
      bestMoves: the moves that reach score; onMinPath: cover marking. */
  datatype Node = Node(board: seq<int>, children: seq<Option<nat>>, score: int,
                       wins1: int, wins2: int, draws: int,
                       bestMoves: seq<int>, onMinPath: bool)

  /** Score of a node that has not been scored yet. */
  const Unscored := 3

  /** The empty board. */
  function EmptyBoard(): (b: seq<int>)
    ensures ValidBoard(b) && Depth(b) == 0
  {
    var b := seq(9, _ => 0);
    EmptyBelowDepth(b, 9);
    b
  }

  lemma {:induction false} EmptyBelowDepth(b: seq<int>, n: nat)
    requires n <= |b| && forall i :: 0 <= i < n ==> b[i] == 0
    ensures NonEmptyBelow(b, n) == 0
  {
    if n > 0 {
      EmptyBelowDepth(b, n - 1);
    }
  }

  /** A node with the given board and every other field at its default:
      no children, unscored, zero counts, no best moves, not marked. */
  function Blank(board: seq<int>): (n: Node)
    ensures n.board == board && |n.children| == 9
    ensures forall m :: 0 <= m < 9 ==> n.children[m] == None
    ensures n.score == Unscored && n.wins1 == 0 && n.wins2 == 0 && n.draws == 0
    ensures n.bestMoves == [] && !n.onMinPath
  {
    Node(board, seq(9, _ => None), Unscored, 0, 0, 0, [], false)
  }

  /** `new Node()`. */
  function NewNode(): (n: Node)
    ensures n == Blank(EmptyBoard())
  {
    Blank(EmptyBoard())
  }

  /** Node.LeafCount. */
  function LeafCount(n: Node): int
  {
    n.wins1 + n.wins2 + n.draws
  }

  /** Node.Scored: some leaf outcome has been recorded. */
  predicate Scored(n: Node)
  {
    LeafCount(n) != 0
  }

  /** A fresh node is not scored. */
  lemma BlankUnscored(board: seq<int>)
    ensures !Scored(Blank(board)) && Blank(board).score == Unscored
  {
  }

  /** With non-negative counts, Scored means some count is positive. */
  lemma ScoredPositive(n: Node)
    requires n.wins1 >= 0 && n.wins2 >= 0 && n.draws >= 0
    ensures Scored(n) <==> n.wins1 > 0 || n.wins2 > 0 || n.draws > 0
  {
  }

  /** The indexer's getter, `node[row, col]`. */
  function Get(n: Node, row: int, col: int): int
    requires 0 <= Index(row, col) < |n.board|
  {
    n.board[Index(row, col)]
  }

  /** The indexer's setter. */
  function Set(n: Node, row: int, col: int, v: int): (n': Node)
    requires 0 <= Index(row, col) < |n.board|
    ensures |n'.board| == |n.board|
  {
    n.(board := n.board[Index(row, col) := v])
  }

  /** The setter writes exactly cell col + 3 * row and nothing else. */
  lemma SetGet(n: Node, row: int, col: int, v: int, row': int, col': int)
    requires 0 <= Index(row, col) < |n.board| && 0 <= Index(row', col') < |n.board|
    ensures Get(Set(n, row, col, v), row', col') ==
            (if Index(row', col') == Index(row, col) then v else Get(n, row', col'))
    ensures Set(n, row, col, v).(board := n.board) == n
  {
  }

  /** Node.ClonePieces: a fresh node whose nine cells start with the cells of n. */
  method ClonePieces(n: Node) returns (c: Node)
    requires |n.board| <= 9
    ensures c == Blank(c.board) && |c.board| == 9
    ensures c.board[..|n.board|] == n.board
    ensures forall i :: |n.board| <= i < 9 ==> c.board[i] == 0
  {
    var b := EmptyBoard();
    var i := 0;
    while i < |n.board|
      invariant 0 <= i <= |n.board| && |b| == 9
      invariant b[..i] == n.board[..i]
      invariant forall j :: i <= j < 9 ==> b[j] == 0
    {
      b := b[i := n.board[i]];
      i := i + 1;
    }
    c := Blank(b);
  }

  /** Node.ToMove. */
  function NodeToMove(n: Node): (p: int)
    requires CountOf(n.board, Player1) == CountOf(n.board, Player2) ||
             CountOf(n.board, Player1) - 1 == CountOf(n.board, Player2)
    ensures p == Player1 || p == Player2
  {
    ToMove(n.board)
  }

  /** Node.PermuteBoard: replaces the board by its image; no other field changes. */
  function PermuteNode(n: Node, perm: int): (n': Node)
    requires |n.board| == 9
    ensures n'.board == PermutedBoard(perm, n.board)
    ensures n'.(board := n.board) == n
  {
    n.(board := PermutedBoard(perm, n.board))
  }

  // ---------------------------------------------------------------------------
  // Node.BoardResult

  /** ThreeInRow: cells (x, y), (x+dx, y+dy), (x+2dx, y+2dy) equal and non-empty. */
  predicate ThreeInRow(b: seq<int>, x: int, y: int, dx: int, dy: int)
    requires |b| == 9
    requires 0 <= Index(x, y) < 9 && 0 <= Index(x + dx, y + dy) < 9
    requires 0 <= Index(x + 2 * dx, y + 2 * dy) < 9
  {
    var (v1, v2, v3) := (b[Index(x, y)], b[Index(x + dx, y + dy)], b[Index(x + 2 * dx, y + 2 * dy)]);
    v1 == v2 && v2 == v3 && v1 != 0
  }

  /** Every cell is occupied. */
  predicate Full(b: seq<int>)
  {
    forall i :: 0 <= i < |b| ==> b[i] != 0
  }

  /** The checks after the row/column loop: both diagonals, then fullness. */
  function DiagonalResult(b: seq<int>): int
    requires |b| == 9
  {
    if ThreeInRow(b, 0, 0, 1, 1) then b[Index(0, 0)]
    else if ThreeInRow(b, 2, 0, -1, 1) then b[Index(2, 0)]
    else if Full(b) then 0
    else 3
  }

  /** The result from pass i of the row/column loop on. */
  function ResultFrom(b: seq<int>, i: nat): int
    requires |b| == 9 && i <= 3
    decreases 3 - i
  {
    if i == 3 then DiagonalResult(b)
    else if ThreeInRow(b, i, 0, 0, 1) then b[Index(i, 0)]
    else if ThreeInRow(b, 0, i, 1, 0) then b[Index(0, i)]
    else ResultFrom(b, i + 1)
  }

  lemma {:induction false} ResultFromCodes(b: seq<int>, i: nat)
    requires ValidBoard(b) && i <= 3
    ensures ResultFrom(b, i) in {0, 1, 2, 3}
    decreases 3 - i
  {
    if i < 3 {
      ResultFromCodes(b, i + 1);
    }
  }

  /** What Node.BoardResult returns for a board. */
  function ResultOf(b: seq<int>): int
    requires |b| == 9
  {
    ResultFrom(b, 0)
  }

  /** Node.BoardResult: 1 or 2 for the owner of a completed line, checked row i
      then column i for i = 0, 1, 2, then the two diagonals; 0 for a full board
      with no line; 3 when play goes on. */
  method BoardResult(node: Node) returns (r: int)
    requires |node.board| == 9
    ensures r == ResultOf(node.board)
  {
    var b := node.board;
    for i := 0 to 3
      invariant ResultFrom(b, i) == ResultFrom(b, 0)
    {
      if ThreeInRow(b, i, 0, 0, 1) {
        return Get(node, i, 0);
      }
      if ThreeInRow(b, 0, i, 1, 0) {
        return Get(node, 0, i);
      }
    }
    if ThreeInRow(b, 0, 0, 1, 1) {
      return Get(node, 0, 0);
    }
    if ThreeInRow(b, 2, 0, -1, 1) {
      return Get(node, 2, 0);
    }
    var full := forall i :: 0 <= i < |b| ==> b[i] != 0;
    if full {
      return 0;
    }
    return 3;
  }

  /** Row i and column i of BoardResult's loop are lines i and 3 + i of
      Util.runs, starting at the same cell. */
  lemma RowColumnRuns(b: seq<int>, i: nat)
    requires |b| == 9 && i < 3
    ensures ThreeInRow(b, i, 0, 0, 1) <==> RunComplete(b, i)
    ensures ThreeInRow(b, 0, i, 1, 0) <==> RunComplete(b, 3 + i)
    ensures Runs[3 * i] == Index(i, 0) && Runs[3 * (3 + i)] == Index(0, i)
  {
    RowRun(b, i);
    ColumnRun(b, i);
  }

  /** Row i of BoardResult's loop is line i of Util.runs. */
  lemma RowRun(b: seq<int>, i: nat)
    requires |b| == 9 && i < 3
    ensures Runs[3 * i] == Index(i, 0) && Runs[3 * i + 1] == Index(i, 1) && Runs[3 * i + 2] == Index(i, 2)
    ensures ThreeInRow(b, i, 0, 0, 1) <==> RunComplete(b, i)
  {
    RowCells(i);
  }

  lemma RowCells(i: nat)
    requires i < 3
    ensures Runs[3 * i] == Index(i, 0) && Runs[3 * i + 1] == Index(i, 1) && Runs[3 * i + 2] == Index(i, 2)
  {
    if i == 0 {
      assert Runs[0] == 0 && Runs[1] == 1 && Runs[2] == 2;
    } else if i == 1 {
      assert Runs[3] == 3 && Runs[4] == 4 && Runs[5] == 5;
    } else {
      assert Runs[6] == 6 && Runs[7] == 7 && Runs[8] == 8;
    }
  }

  /** Column i of BoardResult's loop is line 3 + i of Util.runs. */
  lemma ColumnRun(b: seq<int>, i: nat)
    requires |b| == 9 && i < 3
    ensures Runs[3 * (3 + i)] == Index(0, i) && Runs[3 * (3 + i) + 1] == Index(1, i) && Runs[3 * (3 + i) + 2] == Index(2, i)
    ensures ThreeInRow(b, 0, i, 1, 0) <==> RunComplete(b, 3 + i)
  {
    ColumnCells(i);
  }

  lemma ColumnCells(i: nat)
    requires i < 3
    ensures Runs[3 * (3 + i)] == Index(0, i) && Runs[3 * (3 + i) + 1] == Index(1, i) && Runs[3 * (3 + i) + 2] == Index(2, i)
  {
    var columns := Runs[9..18];
    assert columns == [0, 3, 6, 1, 4, 7, 2, 5, 8];
    assert Runs[3 * (3 + i)] == columns[3 * i];
  }

  /** BoardResult's two diagonals are lines 6 and 7 of Util.runs. */
  lemma DiagonalRuns(b: seq<int>)
    requires |b| == 9
    ensures ThreeInRow(b, 0, 0, 1, 1) <==> RunComplete(b, 6)
    ensures ThreeInRow(b, 2, 0, -1, 1) <==> RunComplete(b, 7)
    ensures Runs[3 * 6] == Index(0, 0)
    ensures ThreeInRow(b, 2, 0, -1, 1) ==> b[Runs[3 * 7]] == b[Index(2, 0)]
  {
  }

  /** One pass of the row/column loop: row i first, then column i, then the
      passes after it. */
  lemma ResultFromStep(b: seq<int>, i: nat)
    requires |b| == 9 && i < 3
    ensures RunComplete(b, i) ==> ResultFrom(b, i) == b[Runs[3 * i]]
    ensures !RunComplete(b, i) && RunComplete(b, 3 + i) ==> ResultFrom(b, i) == b[Runs[3 * (3 + i)]]
    ensures !RunComplete(b, i) && !RunComplete(b, 3 + i) ==> ResultFrom(b, i) == ResultFrom(b, i + 1)
  {
    RowColumnRuns(b, i);
  }

  /** Lines i and 3 + i together with the lines after them. */
  lemma NoRowColStep(b: seq<int>, i: nat)
    requires |b| == 9 && i < 3
    ensures NoRowColFrom(b, i) <==> !RunComplete(b, i) && !RunComplete(b, 3 + i) && NoRowColFrom(b, i + 1)
  {
  }

  lemma {:induction false} FullBelow(b: seq<int>, n: nat)
    requires n <= |b|
    ensures (forall i :: 0 <= i < n ==> b[i] != 0) <==> NonEmptyBelow(b, n) == n
  {
    if n > 0 {
      FullBelow(b, n - 1);
    }
  }

  /** Full is Depth reaching the board size. */
  lemma FullDepth(b: seq<int>)
    ensures Full(b) <==> Depth(b) == |b|
  {
    FullBelow(b, |b|);
  }

  /** Some line of Util.runs is complete and owned by p. */
  predicate Won(b: seq<int>, p: int)
    requires |b| == 9
  {
    exists k :: 0 <= k < 8 && RunComplete(b, k) && b[Runs[3 * k]] == p
  }

  /** No row or column with index at least i is complete. */
  predicate NoRowColFrom(b: seq<int>, i: int)
    requires |b| == 9 && 0 <= i <= 3
  {
    (forall j :: i <= j < 3 ==> !RunComplete(b, j)) && (forall j :: 3 + i <= j < 6 ==> !RunComplete(b, j))
  }

  lemma {:induction false} ResultFromCases(b: seq<int>, i: nat)
    requires |b| == 9 && i <= 3
    ensures NoRowColFrom(b, i) ==> ResultFrom(b, i) == DiagonalResult(b)
    ensures !NoRowColFrom(b, i) ==> Won(b, ResultFrom(b, i))
    decreases 3 - i
  {
    if i < 3 {
      ResultFromStep(b, i);
      NoRowColStep(b, i);
      ResultFromCases(b, i + 1);
    }
  }

  /** The owner of a completed line on a valid board is a player. */
  lemma WonByPlayer(b: seq<int>, p: int)
    requires ValidBoard(b) && Won(b, p)
    ensures p == Player1 || p == Player2
  {
    RunsInRange();
  }

  /** What BoardResult's codes mean on a valid board: a winner only when that
      player owns a completed line, 0 for a full board without one, 3 for an
      unfinished board without one. */
  lemma BoardResultMeaning(b: seq<int>)
    requires ValidBoard(b)
    ensures ResultOf(b) == Player1 || ResultOf(b) == Player2 ==> Won(b, ResultOf(b))
    ensures ResultOf(b) == 0 <==> NoRunIn(b, 0, 8) && Depth(b) == 9
    ensures ResultOf(b) == 3 <==> NoRunIn(b, 0, 8) && Depth(b) < 9
    ensures ResultOf(b) in {0, 1, 2, 3}
  {
    if NoRunIn(b, 0, 8) {
      NoLineResult(b);
    } else {
      LineResult(b);
    }
  }

  /** Without a completed line BoardResult reports fullness. */
  lemma NoLineResult(b: seq<int>)
    requires ValidBoard(b) && NoRunIn(b, 0, 8)
    ensures ResultOf(b) == if Depth(b) == 9 then 0 else 3
  {
    FullDepth(b);
    ResultFromCases(b, 0);
    DiagonalRuns(b);
    assert NoRowColFrom(b, 0);
    assert !RunComplete(b, 6) && !RunComplete(b, 7);
  }

  /** With a completed line BoardResult names a player owning one. */
  lemma LineResult(b: seq<int>)
    requires ValidBoard(b) && !NoRunIn(b, 0, 8)
    ensures (ResultOf(b) == Player1 || ResultOf(b) == Player2) && Won(b, ResultOf(b))
  {
    ResultFromCases(b, 0);
    if NoRowColFrom(b, 0) {
      DiagonalRuns(b);
      assert RunComplete(b, 6) || RunComplete(b, 7);
    }
    WonByPlayer(b, ResultOf(b));
  }

  /** The two terminal checks agree on a valid board: Util.Outcome is 9 on a
      full board and 0 exactly when BoardResult says play goes on; a line code
      means BoardResult names a winner. */
  lemma OutcomeAgreesWithBoardResult(b: seq<int>)
    requires ValidBoard(b)
    ensures Depth(b) == 9 ==> OutcomeCode(b) == 9 && ResultOf(b) != 3
    ensures OutcomeCode(b) == 0 <==> ResultOf(b) == 3
    ensures OutcomeCode(b) != 0 && OutcomeCode(b) != 9 ==>
              ResultOf(b) == Player1 || ResultOf(b) == Player2
  {
    BoardResultMeaning(b);
    OutcomeMeaning(b);
    FirstRunSpec(b, 0);
  }

  // ---------------------------------------------------------------------------
  // Keys

  /** The canonical key of a position: the smallest fingerprint of its eight
      images (KeyIsMinHash). */
  function Key(n: Node): int
    requires |n.board| == 9
  {
    MinImage(n.board, 8)
  }

  lemma KeyIsMinHash(n: Node)
    requires |n.board| == 9
    ensures Key(n) == MinHash(n.board).minHash
  {
  }

  /** Util.MinHash(n.board) as its callers use it: the position's own and its
      canonical fingerprint. */
  method Fingerprints(n: Node) returns (hash: int, minHash: int)
    requires |n.board| == 9
    ensures hash == HashOf(n.board) && minHash == Key(n)
  {
    var t := MinHash(n.board);
    KeyIsMinHash(n);
    hash, minHash := t.hash, t.minHash;
  }

  // ---------------------------------------------------------------------------
  // Arenas

  /** Nine cells and nine child slots. */
  predicate Shaped(n: Node)
  {
    |n.board| == 9 && |n.children| == 9
  }

  /** Every node is shaped and every child index is inside the arena. */
  predicate Closed(nodes: seq<Node>)
  {
    forall i :: 0 <= i < |nodes| ==> Shaped(nodes[i]) && ChildrenIn(nodes[i], |nodes|)
  }

  predicate ChildrenIn(n: Node, size: nat)
  {
    forall m :: 0 <= m < |n.children| && n.children[m].Some? ==> n.children[m].value < size
  }

  /** A child has exactly one more piece than its parent. */
  predicate Ranked(nodes: seq<Node>)
    requires Closed(nodes)
  {
    forall i, m :: 0 <= i < |nodes| && 0 <= m < 9 && nodes[i].children[m].Some? ==>
      Depth(nodes[nodes[i].children[m].value].board) == Depth(nodes[i].board) + 1
  }

  /** A ranked, closed arena: the graph is acyclic with depth as its measure. */
  predicate Graph(nodes: seq<Node>)
  {
    Closed(nodes) && Ranked(nodes)
  }

  /** Every best move is a cell whose child exists. */
  predicate BestPresent(g: seq<Node>)
  {
    forall j, k :: 0 <= j < |g| && 0 <= k < |g[j].bestMoves| ==>
      0 <= g[j].bestMoves[k] < |g[j].children| && g[j].children[g[j].bestMoves[k]].Some?
  }
}
