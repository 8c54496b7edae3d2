/** Building the game graph and scoring it by backward induction
    (GenerateTree.cs). The dictionary of registered nodes is an arena `nodes`
    in registration order, the key of each entry in `keys`, and the lookup map
    `index` from key to position. */
module TreeGen {
  import opened Util
  import opened Nodes
  import opened Wrappers
  import opened Scoring

  /** The player to move on a board: player 1 after an even number of moves. */
  function Mover(b: seq<int>): (p: int)
    ensures p == Player1 || p == Player2
  {
    if Depth(b) % 2 == 0 then Player1 else Player2
  }

  /** The board MakeGraph registers for an examined board: in method 2 the image
      with the smallest fingerprint, otherwise the board itself. */
  function Stored(mode: int, b: seq<int>): (s: seq<int>)
    requires |b| == 9
    ensures |s| == 9
  {
    if mode == 2 then PermutedBoard(MinHash(b).minPerm, b) else b
  }

  /** The key of the j-th registered node: the examination counter in method 0,
      the fingerprint in method 1, the canonical key in method 2. */
  predicate KeyFits(mode: int, j: nat, key: int, b: seq<int>)
    requires |b| == 9
  {
    (mode == 0 ==> key == j + 1) &&
    (mode == 1 ==> key == HashOf(b)) &&
    (mode == 2 ==> key == HashOf(b) && Canonical(b))
  }

  /** Node j is a finished expansion: a terminal position is scored for its
      winner (or as a draw) and has no children; any other position is unscored
      and has a child exactly at each empty cell, namely the registered node of
      the board with the mover's piece on that cell. */
  predicate Expanded(mode: int, nodes: seq<Node>, j: nat)
    requires j < |nodes|
  {
    var n := nodes[j];
    var b := n.board;
    Shaped(n) && ValidBoard(b) && ChildrenIn(n, |nodes|) &&
    var r := ResultOf(b);
    (r == Player1 ==> n == Blank(b).(score := 1, wins1 := 1)) &&
    (r == Player2 ==> n == Blank(b).(score := -1, wins2 := 1)) &&
    (r == 0 ==> n == Blank(b).(score := 0, draws := 1)) &&
    (r == 3 ==> n == Blank(b).(children := n.children) &&
                forall m :: 0 <= m < 9 ==>
                  (n.children[m].Some? <==> b[m] == 0) &&
                  (n.children[m].Some? ==>
                     n.children[m].value < |nodes| &&
                     nodes[n.children[m].value].board == Stored(mode, b[m := Mover(b)])))
  }

  /** b starts with a. */
  predicate Extends(a: seq<Node>, b: seq<Node>)
  {
    |a| <= |b| && forall j :: 0 <= j < |a| ==> b[j] == a[j]
  }

  /** Nodes lo.. are finished expansions. */
  predicate ExpandedFrom(mode: int, nodes: seq<Node>, lo: nat)
  {
    forall j :: lo <= j < |nodes| ==> Expanded(mode, nodes, j)
  }

  /** Every registered entry is a shaped valid board whose children lie in the
      arena and whose key fits the method. */
  predicate Entry(mode: int, j: nat, key: int, n: Node, size: nat)
  {
    Shaped(n) && ValidBoard(n.board) && ChildrenIn(n, size) && KeyFits(mode, j, key, n.board)
  }

  /** Expanded only looks at the node itself and the boards of other nodes:
      it survives appending nodes. */
  lemma ExpandedGrow(mode: int, a: seq<Node>, b: seq<Node>, lo: nat)
    requires Extends(a, b)
    requires forall j :: lo <= j < |a| ==> Expanded(mode, a, j)
    ensures forall j :: lo <= j < |a| ==> Expanded(mode, b, j)
  {
    forall j | lo <= j < |a|
      ensures Expanded(mode, b, j)
    {
      assert Expanded(mode, a, j);
      assert b[j] == a[j];
      assert forall k :: 0 <= k < |a| ==> b[k] == a[k];
    }
  }

  /** ... and changing the fields other than the board of a node before lo. */
  lemma ExpandedReplace(mode: int, a: seq<Node>, b: seq<Node>, id: nat, lo: nat)
    requires id < lo && id < |a| == |b| && b == a[id := b[id]] && b[id].board == a[id].board
    requires forall j :: lo <= j < |a| ==> Expanded(mode, a, j)
    ensures forall j :: lo <= j < |b| ==> Expanded(mode, b, j)
  {
    forall j | lo <= j < |b|
      ensures Expanded(mode, b, j)
    {
      assert Expanded(mode, a, j);
      assert forall k :: 0 <= k < |a| ==> b[k].board == a[k].board;
    }
  }

  /** The dictionary is consistent: keys and index are inverse, and every
      entry fits its key. */
  predicate Consistent(mode: int, nodes: seq<Node>, keys: seq<int>, index: map<int, nat>)
  {
    0 <= mode <= 2 &&
    |keys| == |nodes| &&
    (forall k :: k in index ==> index[k] < |keys| && keys[index[k]] == k) &&
    (forall j :: 0 <= j < |keys| ==> keys[j] in index && index[keys[j]] == j) &&
    (forall j :: 0 <= j < |nodes| ==> Entry(mode, j, keys[j], nodes[j], |nodes|))
  }

  /** In method 0 every examined node was registered. */
  predicate Counted(mode: int, nodes: seq<Node>, nodesExamined: int)
  {
    mode == 0 ==> nodesExamined == |nodes|
  }

  class GenerateTree {
    /** Calls of MakeGraph so far. */
    var nodesExamined: int
    /** The registered nodes, in the order they were added. */
    var nodes: seq<Node>
    /** keys[j] is the dictionary key of nodes[j]. */
    var keys: seq<int>
    /** The dictionary lookup: key to position in nodes. */
    var index: map<int, nat>
    /** Position of the root in nodes, once Generate has built the graph. */
    var startNode: nat
    /** The source's `method` field: 0 full tree, 1 hashed, 2 reduced by symmetry. */
    var mode: int

    constructor ()
      ensures nodesExamined == 0 && nodes == [] && keys == [] && index == map[]
      ensures startNode == 0 && mode == 0
    {
      nodesExamined := 0;
      nodes := [];
      keys := [];
      index := map[];
      startNode := 0;
      mode := 0;
    }

    /** Every field but the node list, which scoring leaves alone. */
    function Bookkeeping(): (seq<int>, map<int, nat>, int, int, nat)
      reads this
    {
      (keys, index, mode, nodesExamined, startNode)
    }

    /** GenerateTree.Generate: rejects a method outside 0..2 before touching any
        field; otherwise resets the dictionary and expands the empty board with
        player 1 to move; the root is the first registered node. */
    method Generate(m: int) returns (r: Result<nat>)
      modifies this
      ensures r.Err? <==> !(0 <= m <= 2)
      ensures r.Err? ==> r.message == "Method should be in 0-2" && unchanged(this)
      ensures r.Ok? ==> mode == m && r.value == startNode == 0 && Built(mode, nodes, keys, index, nodesExamined)
    {
      if !(0 <= m <= 2) {
        return Err("Method should be in 0-2");
      }
      EmptyCanonical(m);
      StartFacts(m);
      mode := m;
      nodes := [];
      keys := [];
      index := map[];
      nodesExamined := 0;
      var root := MakeGraph(NewNode(), Player1);
      RootFacts(m, nodes, keys, index, nodesExamined);
      startNode := root;
      return Ok(root);
    }

    /** Dictionary.Add(key, n) of a fresh, childless node. */
    method Register(n: Node, key: int) returns (id: nat)
      requires Consistent(mode, nodes, keys, index) && Entry(mode, |nodes|, key, n, |nodes| + 1) && key !in index
      modifies this
      ensures Consistent(mode, nodes, keys, index) && id == |old(nodes)|
      ensures nodes == old(nodes) + [n] && keys == old(keys) + [key] && index == old(index)[key := id]
      ensures nodes[..id] == old(nodes)
      ensures mode == old(mode) && nodesExamined == old(nodesExamined) && startNode == old(startNode)
    {
      id := |nodes|;
      nodes := nodes + [n];
      keys := keys + [key];
      index := index[key := id];
    }

    /** An update of the fields of registered node id other than its board. */
    method Replace(id: nat, n: Node)
      requires Consistent(mode, nodes, keys, index) && id < |nodes| && n.board == nodes[id].board
      requires Shaped(n) && ChildrenIn(n, |nodes|)
      modifies this
      ensures Consistent(mode, nodes, keys, index) && nodes == old(nodes)[id := n]
      ensures nodes[..id] == old(nodes)[..id]
      ensures keys == old(keys) && index == old(index) && mode == old(mode)
      ensures nodesExamined == old(nodesExamined) && startNode == old(startNode)
    {
      nodes := nodes[id := n];
    }

    /** GenerateTree.MakeGraph: counts the examination, registers node under
        its key (method 2 first re-orients it to its canonical image) unless the
        key is already registered, scores a terminal position, and expands every
        empty cell of any other with the mover's piece. */
    method MakeGraph(node: Node, toMove: int) returns (id: nat)
      requires Consistent(mode, nodes, keys, index) && Counted(mode, nodes, nodesExamined)
      requires node == Blank(node.board) && ValidBoard(node.board)
      requires toMove == Mover(node.board)
      modifies this
      ensures Consistent(mode, nodes, keys, index) && Counted(mode, nodes, nodesExamined) && mode == old(mode) && startNode == old(startNode)
      ensures Extends(old(nodes), nodes) && ExpandedFrom(mode, nodes, |old(nodes)|)
      ensures id < |nodes| && nodes[id].board == Stored(mode, node.board)
      ensures id < |old(nodes)| ==>
                mode != 0 && unchanged(this`nodes, this`keys, this`index) &&
                nodesExamined == old(nodesExamined) + 1
      ensures id >= |old(nodes)| ==> id == |old(nodes)|
      decreases CountOf(node.board, 0), 4
    {
      var key, n := KeyFor(node);
      if mode != 0 && key in index {
        id := Revisit(node, key);
      } else {
        id := Miss(node, n, key, toMove);
      }
    }

    /** The key GenerateTree.MakeGraph looks up for node once it has counted
        the examination, and the node it registers on a miss: the new count in
        method 0, the fingerprint in method 1, the canonical key and the
        canonical image in method 2. */
    method KeyFor(node: Node) returns (key: int, n: Node)
      requires |node.board| == 9
      ensures mode == 0 ==> key == nodesExamined + 1
      ensures mode == 1 ==> key == MinHash(node.board).hash
      ensures mode == 2 ==> key == MinHash(node.board).minHash
      ensures n == node.(board := Stored(mode, node.board))
    {
      n := node;
      if mode != 0 {
        var t := MinHash(n.board);
        key := if mode == 2 then t.minHash else t.hash;
        if mode == 2 {
          n := PermuteNode(n, t.minPerm);
        }
      } else {
        key := nodesExamined + 1;
      }
    }

    /** GenerateTree.MakeGraph on a hit: the examination is counted and the
        registered node is returned; nothing else changes. */
    method Revisit(node: Node, key: int) returns (id: nat)
      requires Consistent(mode, nodes, keys, index) && 1 <= mode <= 2 && ValidBoard(node.board)
      requires mode == 1 ==> key == MinHash(node.board).hash
      requires mode == 2 ==> key == MinHash(node.board).minHash
      requires key in index
      modifies this
      ensures unchanged(this`nodes, this`keys, this`index, this`mode, this`startNode)
      ensures nodesExamined == old(nodesExamined) + 1
      ensures id < |nodes| && nodes[id].board == Stored(mode, node.board)
    {
      KeyHit(mode, nodes, keys, index, node.board, key);
      id := index[key];
      nodesExamined := nodesExamined + 1;
    }

    /** GenerateTree.MakeGraph on a miss: the examination is counted, then the
        (re-oriented) node is added under its fresh key and expanded. */
    method Miss(node: Node, n: Node, key: int, toMove: int) returns (id: nat)
      requires Consistent(mode, nodes, keys, index) && Counted(mode, nodes, nodesExamined)
      requires node == Blank(node.board) && ValidBoard(node.board) && toMove == Mover(node.board)
      requires mode == 1 ==> key == MinHash(node.board).hash
      requires mode == 2 ==> key == MinHash(node.board).minHash
      requires mode != 0 ==> key !in index
      requires mode == 0 ==> key == nodesExamined + 1
      requires n == node.(board := Stored(mode, node.board))
      modifies this
      ensures Consistent(mode, nodes, keys, index) && Counted(mode, nodes, nodesExamined) && mode == old(mode) && startNode == old(startNode)
      ensures Extends(old(nodes), nodes) && ExpandedFrom(mode, nodes, |old(nodes)|)
      ensures id == |old(nodes)| && id < |nodes| && nodes[id].board == Stored(mode, node.board)
      decreases CountOf(node.board, 0), 3
    {
      FreshEntry(mode, nodes, keys, index, node.board, key);
      nodesExamined := nodesExamined + 1;
      id := AddFresh(n, key, toMove);
    }

    /** The part of GenerateTree.MakeGraph after a miss: Dictionary.Add of the
        (re-oriented) node, then scoring of a terminal position or expansion of
        any other. */
    method AddFresh(n: Node, key: int, toMove: int) returns (id: nat)
      requires Consistent(mode, nodes, keys, index) && (mode == 0 ==> nodesExamined == |nodes| + 1)
      requires Entry(mode, |nodes|, key, n, |nodes| + 1) && key !in index
      requires n == Blank(n.board) && toMove == Mover(n.board)
      modifies this
      ensures Consistent(mode, nodes, keys, index) && Counted(mode, nodes, nodesExamined) && mode == old(mode) && startNode == old(startNode)
      ensures id == |old(nodes)| && |nodes| > id && Extends(old(nodes), nodes) && nodes[id].board == n.board
      ensures ExpandedFrom(mode, nodes, id)
      decreases CountOf(n.board, 0), 2
    {
      id := Register(n, key);
      var result := BoardResult(n);
      ResultFromCodes(n.board, 0);
      if result == Player1 || result == Player2 || result == 0 {
        Replace(id, Terminal(n, result));
        TerminalExpanded(mode, nodes, id);
        return;
      }
      ExpandMoves(id, n, toMove);
    }

    /** The loop of GenerateTree.MakeGraph over the cells of a registered,
        non-terminal node id: each empty cell gets the child reached by placing
        toMove's piece there. */
    method ExpandMoves(id: nat, n: Node, toMove: int)
      requires Consistent(mode, nodes, keys, index) && Counted(mode, nodes, nodesExamined) && id == |nodes| - 1 && nodes[id] == n
      requires n == Blank(n.board) && ValidBoard(n.board) && toMove == Mover(n.board)
      requires ResultOf(n.board) == 3
      modifies this
      ensures Consistent(mode, nodes, keys, index) && Counted(mode, nodes, nodesExamined) && mode == old(mode) && startNode == old(startNode)
      ensures |nodes| > id && nodes[..id] == old(nodes[..id])
      ensures nodes[id].board == n.board
      ensures forall j :: id <= j < |nodes| ==> Expanded(mode, nodes, j)
      decreases CountOf(n.board, 0), 1
    {
      ghost var prefix := nodes[..id];
      ghost var fixed := (mode, startNode);
      ExpandingStart(id, n, toMove);
      var move := 0;
      while move < 9
        invariant 0 <= move <= 9 && (mode, startNode) == fixed
        invariant Expanding(id, n, toMove, move, prefix)
      {
        ExpandCell(id, n, toMove, move, prefix);
        move := move + 1;
      }
      ExpandingDone(id, n, toMove, prefix);
    }

    /** Before the first cell, no child is set yet. */
    lemma ExpandingStart(id: nat, n: Node, toMove: int)
      requires Consistent(mode, nodes, keys, index) && Counted(mode, nodes, nodesExamined) && id == |nodes| - 1 && nodes[id] == n
      requires n == Blank(n.board) && ValidBoard(n.board) && toMove == Mover(n.board)
      ensures Expanding(id, n, toMove, 0, nodes[..id])
    {
    }

    /** After the last cell, node id is expanded too. */
    lemma ExpandingDone(id: nat, n: Node, toMove: int, prefix: seq<Node>)
      requires Expanding(id, n, toMove, 9, prefix) && ResultOf(n.board) == 3
      ensures Consistent(mode, nodes, keys, index) && Counted(mode, nodes, nodesExamined)
      ensures |nodes| > id && nodes[..id] == prefix && nodes[id].board == n.board
      ensures forall j :: id <= j < |nodes| ==> Expanded(mode, nodes, j)
    {
      assert Entry(mode, id, keys[id], nodes[id], |nodes|);
      CellsDone(mode, nodes, id, n, toMove, prefix);
    }

    /** The state of GenerateTree.MakeGraph's loop over the cells of node id
        before cell move: the dictionary is consistent, the nodes before id
        are untouched, node id has its children for the cells before move, and
        every node after id is expanded. */
    ghost predicate Expanding(id: nat, n: Node, toMove: int, move: nat, prefix: seq<Node>)
      reads this
    {
      Consistent(mode, nodes, keys, index) && Counted(mode, nodes, nodesExamined) &&
      ExpandingAt(mode, nodes, id, n, toMove, move, prefix)
    }

    /** One pass of the loop of GenerateTree.MakeGraph: for an empty cell, the
        child reached by placing toMove's piece there becomes child move. */
    method ExpandCell(id: nat, n: Node, toMove: int, move: nat, ghost prefix: seq<Node>)
      requires move < 9 && Expanding(id, n, toMove, move, prefix)
      modifies this
      ensures Expanding(id, n, toMove, move + 1, prefix)
      ensures mode == old(mode) && startNode == old(startNode)
      decreases CountOf(n.board, 0), 0
    {
      if n.board[move] == 0 {
        var b2 := ClonePieces(nodes[id]);
        assert b2.board == n.board;
        b2 := b2.(board := b2.board[move := toMove]);
        DepthUpdate(n.board, move, toMove);
        MoverUpdate(n.board, move, toMove);
        ghost var before := nodes;
        var c := MakeGraph(b2, NextPlayer(toMove));
        CellAdded(mode, before, nodes, id, n, toMove, move, prefix, c);
        Replace(id, nodes[id].(children := nodes[id].children[move := Some(c)]));
      } else {
        SoFarSkip(mode, nodes, id, n.board, toMove, move);
      }
    }

    /** GenerateTree.ScoreGraph: passes over the registered nodes in order until
        a pass updates none; an unscored node whose non-null children are all
        scored gets their summed counters and then SelectBest. On a ready graph
        the passes end with every node in its final form. */
    method ScoreGraph()
      requires ScoreReady(nodes)
      modifies this
      ensures nodes == Solved(old(nodes))
      ensures forall j :: 0 <= j < |nodes| ==> Scored(nodes[j])
      ensures BestPresent(old(nodes)) ==> BestPresent(nodes)
      ensures ScoresInRange(old(nodes)) ==>
                ScoresInRange(nodes) &&
                forall j :: 0 <= j < |nodes| && !Scored(old(nodes)[j]) ==> nodes[j].bestMoves != []
      ensures Bookkeeping() == old(Bookkeeping())
    {
      ghost var g := nodes;
      var done := false;
      while !done
        invariant Progress(g, nodes) && Graph(nodes)
        invariant done ==> StuckBelow(nodes, |nodes|)
        invariant Bookkeeping() == old(Bookkeeping())
        decreases UnscoredBelow(nodes, |nodes|) + (if done then 0 else 1)
      {
        var updated := ScorePass(g);
        done := updated == 0;
      }
      ProgressDone(g, nodes);
      if BestPresent(g) {
        SolvedBestPresent(g);
      }
      if ScoresInRange(g) {
        BestNonEmpty(g);
      }
    }

    /** One pass of GenerateTree.ScoreGraph over the registered nodes in
        order, counting the nodes it scores; a pass that scores none leaves
        every node stuck. */
    method ScorePass(ghost g: seq<Node>) returns (updated: nat)
      requires ScoreReady(g) && Progress(g, nodes) && Graph(nodes)
      modifies this
      ensures Progress(g, nodes) && Graph(nodes)
      ensures UnscoredBelow(nodes, |nodes|) + updated == UnscoredBelow(old(nodes), |old(nodes)|)
      ensures updated == 0 ==> nodes == old(nodes) && StuckBelow(nodes, |nodes|)
      ensures Bookkeeping() == old(Bookkeeping())
    {
      ghost var start := nodes;
      updated := 0;
      var j := 0;
      while j < |nodes|
        invariant 0 <= j <= |nodes| == |g|
        invariant Progress(g, nodes) && Graph(nodes)
        invariant UnscoredBelow(nodes, |nodes|) + updated == UnscoredBelow(start, |start|)
        invariant updated == 0 ==> nodes == start && StuckBelow(start, j)
        invariant Bookkeeping() == old(Bookkeeping())
      {
        var changed := ScoreNode(g, j);
        if changed {
          updated := updated + 1;
        } else if updated == 0 {
          StuckBelowStep(start, j);
        }
        j := j + 1;
      }
    }

    /** One iteration of the pass of GenerateTree.ScoreGraph: node j, if it is
        unscored and all its non-null children are scored, gets their summed
        counters and then SelectBest; otherwise nothing changes and j is stuck
        for this pass. */
    method ScoreNode(ghost g: seq<Node>, j: nat) returns (changed: bool)
      requires ScoreReady(g) && Progress(g, nodes) && Graph(nodes) && j < |nodes|
      modifies this
      ensures Progress(g, nodes) && Graph(nodes)
      ensures UnscoredBelow(nodes, |nodes|) + (if changed then 1 else 0) == UnscoredBelow(old(nodes), |old(nodes)|)
      ensures !changed ==> nodes == old(nodes) && Stuck(nodes, j)
      ensures changed ==> !Scored(old(nodes)[j]) && Within(old(nodes)[j].children, |old(nodes)|) &&
                          ChildrenScored(old(nodes), old(nodes)[j].children)
      ensures changed ==> nodes == old(nodes)[j := Final(g, j)] && Scored(nodes[j])
      ensures Bookkeeping() == old(Bookkeeping())
    {
      ScoreStep(g, nodes, j);
      if Scored(nodes[j]) {
        return false;
      }
      if ChildrenScored(nodes, nodes[j].children) {
        var t := SumBelow(nodes, nodes[j].children, 9);
        var b := nodes[j].(wins1 := t.wins1, wins2 := t.wins2, draws := t.draws);
        b := SelectBest(nodes, b);
        StepFinal(g, nodes, j, b);
        UnscoredSet(nodes, j, b, |nodes|);
        ProgressSet(g, nodes, j, b);
        nodes := nodes[j := b];
        return true;
      }
      return false;
    }
  }

  /** GenerateTree.MakeGraph's scoring of a terminal position with result r:
      a win for player 1 scores 1, a win for player 2 scores -1, a draw 0, and
      the matching count becomes 1. */
  function Terminal(n: Node, r: int): (t: Node)
    requires r == Player1 || r == Player2 || r == 0
    ensures t.board == n.board && t.children == n.children && t.bestMoves == n.bestMoves
  {
    if r == Player1 then n.(score := 1, wins1 := 1)
    else if r == Player2 then n.(score := -1, wins2 := 1)
    else n.(score := 0, draws := 1)
  }

  /** The last registered node, scored as a terminal position, is expanded. */
  lemma TerminalExpanded(mode: int, nodes: seq<Node>, id: nat)
    requires |nodes| == id + 1 && ValidBoard(nodes[id].board)
    requires ResultOf(nodes[id].board) in {Player1, Player2, 0}
    requires nodes[id] == Terminal(Blank(nodes[id].board), ResultOf(nodes[id].board))
    ensures forall j :: id <= j < |nodes| ==> Expanded(mode, nodes, j)
  {
    assert Expanded(mode, nodes, id);
  }

  /** The dictionary and graph Generate leaves: consistent, rooted at the
      empty board under key 1 (method 0) or fingerprint 0, every node a
      finished expansion, ready for scoring. */
  predicate Built(mode: int, nodes: seq<Node>, keys: seq<int>, index: map<int, nat>, nodesExamined: int)
  {
    Consistent(mode, nodes, keys, index) && Counted(mode, nodes, nodesExamined) && |nodes| >= 1 &&
    nodes[0].board == EmptyBoard() && keys[0] == (if mode == 0 then 1 else 0) &&
    ExpandedFrom(mode, nodes, 0) && ScoreReady(nodes)
  }

  /** Generate's starting point: an empty dictionary is consistent, and the
      fresh root is a valid board with player 1 to move. */
  lemma StartFacts(mode: int)
    requires 0 <= mode <= 2
    ensures Consistent(mode, [], [], map[]) && Counted(mode, [], 0)
    ensures NewNode() == Blank(NewNode().board) && ValidBoard(NewNode().board)
    ensures Player1 == Mover(NewNode().board)
  {
  }

  /** The graph built from the empty board: its root is the empty board under
      key 1 (method 0) or fingerprint 0, and the graph is ready for scoring. */
  lemma RootFacts(mode: int, nodes: seq<Node>, keys: seq<int>, index: map<int, nat>, nodesExamined: int)
    requires Consistent(mode, nodes, keys, index) && Counted(mode, nodes, nodesExamined) && |nodes| >= 1
    requires nodes[0].board == EmptyBoard() && HashOf(EmptyBoard()) == 0
    requires ExpandedFrom(mode, nodes, 0)
    ensures Built(mode, nodes, keys, index, nodesExamined)
  {
    assert Entry(mode, 0, keys[0], nodes[0], |nodes|);
    GeneratedReady(mode, nodes);
  }

  /** A graph built of expanded nodes is one ScoreGraph can finish: closed,
      each child one move deeper, counters non-negative, and every unscored
      node has a child. */
  lemma GeneratedReady(mode: int, nodes: seq<Node>)
    requires forall j :: 0 <= j < |nodes| ==> Expanded(mode, nodes, j)
    ensures ScoreReady(nodes)
  {
    forall j | 0 <= j < |nodes|
      ensures Shaped(nodes[j]) && ChildrenIn(nodes[j], |nodes|)
    {
      assert Expanded(mode, nodes, j);
    }
    forall i, m | 0 <= i < |nodes| && 0 <= m < 9 && nodes[i].children[m].Some?
      ensures Depth(nodes[nodes[i].children[m].value].board) == Depth(nodes[i].board) + 1
    {
      ExpandedChildDepth(mode, nodes, i, m);
    }
    forall j | 0 <= j < |nodes|
      ensures nodes[j].wins1 >= 0 && nodes[j].wins2 >= 0 && nodes[j].draws >= 0
      ensures !Scored(nodes[j]) ==> exists m :: 0 <= m < 9 && nodes[j].children[m].Some?
    {
      ExpandedCounters(mode, nodes, j);
    }
  }

  /** An expanded graph is what scoring expects of its input: scored nodes
      carry a game result, no node has best moves yet, and only unscored
      nodes have children. */
  lemma GeneratedScores(mode: int, nodes: seq<Node>)
    requires ExpandedFrom(mode, nodes, 0)
    ensures ScoresInRange(nodes) && BestPresent(nodes)
    ensures forall j :: 0 <= j < |nodes| ==> nodes[j].bestMoves == []
    ensures forall j, m :: 0 <= j < |nodes| && 0 <= m < |nodes[j].children| && nodes[j].children[m].Some? ==>
              !Scored(nodes[j])
  {
    forall j | 0 <= j < |nodes|
      ensures Scored(nodes[j]) ==> -1 <= nodes[j].score <= 1
      ensures nodes[j].bestMoves == []
      ensures forall m :: 0 <= m < |nodes[j].children| && nodes[j].children[m].Some? ==> !Scored(nodes[j])
    {
      assert Expanded(mode, nodes, j);
      BoardResultMeaning(nodes[j].board);
    }
  }

  /** The empty board is still in play. */
  lemma EmptyInPlay()
    ensures ResultOf(EmptyBoard()) == 3
  {
    BoardResultMeaning(EmptyBoard());
  }

  /** The graph Generate builds, once ScoreGraph has run: it is still acyclic,
      every best move leads to a child, every node with a child has a best
      move, and every score is a game result. */
  lemma GeneratedSolved(mode: int, nodes: seq<Node>, keys: seq<int>, index: map<int, nat>, nodesExamined: int)
    requires Built(mode, nodes, keys, index, nodesExamined)
    ensures Graph(Solved(nodes)) && BestPresent(Solved(nodes))
    ensures forall j, m :: 0 <= j < |nodes| && 0 <= m < 9 && Solved(nodes)[j].children[m].Some? ==>
              Solved(nodes)[j].bestMoves != []
    ensures forall j :: 0 <= j < |nodes| ==> -1 <= Solved(nodes)[j].score <= 1
  {
    GeneratedScores(mode, nodes);
    SolvedStable(nodes);
    SolvedBestPresent(nodes);
    BestNonEmpty(nodes);
  }

  /** ... and its root is the empty board with a child at every cell. */
  lemma GeneratedRoot(mode: int, nodes: seq<Node>, keys: seq<int>, index: map<int, nat>, nodesExamined: int)
    requires Built(mode, nodes, keys, index, nodesExamined)
    ensures Solved(nodes)[0].board == EmptyBoard()
    ensures forall m :: 0 <= m < 9 ==> Solved(nodes)[0].children[m].Some?
  {
    EmptyInPlay();
    OpenCells(mode, nodes, 0);
    assert Solved(nodes)[0].children == nodes[0].children;
  }

  /** An expanded node still in play has a child exactly at its empty cells. */
  lemma OpenCells(mode: int, nodes: seq<Node>, j: nat)
    requires j < |nodes| && Expanded(mode, nodes, j) && ResultOf(nodes[j].board) == 3
    ensures forall m :: 0 <= m < 9 ==> (nodes[j].children[m].Some? <==> nodes[j].board[m] == 0)
  {
  }

  /** A child of an expanded node holds one more piece. */
  lemma ExpandedChildDepth(mode: int, nodes: seq<Node>, i: nat, m: nat)
    requires i < |nodes| && Expanded(mode, nodes, i) && m < 9 && nodes[i].children[m].Some?
    ensures nodes[i].children[m].value < |nodes|
    ensures Depth(nodes[nodes[i].children[m].value].board) == Depth(nodes[i].board) + 1
  {
    var b := nodes[i].board;
    BoardResultMeaning(b);
    assert ResultOf(b) == 3;
    var p := Mover(b);
    MoverUpdate(b, m, p);
    StoredShape(mode, b[m := p]);
    DepthUpdate(b, m, p);
  }

  /** An expanded node has non-negative counters, and has a child unless it is
      scored. */
  lemma ExpandedCounters(mode: int, nodes: seq<Node>, j: nat)
    requires j < |nodes| && Expanded(mode, nodes, j)
    ensures nodes[j].wins1 >= 0 && nodes[j].wins2 >= 0 && nodes[j].draws >= 0
    ensures !Scored(nodes[j]) ==> exists m :: 0 <= m < 9 && nodes[j].children[m].Some?
  {
    var b := nodes[j].board;
    BoardResultMeaning(b);
    FullDepth(b);
    if ResultOf(b) == 3 {
      var m :| 0 <= m < 9 && b[m] == 0;
      assert nodes[j].children[m].Some?;
    }
  }

  /** Mover, which counts moves, names the same player as Util.ToMove, which
      compares the two players' piece counts, on every board ToMove accepts. */
  lemma MoverIsToMove(b: seq<int>)
    requires ValidCells(b)
    requires CountOf(b, Player1) == CountOf(b, Player2) || CountOf(b, Player1) - 1 == CountOf(b, Player2)
    ensures Mover(b) == ToMove(b)
  {
    DepthCounts(b);
  }

  /** Placing the mover's piece on an empty cell of a valid board gives a valid
      board where the other player moves. */
  lemma MoverUpdate(b: seq<int>, m: int, p: int)
    requires ValidBoard(b) && 0 <= m < 9 && b[m] == 0 && p == Mover(b)
    ensures ValidBoard(b[m := p]) && Mover(b[m := p]) == NextPlayer(p)
  {
    DepthUpdate(b, m, p);
  }

  /** The arena part of the state of MakeGraph's loop over the cells of node
      id before cell move: the nodes before id are untouched, node id has its
      children for the cells before move, and every node after id is
      expanded. */
  ghost predicate ExpandingAt(mode: int, nodes: seq<Node>, id: nat, n: Node, toMove: int, move: nat, prefix: seq<Node>)
  {
    n == Blank(n.board) && ValidBoard(n.board) && toMove == Mover(n.board) &&
    |nodes| > id && nodes[..id] == prefix && nodes[id] == n.(children := nodes[id].children) &&
    SoFar(mode, nodes, id, n.board, toMove, move) &&
    forall j :: id < j < |nodes| ==> Expanded(mode, nodes, j)
  }

  /** Linking the child built for an empty cell into node id advances the
      loop state by one cell. */
  lemma CellAdded(mode: int, before: seq<Node>, mid: seq<Node>, id: nat, n: Node, toMove: int, move: nat, prefix: seq<Node>, c: nat)
    requires ExpandingAt(mode, before, id, n, toMove, move, prefix) && move < 9 && n.board[move] == 0
    requires Extends(before, mid) && ExpandedFrom(mode, mid, |before|)
    requires c < |mid| && mid[c].board == Stored(mode, n.board[move := toMove])
    ensures ExpandingAt(mode, mid[id := mid[id].(children := mid[id].children[move := Some(c)])], id, n, toMove, move + 1, prefix)
  {
    SoFarGrow(mode, before, mid, id, n.board, toMove, move);
    assert forall j :: |before| <= j < |mid| ==> Expanded(mode, mid, j);
    SoFarStep(mode, mid, id, n.board, toMove, move, c);
    ExpandedGrow(mode, before, mid, id + 1);
    var after := mid[id := mid[id].(children := mid[id].children[move := Some(c)])];
    ExpandedReplace(mode, mid, after, id, id + 1);
    assert after[..id] == mid[..id];
  }

  /** Once every cell is handled, node id is expanded like the nodes after it. */
  lemma CellsDone(mode: int, nodes: seq<Node>, id: nat, n: Node, toMove: int, prefix: seq<Node>)
    requires ExpandingAt(mode, nodes, id, n, toMove, 9, prefix) && ResultOf(n.board) == 3
    requires ChildrenIn(nodes[id], |nodes|)
    ensures forall j :: id <= j < |nodes| ==> Expanded(mode, nodes, j)
  {
    SoFarDone(mode, nodes, id, n, toMove);
  }

  /** Children 0..move-1 of node id are settled: present exactly on empty cells,
      each the node of the board with toMove's piece there; later ones absent. */
  predicate SoFar(mode: int, nodes: seq<Node>, id: nat, b: seq<int>, toMove: int, move: int)
  {
    id < |nodes| && Shaped(nodes[id]) && |b| == 9 &&
    forall m :: 0 <= m < 9 ==> ChildSoFar(mode, nodes, id, b, toMove, move, m)
  }

  lemma SoFarGrow(mode: int, a: seq<Node>, b: seq<Node>, id: nat, brd: seq<int>, toMove: int, move: int)
    requires SoFar(mode, a, id, brd, toMove, move)
    requires Extends(a, b)
    ensures SoFar(mode, b, id, brd, toMove, move)
  {
    assert b[id] == a[id];
    forall m | 0 <= m < 9
      ensures ChildSoFar(mode, b, id, brd, toMove, move, m)
    {
      assert ChildSoFar(mode, a, id, brd, toMove, move, m);
      var ch := a[id].children[m];
      if ch.Some? {
        assert b[ch.value] == a[ch.value];
      }
    }
  }

  lemma SoFarStep(mode: int, a: seq<Node>, id: nat, brd: seq<int>, toMove: int, move: int, c: nat)
    requires SoFar(mode, a, id, brd, toMove, move)
    requires 0 <= move < 9 && brd[move] == 0
    requires c < |a| && a[c].board == Stored(mode, brd[move := toMove])
    ensures SoFar(mode, a[id := a[id].(children := a[id].children[move := Some(c)])], id, brd, toMove, move + 1)
  {
    var a' := a[id := a[id].(children := a[id].children[move := Some(c)])];
    var next := move + 1;
    forall m | 0 <= m < 9
      ensures ChildSoFar(mode, a', id, brd, toMove, next, m)
    {
      assert ChildSoFar(mode, a, id, brd, toMove, move, m);
    }
  }

  lemma SoFarSkip(mode: int, a: seq<Node>, id: nat, brd: seq<int>, toMove: int, move: int)
    requires SoFar(mode, a, id, brd, toMove, move)
    requires 0 <= move < 9 && brd[move] != 0
    ensures SoFar(mode, a, id, brd, toMove, move + 1)
  {
    var next := move + 1;
    forall m | 0 <= m < 9
      ensures ChildSoFar(mode, a, id, brd, toMove, next, m)
    {
      assert ChildSoFar(mode, a, id, brd, toMove, move, m);
    }
  }

  /** Once every cell has been tried, a non-terminal node is expanded. */
  lemma SoFarDone(mode: int, nodes: seq<Node>, id: nat, n: Node, toMove: int)
    requires SoFar(mode, nodes, id, n.board, toMove, 9)
    requires n == Blank(n.board) && ValidBoard(n.board) && toMove == Mover(n.board)
    requires nodes[id] == n.(children := nodes[id].children)
    requires ChildrenIn(nodes[id], |nodes|)
    requires ResultOf(n.board) == 3
    ensures Expanded(mode, nodes, id)
  {
    var b := n.board;
    var ch := nodes[id].children;
    forall m | 0 <= m < 9
      ensures (ch[m].Some? <==> b[m] == 0) &&
              (ch[m].Some? ==> ch[m].value < |nodes| && nodes[ch[m].value].board == Stored(mode, b[m := Mover(b)]))
    {
      assert ChildSoFar(mode, nodes, id, b, toMove, 9, m);
    }
  }

  /** Child m of node id once cells 0..move-1 are done: present exactly on an
      empty cell below move, and then the node of the board with toMove's piece
      on that cell. */
  predicate ChildSoFar(mode: int, nodes: seq<Node>, id: nat, b: seq<int>, toMove: int, move: int, m: nat)
    requires id < |nodes| && Shaped(nodes[id]) && |b| == 9 && m < 9
  {
    var ch := nodes[id].children[m];
    (ch.Some? <==> m < move && b[m] == 0) &&
    (ch.Some? ==> ch.value < |nodes| && nodes[ch.value].board == Stored(mode, b[m := toMove]))
  }

  /** The stored board keeps the shape, validity and piece counts. */
  lemma StoredShape(mode: int, b: seq<int>)
    requires ValidBoard(b)
    ensures ValidBoard(Stored(mode, b))
    ensures CountOf(Stored(mode, b), 0) == CountOf(b, 0)
    ensures Depth(Stored(mode, b)) == Depth(b)
  {
    PermutedCount(MinHash(b).minPerm, b, 0);
    PermutedValid(MinHash(b).minPerm, b);
  }

  /** An all-zero sequence has fingerprint 0. */
  lemma {:induction false} HashOfZeros(b: seq<int>)
    requires forall i :: 0 <= i < |b| ==> b[i] == 0
    ensures HashOf(b) == 0
  {
    if |b| > 0 {
      HashOfZeros(b[1..]);
    }
  }

  /** The empty board is its own canonical image, with fingerprint 0. */
  lemma EmptyCanonical(mode: int)
    ensures HashOf(EmptyBoard()) == 0
    ensures Stored(mode, EmptyBoard()) == EmptyBoard()
  {
    var e := EmptyBoard();
    HashOfZeros(e);
    if mode == 2 {
      PermutedEmpty(MinHash(e).minPerm);
    }
  }

  /** Every image of the empty board is the empty board. */
  lemma PermutedEmpty(p: int)
    ensures PermutedBoard(p, EmptyBoard()) == EmptyBoard()
  {
    var e := EmptyBoard();
    forall i | 0 <= i < 9
      ensures PermutedBoard(p, e)[i] == e[i]
    {
      assert e[At(p, i)] == 0;
    }
  }

  /** A registered key identifies the stored board: in method 1 the fingerprint
      determines the board, in method 2 the canonical key determines the
      canonical image. */
  lemma KeyHit(mode: int, nodes: seq<Node>, keys: seq<int>, index: map<int, nat>, b: seq<int>, key: int)
    requires Consistent(mode, nodes, keys, index) && 1 <= mode <= 2 && ValidBoard(b)
    requires mode == 1 ==> key == MinHash(b).hash
    requires mode == 2 ==> key == MinHash(b).minHash
    requires key in index
    ensures index[key] < |nodes| && nodes[index[key]].board == Stored(mode, b)
  {
    var s := nodes[index[key]].board;
    assert Entry(mode, index[key], key, nodes[index[key]], |nodes|);
    PermutedValid(MinHash(b).minPerm, b);
    HashInjective(s, Stored(mode, b));
  }

  /** A key that is not registered yet (in method 0, the examination count)
      may be added for the stored board, which keeps the number of moves. */
  lemma FreshEntry(mode: int, nodes: seq<Node>, keys: seq<int>, index: map<int, nat>, b: seq<int>, key: int)
    requires Consistent(mode, nodes, keys, index) && ValidBoard(b)
    requires mode == 1 ==> key == MinHash(b).hash
    requires mode == 2 ==> key == MinHash(b).minHash
    requires mode != 0 ==> key !in index
    requires mode == 0 ==> key == |nodes| + 1
    ensures key !in index
    ensures Entry(mode, |nodes|, key, Blank(Stored(mode, b)), |nodes| + 1)
    ensures Blank(b).(board := Stored(mode, b)) == Blank(Stored(mode, b))
    ensures Mover(Stored(mode, b)) == Mover(b) && CountOf(Stored(mode, b), 0) == CountOf(b, 0)
  {
    StoredShape(mode, b);
    FreshFits(mode, |nodes|, b, key);
    if mode == 0 {
      CounterFresh(nodes, keys, index, key);
    }
  }

  /** The key computed for a fresh board fits the board that is stored. */
  lemma FreshFits(mode: int, j: nat, b: seq<int>, key: int)
    requires ValidBoard(b)
    requires mode == 1 ==> key == MinHash(b).hash
    requires mode == 2 ==> key == MinHash(b).minHash
    requires mode == 0 ==> key == j + 1
    ensures KeyFits(mode, j, key, Stored(mode, b))
  {
    if mode == 2 {
      CanonicalImage(b);
    }
  }

  /** In method 0 the examination count after n registrations is not a key yet. */
  lemma CounterFresh(nodes: seq<Node>, keys: seq<int>, index: map<int, nat>, key: int)
    requires Consistent(0, nodes, keys, index) && key == |nodes| + 1
    ensures key !in index
  {
    forall k | k in index
      ensures k <= |nodes|
    {
      assert Entry(0, index[k], keys[index[k]], nodes[index[k]], |nodes|);
    }
  }

  /** SelectBest, the local function of GenerateTree.ScoreGraph: with player 1
      to move (an odd number of blank cells) the highest child score from -1 up,
      otherwise the lowest from +1 down, and the moves reaching it. */
  method SelectBest(nodes: seq<Node>, b: Node) returns (r: Node)
    requires Within(b.children, |nodes|)
    ensures Selected(nodes, b, r)
  {
    var blankCount := CountOf(b.board, 0);
    var toMove := if blankCount % 2 == 1 then Player1 else Player2;
    var score, moves;
    if toMove == Player1 {
      score, moves := PickBest(nodes, b.children, true, b.bestMoves);
    } else {
      score, moves := PickBest(nodes, b.children, false, b.bestMoves);
    }
    r := b.(score := score, bestMoves := moves);
  }

  /** The loop of either branch of SelectBest: max picks the highest score,
      otherwise the lowest; a strictly better score clears the list, any score
      at least as good is appended. */
  method PickBest(nodes: seq<Node>, ch: seq<Option<nat>>, max: bool, prior: seq<int>) returns (score: int, moves: seq<int>)
    requires Within(ch, |nodes|)
    ensures IsBest(nodes, ch, max, score, 9)
    ensures moves == (if score == Worst(max) then prior else []) + Achieving(nodes, ch, score, 9)
  {
    score := Worst(max);
    moves := prior;
    for i := 0 to 9
      invariant IsBest(nodes, ch, max, score, i)
      invariant moves == (if score == Worst(max) then prior else []) + Achieving(nodes, ch, score, i)
    {
      if ch[i].None? {
        PickKeep(nodes, ch, max, score, i);
        continue;
      }
      var s := nodes[ch[i].value].score;
      if (if max then s >= score else s <= score) {
        if (if max then s > score else s < score) {
          PickBetter(nodes, ch, max, score, i);
          moves := [];
        } else {
          PickTie(nodes, ch, max, score, i);
        }
        score := s;
        moves := moves + [i];
      } else {
        PickKeep(nodes, ch, max, score, i);
      }
    }
  }

  /** A null child, or one scoring worse than v, changes neither the best
      score nor the moves achieving it. */
  lemma PickKeep(nodes: seq<Node>, ch: seq<Option<nat>>, max: bool, v: int, i: nat)
    requires Within(ch, |nodes|) && i < 9 && IsBest(nodes, ch, max, v, i)
    requires ch[i].Some? ==> !Ranks(max, v, ScoreAt(nodes, ch, i))
    ensures IsBest(nodes, ch, max, v, i + 1)
    ensures Achieving(nodes, ch, v, i + 1) == Achieving(nodes, ch, v, i)
  {
    assert Achieving(nodes, ch, v, i) + [] == Achieving(nodes, ch, v, i);
  }

  /** A child scoring exactly v joins the moves achieving it. */
  lemma PickTie(nodes: seq<Node>, ch: seq<Option<nat>>, max: bool, v: int, i: nat)
    requires Within(ch, |nodes|) && i < 9 && IsBest(nodes, ch, max, v, i)
    requires ch[i].Some? && ScoreAt(nodes, ch, i) == v
    ensures IsBest(nodes, ch, max, v, i + 1)
    ensures Achieving(nodes, ch, v, i + 1) == Achieving(nodes, ch, v, i) + [i]
  {
  }

  /** A child scoring strictly better than v becomes the best, alone. */
  lemma PickBetter(nodes: seq<Node>, ch: seq<Option<nat>>, max: bool, v: int, i: nat)
    requires Within(ch, |nodes|) && i < 9 && IsBest(nodes, ch, max, v, i)
    requires ch[i].Some? && Ranks(max, v, ScoreAt(nodes, ch, i)) && ScoreAt(nodes, ch, i) != v
    ensures IsBest(nodes, ch, max, ScoreAt(nodes, ch, i), i + 1)
    ensures ScoreAt(nodes, ch, i) != Worst(max)
    ensures Achieving(nodes, ch, ScoreAt(nodes, ch, i), i + 1) == [i]
  {
    AchievingNone(nodes, ch, ScoreAt(nodes, ch, i), i);
  }

  /** The scored final form of j replaces j while keeping Progress. */
  lemma ProgressSet(g: seq<Node>, nodes: seq<Node>, j: nat, b: Node)
    requires Progress(g, nodes) && j < |nodes| && b == Final(g, j) && Scored(b)
    ensures Progress(g, nodes[j := b]) && Graph(nodes[j := b])
  {
    SameStructure(g, nodes[j := b]);
  }

  /** Node j of the current arena: shaped children inside the arena, and stuck
      unless it is unscored with all children scored. */
  lemma ScoreStep(g: seq<Node>, nodes: seq<Node>, j: nat)
    requires Progress(g, nodes) && Graph(nodes) && j < |nodes|
    ensures Within(nodes[j].children, |nodes|)
    ensures !(!Scored(nodes[j]) && ChildrenScored(nodes, nodes[j].children)) ==> Stuck(nodes, j)
  {
    assert Shaped(nodes[j]) && ChildrenIn(nodes[j], |nodes|);
  }

  /** When every node is stuck, the passes have reached the solved arena. */
  lemma ProgressDone(g: seq<Node>, nodes: seq<Node>)
    requires Progress(g, nodes) && Graph(nodes)
    requires StuckBelow(nodes, |nodes|)
    ensures nodes == Solved(g) && forall j :: 0 <= j < |nodes| ==> Scored(nodes[j])
  {
    forall k | 0 <= k < |nodes|
      ensures Scored(nodes[k]) && nodes[k] == Solved(g)[k]
    {
      AllStuckScored(nodes, k);
    }
  }
}
