/** The exact-cover search of SolverZ3.cs without the SAT solver: the bound
    search FindEdge over an abstract feasibility test, the constraint builders
    producing an abstract propositional formula, and the mapping of selected
    canonical keys back to moves. */
module Solver {
  import opened Util
  import opened Nodes
  import opened Wrappers
  import opened Traversal
  import Scoring
  import TreeGen

  // ---------------------------------------------------------------------------
  // FindEdge

  const AllSucceeded := "all succeeded!?"
  const AllFailed := "all failed!?"

  /** Once the test passes it passes for every larger bound. */
  ghost predicate Monotone(test: int -> bool)
  {
    forall x, y :: x <= y && test(x) ==> test(y)
  }

  /** SolverZ3.FindEdge: halves upperBound until the test fails, doubles back
      until it passes, then bisects. A result m always passes with m - 1
      failing, whatever the test; for a monotone test it is the threshold,
      except when upperBound is odd and is itself the threshold (see the
      last ensures). */
  method FindEdge(upperBound: int, test: int -> bool) returns (r: Result<int>)
    requires upperBound >= 1
    ensures r.Ok? ==> 2 <= r.value <= upperBound && test(r.value) && !test(r.value - 1)
    ensures r.Err? ==> r.message == AllSucceeded || r.message == AllFailed
    ensures r == Err(AllSucceeded) ==> test(1)
    ensures r == Err(AllFailed) ==> exists s :: 1 <= s <= upperBound < 2 * s && !test(s)
    ensures Monotone(test) && test(1) ==> r == Err(AllSucceeded)
    ensures Monotone(test) && !test(upperBound) ==> r == Err(AllFailed)
    ensures Monotone(test) && !test(1) && test(upperBound) && (upperBound % 2 == 0 || test(upperBound - 1)) ==> r.Ok?
    ensures Monotone(test) && 3 <= upperBound && upperBound % 2 == 1 && test(upperBound) && !test(upperBound - 1) ==>
              r == Err(AllFailed)
  {
    ghost var good := Monotone(test) && !test(1) && test(upperBound) && (upperBound % 2 == 0 || test(upperBound - 1));
    ghost var odd := Monotone(test) && 3 <= upperBound && upperBound % 2 == 1 && test(upperBound) && !test(upperBound - 1);
    var maxFail := upperBound;
    ghost var prev := upperBound;
    ghost var passed := false;
    while true
      invariant 1 <= maxFail <= upperBound
      invariant passed ==> test(prev) && maxFail == prev / 2 && (prev == upperBound || 2 * prev <= upperBound)
      invariant !passed ==> maxFail == upperBound
      invariant odd ==> !passed || prev == upperBound
      decreases maxFail
    {
      var ok := test(maxFail);
      if ok {
        prev, passed := maxFail, true;
        maxFail := maxFail / 2;
      } else {
        break;
      }
      if maxFail == 0 {
        return Err(AllSucceeded);
      }
    }

    var minSuccess := maxFail;
    ghost var s := minSuccess;
    while true
      invariant maxFail <= minSuccess <= upperBound && !test(maxFail)
      invariant (good || odd) ==> passed
      invariant (good || odd) ==> minSuccess == maxFail || minSuccess == 2 * maxFail || (good && test(minSuccess))
      invariant odd ==> prev == upperBound
      decreases upperBound - minSuccess
    {
      var ok := test(minSuccess);
      if !ok {
        s := minSuccess;
        if good && minSuccess == 2 * maxFail {
          assert prev == 2 * maxFail + 1;
          assert 4 * maxFail <= upperBound;
        }
        minSuccess := minSuccess * 2;
      } else {
        break;
      }
      if minSuccess > upperBound {
        assert 1 <= s <= upperBound < 2 * s && !test(s);
        return Err(AllFailed);
      }
    }

    while maxFail != minSuccess - 1
      invariant 1 <= maxFail < minSuccess <= upperBound
      invariant !test(maxFail) && test(minSuccess)
      decreases minSuccess - maxFail
    {
      var bound := (maxFail + minSuccess) / 2;
      var ok := test(bound);
      if ok {
        minSuccess := bound;
      } else {
        maxFail := bound;
      }
    }
    return Ok(minSuccess);
  }

  /** FindEdge as written on upperBound 3 with threshold 3: it reports that
      every bound failed although 3 passes. */
  method OddBoundExample() returns (r: Result<int>)
    ensures r == Err(AllFailed)
  {
    r := FindEdge(3, x => x >= 3);
  }

  /** FindEdge with the doubling clamped to upperBound: a monotone test that
      passes at upperBound and fails at 1 always yields its threshold. */
  method FindEdgeClamped(upperBound: int, test: int -> bool) returns (r: Result<int>)
    requires upperBound >= 1
    ensures r.Ok? ==> 2 <= r.value <= upperBound && test(r.value) && !test(r.value - 1)
    ensures r.Err? ==> r.message == AllSucceeded || r.message == AllFailed
    ensures r == Err(AllSucceeded) ==> test(1)
    ensures r == Err(AllFailed) ==> !test(upperBound)
    ensures Monotone(test) && !test(1) && test(upperBound) ==> r.Ok?
    ensures Monotone(test) && test(1) ==> r == Err(AllSucceeded)
  {
    var maxFail := upperBound;
    while true
      invariant 1 <= maxFail <= upperBound
      decreases maxFail
    {
      var ok := test(maxFail);
      if ok {
        maxFail := maxFail / 2;
      } else {
        break;
      }
      if maxFail == 0 {
        return Err(AllSucceeded);
      }
    }

    var minSuccess := maxFail;
    while true
      invariant maxFail <= minSuccess <= upperBound && !test(maxFail)
      decreases upperBound - minSuccess
    {
      var ok := test(minSuccess);
      if ok {
        break;
      }
      if minSuccess == upperBound {
        return Err(AllFailed);
      }
      minSuccess := if 2 * minSuccess > upperBound then upperBound else 2 * minSuccess;
    }

    while maxFail != minSuccess - 1
      invariant 1 <= maxFail < minSuccess <= upperBound
      invariant !test(maxFail) && test(minSuccess)
      decreases minSuccess - maxFail
    {
      var bound := (maxFail + minSuccess) / 2;
      var ok := test(bound);
      if ok {
        minSuccess := bound;
      } else {
        maxFail := bound;
      }
    }
    return Ok(minSuccess);
  }

  /** The clamped search on the same input finds the threshold. */
  method OddBoundClamped() returns (r: Result<int>)
    ensures r == Ok(3)
  {
    r := FindEdgeClamped(3, x => x >= 3);
  }

  // ---------------------------------------------------------------------------
  // Formulas and variable interning

  /** The name of a solver variable: "v_<key>" for a position, "e_<key>_<move>"
      for a move out of a position. */
  datatype Name = VertVar(key: int) | EdgeVar(key: int, move: int) | Flag(text: string)

  /** The formulas handed to the solver: MkBool, MkBoolConst, MkAnd, MkOr,
      MkImplies, MkNot and MkForall over one variable. */
  datatype Formula =
    | Const(value: bool)
    | Var(name: Name)
    | All(args: seq<Formula>)
    | Any(args: seq<Formula>)
    | Implies(lhs: Formula, rhs: Formula)
    | Not(arg: Formula)
    | Forall(bound: Name, body: Formula)

  /** The formula after `expr = MkAnd(expr, x)` for each x of xs in turn. */
  function Chain(e: Formula, xs: seq<Formula>): Formula
    decreases |xs|
  {
    if |xs| == 0 then e else All([Chain(e, xs[..|xs| - 1]), xs[|xs| - 1]])
  }

  lemma {:induction false} ChainAppend(e: Formula, xs: seq<Formula>, ys: seq<Formula>)
    ensures Chain(Chain(e, xs), ys) == Chain(e, xs + ys)
    decreases |ys|
  {
    if |ys| > 0 {
      ChainAppend(e, xs, ys[..|ys| - 1]);
      assert (xs + ys)[..|xs + ys| - 1] == xs + ys[..|ys| - 1];
      assert (xs + ys)[|xs + ys| - 1] == ys[|ys| - 1];
    } else {
      assert xs + ys == xs;
    }
  }

  /** SolverZ3.Expr: the formula built so far and the keys of the variables
      registered. Each dictionary of the source maps a key to the variable
      named after it, so the keys alone determine it. */
  class Expr {
    var expr: Formula
    var verts: set<int>
    var edges: set<(int, int)>

    constructor (ex: Formula)
      ensures expr == ex && verts == {} && edges == {}
    {
      expr := ex;
      verts := {};
      edges := {};
    }

    /** Expr.AddEdge: the variable of the move out of parent's canonical key,
        registered on first use. */
    method AddEdge(parent: Node, move: int) returns (v: Formula)
      requires |parent.board| == 9
      modifies this
      ensures v == Var(EdgeVar(Key(parent), move))
      ensures edges == old(edges) + {(Key(parent), move)}
      ensures verts == old(verts) && expr == old(expr)
    {
      var h := MinHash(parent.board).minHash;
      KeyIsMinHash(parent);
      if (h, move) !in edges {
        edges := edges + {(h, move)};
      }
      v := Var(EdgeVar(h, move));
    }

    /** Expr.AddVert: the variable of node's canonical key, registered on first
        use. */
    method AddVert(node: Node) returns (v: Formula)
      requires |node.board| == 9
      modifies this
      ensures v == Var(VertVar(Key(node)))
      ensures verts == old(verts) + {Key(node)}
      ensures edges == old(edges) && expr == old(expr)
    {
      var h := MinHash(node.board).minHash;
      KeyIsMinHash(node);
      if h !in verts {
        verts := verts + {h};
      }
      v := Var(VertVar(h));
    }

    /** Expr.And: conjoins be to the formula. */
    method And(be: Formula)
      modifies this
      ensures expr == Chain(old(expr), [be])
      ensures verts == old(verts) && edges == old(edges)
    {
      expr := All([expr, be]);
    }
  }

  /** A board and all its images share one position variable. */
  lemma ImageSameVertex(n: Node, p: int)
    requires ValidBoard(n.board) && 0 <= p < 8
    ensures Var(VertVar(Key(n.(board := PermutedBoard(p, n.board))))) == Var(VertVar(Key(n)))
  {
    MinHashInvariant(p, n.board);
    KeyIsMinHash(n);
    KeyIsMinHash(n.(board := PermutedBoard(p, n.board)));
  }

  /** The canonical key of arena node x; -1 outside the arena, where no
      builder looks. */
  function KeyAt(g: seq<Node>, x: nat): int
  {
    if x < |g| && |g[x].board| == 9 then Key(g[x]) else -1
  }

  /** The position variables of the nodes js, in order. */
  function VertsOf(g: seq<Node>, js: seq<nat>): (r: seq<Formula>)
    ensures |r| == |js|
    decreases |js|
  {
    if |js| == 0 then [] else VertsOf(g, js[..|js| - 1]) + [Var(VertVar(KeyAt(g, js[|js| - 1])))]
  }

  /** The canonical keys of the nodes js. */
  function KeysOf(g: seq<Node>, js: seq<nat>): set<int>
    decreases |js|
  {
    if |js| == 0 then {} else KeysOf(g, js[..|js| - 1]) + {KeyAt(g, js[|js| - 1])}
  }

  /** Every node of xs is in the arena. */
  predicate InArena(g: seq<Node>, xs: seq<nat>)
  {
    forall k :: 0 <= k < |xs| ==> xs[k] < |g|
  }

  /** AddVert on each of js in turn, collecting the variables. */
  method AddVerts(g: seq<Node>, js: seq<nat>, e: Expr) returns (vs: seq<Formula>)
    requires Closed(g) && InArena(g, js)
    modifies e
    ensures vs == VertsOf(g, js)
    ensures e.verts == old(e.verts) + KeysOf(g, js)
    ensures e.edges == old(e.edges) && e.expr == old(e.expr)
  {
    vs := [];
    for i := 0 to |js|
      invariant vs == VertsOf(g, js[..i])
      invariant e.verts == old(e.verts) + KeysOf(g, js[..i])
      invariant e.edges == old(e.edges) && e.expr == old(e.expr)
    {
      var v := e.AddVert(g[js[i]]);
      vs := vs + [v];
      assert js[..i + 1][..i] == js[..i];
    }
    assert js[..|js|] == js;
  }

  lemma {:induction false} KeysOfAppend(g: seq<Node>, a: seq<nat>, b: seq<nat>)
    ensures KeysOf(g, a + b) == KeysOf(g, a) + KeysOf(g, b)
    decreases |b|
  {
    if |b| == 0 {
      assert a + b == a;
    } else {
      var pre := b[..|b| - 1];
      KeysOfAppend(g, a, pre);
      assert (a + b)[..|a + b| - 1] == a + pre;
      assert (a + b)[|a + b| - 1] == b[|b| - 1];
    }
  }

  lemma {:induction false} KeysOfMember(g: seq<Node>, js: seq<nat>, k: nat)
    requires k < |js|
    ensures KeyAt(g, js[k]) in KeysOf(g, js)
    decreases |js|
  {
    if k < |js| - 1 {
      KeysOfMember(g, js[..|js| - 1], k);
    }
  }

  /** Every canonical key of the arena. */
  function AllKeys(g: seq<Node>): set<int>
  {
    set i | 0 <= i < |g| :: KeyAt(g, i)
  }

  lemma {:induction false} KeysOfInAll(g: seq<Node>, js: seq<nat>)
    requires InArena(g, js)
    ensures KeysOf(g, js) <= AllKeys(g)
    decreases |js|
  {
    if |js| > 0 {
      KeysOfInAll(g, js[..|js| - 1]);
      assert KeyAt(g, js[|js| - 1]) in AllKeys(g);
    }
  }

  // ---------------------------------------------------------------------------
  // Children lists

  /** The nine moves in index order. */
  const AllMoves: seq<int> := [0, 1, 2, 3, 4, 5, 6, 7, 8]

  /** Child m of node p, if any. */
  function ChildAt(g: seq<Node>, p: nat, m: int): Option<nat>
  {
    if p < |g| && 0 <= m < |g[p].children| then g[p].children[m] else None
  }

  /** Every move of ms leads to a child of n. */
  predicate MovesIn(n: Node, ms: seq<int>)
  {
    |n.children| == 9 && forall k :: 0 <= k < |ms| ==> 0 <= ms[k] < 9 && n.children[ms[k]].Some?
  }

  /** The children of node i reached by the first n moves of ms, in order,
      skipping moves without a child. */
  function PresentOf(g: seq<Node>, i: nat, ms: seq<int>, n: nat): seq<nat>
    requires n <= |ms|
  {
    if n == 0 then []
    else PresentOf(g, i, ms, n - 1) + (match ChildAt(g, i, ms[n - 1]) case Some(c) => [c] case None => [])
  }

  /** The non-null children of node i in move order. */
  function ChildList(g: seq<Node>, i: nat): seq<nat>
  {
    PresentOf(g, i, AllMoves, 9)
  }

  /** Listed children are arena nodes. */
  lemma {:induction false} PresentIn(g: seq<Node>, i: nat, ms: seq<int>, n: nat)
    requires Closed(g) && n <= |ms|
    ensures InArena(g, PresentOf(g, i, ms, n))
  {
    if n > 0 {
      PresentIn(g, i, ms, n - 1);
    }
  }

  /** Listed children lie one level below their parent. */
  lemma {:induction false} PresentDepth(g: seq<Node>, i: nat, ms: seq<int>, n: nat)
    requires Graph(g) && i < |g| && n <= |ms|
    ensures AtDepth(g, PresentOf(g, i, ms, n), Depth(g[i].board) + 1)
  {
    if n > 0 {
      PresentDepth(g, i, ms, n - 1);
      match ChildAt(g, i, ms[n - 1])
      case Some(c) =>
        assert AtDepth(g, [c], Depth(g[i].board) + 1);
        AtDepthAppend(g, PresentOf(g, i, ms, n - 1), [c], Depth(g[i].board) + 1);
      case None =>
    }
  }

  /** With every move present, the list has one child per move. */
  lemma {:induction false} PresentAll(g: seq<Node>, i: nat, ms: seq<int>, n: nat)
    requires i < |g| && MovesIn(g[i], ms) && n <= |ms|
    ensures |PresentOf(g, i, ms, n)| == n
    ensures forall k :: 0 <= k < n ==> PresentOf(g, i, ms, n)[k] == g[i].children[ms[k]].value
  {
    if n > 0 {
      PresentAll(g, i, ms, n - 1);
      var r := PresentOf(g, i, ms, n);
      forall k | 0 <= k < n
        ensures r[k] == g[i].children[ms[k]].value
      {
        if k < n - 1 {
          assert r[k] == PresentOf(g, i, ms, n - 1)[k];
        }
      }
    }
  }

  // ---------------------------------------------------------------------------
  // SolverZ3.MakeGraphExpressionSkips

  /** The moves the skipping builder follows out of n: its best moves, except at
      the top of the tree, where the one opening startPos stands for them all. */
  function SkipMoves(n: Node, startPos: int): seq<int>
  {
    if Depth(n.board) == 0 then (if |n.bestMoves| == 0 then [] else [startPos]) else n.bestMoves
  }

  function SkipAt(g: seq<Node>, p: nat, startPos: int): seq<int>
  {
    if p < |g| then SkipMoves(g[p], startPos) else []
  }

  /** Node p can be expanded: every move followed leads to a child. */
  predicate Expandable(g: seq<Node>, p: nat, startPos: int)
  {
    p < |g| && MovesIn(g[p], SkipMoves(g[p], startPos))
  }

  /** Every node of xs can be expanded. */
  predicate AllExpandable(g: seq<Node>, xs: seq<nat>, startPos: int)
  {
    forall k :: 0 <= k < |xs| ==> Expandable(g, xs[k], startPos)
  }

  /** What the builder demands of the tree: every best move below the top has a
      child, and a start node at the top with best moves has the opening. */
  ghost predicate SkipReady(g: seq<Node>, starts: seq<nat>, startPos: int)
  {
    Graph(g) &&
    (forall j :: 0 <= j < |g| && Depth(g[j].board) > 0 ==> MovesIn(g[j], g[j].bestMoves)) &&
    AllExpandable(g, starts, startPos)
  }

  /** When every best move leads to a child, the builder may start from any
      nodes, provided a start at the top has a child at the opening. */
  lemma PresentSkipReady(g: seq<Node>, starts: seq<nat>, startPos: int)
    requires Graph(g) && BestPresent(g) && InArena(g, starts)
    requires forall k :: 0 <= k < |starts| && Depth(g[starts[k]].board) == 0 ==>
               0 <= startPos < 9 && g[starts[k]].children[startPos].Some?
    ensures SkipReady(g, starts, startPos)
  {
  }

  /** FindOptimalGraph's two calls of the builder on the graph Generate
      builds and ScoreGraph scores meet its demands: from the root with an
      opening cell, and from the root's children with none. */
  lemma GeneratedSkipReady(mode: int, nodes: seq<Node>, keys: seq<int>, index: map<int, nat>,
                           nodesExamined: int, startPos: int)
    requires TreeGen.Built(mode, nodes, keys, index, nodesExamined) && 0 <= startPos < 9
    ensures Graph(Scoring.Solved(nodes))
    ensures SkipReady(Scoring.Solved(nodes), [0], startPos)
    ensures SkipReady(Scoring.Solved(nodes), ChildList(Scoring.Solved(nodes), 0), -1)
  {
    TreeGen.GeneratedSolved(mode, nodes, keys, index, nodesExamined);
    TreeGen.GeneratedRoot(mode, nodes, keys, index, nodesExamined);
    var h := Scoring.Solved(nodes);
    PresentSkipReady(h, [0], startPos);
    PresentIn(h, 0, AllMoves, 9);
    PresentDepth(h, 0, AllMoves, 9);
    PresentSkipReady(h, ChildList(h, 0), -1);
  }

  /** The grandchildren behind move m out of p. */
  function GrandAt(g: seq<Node>, p: nat, m: int): seq<nat>
  {
    match ChildAt(g, p, m)
    case Some(c) => ChildList(g, c)
    case None => []
  }

  /** One alternative of a parent: take move m, and then every grandchild
      behind it must be covered. */
  function Choice(g: seq<Node>, p: nat, m: int): Formula
  {
    All([Var(EdgeVar(KeyAt(g, p), m))] + VertsOf(g, GrandAt(g, p, m)))
  }

  /** The alternatives of p for the first n moves of ms. */
  function ChoicesOf(g: seq<Node>, p: nat, ms: seq<int>, n: nat): (r: seq<Formula>)
    requires n <= |ms|
    ensures |r| == n
  {
    if n == 0 then [] else ChoicesOf(g, p, ms, n - 1) + [Choice(g, p, ms[n - 1])]
  }

  /** The grandchildren reached through the first n moves of ms, in order. */
  function GrandOf(g: seq<Node>, p: nat, ms: seq<int>, n: nat): seq<nat>
    requires n <= |ms|
  {
    if n == 0 then [] else GrandOf(g, p, ms, n - 1) + GrandAt(g, p, ms[n - 1])
  }

  /** The move variables registered for the first n moves of ms. */
  function MoveKeys(g: seq<Node>, p: nat, ms: seq<int>, n: nat): set<(int, int)>
    requires n <= |ms|
  {
    if n == 0 then {} else MoveKeys(g, p, ms, n - 1) + {(KeyAt(g, p), ms[n - 1])}
  }

  /** The grandchildren p hands to the frontier. */
  function Grandchildren(g: seq<Node>, p: nat, startPos: int): seq<nat>
  {
    var ms := SkipAt(g, p, startPos);
    GrandOf(g, p, ms, |ms|)
  }

  /** The clause added for p: covering p means taking one of its alternatives
      (none when p has no best move). */
  function Clause(g: seq<Node>, p: nat, startPos: int): seq<Formula>
  {
    var ms := SkipAt(g, p, startPos);
    if |ms| == 0 then [] else [Implies(Var(VertVar(KeyAt(g, p))), Any(ChoicesOf(g, p, ms, |ms|)))]
  }

  /** The clauses of the expanded nodes xs, in order. */
  function ClausesOf(g: seq<Node>, xs: seq<nat>, startPos: int): seq<Formula>
    decreases |xs|
  {
    if |xs| == 0 then [] else ClausesOf(g, xs[..|xs| - 1], startPos) + Clause(g, xs[|xs| - 1], startPos)
  }

  /** The keys of all grandchildren of the expanded nodes xs. */
  function ReachedKeys(g: seq<Node>, xs: seq<nat>, startPos: int): set<int>
    decreases |xs|
  {
    if |xs| == 0 then {}
    else ReachedKeys(g, xs[..|xs| - 1], startPos) + KeysOf(g, Grandchildren(g, xs[|xs| - 1], startPos))
  }

  /** The move variables of the expanded nodes xs. */
  function EdgeKeys(g: seq<Node>, xs: seq<nat>, startPos: int): set<(int, int)>
    decreases |xs|
  {
    if |xs| == 0 then {}
    else
      var x := xs[|xs| - 1];
      var ms := SkipAt(g, x, startPos);
      EdgeKeys(g, xs[..|xs| - 1], startPos) + MoveKeys(g, x, ms, |ms|)
  }

  /** Grandchildren are arena nodes. */
  lemma {:induction false} GrandIn(g: seq<Node>, p: nat, ms: seq<int>, n: nat)
    requires Closed(g) && n <= |ms|
    ensures InArena(g, GrandOf(g, p, ms, n))
  {
    if n > 0 {
      GrandIn(g, p, ms, n - 1);
      match ChildAt(g, p, ms[n - 1])
      case Some(c) => PresentIn(g, c, AllMoves, 9);
      case None =>
    }
  }

  /** Every node of xs lies at depth d. */
  ghost predicate AtDepth(g: seq<Node>, xs: seq<nat>, d: int)
  {
    forall k :: 0 <= k < |xs| ==> xs[k] < |g| && Depth(g[xs[k]].board) == d
  }

  lemma AtDepthAppend(g: seq<Node>, a: seq<nat>, b: seq<nat>, d: int)
    requires AtDepth(g, a, d) && AtDepth(g, b, d)
    ensures AtDepth(g, a + b, d)
  {
    forall k | 0 <= k < |a + b|
      ensures (a + b)[k] < |g| && Depth(g[(a + b)[k]].board) == d
    {
      if k < |a| {
        assert (a + b)[k] == a[k];
      } else {
        assert (a + b)[k] == b[k - |a|];
      }
    }
  }

  /** A grandchild lies two levels below its grandparent. */
  lemma {:induction false} GrandDepth(g: seq<Node>, p: nat, ms: seq<int>, n: nat)
    requires Graph(g) && p < |g| && MovesIn(g[p], ms) && n <= |ms|
    ensures AtDepth(g, GrandOf(g, p, ms, n), Depth(g[p].board) + 2)
  {
    if n > 0 {
      GrandDepth(g, p, ms, n - 1);
      var c := g[p].children[ms[n - 1]].value;
      PresentDepth(g, c, AllMoves, 9);
      assert GrandAt(g, p, ms[n - 1]) == ChildList(g, c);
      AtDepthAppend(g, GrandOf(g, p, ms, n - 1), ChildList(g, c), Depth(g[p].board) + 2);
    }
  }

  /** Expand one parent: register the variable of each move followed and of the
      grandchildren behind it, collecting the alternatives. */
  method ExpandParent(g: seq<Node>, p: nat, ms: seq<int>, e: Expr) returns (options: seq<Formula>, found: seq<nat>)
    requires Closed(g) && p < |g| && MovesIn(g[p], ms)
    modifies e
    ensures e.expr == old(e.expr)
    ensures options == ChoicesOf(g, p, ms, |ms|) && found == GrandOf(g, p, ms, |ms|)
    ensures e.verts == old(e.verts) + KeysOf(g, found)
    ensures e.edges == old(e.edges) + MoveKeys(g, p, ms, |ms|)
  {
    options, found := [], [];
    for i := 0 to |ms|
      invariant e.expr == old(e.expr)
      invariant options == ChoicesOf(g, p, ms, i) && found == GrandOf(g, p, ms, i)
      invariant e.verts == old(e.verts) + KeysOf(g, found)
      invariant e.edges == old(e.edges) + MoveKeys(g, p, ms, i)
    {
      options, found := ExpandMove(g, p, ms, i, e, options, found, old(e.verts), old(e.edges));
    }
  }

  /** Move ms[i] out of p: its variable and those of the grandchildren behind
      it, appended to what the earlier moves collected. */
  method ExpandMove(g: seq<Node>, p: nat, ms: seq<int>, i: nat, e: Expr, options: seq<Formula>, found: seq<nat>,
                    ghost v0: set<int>, ghost e0: set<(int, int)>)
    returns (options': seq<Formula>, found': seq<nat>)
    requires Closed(g) && p < |g| && MovesIn(g[p], ms) && i < |ms|
    requires options == ChoicesOf(g, p, ms, i) && found == GrandOf(g, p, ms, i)
    requires e.verts == v0 + KeysOf(g, found) && e.edges == e0 + MoveKeys(g, p, ms, i)
    modifies e
    ensures e.expr == old(e.expr)
    ensures options' == ChoicesOf(g, p, ms, i + 1) && found' == GrandOf(g, p, ms, i + 1)
    ensures e.verts == v0 + KeysOf(g, found') && e.edges == e0 + MoveKeys(g, p, ms, i + 1)
  {
    var m := ms[i];
    var child := g[p].children[m].value;
    var edgeVar := e.AddEdge(g[p], m);
    var grandchildren := ChildList(g, child);
    PresentIn(g, child, AllMoves, 9);
    var vs := AddVerts(g, grandchildren, e);
    options' := options + [All([edgeVar] + vs)];
    found' := found + grandchildren;
    MoveStep(g, p, ms, i, child);
    KeysOfAppend(g, found, grandchildren);
  }

  /** The spec functions one move further on. */
  lemma MoveStep(g: seq<Node>, p: nat, ms: seq<int>, i: nat, child: nat)
    requires i < |ms| && ChildAt(g, p, ms[i]) == Some(child)
    ensures ChoicesOf(g, p, ms, i + 1) ==
            ChoicesOf(g, p, ms, i) + [All([Var(EdgeVar(KeyAt(g, p), ms[i]))] + VertsOf(g, ChildList(g, child)))]
    ensures GrandOf(g, p, ms, i + 1) == GrandOf(g, p, ms, i) + ChildList(g, child)
    ensures MoveKeys(g, p, ms, i + 1) == MoveKeys(g, p, ms, i) + {(KeyAt(g, p), ms[i])}
  {
    GrandAtChild(g, p, ms[i], child);
  }

  lemma GrandAtChild(g: seq<Node>, p: nat, m: int, child: nat)
    requires ChildAt(g, p, m) == Some(child)
    ensures GrandAt(g, p, m) == ChildList(g, child)
    ensures Choice(g, p, m) == All([Var(EdgeVar(KeyAt(g, p), m))] + VertsOf(g, ChildList(g, child)))
  {
  }

  // The main loop

  /** No two of the nodes xs share a canonical key. */
  predicate DistinctKeys(g: seq<Node>, xs: seq<nat>)
  {
    forall i, j :: 0 <= i < j < |xs| ==> KeyAt(g, xs[i]) != KeyAt(g, xs[j])
  }

  /** The nodes of found whose key is not in processed, in order: those the
      builder appends to the frontier. */
  function Unseen(g: seq<Node>, found: seq<nat>, processed: set<int>): seq<nat>
    decreases |found|
  {
    if |found| == 0 then []
    else
      var x := found[|found| - 1];
      Unseen(g, found[..|found| - 1], processed) + (if KeyAt(g, x) in processed then [] else [x])
  }

  /** The keys met so far: those of the start nodes and of every grandchild of
      an expanded node. */
  function Reached(g: seq<Node>, starts: seq<nat>, expanded: seq<nat>, startPos: int): set<int>
  {
    KeysOf(g, starts) + ReachedKeys(g, expanded, startPos)
  }

  /** The loop invariant on the queue and the processed set: the expanded nodes
      have distinct keys, exactly the processed ones, and every key met is
      processed or waits in the frontier. */
  ghost predicate SkipInv(g: seq<Node>, starts: seq<nat>, startPos: int,
                          frontier: seq<nat>, processed: set<int>, expanded: seq<nat>)
  {
    SkipReady(g, starts, startPos) && AllExpandable(g, frontier, startPos) && InArena(g, expanded) &&
    processed == KeysOf(g, expanded) && processed <= AllKeys(g) && DistinctKeys(g, expanded) &&
    Reached(g, starts, expanded, startPos) == processed + KeysOf(g, frontier)
  }

  /** The loop invariant on the expression: the start conjunct and one clause per
      expanded node, with exactly the variables met registered. */
  predicate StateInv(g: seq<Node>, starts: seq<nat>, startPos: int, expanded: seq<nat>,
                     expr: Formula, verts: set<int>, edges: set<(int, int)>,
                     expr0: Formula, verts0: set<int>, edges0: set<(int, int)>)
  {
    expr == Chain(expr0, [All(VertsOf(g, starts))] + ClausesOf(g, expanded, startPos)) &&
    verts == verts0 + Reached(g, starts, expanded, startPos) &&
    edges == edges0 + EdgeKeys(g, expanded, startPos)
  }

  /** The nodes the builder's queue expands, in order, starting from the
      queue frontier with the keys of processed already expanded: a head whose
      key is processed is dropped; any other head is expanded, its key becomes
      processed and its grandchildren with unprocessed keys join the back of
      the queue. The first node dequeued with a key is the one expanded. */
  function SkipRun(g: seq<Node>, startPos: int, frontier: seq<nat>, processed: set<int>): seq<nat>
    requires Closed(g) && InArena(g, frontier)
    decreases AllKeys(g) - processed, |frontier|
  {
    if |frontier| == 0 then []
    else
      var p := frontier[0];
      var h := KeyAt(g, p);
      assert h in AllKeys(g);
      if h in processed then SkipRun(g, startPos, frontier[1..], processed)
      else
        var found := Grandchildren(g, p, startPos);
        var ms := SkipAt(g, p, startPos);
        GrandIn(g, p, ms, |ms|);
        UnseenIn(g, found, processed + {h});
        [p] + SkipRun(g, startPos, frontier[1..] + Unseen(g, found, processed + {h}), processed + {h})
  }

  /** A head whose key is processed is dropped from the run. */
  lemma SkipRunDrop(g: seq<Node>, startPos: int, frontier: seq<nat>, processed: set<int>)
    requires Closed(g) && InArena(g, frontier) && |frontier| > 0 && KeyAt(g, frontier[0]) in processed
    ensures InArena(g, frontier[1..])
    ensures SkipRun(g, startPos, frontier, processed) == SkipRun(g, startPos, frontier[1..], processed)
  {
  }

  /** Any other head is the next node expanded, and the run goes on from the
      grown queue. */
  lemma SkipRunExpand(g: seq<Node>, startPos: int, frontier: seq<nat>, processed: set<int>)
    requires Closed(g) && InArena(g, frontier) && |frontier| > 0 && KeyAt(g, frontier[0]) !in processed
    ensures var h := KeyAt(g, frontier[0]);
            var next := frontier[1..] + Unseen(g, Grandchildren(g, frontier[0], startPos), processed + {h});
            InArena(g, next) &&
            SkipRun(g, startPos, frontier, processed) == [frontier[0]] + SkipRun(g, startPos, next, processed + {h})
  {
    var p := frontier[0];
    var ms := SkipAt(g, p, startPos);
    GrandIn(g, p, ms, |ms|);
    UnseenIn(g, Grandchildren(g, p, startPos), processed + {KeyAt(g, p)});
  }

  /** The nodes a builder appends to its queue are arena nodes. */
  lemma {:induction false} UnseenIn(g: seq<Node>, found: seq<nat>, processed: set<int>)
    requires InArena(g, found)
    ensures InArena(g, Unseen(g, found, processed))
    decreases |found|
  {
    if |found| > 0 {
      var pre := found[..|found| - 1];
      assert InArena(g, pre);
      UnseenIn(g, pre, processed);
    }
  }

  /** SolverZ3.MakeGraphExpressionSkips: conjoins that every start node is
      covered, then expands positions breadth first, each canonical key once:
      covering a position means taking one of its followed moves together with
      every reply to it. On return every key met has been expanded exactly
      once. */
  method MakeGraphExpressionSkips(g: seq<Node>, starts: seq<nat>, startPos: int, e: Expr)
    returns (ghost expanded: seq<nat>)
    requires SkipReady(g, starts, startPos)
    modifies e
    ensures InArena(g, expanded) && DistinctKeys(g, expanded)
    ensures KeysOf(g, expanded) == KeysOf(g, starts) + ReachedKeys(g, expanded, startPos)
    ensures e.expr == Chain(old(e.expr), [All(VertsOf(g, starts))] + ClausesOf(g, expanded, startPos))
    ensures e.verts == old(e.verts) + KeysOf(g, expanded)
    ensures e.edges == old(e.edges) + EdgeKeys(g, expanded, startPos)
    ensures InArena(g, starts) && expanded == SkipRun(g, startPos, starts, {})
  {
    ExpandableIn(g, starts, startPos);
    var vs := AddVerts(g, starts, e);
    e.And(All(vs));
    var frontier := starts;
    var processed: set<int> := {};
    expanded := [];
    ghost var run := SkipRun(g, startPos, starts, {});
    while |frontier| > 0
      invariant SkipInv(g, starts, startPos, frontier, processed, expanded)
      invariant InArena(g, frontier) && expanded + SkipRun(g, startPos, frontier, processed) == run
      invariant StateInv(g, starts, startPos, expanded, e.expr, e.verts, e.edges, old(e.expr), old(e.verts), old(e.edges))
      decreases AllKeys(g) - processed, |frontier|
    {
      frontier, processed, expanded :=
        SkipStep(g, starts, startPos, e, frontier, processed, expanded, old(e.expr), old(e.verts), old(e.edges));
    }
    assert expanded + [] == run;
  }

  /** One round of the loop: dequeue a node; skip it when its key is processed,
      expand it otherwise. */
  method SkipStep(g: seq<Node>, starts: seq<nat>, startPos: int, e: Expr,
                  frontier: seq<nat>, processed: set<int>, ghost expanded: seq<nat>,
                  ghost x0: Formula, ghost v0: set<int>, ghost d0: set<(int, int)>)
    returns (frontier': seq<nat>, processed': set<int>, ghost expanded': seq<nat>)
    requires SkipInv(g, starts, startPos, frontier, processed, expanded) && |frontier| > 0
    requires StateInv(g, starts, startPos, expanded, e.expr, e.verts, e.edges, x0, v0, d0)
    modifies e
    ensures SkipInv(g, starts, startPos, frontier', processed', expanded')
    ensures StateInv(g, starts, startPos, expanded', e.expr, e.verts, e.edges, x0, v0, d0)
    ensures AllKeys(g) - processed' < AllKeys(g) - processed ||
            (processed' == processed && |frontier'| < |frontier|)
    ensures InArena(g, frontier) && InArena(g, frontier') &&
            expanded' + SkipRun(g, startPos, frontier', processed') == expanded + SkipRun(g, startPos, frontier, processed)
  {
    var parent := frontier[0];
    var _, h := Fingerprints(g[parent]);
    if h in processed {
      frontier', processed', expanded' := frontier[1..], processed, expanded;
      SkipQueue(g, starts, startPos, frontier, processed, expanded);
    } else {
      frontier', processed', expanded' := ExpandNode(g, starts, startPos, e, frontier, processed, expanded, x0, v0, d0);
    }
    ExpandableIn(g, frontier, startPos);
    SkipRunStep(g, startPos, frontier, processed, expanded, frontier', processed', expanded');
  }

  /** One round of the loop advances along the run: the nodes expanded so far
      followed by the run from the queue stay the same. */
  lemma SkipRunStep(g: seq<Node>, startPos: int, frontier: seq<nat>, processed: set<int>, expanded: seq<nat>,
                    frontier': seq<nat>, processed': set<int>, expanded': seq<nat>)
    requires Closed(g) && InArena(g, frontier) && |frontier| > 0
    requires KeyAt(g, frontier[0]) in processed ==>
               frontier' == frontier[1..] && processed' == processed && expanded' == expanded
    requires KeyAt(g, frontier[0]) !in processed ==>
               processed' == processed + {KeyAt(g, frontier[0])} && expanded' == expanded + [frontier[0]] &&
               frontier' == frontier[1..] + Unseen(g, Grandchildren(g, frontier[0], startPos), processed')
    ensures InArena(g, frontier')
    ensures expanded' + SkipRun(g, startPos, frontier', processed') == expanded + SkipRun(g, startPos, frontier, processed)
  {
    if KeyAt(g, frontier[0]) in processed {
      SkipRunDrop(g, startPos, frontier, processed);
    } else {
      SkipRunExpand(g, startPos, frontier, processed);
      var rest := SkipRun(g, startPos, frontier', processed');
      assert SkipRun(g, startPos, frontier, processed) == [frontier[0]] + rest;
      SeqAssoc(expanded, [frontier[0]], rest);
    }
  }

  /** Concatenation is associative. */
  lemma SeqAssoc<T>(a: seq<T>, b: seq<T>, c: seq<T>)
    ensures (a + b) + c == a + (b + c)
  {
  }

  /** Dropping a head whose key is processed keeps the invariant. */
  lemma SkipQueue(g: seq<Node>, starts: seq<nat>, startPos: int,
                  frontier: seq<nat>, processed: set<int>, expanded: seq<nat>)
    requires SkipInv(g, starts, startPos, frontier, processed, expanded) && |frontier| > 0
    requires KeyAt(g, frontier[0]) in processed
    ensures SkipInv(g, starts, startPos, frontier[1..], processed, expanded)
  {
    DequeueKeys(g, frontier);
    DequeueExpandable(g, frontier, startPos);
  }

  /** Expand the unprocessed node at the head of the frontier. */
  method ExpandNode(g: seq<Node>, starts: seq<nat>, startPos: int, e: Expr,
                    frontier: seq<nat>, processed: set<int>, ghost expanded: seq<nat>,
                    ghost x0: Formula, ghost v0: set<int>, ghost d0: set<(int, int)>)
    returns (frontier': seq<nat>, processed': set<int>, ghost expanded': seq<nat>)
    requires SkipInv(g, starts, startPos, frontier, processed, expanded) && |frontier| > 0
    requires KeyAt(g, frontier[0]) !in processed
    requires StateInv(g, starts, startPos, expanded, e.expr, e.verts, e.edges, x0, v0, d0)
    modifies e
    ensures SkipInv(g, starts, startPos, frontier', processed', expanded')
    ensures StateInv(g, starts, startPos, expanded', e.expr, e.verts, e.edges, x0, v0, d0)
    ensures AllKeys(g) - processed' < AllKeys(g) - processed
    ensures processed' == processed + {KeyAt(g, frontier[0])} && expanded' == expanded + [frontier[0]]
    ensures frontier' == frontier[1..] + Unseen(g, Grandchildren(g, frontier[0], startPos), processed')
  {
    var parent := frontier[0];
    var _, h := Fingerprints(g[parent]);
    DequeueKeys(g, frontier);
    DequeueExpandable(g, frontier, startPos);
    processed' := processed + {h};
    var ms := SkipMoves(g[parent], startPos);
    ghost var x1, v1, d1 := e.expr, e.verts, e.edges;
    var options, found := ExpandParent(g, parent, ms, e);
    GrandIn(g, parent, ms, |ms|);
    frontier' := Enqueue(g, frontier[1..], found, processed');
    if |options| > 0 {
      var v := e.AddVert(g[parent]);
      e.And(Implies(v, Any(options)));
    }
    expanded' := expanded + [parent];
    ExpandQueue(g, starts, startPos, frontier, processed, expanded, found);
    ExpandState(g, starts, startPos, expanded, parent, x0, v0, d0, x1, v1, d1, e.expr, e.verts, e.edges, found);
  }

  /** The queue and key facts after expanding the head of the frontier. */
  lemma ExpandQueue(g: seq<Node>, starts: seq<nat>, startPos: int,
                    frontier: seq<nat>, processed: set<int>, expanded: seq<nat>, found: seq<nat>)
    requires SkipInv(g, starts, startPos, frontier, processed, expanded) && |frontier| > 0
    requires KeyAt(g, frontier[0]) !in processed
    requires found == Grandchildren(g, frontier[0], startPos)
    ensures SkipInv(g, starts, startPos, frontier[1..] + Unseen(g, found, processed + {KeyAt(g, frontier[0])}),
                    processed + {KeyAt(g, frontier[0])}, expanded + [frontier[0]])
  {
    var parent := frontier[0];
    DequeueExpandable(g, frontier, startPos);
    QueueExpandable(g, starts, startPos, frontier[1..], parent, found, processed + {KeyAt(g, parent)});
    QueueKeys(g, starts, startPos, frontier, processed, expanded, found);
  }

  /** The grown frontier can still be expanded. */
  lemma QueueExpandable(g: seq<Node>, starts: seq<nat>, startPos: int,
                        rest: seq<nat>, parent: nat, found: seq<nat>, processed: set<int>)
    requires SkipReady(g, starts, startPos) && AllExpandable(g, rest, startPos) && Expandable(g, parent, startPos)
    requires found == Grandchildren(g, parent, startPos)
    ensures AllExpandable(g, rest + Unseen(g, found, processed), startPos)
  {
    var ms := SkipMoves(g[parent], startPos);
    GrandDepth(g, parent, ms, |ms|);
    FoundExpandable(g, starts, startPos, found, Depth(g[parent].board) + 2);
    UnseenExpandable(g, found, processed, startPos);
    AllExpandableAppend(g, rest, Unseen(g, found, processed), startPos);
  }

  /** The processed keys, their distinctness and the keys met after expanding
      the head of the frontier. */
  lemma QueueKeys(g: seq<Node>, starts: seq<nat>, startPos: int,
                  frontier: seq<nat>, processed: set<int>, expanded: seq<nat>, found: seq<nat>)
    requires |frontier| > 0 && frontier[0] < |g| && KeyAt(g, frontier[0]) !in processed
    requires processed == KeysOf(g, expanded) && DistinctKeys(g, expanded)
    requires Reached(g, starts, expanded, startPos) == processed + KeysOf(g, frontier)
    requires found == Grandchildren(g, frontier[0], startPos)
    ensures processed + {KeyAt(g, frontier[0])} == KeysOf(g, expanded + [frontier[0]])
    ensures DistinctKeys(g, expanded + [frontier[0]])
    ensures KeyAt(g, frontier[0]) in AllKeys(g)
    ensures Reached(g, starts, expanded + [frontier[0]], startPos) ==
            processed + {KeyAt(g, frontier[0])} + KeysOf(g, frontier[1..] + Unseen(g, found, processed + {KeyAt(g, frontier[0])}))
  {
    var parent := frontier[0];
    var h := KeyAt(g, parent);
    var u := Unseen(g, found, processed + {h});
    DequeueKeys(g, frontier);
    UnseenKeys(g, found, processed + {h});
    KeysOfAppend(g, frontier[1..], u);
    SnocFacts(g, expanded, parent, startPos);
    DistinctSnoc(g, expanded, parent);
    SetStep(Reached(g, starts, expanded, startPos), processed, KeysOf(g, frontier[1..]), h,
            KeysOf(g, found), KeysOf(g, u));
  }

  /** The set algebra of the key invariant across one expansion. */
  lemma SetStep(reached: set<int>, processed: set<int>, rest: set<int>, h: int, found: set<int>, unseen: set<int>)
    requires reached == processed + ({h} + rest)
    requires unseen <= found && found <= (processed + {h}) + unseen
    ensures reached + found == (processed + {h}) + (rest + unseen)
  {
  }

  /** The expression, variable and move-variable facts after one expansion. */
  lemma ExpandState(g: seq<Node>, starts: seq<nat>, startPos: int, expanded: seq<nat>, parent: nat,
                    x0: Formula, v0: set<int>, d0: set<(int, int)>,
                    x1: Formula, v1: set<int>, d1: set<(int, int)>,
                    x2: Formula, v2: set<int>, d2: set<(int, int)>, found: seq<nat>)
    requires StateInv(g, starts, startPos, expanded, x1, v1, d1, x0, v0, d0)
    requires KeyAt(g, parent) in Reached(g, starts, expanded, startPos)
    requires found == Grandchildren(g, parent, startPos)
    requires x2 == Chain(x1, Clause(g, parent, startPos))
    requires v1 + KeysOf(g, found) <= v2 <= v1 + KeysOf(g, found) + {KeyAt(g, parent)}
    requires d2 == d1 + MoveKeys(g, parent, SkipAt(g, parent, startPos), |SkipAt(g, parent, startPos)|)
    ensures StateInv(g, starts, startPos, expanded + [parent], x2, v2, d2, x0, v0, d0)
  {
    SnocFacts(g, expanded, parent, startPos);
    ExprStep(x0, [All(VertsOf(g, starts))], ClausesOf(g, expanded, startPos), Clause(g, parent, startPos), x1, x2);
    VertStep(v0 + KeysOf(g, starts), ReachedKeys(g, expanded, startPos), v1, v2, KeysOf(g, found), KeyAt(g, parent));
  }

  /** Conjoining one more clause extends the chain by it. */
  lemma ExprStep(x0: Formula, a: seq<Formula>, c: seq<Formula>, k: seq<Formula>, x1: Formula, x2: Formula)
    requires x1 == Chain(x0, a + c) && x2 == Chain(x1, k)
    ensures x2 == Chain(x0, a + (c + k))
  {
    ChainAppend(x0, a + c, k);
    assert a + (c + k) == (a + c) + k;
  }

  /** The set algebra of the registered position variables across one
      expansion. */
  lemma VertStep(base: set<int>, reached: set<int>, v1: set<int>, v2: set<int>, found: set<int>, h: int)
    requires v1 == base + reached && h in base + reached
    requires v1 + found <= v2 <= v1 + found + {h}
    ensures v2 == base + (reached + found)
  {
  }

  /** Append the unseen nodes of found to the frontier, one at a time. */
  method Enqueue(g: seq<Node>, frontier: seq<nat>, found: seq<nat>, processed: set<int>) returns (r: seq<nat>)
    requires Closed(g) && InArena(g, found)
    ensures r == frontier + Unseen(g, found, processed)
  {
    r := frontier;
    for j := 0 to |found|
      invariant r == frontier + Unseen(g, found[..j], processed)
    {
      var _, h := Fingerprints(g[found[j]]);
      UnseenSnoc(g, found, j, processed);
      if h !in processed {
        r := r + [found[j]];
      }
    }
    assert found[..|found|] == found;
  }

  lemma UnseenSnoc(g: seq<Node>, found: seq<nat>, j: nat, processed: set<int>)
    requires j < |found|
    ensures Unseen(g, found[..j + 1], processed) ==
            Unseen(g, found[..j], processed) + (if KeyAt(g, found[j]) in processed then [] else [found[j]])
  {
    assert found[..j + 1][..j] == found[..j];
  }

  /** Every expandable node is an arena node. */
  lemma ExpandableIn(g: seq<Node>, xs: seq<nat>, startPos: int)
    requires AllExpandable(g, xs, startPos)
    ensures InArena(g, xs)
  {
  }

  /** The keys of a frontier are those of its head and of its tail. */
  lemma DequeueKeys(g: seq<Node>, f: seq<nat>)
    requires |f| > 0
    ensures KeysOf(g, f) == {KeyAt(g, f[0])} + KeysOf(g, f[1..])
  {
    assert f == [f[0]] + f[1..];
    KeysOfAppend(g, [f[0]], f[1..]);
    assert [f[0]][..0] == [];
  }

  lemma DequeueExpandable(g: seq<Node>, f: seq<nat>, startPos: int)
    requires AllExpandable(g, f, startPos) && |f| > 0
    ensures Expandable(g, f[0], startPos) && AllExpandable(g, f[1..], startPos)
  {
    forall k | 0 <= k < |f[1..]|
      ensures Expandable(g, f[1..][k], startPos)
    {
      assert f[1..][k] == f[k + 1];
    }
  }

  lemma AllExpandableAppend(g: seq<Node>, a: seq<nat>, b: seq<nat>, startPos: int)
    requires AllExpandable(g, a, startPos) && AllExpandable(g, b, startPos)
    ensures AllExpandable(g, a + b, startPos)
  {
    forall k | 0 <= k < |a + b|
      ensures Expandable(g, (a + b)[k], startPos)
    {
      if k < |a| {
        assert (a + b)[k] == a[k];
      } else {
        assert (a + b)[k] == b[k - |a|];
      }
    }
  }

  /** Nodes below the top of the tree can be expanded. */
  lemma FoundExpandable(g: seq<Node>, starts: seq<nat>, startPos: int, found: seq<nat>, d: int)
    requires SkipReady(g, starts, startPos) && AtDepth(g, found, d) && d > 0
    ensures AllExpandable(g, found, startPos)
  {
    forall k | 0 <= k < |found|
      ensures Expandable(g, found[k], startPos)
    {
      assert Depth(g[found[k]].board) > 0;
    }
  }

  /** Unseen keeps exactly the keys of found that are not processed. */
  lemma {:induction false} UnseenKeys(g: seq<Node>, found: seq<nat>, processed: set<int>)
    ensures KeysOf(g, Unseen(g, found, processed)) <= KeysOf(g, found)
    ensures KeysOf(g, found) <= processed + KeysOf(g, Unseen(g, found, processed))
    decreases |found|
  {
    if |found| > 0 {
      var pre := found[..|found| - 1];
      var x := found[|found| - 1];
      UnseenKeys(g, pre, processed);
      assert KeysOf(g, found) == KeysOf(g, pre) + {KeyAt(g, x)};
      if KeyAt(g, x) !in processed {
        assert Unseen(g, found, processed) == Unseen(g, pre, processed) + [x];
        KeysOfAppend(g, Unseen(g, pre, processed), [x]);
        assert [x][..0] == [];
        assert KeysOf(g, [x]) == {KeyAt(g, x)};
      } else {
        assert Unseen(g, found, processed) == Unseen(g, pre, processed);
      }
    }
  }

  lemma {:induction false} UnseenExpandable(g: seq<Node>, found: seq<nat>, processed: set<int>, startPos: int)
    requires AllExpandable(g, found, startPos)
    ensures AllExpandable(g, Unseen(g, found, processed), startPos)
    decreases |found|
  {
    if |found| > 0 {
      var pre := found[..|found| - 1];
      var x := found[|found| - 1];
      assert AllExpandable(g, pre, startPos);
      UnseenExpandable(g, pre, processed, startPos);
      if KeyAt(g, x) !in processed {
        AllExpandableAppend(g, Unseen(g, pre, processed), [x], startPos);
      }
    }
  }

  /** The spec functions of the loop one expanded node further on. */
  lemma SnocFacts(g: seq<Node>, xs: seq<nat>, x: nat, startPos: int)
    ensures KeysOf(g, xs + [x]) == KeysOf(g, xs) + {KeyAt(g, x)}
    ensures ClausesOf(g, xs + [x], startPos) == ClausesOf(g, xs, startPos) + Clause(g, x, startPos)
    ensures ReachedKeys(g, xs + [x], startPos) == ReachedKeys(g, xs, startPos) + KeysOf(g, Grandchildren(g, x, startPos))
    ensures EdgeKeys(g, xs + [x], startPos) ==
            EdgeKeys(g, xs, startPos) + MoveKeys(g, x, SkipAt(g, x, startPos), |SkipAt(g, x, startPos)|)
  {
    assert (xs + [x])[..|xs|] == xs;
  }

  lemma DistinctSnoc(g: seq<Node>, xs: seq<nat>, x: nat)
    requires DistinctKeys(g, xs) && KeyAt(g, x) !in KeysOf(g, xs)
    ensures DistinctKeys(g, xs + [x])
  {
    var ys := xs + [x];
    forall i, j | 0 <= i < j < |ys|
      ensures KeyAt(g, ys[i]) != KeyAt(g, ys[j])
    {
      assert ys[i] == xs[i];
      if j < |xs| {
        assert ys[j] == xs[j];
      } else {
        KeysOfMember(g, xs, i);
      }
    }
  }

  // ---------------------------------------------------------------------------
  // SolverZ3.MakeGraphExpressionAll

  /** AddEdges' choice of connective: a parent at even depth needs all its
      targets when the opponent moves there, that is unless the computer moves
      first; at odd depth the other way round. */
  function RequireAll(depth: nat, computerFirst: bool): bool
  {
    var isOdd := depth % 2 == 1;
    computerFirst != !isOdd
  }

  /** One level down, the connective flips. */
  lemma RequireAllFlips(d: nat, computerFirst: bool)
    ensures RequireAll(d + 1, computerFirst) == !RequireAll(d, computerFirst)
  {
  }

  /** Every best move of the arena is a cell index. */
  predicate BestInRange(g: seq<Node>)
  {
    forall j, k :: 0 <= j < |g| && 0 <= k < |g[j].bestMoves| ==> 0 <= g[j].bestMoves[k] < 9
  }

  /** The children Recurse descends into from b, nulls removed: when picking, the
      opening startPos at the top (every child when startPos is negative) and
      the best moves below; otherwise every child. */
  function Targets(g: seq<Node>, b: nat, pickBest: bool, startPos: int): seq<nat>
  {
    if b >= |g| then []
    else if pickBest && Depth(g[b].board) == 0 then
      (if startPos >= 0 then PresentOf(g, b, [startPos], 1) else ChildList(g, b))
    else if pickBest then PresentOf(g, b, g[b].bestMoves, |g[b].bestMoves|)
    else ChildList(g, b)
  }

  lemma TargetsDepth(g: seq<Node>, b: nat, pickBest: bool, startPos: int)
    requires Graph(g) && b < |g|
    ensures AtDepth(g, Targets(g, b, pickBest, startPos), Depth(g[b].board) + 1)
  {
    if pickBest && Depth(g[b].board) == 0 && startPos >= 0 {
      PresentDepth(g, b, [startPos], 1);
    } else if pickBest && Depth(g[b].board) != 0 {
      PresentDepth(g, b, g[b].bestMoves, |g[b].bestMoves|);
    } else {
      PresentDepth(g, b, AllMoves, 9);
    }
  }

  /** A call of the local function Recurse: the node and whether a best move is
      picked there. */
  datatype Call = Call(node: nat, pickBest: bool)

  /** The calls of Recurse(b, pickBest), in call order: b itself, then the
      calls below each target with the choice flipped. Shared positions are
      visited once per path. */
  function Calls(g: seq<Node>, b: nat, pickBest: bool, startPos: int): (r: seq<Call>)
    requires Graph(g) && b < |g|
    ensures |r| > 0 && r[0] == Call(b, pickBest)
    decreases 9 - D(g, b), |Targets(g, b, pickBest, startPos)| + 1
  {
    TargetsDepth(g, b, pickBest, startPos);
    [Call(b, pickBest)] + CallsFrom(g, Targets(g, b, pickBest, startPos), D(g, b), !pickBest, startPos, |Targets(g, b, pickBest, startPos)|)
  }

  /** The calls below the targets ts of a parent at depth d, in order. */
  function CallsFrom(g: seq<Node>, ts: seq<nat>, d: nat, pickBest: bool, startPos: int, n: nat): seq<Call>
    requires Graph(g) && AtDepth(g, ts, d + 1) && n <= |ts|
    decreases 9 - d, n
  {
    if n == 0 then []
    else CallsFrom(g, ts, d, pickBest, startPos, n - 1) + Calls(g, ts[n - 1], pickBest, startPos)
  }

  /** The consequence of AddEdges: all of the targets or one of them. */
  function Join(requireAll: bool, vs: seq<Formula>): Formula
  {
    if requireAll then All(vs) else Any(vs)
  }

  /** Whether AddEdges requires every target of node b. */
  function NeedAll(g: seq<Node>, b: nat, computerFirst: bool): bool
  {
    b < |g| && RequireAll(Depth(g[b].board), computerFirst)
  }

  /** AddEdges(depth, b, ts): nothing without targets, otherwise that b implies
      all (or one) of them. */
  function EdgeClause(g: seq<Node>, c: Call, startPos: int, computerFirst: bool): seq<Formula>
  {
    var ts := Targets(g, c.node, c.pickBest, startPos);
    if |ts| == 0 then []
    else [Implies(Var(VertVar(KeyAt(g, c.node))), Join(NeedAll(g, c.node, computerFirst), VertsOf(g, ts)))]
  }

  /** The keys AddEdges registers for a call. */
  function EdgeVerts(g: seq<Node>, c: Call, startPos: int): set<int>
  {
    var ts := Targets(g, c.node, c.pickBest, startPos);
    if |ts| == 0 then {} else KeysOf(g, ts) + {KeyAt(g, c.node)}
  }

  /** f applied to each of xs, the results one after another. */
  function MapConcat<T, U>(f: T -> seq<U>, xs: seq<T>): seq<U>
    decreases |xs|
  {
    if |xs| == 0 then [] else MapConcat(f, xs[..|xs| - 1]) + f(xs[|xs| - 1])
  }

  /** The union of f over xs. */
  function MapUnion<T, U>(f: T -> set<U>, xs: seq<T>): set<U>
    decreases |xs|
  {
    if |xs| == 0 then {} else MapUnion(f, xs[..|xs| - 1]) + f(xs[|xs| - 1])
  }

  lemma {:induction false} MapConcatAppend<T, U>(f: T -> seq<U>, a: seq<T>, b: seq<T>)
    ensures MapConcat(f, a + b) == MapConcat(f, a) + MapConcat(f, b)
    decreases |b|
  {
    if |b| == 0 {
      assert a + b == a;
    } else {
      MapConcatAppend(f, a, b[..|b| - 1]);
      assert (a + b)[..|a + b| - 1] == a + b[..|b| - 1];
      assert (a + b)[|a + b| - 1] == b[|b| - 1];
    }
  }

  lemma {:induction false} MapUnionAppend<T, U>(f: T -> set<U>, a: seq<T>, b: seq<T>)
    ensures MapUnion(f, a + b) == MapUnion(f, a) + MapUnion(f, b)
    decreases |b|
  {
    if |b| == 0 {
      assert a + b == a;
    } else {
      MapUnionAppend(f, a, b[..|b| - 1]);
      assert (a + b)[..|a + b| - 1] == a + b[..|b| - 1];
      assert (a + b)[|a + b| - 1] == b[|b| - 1];
    }
  }

  /** AddEdges' clause for each call. */
  function EdgeClauses(g: seq<Node>, startPos: int, computerFirst: bool): Call -> seq<Formula>
  {
    c => EdgeClause(g, c, startPos, computerFirst)
  }

  /** AddEdges' keys for each call. */
  function EdgeKeysOf(g: seq<Node>, startPos: int): Call -> set<int>
  {
    c => EdgeVerts(g, c, startPos)
  }

  /** The clauses of the calls cs, in order. */
  function ClausesFor(g: seq<Node>, cs: seq<Call>, startPos: int, computerFirst: bool): seq<Formula>
  {
    MapConcat(EdgeClauses(g, startPos, computerFirst), cs)
  }

  /** The keys registered by the calls cs. */
  function VertsFor(g: seq<Node>, cs: seq<Call>, startPos: int): set<int>
  {
    MapUnion(EdgeKeysOf(g, startPos), cs)
  }

  lemma ClausesForAppend(g: seq<Node>, a: seq<Call>, b: seq<Call>, startPos: int, computerFirst: bool)
    ensures ClausesFor(g, a + b, startPos, computerFirst) == ClausesFor(g, a, startPos, computerFirst) + ClausesFor(g, b, startPos, computerFirst)
  {
    MapConcatAppend(EdgeClauses(g, startPos, computerFirst), a, b);
  }

  lemma VertsForAppend(g: seq<Node>, a: seq<Call>, b: seq<Call>, startPos: int)
    ensures VertsFor(g, a + b, startPos) == VertsFor(g, a, startPos) + VertsFor(g, b, startPos)
  {
    MapUnionAppend(EdgeKeysOf(g, startPos), a, b);
  }

  /** The clauses and keys of a single call. */
  lemma ForSingle(g: seq<Node>, c: Call, startPos: int, computerFirst: bool)
    ensures ClausesFor(g, [c], startPos, computerFirst) == EdgeClause(g, c, startPos, computerFirst)
    ensures VertsFor(g, [c], startPos) == EdgeVerts(g, c, startPos)
  {
    var f, h := EdgeClauses(g, startPos, computerFirst), EdgeKeysOf(g, startPos);
    assert [c][..0] == [];
    assert MapConcat(f, [c]) == MapConcat(f, []) + f(c);
    assert MapUnion(h, [c]) == MapUnion(h, []) + h(c);
  }

  /** SolverZ3.MakeGraphExpressionAll: conjoins that every start node is
      covered, then walks the tree from the first start node, alternating
      between positions where one target suffices and positions where all are
      needed. */
  method MakeGraphExpressionAll(g: seq<Node>, starts: seq<nat>, startPos: int, computerFirst: bool, e: Expr)
    requires Graph(g) && BestInRange(g) && InArena(g, starts) && |starts| > 0
    requires computerFirst && Depth(g[starts[0]].board) == 0 ==> startPos < 9
    modifies e
    ensures e.expr == Chain(old(e.expr), [All(VertsOf(g, starts))] +
                            ClausesFor(g, Calls(g, starts[0], computerFirst, startPos), startPos, computerFirst))
    ensures e.verts == old(e.verts) + KeysOf(g, starts) + VertsFor(g, Calls(g, starts[0], computerFirst, startPos), startPos)
    ensures e.edges == old(e.edges)
  {
    var vs := AddVerts(g, starts, e);
    e.And(All(vs));
    Recurse(g, starts[0], computerFirst, startPos, computerFirst, e);
    ChainAppend(old(e.expr), [All(vs)], ClausesFor(g, Calls(g, starts[0], computerFirst, startPos), startPos, computerFirst));
  }

  /** The local function Recurse: AddEdges for b, then Recurse on each target
      with the choice flipped. */
  method Recurse(g: seq<Node>, b: nat, pickBest: bool, startPos: int, computerFirst: bool, e: Expr)
    requires Graph(g) && BestInRange(g) && b < |g|
    requires pickBest && Depth(g[b].board) == 0 ==> startPos < 9
    modifies e
    ensures e.expr == Chain(old(e.expr), ClausesFor(g, Calls(g, b, pickBest, startPos), startPos, computerFirst))
    ensures e.verts == old(e.verts) + VertsFor(g, Calls(g, b, pickBest, startPos), startPos)
    ensures e.edges == old(e.edges)
    decreases 9 - D(g, b), 2
  {
    var ts := Targets(g, b, pickBest, startPos);
    TargetsDepth(g, b, pickBest, startPos);
    AddEdges(g, b, pickBest, ts, startPos, computerFirst, e);
    ghost var x1, v1 := e.expr, e.verts;
    RecurseAll(g, ts, D(g, b), !pickBest, startPos, computerFirst, e);
    CallsClauses(g, b, pickBest, startPos, computerFirst, old(e.expr), x1, e.expr);
    CallsVerts(g, b, pickBest, startPos, old(e.verts), v1, e.verts);
  }

  /** The foreach loop of Recurse over the targets ts of a parent at depth d. */
  method RecurseAll(g: seq<Node>, ts: seq<nat>, d: nat, pickBest: bool, startPos: int, computerFirst: bool, e: Expr)
    requires Graph(g) && BestInRange(g) && AtDepth(g, ts, d + 1)
    modifies e
    ensures e.expr == Chain(old(e.expr), ClausesFor(g, CallsFrom(g, ts, d, pickBest, startPos, |ts|), startPos, computerFirst))
    ensures e.verts == old(e.verts) + VertsFor(g, CallsFrom(g, ts, d, pickBest, startPos, |ts|), startPos)
    ensures e.edges == old(e.edges)
    decreases 9 - d, 1
  {
    for i := 0 to |ts|
      invariant e.expr == Chain(old(e.expr), ClausesFor(g, CallsFrom(g, ts, d, pickBest, startPos, i), startPos, computerFirst))
      invariant e.verts == old(e.verts) + VertsFor(g, CallsFrom(g, ts, d, pickBest, startPos, i), startPos)
      invariant e.edges == old(e.edges)
    {
      RecurseStep(g, ts, d, i, pickBest, startPos, computerFirst, e, old(e.expr), old(e.verts));
    }
  }

  /** The loop body of Recurse: the walk below target ts[i]. */
  method RecurseStep(g: seq<Node>, ts: seq<nat>, d: nat, i: nat, pickBest: bool, startPos: int, computerFirst: bool,
                     e: Expr, ghost x1: Formula, ghost v1: set<int>)
    requires Graph(g) && BestInRange(g) && AtDepth(g, ts, d + 1) && i < |ts|
    requires e.expr == Chain(x1, ClausesFor(g, CallsFrom(g, ts, d, pickBest, startPos, i), startPos, computerFirst))
    requires e.verts == v1 + VertsFor(g, CallsFrom(g, ts, d, pickBest, startPos, i), startPos)
    modifies e
    ensures e.expr == Chain(x1, ClausesFor(g, CallsFrom(g, ts, d, pickBest, startPos, i + 1), startPos, computerFirst))
    ensures e.verts == v1 + VertsFor(g, CallsFrom(g, ts, d, pickBest, startPos, i + 1), startPos)
    ensures e.edges == old(e.edges)
    decreases 9 - d, 0
  {
    Recurse(g, ts[i], pickBest, startPos, computerFirst, e);
    CallsFromStep(g, ts, d, i, pickBest, startPos, computerFirst);
    ChainAppend(x1, ClausesFor(g, CallsFrom(g, ts, d, pickBest, startPos, i), startPos, computerFirst),
                ClausesFor(g, Calls(g, ts[i], pickBest, startPos), startPos, computerFirst));
  }

  /** CallsFrom one target further on, and what its clauses and keys become. */
  lemma CallsFromStep(g: seq<Node>, ts: seq<nat>, d: nat, i: nat, pickBest: bool, startPos: int, computerFirst: bool)
    requires Graph(g) && AtDepth(g, ts, d + 1) && i < |ts|
    ensures CallsFrom(g, ts, d, pickBest, startPos, i + 1) ==
            CallsFrom(g, ts, d, pickBest, startPos, i) + Calls(g, ts[i], pickBest, startPos)
    ensures ClausesFor(g, CallsFrom(g, ts, d, pickBest, startPos, i + 1), startPos, computerFirst) ==
            ClausesFor(g, CallsFrom(g, ts, d, pickBest, startPos, i), startPos, computerFirst) +
            ClausesFor(g, Calls(g, ts[i], pickBest, startPos), startPos, computerFirst)
    ensures VertsFor(g, CallsFrom(g, ts, d, pickBest, startPos, i + 1), startPos) ==
            VertsFor(g, CallsFrom(g, ts, d, pickBest, startPos, i), startPos) +
            VertsFor(g, Calls(g, ts[i], pickBest, startPos), startPos)
  {
    ClausesForAppend(g, CallsFrom(g, ts, d, pickBest, startPos, i), Calls(g, ts[i], pickBest, startPos), startPos, computerFirst);
    VertsForAppend(g, CallsFrom(g, ts, d, pickBest, startPos, i), Calls(g, ts[i], pickBest, startPos), startPos);
  }

  /** The clauses of a walk: those of its first call, then those below. */
  lemma CallsClauses(g: seq<Node>, b: nat, pickBest: bool, startPos: int, computerFirst: bool,
                     x0: Formula, x1: Formula, x2: Formula)
    requires Graph(g) && b < |g| && AtDepth(g, Targets(g, b, pickBest, startPos), D(g, b) + 1)
    requires x1 == Chain(x0, EdgeClause(g, Call(b, pickBest), startPos, computerFirst))
    requires x2 == Chain(x1, ClausesFor(g, CallsFrom(g, Targets(g, b, pickBest, startPos), D(g, b), !pickBest, startPos, |Targets(g, b, pickBest, startPos)|), startPos, computerFirst))
    ensures x2 == Chain(x0, ClausesFor(g, Calls(g, b, pickBest, startPos), startPos, computerFirst))
  {
    var c := Call(b, pickBest);
    var rest := CallsFrom(g, Targets(g, b, pickBest, startPos), D(g, b), !pickBest, startPos, |Targets(g, b, pickBest, startPos)|);
    assert Calls(g, b, pickBest, startPos) == [c] + rest;
    ClausesForAppend(g, [c], rest, startPos, computerFirst);
    ForSingle(g, c, startPos, computerFirst);
    ChainAppend(x0, EdgeClause(g, c, startPos, computerFirst), ClausesFor(g, rest, startPos, computerFirst));
  }

  /** The keys of a walk: those of its first call and those below. */
  lemma CallsVerts(g: seq<Node>, b: nat, pickBest: bool, startPos: int, v0: set<int>, v1: set<int>, v2: set<int>)
    requires Graph(g) && b < |g| && AtDepth(g, Targets(g, b, pickBest, startPos), D(g, b) + 1)
    requires v1 == v0 + EdgeVerts(g, Call(b, pickBest), startPos)
    requires v2 == v1 + VertsFor(g, CallsFrom(g, Targets(g, b, pickBest, startPos), D(g, b), !pickBest, startPos, |Targets(g, b, pickBest, startPos)|), startPos)
    ensures v2 == v0 + VertsFor(g, Calls(g, b, pickBest, startPos), startPos)
  {
    var c := Call(b, pickBest);
    var rest := CallsFrom(g, Targets(g, b, pickBest, startPos), D(g, b), !pickBest, startPos, |Targets(g, b, pickBest, startPos)|);
    assert Calls(g, b, pickBest, startPos) == [c] + rest;
    VertsForAppend(g, [c], rest, startPos);
    ForSingle(g, c, startPos, false);
  }

  /** SolverZ3's local AddEdges: registers the targets and b, and conjoins that
      b implies all or one of the targets. */
  method AddEdges(g: seq<Node>, b: nat, pickBest: bool, ts: seq<nat>, startPos: int, computerFirst: bool, e: Expr)
    requires Closed(g) && b < |g| && ts == Targets(g, b, pickBest, startPos) && InArena(g, ts)
    modifies e
    ensures e.expr == Chain(old(e.expr), EdgeClause(g, Call(b, pickBest), startPos, computerFirst))
    ensures e.verts == old(e.verts) + EdgeVerts(g, Call(b, pickBest), startPos)
    ensures e.edges == old(e.edges)
  {
    var isOdd := Depth(g[b].board) % 2 == 1;
    var requireAll := computerFirst != !isOdd;
    if |ts| == 0 {
      return;
    }
    var children := AddVerts(g, ts, e);
    var parent := e.AddVert(g[b]);
    var consequence := if requireAll then All(children) else Any(children);
    e.And(Implies(parent, consequence));
  }

  /** Every call of cs is at an arena node, and picks a best move exactly where
      AddEdges accepts one target. */
  ghost predicate Alternates(g: seq<Node>, cs: seq<Call>, computerFirst: bool)
  {
    forall k :: 0 <= k < |cs| ==>
      cs[k].node < |g| && cs[k].pickBest == !RequireAll(Depth(g[cs[k].node].board), computerFirst)
  }

  lemma AlternatesAppend(g: seq<Node>, a: seq<Call>, b: seq<Call>, computerFirst: bool)
    requires Alternates(g, a, computerFirst) && Alternates(g, b, computerFirst)
    ensures Alternates(g, a + b, computerFirst)
  {
    forall k | 0 <= k < |a + b|
      ensures (a + b)[k].node < |g| &&
              (a + b)[k].pickBest == !RequireAll(Depth(g[(a + b)[k].node].board), computerFirst)
    {
      if k < |a| {
        assert (a + b)[k] == a[k];
      } else {
        assert (a + b)[k] == b[k - |a|];
      }
    }
  }

  /** Started in step with the depth, the choice flag stays in step with it at
      every call: the flag flips once per level, as the parity does. */
  lemma {:induction false} CallsAlternate(g: seq<Node>, b: nat, pickBest: bool, startPos: int, computerFirst: bool)
    requires Graph(g) && b < |g| && pickBest == !RequireAll(D(g, b), computerFirst)
    ensures Alternates(g, Calls(g, b, pickBest, startPos), computerFirst)
    decreases 9 - D(g, b), |Targets(g, b, pickBest, startPos)| + 1
  {
    var ts := Targets(g, b, pickBest, startPos);
    TargetsDepth(g, b, pickBest, startPos);
    CallsFromAlternate(g, ts, D(g, b), !pickBest, startPos, computerFirst, |ts|);
    assert Alternates(g, [Call(b, pickBest)], computerFirst);
    AlternatesAppend(g, [Call(b, pickBest)], CallsFrom(g, ts, D(g, b), !pickBest, startPos, |ts|), computerFirst);
  }

  lemma {:induction false} CallsFromAlternate(g: seq<Node>, ts: seq<nat>, d: nat, pickBest: bool, startPos: int,
                                              computerFirst: bool, n: nat)
    requires Graph(g) && AtDepth(g, ts, d + 1) && n <= |ts| && pickBest == RequireAll(d, computerFirst)
    ensures Alternates(g, CallsFrom(g, ts, d, pickBest, startPos, n), computerFirst)
    decreases 9 - d, n
  {
    if n > 0 {
      CallsFromAlternate(g, ts, d, pickBest, startPos, computerFirst, n - 1);
      var t := ts[n - 1];
      assert D(g, t) == d + 1;
      RequireAllFlips(d, computerFirst);
      CallsAlternate(g, t, pickBest, startPos, computerFirst);
      AlternatesAppend(g, CallsFrom(g, ts, d, pickBest, startPos, n - 1), Calls(g, ts[n - 1], pickBest, startPos), computerFirst);
    }
  }

  /** From the empty board, whichever side moves first: the computer's
      positions (where a best move is picked) get "one of the targets", the
      opponent's positions get "all of the targets". */
  lemma ComputerPicksOne(g: seq<Node>, root: nat, startPos: int, computerFirst: bool)
    requires Graph(g) && root < |g| && Depth(g[root].board) == 0
    ensures forall k :: 0 <= k < |Calls(g, root, computerFirst, startPos)| ==>
              NeedAll(g, Calls(g, root, computerFirst, startPos)[k].node, computerFirst) ==
              !Calls(g, root, computerFirst, startPos)[k].pickBest
  {
    CallsAlternate(g, root, computerFirst, startPos, computerFirst);
  }

  // ---------------------------------------------------------------------------
  // FindOptimalGraph: choosing the sides

  const NeedSide := "Need human or computer or both first"

  /** The label of MakeOr's selector variable. */
  const ComputerFirstFlag := "cFirst"

  /** MakeOr: a fresh expression whose registered positions are those of both
      inputs, stating that, for the selector variable, either it holds and the
      computer-first constraints do, or it fails and the human-first ones do. */
  method MakeOr(cFirst: Expr, hFirst: Expr) returns (r: Expr)
    ensures fresh(r)
    ensures r.verts == cFirst.verts + hFirst.verts && r.edges == {}
    ensures r.expr == Forall(Flag(ComputerFirstFlag), All([
                        Implies(Var(Flag(ComputerFirstFlag)), All([Var(Flag(ComputerFirstFlag)), cFirst.expr])),
                        Implies(Not(Var(Flag(ComputerFirstFlag))), All([Not(Var(Flag(ComputerFirstFlag))), hFirst.expr]))]))
  {
    r := new Expr(Const(true));
    r.verts := r.verts + cFirst.verts;
    r.verts := r.verts + hFirst.verts;
    var cb := Var(Flag(ComputerFirstFlag));
    var cImpl := Implies(cb, All([cb, cFirst.expr]));
    var cnot := Not(cb);
    var hImpl := Implies(cnot, All([cnot, hFirst.expr]));
    r.expr := Forall(Flag(ComputerFirstFlag), All([cImpl, hImpl]));
  }

  /** The switch on (humanFirst, computerFirst) in FindOptimalGraph: the one
      expression built, both joined by MakeOr, or the error when neither side
      was asked for. */
  method SelectExpr(humanFirst: bool, computerFirst: bool, cFirst: Expr, hFirst: Expr) returns (r: Result<Expr>)
    ensures r.Err? <==> !humanFirst && !computerFirst
    ensures r.Err? ==> r.message == NeedSide
    ensures computerFirst && !humanFirst ==> r == Ok(cFirst)
    ensures humanFirst && !computerFirst ==> r == Ok(hFirst)
    ensures humanFirst && computerFirst ==>
              r.Ok? && fresh(r.value) && r.value.verts == cFirst.verts + hFirst.verts
  {
    if humanFirst && computerFirst {
      var both := MakeOr(cFirst, hFirst);
      r := Ok(both);
    } else if computerFirst {
      r := Ok(cFirst);
    } else if humanFirst {
      r := Ok(hFirst);
    } else {
      r := Err(NeedSide);
    }
  }

  // ---------------------------------------------------------------------------
  // From selected keys back to moves

  /** Position p is the one GetNode looks for: its own or its canonical
      fingerprint is key. */
  predicate Matches(p: Node, key: int)
  {
    |p.board| == 9 && (HashOf(p.board) == key || Key(p) == key)
  }

  /** The first index from i on whose position matches key (|ps| if none). */
  function FirstMatch(g: seq<Node>, ps: seq<nat>, key: int, i: nat): (k: nat)
    requires InArena(g, ps) && i <= |ps|
    ensures i <= k <= |ps|
    decreases |ps| - i
  {
    if i == |ps| then |ps| else if Matches(g[ps[i]], key) then i else FirstMatch(g, ps, key, i + 1)
  }

  lemma {:induction false} FirstMatchSpec(g: seq<Node>, ps: seq<nat>, key: int, i: nat)
    requires InArena(g, ps) && i <= |ps|
    ensures FirstMatch(g, ps, key, i) < |ps| ==> Matches(g[ps[FirstMatch(g, ps, key, i)]], key)
    ensures forall j :: i <= j < FirstMatch(g, ps, key, i) ==> !Matches(g[ps[j]], key)
    ensures FirstMatch(g, ps, key, i) == |ps| <==> forall j :: i <= j < |ps| ==> !Matches(g[ps[j]], key)
    decreases |ps| - i
  {
    if i < |ps| && !Matches(g[ps[i]], key) {
      FirstMatchSpec(g, ps, key, i + 1);
    }
  }

  /** A move out of p is selected: its child's own or canonical fingerprint is
      among the selected keys. */
  predicate Selected(g: seq<Node>, p: nat, m: nat, nodes: seq<int>)
  {
    match ChildAt(g, p, m)
    case None => false
    case Some(c) => c < |g| && |g[c].board| == 9 && (HashOf(g[c].board) in nodes || Key(g[c]) in nodes)
  }

  /** The outcome of the board move m out of p leads to. */
  function OutcomeAt(g: seq<Node>, p: nat, m: nat): int
  {
    match ChildAt(g, p, m)
    case None => 9
    case Some(c) => if c < |g| && |g[c].board| == 9 then OutcomeCode(g[c].board) else 9
  }

  /** The lowest selected move from m on with its child's outcome, or (-1, 9). */
  function MoveFrom(g: seq<Node>, p: nat, nodes: seq<int>, m: nat): (r: (int, int))
    requires m <= 9
    decreases 9 - m
  {
    if m == 9 then (-1, 9)
    else if Selected(g, p, m, nodes) then (m, OutcomeAt(g, p, m))
    else MoveFrom(g, p, nodes, m + 1)
  }

  /** MoveFrom reports (-1, 9) exactly when no move from m on is selected. */
  lemma {:induction false} MoveFromNone(g: seq<Node>, p: nat, nodes: seq<int>, m: nat)
    requires m <= 9
    ensures MoveFrom(g, p, nodes, m).0 == -1 <==> forall j :: m <= j < 9 ==> !Selected(g, p, j, nodes)
    ensures MoveFrom(g, p, nodes, m).0 == -1 ==> MoveFrom(g, p, nodes, m).1 == 9
    decreases 9 - m
  {
    if m < 9 {
      if Selected(g, p, m, nodes) {
        assert MoveFrom(g, p, nodes, m).0 == m;
      } else {
        MoveFromNone(g, p, nodes, m + 1);
        assert MoveFrom(g, p, nodes, m) == MoveFrom(g, p, nodes, m + 1);
      }
    }
  }

  /** Otherwise it is the lowest selected move, with the outcome of the board it
      leads to. */
  lemma {:induction false} MoveFromFound(g: seq<Node>, p: nat, nodes: seq<int>, m: nat)
    requires m <= 9 && MoveFrom(g, p, nodes, m).0 != -1
    ensures m <= MoveFrom(g, p, nodes, m).0 < 9
    ensures Selected(g, p, MoveFrom(g, p, nodes, m).0, nodes)
    ensures MoveFrom(g, p, nodes, m).1 == OutcomeAt(g, p, MoveFrom(g, p, nodes, m).0)
    decreases 9 - m
  {
    if Selected(g, p, m, nodes) {
      assert MoveFrom(g, p, nodes, m) == (m, OutcomeAt(g, p, m));
    } else {
      MoveFromFound(g, p, nodes, m + 1);
      assert MoveFrom(g, p, nodes, m) == MoveFrom(g, p, nodes, m + 1);
    }
  }

  /** No move below the one MoveFrom reports is selected. */
  lemma {:induction false} MoveFromLowest(g: seq<Node>, p: nat, nodes: seq<int>, m: nat, j: nat)
    requires m <= 9 && m <= j < MoveFrom(g, p, nodes, m).0
    ensures !Selected(g, p, j, nodes)
    decreases 9 - m
  {
    if m < j {
      assert MoveFrom(g, p, nodes, m) == MoveFrom(g, p, nodes, m + 1);
      MoveFromLowest(g, p, nodes, m + 1, j);
    }
  }

  /** The part of SolverZ3 that maps keys back to positions: the positions
      reachable from the start node, in walk order. */
  class SolverZ3 {
    var positions: seq<nat>

    constructor ()
      ensures positions == []
    {
      positions := [];
    }

    /** ReadPositions: every node the full walk from start reaches, once per
        path, in walk order. */
    method ReadPositions(g: seq<Node>, start: nat)
      requires Graph(g) && start < |g|
      modifies this
      ensures positions == Visit(g, start, _ => true)
      ensures |positions| == Count(g, start) && positions[0] == start
    {
      positions := [];
      positions := positions + Visit(g, start, _ => true);
      CountIsFullVisit(g, start);
    }

    /** GetNode: the first read position whose own or canonical fingerprint is
        key; one must exist. */
    method GetNode(g: seq<Node>, key: int) returns (p: nat)
      requires Closed(g) && InArena(g, positions)
      requires exists j :: 0 <= j < |positions| && Matches(g[positions[j]], key)
      ensures FirstMatch(g, positions, key, 0) < |positions| && p == positions[FirstMatch(g, positions, key, 0)]
      ensures p < |g| && Matches(g[p], key)
    {
      FirstMatchSpec(g, positions, key, 0);
      var i := 0;
      while true
        invariant 0 <= i <= FirstMatch(g, positions, key, 0) < |positions|
        invariant FirstMatch(g, positions, key, i) == FirstMatch(g, positions, key, 0)
        decreases |positions| - i
      {
        var h, mh := Fingerprints(g[positions[i]]);
        if h == key || mh == key {
          return positions[i];
        }
        i := i + 1;
      }
    }

    /** BestMove: the lowest move out of key's position leading to a selected
        key, with the outcome of the board it reaches; (-1, 9) when none does. */
    method BestMove(g: seq<Node>, key: int, nodes: seq<int>) returns (move: int, result: int)
      requires Closed(g) && InArena(g, positions)
      requires exists j :: 0 <= j < |positions| && Matches(g[positions[j]], key)
      ensures FirstMatch(g, positions, key, 0) < |positions|
      ensures (move, result) == MoveFrom(g, positions[FirstMatch(g, positions, key, 0)], nodes, 0)
    {
      var parent := GetNode(g, key);
      move, result := -1, 9;
      for i := 0 to 9
        invariant MoveFrom(g, parent, nodes, 0) == MoveFrom(g, parent, nodes, i)
      {
        var child := g[parent].children[i];
        if child.Some? {
          var h, mh := Fingerprints(g[child.value]);
          if h in nodes || mh in nodes {
            move := i;
            result := Outcome(g[child.value].board);
            return;
          }
        }
      }
    }
  }
}
