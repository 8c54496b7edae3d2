/** The heuristic cover of Misc.cs. WalkPath marks the positions a strategy
    needs: the computer's side follows one best move, the opponent's side every
    reply. ComputeMin repeats marking trials under different random seeds, and
    ReduceToMin rebuilds the node dictionary from the marked positions. The
    onMinPath flags live in the node arena; a walk is specified by the set of
    marked positions it produces. */
module Misc {
  import opened Util
  import opened Nodes
  import opened Wrappers
  import opened Traversal
  import Scoring
  import TreeGen

  // ---------------------------------------------------------------------------
  // Random choices

  /** A System.Random stream: rand(k, n) is the value of the k-th call
      rand.Next(n). A value outside 0..n-1 is reduced modulo n. */
  type Oracle = (nat, nat) -> nat

  function Draw(rand: Oracle, k: nat, n: nat): (v: nat)
    requires n > 0
    ensures v < n
  {
    rand(k, n) % n
  }

  // ---------------------------------------------------------------------------
  // Marks

  /** The positions whose onMinPath flag is set. */
  function MarkedSet(g: seq<Node>): set<nat>
  {
    set j | 0 <= j < |g| && g[j].onMinPath
  }

  /** b is a with some onMinPath flags changed and nothing else. */
  ghost predicate SameBut(a: seq<Node>, b: seq<Node>)
  {
    |a| == |b| && forall j :: 0 <= j < |a| ==> b[j] == a[j].(onMinPath := b[j].onMinPath)
  }

  /** Setting one flag adds exactly that position to the marked set. */
  lemma Mark(a: seq<Node>, i: nat, v: bool)
    requires i < |a|
    ensures SameBut(a, a[i := a[i].(onMinPath := v)])
    ensures MarkedSet(a[i := a[i].(onMinPath := v)]) == if v then MarkedSet(a) + {i} else MarkedSet(a) - {i}
  {
    var b := a[i := a[i].(onMinPath := v)];
    forall j | j in MarkedSet(b)
      ensures j in (if v then MarkedSet(a) + {i} else MarkedSet(a) - {i})
    {
    }
  }

  /** An acyclic arena whose best moves can be followed; WalkPath and
      ReduceToMin dereference the children behind them. */
  predicate Walkable(g: seq<Node>)
  {
    Graph(g) && BestPresent(g)
  }

  /** The graph Generate builds, once ScoreGraph has scored it, is walkable,
      and ReduceToMin's filter never throws on it. */
  lemma GeneratedWalkable(mode: int, nodes: seq<Node>, keys: seq<int>, index: map<int, nat>, nodesExamined: int)
    requires TreeGen.Built(mode, nodes, keys, index, nodesExamined)
    ensures Walkable(Scoring.Solved(nodes))
    ensures FirstFault(Scoring.Solved(nodes), 0).None?
  {
    TreeGen.GeneratedSolved(mode, nodes, keys, index, nodesExamined);
    FollowableNoFault(Scoring.Solved(nodes));
  }

  lemma SameWalkable(a: seq<Node>, b: seq<Node>)
    requires SameBut(a, b) && Walkable(a)
    ensures Walkable(b)
    ensures forall j :: 0 <= j < |a| ==> b[j].board == a[j].board && b[j].children == a[j].children &&
                                          b[j].bestMoves == a[j].bestMoves
  {
    assert forall j :: 0 <= j < |a| ==> b[j].board == a[j].board && b[j].children == a[j].children &&
                                        b[j].bestMoves == a[j].bestMoves by {
      forall j | 0 <= j < |a| ensures b[j].board == a[j].board && b[j].children == a[j].children &&
                                      b[j].bestMoves == a[j].bestMoves {
        assert b[j] == a[j].(onMinPath := b[j].onMinPath);
      }
    }
  }

  // ---------------------------------------------------------------------------
  // Best moves that stay among marked positions

  /** Move m of node i leads to a position in marked. */
  predicate Leads(g: seq<Node>, i: nat, m: int, marked: set<nat>)
  {
    i < |g| && 0 <= m < |g[i].children| && g[i].children[m].Some? && g[i].children[m].value in marked
  }

  /** The moves of ms whose child at node i is in marked, in their order in ms
      (the LINQ Where of WalkPath and ReduceToMin). */
  function Leading(g: seq<Node>, i: nat, ms: seq<int>, marked: set<nat>): (r: seq<int>)
    ensures forall t :: 0 <= t < |r| ==> Leads(g, i, r[t], marked)
    decreases |ms|
  {
    if ms == [] then []
    else (if Leads(g, i, ms[0], marked) then [ms[0]] else []) + Leading(g, i, ms[1..], marked)
  }

  /** a is obtained from b by deleting elements. */
  predicate Sublist(a: seq<int>, b: seq<int>)
    decreases |b|
  {
    if a == [] then true
    else if b == [] then false
    else (a[0] == b[0] && Sublist(a[1..], b[1..])) || Sublist(a, b[1..])
  }

  /** Leading keeps exactly the moves that lead into marked, in order. */
  lemma {:induction false} LeadingSpec(g: seq<Node>, i: nat, ms: seq<int>, marked: set<nat>)
    ensures Sublist(Leading(g, i, ms, marked), ms)
    ensures forall m :: m in Leading(g, i, ms, marked) <==> m in ms && Leads(g, i, m, marked)
    ensures Leading(g, i, ms, marked) == [] <==> forall t :: 0 <= t < |ms| ==> !Leads(g, i, ms[t], marked)
    decreases |ms|
  {
    if ms != [] {
      var rest := Leading(g, i, ms[1..], marked);
      LeadingSpec(g, i, ms[1..], marked);
      assert Leading(g, i, ms, marked) == (if Leads(g, i, ms[0], marked) then [ms[0]] else []) + rest;
      if Leads(g, i, ms[0], marked) {
        assert Leading(g, i, ms, marked) == [ms[0]] + rest;
        assert Leading(g, i, ms, marked)[1..] == rest;
      } else {
        assert Leading(g, i, ms, marked) == rest;
      }
      assert forall t :: 1 <= t < |ms| ==> ms[t] == ms[1..][t - 1];
      assert forall m :: m in ms <==> m == ms[0] || m in ms[1..];
    }
  }

  // ---------------------------------------------------------------------------
  // WalkPath

  /** The cover marks after a walk and the number of random draws used. */
  datatype Walked = Walked(marked: set<nat>, draws: nat)

  /** The best move WalkPath follows from node i: the k-th draw picks among the
      best moves whose child is already marked, or among all best moves when
      there is none such; None when there are no best moves. */
  function Choice(g: seq<Node>, i: nat, marked: set<nat>, rand: Oracle, k: nat): (r: Option<int>)
    requires Walkable(g) && i < |g|
    ensures r.Some? ==> 0 <= r.value < 9 && g[i].children[r.value].Some?
  {
    var preferred := Leading(g, i, g[i].bestMoves, marked);
    var from := if preferred != [] then preferred else g[i].bestMoves;
    if from == [] then None else Some(from[Draw(rand, k, |from|)])
  }

  /** The preference of Choice: a best move is always taken when there is one,
      and an already marked child is taken whenever a best move leads to one. */
  lemma ChoiceSpec(g: seq<Node>, i: nat, marked: set<nat>, rand: Oracle, k: nat)
    requires Walkable(g) && i < |g|
    ensures Choice(g, i, marked, rand, k).None? <==> g[i].bestMoves == []
    ensures Choice(g, i, marked, rand, k).Some? ==> Choice(g, i, marked, rand, k).value in g[i].bestMoves
    ensures (exists t :: 0 <= t < |g[i].bestMoves| && Leads(g, i, g[i].bestMoves[t], marked)) ==>
              Leads(g, i, Choice(g, i, marked, rand, k).value, marked)
  {
    LeadingSpec(g, i, g[i].bestMoves, marked);
    var preferred := Leading(g, i, g[i].bestMoves, marked);
    if preferred != [] {
      var x := preferred[Draw(rand, k, |preferred|)];
      assert x in preferred;
    }
  }

  /** Misc.WalkPath from node i over the marks so far: marks i; with
      startCenter continues from the centre child with pickBest flipped; when
      picking continues from the child Choice gives, without pickBest; otherwise
      continues from every child with pickBest. */
  function Walk(g: seq<Node>, marked: set<nat>, i: nat, pickBest: bool, startCenter: bool, rand: Oracle, k: nat): (w: Walked)
    requires Walkable(g) && i < |g|
    requires startCenter ==> g[i].children[4].Some?
    ensures marked + {i} <= w.marked && k <= w.draws
    decreases 9 - D(g, i), 10
  {
    var here := marked + {i};
    if startCenter then
      Walk(g, here, g[i].children[4].value, !pickBest, false, rand, k)
    else if pickBest then
      match Choice(g, i, here, rand, k)
      case None => Walked(here, k)
      case Some(m) => Walk(g, here, g[i].children[m].value, false, false, rand, k + 1)
    else
      WalkFrom(g, here, i, 9, rand, k)
  }

  /** The walks below children 0..m-1 of node i, each with pickBest. */
  function WalkFrom(g: seq<Node>, marked: set<nat>, i: nat, m: nat, rand: Oracle, k: nat): (w: Walked)
    requires Walkable(g) && i < |g| && m <= 9
    ensures marked <= w.marked && k <= w.draws
    decreases 9 - D(g, i), m
  {
    if m == 0 then Walked(marked, k)
    else
      var w := WalkFrom(g, marked, i, m - 1, rand, k);
      match g[i].children[m - 1]
      case None => w
      case Some(c) => Walk(g, w.marked, c, true, false, rand, w.draws)
  }

  /** Every node reachable from i, as Util.Recurse with an accepting callback
      visits them. */
  function Reach(g: seq<Node>, i: nat): seq<nat>
    requires Graph(g) && i < |g|
  {
    Visit(g, i, _ => true)
  }

  lemma {:induction false} ReachFrom(g: seq<Node>, i: nat, m: nat, j: nat, x: nat)
    requires Graph(g) && i < |g| && m <= j < 9 && g[i].children[j].Some?
    requires x in Reach(g, g[i].children[j].value)
    ensures x in VisitFrom(g, i, m, _ => true)
    decreases j - m
  {
    var rest := VisitFrom(g, i, m + 1, _ => true);
    if m < j {
      ReachFrom(g, i, m + 1, j, x);
      match g[i].children[m]
      case None => assert VisitFrom(g, i, m, _ => true) == rest;
      case Some(c) => assert VisitFrom(g, i, m, _ => true) == Visit(g, c, _ => true) + rest;
    } else {
      assert VisitFrom(g, i, m, _ => true) == Visit(g, g[i].children[j].value, _ => true) + rest;
    }
  }

  /** What is reachable from a child is reachable from the parent. */
  lemma ReachChild(g: seq<Node>, i: nat, j: nat)
    requires Graph(g) && i < |g| && j < 9 && g[i].children[j].Some?
    ensures forall x :: x in Reach(g, g[i].children[j].value) ==> x in Reach(g, i)
  {
    forall x | x in Reach(g, g[i].children[j].value) ensures x in Reach(g, i) {
      ReachFrom(g, i, 0, j, x);
      assert Reach(g, i) == [i] + VisitFrom(g, i, 0, _ => true);
    }
  }

  /** A walk marks nothing outside what is reachable from its start. */
  lemma {:induction false} WalkReach(g: seq<Node>, marked: set<nat>, i: nat, pickBest: bool, startCenter: bool, rand: Oracle, k: nat)
    requires Walkable(g) && i < |g|
    requires startCenter ==> g[i].children[4].Some?
    ensures forall x :: x in Walk(g, marked, i, pickBest, startCenter, rand, k).marked ==> x in marked || x in Reach(g, i)
    decreases 9 - D(g, i), 10
  {
    var here := marked + {i};
    assert i in Reach(g, i);
    if startCenter {
      WalkReach(g, here, g[i].children[4].value, !pickBest, false, rand, k);
      ReachChild(g, i, 4);
    } else if pickBest {
      match Choice(g, i, here, rand, k)
      case None =>
      case Some(m) =>
        WalkReach(g, here, g[i].children[m].value, false, false, rand, k + 1);
        ReachChild(g, i, m);
    } else {
      WalkFromReach(g, here, i, 9, rand, k);
    }
  }

  lemma {:induction false} WalkFromReach(g: seq<Node>, marked: set<nat>, i: nat, m: nat, rand: Oracle, k: nat)
    requires Walkable(g) && i < |g| && m <= 9
    ensures forall x :: x in WalkFrom(g, marked, i, m, rand, k).marked ==> x in marked || x in Reach(g, i)
    decreases 9 - D(g, i), m
  {
    if m > 0 {
      WalkFromReach(g, marked, i, m - 1, rand, k);
      var w := WalkFrom(g, marked, i, m - 1, rand, k);
      match g[i].children[m - 1]
      case None =>
      case Some(c) =>
        WalkReach(g, w.marked, c, true, false, rand, w.draws);
        ReachChild(g, i, m - 1);
    }
  }

  /** With startCenter the centre child is marked. */
  lemma CentreMarked(g: seq<Node>, marked: set<nat>, i: nat, pickBest: bool, rand: Oracle, k: nat)
    requires Walkable(g) && i < |g| && g[i].children[4].Some?
    ensures g[i].children[4].value in Walk(g, marked, i, pickBest, true, rand, k).marked
  {
  }

  /** Without pickBest every child is marked: the opponent may play anything. */
  lemma {:induction false} RepliesMarked(g: seq<Node>, marked: set<nat>, i: nat, rand: Oracle, k: nat)
    requires Walkable(g) && i < |g|
    ensures forall m :: 0 <= m < 9 && g[i].children[m].Some? ==>
              g[i].children[m].value in Walk(g, marked, i, false, false, rand, k).marked
  {
    WalkFromMarks(g, marked + {i}, i, 9, rand, k);
  }

  lemma {:induction false} WalkFromMarks(g: seq<Node>, marked: set<nat>, i: nat, m: nat, rand: Oracle, k: nat)
    requires Walkable(g) && i < |g| && m <= 9
    ensures forall j :: 0 <= j < m && g[i].children[j].Some? ==>
              g[i].children[j].value in WalkFrom(g, marked, i, m, rand, k).marked
    decreases m
  {
    if m > 0 {
      WalkFromMarks(g, marked, i, m - 1, rand, k);
    }
  }

  /** With pickBest a best move's child is marked whenever a best move exists,
      and it is an already marked one whenever a best move leads to one. */
  lemma BestMarked(g: seq<Node>, marked: set<nat>, i: nat, rand: Oracle, k: nat)
    requires Walkable(g) && i < |g| && g[i].bestMoves != []
    ensures exists t :: 0 <= t < |g[i].bestMoves| &&
              g[i].children[g[i].bestMoves[t]].value in Walk(g, marked, i, true, false, rand, k).marked
    ensures (exists t :: 0 <= t < |g[i].bestMoves| && Leads(g, i, g[i].bestMoves[t], marked + {i})) ==>
              exists t :: 0 <= t < |g[i].bestMoves| && Leads(g, i, g[i].bestMoves[t], marked + {i}) &&
                          Walk(g, marked, i, true, false, rand, k) ==
                            Walk(g, marked + {i}, g[i].children[g[i].bestMoves[t]].value, false, false, rand, k + 1)
  {
    var here := marked + {i};
    ChoiceSpec(g, i, here, rand, k);
    var m := Choice(g, i, here, rand, k).value;
    var t :| 0 <= t < |g[i].bestMoves| && g[i].bestMoves[t] == m;
    assert Walk(g, marked, i, true, false, rand, k) == Walk(g, here, g[i].children[m].value, false, false, rand, k + 1);
  }

  /** With no best move the walk marks only node i and draws nothing. */
  lemma NoBestStops(g: seq<Node>, marked: set<nat>, i: nat, rand: Oracle, k: nat)
    requires Walkable(g) && i < |g| && g[i].bestMoves == []
    ensures Walk(g, marked, i, true, false, rand, k) == Walked(marked + {i}, k)
  {
    ChoiceSpec(g, i, marked + {i}, rand, k);
  }

  /** The marks of one ComputeMin trial from a cleared arena: the computer
      opening in the centre, then the opponent opening anywhere. */
  function Covered(g: seq<Node>, b: nat, rand: Oracle): set<nat>
    requires Walkable(g) && b < |g| && g[b].children[4].Some?
  {
    var first := Walk(g, {}, b, true, true, rand, 0);
    Walk(g, first.marked, b, false, false, rand, first.draws).marked
  }

  /** A trial covers the root, the centre opening and every reply to it, and
      every first move of the opponent, and nothing unreachable. */
  lemma CoveredSpec(g: seq<Node>, b: nat, rand: Oracle)
    requires Walkable(g) && b < |g| && g[b].children[4].Some?
    ensures b in Covered(g, b, rand)
    ensures forall m :: 0 <= m < 9 && g[b].children[m].Some? ==> g[b].children[m].value in Covered(g, b, rand)
    ensures var c := g[b].children[4].value;
            forall m :: 0 <= m < 9 && g[c].children[m].Some? ==> g[c].children[m].value in Covered(g, b, rand)
    ensures forall x :: x in Covered(g, b, rand) ==> x in Reach(g, b)
  {
    var c := g[b].children[4].value;
    var first := Walk(g, {}, b, true, true, rand, 0);
    RepliesMarked(g, {b}, c, rand, 0);
    assert {} + {b} == {b};
    assert first == Walk(g, {b}, c, false, false, rand, 0);
    RepliesMarked(g, first.marked, b, rand, first.draws);
    WalkReach(g, {}, b, true, true, rand, 0);
    WalkReach(g, first.marked, b, false, false, rand, first.draws);
  }

  // ---------------------------------------------------------------------------
  // ReduceToMin

  /** The message of Dictionary.Add for a key already present; the runtime
      appends the key ("Key: ..."), which the model leaves out. */
  const DuplicateKey := "An item with the same key has already been added."

  /** The dictionary ReduceToMin builds from the first n positions: every
      marked position under its canonical key, or the duplicate-key error. */
  function Reduced(g: seq<Node>, n: nat): Result<map<int, nat>>
    requires Closed(g) && n <= |g|
  {
    if n == 0 then Ok(map[])
    else
      match Reduced(g, n - 1)
      case Err(e) => Err(e)
      case Ok(d) =>
        if !g[n - 1].onMinPath then Ok(d)
        else if Key(g[n - 1]) in d then Err(DuplicateKey)
        else Ok(d[Key(g[n - 1]) := n - 1])
  }

  /** Once the rebuilding fails it stays failed. */
  lemma {:induction false} ReducedFailed(g: seq<Node>, a: nat, b: nat)
    requires Closed(g) && a <= b <= |g| && Reduced(g, a).Err?
    ensures Reduced(g, b) == Err(DuplicateKey)
    decreases b
  {
    if a < b {
      ReducedFailed(g, a, b - 1);
    } else {
      ReducedMessage(g, a);
    }
  }

  /** Reduced never errs with another message. */
  lemma {:induction false} ReducedMessage(g: seq<Node>, b: nat)
    requires Closed(g) && b <= |g|
    ensures Reduced(g, b).Err? ==> Reduced(g, b).message == DuplicateKey
    decreases b
  {
    if b > 0 {
      ReducedMessage(g, b - 1);
    }
  }

  /** Two marked positions below n share a canonical key. */
  ghost predicate Clash(g: seq<Node>, n: nat)
    requires Closed(g) && n <= |g|
  {
    exists a, b :: 0 <= a < b < n && g[a].onMinPath && g[b].onMinPath && Key(g[a]) == Key(g[b])
  }

  /** d maps the canonical key of every marked position below n to that
      position, and holds nothing else. */
  ghost predicate Indexes(g: seq<Node>, n: nat, d: map<int, nat>)
    requires Closed(g) && n <= |g|
  {
    (forall j :: 0 <= j < n && g[j].onMinPath ==> Key(g[j]) in d && d[Key(g[j])] == j) &&
    (forall key :: key in d ==> d[key] < n && g[d[key]].onMinPath && Key(g[d[key]]) == key)
  }

  /** ReduceToMin fails exactly on a clash; otherwise its dictionary holds
      exactly the marked positions, each under its canonical key. */
  lemma {:induction false} ReducedSpec(g: seq<Node>, n: nat)
    requires Closed(g) && n <= |g|
    ensures Reduced(g, n).Err? <==> Clash(g, n)
    ensures Reduced(g, n).Err? ==> Reduced(g, n).message == DuplicateKey
    ensures Reduced(g, n).Ok? ==> Indexes(g, n, Reduced(g, n).value)
  {
    if n > 0 {
      ReducedSpec(g, n - 1);
      match Reduced(g, n - 1)
      case Err(_) =>
        ClashGrows(g, n);
      case Ok(d) =>
        ReducedStep(g, n, d);
    }
  }

  lemma ClashGrows(g: seq<Node>, n: nat)
    requires Closed(g) && 0 < n <= |g| && Clash(g, n - 1)
    ensures Clash(g, n)
  {
    var a, b :| 0 <= a < b < n - 1 && g[a].onMinPath && g[b].onMinPath && Key(g[a]) == Key(g[b]);
    assert 0 <= a < b < n && g[a].onMinPath && g[b].onMinPath && Key(g[a]) == Key(g[b]);
  }

  /** One more position of ReduceToMin's loop, from a clash-free dictionary. */
  lemma ReducedStep(g: seq<Node>, n: nat, d: map<int, nat>)
    requires Closed(g) && 0 < n <= |g|
    requires Reduced(g, n - 1) == Ok(d) && Indexes(g, n - 1, d) && !Clash(g, n - 1)
    ensures Reduced(g, n).Err? <==> Clash(g, n)
    ensures Reduced(g, n).Err? ==> Reduced(g, n).message == DuplicateKey
    ensures Reduced(g, n).Ok? ==> Indexes(g, n, Reduced(g, n).value)
  {
    var k := Key(g[n - 1]);
    if g[n - 1].onMinPath && k in d {
      var a := d[k];
      assert 0 <= a < n - 1 < n && g[a].onMinPath && g[n - 1].onMinPath && Key(g[a]) == k;
    } else {
      NoClash(g, n, d);
      if g[n - 1].onMinPath {
        IndexesAdd(g, n, d);
      }
    }
  }

  /** A position whose key is new, or that is unmarked, adds no clash. */
  lemma NoClash(g: seq<Node>, n: nat, d: map<int, nat>)
    requires Closed(g) && 0 < n <= |g|
    requires Indexes(g, n - 1, d) && !Clash(g, n - 1)
    requires g[n - 1].onMinPath ==> Key(g[n - 1]) !in d
    ensures !Clash(g, n)
  {
    forall a, b | 0 <= a < b < n && g[a].onMinPath && g[b].onMinPath
      ensures Key(g[a]) != Key(g[b])
    {
      if b == n - 1 {
        assert Key(g[a]) in d;
      }
    }
  }

  /** Registering a marked position under its new key. */
  lemma IndexesAdd(g: seq<Node>, n: nat, d: map<int, nat>)
    requires Closed(g) && 0 < n <= |g|
    requires Indexes(g, n - 1, d) && g[n - 1].onMinPath && Key(g[n - 1]) !in d
    ensures Indexes(g, n, d[Key(g[n - 1]) := n - 1])
  {
    var d' := d[Key(g[n - 1]) := n - 1];
    forall j | 0 <= j < n && g[j].onMinPath
      ensures Key(g[j]) in d' && d'[Key(g[j])] == j
    {
      if j < n - 1 {
        assert Key(g[j]) in d && d[Key(g[j])] == j;
      }
    }
  }

  /** A marked node after pruning: its best moves restricted to marked
      children. */
  function Pruned(g: seq<Node>, j: nat): (n: Node)
    requires j < |g|
  {
    g[j].(bestMoves := Leading(g, j, g[j].bestMoves, MarkedSet(g)))
  }

  const OutsideBounds := "Index was outside the bounds of the array."
  const NullReference := "Object reference not set to an instance of an object."

  /** The exception ReduceToMin's filter meets reading the child of node i
      for each move of ms in turn: a move outside the children array, or a
      null child, throws; the filter throws nothing exactly when every move
      can be followed. */
  function Fault(g: seq<Node>, i: nat, ms: seq<int>): (f: Option<string>)
    requires i < |g|
    ensures f.None? <==> forall t :: 0 <= t < |ms| ==> 0 <= ms[t] < |g[i].children| && g[i].children[ms[t]].Some?
    ensures f.Some? ==> f.value == OutsideBounds || f.value == NullReference
    decreases |ms|
  {
    if ms == [] then None
    else if !(0 <= ms[0] < |g[i].children|) then Some(OutsideBounds)
    else if g[i].children[ms[0]].None? then Some(NullReference)
    else
      var f := Fault(g, i, ms[1..]);
      assert forall t :: 1 <= t < |ms| ==> ms[t] == ms[1..][t - 1];
      f
  }

  /** The first marked position from j on whose filter throws. */
  function FirstFault(g: seq<Node>, j: nat): (f: Option<nat>)
    requires j <= |g|
    ensures f.Some? ==> j <= f.value < |g| && g[f.value].onMinPath && Fault(g, f.value, g[f.value].bestMoves).Some?
    ensures f.Some? ==> forall t :: j <= t < f.value && g[t].onMinPath ==> Fault(g, t, g[t].bestMoves).None?
    ensures f.None? <==> forall t :: j <= t < |g| && g[t].onMinPath ==> Fault(g, t, g[t].bestMoves).None?
    decreases |g| - j
  {
    if j == |g| then None
    else if g[j].onMinPath && Fault(g, j, g[j].bestMoves).Some? then Some(j)
    else FirstFault(g, j + 1)
  }

  /** On an arena whose best moves can be followed (Scoring.SolvedBestPresent
      shows scoring keeps them so), the filter of ReduceToMin never throws. */
  lemma FollowableNoFault(g: seq<Node>)
    requires BestPresent(g)
    ensures FirstFault(g, 0).None?
  {
    forall t | 0 <= t < |g| && g[t].onMinPath
      ensures Fault(g, t, g[t].bestMoves).None?
    {
      forall k | 0 <= k < |g[t].bestMoves|
        ensures 0 <= g[t].bestMoves[k] < |g[t].children| && g[t].children[g[t].bestMoves[k]].Some?
      {
      }
    }
  }

  /** After a successful ReduceToMin every best move of a registered position
      leads to a registered position, and is one of its old best moves. */
  lemma PrunedClosed(g: seq<Node>)
    requires Closed(g) && Reduced(g, |g|).Ok?
    ensures forall key, t :: (key in Reduced(g, |g|).value && Reduced(g, |g|).value[key] < |g| &&
                             0 <= t < |Pruned(g, Reduced(g, |g|).value[key]).bestMoves|) ==>
              var j := Reduced(g, |g|).value[key];
              var m := Pruned(g, j).bestMoves[t];
              0 <= m < 9 && g[j].children[m].Some? && m in g[j].bestMoves &&
              Key(g[g[j].children[m].value]) in Reduced(g, |g|).value &&
              Reduced(g, |g|).value[Key(g[g[j].children[m].value])] == g[j].children[m].value
  {
    ReducedSpec(g, |g|);
    var d := Reduced(g, |g|).value;
    forall key, t | key in d && d[key] < |g| && 0 <= t < |Pruned(g, d[key]).bestMoves|
      ensures var j := d[key];
              var m := Pruned(g, j).bestMoves[t];
              0 <= m < 9 && g[j].children[m].Some? && m in g[j].bestMoves &&
              Key(g[g[j].children[m].value]) in d && d[Key(g[g[j].children[m].value])] == g[j].children[m].value
    {
      var j := d[key];
      LeadingSpec(g, j, g[j].bestMoves, MarkedSet(g));
      var m := Pruned(g, j).bestMoves[t];
      assert Leads(g, j, m, MarkedSet(g));
      assert m in Pruned(g, j).bestMoves;
    }
  }

  // ---------------------------------------------------------------------------
  // The node dictionary

  /** The node objects of a generated graph, and the Dictionary<int, Node> that
      names some of them by key. The trials read every node of the arena:
      GenerateTree registers each node once, so the dictionary's values are
      the arena until ReduceToMin rebuilds the dictionary. */
  class Registry {
    var nodes: seq<Node>
    var index: map<int, nat>

    constructor (nodes: seq<Node>, index: map<int, nat>)
      ensures this.nodes == nodes && this.index == index
    {
      this.nodes := nodes;
      this.index := index;
    }

    /** The ComputeMin loop that clears every onMinPath flag. */
    method ClearMarks()
      modifies this
      ensures SameBut(old(nodes), nodes) && MarkedSet(nodes) == {}
      ensures index == old(index)
    {
      ghost var g := nodes;
      var j := 0;
      while j < |nodes|
        invariant 0 <= j <= |nodes| == |g|
        invariant SameBut(g, nodes) && index == old(index)
        invariant forall t :: 0 <= t < j ==> !nodes[t].onMinPath
      {
        Mark(nodes, j, false);
        nodes := nodes[j := nodes[j].(onMinPath := false)];
        j := j + 1;
      }
    }

    /** nodes.Values.Count(p => p.onMinPath). */
    method CountMarked() returns (c: nat)
      ensures c == |MarkedSet(nodes)|
    {
      c := 0;
      var j := 0;
      while j < |nodes|
        invariant 0 <= j <= |nodes|
        invariant c == |MarkedBelow(nodes, j)|
      {
        MarkedBelowStep(nodes, j);
        if nodes[j].onMinPath {
          c := c + 1;
        }
        j := j + 1;
      }
      assert MarkedBelow(nodes, j) == MarkedSet(nodes);
    }

    /** Misc.WalkPath on the arena g whose flags nodes holds. */
    method WalkPath(ghost g: seq<Node>, i: nat, pickBest: bool, startCenter: bool, rand: Oracle, k: nat) returns (k': nat)
      requires Walkable(g) && SameBut(g, nodes) && i < |g|
      requires startCenter ==> g[i].children[4].Some?
      modifies this
      ensures SameBut(g, nodes) && index == old(index)
      ensures Walked(MarkedSet(nodes), k') == Walk(g, MarkedSet(old(nodes)), i, pickBest, startCenter, rand, k)
      decreases 9 - D(g, i)
    {
      SameWalkable(g, nodes);
      Mark(nodes, i, true);
      nodes := nodes[i := nodes[i].(onMinPath := true)];
      ghost var here := MarkedSet(old(nodes)) + {i};
      SameWalkable(g, nodes);
      if startCenter {
        k' := WalkPath(g, nodes[i].children[4].value, !pickBest, false, rand, k);
      } else if pickBest {
        var preferred := Leading(nodes, i, nodes[i].bestMoves, MarkedSet(nodes));
        LeadingSame(g, nodes, i, g[i].bestMoves, here);
        var from := if preferred != [] then preferred else nodes[i].bestMoves;
        assert Choice(g, i, here, rand, k) == if from == [] then None else Some(from[Draw(rand, k, |from|)]);
        if from == [] {
          k' := k;
        } else {
          var pick := from[Draw(rand, k, |from|)];
          k' := WalkPath(g, nodes[i].children[pick].value, false, false, rand, k + 1);
        }
      } else {
        k' := k;
        for m := 0 to 9
          invariant SameBut(g, nodes) && index == old(index)
          invariant Walked(MarkedSet(nodes), k') == WalkFrom(g, here, i, m, rand, k)
        {
          SameWalkable(g, nodes);
          match nodes[i].children[m]
          case None =>
          case Some(c) =>
            k' := WalkPath(g, c, true, false, rand, k');
        }
      }
    }

    /** One ComputeMin trial under seed + 1: clears every flag, walks for the
        computer opening in the centre and then for the opponent opening,
        counts the marked nodes and keeps the count when it is strictly
        smaller than the best so far. randoms(s) stands for new Random(s). */
    method Trial(b: nat, seed: int, minScore: int, minSeed: int, randoms: int -> Oracle)
      returns (seed': int, minScore': int, minSeed': int, minPath: nat)
      requires Walkable(nodes) && b < |nodes| && nodes[b].children[4].Some?
      modifies this
      ensures SameBut(old(nodes), nodes) && index == old(index)
      ensures seed' == seed + 1
      ensures MarkedSet(nodes) == Covered(old(nodes), b, randoms(seed')) && minPath == |MarkedSet(nodes)|
      ensures minPath < minScore ==> minScore' == minPath && minSeed' == seed'
      ensures minPath >= minScore ==> minScore' == minScore && minSeed' == minSeed
    {
      ghost var g := nodes;
      ClearMarks();
      seed' := seed + 1;
      var rand := randoms(seed');
      var k := WalkPath(g, b, true, true, rand, 0);
      k := WalkPath(g, b, false, false, rand, k);
      minPath := CountMarked();
      minScore', minSeed' := minScore, minSeed;
      if minPath < minScore {
        minScore', minSeed' := minPath, seed';
      }
    }

    /** Misc.ReduceToMin: the dictionary becomes every marked node under its
        canonical key, failing on a duplicate key with the dictionary as the
        failing Add left it; then each marked node keeps only the best moves
        whose child is marked, failing at the first marked node with a best
        move that cannot be followed, after pruning the marked nodes before it. */
    method ReduceToMin() returns (r: Result<()>)
      requires Closed(nodes)
      modifies this
      ensures r.Ok? <==> Reduced(old(nodes), |old(nodes)|).Ok? && FirstFault(old(nodes), 0).None?
      ensures Reduced(old(nodes), |old(nodes)|).Err? ==>
                r == Err(DuplicateKey) && nodes == old(nodes) &&
                exists c :: 0 <= c < |old(nodes)| && Reduced(old(nodes), c) == Ok(index) &&
                            Reduced(old(nodes), c + 1).Err?
      ensures Reduced(old(nodes), |old(nodes)|).Ok? ==>
                index == Reduced(old(nodes), |old(nodes)|).value && |nodes| == |old(nodes)|
      ensures Reduced(old(nodes), |old(nodes)|).Ok? && FirstFault(old(nodes), 0).Some? ==>
                var f := FirstFault(old(nodes), 0).value;
                r == Err(Fault(old(nodes), f, old(nodes)[f].bestMoves).value) &&
                forall j :: 0 <= j < |nodes| ==>
                  nodes[j] == if j < f && old(nodes)[j].onMinPath then Pruned(old(nodes), j) else old(nodes)[j]
      ensures r.Ok? ==> forall j :: 0 <= j < |nodes| ==>
                          nodes[j] == if old(nodes)[j].onMinPath then Pruned(old(nodes), j) else old(nodes)[j]
    {
      var ok := Rebuild();
      if !ok {
        return Err(DuplicateKey);
      }
      r := PruneMarked();
    }

    /** The first loop of Misc.ReduceToMin: the dictionary is cleared and every
        marked node is added under its canonical key; an Add of a key already
        present throws, leaving the dictionary as it was before that Add. */
    method Rebuild() returns (ok: bool)
      requires Closed(nodes)
      modifies this
      ensures nodes == old(nodes)
      ensures ok <==> Reduced(nodes, |nodes|).Ok?
      ensures ok ==> index == Reduced(nodes, |nodes|).value
      ensures !ok ==> exists c :: 0 <= c < |nodes| && Reduced(nodes, c) == Ok(index) && Reduced(nodes, c + 1).Err?
    {
      index := map[];
      var j := 0;
      while j < |nodes|
        invariant 0 <= j <= |nodes| && nodes == old(nodes)
        invariant Reduced(nodes, j) == Ok(index)
      {
        if nodes[j].onMinPath {
          var hash, minHash := Fingerprints(nodes[j]);
          if minHash in index {
            ReducedFailed(nodes, j + 1, |nodes|);
            assert Reduced(nodes, j) == Ok(index) && Reduced(nodes, j + 1).Err?;
            return false;
          }
          index := index[minHash := j];
        }
        j := j + 1;
      }
      return true;
    }

    /** The second loop of Misc.ReduceToMin: each marked node in turn keeps
        only its best moves whose child is marked; the filter throws at the
        first marked node with a best move that cannot be followed. */
    method PruneMarked() returns (r: Result<()>)
      modifies this
      ensures index == old(index) && |nodes| == |old(nodes)|
      ensures r.Ok? <==> FirstFault(old(nodes), 0).None?
      ensures FirstFault(old(nodes), 0).Some? ==>
                var f := FirstFault(old(nodes), 0).value;
                r == Err(Fault(old(nodes), f, old(nodes)[f].bestMoves).value) &&
                forall j :: 0 <= j < |nodes| ==>
                  nodes[j] == if j < f && old(nodes)[j].onMinPath then Pruned(old(nodes), j) else old(nodes)[j]
      ensures r.Ok? ==> forall j :: 0 <= j < |nodes| ==>
                          nodes[j] == if old(nodes)[j].onMinPath then Pruned(old(nodes), j) else old(nodes)[j]
    {
      var g := nodes;
      var marked := MarkedSet(g);
      var j := 0;
      while j < |g|
        invariant 0 <= j <= |g| && |nodes| == |g| && index == old(index)
        invariant FirstFault(g, 0) == FirstFault(g, j)
        invariant forall t :: 0 <= t < j ==> nodes[t] == if g[t].onMinPath then Pruned(g, t) else g[t]
        invariant forall t :: j <= t < |g| ==> nodes[t] == g[t]
      {
        if g[j].onMinPath {
          var fault := Fault(g, j, g[j].bestMoves);
          if fault.Some? {
            assert FirstFault(g, 0) == Some(j);
            return Err(fault.value);
          }
          nodes := nodes[j := g[j].(bestMoves := Leading(g, j, g[j].bestMoves, marked))];
        }
        j := j + 1;
      }
      assert FirstFault(g, 0).None?;
      r := Ok(());
    }
  }

  /** Leading depends only on the children of node i. */
  lemma {:induction false} LeadingSame(a: seq<Node>, b: seq<Node>, i: nat, ms: seq<int>, marked: set<nat>)
    requires i < |a| == |b| && b[i].children == a[i].children
    ensures Leading(a, i, ms, marked) == Leading(b, i, ms, marked)
    decreases |ms|
  {
    if ms != [] {
      LeadingSame(a, b, i, ms[1..], marked);
    }
  }

  /** The marked positions below n. */
  function MarkedBelow(g: seq<Node>, n: nat): set<nat>
  {
    set j | 0 <= j < n && j < |g| && g[j].onMinPath
  }

  lemma MarkedBelowStep(g: seq<Node>, n: nat)
    requires n < |g|
    ensures MarkedBelow(g, n + 1) == MarkedBelow(g, n) + (if g[n].onMinPath then {n} else {})
    ensures n !in MarkedBelow(g, n)
  {
  }
}
