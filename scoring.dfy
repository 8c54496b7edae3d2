/** What GenerateTree.ScoreGraph computes, stated independently of its passes:
    the leaf outcomes below each node and its minimax value, by recursion over
    the acyclic node arena. */
module Scoring {
  import opened Util
  import opened Nodes
  import opened Traversal
  import opened Wrappers

  /** The three leaf counters of a node. */
  datatype Tallies = Tallies(wins1: int, wins2: int, draws: int)

  function TalliesOf(n: Node): Tallies
  {
    Tallies(n.wins1, n.wins2, n.draws)
  }

  function Plus(a: Tallies, b: Tallies): Tallies
  {
    Tallies(a.wins1 + b.wins1, a.wins2 + b.wins2, a.draws + b.draws)
  }

  /** SelectBest's side to move: player 1, who maximises, when the number of
      blank cells is odd. */
  predicate Maximizing(b: seq<int>)
  {
    CountOf(b, 0) % 2 == 1
  }

  /** SelectBest's starting score: the worst outcome for the side to move. */
  function Worst(max: bool): int
  {
    if max then -1 else 1
  }

  /** y is at least as good as x for the side that maximises (max) or minimises. */
  predicate Ranks(max: bool, x: int, y: int)
  {
    if max then x <= y else y <= x
  }

  /** The better of two scores for the side to move. */
  function Better(max: bool, x: int, y: int): (r: int)
    ensures Ranks(max, x, r) && Ranks(max, y, r) && (r == x || r == y)
  {
    if Ranks(max, x, y) then y else x
  }

  /** Every unscored node has a child and no counter is negative: the graphs
      on which the scoring passes end. */
  predicate ScoreReady(g: seq<Node>)
  {
    Graph(g) &&
    forall j :: 0 <= j < |g| ==>
      g[j].wins1 >= 0 && g[j].wins2 >= 0 && g[j].draws >= 0 &&
      (!Scored(g[j]) ==> exists m :: 0 <= m < 9 && g[j].children[m].Some?)
  }

  /** Leaf outcomes below node i, one per path; an already scored node
      contributes its own counters. */
  function Tally(g: seq<Node>, i: nat): Tallies
    requires Graph(g) && i < |g|
    decreases 9 - D(g, i), 10
  {
    if Scored(g[i]) then TalliesOf(g[i]) else TallyBelow(g, i, 9)
  }

  /** The sum of Tally over the children of node i at moves below m. */
  function TallyBelow(g: seq<Node>, i: nat, m: nat): Tallies
    requires Graph(g) && i < |g| && m <= 9
    decreases 9 - D(g, i), m
  {
    if m == 0 then Tallies(0, 0, 0)
    else
      var rest := TallyBelow(g, i, m - 1);
      match g[i].children[m - 1]
      case None => rest
      case Some(c) => Plus(rest, Tally(g, c))
  }

  /** Minimax value of node i; an already scored node keeps its score. */
  function Value(g: seq<Node>, i: nat): int
    requires Graph(g) && i < |g|
    decreases 9 - D(g, i), 10
  {
    if Scored(g[i]) then g[i].score else ValueBelow(g, i, 9)
  }

  /** The best of Worst and the values of the children at moves below m, for
      the side to move at node i. */
  function ValueBelow(g: seq<Node>, i: nat, m: nat): int
    requires Graph(g) && i < |g| && m <= 9
    decreases 9 - D(g, i), m
  {
    var max := Maximizing(g[i].board);
    if m == 0 then Worst(max)
    else
      var rest := ValueBelow(g, i, m - 1);
      match g[i].children[m - 1]
      case None => rest
      case Some(c) => Better(max, rest, Value(g, c))
  }

  /** The moves below m, ascending, whose child has value s. */
  function Optimal(g: seq<Node>, i: nat, s: int, m: nat): (r: seq<int>)
    requires Graph(g) && i < |g| && m <= 9
    ensures forall k :: 0 <= k < |r| ==>
              0 <= r[k] < m && g[i].children[r[k]].Some? && Value(g, g[i].children[r[k]].value) == s
    ensures forall k :: 0 <= k < m && g[i].children[k].Some? && Value(g, g[i].children[k].value) == s ==> k in r
    ensures forall a, b :: 0 <= a < b < |r| ==> r[a] < r[b]
  {
    if m == 0 then []
    else
      var rest := Optimal(g, i, s, m - 1);
      match g[i].children[m - 1]
      case None => rest
      case Some(c) => if Value(g, c) == s then rest + [m - 1] else rest
  }

  /** The best-move list SelectBest leaves on node i: the optimal moves, after
      whatever the list held when no child beats Worst. */
  function BestList(g: seq<Node>, i: nat): seq<int>
    requires Graph(g) && i < |g|
  {
    var v := Value(g, i);
    (if v == Worst(Maximizing(g[i].board)) then g[i].bestMoves else []) + Optimal(g, i, v, 9)
  }

  /** Node i once scored: counters, score and best moves filled in. */
  function Final(g: seq<Node>, i: nat): (n: Node)
    requires Graph(g) && i < |g|
    ensures n.board == g[i].board && n.children == g[i].children && n.onMinPath == g[i].onMinPath
  {
    if Scored(g[i]) then g[i]
    else
      var t := Tally(g, i);
      g[i].(wins1 := t.wins1, wins2 := t.wins2, draws := t.draws,
            score := Value(g, i), bestMoves := BestList(g, i))
  }

  /** The whole arena once scored. */
  function Solved(g: seq<Node>): (h: seq<Node>)
    requires Graph(g)
    ensures |h| == |g| && forall j :: 0 <= j < |g| ==> h[j] == Final(g, j)
  {
    seq(|g|, j requires 0 <= j < |g| => Final(g, j))
  }

  /** On a ready graph every tally is non-negative and counts at least one leaf. */
  lemma {:induction false} TallyPositive(g: seq<Node>, i: nat)
    requires ScoreReady(g) && i < |g|
    ensures Tally(g, i).wins1 >= 0 && Tally(g, i).wins2 >= 0 && Tally(g, i).draws >= 0
    ensures Tally(g, i).wins1 + Tally(g, i).wins2 + Tally(g, i).draws > 0
    decreases 9 - D(g, i), 10
  {
    if !Scored(g[i]) {
      var m :| 0 <= m < 9 && g[i].children[m].Some?;
      TallyBelowPositive(g, i, 9, m);
    }
  }

  lemma {:induction false} TallyBelowPositive(g: seq<Node>, i: nat, k: nat, m: nat)
    requires ScoreReady(g) && i < |g| && k <= 9 && m < 9
    requires g[i].children[m].Some?
    ensures TallyBelow(g, i, k).wins1 >= 0 && TallyBelow(g, i, k).wins2 >= 0 && TallyBelow(g, i, k).draws >= 0
    ensures m < k ==> TallyBelow(g, i, k).wins1 + TallyBelow(g, i, k).wins2 + TallyBelow(g, i, k).draws > 0
    decreases 9 - D(g, i), k
  {
    if k > 0 {
      TallyBelowPositive(g, i, k - 1, m);
      match g[i].children[k - 1]
      case None =>
      case Some(c) => TallyPositive(g, c);
    }
  }

  /** Scoring settles every node of a ready graph. */
  lemma SolvedScored(g: seq<Node>)
    requires ScoreReady(g)
    ensures forall j :: 0 <= j < |g| ==> Scored(Solved(g)[j])
  {
    forall j | 0 <= j < |g|
      ensures Scored(Solved(g)[j])
    {
      TallyPositive(g, j);
    }
  }

  /** Scoring a solved graph again leaves it as it is. */
  lemma SolvedStable(g: seq<Node>)
    requires ScoreReady(g)
    ensures Graph(Solved(g)) && Solved(Solved(g)) == Solved(g)
  {
    var h := Solved(g);
    SolvedScored(g);
    assert Closed(h) by {
      forall j | 0 <= j < |h|
        ensures Shaped(h[j]) && ChildrenIn(h[j], |h|)
      {
        assert h[j].children == g[j].children && h[j].board == g[j].board;
      }
    }
    assert forall j :: 0 <= j < |h| ==> h[j].board == g[j].board && h[j].children == g[j].children;
    assert Graph(h);
    assert Solved(h) == h;
  }

  /** Every scored node carries a game result: 1, 0 or -1. */
  predicate ScoresInRange(g: seq<Node>)
  {
    forall j :: 0 <= j < |g| && Scored(g[j]) ==> -1 <= g[j].score <= 1
  }

  /** When the scored nodes carry game results, every minimax value is one. */
  lemma {:induction false} ValueRange(g: seq<Node>, i: nat)
    requires Graph(g) && ScoresInRange(g) && i < |g|
    ensures -1 <= Value(g, i) <= 1
    decreases 9 - D(g, i), 10
  {
    if !Scored(g[i]) {
      ValueBelowRange(g, i, 9);
    }
  }

  lemma {:induction false} ValueBelowRange(g: seq<Node>, i: nat, m: nat)
    requires Graph(g) && ScoresInRange(g) && i < |g| && m <= 9
    ensures -1 <= ValueBelow(g, i, m) <= 1
    decreases 9 - D(g, i), m
  {
    if m > 0 {
      ValueBelowRange(g, i, m - 1);
      match g[i].children[m - 1]
      case None =>
      case Some(c) => ValueRange(g, c);
    }
  }

  /** ValueBelow is at least as good for the side to move as every child below
      m, and it is Worst or the value of one of them. */
  lemma {:induction false} ValueBelowBest(g: seq<Node>, i: nat, m: nat)
    requires Graph(g) && i < |g| && m <= 9
    ensures forall k :: 0 <= k < m && g[i].children[k].Some? ==>
              Ranks(Maximizing(g[i].board), Value(g, g[i].children[k].value), ValueBelow(g, i, m))
    ensures ValueBelow(g, i, m) == Worst(Maximizing(g[i].board)) ||
            exists k :: 0 <= k < m && g[i].children[k].Some? && Value(g, g[i].children[k].value) == ValueBelow(g, i, m)
    decreases m
  {
    if m > 0 {
      ValueBelowBest(g, i, m - 1);
    }
  }

  /** On game-result scores a node with a child has a child achieving its
      value: Worst is only kept when some child is that bad. */
  lemma ValueAttained(g: seq<Node>, i: nat, m: nat)
    requires Graph(g) && ScoresInRange(g) && i < |g| && !Scored(g[i])
    requires m < 9 && g[i].children[m].Some?
    ensures exists k :: 0 <= k < 9 && g[i].children[k].Some? && Value(g, g[i].children[k].value) == Value(g, i)
  {
    ValueBelowBest(g, i, 9);
    ValueRange(g, g[i].children[m].value);
    if ValueBelow(g, i, 9) == Worst(Maximizing(g[i].board)) {
      assert Value(g, g[i].children[m].value) == Value(g, i);
    }
  }

  /** On a ready graph with game-result scores, scoring leaves a non-empty
      best-move list on every node it settles, and every score is a game
      result. */
  lemma BestNonEmpty(g: seq<Node>)
    requires ScoreReady(g) && ScoresInRange(g)
    ensures forall i :: 0 <= i < |g| && !Scored(g[i]) ==> Solved(g)[i].bestMoves != []
    ensures forall i :: 0 <= i < |g| ==> -1 <= Solved(g)[i].score <= 1
  {
    forall i | 0 <= i < |g|
      ensures !Scored(g[i]) ==> Solved(g)[i].bestMoves != []
      ensures -1 <= Solved(g)[i].score <= 1
    {
      ValueRange(g, i);
      if !Scored(g[i]) {
        var m :| 0 <= m < 9 && g[i].children[m].Some?;
        ValueAttained(g, i, m);
        var k :| 0 <= k < 9 && g[i].children[k].Some? && Value(g, g[i].children[k].value) == Value(g, i);
        assert k in Optimal(g, i, Value(g, i), 9);
      }
    }
  }

  /** Scoring keeps every best move on a present child: the moves it appends
      are children achieving the value. */
  lemma SolvedBestPresent(g: seq<Node>)
    requires Graph(g) && BestPresent(g)
    ensures BestPresent(Solved(g))
  {
  }

  /** The same boards and children as a graph: a graph too. */
  lemma SameStructure(g: seq<Node>, h: seq<Node>)
    requires Graph(g) && |h| == |g|
    requires forall j :: 0 <= j < |g| ==> h[j].board == g[j].board && h[j].children == g[j].children
    ensures Graph(h)
  {
    assert Closed(h) by {
      forall j | 0 <= j < |h|
        ensures Shaped(h[j]) && ChildrenIn(h[j], |h|)
      {
        assert Shaped(g[j]) && ChildrenIn(g[j], |g|);
      }
    }
  }

  // ---------------------------------------------------------------------------
  // What one scoring step reads from the current arena

  /** Nine child slots, each absent or inside an arena of the given size. */
  predicate Within(ch: seq<Option<nat>>, size: nat)
  {
    |ch| == 9 && forall m :: 0 <= m < 9 && ch[m].Some? ==> ch[m].value < size
  }

  /** The current score of the child at move m. */
  function ScoreAt(nodes: seq<Node>, ch: seq<Option<nat>>, m: nat): int
    requires Within(ch, |nodes|) && m < 9 && ch[m].Some?
  {
    nodes[ch[m].value].score
  }

  /** v is the best of Worst(max) and the child scores at moves below k, for
      the side that maximises (max) or minimises. */
  predicate IsBest(nodes: seq<Node>, ch: seq<Option<nat>>, max: bool, v: int, k: nat)
    requires Within(ch, |nodes|) && k <= 9
  {
    Ranks(max, Worst(max), v) &&
    (forall m :: 0 <= m < k && ch[m].Some? ==> Ranks(max, ScoreAt(nodes, ch, m), v)) &&
    (v == Worst(max) || exists m :: 0 <= m < k && ch[m].Some? && ScoreAt(nodes, ch, m) == v)
  }

  /** The best score is unique. */
  lemma BestUnique(nodes: seq<Node>, ch: seq<Option<nat>>, max: bool, v: int, w: int, k: nat)
    requires Within(ch, |nodes|) && k <= 9
    requires IsBest(nodes, ch, max, v, k) && IsBest(nodes, ch, max, w, k)
    ensures v == w
  {
  }

  /** The moves below k, ascending, whose child currently scores s. */
  function Achieving(nodes: seq<Node>, ch: seq<Option<nat>>, s: int, k: nat): (r: seq<int>)
    requires Within(ch, |nodes|) && k <= 9
    ensures forall i :: 0 <= i < |r| ==> 0 <= r[i] < k && ch[r[i]].Some? && ScoreAt(nodes, ch, r[i]) == s
  {
    if k == 0 then []
    else Achieving(nodes, ch, s, k - 1) + (if ch[k - 1].Some? && ScoreAt(nodes, ch, k - 1) == s then [k - 1] else [])
  }

  /** No child below k scores s: no move achieves it. */
  lemma {:induction false} AchievingNone(nodes: seq<Node>, ch: seq<Option<nat>>, s: int, k: nat)
    requires Within(ch, |nodes|) && k <= 9
    requires forall m :: 0 <= m < k && ch[m].Some? ==> ScoreAt(nodes, ch, m) != s
    ensures Achieving(nodes, ch, s, k) == []
  {
    if k > 0 {
      AchievingNone(nodes, ch, s, k - 1);
    }
  }

  /** What SelectBest leaves on b: the best child score for the side to move,
      and the moves reaching it, after the previous list when nothing beats
      Worst; nothing else changes. */
  predicate Selected(nodes: seq<Node>, b: Node, r: Node)
    requires Within(b.children, |nodes|)
  {
    var max := Maximizing(b.board);
    r == b.(score := r.score, bestMoves := r.bestMoves) &&
    IsBest(nodes, b.children, max, r.score, 9) &&
    r.bestMoves == (if r.score == Worst(max) then b.bestMoves else []) + Achieving(nodes, b.children, r.score, 9)
  }

  /** The counters of the children below k, summed (LINQ Sum over the non-null
      children). */
  function SumBelow(nodes: seq<Node>, ch: seq<Option<nat>>, k: nat): Tallies
    requires Within(ch, |nodes|) && k <= 9
  {
    if k == 0 then Tallies(0, 0, 0)
    else
      var rest := SumBelow(nodes, ch, k - 1);
      if ch[k - 1].Some? then Plus(rest, TalliesOf(nodes[ch[k - 1].value])) else rest
  }

  /** Every non-null child is scored (LINQ All). */
  predicate ChildrenScored(nodes: seq<Node>, ch: seq<Option<nat>>)
    requires Within(ch, |nodes|)
  {
    forall m :: 0 <= m < 9 && ch[m].Some? ==> Scored(nodes[ch[m].value])
  }

  // ---------------------------------------------------------------------------
  // The current arena during the passes

  /** Each node is either untouched or already in its final form, and the
      scored ones are exactly the final ones. */
  predicate Progress(g: seq<Node>, nodes: seq<Node>)
  {
    Graph(g) && |nodes| == |g| &&
    forall j :: 0 <= j < |g| ==> nodes[j] == (if Scored(nodes[j]) then Final(g, j) else g[j])
  }

  /** Node j cannot be scored in this pass: it is scored or has an unscored child. */
  predicate Stuck(nodes: seq<Node>, j: nat)
    requires j < |nodes| && |nodes[j].children| == 9
  {
    Scored(nodes[j]) ||
    exists m :: 0 <= m < 9 && nodes[j].children[m].Some? && nodes[j].children[m].value < |nodes| &&
                !Scored(nodes[nodes[j].children[m].value])
  }

  /** Every node below n is stuck. */
  predicate StuckBelow(nodes: seq<Node>, n: nat)
    requires Closed(nodes) && n <= |nodes|
  {
    forall k :: 0 <= k < n ==> Stuck(nodes, k)
  }

  lemma StuckBelowStep(nodes: seq<Node>, n: nat)
    requires Closed(nodes) && n < |nodes|
    requires StuckBelow(nodes, n) && Stuck(nodes, n)
    ensures StuckBelow(nodes, n + 1)
  {
  }

  /** Number of unscored nodes below n. */
  function UnscoredBelow(nodes: seq<Node>, n: nat): (c: nat)
    requires n <= |nodes|
    ensures c <= n
  {
    if n == 0 then 0 else UnscoredBelow(nodes, n - 1) + (if Scored(nodes[n - 1]) then 0 else 1)
  }

  lemma {:induction false} UnscoredSet(nodes: seq<Node>, j: nat, b: Node, n: nat)
    requires n <= |nodes| && j < |nodes| && !Scored(nodes[j]) && Scored(b)
    ensures UnscoredBelow(nodes[j := b], n) + (if j < n then 1 else 0) == UnscoredBelow(nodes, n)
  {
    if n > 0 {
      UnscoredSet(nodes, j, b, n - 1);
    }
  }

  /** In a graph where every node is stuck, every node is scored: an unscored
      node would have an unscored child one move deeper, without end. */
  lemma {:induction false} AllStuckScored(nodes: seq<Node>, j: nat)
    requires Graph(nodes) && j < |nodes|
    requires forall k :: 0 <= k < |nodes| ==> Stuck(nodes, k)
    ensures Scored(nodes[j])
    decreases 9 - D(nodes, j)
  {
    if !Scored(nodes[j]) {
      assert Stuck(nodes, j);
      var m :| 0 <= m < 9 && nodes[j].children[m].Some? && nodes[j].children[m].value < |nodes| &&
               !Scored(nodes[nodes[j].children[m].value]);
      AllStuckScored(nodes, nodes[j].children[m].value);
    }
  }

  /** Every non-null child of node i of g is in its final form in nodes. */
  predicate ChildrenFinal(g: seq<Node>, nodes: seq<Node>, i: nat)
    requires Graph(g) && i < |g| && |nodes| == |g|
  {
    forall m :: 0 <= m < 9 && g[i].children[m].Some? ==> nodes[g[i].children[m].value] == Final(g, g[i].children[m].value)
  }

  /** The child scores read from an arena in which the children of node i of
      g are final give g's minimax value as the best score. */
  lemma {:induction false} ValueIsBest(g: seq<Node>, nodes: seq<Node>, i: nat, k: nat)
    requires Graph(g) && i < |g| && |nodes| == |g| && k <= 9
    requires Within(g[i].children, |nodes|) && ChildrenFinal(g, nodes, i)
    ensures IsBest(nodes, g[i].children, Maximizing(g[i].board), ValueBelow(g, i, k), k)
    decreases k
  {
    if k > 0 {
      ValueIsBest(g, nodes, i, k - 1);
    }
  }

  /** ... and the moves achieving a score are the optimal moves of g. */
  lemma {:induction false} AchievingIsOptimal(g: seq<Node>, nodes: seq<Node>, i: nat, k: nat)
    requires Graph(g) && i < |g| && |nodes| == |g| && k <= 9
    requires Within(g[i].children, |nodes|) && ChildrenFinal(g, nodes, i)
    ensures Achieving(nodes, g[i].children, ValueBelow(g, i, 9), k) == Optimal(g, i, ValueBelow(g, i, 9), k)
    decreases k
  {
    if k > 0 {
      AchievingIsOptimal(g, nodes, i, k - 1);
      var v := ValueBelow(g, i, 9);
      var rest := Achieving(nodes, g[i].children, v, k - 1);
      match g[i].children[k - 1]
      case None =>
        assert Achieving(nodes, g[i].children, v, k) == rest + [];
      case Some(c) =>
        assert ScoreAt(nodes, g[i].children, k - 1) == Value(g, c);
    }
  }

  /** ... and the summed counters are g's tallies. */
  lemma {:induction false} SumIsTally(g: seq<Node>, nodes: seq<Node>, i: nat, k: nat)
    requires Graph(g) && i < |g| && |nodes| == |g| && k <= 9
    requires Within(g[i].children, |nodes|) && ChildrenFinal(g, nodes, i)
    ensures SumBelow(nodes, g[i].children, k) == TallyBelow(g, i, k)
    decreases k
  {
    if k > 0 {
      SumIsTally(g, nodes, i, k - 1);
    }
  }

  /** One scoring step: an unscored node whose children are all scored, given
      the summed counters and then SelectBest, becomes its final form, which is
      scored. */
  lemma StepFinal(g: seq<Node>, nodes: seq<Node>, j: nat, r: Node)
    requires ScoreReady(g) && Progress(g, nodes) && j < |g| && !Scored(nodes[j])
    requires Within(nodes[j].children, |nodes|) && ChildrenScored(nodes, nodes[j].children)
    requires Selected(nodes, nodes[j].(wins1 := SumBelow(nodes, nodes[j].children, 9).wins1,
                                       wins2 := SumBelow(nodes, nodes[j].children, 9).wins2,
                                       draws := SumBelow(nodes, nodes[j].children, 9).draws), r)
    ensures r == Final(g, j) && Scored(r)
  {
    assert nodes[j] == g[j];
    var ch := g[j].children;
    forall m | 0 <= m < 9 && ch[m].Some?
      ensures nodes[ch[m].value] == Final(g, ch[m].value)
    {
      assert Scored(nodes[ch[m].value]);
    }
    ValueIsBest(g, nodes, j, 9);
    AchievingIsOptimal(g, nodes, j, 9);
    SumIsTally(g, nodes, j, 9);
    BestUnique(nodes, ch, Maximizing(g[j].board), r.score, ValueBelow(g, j, 9), 9);
    TallyPositive(g, j);
  }
}
