/** The recursive walks of Util.cs (Count and the two Recurse overloads) over a
    node arena. A walk's callback is a pure function here, so a walk is
    described by the sequence of calls it makes to that callback. */
module Traversal {
  import opened Util
  import opened Nodes
  import opened Wrappers

  /** Depth of node i, the termination measure of every walk. */
  function D(nodes: seq<Node>, i: nat): (d: nat)
    requires Closed(nodes) && i < |nodes|
    ensures d <= 9
  {
    Depth(nodes[i].board)
  }

  /** Util.Count: nodes on all paths below and including i, shared nodes
      counted once per path. */
  function Count(nodes: seq<Node>, i: nat): (c: nat)
    requires Graph(nodes) && i < |nodes|
    ensures c >= 1
    decreases 9 - D(nodes, i), 10
  {
    1 + CountFrom(nodes, i, 0)
  }

  /** Counts of children m.. of node i. */
  function CountFrom(nodes: seq<Node>, i: nat, m: nat): nat
    requires Graph(nodes) && i < |nodes| && m <= 9
    decreases 9 - D(nodes, i), 9 - m
  {
    if m == 9 then 0
    else
      var rest := CountFrom(nodes, i, m + 1);
      match nodes[i].children[m]
      case None => rest
      case Some(c) => Count(nodes, c) + rest
  }

  /** Util.Recurse(p, checker): the nodes on which checker is called, in call
      order. The children of a node are visited only when checker accepts it. */
  function Visit(nodes: seq<Node>, i: nat, checker: Node -> bool): (v: seq<nat>)
    requires Graph(nodes) && i < |nodes|
    ensures |v| >= 1 && v[0] == i
    ensures forall k :: 0 <= k < |v| ==> v[k] < |nodes|
    decreases 9 - D(nodes, i), 10
  {
    [i] + (if checker(nodes[i]) then VisitFrom(nodes, i, 0, checker) else [])
  }

  /** Visits below children m.. of node i. */
  function VisitFrom(nodes: seq<Node>, i: nat, m: nat, checker: Node -> bool): (v: seq<nat>)
    requires Graph(nodes) && i < |nodes| && m <= 9
    ensures forall k :: 0 <= k < |v| ==> v[k] < |nodes|
    decreases 9 - D(nodes, i), 9 - m
  {
    if m == 9 then []
    else
      var rest := VisitFrom(nodes, i, m + 1, checker);
      match nodes[i].children[m]
      case None => rest
      case Some(c) => Visit(nodes, c, checker) + rest
  }

  /** A callback call of the three-argument Recurse: parent, child, move. */
  datatype Edge = Edge(parent: nat, child: nat, move: nat)

  /** Util.Recurse(parent, checker): every (parent, child, move) triple handed to
      checker, in call order; the walk descends into child only when checker
      accepts the triple. */
  function VisitEdges(nodes: seq<Node>, i: nat, checker: (Node, Node, int) -> bool): (v: seq<Edge>)
    requires Graph(nodes) && i < |nodes|
    ensures forall k :: 0 <= k < |v| ==>
              v[k].parent < |nodes| && v[k].move < 9 &&
              nodes[v[k].parent].children[v[k].move] == Some(v[k].child)
    decreases 9 - D(nodes, i), 10
  {
    EdgesFrom(nodes, i, 0, checker)
  }

  function EdgesFrom(nodes: seq<Node>, i: nat, m: nat, checker: (Node, Node, int) -> bool): (v: seq<Edge>)
    requires Graph(nodes) && i < |nodes| && m <= 9
    ensures forall k :: 0 <= k < |v| ==>
              v[k].parent < |nodes| && v[k].move < 9 &&
              nodes[v[k].parent].children[v[k].move] == Some(v[k].child)
    decreases 9 - D(nodes, i), 9 - m
  {
    if m == 9 then []
    else
      var rest := EdgesFrom(nodes, i, m + 1, checker);
      match nodes[i].children[m]
      case None => rest
      case Some(c) =>
        var here := [Edge(i, c, m)];
        var below := if checker(nodes[i], nodes[c], m) then VisitEdges(nodes, c, checker) else [];
        here + below + rest
  }

  /** Util.Count agrees with a walk whose callback always continues, as the
      summary line of GenerateTree.Generate prints. */
  lemma {:induction false} CountIsFullVisit(nodes: seq<Node>, i: nat)
    requires Graph(nodes) && i < |nodes|
    ensures Count(nodes, i) == |Visit(nodes, i, _ => true)|
    decreases 9 - D(nodes, i), 10
  {
    CountFromIsVisitFrom(nodes, i, 0);
  }

  lemma {:induction false} CountFromIsVisitFrom(nodes: seq<Node>, i: nat, m: nat)
    requires Graph(nodes) && i < |nodes| && m <= 9
    ensures CountFrom(nodes, i, m) == |VisitFrom(nodes, i, m, _ => true)|
    decreases 9 - D(nodes, i), 9 - m
  {
    if m < 9 {
      CountFromIsVisitFrom(nodes, i, m + 1);
      match nodes[i].children[m]
      case None =>
      case Some(c) => CountIsFullVisit(nodes, c);
    }
  }

  /** A callback that stops at every node sees only the start node. */
  lemma VisitStopped(nodes: seq<Node>, i: nat)
    requires Graph(nodes) && i < |nodes|
    ensures Visit(nodes, i, _ => false) == [i]
  {
  }

  /** A three-argument walk whose checker refuses everything reports exactly
      the edges of the start node, in move order. */
  lemma {:induction false} EdgesRefused(nodes: seq<Node>, i: nat, m: nat, checker: (Node, Node, int) -> bool)
    requires Graph(nodes) && i < |nodes| && m <= 9
    requires forall x, y, k :: !checker(x, y, k)
    ensures |EdgesFrom(nodes, i, m, checker)| == |Present(nodes[i].children, m)|
    ensures forall k :: 0 <= k < |Present(nodes[i].children, m)| ==>
              EdgesFrom(nodes, i, m, checker)[k] ==
              Edge(i, nodes[i].children[Present(nodes[i].children, m)[k]].value, Present(nodes[i].children, m)[k])
    decreases 9 - m
  {
    if m < 9 {
      EdgesRefused(nodes, i, m + 1, checker);
      EdgesRefusedStep(nodes, i, m, checker);
      var ch := nodes[i].children;
      var (e, e') := (EdgesFrom(nodes, i, m, checker), EdgesFrom(nodes, i, m + 1, checker));
      var (p, p') := (Present(ch, m), Present(ch, m + 1));
      if ch[m].Some? {
        forall k | 0 <= k < |p|
          ensures e[k] == Edge(i, ch[p[k]].value, p[k])
        {
          if k > 0 {
            assert e[k] == e'[k - 1] && p[k] == p'[k - 1];
          }
        }
      } else {
        assert e == e' && p == p';
      }
    }
  }

  /** One move of a refusing walk: the edge of move m, if any, then the rest. */
  lemma EdgesRefusedStep(nodes: seq<Node>, i: nat, m: nat, checker: (Node, Node, int) -> bool)
    requires Graph(nodes) && i < |nodes| && m < 9
    requires forall x, y, k :: !checker(x, y, k)
    ensures var ch := nodes[i].children;
            EdgesFrom(nodes, i, m, checker) ==
              (if ch[m].Some? then [Edge(i, ch[m].value, m)] else []) + EdgesFrom(nodes, i, m + 1, checker)
    ensures var ch := nodes[i].children;
            Present(ch, m) == (if ch[m].Some? then [m] else []) + Present(ch, m + 1)
  {
    var rest := EdgesFrom(nodes, i, m + 1, checker);
    match nodes[i].children[m]
    case None =>
      assert [] + rest == rest;
      assert [] + Present(nodes[i].children, m + 1) == Present(nodes[i].children, m + 1);
    case Some(c) =>
      assert !checker(nodes[i], nodes[c], m);
      assert [Edge(i, c, m)] + [] + rest == [Edge(i, c, m)] + rest;
  }

  /** The moves m.. with a non-null child, ascending. */
  function Present(children: seq<Option<nat>>, m: nat): (r: seq<nat>)
    requires |children| == 9 && m <= 9
    ensures forall k :: 0 <= k < |r| ==> m <= r[k] < 9 && children[r[k]].Some?
    ensures forall j :: m <= j < 9 && children[j].Some? ==> j in r
    ensures forall a, b :: 0 <= a < b < |r| ==> r[a] < r[b]
    decreases 9 - m
  {
    if m == 9 then []
    else if children[m].Some? then [m] + Present(children, m + 1)
    else Present(children, m + 1)
  }
}
