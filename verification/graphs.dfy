/**
  Simple undirected graphs over the nodes `0 .. n-1`, with each edge stored
  once as an ordered pair whose first endpoint is the smaller one. This is the
  shape of the contact graph the synthesizer produces: no self-loops and no
  parallel edges.
 */
module Graphs {
  import opened Seqs

  /** An undirected edge `{u, v}`, stored as `(u, v)` with `u < v`. */
  type Edge = (nat, nat)

  datatype Graph = Graph(n: nat, edges: set<Edge>)

  /** Every edge joins two distinct nodes of the graph, smaller endpoint first. */
  predicate Valid(g: Graph)
  {
    forall e :: e in g.edges ==> e.0 < e.1 < g.n
  }

  predicate Adjacent(g: Graph, u: nat, v: nat)
  {
    (u, v) in g.edges || (v, u) in g.edges
  }

  function Neighbours(g: Graph, v: nat): set<nat>
  {
    set w: nat | w < g.n && Adjacent(g, v, w)
  }

  /** The number of neighbours of `v` (networkx's `degree` on a simple graph). */
  function Degree(g: Graph, v: nat): nat
  {
    |Neighbours(g, v)|
  }

  /** The degree of every node, in ascending node order. */
  function Degrees(g: Graph): (d: seq<nat>)
    ensures |d| == g.n
    ensures forall v :: 0 <= v < g.n ==> d[v] == Degree(g, v)
  {
    seq(g.n, v requires 0 <= v < g.n => Degree(g, v))
  }

  /** The degrees of the nodes `vs`, in that order. */
  function DegreesAt(g: Graph, vs: seq<nat>): (r: seq<nat>)
    ensures |r| == |vs|
    decreases |vs|
  {
    if |vs| == 0 then [] else DegreesAt(g, vs[..|vs| - 1]) + [Degree(g, vs[|vs| - 1])]
  }

  /** Entry `j` is the degree of node `vs[j]`. */
  lemma {:induction false} DegreesAtIndex(g: Graph, vs: seq<nat>)
    ensures forall j :: 0 <= j < |vs| ==> DegreesAt(g, vs)[j] == Degree(g, vs[j])
    decreases |vs|
  {
    if |vs| > 0 {
      DegreesAtIndex(g, vs[..|vs| - 1]);
    }
  }

  /** Removing edge `e` takes one neighbour from each of its endpoints and
      leaves every other neighbourhood alone. */
  lemma RemoveEdgeNeighbours(g: Graph, e: Edge, v: nat)
    requires Valid(g) && e in g.edges
    ensures v == e.0 ==> Neighbours(g, v) == Neighbours(Graph(g.n, g.edges - {e}), v) + {e.1}
    ensures v == e.0 ==> e.1 !in Neighbours(Graph(g.n, g.edges - {e}), v)
    ensures v == e.1 ==> Neighbours(g, v) == Neighbours(Graph(g.n, g.edges - {e}), v) + {e.0}
    ensures v == e.1 ==> e.0 !in Neighbours(Graph(g.n, g.edges - {e}), v)
    ensures v != e.0 && v != e.1 ==> Neighbours(g, v) == Neighbours(Graph(g.n, g.edges - {e}), v)
  {
  }

  /** Handshake lemma: the degrees of a simple graph add up to twice its edge count. */
  lemma {:induction false} Handshake(g: Graph)
    requires Valid(g)
    ensures Sum(Degrees(g)) == 2 * |g.edges|
    decreases |g.edges|
  {
    if g.edges == {} {
      ZeroDegreesSum(g);
    } else {
      var e :| e in g.edges;
      var g' := Graph(g.n, g.edges - {e});
      Handshake(g');
      var d' := Degrees(g');
      var once := d'[e.0 := d'[e.0] + 1];
      DegreesAfterRemoval(g, e);
      SumUpdate(d', e.0, d'[e.0] + 1);
      SumUpdate(once, e.1, d'[e.1] + 1);
    }
  }

  /** The degree sequence before removing `e` is the one after, with both
      endpoints of `e` one higher. */
  lemma DegreesAfterRemoval(g: Graph, e: Edge)
    requires Valid(g) && e in g.edges
    ensures var d' := Degrees(Graph(g.n, g.edges - {e}));
            Degrees(g) == d'[e.0 := d'[e.0] + 1][e.1 := d'[e.1] + 1]
  {
    var g' := Graph(g.n, g.edges - {e});
    var d' := Degrees(g');
    var bumped := d'[e.0 := d'[e.0] + 1][e.1 := d'[e.1] + 1];
    forall v | 0 <= v < g.n
      ensures Degrees(g)[v] == bumped[v]
    {
      RemoveEdgeNeighbours(g, e, v);
    }
  }

  /** A graph without edges has only zero degrees. */
  lemma {:induction false} ZeroDegreesSum(g: Graph)
    requires g.edges == {}
    ensures Sum(Degrees(g)) == 0
  {
    var d := Degrees(g);
    forall v | 0 <= v < g.n
      ensures d[v] == 0
    {
      assert Neighbours(g, v) == {};
    }
    AllZeroSum(d);
  }

  lemma {:induction false} AllZeroSum(s: seq<int>)
    requires forall i :: 0 <= i < |s| ==> s[i] == 0
    ensures Sum(s) == 0
    decreases |s|
  {
    if |s| > 0 {
      AllZeroSum(s[..|s| - 1]);
    }
  }
}
