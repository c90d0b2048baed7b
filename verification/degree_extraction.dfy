/**
  The realised degree sequences of a contact graph with community structure:
  for every community, the degrees of its members counted only along edges
  inside the community, and for every node, its degree counted only along
  edges to other communities. The extractor removes the inside edges from
  the graph and returns what is left, the graph of edges between communities.
 */
module DegreeExtraction {
  import opened Seqs
  import opened Graphs

  /** The community structure fits the graph: one id per node. */
  predicate Labelled(g: Graph, comm: seq<nat>)
  {
    Valid(g) && |comm| == g.n
  }

  /** The neighbours of `v` in its own community. */
  function SameNeighbours(g: Graph, comm: seq<nat>, v: nat): set<nat>
    requires Labelled(g, comm) && v < g.n
  {
    set w | w in Neighbours(g, v) && comm[w] == comm[v]
  }

  /** The neighbours of `v` in other communities. */
  function OtherNeighbours(g: Graph, comm: seq<nat>, v: nat): set<nat>
    requires Labelled(g, comm) && v < g.n
  {
    set w | w in Neighbours(g, v) && comm[w] != comm[v]
  }

  /** The subgraph induced by community `c`, kept on the same node range:
      `hcm_g.subgraph(vertex_ids_for_c)`, with the non-members isolated. */
  function Induced(g: Graph, comm: seq<nat>, c: nat): (h: Graph)
    requires Labelled(g, comm)
    ensures h.n == g.n
  {
    Graph(g.n, set e | e in g.edges && comm[e.0] == c && comm[e.1] == c)
  }

  /** The induced subgraph is a simple graph. */
  lemma InducedValid(g: Graph, comm: seq<nat>, c: nat)
    requires Labelled(g, comm)
    ensures Valid(Induced(g, comm, c))
  {
  }

  /** The graph without its edges inside communities. */
  function Between(g: Graph, comm: seq<nat>): (h: Graph)
    requires Labelled(g, comm)
    ensures Valid(h) && h.n == g.n && h.edges <= g.edges
    ensures forall e :: e in h.edges <==> e in g.edges && comm[e.0] != comm[e.1]
  {
    Graph(g.n, set e | e in g.edges && comm[e.0] != comm[e.1])
  }

  /** In the induced subgraph a member keeps exactly its neighbours of the
      same community, and a non-member has none. */
  lemma InducedNeighbours(g: Graph, comm: seq<nat>, c: nat, v: nat)
    requires Labelled(g, comm) && v < g.n
    ensures comm[v] == c ==> Neighbours(Induced(g, comm, c), v) == SameNeighbours(g, comm, v)
    ensures comm[v] != c ==> Neighbours(Induced(g, comm, c), v) == {}
  {
  }

  /** Without the inside edges a node keeps exactly its neighbours in other
      communities. */
  lemma BetweenNeighbours(g: Graph, comm: seq<nat>, v: nat)
    requires Labelled(g, comm) && v < g.n
    ensures Neighbours(Between(g, comm), v) == OtherNeighbours(g, comm, v)
  {
  }

  /** Every neighbour is in the same community or in another one. */
  lemma NeighbourSplit(g: Graph, comm: seq<nat>, v: nat)
    requires Labelled(g, comm) && v < g.n
    ensures |SameNeighbours(g, comm, v)| + |OtherNeighbours(g, comm, v)| == Degree(g, v)
  {
    assert Neighbours(g, v) == SameNeighbours(g, comm, v) + OtherNeighbours(g, comm, v);
  }

  /** The degree sequence of the induced subgraph of community `c`, its
      members in ascending node order (`[d for _, d in c_subgraph.degree()]`). */
  function WithinDegrees(g: Graph, comm: seq<nat>, c: nat): (r: seq<nat>)
    requires Labelled(g, comm)
    ensures |r| == |Members(comm, c)|
  {
    DegreesAt(Induced(g, comm, c), Members(comm, c))
  }

  /** Entry `j` of the within-degree sequence of community `c` is the number
      of neighbours its `j`-th member has inside the community. */
  lemma WithinDegreesCount(g: Graph, comm: seq<nat>, c: nat)
    requires Labelled(g, comm)
    ensures forall j :: 0 <= j < |Members(comm, c)| ==>
              WithinDegrees(g, comm, c)[j] == |SameNeighbours(g, comm, Members(comm, c)[j])|
  {
    var ms := Members(comm, c);
    DegreesAtIndex(Induced(g, comm, c), ms);
    forall j | 0 <= j < |ms|
      ensures WithinDegrees(g, comm, c)[j] == |SameNeighbours(g, comm, ms[j])|
    {
      InducedNeighbours(g, comm, c, ms[j]);
    }
  }

  /** The edges inside the communities listed in `ids`. */
  function InsideEdges(g: Graph, comm: seq<nat>, ids: seq<nat>): (es: set<Edge>)
    requires Labelled(g, comm)
    ensures forall e :: e in es <==> e in g.edges && comm[e.0] == comm[e.1] && comm[e.0] in ids
  {
    set e | e in g.edges && comm[e.0] == comm[e.1] && comm[e.0] in ids
  }

  /** Listing one more community adds the edges of its induced subgraph. */
  lemma InsideEdgesStep(g: Graph, comm: seq<nat>, ids: seq<nat>, i: nat)
    requires Labelled(g, comm) && i < |ids|
    ensures InsideEdges(g, comm, ids[..i + 1]) == InsideEdges(g, comm, ids[..i]) + Induced(g, comm, ids[i]).edges
  {
    assert ids[..i + 1] == ids[..i] + [ids[i]];
  }

  /** Once every community is listed, removing the inside edges leaves the
      edges between communities. */
  lemma InsideEdgesAll(g: Graph, comm: seq<nat>)
    requires Labelled(g, comm)
    ensures Graph(g.n, g.edges - InsideEdges(g, comm, Unique(comm))) == Between(g, comm)
  {
    var ids := Unique(comm);
    forall e | e in g.edges
      ensures comm[e.0] in ids
    {
      assert comm[e.0] in comm;
    }
  }

  /** The within-degree sequences of the communities listed in `ids`, in
      that order. */
  function WithinAll(g: Graph, comm: seq<nat>, ids: seq<nat>): (r: seq<seq<nat>>)
    requires Labelled(g, comm)
    ensures |r| == |ids|
    decreases |ids|
  {
    if |ids| == 0 then []
    else WithinAll(g, comm, ids[..|ids| - 1]) + [WithinDegrees(g, comm, ids[|ids| - 1])]
  }

  /** Entry `i` is the within-degree sequence of the `i`-th listed community. */
  lemma {:induction false} WithinAllIndex(g: Graph, comm: seq<nat>, ids: seq<nat>, i: nat)
    requires Labelled(g, comm) && i < |ids|
    ensures WithinAll(g, comm, ids)[i] == WithinDegrees(g, comm, ids[i])
    decreases |ids|
  {
    var k := |ids| - 1;
    assert WithinAll(g, comm, ids) == WithinAll(g, comm, ids[..k]) + [WithinDegrees(g, comm, ids[k])];
    if i < k {
      WithinAllIndex(g, comm, ids[..k], i);
      assert ids[..k][i] == ids[i];
    }
  }

  /** Listing one more community appends its within-degree sequence. */
  lemma WithinAllStep(g: Graph, comm: seq<nat>, ids: seq<nat>, i: nat)
    requires Labelled(g, comm) && i < |ids|
    ensures WithinAll(g, comm, ids[..i + 1]) == WithinAll(g, comm, ids[..i]) + [WithinDegrees(g, comm, ids[i])]
  {
    assert ids[..i + 1][..i] == ids[..i];
  }

  /** The loop over the communities of `get_hcm_degree_distributions`: their
      within-degree sequences and the edges inside them. */
  method CollectWithin(g: Graph, comm: seq<nat>) returns (within: seq<seq<nat>>, insideEdges: set<Edge>)
    requires Labelled(g, comm)
    ensures within == WithinAll(g, comm, Unique(comm))
    ensures insideEdges == InsideEdges(g, comm, Unique(comm))
  {
    var ids := Unique(comm);
    within := [];
    insideEdges := {};
    var i := 0;
    while i < |ids|
      invariant i <= |ids|
      invariant within == WithinAll(g, comm, ids[..i])
      invariant insideEdges == InsideEdges(g, comm, ids[..i])
    {
      var c := ids[i];
      var sub := Induced(g, comm, c);
      WithinAllStep(g, comm, ids, i);
      within := within + [WithinDegrees(g, comm, c)];
      InsideEdgesStep(g, comm, ids, i);
      insideEdges := insideEdges + sub.edges;
      i := i + 1;
    }
    assert ids[..i] == ids;
  }

  /** `ds` lists, for each member of community `c` in ascending node order,
      the number of its neighbours inside `c`. */
  ghost predicate CountsSameNeighbours(g: Graph, comm: seq<nat>, c: nat, ds: seq<nat>)
    requires Labelled(g, comm)
  {
    && |ds| == |Members(comm, c)|
    && forall j :: 0 <= j < |ds| ==> ds[j] == |SameNeighbours(g, comm, Members(comm, c)[j])|
  }

  /** `get_hcm_degree_distributions`: the between-community degree of every
      node, one within-community degree sequence per distinct community id in
      ascending id order, and the graph with the edges inside communities
      removed (same nodes). */
  method HcmDegreeDistributions(g: Graph, comm: seq<nat>)
    returns (between: seq<nat>, within: seq<seq<nat>>, remaining: Graph)
    requires Labelled(g, comm)
    ensures remaining.n == g.n
    ensures forall e :: e in remaining.edges <==> e in g.edges && comm[e.0] != comm[e.1]
    ensures |between| == g.n
    ensures forall v :: 0 <= v < g.n ==> between[v] == |OtherNeighbours(g, comm, v)|
    ensures |within| == |Unique(comm)|
    ensures forall i :: 0 <= i < |within| ==> within[i] == WithinDegrees(g, comm, Unique(comm)[i])
    ensures forall i :: 0 <= i < |within| ==> CountsSameNeighbours(g, comm, Unique(comm)[i], within[i])
  {
    var insideEdges;
    within, insideEdges := CollectWithin(g, comm);
    forall i | 0 <= i < |within|
      ensures within[i] == WithinDegrees(g, comm, Unique(comm)[i])
    {
      WithinAllIndex(g, comm, Unique(comm), i);
    }
    forall i | 0 <= i < |within| {
      WithinDegreesCount(g, comm, Unique(comm)[i]);
    }
    remaining := Graph(g.n, g.edges - insideEdges);
    InsideEdgesAll(g, comm);
    between := Degrees(remaining);
    forall v | 0 <= v < g.n
      ensures between[v] == |OtherNeighbours(g, comm, v)|
    {
      BetweenNeighbours(g, comm, v);
    }
  }

  /** Splitting the degree: a node's entry in its community's within-degree
      sequence plus its between-community degree is its degree in the whole
      graph. */
  lemma DegreeSplit(g: Graph, comm: seq<nat>, v: nat, j: nat)
    requires Labelled(g, comm) && v < g.n
    requires j < |Members(comm, comm[v])| && Members(comm, comm[v])[j] == v
    ensures WithinDegrees(g, comm, comm[v])[j] + Degrees(Between(g, comm))[v] == Degree(g, v)
  {
    WithinDegreesCount(g, comm, comm[v]);
    BetweenNeighbours(g, comm, v);
    NeighbourSplit(g, comm, v);
  }

  /** Handshake inside a community: its within-degree sequence adds up to
      twice the number of edges inside it, so to an even number. */
  lemma WithinEven(g: Graph, comm: seq<nat>, c: nat)
    requires Labelled(g, comm)
    ensures Sum(WithinDegrees(g, comm, c)) == 2 * |Induced(g, comm, c).edges|
    ensures Sum(WithinDegrees(g, comm, c)) % 2 == 0
  {
    WithinSum(g, comm, c);
    InducedValid(g, comm, c);
    Handshake(Induced(g, comm, c));
    DoubleEven(Sum(WithinDegrees(g, comm, c)), |Induced(g, comm, c).edges|);
  }

  /** The within-degrees of community `c` add up to the degree sum of its
      induced subgraph, whose other nodes have degree 0. */
  lemma WithinSum(g: Graph, comm: seq<nat>, c: nat)
    requires Labelled(g, comm)
    ensures Sum(WithinDegrees(g, comm, c)) == Sum(Degrees(Induced(g, comm, c)))
  {
    WithinIsPick(g, comm, c);
    PickMembers(Degrees(Induced(g, comm, c)), comm, c);
    InducedMasked(g, comm, c);
  }

  /** The within-degree sequence picks the members' entries of the induced
      subgraph's degree sequence. */
  lemma WithinIsPick(g: Graph, comm: seq<nat>, c: nat)
    requires Labelled(g, comm)
    ensures WithinDegrees(g, comm, c) == Pick(Degrees(Induced(g, comm, c)), Members(comm, c))
  {
    DegreesAtIndex(Induced(g, comm, c), Members(comm, c));
  }

  /** Non-members have degree 0 in the induced subgraph. */
  lemma InducedMasked(g: Graph, comm: seq<nat>, c: nat)
    requires Labelled(g, comm)
    ensures InCommunity(Degrees(Induced(g, comm, c)), comm, c) == Degrees(Induced(g, comm, c))
  {
    var d := Degrees(Induced(g, comm, c));
    forall v | 0 <= v < g.n
      ensures InCommunity(d, comm, c)[v] == d[v]
    {
      InducedNeighbours(g, comm, c, v);
    }
  }

  /** Handshake between communities: the between-degree sequence adds up to
      twice the number of edges between communities, so to an even number. */
  lemma BetweenEven(g: Graph, comm: seq<nat>)
    requires Labelled(g, comm)
    ensures Sum(Degrees(Between(g, comm))) == 2 * |Between(g, comm).edges|
    ensures Sum(Degrees(Between(g, comm))) % 2 == 0
  {
    Handshake(Between(g, comm));
    DoubleEven(Sum(Degrees(Between(g, comm))), |Between(g, comm).edges|);
  }
}
