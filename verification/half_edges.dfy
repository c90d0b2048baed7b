/**
  Half-edge (stub) lists for the hierarchical configuration model and the
  feasibility pre-check on inter-community degrees. A stub is a node id; a node
  with degree d contributes d stubs.
 */
module HalfEdges {
  import opened Seqs

  /** One stub list per community id. */
  type Buckets = seq<seq<nat>>

  /** The filled buckets, or the IndexError raised by
      `half_edges[int(communities[v])]` at the first stub of node `node`, whose
      community id indexes past the last bucket. */
  datatype BucketResult = Filled(value: Buckets) | IndexError(node: nat)

  /** The outcome of the feasibility check: it returns, or its assertion fails. */
  datatype Verdict = Pass | AssertionFailed

  /** The lengths of the buckets. */
  function Lengths(buckets: seq<seq<nat>>): (r: seq<nat>)
    ensures |r| == |buckets|
    ensures forall c :: 0 <= c < |buckets| ==> r[c] == |buckets[c]|
  {
    seq(|buckets|, c requires 0 <= c < |buckets| => |buckets[c]|)
  }

  /** Node `v`'s stubs can be put in its community's bucket: it has none, or
      its community id is below the number of distinct ids. */
  predicate BucketInRange(degOut: seq<nat>, comm: seq<nat>, v: nat)
    requires |degOut| == |comm| && v < |comm|
  {
    degOut[v] == 0 || comm[v] < |Unique(comm)|
  }

  /** `create_half_edges_between_communities`: one bucket per distinct
      community id, indexed by id; bucket `c` holds `degOut[v]` copies of every
      node `v` of community `c`, in node order, and nothing else. Fails at the
      first node with stubs whose id is not a bucket index. */
  method BucketStubs(degOut: seq<nat>, comm: seq<nat>) returns (r: BucketResult)
    requires |degOut| == |comm|
    ensures r.Filled? <==> forall v :: 0 <= v < |comm| ==> BucketInRange(degOut, comm, v)
    ensures r.IndexError? ==> r.node < |comm| && !BucketInRange(degOut, comm, r.node)
    ensures r.IndexError? ==> forall v :: 0 <= v < r.node ==> BucketInRange(degOut, comm, v)
    ensures r.Filled? ==> |r.value| == |Unique(comm)|
    ensures r.Filled? ==> forall c, v: nat :: 0 <= c < |r.value| ==>
              multiset(r.value[c])[v] == if v < |comm| && comm[v] == c then degOut[v] else 0
    ensures r.Filled? ==> forall c :: 0 <= c < |r.value| ==> NonDecreasing(r.value[c])
    ensures r.Filled? ==> forall c :: 0 <= c < |r.value| ==>
              |r.value[c]| == Sum(InCommunity(degOut, comm, c))
    ensures r.Filled? ==> Sum(Lengths(r.value)) == Sum(degOut)
  {
    r := FillBuckets(degOut, comm);
    if r.Filled? {
      BucketsDone(r.value, degOut, comm);
    }
  }

  /** The loop of `BucketStubs`: bucket `c` ends up as the stub list of the
      out-degrees restricted to community `c`. */
  method FillBuckets(degOut: seq<nat>, comm: seq<nat>) returns (r: BucketResult)
    requires |degOut| == |comm|
    ensures r.Filled? <==> forall v :: 0 <= v < |comm| ==> BucketInRange(degOut, comm, v)
    ensures r.IndexError? ==> r.node < |comm| && !BucketInRange(degOut, comm, r.node)
    ensures r.IndexError? ==> forall v :: 0 <= v < r.node ==> BucketInRange(degOut, comm, v)
    ensures r.Filled? ==> |r.value| == |Unique(comm)|
    ensures r.Filled? ==> forall c :: 0 <= c < |r.value| ==>
              r.value[c] == StubList(InCommunity(degOut, comm, c))
    ensures r.Filled? ==> Sum(Lengths(r.value)) == Sum(degOut)
  {
    var n := |degOut|;
    var k := |Unique(comm)|;
    var buckets: seq<seq<nat>> := seq(k, _ => []);
    var v := 0;
    while v < n
      invariant v <= n
      invariant forall u :: 0 <= u < v ==> BucketInRange(degOut, comm, u)
      invariant buckets == BucketsAfter(degOut, comm, v)
    {
      if degOut[v] > 0 {
        if comm[v] >= k {
          assert !BucketInRange(degOut, comm, v);
          return IndexError(v);
        }
        buckets := AppendStubs(buckets, comm[v], v, degOut[v]);
      }
      v := v + 1;
    }
    BucketsAfterSound(degOut, comm, n);
    assert degOut[..n] == degOut;
    forall c | 0 <= c < k
      ensures buckets[c] == StubList(InCommunity(degOut, comm, c))
    {
      assert |InCommunity(degOut, comm, c)| == n;
    }
    return Filled(buckets);
  }

  /** The buckets once the nodes below `v` are placed, none of which indexed
      past the last bucket. */
  ghost function BucketsAfter(degOut: seq<nat>, comm: seq<nat>, v: nat): (bs: seq<seq<nat>>)
    requires |degOut| == |comm| && v <= |comm|
    requires forall u :: 0 <= u < v ==> BucketInRange(degOut, comm, u)
    ensures |bs| == |Unique(comm)|
  {
    if v == 0 then seq(|Unique(comm)|, _ => [])
    else
      assert BucketInRange(degOut, comm, v - 1);
      var bs := BucketsAfter(degOut, comm, v - 1);
      if degOut[v - 1] == 0 then bs
      else bs[comm[v - 1] := bs[comm[v - 1]] + Repeat(v - 1, degOut[v - 1])]
  }

  /** Bucket `c` after the nodes below `v` is the stub list of those nodes'
      out-degrees restricted to community `c`, and the buckets together hold
      one stub per unit of their out-degree. */
  lemma {:induction false} BucketsAfterSound(degOut: seq<nat>, comm: seq<nat>, v: nat)
    requires |degOut| == |comm| && v <= |comm|
    requires forall u :: 0 <= u < v ==> BucketInRange(degOut, comm, u)
    ensures forall c :: 0 <= c < |Unique(comm)| ==>
              BucketsAfter(degOut, comm, v)[c] == Expand(InCommunity(degOut, comm, c), v)
    ensures Sum(Lengths(BucketsAfter(degOut, comm, v))) == Sum(degOut[..v])
    decreases v
  {
    var k := |Unique(comm)|;
    if v == 0 {
      assert Lengths(BucketsAfter(degOut, comm, v)) == seq(k, _ => 0);
      ZeroSum(k);
    } else {
      BucketsAfterSound(degOut, comm, v - 1);
      assert BucketInRange(degOut, comm, v - 1);
      BucketStep(BucketsAfter(degOut, comm, v - 1), BucketsAfter(degOut, comm, v), degOut, comm, v - 1);
    }
  }

  /** Once every node is processed, each bucket holds exactly its community's
      stubs, in node order. */
  lemma BucketsDone(buckets: seq<seq<nat>>, degOut: seq<nat>, comm: seq<nat>)
    requires |degOut| == |comm|
    requires forall c :: 0 <= c < |buckets| ==> buckets[c] == StubList(InCommunity(degOut, comm, c))
    ensures forall c, v: nat :: 0 <= c < |buckets| ==>
              multiset(buckets[c])[v] == if v < |comm| && comm[v] == c then degOut[v] else 0
    ensures forall c :: 0 <= c < |buckets| ==> NonDecreasing(buckets[c])
    ensures forall c :: 0 <= c < |buckets| ==> |buckets[c]| == Sum(InCommunity(degOut, comm, c))
  {
    forall c | 0 <= c < |buckets| {
      BucketFacts(degOut, comm, c);
    }
  }

  /** The stub list of community `c` holds exactly the stubs of its members,
      in ascending node order. */
  lemma BucketFacts(degOut: seq<nat>, comm: seq<nat>, c: nat)
    requires |degOut| == |comm|
    ensures forall v: nat :: multiset(StubList(InCommunity(degOut, comm, c)))[v]
                        == if v < |comm| && comm[v] == c then degOut[v] else 0
    ensures NonDecreasing(StubList(InCommunity(degOut, comm, c)))
  {
    forall v: nat {
      ExpandCount(InCommunity(degOut, comm, c), |comm|, v);
    }
    ExpandSorted(InCommunity(degOut, comm, c), |comm|);
  }

  /** A bucket that holds the stubs of community `c` and nothing else holds
      only members of `c`. */
  lemma BucketMembers(bucket: seq<nat>, degOut: seq<nat>, comm: seq<nat>, c: nat)
    requires |degOut| == |comm|
    requires forall v: nat :: multiset(bucket)[v] == if v < |comm| && comm[v] == c then degOut[v] else 0
    ensures forall i :: 0 <= i < |bucket| ==> bucket[i] < |comm| && comm[bucket[i]] == c
  {
    forall i | 0 <= i < |bucket|
      ensures bucket[i] < |comm| && comm[bucket[i]] == c
    {
      assert bucket[i] in multiset(bucket);
    }
  }

  /** Appends `d` stubs of node `v` to bucket `c`. */
  method AppendStubs(buckets: seq<seq<nat>>, c: nat, v: nat, d: nat) returns (r: seq<seq<nat>>)
    requires c < |buckets|
    ensures r == buckets[c := buckets[c] + Repeat(v, d)]
  {
    var b := AppendRun(buckets[c], v, d);
    r := buckets[c := b];
  }

  /** Node `v`'s stubs extend its own community's bucket by its stub run and
      leave every other bucket alone. */
  lemma BucketStep(before: seq<seq<nat>>, after: seq<seq<nat>>, degOut: seq<nat>, comm: seq<nat>, v: nat)
    requires |degOut| == |comm| && v < |comm|
    requires degOut[v] > 0 ==> comm[v] < |before| && after == before[comm[v] := before[comm[v]] + Repeat(v, degOut[v])]
    requires degOut[v] == 0 ==> after == before
    requires forall c :: 0 <= c < |before| ==> before[c] == Expand(InCommunity(degOut, comm, c), v)
    requires Sum(Lengths(before)) == Sum(degOut[..v])
    ensures |after| == |before|
    ensures forall c :: 0 <= c < |after| ==> after[c] == Expand(InCommunity(degOut, comm, c), v + 1)
    ensures Sum(Lengths(after)) == Sum(degOut[..v + 1])
  {
    StubTotal(before, after, degOut, v, comm[v]);
    forall c | 0 <= c < |after|
      ensures after[c] == Expand(InCommunity(degOut, comm, c), v + 1)
    {
      if degOut[v] == 0 || c != comm[v] {
        assert Repeat(v, 0) == [];
        assert before[c] + Repeat(v, 0) == before[c];
      }
    }
  }

  /** The stubs of node `v` add `degOut[v]` to the total over all buckets. */
  lemma StubTotal(before: seq<seq<nat>>, after: seq<seq<nat>>, degOut: seq<nat>, v: nat, c: nat)
    requires v < |degOut|
    requires degOut[v] > 0 ==> c < |before| && after == before[c := before[c] + Repeat(v, degOut[v])]
    requires degOut[v] == 0 ==> after == before
    requires Sum(Lengths(before)) == Sum(degOut[..v])
    ensures Sum(Lengths(after)) == Sum(degOut[..v + 1])
  {
    SumPrefix(degOut, v);
    if degOut[v] > 0 {
      assert Lengths(after) == Lengths(before)[c := |before[c]| + degOut[v]];
      SumUpdate(Lengths(before), c, |before[c]| + degOut[v]);
    }
  }

  lemma {:induction false} ZeroSum(k: nat)
    ensures Sum(seq(k, _ => 0)) == 0
    decreases k
  {
    if k > 0 {
      assert seq(k, _ => 0)[..k - 1] == seq(k - 1, _ => 0);
      ZeroSum(k - 1);
    }
  }

  /** Community `c` has no more outward stubs than all other communities together. */
  predicate Balanced(degOut: seq<nat>, comm: seq<nat>, c: nat)
    requires |degOut| == |comm|
  {
    Sum(InCommunity(degOut, comm, c)) <= Sum(OutsideCommunity(degOut, comm, c))
  }

  /** `is_community_structure_possible`: passes exactly when every community
      that occurs is balanced; otherwise its assertion fails. */
  method CheckCommunityStructure(degOut: seq<nat>, comm: seq<nat>) returns (verdict: Verdict)
    requires |degOut| == |comm|
    ensures verdict == Pass <==> forall c :: c in comm ==> Balanced(degOut, comm, c)
  {
    var ids := Unique(comm);
    var i := 0;
    while i < |ids|
      invariant i <= |ids|
      invariant forall j :: 0 <= j < i ==> Balanced(degOut, comm, ids[j])
    {
      var c := ids[i];
      var inside, outside := CommunityTotals(degOut, comm, c);
      if inside > outside {
        assert c in comm && !Balanced(degOut, comm, c);
        return AssertionFailed;
      }
      i := i + 1;
    }
    forall c | c in comm
      ensures Balanced(degOut, comm, c)
    {
      assert c in ids;
      var j :| 0 <= j < |ids| && ids[j] == c;
    }
    return Pass;
  }

  /** The out-degree totals inside and outside community `c`, the two sums
      the feasibility check compares. */
  method CommunityTotals(degOut: seq<nat>, comm: seq<nat>, c: nat) returns (inside: int, outside: int)
    requires |degOut| == |comm|
    ensures inside == Sum(InCommunity(degOut, comm, c))
    ensures outside == Sum(OutsideCommunity(degOut, comm, c))
    ensures inside + outside == Sum(degOut)
  {
    var ins := InCommunity(degOut, comm, c);
    var outs := OutsideCommunity(degOut, comm, c);
    inside, outside := 0, 0;
    var v := 0;
    while v < |comm|
      invariant v <= |comm|
      invariant inside == Sum(ins[..v])
      invariant outside == Sum(outs[..v])
    {
      SumPrefix(ins, v);
      SumPrefix(outs, v);
      if comm[v] == c {
        inside := inside + degOut[v];
      } else {
        outside := outside + degOut[v];
      }
      v := v + 1;
    }
    assert ins[..v] == ins && outs[..v] == outs;
    CommunitySplit(degOut, comm, c);
  }

  /** The check's condition is that no community holds more than half of all
      outward stubs. */
  lemma {:induction false} BalancedIsHalf(degOut: seq<nat>, comm: seq<nat>, c: nat)
    requires |degOut| == |comm|
    ensures Balanced(degOut, comm, c) <==> 2 * Sum(InCommunity(degOut, comm, c)) <= Sum(degOut)
  {
    CommunitySplit(degOut, comm, c);
  }

  /** The number of stubs of each node in the general-population part of the
      combined list: in- plus out-degree for community 0, nothing for others. */
  function GeneralPopCounts(degIn: seq<nat>, degOut: seq<nat>, comm: seq<nat>): (r: seq<nat>)
    requires |degIn| == |degOut| == |comm|
    ensures |r| == |comm|
    ensures forall v :: 0 <= v < |comm| ==> r[v] == if comm[v] == 0 then degIn[v] + degOut[v] else 0
  {
    seq(|comm|, v requires 0 <= v < |comm| => if comm[v] == 0 then degIn[v] + degOut[v] else 0)
  }

  /** `get_half_edges`: the stubs of the general population (community 0,
      in- and out-degree) in node order, followed by the out-degree stubs of
      every other node in node order. */
  method CombinedStubs(degIn: seq<nat>, degOut: seq<nat>, comm: seq<nat>) returns (stubs: seq<nat>)
    requires |degIn| == |degOut| == |comm|
    ensures |stubs| == Sum(InCommunity(degIn, comm, 0)) + Sum(InCommunity(degOut, comm, 0))
                       + Sum(OutsideCommunity(degOut, comm, 0))
    ensures forall v :: 0 <= v < |comm| ==>
              multiset(stubs)[v] == if comm[v] == 0 then degIn[v] + degOut[v] else degOut[v]
    ensures var p := Sum(InCommunity(degIn, comm, 0)) + Sum(InCommunity(degOut, comm, 0));
            && 0 <= p <= |stubs|
            && (forall i :: 0 <= i < p ==> stubs[i] < |comm| && comm[stubs[i]] == 0)
            && (forall i :: p <= i < |stubs| ==> stubs[i] < |comm| && comm[stubs[i]] != 0)
            && NonDecreasing(stubs[..p])
            && NonDecreasing(stubs[p..])
  {
    var n := |comm|;
    var front := GeneralStubs(degIn, degOut, comm);
    stubs := OtherStubs(front, degOut, comm);
    CombinedLength(degIn, degOut, comm);
    forall x | 0 <= x < n
      ensures multiset(stubs)[x] == if comm[x] == 0 then degIn[x] + degOut[x] else degOut[x]
    {
      CombinedCounts(degIn, degOut, comm, x);
    }
    CombinedOrder(degIn, degOut, comm);
  }

  /** The first loop: every node of the general population contributes its
      in-stubs, then its out-stubs. */
  method GeneralStubs(degIn: seq<nat>, degOut: seq<nat>, comm: seq<nat>) returns (stubs: seq<nat>)
    requires |degIn| == |degOut| == |comm|
    ensures stubs == StubList(GeneralPopCounts(degIn, degOut, comm))
  {
    var general := GeneralPopCounts(degIn, degOut, comm);
    stubs := [];
    var v := 0;
    while v < |comm|
      invariant v <= |comm|
      invariant stubs == Expand(general, v)
    {
      if comm[v] == 0 {
        stubs := AppendRun(stubs, v, degIn[v]);
        stubs := AppendRun(stubs, v, degOut[v]);
        RepeatJoin(v, degIn[v], degOut[v]);
      } else {
        assert Repeat(v, 0) == [];
      }
      v := v + 1;
    }
  }

  /** The second loop: every node outside the general population appends
      its out-stubs after `front`. */
  method OtherStubs(front: seq<nat>, degOut: seq<nat>, comm: seq<nat>) returns (stubs: seq<nat>)
    requires |degOut| == |comm|
    ensures stubs == front + StubList(OutsideCommunity(degOut, comm, 0))
  {
    var others := OutsideCommunity(degOut, comm, 0);
    stubs := front;
    var v := 0;
    while v < |comm|
      invariant v <= |comm|
      invariant stubs == front + Expand(others, v)
    {
      if comm[v] != 0 {
        stubs := AppendRun(stubs, v, degOut[v]);
      } else {
        assert Repeat(v, 0) == [];
      }
      v := v + 1;
    }
  }

  /** The combined list has one stub per unit of in-degree in the general
      population and one per unit of out-degree everywhere. */
  lemma CombinedLength(degIn: seq<nat>, degOut: seq<nat>, comm: seq<nat>)
    requires |degIn| == |degOut| == |comm|
    ensures |Expand(GeneralPopCounts(degIn, degOut, comm), |comm|)|
            == Sum(InCommunity(degIn, comm, 0)) + Sum(InCommunity(degOut, comm, 0))
    ensures |Expand(OutsideCommunity(degOut, comm, 0), |comm|)| == Sum(OutsideCommunity(degOut, comm, 0))
  {
    var n := |comm|;
    var general := GeneralPopCounts(degIn, degOut, comm);
    var others := OutsideCommunity(degOut, comm, 0);
    assert general[..n] == general && others[..n] == others;
    SumPointwise(InCommunity(degIn, comm, 0), InCommunity(degOut, comm, 0), general);
  }

  /** Every node occurs in the combined list as often as it has stubs there. */
  lemma {:induction false} CombinedCounts(degIn: seq<nat>, degOut: seq<nat>, comm: seq<nat>, v: nat)
    requires |degIn| == |degOut| == |comm| && v < |comm|
    ensures var stubs := Expand(GeneralPopCounts(degIn, degOut, comm), |comm|)
                         + Expand(OutsideCommunity(degOut, comm, 0), |comm|);
            multiset(stubs)[v] == if comm[v] == 0 then degIn[v] + degOut[v] else degOut[v]
  {
    var n := |comm|;
    var front := Expand(GeneralPopCounts(degIn, degOut, comm), n);
    var back := Expand(OutsideCommunity(degOut, comm, 0), n);
    ExpandSpec(GeneralPopCounts(degIn, degOut, comm), n);
    ExpandSpec(OutsideCommunity(degOut, comm, 0), n);
    assert multiset(front + back) == multiset(front) + multiset(back);
  }

  /** The general-population stubs come first, then the others, each part in
      node order. */
  lemma CombinedOrder(degIn: seq<nat>, degOut: seq<nat>, comm: seq<nat>)
    requires |degIn| == |degOut| == |comm|
    ensures var front := Expand(GeneralPopCounts(degIn, degOut, comm), |comm|);
            var back := Expand(OutsideCommunity(degOut, comm, 0), |comm|);
            var stubs := front + back;
            && (forall i :: 0 <= i < |front| ==> stubs[i] < |comm| && comm[stubs[i]] == 0)
            && (forall i :: |front| <= i < |stubs| ==> stubs[i] < |comm| && comm[stubs[i]] != 0)
            && NonDecreasing(stubs[..|front|])
            && NonDecreasing(stubs[|front|..])
  {
    var n := |comm|;
    var front := Expand(GeneralPopCounts(degIn, degOut, comm), n);
    var back := Expand(OutsideCommunity(degOut, comm, 0), n);
    ExpandSpec(GeneralPopCounts(degIn, degOut, comm), n);
    ExpandSpec(OutsideCommunity(degOut, comm, 0), n);
    var stubs := front + back;
    assert stubs[..|front|] == front && stubs[|front|..] == back;
    forall i | 0 <= i < |stubs|
      ensures stubs[i] < n
      ensures i < |front| ==> comm[stubs[i]] == 0
      ensures i >= |front| ==> comm[stubs[i]] != 0
    {
      if i < |front| {
        assert stubs[i] == front[i];
      } else {
        assert stubs[i] == back[i - |front|];
      }
    }
  }
}
