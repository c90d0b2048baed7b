/**
  Sequence helpers shared by the graph builders, the degree extractor and the
  day step: sums, sortedness, the sorted distinct values of an integer array
  (numpy's `unique`) and the ascending indices holding a given value (numpy's
  `where(a == c)[0]`).
 */
module Seqs {

  /** Sum of a sequence, peeling the last element (so that a left-to-right
      loop extends a prefix sum by one element per step). */
  function Sum(s: seq<int>): int
  {
    if |s| == 0 then 0 else Sum(s[..|s| - 1]) + s[|s| - 1]
  }

  /** Every element is at most the next one. */
  predicate NonDecreasing(s: seq<int>)
  {
    forall i, j :: 0 <= i <= j < |s| ==> s[i] <= s[j]
  }

  /** Every element is smaller than the next one (so there are no repeats). */
  predicate StrictlyIncreasing(s: seq<int>)
  {
    forall i, j :: 0 <= i < j < |s| ==> s[i] < s[j]
  }

  /** The sum of a prefix one element longer adds that element. */
  lemma SumPrefix(s: seq<int>, i: nat)
    requires i < |s|
    ensures Sum(s[..i + 1]) == Sum(s[..i]) + s[i]
  {
    assert s[..i + 1][..i] == s[..i];
  }

  /** Sum over a concatenation is the sum of the parts. */
  lemma {:induction false} SumAppend(a: seq<int>, b: seq<int>)
    ensures Sum(a + b) == Sum(a) + Sum(b)
    decreases |b|
  {
    if |b| == 0 {
      assert a + b == a;
    } else {
      var b' := b[..|b| - 1];
      assert (a + b)[..|a + b| - 1] == a + b';
      SumAppend(a, b');
    }
  }

  /** Replacing one element changes the sum by the difference. */
  lemma {:induction false} SumUpdate(s: seq<int>, i: nat, x: int)
    requires i < |s|
    ensures Sum(s[i := x]) == Sum(s) - s[i] + x
    decreases |s|
  {
    var t := s[i := x];
    var k := |s| - 1;
    if i == k {
      assert t[..k] == s[..k];
    } else {
      assert t[..k] == s[..k][i := x];
      SumUpdate(s[..k], i, x);
    }
  }

  /** Twice a number is even. */
  lemma DoubleEven(s: int, k: int)
    requires s == 2 * k
    ensures s % 2 == 0
  {
  }

  /** A sum of natural numbers is a natural number. */
  lemma {:induction false} SumNonNegative(s: seq<nat>)
    ensures Sum(s) >= 0
    decreases |s|
  {
    if |s| > 0 {
      SumNonNegative(s[..|s| - 1]);
    }
  }

  /** Appending a value above every element keeps a sequence strictly increasing. */
  lemma AppendLarger(s: seq<nat>, x: nat)
    requires StrictlyIncreasing(s)
    requires forall y :: y in s ==> y < x
    ensures StrictlyIncreasing(s + [x])
  {
    assert forall i :: 0 <= i < |s| ==> s[i] in s;
  }

  /** The values of `xs` below `k`, ascending and without repeats. */
  function UniqueBelow(xs: seq<nat>, k: nat): (r: seq<nat>)
    ensures StrictlyIncreasing(r)
    ensures forall x :: x in r <==> x < k && x in xs
    decreases k
  {
    if k == 0 then []
    else
      var r' := UniqueBelow(xs, k - 1);
      if k - 1 in xs then AppendLarger(r', k - 1); r' + [k - 1] else r'
  }

  /** One more than the largest value of `xs` (0 when empty). */
  function Bound(xs: seq<nat>): (b: nat)
    ensures forall x :: x in xs ==> x < b
    decreases |xs|
  {
    if |xs| == 0 then 0
    else
      var b' := Bound(xs[..|xs| - 1]);
      assert xs == xs[..|xs| - 1] + [xs[|xs| - 1]];
      if xs[|xs| - 1] < b' then b' else xs[|xs| - 1] + 1
  }

  /** The distinct values of `xs` in ascending order (numpy `unique`). */
  function Unique(xs: seq<nat>): (r: seq<nat>)
    ensures StrictlyIncreasing(r)
    ensures forall x :: x in r <==> x in xs
    ensures |r| == |Elements(xs)|
  {
    var r := UniqueBelow(xs, Bound(xs));
    DistinctCard(r);
    assert Elements(r) == Elements(xs);
    r
  }

  /** The set of values a sequence holds. */
  function Elements(s: seq<nat>): set<nat>
  {
    set x | x in s
  }

  /** A sequence without repeats has as many elements as its set. */
  lemma {:induction false} DistinctCard(s: seq<nat>)
    requires StrictlyIncreasing(s)
    ensures |Elements(s)| == |s|
    decreases |s|
  {
    if |s| == 0 {
      assert Elements(s) == {};
    } else {
      var k := |s| - 1;
      var front := s[..k];
      DistinctCard(front);
      LastIsNew(s);
      SetOfSnoc(s);
      assert Elements(s) == Elements(front) + {s[k]};
    }
  }

  /** The last element of a strictly increasing sequence is not in its front. */
  lemma LastIsNew(s: seq<nat>)
    requires StrictlyIncreasing(s) && |s| > 0
    ensures s[|s| - 1] !in Elements(s[..|s| - 1])
  {
    var k := |s| - 1;
    forall i | 0 <= i < k
      ensures s[..k][i] != s[k]
    {
      assert s[i] < s[k];
    }
  }

  /** The set of a sequence is the set of its front plus its last element. */
  lemma SetOfSnoc(s: seq<nat>)
    requires |s| > 0
    ensures Elements(s) == Elements(s[..|s| - 1]) + {s[|s| - 1]}
  {
    assert s == s[..|s| - 1] + [s[|s| - 1]];
  }

  /** The indices `v` with `comm[v] == c`, ascending (numpy `where(comm == c)[0]`). */
  function Members(comm: seq<nat>, c: nat): (r: seq<nat>)
    ensures StrictlyIncreasing(r)
    ensures forall v :: v in r <==> 0 <= v < |comm| && comm[v] == c
    ensures forall j :: 0 <= j < |r| ==> r[j] < |comm| && comm[r[j]] == c
    decreases |comm|
  {
    if |comm| == 0 then []
    else
      var k := |comm| - 1;
      var r' := Members(comm[..k], c);
      if comm[k] == c then AppendLarger(r', k); r' + [k] else r'
  }

  /** The entries of `d` at the indices `idx`, in that order (numpy fancy
      indexing `d[idx]`). */
  function Pick(d: seq<nat>, idx: seq<nat>): (r: seq<nat>)
    requires forall j :: 0 <= j < |idx| ==> idx[j] < |d|
    ensures |r| == |idx|
    ensures forall j :: 0 <= j < |idx| ==> r[j] == d[idx[j]]
  {
    seq(|idx|, j requires 0 <= j < |idx| => d[idx[j]])
  }

  /** Summing the entries of the members of community `c` is summing the
      sequence with every non-member masked to 0. */
  lemma {:induction false} PickMembers(d: seq<nat>, comm: seq<nat>, c: nat)
    requires |d| == |comm|
    ensures Sum(Pick(d, Members(comm, c))) == Sum(InCommunity(d, comm, c))
    decreases |comm|
  {
    if |comm| > 0 {
      var k := |comm| - 1;
      PickMembers(d[..k], comm[..k], c);
      PickMembersStep(d, comm, c);
    }
  }

  /** The last node joins the sum exactly when it is a member. */
  lemma PickMembersStep(d: seq<nat>, comm: seq<nat>, c: nat)
    requires |d| == |comm| > 0
    requires var k := |comm| - 1;
             Sum(Pick(d[..k], Members(comm[..k], c))) == Sum(InCommunity(d[..k], comm[..k], c))
    ensures Sum(Pick(d, Members(comm, c))) == Sum(InCommunity(d, comm, c))
  {
    PickMembersLast(d, comm, c);
    InCommunityLast(d, comm, c);
  }

  /** The picked entries of the members gain the last entry exactly when the
      last node is a member. */
  lemma PickMembersLast(d: seq<nat>, comm: seq<nat>, c: nat)
    requires |d| == |comm| > 0
    ensures var k := |comm| - 1;
            Sum(Pick(d, Members(comm, c)))
            == Sum(Pick(d[..k], Members(comm[..k], c))) + if comm[k] == c then d[k] else 0
  {
    var k := |comm| - 1;
    PickPrefix(d, Members(comm[..k], c), k);
    if comm[k] == c {
      PickSnoc(d, Members(comm[..k], c), k);
    }
  }

  /** The masked sum gains the last entry exactly when the last node is a member. */
  lemma InCommunityLast(d: seq<nat>, comm: seq<nat>, c: nat)
    requires |d| == |comm| > 0
    ensures var k := |comm| - 1;
            Sum(InCommunity(d, comm, c))
            == Sum(InCommunity(d[..k], comm[..k], c)) + if comm[k] == c then d[k] else 0
  {
    var k := |comm| - 1;
    InCommunityPrefix(d, comm, c, k);
  }

  /** Picking indices below `k` only looks at the first `k` entries. */
  lemma PickPrefix(d: seq<nat>, idx: seq<nat>, k: nat)
    requires k <= |d|
    requires forall j :: 0 <= j < |idx| ==> idx[j] < k
    ensures Pick(d, idx) == Pick(d[..k], idx)
  {
  }

  /** Picking one more index adds its entry to the sum. */
  lemma PickSnoc(d: seq<nat>, idx: seq<nat>, x: nat)
    requires forall j :: 0 <= j < |idx| ==> idx[j] < |d|
    requires x < |d|
    ensures Sum(Pick(d, idx + [x])) == Sum(Pick(d, idx)) + d[x]
  {
    var picked := Pick(d, idx + [x]);
    assert picked[..|idx|] == Pick(d, idx);
  }

  /** Masking commutes with taking a prefix. */
  lemma InCommunityPrefix(xs: seq<nat>, comm: seq<nat>, c: nat, k: nat)
    requires |xs| == |comm| && k <= |xs|
    ensures InCommunity(xs, comm, c)[..k] == InCommunity(xs[..k], comm[..k], c)
  {
  }

  /** `d` copies of `v`. */
  function Repeat(v: nat, d: nat): (r: seq<nat>)
    ensures |r| == d
    ensures forall i :: 0 <= i < d ==> r[i] == v
  {
    seq(d, _ => v)
  }

  lemma RepeatCount(v: nat, d: nat, x: nat)
    ensures multiset(Repeat(v, d))[x] == if x == v then d else 0
    decreases d
  {
    if d > 0 {
      assert Repeat(v, d) == Repeat(v, d - 1) + [v];
      RepeatCount(v, d - 1, x);
    } else {
      assert Repeat(v, d) == [];
    }
  }

  /** Appends `d` copies of `v`, one at a time. */
  method AppendRun(stubs: seq<nat>, v: nat, d: nat) returns (r: seq<nat>)
    ensures r == stubs + Repeat(v, d)
  {
    r := stubs;
    var h := 0;
    assert Repeat(v, 0) == [];
    while h < d
      invariant h <= d
      invariant r == stubs + Repeat(v, h)
    {
      r := r + [v];
      assert Repeat(v, h + 1) == Repeat(v, h) + [v];
      h := h + 1;
    }
  }

  /** Two runs of the same value make one run. */
  lemma RepeatJoin(v: nat, a: nat, b: nat)
    ensures Repeat(v, a) + Repeat(v, b) == Repeat(v, a + b)
  {
  }

  /** `xs[v]` for the nodes `v` of community `c`, 0 for the others. */
  function InCommunity(xs: seq<nat>, comm: seq<nat>, c: nat): (r: seq<nat>)
    requires |xs| == |comm|
    ensures |r| == |xs|
    ensures forall v :: 0 <= v < |xs| ==> r[v] == if comm[v] == c then xs[v] else 0
  {
    seq(|xs|, v requires 0 <= v < |xs| => if comm[v] == c then xs[v] else 0)
  }

  /** `xs[v]` for the nodes `v` outside community `c`, 0 for the others. */
  function OutsideCommunity(xs: seq<nat>, comm: seq<nat>, c: nat): (r: seq<nat>)
    requires |xs| == |comm|
    ensures |r| == |xs|
    ensures forall v :: 0 <= v < |xs| ==> r[v] == if comm[v] != c then xs[v] else 0
  {
    seq(|xs|, v requires 0 <= v < |xs| => if comm[v] != c then xs[v] else 0)
  }

  /** Sums add up pointwise. */
  lemma {:induction false} SumPointwise(a: seq<int>, b: seq<int>, s: seq<int>)
    requires |a| == |b| == |s|
    requires forall i :: 0 <= i < |s| ==> a[i] + b[i] == s[i]
    ensures Sum(a) + Sum(b) == Sum(s)
    decreases |s|
  {
    if |s| > 0 {
      var k := |s| - 1;
      SumPointwise(a[..k], b[..k], s[..k]);
    }
  }

  /** Every node is either inside community `c` or outside it. */
  lemma {:induction false} CommunitySplit(xs: seq<nat>, comm: seq<nat>, c: nat)
    requires |xs| == |comm|
    ensures Sum(InCommunity(xs, comm, c)) + Sum(OutsideCommunity(xs, comm, c)) == Sum(xs)
  {
    SumPointwise(InCommunity(xs, comm, c), OutsideCommunity(xs, comm, c), xs);
  }

  /** Node `x` repeated `counts[x]` times, for every node `x` below `v` in
      ascending order: the stub list of a degree sequence. */
  function Expand(counts: seq<nat>, v: nat): (r: seq<nat>)
    requires v <= |counts|
    ensures |r| == Sum(counts[..v])
    decreases v
  {
    if v == 0 then []
    else
      SumPrefix(counts, v - 1);
      Expand(counts, v - 1) + Repeat(v - 1, counts[v - 1])
  }

  /** The stub list of a whole degree sequence: one stub per unit of degree. */
  function StubList(counts: seq<nat>): (r: seq<nat>)
    ensures |r| == Sum(counts)
  {
    assert counts[..|counts|] == counts;
    Expand(counts, |counts|)
  }

  /** Position `p` of the stub list lies in the stubs of the nodes below
      `v - 1` or in the run of `v - 1`. */
  lemma ExpandAt(counts: seq<nat>, v: nat, p: nat)
    requires 0 < v <= |counts| && p < Sum(counts[..v])
    ensures Sum(counts[..v]) == Sum(counts[..v - 1]) + counts[v - 1]
    ensures Expand(counts, v)[p] == if p < Sum(counts[..v - 1]) then Expand(counts, v - 1)[p] else v - 1
  {
    SumPrefix(counts, v - 1);
  }

  /** The stub list holds node `x` exactly `counts[x]` times if `x < v`, and
      not at all otherwise. */
  lemma {:induction false} ExpandCount(counts: seq<nat>, v: nat, x: nat)
    requires v <= |counts|
    ensures multiset(Expand(counts, v))[x] == if x < v then counts[x] else 0
    decreases v
  {
    if v > 0 {
      ExpandCount(counts, v - 1, x);
      RepeatCount(v - 1, counts[v - 1], x);
    }
  }

  /** Only nodes below `v` that have stubs occur in the stub list. */
  lemma {:induction false} ExpandBoundAt(counts: seq<nat>, v: nat, p: nat)
    requires v <= |counts| && p < |Expand(counts, v)|
    ensures Expand(counts, v)[p] < v && counts[Expand(counts, v)[p]] > 0
    decreases v
  {
    ExpandAt(counts, v, p);
    if p < Sum(counts[..v - 1]) {
      ExpandBoundAt(counts, v - 1, p);
    }
  }

  /** Every position of the stub list, at once. */
  lemma ExpandBounds(counts: seq<nat>, v: nat)
    requires v <= |counts|
    ensures forall p :: 0 <= p < |Expand(counts, v)| ==>
              Expand(counts, v)[p] < v && counts[Expand(counts, v)[p]] > 0
  {
    forall p | 0 <= p < |Expand(counts, v)| {
      ExpandBoundAt(counts, v, p);
    }
  }

  /** The stub list is in ascending node order. */
  lemma {:induction false} ExpandSorted(counts: seq<nat>, v: nat)
    requires v <= |counts|
    ensures NonDecreasing(Expand(counts, v))
    decreases v
  {
    if v > 0 {
      ExpandSorted(counts, v - 1);
      ExpandBounds(counts, v - 1);
      var r := Expand(counts, v);
      forall p, q | 0 <= p <= q < |r|
        ensures r[p] <= r[q]
      {
        ExpandAt(counts, v, p);
        ExpandAt(counts, v, q);
      }
    }
  }

  /** The three facts above together. */
  lemma ExpandSpec(counts: seq<nat>, v: nat)
    requires v <= |counts|
    ensures var r := Expand(counts, v);
            && (forall x :: 0 <= x < |counts| ==> multiset(r)[x] == if x < v then counts[x] else 0)
            && (forall i :: 0 <= i < |r| ==> r[i] < v && counts[r[i]] > 0)
            && NonDecreasing(r)
  {
    forall x | 0 <= x < |counts|
      ensures multiset(Expand(counts, v))[x] == if x < v then counts[x] else 0
    {
      ExpandCount(counts, v, x);
    }
    ExpandBounds(counts, v);
    ExpandSorted(counts, v);
  }

  /** Prefix sums of natural numbers grow with the prefix. */
  lemma {:induction false} PrefixSumMono(s: seq<nat>, i: nat, j: nat)
    requires i <= j <= |s|
    ensures Sum(s[..i]) <= Sum(s[..j])
    decreases j - i
  {
    if i < j {
      SumPrefix(s, j - 1);
      PrefixSumMono(s, i, j - 1);
    }
  }

  /** Position `p` of the stub list holds `i` exactly when `p` lies in the
      block of `i`, between the prefix sums of the counts before and after it. */
  lemma {:induction false} ExpandPosition(counts: seq<nat>, v: nat, p: nat, i: nat)
    requires v <= |counts| && p < Sum(counts[..v]) && i < v
    ensures Expand(counts, v)[p] == i <==> Sum(counts[..i]) <= p < Sum(counts[..i + 1])
    decreases v
  {
    var u := v - 1;
    ExpandAt(counts, v, p);
    if p < Sum(counts[..u]) {
      if i < u {
        ExpandPosition(counts, u, p, i);
      } else {
        ExpandBounds(counts, u);
      }
    } else if i < u {
      PrefixSumMono(counts, i + 1, u);
    }
  }

  /** Position `p` of the stub list holds a node with stubs, and `p` lies
      in that node's block. */
  lemma ExpandLayout(counts: seq<nat>, v: nat, p: nat)
    requires v <= |counts| && p < |Expand(counts, v)|
    ensures Expand(counts, v)[p] < v && counts[Expand(counts, v)[p]] > 0
    ensures Sum(counts[..Expand(counts, v)[p]]) <= p < Sum(counts[..Expand(counts, v)[p] + 1])
  {
    ExpandBoundAt(counts, v, p);
    ExpandPosition(counts, v, p, Expand(counts, v)[p]);
  }
}
