/**
  Small array utilities of the simulation: the community id of every node
  from a list of block sizes, the parity fix applied to a degree sequence
  before a configuration model is drawn, and the choice of the nodes infected
  on day one.
 */
module Utils {
  import opened Seqs

  /** The number of nodes a block of the given size holds: a size below zero
      holds none (`range` of a negative number is empty). */
  function Clip(size: int): (r: nat)
    ensures size >= 0 ==> r == size
    ensures size < 0 ==> r == 0
  {
    if size < 0 then 0 else size
  }

  /** The node count of every block. */
  function BlockSizes(sizes: seq<int>): (r: seq<nat>)
    ensures |r| == |sizes|
    ensures forall i :: 0 <= i < |sizes| ==> r[i] == Clip(sizes[i])
  {
    seq(|sizes|, i requires 0 <= i < |sizes| => Clip(sizes[i]))
  }

  /** The first node of block `i`: the nodes of the blocks before it. */
  function Offset(sizes: seq<int>, i: nat): nat
    requires i <= |sizes|
  {
    SumNonNegative(BlockSizes(sizes)[..i]);
    Sum(BlockSizes(sizes)[..i])
  }

  /** `community_map_from_community_sizes`: block `i` of `sizes[i]` nodes gets
      community id `i`, blocks laid out one after the other. */
  method CommunityMap(sizes: seq<int>) returns (communities: seq<nat>)
    ensures |communities| == Offset(sizes, |sizes|)
    ensures forall p :: 0 <= p < |communities| ==>
              communities[p] < |sizes| && sizes[communities[p]] > 0
              && Offset(sizes, communities[p]) <= p < Offset(sizes, communities[p] + 1)
    ensures forall i :: 0 <= i < |sizes| ==> multiset(communities)[i] == Clip(sizes[i])
    ensures NonDecreasing(communities)
  {
    var blocks := BlockSizes(sizes);
    communities := [];
    var i := 0;
    while i < |sizes|
      invariant i <= |sizes|
      invariant communities == Expand(blocks, i)
    {
      communities := AppendRun(communities, i, blocks[i]);
      i := i + 1;
    }
    CommunityMapLayout(sizes);
  }

  /** What the stub list of the block sizes says about the community map. */
  lemma CommunityMapLayout(sizes: seq<int>)
    ensures |Expand(BlockSizes(sizes), |sizes|)| == Offset(sizes, |sizes|)
    ensures forall p :: 0 <= p < |Expand(BlockSizes(sizes), |sizes|)| ==>
              var c := Expand(BlockSizes(sizes), |sizes|)[p];
              c < |sizes| && sizes[c] > 0 && Offset(sizes, c) <= p < Offset(sizes, c + 1)
    ensures forall i :: 0 <= i < |sizes| ==> multiset(Expand(BlockSizes(sizes), |sizes|))[i] == Clip(sizes[i])
    ensures NonDecreasing(Expand(BlockSizes(sizes), |sizes|))
  {
    ExpandSorted(BlockSizes(sizes), |sizes|);
    forall i | 0 <= i < |sizes| {
      ExpandCount(BlockSizes(sizes), |sizes|, i);
    }
    forall p | 0 <= p < |Expand(BlockSizes(sizes), |sizes|)| {
      LayoutAt(sizes, p);
    }
  }

  /** Position `p` of the community map lies in the block of its id. */
  lemma LayoutAt(sizes: seq<int>, p: nat)
    requires p < |Expand(BlockSizes(sizes), |sizes|)|
    ensures var c := Expand(BlockSizes(sizes), |sizes|)[p];
            c < |sizes| && sizes[c] > 0 && Offset(sizes, c) <= p < Offset(sizes, c + 1)
  {
    ExpandLayout(BlockSizes(sizes), |sizes|, p);
    InBlock(sizes, Expand(BlockSizes(sizes), |sizes|)[p], p);
  }

  /** A position between the prefix sums of the node counts around block `c`
      lies in that block, which is therefore not empty. */
  lemma InBlock(sizes: seq<int>, c: nat, p: nat)
    requires c < |sizes| && Sum(BlockSizes(sizes)[..c]) <= p < Sum(BlockSizes(sizes)[..c + 1])
    ensures sizes[c] > 0
    ensures Offset(sizes, c) <= p < Offset(sizes, c + 1)
  {
    SumPrefix(BlockSizes(sizes), c);
  }

  /** `correct_deg_sum_to_be_even`: when the degrees add up to an odd number
      the first degree is raised by one; otherwise nothing changes. An empty
      sequence sums to 0 and is left alone. */
  function CorrectDegSumToBeEven(degrees: seq<int>): (r: seq<int>)
    ensures |r| == |degrees|
    ensures Sum(r) % 2 == 0
    ensures forall i :: 0 < i < |degrees| ==> r[i] == degrees[i]
    ensures r == degrees <==> Sum(degrees) % 2 == 0
    ensures r != degrees ==> r[0] == degrees[0] + 1 && Sum(r) == Sum(degrees) + 1
  {
    if Sum(degrees) % 2 != 0 then
      SumUpdate(degrees, 0, degrees[0] + 1);
      degrees[0 := degrees[0] + 1]
    else
      degrees
  }

  /** Applying the parity fix twice is the same as applying it once. */
  lemma CorrectionIdempotent(degrees: seq<int>)
    ensures CorrectDegSumToBeEven(CorrectDegSumToBeEven(degrees)) == CorrectDegSumToBeEven(degrees)
  {
  }

  /** `init_infected`: node `i` below the low-risk threshold is infected when
      its first draw succeeds, or else when its second draw does; a node at or
      above the threshold is infected when its second draw succeeds. The
      draws are the oracles `first` and `second`; `threshold` is
      `int(prop_lr_com_size * n)`. */
  method InitInfected(n: int, threshold: int, first: nat -> bool, second: nat -> bool)
    returns (infected: seq<nat>)
    ensures StrictlyIncreasing(infected)
    ensures forall k :: 0 <= k < |infected| ==> infected[k] < n
    ensures forall i: nat :: i < threshold ==> (i in infected <==> i < n && (first(i) || second(i)))
    ensures forall i: nat :: i >= threshold ==> (i in infected <==> i < n && second(i))
  {
    infected := [];
    var i: nat := 0;
    while i < n
      invariant i <= n || i == 0
      invariant i == 0 ==> infected == []
      invariant StrictlyIncreasing(infected)
      invariant forall k :: 0 <= k < |infected| ==> infected[k] < i
      invariant forall x: nat :: x in infected <==> x < i && ((x < threshold && first(x)) || second(x))
    {
      // the first draw is only taken below the threshold, the second only
      // when the first did not infect
      if (i < threshold && first(i)) || second(i) {
        AppendLarger(infected, i);
        infected := infected + [i];
      }
      i := i + 1;
    }
  }
}
