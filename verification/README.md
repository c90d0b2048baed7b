# RandomGraphVaccination core, modelled in Dafny

This project models four pieces of a Python simulator. The simulator spreads an
epidemic over a random contact graph that has community structure. The four
pieces are:

- **The epidemic day step** (`time_step_simulation`), in module `DayStep`.
  - Every node carries a health value: -2 dead, -1 recovered, 0 susceptible, k >= 1 infected for k days.
  - It also carries an outcome day and a risk group.
  - During one day, each node infected at the start of the day may infect each susceptible neighbour. It then advances one day, dies (outcome day 18), or recovers.
  - All new health values are collected in a map and written back in one batch.
  - The day's deaths, recoveries and infections are counted per risk group, in (high risk, low risk) order.
  - The Bernoulli draw with the neighbour's infectivity is an oracle `coin(src, dst)`.
- **The half-edge (stub) builders and the feasibility check** of the hierarchical configuration model, in module `HalfEdges`.
  - `create_half_edges_between_communities` builds one stub bucket per community.
  - `get_half_edges` builds the combined stub list: general-population in- and out-stubs first, then the out-stubs of every other node.
  - `is_community_structure_possible` asserts that no community has more outward stubs than all the others together.
- **Three array utilities**, in module `Utils`.
  - `community_map_from_community_sizes`: the community id of every node, from a list of block sizes.
  - `correct_deg_sum_to_be_even`: the parity fix of a degree sequence.
  - `init_infected`: the choice of the nodes infected on day one. Its two Bernoulli draws are the oracles `first` and `second`. `int(prop_lr_com_size * n)` is an integer `threshold`.
- **The realised degree extraction** (`get_hcm_degree_distributions`), in module `DegreeExtraction`.
  - The within-community degree sequence of each community, in ascending id order.
  - The between-community degree of each node.
  - The graph left once the edges inside communities are removed.

Shared definitions live in two further modules:

- `Seqs` holds sums, sortedness, and numpy's `unique` (`Unique`) and `where(a == c)[0]` (`Members`). It also holds the stub list of a count sequence (`Expand`: node `v` repeated `counts[v]` times, nodes in ascending order).
- `Graphs` holds simple undirected graphs over `0 .. n-1`, edges stored once with the smaller endpoint first. It also holds degrees and the handshake lemma.

The contact graph is a value. Operations that change it in place (`set_node_attributes`, `remove_edges_from`) return the changed data instead. networkx iterates nodes in an order the library defines. The model visits nodes and lists degrees in ascending node id.

Two details of the code shape the model:

- `time_step_simulation` tests `health < outcome` (src/individual_simulation.py:44) and resolves the node in every other case, so a node past its outcome day also dies or recovers.
- The assertion message of `is_community_structure_possible` (src/random_graphs/hcm_utils.py:23-25) names no community, so the model's failure (`AssertionFailed`) carries none.

## Model

| member | source | states |
|---|---|---|
| DayStep.TimeStep | src/individual_simulation.py:22-60 | Only health changes. Dead and recovered nodes keep their records. A susceptible node ends at 1 exactly when some node infected at the start of the day is its neighbour and that node's draw on it succeeds; otherwise it stays 0. An infected node below its outcome day advances one day. At or past that day it ends at -2 if the outcome is 18 and at -1 otherwise. The three returned tallies, in (high, low) order, are the sizes of the sets of that group's deaths, recoveries and successful draws. |
| DayStep.VisitAll | src/individual_simulation.py:35-55 | After the outer loop the map holds the next health of every start-of-day infected node and 1 for every susceptible node some infected neighbour caught, and no other key. The counters are the sizes of the death, recovery and transmission sets of both groups. |
| DayStep.VisitInfected | src/individual_simulation.py:36-54 | Handling infected node `x1` adds its row of draws and its own next health to the map. It moves the three counters on from the nodes below `x1` to the nodes up to `x1`. |
| DayStep.Spread | src/individual_simulation.py:38-42 | Scanning the neighbours of `x1` records 1 for exactly the susceptible neighbours its draw infects. It adds one infection per successful draw, in the target's risk group. |
| DayStep.Expose | src/individual_simulation.py:38-42 | One (source, target) pair: the target is recorded and counted in its group exactly when it is a susceptible neighbour and the draw succeeds; otherwise nothing changes. |
| DayStep.Resolve | src/individual_simulation.py:43-54 | The infected node's next health goes into the map. A death or recovery is counted exactly when the node dies or recovers, in its own risk group. |
| DayStep.IdleDone | src/individual_simulation.py:36 | A node that is not infected at the start of the day writes nothing and changes none of the counters. |
| DayStep.BatchApplied | src/individual_simulation.py:56 | Writing the collected map back in one batch yields the end-of-day relation of `TimeStep`. Every decision reads start-of-day values, so a node infected today neither infects nor advances today. |
| DayStep.ResolvedCount | src/individual_simulation.py:43-54 | Deaths plus recoveries over both groups equal the number of start-of-day infected nodes at or past their outcome day. |
| DayStep.NewInfectionsBound | src/individual_simulation.py:38-42 | A group's infection count is at least the number of its nodes infected today. A node hit by several draws is counted once per draw. |
| HalfEdges.BucketStubs | src/random_graphs/hcm_utils.py:5-13 | Succeeds exactly when every node with stubs has a community id below the number of distinct ids. Otherwise it fails at the first node that does not, as Python's IndexError would. On success there is one bucket per distinct id. Node `v` occurs `deg_out[v]` times in bucket `communities[v]` and in no other bucket, and no other value occurs in any bucket. Every bucket is in node order. All buckets together hold `sum(deg_out)` stubs. |
| HalfEdges.FillBuckets | src/random_graphs/hcm_utils.py:7-12 | The loop over nodes and stubs: it fails at the same node. Otherwise bucket `c` is the stub list of the out-degrees restricted to community `c`. |
| HalfEdges.BucketMembers | src/random_graphs/hcm_utils.py:11-12 | A bucket filled with exactly the stubs of community `c` holds only ids of nodes of `c`. |
| HalfEdges.CheckCommunityStructure | src/random_graphs/hcm_utils.py:16-25 | Passes exactly when every community that occurs has an out-degree sum no larger than that of all other nodes; otherwise its assertion fails. |
| HalfEdges.CommunityTotals | src/random_graphs/hcm_utils.py:21-23 | The two sums compared are the out-degrees of the members of `c` and of all other nodes, and together they give the total out-degree. |
| HalfEdges.BalancedIsHalf | src/random_graphs/hcm_utils.py:23 | The check's condition is the same as: the community holds at most half of all outward stubs. |
| HalfEdges.CombinedStubs | src/random_graphs/hcm_utils.py:54-66 | The combined stub list has the in- plus out-degrees of community 0 and the out-degrees of every other node as its length. A community-0 node occurs `deg_in[v] + deg_out[v]` times; any other node occurs `deg_out[v]` times, so its in-degree never contributes. All community-0 stubs come first. Each of the two parts is in node order, so a node's stubs are contiguous. |
| HalfEdges.GeneralStubs | src/random_graphs/hcm_utils.py:58-62 | The first loop yields, node by node in ascending order, the in-stubs and then the out-stubs of community-0 nodes. |
| HalfEdges.OtherStubs | src/random_graphs/hcm_utils.py:63-65 | The second loop appends, node by node in ascending order, the out-stubs of the nodes outside community 0. |
| HalfEdges.CombinedCounts | src/random_graphs/hcm_utils.py:58-65 | Each node's number of occurrences in the combined list, by its community. |
| HalfEdges.CombinedOrder | src/random_graphs/hcm_utils.py:55-65 | The general-population stubs precede all others, and each part is sorted by node. |
| Utils.CommunityMap | src/utils.py:20-27 | The map has as many entries as the block sizes add up to, with a negative size adding none. Id `i` occurs exactly `sizes[i]` times. The map is non-decreasing. Position `p` holds the id whose block, between the prefix sums of the sizes before and through it, contains `p`. |
| Utils.CommunityMapLayout | src/utils.py:22-26 | The same four facts about the stub list of the block sizes, the sequence the nested loops build. |
| Utils.CorrectDegSumToBeEven | src/utils.py:52-56 | The result has an even sum and the same length. Only the first entry may differ. The result equals the input exactly when the input sum is even. Otherwise the first entry and the sum each grow by one. |
| Utils.CorrectionIdempotent | src/utils.py:52-56 | Applying the fix twice is the same as applying it once. |
| Utils.InitInfected | src/utils.py:59-79 | The result is strictly increasing and lies in `[0, n)`. A node below the threshold is included exactly when its first draw or else its second draw succeeds. A node at or above the threshold is included exactly when its second draw succeeds. |
| DegreeExtraction.HcmDegreeDistributions | src/degree_distribution/degree_distr_comparison.py:18-46 | The remaining graph has the same nodes. Its edges are exactly the original edges whose endpoints lie in different communities. The between sequence has one entry per node: its number of neighbours in other communities. There is one within sequence per distinct id, in ascending id order. Each is the degree sequence of that community's induced subgraph over its members: one entry per member in ascending node order, entry `j` being the number of neighbours the `j`-th member has in its own community. |
| DegreeExtraction.CollectWithin | src/degree_distribution/degree_distr_comparison.py:31-40 | The loop over ids collects, in id order, each community's within sequence and exactly the edges inside the listed communities. |
| DegreeExtraction.WithinDegreesCount | src/degree_distribution/degree_distr_comparison.py:33-35 | Entry `j` of a community's within sequence is the number of neighbours its `j`-th member has in the same community. |
| DegreeExtraction.InducedNeighbours | src/degree_distribution/degree_distr_comparison.py:34 | In the induced subgraph a member keeps exactly its same-community neighbours. |
| DegreeExtraction.InsideEdgesAll | src/degree_distribution/degree_distr_comparison.py:39-44 | Removing the collected inside edges leaves exactly the edges between communities. |
| DegreeExtraction.BetweenNeighbours | src/degree_distribution/degree_distr_comparison.py:44-45 | Without the inside edges a node keeps exactly its neighbours in other communities. |
| DegreeExtraction.DegreeSplit | src/degree_distribution/degree_distr_comparison.py:33-45 | A node's within-degree plus its between-degree is its degree in the original graph. |
| DegreeExtraction.WithinEven | src/degree_distribution/degree_distr_comparison.py:35 | Each within sequence adds up to twice the number of edges inside its community, so to an even number. |
| DegreeExtraction.BetweenEven | src/degree_distribution/degree_distr_comparison.py:45 | The between sequence adds up to twice the number of edges between communities, so to an even number. |
| Seqs.Unique | src/random_graphs/hcm_utils.py:19 | numpy `unique`: strictly increasing, holding exactly the values of the input, one per distinct value. |
| Seqs.Members | src/random_graphs/hcm_utils.py:21 | numpy `where(communities == c)[0]`: strictly increasing, holding exactly the indices whose id is `c`. |

## Left out

- `cm_for_communities` (src/random_graphs/hcm_utils.py:28-51) is not part of this model. It wraps networkx's random configuration model, self-loop removal, multigraph collapsing and disjoint-union relabelling, and none of that library code is available.
- The hierarchical configuration model itself (`hierarchical_configuration_model_algo1/2`) is not part of this model. Its source is not available; the model starts from the stubs and from the finished graph.
- `single_graph_simulation` and the `__main__` blocks wire the pipeline together: community sizes and degree sequences (src/individual_simulation.py:89-97), graph construction (line 101), attribute assignment (line 111), seeding the initial infections (lines 121-123) and the day loop with its per-day seed (lines 133-143). They also time, print and plot. None of that is modelled; the model covers one day (`TimeStep`) and the helpers it is built from.
- `create_community_random_color_map` draws random float colours for plotting.
- `community_sizes_generator` draws normally distributed floats. Its loop ends only depending on those draws.
- `ks_test_power_law` is a scipy statistical test on floats.
- Random seeds, the Bernoulli draws and float infectivities are replaced by the oracles `coin`, `first` and `second`. Reproducibility and probabilities are not modelled.
- Utils.InitInfected: the second draw is taken only when the first did not infect. With oracles that choice changes nothing, so the order in which the draws are consumed is not modelled.
- DegreeExtraction.HcmDegreeDistributions: degree sequences are listed in ascending node id. networkx's own iteration order is not modelled. The returned graph stands for the in-place `remove_edges_from` on the caller's graph.
- DayStep.TimeStep: counters and health values are unbounded integers. numpy and Python integer widths are not modelled. The node set is `0 .. n-1`, and the graph is a value the step does not change.
- Community ids and degrees are natural numbers, so numpy's negative indexing never arises. Community sizes are integers, and a negative size contributes no nodes (`range` of a negative number is empty).
- HalfEdges.BucketStubs: the `int(...)` conversion of a community id is the identity on natural numbers. A float id is not modelled.
- Utils.CorrectDegSumToBeEven: the in-place update of the numpy array is modelled as a returned sequence. int64 overflow of the sum or of `seq[0] += 1` is not modelled.
- DegreeExtraction.HcmDegreeDistributions: requires one community id per node (`Labelled`). The source selects members with `np.where` and builds `subgraph` from them (src/degree_distribution/degree_distr_comparison.py:33-34); `subgraph` silently skips ids that are not graph nodes, so a longer `communities` array is tolerated there. That mismatch is not modelled.
- HalfEdges.BucketStubs: requires `|degOut| == |comm|`, the system's invariant of one community id per node. The source loops over `len(deg_seq_out)` (src/random_graphs/hcm_utils.py:10), so extra ids only enlarge `np.unique` (line 7), and a shorter `communities` raises IndexError at line 12 for a node with stubs. The length-mismatch behaviour is not modelled.
- HalfEdges.FillBuckets: requires `|degOut| == |comm|` for the same reason as `BucketStubs`; length-mismatch behaviour is not modelled.
- HalfEdges.CheckCommunityStructure: requires `|degOut| == |comm|`. With a longer `communities` the source raises IndexError rather than AssertionError at line 23; that is not modelled.
- HalfEdges.CombinedStubs: requires `|degIn| == |degOut| == |comm|`, one entry per node; length-mismatch behaviour of `get_half_edges` is not modelled.
- Such a mismatch can arise in the system: `community_sizes_generator` can append a negative last size (src/utils.py:44-48), and then `community_map_from_community_sizes` returns more ids than there are nodes (src/individual_simulation.py:93-94).
