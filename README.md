# Flock2 spatial-grid neighbour pipeline, modelled in Dafny

This project models the sequential (CPU) neighbour pipeline of the Flock2
bird-flocking simulation, which runs once per simulation step:

1. **Grid geometry** (`geometry.dfy`, module `GridGeometry`). The integer part
   of `InitializeGrid` is modelled in class `Accel`:
   - the total cell count and the search-window side S (at least 2);
   - the scan limit `gridScanMax = gridRes - S`;
   - the fatal guard `S > 6`;
   - the flat adjacency-offset table `gridAdj`, entry `(y*S+z)*S+x` holding
     `(y*resZ+z)*resX+x`;
   - the sizes of the auxiliary prefix-scan levels.

   `iDivUp` and `ComputeNumBlocks` are modelled too.
2. **Counting-sort bucketing** (`bucketing.dfy`, module `Bucketing`). Class
   `Grid` holds the buffers `grid`, `gridcnt`, `gridoff`, `gcell` and `gndx` as
   arrays.
   - `InsertIntoGrid` gives each agent its flat cell, or `GRID_UNDEF` when the
     interior test rejects it. It also records the agent's rank within its cell
     and counts the cell.
   - `PrefixSumGrid` takes the exclusive prefix sum of the counts and scatters
     every accepted agent to `gridoff[cell] + gndx`.

   The result is specified against value-level functions: `Bucket` (the agents
   of a cell, ascending), `Rank`, `Counts` and `Sum`.
3. **Topological list** (`topk.dfy`, module `Topological`). The bounded list
   `sort_d_nbr`/`sort_j_nbr` is kept in two 16-slot arrays.
   - A candidate is inserted in place before the first entry that is not
     nearer.
   - The list is then cut back to K = `neighbors` entries.

   It is specified by the function `TopK`. That function is proved ascending,
   a sub-multiset of the offers and holding the K nearest. While at most K
   candidates have been offered, it holds all of them.
4. **Neighbour discovery** (`neighbors.dfy`, module `Neighbors`). This is the
   CPU branch of `FindNeighbors`. For every agent it walks the S³ window of
   cells around the agent's cell.
   - Each close pair is linked into one cluster.
   - Each candidate within the radius and inside the forward cone is offered
     to the topological list.

   The pass records `near_j`, `t_nbrs`, `r_nbrs` and the agents of the list.
   The float computations, namely the squared distance, the cone test and the
   two thresholds, are inputs (`Metric`).
5. **Proximity clustering** (`clustering.dfy`, module `Clustering`). Class
   `Clusters` holds the per-agent `cluster_id` array, the `cluster_assignment`
   lists and `max_cluster_id`.
   - Both entry points use one pair step, `Link`: the walk of `FindNeighbors`
     and `AssignClusters`, which is driven by per-agent neighbour lists.
   - In `Link`, an unassigned agent joins the cluster, and a different cluster
     is merged by re-tagging its whole list.
   - A ghost set records every examined pair.
   - The invariant `Inv` says the ids and lists form a partition, and every
     cluster is connected by examined pairs. From it, the final clusters are
     proved to be exactly the connected components of the examined pairs.
6. **Cluster ranking** (`ranking.dfy`, module `Ranking`). `CalculateClusters`
   works in three steps:
   - it builds one histogram entry per list, including the merged-away empty
     ones;
   - it sorts the histogram into non-increasing member count;
   - it fills `cluster_order`, so that `hist[order[c]]` is the entry of
     cluster c.

The two bound hazards listed under "Findings" are each modelled twice: once
as written, with a lemma that exhibits the problem, and once corrected.

## Model

| member | source | states |
|---|---|---|
| GridGeometry.DivUp | source/app_flock.cpp:368-370 | for a >= 0 and b > 0 the result is the ceiling of a/b: (r-1)*b < a <= r*b |
| GridGeometry.TruncDiv | source/app_flock.cpp:368-370 | the truncating C++ quotient agrees with floor division for non-negative operands |
| GridGeometry.ComputeNumBlocks | source/app_flock.cpp:372-376 | numThreads is min(minThreads, numPnts); for positive inputs, numBlocks*numThreads covers every point with no idle block; with no points it returns 0 threads and 1 block |
| GridGeometry.SearchSize | source/app_flock.cpp:806-807 | the window side S is at least 2 and at least span+1; it is exactly span+1 once span >= 1 and exactly 2 when span < 1 |
| GridGeometry.AuxSizes | source/app_flock.cpp:815-819 | each auxiliary scan level has one block more than the integer quotient, so it covers the level below in blocks of 2*SCAN_BLOCKSIZE |
| GridGeometry.AdjIndexDecodes | source/app_flock.cpp:842-846 | the flat table index (y*S+z)*S+x is below S³ and decodes back to y, z and x |
| GridGeometry.AdjTableEntry | source/app_flock.cpp:842-846 | entry (y*S+z)*S+x of the adjacency table is (y*resZ+z)*resX+x |
| GridGeometry.AdjTable | source/app_flock.cpp:842-846 | the table the set-up writes has exactly S³ entries; what each entry holds is stated by AdjTableEntry |
| GridGeometry.AdjIndexRange | source/app_flock.cpp:842-846 | every table index below S³ decodes into three coordinates below S |
| GridGeometry.FlatInRange | source/app_flock.cpp:901 | a cell inside the resolution has a flat index in [0, gridTotal) |
| GridGeometry.InteriorCellInGrid | source/app_flock.cpp:901-906 | an agent accepted by the interior test has its flat cell in [0, gridTotal) |
| GridGeometry.ShiftedFlat | source/app_flock.cpp:1035 | moving a cell to the window corner and adding an adjacency offset is the flat index of the shifted cell |
| GridGeometry.WindowCellInGrid | source/app_flock.cpp:1103-1110 | every window cell gs - nadj + gridAdj[c] scanned around an accepted agent lies in [0, gridTotal) |
| GridGeometry.CubeAtMostCapacity | source/app_flock.cpp:811-814 | every S the guard accepts has S³ <= 216 offsets |
| GridGeometry.GuardAdmitsAdjOverflow | source/app_flock.cpp:811-814 | as written, the guard accepts S = 5, whose 125 offsets exceed the 64 declared slots |
| GridGeometry.Accel.FillAdjacency | source/app_flock.cpp:841-846 | the triple loop (y slowest, x fastest) leaves adj[..S³] equal to the adjacency table |
| GridGeometry.Accel.InitializeGrid | source/app_flock.cpp:800-846 | sets total, S, gridAdjCnt = S³ and gridScanMax; reports a configuration error exactly when S > 6; otherwise the record is valid and the table is filled |
| Bucketing.Bucket | source/app_flock.cpp:1000-1011 | the agents of a cell are valid indices in strictly ascending order |
| Bucketing.BucketInCell | source/app_flock.cpp:1000-1011 | every member of the bucket of c has cell c |
| Bucketing.BucketComplete | source/app_flock.cpp:1000-1011 | every agent of cell c is in the bucket of c |
| Bucketing.Accepted | source/app_flock.cpp:903-909 | the number of accepted agents never exceeds the number of agents |
| Bucketing.BucketRank | source/app_flock.cpp:903-906 | the agent at position r of a bucket has rank r |
| Bucketing.RankInBucket | source/app_flock.cpp:903-906 | an agent of cell c sits at its rank in the bucket of c |
| Bucketing.BucketRanks | source/app_flock.cpp:903-906 | the ranks within a cell are exactly 0 .. count-1 |
| Bucketing.RankIncreasing | source/app_flock.cpp:903-906 | two agents of the same cell have ranks in their index order |
| Bucketing.Rank | source/app_flock.cpp:903-905 | the rank of agent j, the counter value its cell had when j was inserted, is at most j |
| Bucketing.BucketLength | source/app_flock.cpp:903-905 | no cell counts more agents than there are |
| Bucketing.Counts | source/app_flock.cpp:894-909 | one counter per grid cell; SumOfCounts states what they add up to |
| Bucketing.Cells | source/app_flock.cpp:894-909 | one recorded cell per agent; CellsOfInGrid states its range |
| Bucketing.SumOfCounts | source/app_flock.cpp:990-994 | the per-cell counters add up to the number of accepted agents |
| Bucketing.CellsOfInGrid | source/app_flock.cpp:901-909 | every recorded cell is a grid cell or GRID_UNDEF |
| Bucketing.Grid.InsertIntoGrid | source/app_flock.cpp:873-912 | gcell is the cell of every agent (GRID_UNDEF when rejected); gridcnt[c] counts the agents of c; gndx is each accepted agent's rank (0 when rejected); gridoff is cleared |
| Bucketing.Grid.InsertAgent | source/app_flock.cpp:894-911 | one insert step keeps the counts and ranks of the first n+1 agents exact |
| Bucketing.Grid.PrefixSumGrid | source/app_flock.cpp:977-1013 | gridoff[c] is the exclusive prefix sum of the counts; the total is the number of accepted agents; each slice gridoff[c]..+gridcnt[c] of grid holds exactly the agents of c in ascending order; every later slot is GRID_UNDEF |
| Bucketing.Grid.ExclusiveScan | source/app_flock.cpp:990-994 | gridoff[n] is the sum of gridcnt[0..n) |
| Bucketing.Grid.ScatterAgents | source/app_flock.cpp:1003-1011 | after the scatter every slice holds its cell's bucket, and slots past the accepted total stay GRID_UNDEF |
| Bucketing.Grid.ScatterAgent | source/app_flock.cpp:1005-1008 | one scatter step puts agent j at its slot and disturbs no earlier agent nor the cleared tail |
| Bucketing.SlotInRange | source/app_flock.cpp:1006 | the slot gridoff[cell]+gndx lies in its cell's slice and below the accepted total |
| Bucketing.SlotsDistinct | source/app_flock.cpp:1006-1007 | distinct accepted agents get distinct slots |
| Bucketing.SlotInBucket | source/app_flock.cpp:1006 | the r-th agent of a bucket gets the r-th slot of that cell's slice |
| Bucketing.ScatterFillsBucket | source/app_flock.cpp:1000-1011 | once every accepted agent sits at its slot, the slice of cell c equals the bucket of c |
| Topological.InsertPos | source/app_flock.cpp:1155-1156 | the position is the first entry whose distance is not below d: all earlier entries are nearer |
| Topological.InsertPosUnique | source/app_flock.cpp:1155-1156 | only one index satisfies those two properties |
| Topological.InsAt | source/app_flock.cpp:1159-1168 | after insertion, entries before the position are unchanged, x is at the position, and later entries move up one |
| Topological.InsMultiset | source/app_flock.cpp:1159-1168 | insertion adds exactly the candidate |
| Topological.InsAscending | source/app_flock.cpp:1159-1168 | insertion keeps the list ascending and puts x before entries of equal distance |
| Topological.InsAbove | source/app_flock.cpp:1159-1168 | the entries after x are no nearer than x |
| Topological.InsSorted | source/app_flock.cpp:1159-1168 | insertion keeps the list ascending |
| Topological.TopK | source/app_flock.cpp:1155-1171 | the list holds min(offers, K) entries |
| Topological.TopKShape | source/app_flock.cpp:1155-1171 | the list holds min(offers, K) entries and is ascending |
| Topological.TopKSubset | source/app_flock.cpp:1155-1171 | every kept entry was offered, counting repetitions |
| Topological.TopKAll | source/app_flock.cpp:1155-1171 | while at most K candidates have been offered, all of them are kept |
| Topological.TopKGrows | source/app_flock.cpp:1171 | below K entries an offer only inserts, with no cut |
| Topological.TopKKeepsSmallest | source/app_flock.cpp:1155-1171 | every candidate offered but not kept is at least as far as every kept entry |
| Topological.FullStepKeeps | source/app_flock.cpp:1159-1171 | one insertion into a full list followed by the cut keeps that property |
| Topological.DroppedCount | source/app_flock.cpp:1171 | a candidate dropped now was dropped before or is the entry cut off now |
| Topological.DroppedBoundsKept | source/app_flock.cpp:1159-1171 | a dropped candidate is no nearer than any entry kept after the cut |
| Topological.HeadIsNearest | source/app_flock.cpp:1189 | with K > 0 and at least one offer, slot 0 is no farther than any offer |
| Topological.FindSlot | source/app_flock.cpp:1155-1156 | the scan stops at the first slot whose distance is not below dsq, or at sort_num |
| Topological.ShiftUp | source/app_flock.cpp:1161-1166 | slots k..num-1 move up by one in both arrays, and nothing else changes |
| Topological.Place | source/app_flock.cpp:1159-1168 | shift, then write (dsq, j) at slot k, in both arrays |
| Topological.PlacedPairs | source/app_flock.cpp:1159-1168 | after the shift and write, the first num+1 pairs are the old list with the candidate inserted |
| Topological.PlacedTail | source/app_flock.cpp:1159-1168 | slots past num are untouched |
| Topological.InsertNeighbor | source/app_flock.cpp:1155-1171 | the arrays' first num+1 pairs are the old list with the candidate inserted; later slots are unchanged; sort_num becomes min(num+1, K) |
| Neighbors.VisitedMembers | source/app_flock.cpp:1108-1112 | an agent is visited iff it is an agent whose cell is in the window |
| Neighbors.VisitedInRange | source/app_flock.cpp:1108-1112 | every visited index is a valid agent |
| Neighbors.VisitedStep | source/app_flock.cpp:1108-1112 | walking one more window cell appends that cell's bucket |
| Neighbors.ScannedMembers | source/app_flock.cpp:1103-1112 | an agent outside the grid visits nobody; otherwise the walk visits exactly the agents in its window |
| Neighbors.QualifyingMembers | source/app_flock.cpp:1116-1152 | a candidate is offered iff it was visited, is in range, is not the agent itself, is within the radius and in the cone, and carries its squared distance |
| Neighbors.ClosePairsMembers | source/app_flock.cpp:1116-1124 | the walk of i links (i, j) iff j was visited, examined and closer than the cluster threshold |
| Neighbors.OffersMembers | source/app_flock.cpp:1103-1152 | the offers of agent i are exactly the in-range, in-cone agents of its window, other than i |
| Neighbors.WalkPairsMembers | source/app_flock.cpp:1072-1143 | the examined pairs of the whole pass are the close pairs (a, b) with b visited by a |
| Neighbors.WalkPairsStep | source/app_flock.cpp:1072-1143 | one more agent adds its own close pairs |
| Neighbors.OfferStep | source/app_flock.cpp:1116-1152 | one more visited agent extends the offers and the close pairs by its own test |
| Neighbors.AgentsOfPairs | source/app_flock.cpp:1184-1189 | the agents of the paired arrays are sort_j_nbr |
| Neighbors.PairsPrefix | source/app_flock.cpp:1184-1191 | a prefix of the pairs is the pairs of the prefixes |
| Neighbors.TopKStep | source/app_flock.cpp:1155-1171 | one offer inserts into the list and cuts it to min(num+1, K) |
| Neighbors.LastMinIsMin | source/app_flock.cpp:1189 | the latest-offered nearest candidate is an offer no farther than any other |
| Neighbors.TopKHead | source/app_flock.cpp:1189 | with K > 0 slot 0 holds that candidate |
| Neighbors.SortHeadStep | source/app_flock.cpp:1155-1171 | slot 0 after an offer is slot 0 of the list with the candidate inserted (even when the cut then drops it) |
| Neighbors.RecordMeaning | source/app_flock.cpp:1091-1195 | r_nbrs counts the offers; t_nbrs is min(r_nbrs, K); the list holds the TopK agents; with t_nbrs > 0, near_j is the nearest kept neighbour; with no offers, near_j is whatever slot 0 held before |
| Neighbors.StaleNear | source/app_flock.cpp:1093-1189 | an agent with no offers, searched after one whose nearest neighbour is 1, records near_j = 1 although it has no neighbour |
| Neighbors.StaleNearIsAgent | source/app_flock.cpp:1189 | that stale value is a real agent index, never -1 |
| Neighbors.NearestIsNearest | source/app_flock.cpp:1093-1189 | the corrected near_j is -1 exactly when the list is empty, and otherwise is slot 0 and an offer no farther than any other |
| Neighbors.SortHead | source/app_flock.cpp:1149-1171 | slot 0 of the agent array after an agent's offers: unchanged when nothing was offered, otherwise the agent of one of the offers |
| Neighbors.Record | source/app_flock.cpp:1184-1191 | r_nbrs counts the offers; t_nbrs is the length of the stored list, at most K and at most r_nbrs; near_j is the slot 0 left by the previous agent when nothing was offered, otherwise an offered agent |
| Neighbors.NearBefore | source/app_flock.cpp:1056-1057 | slot 0 before agent i's search is -1, the value written once before the agent loop, or an agent offered to some earlier agent: it is never cleared between agents |
| Neighbors.Records | source/app_flock.cpp:1072-1197 | one record per agent; in each, r_nbrs counts that agent's offers and t_nbrs is the length of its list, at most K and at most r_nbrs |
| Neighbors.AccelWindowCell | source/app_flock.cpp:1106-1109 | with a valid grid record, window cell c of an accepted agent lies in [0, gridTotal) |
| Neighbors.AccelWindows | source/app_flock.cpp:1103-1110 | every window cell of every accepted agent lies in the grid |
| Neighbors.Offer | source/app_flock.cpp:1152-1171 | one in-cone candidate updates the arrays to the list with it offered |
| Neighbors.VisitCandidate | source/app_flock.cpp:1114-1177 | one visited agent: skip when out of range or i itself; link when close; offer and count when in radius and cone; the ids already assigned stay assigned |
| Neighbors.ScanSlice | source/app_flock.cpp:1110-1112 | the slice gridoff[cell]..clast is visited in order, with the same effects as visiting its agents one by one |
| Neighbors.ScanCell | source/app_flock.cpp:1109-1112 | scanning one window cell visits its bucket |
| Neighbors.ScanWindow | source/app_flock.cpp:1106-1112 | scanning the S³ window visits the agents of its cells, and the list and counters reflect exactly those offers |
| Neighbors.SearchAgent | source/app_flock.cpp:1074-1181 | agent i ends in a cluster; its sort arrays hold the list of its offers and r counts them; exactly its close pairs are linked |
| Neighbors.SummariseAgent | source/app_flock.cpp:1074-1195 | the record written for agent i is Record(its offers, K, slot 0 before), and slot 0 carries near_j over to the next agent |
| Neighbors.SearchStep | source/app_flock.cpp:1072-1197 | one turn of the agent loop extends the records and the linked pairs by agent i |
| Neighbors.Store | source/app_flock.cpp:1189-1191 | writing the record of agent i extends the records written so far |
| Neighbors.SearchLoop | source/app_flock.cpp:1072-1197 | after the loop every agent's record is written, every agent has a cluster, and the linked pairs are those of all walks |
| Neighbors.SearchAll | source/app_flock.cpp:1053-1197 | the pass's records are Records(AllOffers), and its links are WalkPairs of all walks |
| Neighbors.SearchFresh | source/app_flock.cpp:1053-1057 | the same, starting from fresh sort arrays with slot 0 at distance 100000 and agent -1 |
| Neighbors.FindNeighbors | source/app_flock.cpp:1025-1198 | every agent's record is as above; every agent has a cluster; two agents share a cluster iff they are connected by the pairs the walk found closer than the threshold |
| Clustering.ExactlyOnce | source/app_flock.cpp:1077-1142 | under the partition invariant, an agent with id k appears exactly once in list k and in no other list |
| Clustering.ComponentsAgree | source/app_flock.cpp:1124-1142 | two assigned agents share an id iff they are connected by examined pairs |
| Clustering.ComponentsAll | source/app_flock.cpp:1124-1142 | the same, for every pair of agents once all are assigned |
| Clustering.PathKeepsId | source/app_flock.cpp:1124-1142 | both ends of a path of examined pairs carry the same id |
| Clustering.NewClusterKeepsInv | source/app_flock.cpp:1077-1082 | opening a new cluster for an unassigned agent keeps the invariant |
| Clustering.JoinKeepsInv | source/app_flock.cpp:1125-1128 | an unassigned agent joining the cluster of a paired agent keeps the invariant |
| Clustering.MergeKeepsPartition | source/app_flock.cpp:1129-1142 | merging by re-tagging the whole list keeps ids and lists a partition |
| Clustering.MergeKeepsTagged | source/app_flock.cpp:1134-1141 | after the merge every list member carries its list's id |
| Clustering.MergeKeepsNoDups | source/app_flock.cpp:1134-1141 | after the merge no list holds an agent twice |
| Clustering.MergeKeepsListed | source/app_flock.cpp:1134-1141 | after the merge every assigned agent is in the list of its id |
| Clustering.MergeKeepsLinks | source/app_flock.cpp:1129-1142 | after the merge every examined pair lies in one cluster, and each cluster stays connected |
| Clustering.RetagByMembers | source/app_flock.cpp:1134-1140 | re-tagging the members of list `from` is re-tagging every agent with id `from` |
| Clustering.RetagKept | source/app_flock.cpp:1134-1140 | re-tagging never unassigns an agent |
| Clustering.Retag | source/app_flock.cpp:1134-1140 | after the re-tag an agent has id `to` exactly when it had `from` or `to`, and when the two differ no agent keeps `from` |
| Clustering.MergedLists | source/app_flock.cpp:1134-1141 | lists other than `from` and `to` are unchanged; when the two differ, list `from` is emptied and list `to` gains exactly its members |
| Clustering.PairsFromMembers | source/app_flock.cpp:1254-1255 | the pairs examined for agent i are exactly (i, j) for j in its neighbour list |
| Clustering.NbrPairsMembers | source/app_flock.cpp:1228-1276 | the pairs of the first i agents are exactly (x, y) with x < i and y in the list of x |
| Clustering.Clusters.Reset | source/app_flock.cpp:1215-1222 | max_cluster_id is -1, no lists, every agent unassigned |
| Clustering.Clusters.NewCluster | source/app_flock.cpp:1241-1247 | max_cluster_id grows by one, the agent takes it, and the new list [i] is appended |
| Clustering.Clusters.Join | source/app_flock.cpp:1249-1250 | the agent takes cluster c and is appended to list c, keeping the invariant |
| Clustering.Clusters.MoveMembers | source/app_flock.cpp:1134-1140 | the members of `src` are appended to list `to` and re-tagged; nothing else changes |
| Clustering.Clusters.Merge | source/app_flock.cpp:1129-1142 | ids become Retag(from, to); list to gains list from, which is cleared; the invariant holds |
| Clustering.Clusters.Link | source/app_flock.cpp:1124-1143 | the pair step for close agents i and j: an unassigned j joins i's cluster, and is appended to its list; a j in another cluster has that cluster re-tagged and its list moved to i's (Retag, MergedLists); a j already in i's cluster changes nothing; i keeps its id, j shares it, and the invariant holds |
| Clustering.Clusters.MinNeighbourCluster | source/app_flock.cpp:1233-1239 | -1 iff no neighbour is assigned; otherwise the smallest id among assigned neighbours, carried by one of them |
| Clustering.Clusters.SeedAgent | source/app_flock.cpp:1231-1252 | an assigned agent and the lists are left as they are; an unassigned agent with no assigned neighbour opens cluster max_cluster_id+1 holding only itself; otherwise it takes the smallest id among its assigned neighbours and is appended to that list; only its own id changes |
| Clustering.Clusters.LinkAll | source/app_flock.cpp:1254-1276 | every pair (i, j) with j in the list is linked and recorded; i keeps its id |
| Clustering.Clusters.LinkStep | source/app_flock.cpp:1255-1275 | one turn of that loop records one more pair |
| Clustering.Clusters.AssignAgent | source/app_flock.cpp:1229-1276 | agent i ends assigned, and exactly its neighbour pairs are added |
| Clustering.Clusters.AssignStep | source/app_flock.cpp:1228-1277 | one turn of the agent loop extends "every agent before i is assigned" and the examined pairs |
| Clustering.Clusters.AssignAll | source/app_flock.cpp:1228-1277 | every agent ends assigned, and the examined pairs are exactly the neighbour-list pairs |
| Clustering.Clusters.AssignClusters | source/app_flock.cpp:1201-1279 | off the GPU configuration nothing changes; with clustering off, every id is -1 and there are no lists; otherwise every agent is assigned and the clusters are the connected components of the neighbour-list pairs |
| Ranking.InsertSorted | source/app_flock.cpp:1315 | inserting into a non-increasing histogram keeps it non-increasing and adds exactly the entry |
| Ranking.SortDescCorrect | source/app_flock.cpp:1315 | the sorted histogram is non-increasing by count and a permutation of the unsorted one |
| Ranking.HistogramIds | source/app_flock.cpp:1311-1312 | any permutation of the histogram lists every cluster id once, each with its member count |
| Ranking.Histogram | source/app_flock.cpp:1303-1313 | one entry per cluster list, merged-away lists included; HistogramIds states the ids and counts |
| Ranking.SortDesc | source/app_flock.cpp:1315 | the sort keeps the number of entries; SortDescCorrect states the order and the permutation |
| Ranking.BuildHistogram | source/app_flock.cpp:1300-1313 | entry c is (c, size of list c), for every list including empty ones |
| Ranking.SortHistogram | source/app_flock.cpp:1315 | the array becomes the sorted histogram |
| Ranking.OrderOf | source/app_flock.cpp:1317-1322 | order[hist[k].cluster_id] = k for every k |
| Ranking.CalculateClusters | source/app_flock.cpp:1300-1322 | the histogram is a non-increasing permutation of one entry per list; hist[order[c]] is the entry of cluster c with its member count; order inverts the sorted order |

## Left out

- Float geometry is not modelled. This covers the bounds, cell width and
  resolution arithmetic of `InitializeGrid`, the truncation of positions to
  cells, the squared distance, and the field-of-view dot product. Cell
  coordinates, the truncated span `floor(2r/w)`, the squared distance, the cone
  test and the two squared thresholds are inputs.
- The neighbour averages `ave_pos`/`ave_vel` are float sums. The record keeps
  the agents of the list whose positions and velocities are averaged.
- All CUDA paths of the five functions are out: kernel launches, the GPU
  prefix scan and counting sort, and the `m_BirdsTmp` copies. They run code
  that is not part of this model. Only the auxiliary scan sizes are modelled
  (`AuxSizes`).
- The per-agent neighbour lists `cluster_nbrs` that drive `AssignClusters` are
  filled by GPU code that is not part of this model. They are an input,
  assumed to hold valid agent indices only (`ListsInRange`): the source
  indexes the agents with them unchecked.
- Flight dynamics, predators, `UpdateFlockData`, rendering, file and scene
  I/O, and the parameter setter are not modelled. They are float numerics or
  I/O.
- The debug printing in the grid set-up is not modelled. The `exit(-1)` of its
  guard is modelled as the `ConfigError` status.
- Neighbors.FindNeighbors requires K (`neighbors`) < 16. With K >= 16 the
  source reads and writes past the 16-slot sort arrays as soon as some agent
  receives more than 16 in-cone offers; with fewer offers it stays in bounds.
  The model excludes every K >= 16 rather than tracking the offer count. The
  scene-file setter never checks this bound.
- GridGeometry.Accel.InitializeGrid requires `Total(gridRes) <= GRID_UNDEF`.
  The model's integers are unbounded, but the source works in 32 bits: it
  computes `gridTotal` as an `int` product with no check
  (source/app_flock.cpp:801), keeps the flat cell `gs` and the prefix-scan
  sum in `int`, and compares `uint` cell ids against GRID_UNDEF =
  2147483647. Resolutions whose cell count overflows, or whose last flat
  index reaches GRID_UNDEF, are excluded rather than modelled with
  wrap-around.
- Neighbors.FindNeighbors takes K as a `nat`. The scene-file setter
  (source/app_flock.cpp:481) also accepts a negative `neighbors`; the source
  then cuts `sort_num` to that negative value and records it as `t_nbrs`.
  That case is not modelled.
- Ranking.SortHistogram models `std::sort` by its result only: a
  non-increasing permutation, computed here by a functional insertion sort
  written back to the array. The order of equal counts is unspecified in the
  source, because `Histogram::operator>` is not part of this model. The
  contracts of `CalculateClusters` hold for any such order.
- GridGeometry.Accel.InitializeGrid declares the adjacency table with 216
  slots rather than the 64 of the source. The as-written bound is exhibited by
  `GuardAdmitsAdjOverflow` (see Findings).
- The ghost set of examined pairs in `Clusters` has no counterpart in the
  source. It exists only to state the connected-components property.

## Findings

| source | as written | input that shows it | evidently intended | confidence | as-written member | corrected member |
|---|---|---|---|---|---|---|
| flock_types.h:75 | `gridAdj` has 64 slots, and the guard at source/app_flock.cpp:811-814 only rejects S > 6, so the loop at source/app_flock.cpp:842-846 writes S³ entries | span 4 gives S = 5, which passes the guard; the loop writes 125 entries into 64 slots | a table with room for 6³ = 216 offsets, or a guard rejecting S > 4 | not executed | GridGeometry.GuardAdmitsAdjOverflow | GridGeometry.Accel.InitializeGrid |
| source/app_flock.cpp:1189 | `near_j` is reset to -1 at source/app_flock.cpp:1093 and then unconditionally overwritten with `sort_j_nbr[0]`, which is never cleared between agents | agent 0 has one neighbour (agent 1) and agent 1 has none: agent 1 records near_j = 1 | near_j = -1 (read as "no neighbour" by the caller at source/app_flock.cpp:1959) when t_nbrs = 0, else the nearest kept neighbour | not executed | Neighbors.StaleNear | Neighbors.NearestIsNearest |
