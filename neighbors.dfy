/**
 * Neighbour discovery on the sequential path: for every agent in the grid,
 * walk the S*S*S window of cells around its cell and, for every other
 * agent listed there, (1) link the two agents into one cluster when they
 * are closer than the cluster threshold, and (2) offer the candidate to a
 * bounded, ascending topological list when it lies within the radius and
 * inside the forward cone. The squared distance and the cone test are
 * float computations; they are inputs here (`Metric`).
 */
module Neighbors {
  import opened GridGeometry
  import opened Bucketing
  import opened Topological
  import opened Clustering

  /**
   * The float-valued part of the search, per ordered pair of agents (i, j):
   * the squared distance, the field-of-view test, the squared cluster
   * threshold and the squared search radius.
   */
  datatype Metric = Metric(dsq: (int, int) -> real, inCone: (int, int) -> bool, clusterDist2: real, radius2: real)

  /**
   * What the pass records for one agent: `near_j` (slot 0 of the agent
   * array), `t_nbrs` (the list length), `r_nbrs` (the number of offers) and
   * the agents of the list, whose positions and velocities the pass averages.
   */
  datatype Summary = Summary(nearJ: int, tNbrs: int, rNbrs: int, topo: seq<int>)

  // ----- what the walk visits -----

  /**
   * Flat cells of the search window of an agent in flat cell gs, in walk
   * order: the corner cell gs - back shifted by every adjacency offset.
   */
  function Window(gs: int, back: int, adj: seq<int>): (w: seq<int>)
    ensures |w| == |adj|
  {
    seq(|adj|, c requires 0 <= c < |adj| => gs - back + adj[c])
  }

  /** Agents listed by the grid for the cells w, cell by cell, each cell in ascending index order. */
  function Visited(cells: seq<int>, w: seq<int>): seq<int>
  {
    if |w| == 0 then [] else Visited(cells, w[..|w| - 1]) + Bucket(cells, w[|w| - 1])
  }

  /** Agents the walk of agent i visits: none when i is outside the grid. */
  function Scanned(cells: seq<int>, back: int, adj: seq<int>, i: int): seq<int>
    requires 0 <= i < |cells|
  {
    if cells[i] == GRID_UNDEF then [] else Visited(cells, Window(cells[i], back, adj))
  }

  /** A visited agent j is examined unless it is out of range or i itself. */
  predicate Examined(i: int, n: int, j: int)
  {
    j < n && j != i
  }

  /** An examined agent closer than the cluster threshold. */
  predicate Close(m: Metric, i: int, n: int, j: int)
  {
    Examined(i, n, j) && m.dsq(i, j) < m.clusterDist2
  }

  /** An examined agent within the radius and inside the cone: offered to the list. */
  predicate Offered(m: Metric, i: int, n: int, j: int)
  {
    Examined(i, n, j) && m.dsq(i, j) < m.radius2 && m.inCone(i, j)
  }

  /** The candidates offered to the topological list, in visiting order. */
  function Qualifying(m: Metric, i: int, n: int, js: seq<int>): seq<Nbr>
  {
    if |js| == 0 then []
    else
      var j := js[|js| - 1];
      Qualifying(m, i, n, js[..|js| - 1]) + if Offered(m, i, n, j) then [Nbr(m.dsq(i, j), j)] else []
  }

  /** The pairs (i, j) the walk links, in visiting order. */
  ghost function ClosePairs(m: Metric, i: int, n: int, js: seq<int>): set<(int, int)>
  {
    if |js| == 0 then {}
    else
      var j := js[|js| - 1];
      ClosePairs(m, i, n, js[..|js| - 1]) + if Close(m, i, n, j) then {(i, j)} else {}
  }

  /** The candidate list of agent i once its walk is over. */
  function Offers(cells: seq<int>, back: int, adj: seq<int>, m: Metric, i: int): seq<Nbr>
    requires 0 <= i < |cells|
  {
    Qualifying(m, i, |cells|, Scanned(cells, back, adj, i))
  }

  /** The visits of every agent's walk, indexed by agent. */
  function Walks(cells: seq<int>, back: int, adj: seq<int>): (ws: seq<seq<int>>)
    ensures |ws| == |cells|
  {
    seq(|cells|, i requires 0 <= i < |cells| => Scanned(cells, back, adj, i))
  }

  /** Every pair linked by the walks `ws` of agents 0..|ws|-1. */
  ghost function WalkPairs(m: Metric, n: int, ws: seq<seq<int>>): set<(int, int)>
  {
    if |ws| == 0 then {}
    else WalkPairs(m, n, ws[..|ws| - 1]) + ClosePairs(m, |ws| - 1, n, ws[|ws| - 1])
  }

  /** The agents of a topological list. */
  function Agents(L: seq<Nbr>): (js: seq<int>)
    ensures |js| == |L|
  {
    seq(|L|, k requires 0 <= k < |L| => L[k].j)
  }

  // ----- the nearest neighbour as the walk leaves it -----

  /** The nearest candidate, the latest one offered among equally near ones. */
  function LastMin(Q: seq<Nbr>): Nbr
    requires |Q| > 0
  {
    if |Q| == 1 then Q[0]
    else
      var y := LastMin(Q[..|Q| - 1]);
      if Q[|Q| - 1].d <= y.d then Q[|Q| - 1] else y
  }

  /**
   * Slot 0 of the agent array after offering the list Q, when it held
   * `prev` before: untouched when nothing was offered, else the head of the
   * list, or with K = 0 the last candidate offered (it is written to slot 0
   * and then cut off).
   */
  function SortHead(Q: seq<Nbr>, K: nat, prev: int): (h: int)
    ensures |Q| == 0 ==> h == prev
    ensures |Q| > 0 ==> exists k :: 0 <= k < |Q| && Q[k].j == h
  {
    if |Q| == 0 then prev
    else if K == 0 then Q[|Q| - 1].j
    else LastMinIsMin(Q); LastMin(Q).j
  }

  /**
   * What the pass records for an agent whose offers are Q, when slot 0 of
   * the agent array held `prev` before its search.
   */
  function Record(Q: seq<Nbr>, K: nat, prev: int): (s: Summary)
    ensures s.rNbrs == |Q| && s.tNbrs == |s.topo| && s.tNbrs <= K && s.tNbrs <= s.rNbrs
    ensures |Q| == 0 ==> s.nearJ == prev
    ensures |Q| > 0 ==> exists k :: 0 <= k < |Q| && Q[k].j == s.nearJ
  {
    Summary(SortHead(Q, K, prev), Min(|Q|, K), |Q|, Agents(TopK(Q, K)))
  }

  /** The offers of every agent, in index order. */
  function AllOffers(cells: seq<int>, back: int, adj: seq<int>, m: Metric): (qs: seq<seq<Nbr>>)
    ensures |qs| == |cells|
  {
    seq(|cells|, a requires 0 <= a < |cells| => Offers(cells, back, adj, m, a))
  }

  /**
   * Slot 0 of the agent array before the search of agent i, when qs lists
   * the offers of every agent: -1 before the first agent, and never cleared
   * between agents.
   */
  function NearBefore(qs: seq<seq<Nbr>>, K: nat, i: nat): (r: int)
    requires i <= |qs|
    ensures r == -1 || exists a, k :: 0 <= a < i && 0 <= k < |qs[a]| && qs[a][k].j == r
  {
    if i == 0 then -1 else SortHead(qs[i - 1], K, NearBefore(qs, K, i - 1))
  }

  /** The records of all agents, when qs lists their offers. */
  function Records(qs: seq<seq<Nbr>>, K: nat): (rs: seq<Summary>)
    ensures |rs| == |qs|
    ensures forall a :: 0 <= a < |qs| ==>
              rs[a].rNbrs == |qs[a]| && rs[a].tNbrs == |rs[a].topo| && rs[a].tNbrs <= K && rs[a].tNbrs <= rs[a].rNbrs
  {
    seq(|qs|, a requires 0 <= a < |qs| => Record(qs[a], K, NearBefore(qs, K, a)))
  }

  /** `near_j` as intended: the nearest kept neighbour, or -1 when the list is empty. */
  function NearestOrNone(Q: seq<Nbr>, K: nat): int
  {
    if Min(|Q|, K) == 0 then -1 else LastMin(Q).j
  }

  // ----- lemmas about the walk -----

  /** The walk over cells w visits exactly the agents whose cell is one of w. */
  lemma {:induction false} VisitedMembers(cells: seq<int>, w: seq<int>, j: int)
    ensures j in Visited(cells, w) <==> 0 <= j < |cells| && cells[j] in w
    decreases |w|
  {
    if |w| > 0 {
      var v := w[..|w| - 1];
      var c := w[|w| - 1];
      VisitedMembers(cells, v, j);
      assert w == v + [c];
      BucketInCell(cells, c);
      if 0 <= j < |cells| && cells[j] == c {
        BucketComplete(cells, c, j);
      }
    }
  }

  /** The visited agents are agents: indices of `cells`. */
  lemma {:induction false} VisitedInRange(cells: seq<int>, w: seq<int>)
    ensures forall k :: 0 <= k < |Visited(cells, w)| ==> 0 <= Visited(cells, w)[k] < |cells|
    decreases |w|
  {
    if |w| > 0 {
      VisitedInRange(cells, w[..|w| - 1]);
    }
  }

  lemma VisitedNext(cells: seq<int>, w: seq<int>, c: int, seen: seq<int>, cell: int)
    requires 0 <= c < |w| && seen == Visited(cells, w[..c]) && cell == w[c]
    ensures seen + Bucket(cells, cell) == Visited(cells, w[..c + 1])
  {
    VisitedStep(cells, w, c);
  }

  lemma VisitedStep(cells: seq<int>, w: seq<int>, c: int)
    requires 0 <= c < |w|
    ensures Visited(cells, w[..c + 1]) == Visited(cells, w[..c]) + Bucket(cells, w[c])
  {
    assert w[..c + 1][..c] == w[..c];
  }

  lemma OfferStep(m: Metric, i: int, n: int, js: seq<int>, j: int)
    ensures Qualifying(m, i, n, js + [j]) == Qualifying(m, i, n, js) + if Offered(m, i, n, j) then [Nbr(m.dsq(i, j), j)] else []
    ensures ClosePairs(m, i, n, js + [j]) == ClosePairs(m, i, n, js) + if Close(m, i, n, j) then {(i, j)} else {}
  {
    assert (js + [j])[..|js|] == js;
  }

  /** The offered list holds exactly the offered visited agents, each with its squared distance. */
  lemma {:induction false} QualifyingMembers(m: Metric, i: int, n: int, js: seq<int>, x: Nbr)
    ensures x in Qualifying(m, i, n, js) <==> x.j in js && Offered(m, i, n, x.j) && x.d == m.dsq(i, x.j)
    decreases |js|
  {
    if |js| > 0 {
      var v := js[..|js| - 1];
      QualifyingMembers(m, i, n, v, x);
      assert js == v + [js[|js| - 1]];
    }
  }

  /** The linked pairs are exactly (i, j) for the close visited agents j. */
  lemma {:induction false} ClosePairsMembers(m: Metric, i: int, n: int, js: seq<int>, a: int, b: int)
    ensures (a, b) in ClosePairs(m, i, n, js) <==> a == i && b in js && Close(m, i, n, b)
    decreases |js|
  {
    if |js| > 0 {
      var v := js[..|js| - 1];
      ClosePairsMembers(m, i, n, v, a, b);
      assert js == v + [js[|js| - 1]];
    }
  }

  /** The pairs of the whole pass: agent a's walk visited b and found it close. */
  lemma {:induction false} WalkPairsMembers(m: Metric, n: int, ws: seq<seq<int>>, a: int, b: int)
    ensures (a, b) in WalkPairs(m, n, ws) <==> 0 <= a < |ws| && b in ws[a] && Close(m, a, n, b)
    decreases |ws|
  {
    if |ws| > 0 {
      var k := |ws| - 1;
      WalkPairsMembers(m, n, ws[..k], a, b);
      ClosePairsMembers(m, k, n, ws[k], a, b);
      if 0 <= a < k {
        assert ws[..k][a] == ws[a];
      }
    }
  }

  lemma WalkPairsStep(m: Metric, n: int, ws: seq<seq<int>>, i: int)
    requires 0 <= i < |ws|
    ensures WalkPairs(m, n, ws[..i + 1]) == WalkPairs(m, n, ws[..i]) + ClosePairs(m, i, n, ws[i])
  {
    assert ws[..i + 1][..i] == ws[..i];
  }

  /** An agent inside the grid examines exactly the other agents whose cell lies in its window. */
  lemma ScannedMembers(cells: seq<int>, back: int, adj: seq<int>, i: int, j: int)
    requires 0 <= i < |cells|
    ensures j in Scanned(cells, back, adj, i) <==>
              cells[i] != GRID_UNDEF && 0 <= j < |cells| && cells[j] in Window(cells[i], back, adj)
  {
    if cells[i] != GRID_UNDEF {
      VisitedMembers(cells, Window(cells[i], back, adj), j);
    }
  }

  /**
   * The offers of agent i are exactly the examined agents of its window
   * that lie within the radius and inside the cone, each with its squared
   * distance; an agent outside the grid is offered nothing.
   */
  lemma OffersMembers(cells: seq<int>, back: int, adj: seq<int>, m: Metric, i: int, x: Nbr)
    requires 0 <= i < |cells|
    ensures x in Offers(cells, back, adj, m, i) <==>
              && cells[i] != GRID_UNDEF && 0 <= x.j < |cells| && cells[x.j] in Window(cells[i], back, adj)
              && Offered(m, i, |cells|, x.j) && x.d == m.dsq(i, x.j)
  {
    QualifyingMembers(m, i, |cells|, Scanned(cells, back, adj, i), x);
    ScannedMembers(cells, back, adj, i, x.j);
  }

  /** The agents of a list of pairs are its agent column. */
  lemma AgentsOfPairs(ds: seq<real>, js: seq<int>)
    requires |ds| == |js|
    ensures Agents(Pairs(ds, js)) == js
  {
  }

  lemma PairsPrefix(ds: seq<real>, js: seq<int>, p: int, q: int)
    requires |ds| == |js| && 0 <= p <= q <= |ds|
    ensures Pairs(ds[..p], js[..p]) == Pairs(ds[..q], js[..q])[..p]
  {
  }

  lemma TopKStep(Q: seq<Nbr>, x: Nbr, K: nat, num: int)
    requires num == Min(|Q|, K)
    ensures TopK(Q + [x], K) == Ins(TopK(Q, K), x)[..Min(num + 1, K)]
  {
    assert (Q + [x])[..|Q|] == Q;
    TopKShape(Q, K);
  }

  /** The nearest candidate is one of the candidates and no other is nearer. */
  lemma {:induction false} LastMinIsMin(Q: seq<Nbr>)
    requires |Q| > 0
    ensures LastMin(Q) in Q
    ensures forall y :: y in Q ==> LastMin(Q).d <= y.d
    decreases |Q|
  {
    if |Q| > 1 {
      var v := Q[..|Q| - 1];
      LastMinIsMin(v);
      assert Q == v + [Q[|Q| - 1]];
    }
  }

  /** The head of the topological list is the nearest candidate, the latest among ties. */
  lemma {:induction false} TopKHead(Q: seq<Nbr>, K: nat)
    requires |Q| > 0 && K > 0
    ensures |TopK(Q, K)| > 0 && TopK(Q, K)[0] == LastMin(Q)
    decreases |Q|
  {
    var v := Q[..|Q| - 1];
    var x := Q[|Q| - 1];
    TopKShape(Q, K);
    TopKShape(v, K);
    var L := TopK(v, K);
    InsAt(L, x);
    if |v| > 0 {
      TopKHead(v, K);
    }
  }

  /** Slot 0 after one more offer is the head of the list with the candidate inserted. */
  lemma SortHeadStep(Q: seq<Nbr>, x: Nbr, K: nat, prev: int)
    ensures SortHead(Q + [x], K, prev) == Ins(TopK(Q, K), x)[0].j
  {
    var Q' := Q + [x];
    assert Q'[..|Q|] == Q;
    TopKShape(Q, K);
    InsAt(TopK(Q, K), x);
    if K > 0 && |Q| > 0 {
      TopKHead(Q, K);
    }
  }

  // ----- lemmas about near_j -----

  /**
   * The intended `near_j` is -1 exactly when no neighbour is kept; otherwise
   * it is the head of the kept list, an offered agent no other offer is
   * nearer than.
   */
  lemma NearestIsNearest(Q: seq<Nbr>, K: nat)
    requires forall k :: 0 <= k < |Q| ==> Q[k].j >= 0
    ensures NearestOrNone(Q, K) == -1 <==> Min(|Q|, K) == 0
    ensures NearestOrNone(Q, K) != -1 ==>
              && TopK(Q, K)[0].j == NearestOrNone(Q, K)
              && exists k :: 0 <= k < |Q| && Q[k].j == NearestOrNone(Q, K) && forall y :: y in Q ==> Q[k].d <= y.d
  {
    TopKShape(Q, K);
    if Min(|Q|, K) > 0 {
      TopKHead(Q, K);
      LastMinIsMin(Q);
    }
  }

  /**
   * What the pass records for agent a: `r_nbrs` counts its offers, `t_nbrs`
   * is the length of its list, which holds the K nearest offers; when the
   * list is not empty `near_j` is an offered agent no other offer is nearer
   * than, and when nothing was offered it is what the previous agent left.
   */
  lemma RecordMeaning(qs: seq<seq<Nbr>>, K: nat, a: int)
    requires 0 <= a < |qs|
    ensures Records(qs, K)[a].rNbrs == |qs[a]| && Records(qs, K)[a].tNbrs == Min(|qs[a]|, K)
    ensures Records(qs, K)[a].topo == Agents(TopK(qs[a], K))
    ensures Records(qs, K)[a].tNbrs > 0 ==>
              Records(qs, K)[a].nearJ == NearestOrNone(qs[a], K) &&
              exists k :: 0 <= k < |qs[a]| && qs[a][k].j == Records(qs, K)[a].nearJ && forall y :: y in qs[a] ==> qs[a][k].d <= y.d
    ensures |qs[a]| == 0 ==> Records(qs, K)[a].nearJ == NearBefore(qs, K, a)
  {
    var Q := qs[a];
    if Min(|Q|, K) > 0 {
      LastMinIsMin(Q);
      var k :| 0 <= k < |Q| && Q[k] == LastMin(Q);
    }
  }

  /**
   * As written, an agent with no neighbour in view inherits the previous
   * agent's nearest neighbour: with K = 1, agent 0 offered agent 1 at
   * distance 1 and agent 1 offered nothing, `near_j` of agent 1 is 1, not -1.
   */
  lemma StaleNear()
    ensures SortHead([], 1, SortHead([Nbr(1.0, 1)], 1, -1)) == 1 && NearestOrNone([], 1) == -1
  {
  }

  /** The stale value is a real agent index whenever an earlier agent kept a neighbour. */
  lemma StaleNearIsAgent(Q: seq<Nbr>, K: nat, prev: int)
    requires |Q| > 0 && forall k :: 0 <= k < |Q| ==> Q[k].j >= 0
    ensures SortHead([], K, SortHead(Q, K, prev)) >= 0
  {
    if K > 0 {
      LastMinIsMin(Q);
    }
  }

  // ----- the walk -----

  /** Every cell of the window of an interior agent lies in the grid. */
  lemma AccelWindowCell(accel: Accel, gc: Int3, c: int)
    requires accel.Valid() && Interior(gc, accel.scanMax) && 0 <= c < accel.adjCnt
    ensures 0 <= Flat(gc, accel.res) - WindowBack(accel.res) + accel.adj[c] < accel.total
  {
    WindowCellInGrid(gc, accel.res, accel.srch, c);
  }

  lemma TakeAll<T>(s: seq<T>)
    ensures s[..|s|] == s
  {
  }

  lemma EdgesStep(m: Metric, i: int, n: int, js: seq<int>, j: int, E0: set<(int, int)>, E1: set<(int, int)>, E2: set<(int, int)>)
    requires E1 == E0 + ClosePairs(m, i, n, js)
    requires E2 == E1 + if Close(m, i, n, j) then {(i, j)} else {}
    ensures E2 == E0 + ClosePairs(m, i, n, js + [j])
  {
    OfferStep(m, i, n, js, j);
  }

  lemma SliceStep(js: seq<int>, S: seq<int>, k: int)
    requires 0 <= k < |S|
    ensures js + S[..k + 1] == js + S[..k] + [S[k]]
  {
    assert S[..k + 1] == S[..k] + [S[k]];
  }

  /** The sort arrays hold the list for the offers Q; slot 0 is as `SortHead` says. */
  ghost predicate SortState(sd: array<real>, sj: array<int>, num: int, Q: seq<Nbr>, K: nat, prev: int)
    reads sd, sj
  {
    && sd.Length == SORT_SLOTS && sj.Length == SORT_SLOTS && K < SORT_SLOTS
    && 0 <= num == Min(|Q|, K)
    && Pairs(sd[..num], sj[..num]) == TopK(Q, K)
    && sj[0] == SortHead(Q, K, prev)
  }

  /** The arrays the walk reads are neither the cluster ids nor the sort array it writes. */
  ghost predicate Separate(grid: Grid, clusters: Clusters, sj: array<int>)
    reads grid
  {
    && clusters.clusterId != grid.grid && clusters.clusterId != grid.gridcnt
    && clusters.clusterId != grid.gridoff && clusters.clusterId != grid.gcell
    && sj != clusters.clusterId
    && sj != grid.grid && sj != grid.gridcnt && sj != grid.gridoff && sj != grid.gcell
  }

  /**
   * The body of the walk for one visited agent j: skip it when out of range
   * or i itself; link it when closer than the cluster threshold; insert it
   * into the list and count it when within the radius and in the cone.
   */
  method VisitCandidate(i: int, j: int, m: Metric, K: nat, sd: array<real>, sj: array<int>,
                        num: int, r: int, clusters: Clusters, ghost js: seq<int>, ghost prev: int)
    returns (num': int, r': int)
    requires clusters.Valid() && 0 <= i < clusters.n && clusters.clusterId[i] != -1 && 0 <= j
    requires SortState(sd, sj, num, Qualifying(m, i, clusters.n, js), K, prev)
    requires r == |Qualifying(m, i, clusters.n, js)|
    requires sj != clusters.clusterId
    modifies sd, sj, clusters, clusters.clusterId
    ensures SortState(sd, sj, num', Qualifying(m, i, clusters.n, js + [j]), K, prev)
    ensures r' == |Qualifying(m, i, clusters.n, js + [j])|
    ensures clusters.Valid() && clusters.clusterId[i] == old(clusters.clusterId[i])
    ensures clusters.edges == old(clusters.edges) + if Close(m, i, clusters.n, j) then {(i, j)} else {}
    ensures Kept(old(clusters.clusterId[..]), clusters.clusterId[..])
  {
    OfferStep(m, i, clusters.n, js, j);
    assert Qualifying(m, i, clusters.n, js) + [] == Qualifying(m, i, clusters.n, js);
    num', r' := num, r;
    if j >= clusters.n || i == j {
      return;
    }
    var d := m.dsq(i, j);
    if d < m.clusterDist2 {
      clusters.Link(i, j);
    }
    if d < m.radius2 && m.inCone(i, j) {
      num' := Offer(sd, sj, num, K, d, j, Qualifying(m, i, clusters.n, js), prev);
      r' := r + 1;
    }
  }

  /** Insert an offered candidate into the sort arrays: the list becomes the list of the offers so far and this one. */
  method Offer(sd: array<real>, sj: array<int>, num: int, K: nat, d: real, j: int, ghost Q: seq<Nbr>, ghost prev: int)
    returns (num': int)
    requires SortState(sd, sj, num, Q, K, prev)
    modifies sd, sj
    ensures SortState(sd, sj, num', Q + [Nbr(d, j)], K, prev)
  {
    num' := InsertNeighbor(sd, sj, num, K, d, j);
    TopKStep(Q, Nbr(d, j), K, num);
    SortHeadStep(Q, Nbr(d, j), K, prev);
    PairsPrefix(sd[..], sj[..], num', num + 1);
    assert Pairs(sd[..num + 1], sj[..num + 1])[0] == Nbr(sd[0], sj[0]);
  }

  /** The walk over the agents `a[first..last]`, in order. */
  method ScanSlice(i: int, a: array<int>, first: int, last: int, m: Metric, K: nat, sd: array<real>, sj: array<int>,
                   num: int, r: int, clusters: Clusters, ghost js: seq<int>, ghost walk: seq<int>, ghost prev: int, ghost E0: set<(int, int)>)
    returns (num': int, r': int)
    requires 0 <= first <= last <= a.Length && |walk| == last - first
    requires forall t :: first <= t < last ==> a[t] == walk[t - first]
    requires a != clusters.clusterId && a != sj && sj != clusters.clusterId
    requires forall k :: 0 <= k < |walk| ==> 0 <= walk[k] < clusters.n
    requires clusters.Valid() && 0 <= i < clusters.n && clusters.clusterId[i] != -1
    requires SortState(sd, sj, num, Qualifying(m, i, clusters.n, js), K, prev)
    requires r == |Qualifying(m, i, clusters.n, js)|
    requires clusters.edges == E0 + ClosePairs(m, i, clusters.n, js)
    modifies sd, sj, clusters, clusters.clusterId
    ensures SortState(sd, sj, num', Qualifying(m, i, clusters.n, js + walk), K, prev)
    ensures r' == |Qualifying(m, i, clusters.n, js + walk)|
    ensures clusters.Valid() && clusters.clusterId[i] == old(clusters.clusterId[i])
    ensures clusters.edges == E0 + ClosePairs(m, i, clusters.n, js + walk)
    ensures Kept(old(clusters.clusterId[..]), clusters.clusterId[..])
  {
    num', r' := num, r;
    var t := 0;
    ghost var seen := js;
    ghost var ids0 := clusters.clusterId[..];
    assert js + walk[..0] == js;
    while t < last - first
      invariant 0 <= t <= last - first && seen == js + walk[..t]
      invariant clusters.Valid() && clusters.clusterId[i] == old(clusters.clusterId[i])
      invariant SortState(sd, sj, num', Qualifying(m, i, clusters.n, seen), K, prev)
      invariant r' == |Qualifying(m, i, clusters.n, seen)|
      invariant clusters.edges == E0 + ClosePairs(m, i, clusters.n, seen)
      invariant Kept(ids0, clusters.clusterId[..])
    {
      var j := a[first + t];
      ghost var ids := clusters.clusterId[..];
      ghost var E1 := clusters.edges;
      num', r' := VisitCandidate(i, j, m, K, sd, sj, num', r', clusters, seen, prev);
      EdgesStep(m, i, clusters.n, seen, j, E0, E1, clusters.edges);
      KeptTrans(ids0, ids, clusters.clusterId[..]);
      SliceStep(js, walk, t);
      seen := seen + [j];
      t := t + 1;
    }
    assert walk[..t] == walk;
  }

  /** The walk over the grid slice of one cell. */
  method ScanCell(i: int, cell: int, grid: Grid, m: Metric, K: nat, sd: array<real>, sj: array<int>,
                  num: int, r: int, clusters: Clusters, ghost cells: seq<int>, ghost js: seq<int>, ghost prev: int, ghost E0: set<(int, int)>)
    returns (num': int, r': int)
    requires grid.Valid() && grid.Bucketed() && 0 <= cell < grid.numCells && cells == grid.gcell[..]
    requires clusters.Valid() && clusters.n == grid.numPoints && Separate(grid, clusters, sj)
    requires 0 <= i < clusters.n && clusters.clusterId[i] != -1
    requires SortState(sd, sj, num, Qualifying(m, i, clusters.n, js), K, prev)
    requires r == |Qualifying(m, i, clusters.n, js)|
    requires clusters.edges == E0 + ClosePairs(m, i, clusters.n, js)
    modifies sd, sj, clusters, clusters.clusterId
    ensures SortState(sd, sj, num', Qualifying(m, i, clusters.n, js + Bucket(cells, cell)), K, prev)
    ensures r' == |Qualifying(m, i, clusters.n, js + Bucket(cells, cell))|
    ensures clusters.Valid() && clusters.clusterId[i] == old(clusters.clusterId[i])
    ensures clusters.edges == E0 + ClosePairs(m, i, clusters.n, js + Bucket(cells, cell))
    ensures Kept(old(clusters.clusterId[..]), clusters.clusterId[..])
  {
    ghost var B := Bucket(cells, cell);
    var first := grid.gridoff[cell];
    var last := first + grid.gridcnt[cell];
    assert grid.grid[first..last] == B;
    forall t | first <= t < last
      ensures grid.grid[t] == B[t - first]
    {
      assert grid.grid[first..last][t - first] == grid.grid[t];
    }
    num', r' := ScanSlice(i, grid.grid, first, last, m, K, sd, sj, num, r, clusters, js, B, prev, E0);
  }

  /**
   * The walk over the cells `gs + adj[c]` of one window, in adjacency-table
   * order; `w` names those cells.
   */
  method ScanWindow(i: int, gs: int, adj: array<int>, cnt: int, grid: Grid, m: Metric, K: nat,
                    sd: array<real>, sj: array<int>, clusters: Clusters, ghost cells: seq<int>, ghost w: seq<int>, ghost prev: int)
    returns (num: int, r: int)
    requires grid.Valid() && grid.Bucketed() && cells == grid.gcell[..]
    requires clusters.Valid() && clusters.n == grid.numPoints && Separate(grid, clusters, sj)
    requires adj != clusters.clusterId && adj != sj
    requires 0 <= cnt <= adj.Length && |w| == cnt
    requires forall c :: 0 <= c < cnt ==> gs + adj[c] == w[c] && 0 <= w[c] < grid.numCells
    requires 0 <= i < clusters.n && clusters.clusterId[i] != -1
    requires SortState(sd, sj, 0, [], K, prev)
    modifies sd, sj, clusters, clusters.clusterId
    ensures SortState(sd, sj, num, Qualifying(m, i, clusters.n, Visited(cells, w)), K, prev)
    ensures r == |Qualifying(m, i, clusters.n, Visited(cells, w))|
    ensures clusters.Valid() && clusters.clusterId[i] == old(clusters.clusterId[i])
    ensures clusters.edges == old(clusters.edges) + ClosePairs(m, i, clusters.n, Visited(cells, w))
    ensures Kept(old(clusters.clusterId[..]), clusters.clusterId[..])
  {
    ghost var E0 := clusters.edges;
    ghost var ids0 := clusters.clusterId[..];
    ghost var seen: seq<int> := [];
    num, r := 0, 0;
    var c := 0;
    while c < cnt
      invariant 0 <= c <= cnt && seen == Visited(cells, w[..c])
      invariant clusters.Valid() && clusters.clusterId[i] == old(clusters.clusterId[i])
      invariant SortState(sd, sj, num, Qualifying(m, i, clusters.n, seen), K, prev)
      invariant r == |Qualifying(m, i, clusters.n, seen)|
      invariant clusters.edges == E0 + ClosePairs(m, i, clusters.n, seen)
      invariant Kept(ids0, clusters.clusterId[..])
    {
      var cell := gs + adj[c];
      VisitedNext(cells, w, c, seen, cell);
      ghost var ids := clusters.clusterId[..];
      num, r := ScanCell(i, cell, grid, m, K, sd, sj, num, r, clusters, cells, seen, prev, E0);
      KeptTrans(ids0, ids, clusters.clusterId[..]);
      seen := seen + Bucket(cells, cell);
      c := c + 1;
    }
    TakeAll(w);
  }

  /** Every cell of the window of every agent inside the grid lies in the grid. */
  ghost predicate WindowsInGrid(cells: seq<int>, back: int, adj: seq<int>, total: int)
  {
    forall i, c :: 0 <= i < |cells| && cells[i] != GRID_UNDEF && 0 <= c < |adj| ==> 0 <= cells[i] - back + adj[c] < total
  }

  /** The windows of the accelerator's adjacency table stay inside the grid. */
  lemma AccelWindows(accel: Accel, coords: seq<Int3>, cells: seq<int>)
    requires accel.Valid() && cells == Cells(coords, accel.res, accel.scanMax)
    ensures WindowsInGrid(cells, WindowBack(accel.res), accel.adj[..accel.adjCnt], accel.total)
  {
    forall i, c | 0 <= i < |cells| && cells[i] != GRID_UNDEF && 0 <= c < accel.adjCnt
      ensures 0 <= cells[i] - WindowBack(accel.res) + accel.adj[c] < accel.total
    {
      assert Interior(coords[i], accel.scanMax) && cells[i] == Flat(coords[i], accel.res);
      AccelWindowCell(accel, coords[i], c);
    }
  }

  /**
   * The search of one agent: open a cluster for it if it has none, clear
   * the list, and, when it is inside the grid, walk the cells of its window
   * in adjacency-table order.
   */
  method SearchAgent(i: int, nadj: int, adj: array<int>, cnt: int, grid: Grid, m: Metric, K: nat,
                     sd: array<real>, sj: array<int>, clusters: Clusters, ghost cells: seq<int>, ghost adjs: seq<int>)
    returns (num: int, r: int)
    requires grid.Valid() && grid.Bucketed() && 0 <= cnt <= adj.Length
    requires cells == grid.gcell[..] && adjs == adj[..cnt]
    requires WindowsInGrid(cells, nadj, adjs, grid.numCells)
    requires clusters.Valid() && clusters.n == grid.numPoints && Separate(grid, clusters, sj)
    requires clusters.clusterId != adj && sj != adj
    requires sd.Length == SORT_SLOTS && sj.Length == SORT_SLOTS && K < SORT_SLOTS
    requires 0 <= i < clusters.n
    modifies sd, sj, clusters, clusters.clusterId
    ensures SortState(sd, sj, num, Offers(cells, nadj, adjs, m, i), K, old(sj[0]))
    ensures r == |Offers(cells, nadj, adjs, m, i)|
    ensures clusters.Valid() && clusters.clusterId[i] != -1
    ensures clusters.edges == old(clusters.edges) + ClosePairs(m, i, clusters.n, Scanned(cells, nadj, adjs, i))
    ensures Kept(old(clusters.clusterId[..]), clusters.clusterId[..])
  {
    ghost var prev := sj[0];
    ghost var ids0 := clusters.clusterId[..];
    if clusters.clusterId[i] == -1 {
      clusters.NewCluster(i);
    }
    assert Kept(ids0, clusters.clusterId[..]);
    var gc := grid.gcell[i];
    if gc != GRID_UNDEF {
      ghost var w := Window(gc, nadj, adjs);
      forall c | 0 <= c < cnt
        ensures gc - nadj + adj[c] == w[c] && 0 <= w[c] < grid.numCells
      {
        assert adjs[c] == adj[c];
      }
      ghost var ids := clusters.clusterId[..];
      num, r := ScanWindow(i, gc - nadj, adj, cnt, grid, m, K, sd, sj, clusters, cells, w, prev);
      KeptTrans(ids0, ids, clusters.clusterId[..]);
    } else {
      num, r := 0, 0;
    }
  }

  /** The search of agent i followed by the recording of its outputs. */
  method SummariseAgent(i: int, nadj: int, adj: array<int>, cnt: int, grid: Grid, m: Metric, K: nat,
                        sd: array<real>, sj: array<int>, clusters: Clusters, ghost cells: seq<int>, ghost adjs: seq<int>)
    returns (s: Summary)
    requires grid.Valid() && grid.Bucketed() && 0 <= cnt <= adj.Length
    requires cells == grid.gcell[..] && adjs == adj[..cnt]
    requires WindowsInGrid(cells, nadj, adjs, grid.numCells)
    requires clusters.Valid() && clusters.n == grid.numPoints && Separate(grid, clusters, sj)
    requires clusters.clusterId != adj && sj != adj
    requires sd.Length == SORT_SLOTS && sj.Length == SORT_SLOTS && K < SORT_SLOTS
    requires 0 <= i < clusters.n
    modifies sd, sj, clusters, clusters.clusterId
    ensures s == Record(Offers(cells, nadj, adjs, m, i), K, old(sj[0]))
    ensures sj[0] == s.nearJ
    ensures clusters.Valid() && clusters.clusterId[i] != -1
    ensures clusters.edges == old(clusters.edges) + ClosePairs(m, i, clusters.n, Scanned(cells, nadj, adjs, i))
    ensures Kept(old(clusters.clusterId[..]), clusters.clusterId[..])
  {
    ghost var Q := Offers(cells, nadj, adjs, m, i);
    var num, r := SearchAgent(i, nadj, adj, cnt, grid, m, K, sd, sj, clusters, cells, adjs);
    AgentsOfPairs(sd[..num], sj[..num]);
    s := Summary(sj[0], num, r, sj[..num]);
  }

  /** The offers, the walk and the record expected of agent a. */
  ghost predicate Expected(cells: seq<int>, nadj: int, adjs: seq<int>, m: Metric, K: nat,
                           qs: seq<seq<Nbr>>, ws: seq<seq<int>>, rs: seq<Summary>, a: int)
  {
    && 0 <= a < |qs| && a < |ws| && a < |rs| && a < |cells|
    && qs[a] == Offers(cells, nadj, adjs, m, a) && ws[a] == Scanned(cells, nadj, adjs, a)
    && rs[a] == Record(qs[a], K, NearBefore(qs, K, a))
  }

  /** One turn of the pass over the agents: search agent i and store its record. */
  method SearchStep(i: int, nadj: int, adj: array<int>, cnt: int, grid: Grid, m: Metric, K: nat,
                    sd: array<real>, sj: array<int>, clusters: Clusters, birds: array<Summary>,
                    ghost cells: seq<int>, ghost adjs: seq<int>, ghost qs: seq<seq<Nbr>>, ghost ws: seq<seq<int>>, ghost rs: seq<Summary>)
    requires grid.Valid() && grid.Bucketed() && 0 <= cnt <= adj.Length
    requires cells == grid.gcell[..] && adjs == adj[..cnt]
    requires WindowsInGrid(cells, nadj, adjs, grid.numCells)
    requires clusters.Valid() && clusters.n == grid.numPoints && Separate(grid, clusters, sj)
    requires clusters.clusterId != adj && sj != adj
    requires sd.Length == SORT_SLOTS && sj.Length == SORT_SLOTS && K < SORT_SLOTS
    requires birds.Length == clusters.n && 0 <= i < clusters.n && |qs| == |ws| == |rs| == clusters.n
    requires Expected(cells, nadj, adjs, m, K, qs, ws, rs, i)
    requires AllAssigned(clusters.clusterId[..], i) && clusters.edges == WalkPairs(m, clusters.n, ws[..i])
    requires birds[..i] == rs[..i] && sj[0] == NearBefore(qs, K, i)
    modifies sd, sj, clusters, clusters.clusterId, birds
    ensures clusters.Valid() && AllAssigned(clusters.clusterId[..], i + 1)
    ensures clusters.edges == WalkPairs(m, clusters.n, ws[..i + 1])
    ensures birds[..i + 1] == rs[..i + 1] && sj[0] == NearBefore(qs, K, i + 1)
  {
    ghost var ids := clusters.clusterId[..];
    var s := SummariseAgent(i, nadj, adj, cnt, grid, m, K, sd, sj, clusters, cells, adjs);
    AssignedStep(ids, clusters.clusterId[..], i);
    WalkPairsStep(m, clusters.n, ws, i);
    assert NearBefore(qs, K, i + 1) == s.nearJ;
    Store(birds, i, s, rs);
  }

  /** Write the record of agent i after those already stored. */
  method Store(birds: array<Summary>, i: int, s: Summary, ghost rs: seq<Summary>)
    requires 0 <= i < birds.Length && i < |rs| && birds[..i] == rs[..i] && s == rs[i]
    modifies birds
    ensures birds[..i + 1] == rs[..i + 1]
  {
    ghost var done := birds[..i];
    birds[i] := s;
    assert birds[..i] == done;
    assert birds[..i + 1] == done + [s];
    assert rs[..i + 1] == rs[..i] + [rs[i]];
  }

  /**
   * The loop of the sequential neighbour pass: search every agent in index
   * order and record its outputs.
   */
  method SearchAll(nadj: int, adj: array<int>, cnt: int, grid: Grid, m: Metric, K: nat, clusters: Clusters,
                   sd: array<real>, sj: array<int>, birds: array<Summary>)
    requires birds.Length == grid.numPoints && sd.Length == SORT_SLOTS && sj.Length == SORT_SLOTS && sj[0] == -1
    requires Separate(grid, clusters, sj) && sj != adj
    requires grid.Valid() && grid.Bucketed() && 0 <= cnt <= adj.Length
    requires WindowsInGrid(grid.gcell[..], nadj, adj[..cnt], grid.numCells)
    requires clusters.Valid() && clusters.n == grid.numPoints && clusters.edges == {}
    requires clusters.clusterId != adj
    requires K < SORT_SLOTS
    modifies clusters, clusters.clusterId, sd, sj, birds
    ensures birds[..] == Records(AllOffers(grid.gcell[..], nadj, adj[..cnt], m), K)
    ensures clusters.Valid() && AllAssigned(clusters.clusterId[..], clusters.n)
    ensures clusters.edges == WalkPairs(m, grid.numPoints, Walks(grid.gcell[..], nadj, adj[..cnt]))
  {
    ghost var cells := grid.gcell[..];
    ghost var adjs := adj[..cnt];
    ghost var ws := Walks(cells, nadj, adjs);
    ghost var qs := AllOffers(cells, nadj, adjs, m);
    ghost var rs := Records(qs, K);
    SearchLoop(nadj, adj, cnt, grid, m, K, clusters, sd, sj, birds, cells, adjs, qs, ws, rs);
  }

  /**
   * The search with its own output array and sort arrays: slot 0 of the
   * sort arrays starts at distance 100000 and agent -1.
   */
  method SearchFresh(nadj: int, adj: array<int>, cnt: int, grid: Grid, m: Metric, K: nat, clusters: Clusters)
    returns (birds: array<Summary>)
    requires grid.Valid() && grid.Bucketed() && 0 <= cnt <= adj.Length
    requires WindowsInGrid(grid.gcell[..], nadj, adj[..cnt], grid.numCells)
    requires clusters.Valid() && clusters.n == grid.numPoints && clusters.edges == {}
    requires clusters.clusterId != grid.grid && clusters.clusterId != grid.gridcnt
    requires clusters.clusterId != grid.gridoff && clusters.clusterId != grid.gcell
    requires clusters.clusterId != adj
    requires K < SORT_SLOTS
    modifies clusters, clusters.clusterId
    ensures birds[..] == Records(AllOffers(grid.gcell[..], nadj, adj[..cnt], m), K)
    ensures clusters.Valid() && AllAssigned(clusters.clusterId[..], clusters.n)
    ensures clusters.edges == WalkPairs(m, grid.numPoints, Walks(grid.gcell[..], nadj, adj[..cnt]))
  {
    birds := new Summary[grid.numPoints](_ => Summary(-1, 0, 0, []));
    var sd := new real[SORT_SLOTS];
    var sj := new int[SORT_SLOTS];
    sd[0] := 100000.0;
    sj[0] := -1;
    SearchAll(nadj, adj, cnt, grid, m, K, clusters, sd, sj, birds);
  }

  /** That loop, given the offers, walks and records of every agent one by one. */
  method SearchLoop(nadj: int, adj: array<int>, cnt: int, grid: Grid, m: Metric, K: nat, clusters: Clusters,
                    sd: array<real>, sj: array<int>, birds: array<Summary>,
                    ghost cells: seq<int>, ghost adjs: seq<int>, ghost qs: seq<seq<Nbr>>, ghost ws: seq<seq<int>>, ghost rs: seq<Summary>)
    requires birds.Length == grid.numPoints && sd.Length == SORT_SLOTS && sj.Length == SORT_SLOTS && sj[0] == -1
    requires Separate(grid, clusters, sj) && sj != adj
    requires grid.Valid() && grid.Bucketed() && 0 <= cnt <= adj.Length
    requires cells == grid.gcell[..] && adjs == adj[..cnt]
    requires WindowsInGrid(cells, nadj, adjs, grid.numCells)
    requires clusters.Valid() && clusters.n == grid.numPoints && clusters.edges == {}
    requires clusters.clusterId != adj
    requires K < SORT_SLOTS
    requires |qs| == |ws| == |rs| == grid.numPoints
    requires forall a :: 0 <= a < grid.numPoints ==> Expected(cells, nadj, adjs, m, K, qs, ws, rs, a)
    modifies clusters, clusters.clusterId, sd, sj, birds
    ensures birds[..] == rs
    ensures clusters.Valid() && AllAssigned(clusters.clusterId[..], clusters.n)
    ensures clusters.edges == WalkPairs(m, grid.numPoints, ws)
  {
    var n := grid.numPoints;
    var i := 0;
    while i < n
      invariant 0 <= i <= n
      invariant clusters.Valid() && AllAssigned(clusters.clusterId[..], i)
      invariant clusters.edges == WalkPairs(m, n, ws[..i])
      invariant birds[..i] == rs[..i]
      invariant sj[0] == NearBefore(qs, K, i)
    {
      SearchStep(i, nadj, adj, cnt, grid, m, K, sd, sj, clusters, birds, cells, adjs, qs, ws, rs);
      i := i + 1;
    }
    assert ws[..i] == ws;
    assert birds[..] == birds[..i];
    assert rs[..i] == rs;
  }

  /**
   * The sequential neighbour pass: clear every cluster, then search every
   * agent in index order and record its outputs. The clusters it leaves are
   * the connected components of the close pairs the walks examine.
   */
  method FindNeighbors(accel: Accel, grid: Grid, m: Metric, K: nat, clusters: Clusters, ghost coords: seq<Int3>)
    returns (birds: array<Summary>)
    requires accel.Valid() && grid.Valid() && grid.Bucketed() && grid.numCells == accel.total
    requires grid.gcell[..] == Cells(coords, accel.res, accel.scanMax)
    requires clusters.n == grid.numPoints && clusters.clusterId.Length == clusters.n
    requires clusters.clusterId != grid.grid && clusters.clusterId != grid.gridcnt
    requires clusters.clusterId != grid.gridoff && clusters.clusterId != grid.gcell
    requires clusters.clusterId != accel.adj
    requires K < SORT_SLOTS
    modifies clusters, clusters.clusterId
    ensures birds[..] == Records(AllOffers(grid.gcell[..], WindowBack(accel.res), accel.adj[..accel.adjCnt], m), K)
    ensures clusters.Valid() && forall a :: 0 <= a < clusters.n ==> clusters.clusterId[a] != -1
    ensures clusters.edges == WalkPairs(m, grid.numPoints, Walks(grid.gcell[..], WindowBack(accel.res), accel.adj[..accel.adjCnt]))
    ensures forall a, b :: 0 <= a < clusters.n && 0 <= b < clusters.n ==>
              (clusters.clusterId[a] == clusters.clusterId[b] <==>
               Connected(WalkPairs(m, grid.numPoints, Walks(grid.gcell[..], WindowBack(accel.res), accel.adj[..accel.adjCnt])), a, b))
  {
    var nadj := (accel.res.z + 1) * accel.res.x + 1;
    assert nadj == WindowBack(accel.res);
    ghost var cells, adjs := grid.gcell[..], accel.adj[..accel.adjCnt];
    AccelWindows(accel, coords, cells);
    clusters.Reset();
    birds := SearchFresh(nadj, accel.adj, accel.adjCnt, grid, m, K, clusters);
    assert grid.gcell[..] == cells && accel.adj[..accel.adjCnt] == adjs;
    ComponentsAll(clusters.clusterId[..], clusters.lists, clusters.edges);
  }
}
