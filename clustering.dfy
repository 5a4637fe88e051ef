/**
 * Proximity clustering by full-list re-tagging: every agent carries a
 * cluster id (-1 when unassigned) and `lists[c]` holds the members of
 * cluster c. A pair of agents found close together puts both in one
 * cluster, joining an unassigned agent or merging two clusters, in which
 * case every member of the absorbed cluster is re-tagged and appended to
 * the surviving list, and the absorbed list is emptied.
 */
module Clustering {

  // ----- connectivity over an undirected set of examined pairs -----

  ghost predicate Adjacent(E: set<(int, int)>, a: int, b: int)
  {
    (a, b) in E || (b, a) in E
  }

  ghost predicate IsPath(E: set<(int, int)>, p: seq<int>)
  {
    forall i :: 0 <= i < |p| - 1 ==> Adjacent(E, p[i], p[i + 1])
  }

  /** a and b are linked by a chain of examined pairs. */
  ghost predicate Connected(E: set<(int, int)>, a: int, b: int)
  {
    exists p :: IsPath(E, p) && |p| >= 1 && p[0] == a && p[|p| - 1] == b
  }

  lemma ConnectedRefl(E: set<(int, int)>, a: int)
    ensures Connected(E, a, a)
  {
    assert IsPath(E, [a]);
  }

  lemma ConnectedEdge(E: set<(int, int)>, a: int, b: int)
    requires Adjacent(E, a, b)
    ensures Connected(E, a, b)
  {
    assert IsPath(E, [a, b]);
  }

  lemma ConnectedSym(E: set<(int, int)>, a: int, b: int)
    requires Connected(E, a, b)
    ensures Connected(E, b, a)
  {
    var p :| IsPath(E, p) && |p| >= 1 && p[0] == a && p[|p| - 1] == b;
    var r := seq(|p|, i requires 0 <= i < |p| => p[|p| - 1 - i]);
    forall i | 0 <= i < |r| - 1
      ensures Adjacent(E, r[i], r[i + 1])
    {
      assert Adjacent(E, p[|p| - 2 - i], p[|p| - 1 - i]);
    }
    assert IsPath(E, r);
  }

  lemma ConnectedTrans(E: set<(int, int)>, a: int, b: int, c: int)
    requires Connected(E, a, b) && Connected(E, b, c)
    ensures Connected(E, a, c)
  {
    var p :| IsPath(E, p) && |p| >= 1 && p[0] == a && p[|p| - 1] == b;
    var q :| IsPath(E, q) && |q| >= 1 && q[0] == b && q[|q| - 1] == c;
    var r := p + q[1..];
    forall i | 0 <= i < |r| - 1
      ensures Adjacent(E, r[i], r[i + 1])
    {
      if i < |p| - 1 {
        assert r[i] == p[i] && r[i + 1] == p[i + 1];
      } else {
        assert r[i] == q[i - |p| + 1] && r[i + 1] == q[i - |p| + 2];
      }
    }
    assert IsPath(E, r);
  }

  lemma ConnectedMono(E: set<(int, int)>, F: set<(int, int)>, a: int, b: int)
    requires E <= F && Connected(E, a, b)
    ensures Connected(F, a, b)
  {
    var p :| IsPath(E, p) && |p| >= 1 && p[0] == a && p[|p| - 1] == b;
    assert IsPath(F, p);
  }

  // ----- the cluster state as values -----

  /** Every id is -1 or names a list. */
  ghost predicate IdsInRange(ids: seq<int>, lists: seq<seq<int>>)
  {
    forall a :: 0 <= a < |ids| ==> -1 <= ids[a] < |lists|
  }

  /** Every member of list c is an agent whose id is c. */
  ghost predicate Tagged(ids: seq<int>, lists: seq<seq<int>>)
  {
    forall c, k :: 0 <= c < |lists| && 0 <= k < |lists[c]| ==> 0 <= lists[c][k] < |ids| && ids[lists[c][k]] == c
  }

  /** No list holds an agent twice. */
  ghost predicate NoDups(lists: seq<seq<int>>)
  {
    forall c, k1, k2 :: 0 <= c < |lists| && 0 <= k1 < k2 < |lists[c]| ==> lists[c][k1] != lists[c][k2]
  }

  /** Every assigned agent is in the list of its id. */
  ghost predicate Listed(ids: seq<int>, lists: seq<seq<int>>)
  {
    forall a :: 0 <= a < |ids| && ids[a] != -1 ==> 0 <= ids[a] < |lists| && a in lists[ids[a]]
  }

  ghost predicate Partition(ids: seq<int>, lists: seq<seq<int>>)
  {
    IdsInRange(ids, lists) && Tagged(ids, lists) && NoDups(lists) && Listed(ids, lists)
  }

  /** Both ends of every examined pair are agents of one cluster. */
  ghost predicate EdgesClosed(ids: seq<int>, E: set<(int, int)>)
  {
    forall e :: e in E ==> 0 <= e.0 < |ids| && 0 <= e.1 < |ids| && ids[e.0] != -1 && ids[e.0] == ids[e.1]
  }

  /** Every member of a cluster is linked to the cluster's first member by examined pairs. */
  ghost predicate Spanning(lists: seq<seq<int>>, E: set<(int, int)>)
  {
    forall c, k :: 0 <= c < |lists| && 0 <= k < |lists[c]| ==> Connected(E, lists[c][0], lists[c][k])
  }

  ghost predicate Inv(ids: seq<int>, lists: seq<seq<int>>, E: set<(int, int)>)
  {
    Partition(ids, lists) && EdgesClosed(ids, E) && Spanning(lists, E)
  }

  /** Ids after cluster `from` is merged into cluster `to`. */
  function Retag(ids: seq<int>, from: int, to: int): (r: seq<int>)
    ensures |r| == |ids|
    ensures forall a :: 0 <= a < |ids| ==> (r[a] == to <==> ids[a] == from || ids[a] == to)
    ensures from != to ==> forall a :: 0 <= a < |ids| ==> r[a] != from
  {
    seq(|ids|, a requires 0 <= a < |ids| => if ids[a] == from then to else ids[a])
  }

  /** An agent of cluster k appears in list k exactly once, and in no other list. */
  lemma {:induction false} ExactlyOnce(ids: seq<int>, lists: seq<seq<int>>, a: int)
    requires Partition(ids, lists) && 0 <= a < |ids|
    ensures forall c :: 0 <= c < |lists| ==> multiset(lists[c])[a] == if ids[a] == c then 1 else 0
  {
    forall c | 0 <= c < |lists|
      ensures multiset(lists[c])[a] == if ids[a] == c then 1 else 0
    {
      if ids[a] == c {
        CountOne(lists[c], a);
      } else {
        assert a !in lists[c];
        assert a !in multiset(lists[c]);
      }
    }
  }

  /** In a sequence without duplicates a member occurs once. */
  lemma {:induction false} CountOne(s: seq<int>, a: int)
    requires a in s
    requires forall k1, k2 :: 0 <= k1 < k2 < |s| ==> s[k1] != s[k2]
    ensures multiset(s)[a] == 1
    decreases |s|
  {
    var n := |s| - 1;
    assert s == s[..n] + [s[n]];
    if s[n] == a {
      assert a !in s[..n];
      assert a !in multiset(s[..n]);
    } else {
      CountOne(s[..n], a);
    }
  }

  /** Agents linked by examined pairs carry one id. */
  lemma {:induction false} PathKeepsId(ids: seq<int>, E: set<(int, int)>, p: seq<int>)
    requires EdgesClosed(ids, E) && IsPath(E, p) && |p| >= 2
    ensures 0 <= p[0] < |ids| && 0 <= p[|p| - 1] < |ids| && ids[p[0]] == ids[p[|p| - 1]]
    decreases |p|
  {
    assert Adjacent(E, p[0], p[1]);
    if |p| > 2 {
      PathKeepsId(ids, E, p[1..]);
    }
  }

  /**
   * The clusters are the connected components of the examined pairs: two
   * assigned agents share an id exactly when a chain of examined pairs
   * links them.
   */
  lemma ComponentsAgree(ids: seq<int>, lists: seq<seq<int>>, E: set<(int, int)>, a: int, b: int)
    requires Inv(ids, lists, E)
    requires 0 <= a < |ids| && 0 <= b < |ids| && ids[a] != -1 && ids[b] != -1
    ensures ids[a] == ids[b] <==> Connected(E, a, b)
  {
    if ids[a] == ids[b] {
      var L := lists[ids[a]];
      var ka :| 0 <= ka < |L| && L[ka] == a;
      var kb :| 0 <= kb < |L| && L[kb] == b;
      ConnectedSym(E, L[0], a);
      ConnectedTrans(E, a, L[0], b);
    }
    if Connected(E, a, b) && a != b {
      var p :| IsPath(E, p) && |p| >= 1 && p[0] == a && p[|p| - 1] == b;
      PathKeepsId(ids, E, p);
    }
  }

  /** Once every agent is assigned, the ids are exactly the components. */
  lemma ComponentsAll(ids: seq<int>, lists: seq<seq<int>>, E: set<(int, int)>)
    requires Inv(ids, lists, E) && forall a :: 0 <= a < |ids| ==> ids[a] != -1
    ensures forall a, b :: 0 <= a < |ids| && 0 <= b < |ids| ==> (ids[a] == ids[b] <==> Connected(E, a, b))
  {
    forall a, b | 0 <= a < |ids| && 0 <= b < |ids|
      ensures ids[a] == ids[b] <==> Connected(E, a, b)
    {
      ComponentsAgree(ids, lists, E, a, b);
    }
  }

  // ----- each step keeps the invariant -----

  lemma NewClusterKeepsInv(ids: seq<int>, lists: seq<seq<int>>, E: set<(int, int)>, i: int)
    requires Inv(ids, lists, E) && 0 <= i < |ids| && ids[i] == -1
    ensures Inv(ids[i := |lists|], lists + [[i]], E)
  {
    var ids', lists' := ids[i := |lists|], lists + [[i]];
    assert Tagged(ids', lists') by {
      forall c, k | 0 <= c < |lists'| && 0 <= k < |lists'[c]|
        ensures 0 <= lists'[c][k] < |ids'| && ids'[lists'[c][k]] == c
      {
        if c < |lists| {
          assert lists'[c] == lists[c];
          assert lists[c][k] != i;
        }
      }
    }
    assert Listed(ids', lists') by {
      forall a | 0 <= a < |ids'| && ids'[a] != -1
        ensures 0 <= ids'[a] < |lists'| && a in lists'[ids'[a]]
      {
        if a != i {
          assert lists'[ids[a]] == lists[ids[a]];
        }
      }
    }
    assert Spanning(lists', E) by {
      forall c, k | 0 <= c < |lists'| && 0 <= k < |lists'[c]|
        ensures Connected(E, lists'[c][0], lists'[c][k])
      {
        if c == |lists| {
          ConnectedRefl(E, i);
        } else {
          assert lists'[c] == lists[c];
        }
      }
    }
  }

  /**
   * Unassigned agent a joins cluster c through the examined pair e, whose
   * other end is already a member of c.
   */
  lemma JoinKeepsInv(ids: seq<int>, lists: seq<seq<int>>, E: set<(int, int)>, a: int, c: int, e: (int, int))
    requires Inv(ids, lists, E) && 0 <= a < |ids| && ids[a] == -1 && 0 <= c < |lists|
    requires (e.0 == a && 0 <= e.1 < |ids| && ids[e.1] == c) || (e.1 == a && 0 <= e.0 < |ids| && ids[e.0] == c)
    ensures Inv(ids[a := c], lists[c := lists[c] + [a]], E + {e})
  {
    var ids', lists', E' := ids[a := c], lists[c := lists[c] + [a]], E + {e};
    var via := if e.0 == a then e.1 else e.0;
    assert via in lists[c];
    assert Tagged(ids', lists') by {
      forall d, k | 0 <= d < |lists'| && 0 <= k < |lists'[d]|
        ensures 0 <= lists'[d][k] < |ids'| && ids'[lists'[d][k]] == d
      {
        if d != c || k < |lists[c]| {
          assert lists'[d][k] == lists[d][k];
          assert lists[d][k] != a;
        }
      }
    }
    assert NoDups(lists') by {
      forall d, k1, k2 | 0 <= d < |lists'| && 0 <= k1 < k2 < |lists'[d]|
        ensures lists'[d][k1] != lists'[d][k2]
      {
        if d == c && k2 == |lists[c]| {
          assert lists[c][k1] != a;
        }
      }
    }
    assert Listed(ids', lists') by {
      forall b | 0 <= b < |ids'| && ids'[b] != -1
        ensures 0 <= ids'[b] < |lists'| && b in lists'[ids'[b]]
      {
        if b != a && ids[b] == c {
          var k :| 0 <= k < |lists[c]| && lists[c][k] == b;
          assert lists'[c][k] == b;
        }
      }
    }
    assert Spanning(lists', E') by {
      forall d, k | 0 <= d < |lists'| && 0 <= k < |lists'[d]|
        ensures Connected(E', lists'[d][0], lists'[d][k])
      {
        if d == c && k == |lists[c]| {
          var kv :| 0 <= kv < |lists[c]| && lists[c][kv] == via;
          ConnectedMono(E, E', lists[c][0], via);
          ConnectedEdge(E', via, a);
          ConnectedTrans(E', lists[c][0], via, a);
        } else {
          assert lists'[d][k] == lists[d][k] && lists'[d][0] == lists[d][0];
          ConnectedMono(E, E', lists[d][0], lists[d][k]);
        }
      }
    }
  }

  /** The lists after cluster `from` is merged into cluster `to`. */
  function MergedLists(lists: seq<seq<int>>, from: int, to: int): (ls: seq<seq<int>>)
    requires 0 <= from < |lists| && 0 <= to < |lists|
    ensures |ls| == |lists|
    ensures forall c :: 0 <= c < |lists| && c != from && c != to ==> ls[c] == lists[c]
    ensures from != to ==> ls[from] == [] && multiset(ls[to]) == multiset(lists[to]) + multiset(lists[from])
  {
    lists[to := lists[to] + lists[from]][from := []]
  }

  ghost predicate MergeStep(ids: seq<int>, lists: seq<seq<int>>, E: set<(int, int)>, from: int, to: int, e: (int, int))
  {
    && Inv(ids, lists, E)
    && 0 <= from < |lists| && 0 <= to < |lists| && from != to
    && 0 <= e.0 < |ids| && 0 <= e.1 < |ids| && ids[e.0] == to && ids[e.1] == from
  }

  lemma MergeKeepsPartition(ids: seq<int>, lists: seq<seq<int>>, E: set<(int, int)>, from: int, to: int, e: (int, int))
    requires MergeStep(ids, lists, E, from, to, e)
    ensures Partition(Retag(ids, from, to), MergedLists(lists, from, to))
  {
    MergeKeepsTagged(ids, lists, E, from, to, e);
    MergeKeepsNoDups(ids, lists, E, from, to, e);
    MergeKeepsListed(ids, lists, E, from, to, e);
  }

  lemma MergeKeepsTagged(ids: seq<int>, lists: seq<seq<int>>, E: set<(int, int)>, from: int, to: int, e: (int, int))
    requires MergeStep(ids, lists, E, from, to, e)
    ensures Tagged(Retag(ids, from, to), MergedLists(lists, from, to))
  {
    var ids', lists' := Retag(ids, from, to), MergedLists(lists, from, to);
    var nt := |lists[to]|;
    forall d, k | 0 <= d < |lists'| && 0 <= k < |lists'[d]|
      ensures 0 <= lists'[d][k] < |ids'| && ids'[lists'[d][k]] == d
    {
      if d == to && k >= nt {
        assert lists'[d][k] == lists[from][k - nt];
      } else {
        assert lists'[d][k] == lists[d][k];
      }
    }
  }

  lemma MergeKeepsNoDups(ids: seq<int>, lists: seq<seq<int>>, E: set<(int, int)>, from: int, to: int, e: (int, int))
    requires MergeStep(ids, lists, E, from, to, e)
    ensures NoDups(MergedLists(lists, from, to))
  {
    var ids', lists' := Retag(ids, from, to), MergedLists(lists, from, to);
    var nt := |lists[to]|;
    forall d, k1, k2 | 0 <= d < |lists'| && 0 <= k1 < k2 < |lists'[d]|
      ensures lists'[d][k1] != lists'[d][k2]
    {
      if d == to {
        if k2 < nt {
        } else if k1 >= nt {
          assert lists'[d][k1] == lists[from][k1 - nt] && lists'[d][k2] == lists[from][k2 - nt];
        } else {
          assert lists'[d][k2] == lists[from][k2 - nt];
          assert ids[lists[to][k1]] == to && ids[lists[from][k2 - nt]] == from;
        }
      }
    }
  }

  lemma MergeKeepsListed(ids: seq<int>, lists: seq<seq<int>>, E: set<(int, int)>, from: int, to: int, e: (int, int))
    requires MergeStep(ids, lists, E, from, to, e)
    ensures Listed(Retag(ids, from, to), MergedLists(lists, from, to))
  {
    var ids', lists' := Retag(ids, from, to), MergedLists(lists, from, to);
    var nt := |lists[to]|;
    forall b | 0 <= b < |ids'| && ids'[b] != -1
      ensures 0 <= ids'[b] < |lists'| && b in lists'[ids'[b]]
    {
      if ids[b] == from || ids[b] == to {
        var c := ids[b];
        var k :| 0 <= k < |lists[c]| && lists[c][k] == b;
        if c == from {
          assert lists'[to][nt + k] == b;
        } else {
          assert lists'[to][k] == b;
        }
      }
    }
  }

  /** Tagging exactly the members of list `from` with `to` is `Retag`. */
  lemma RetagByMembers(ids: seq<int>, lists: seq<seq<int>>, from: int, to: int, ids': seq<int>)
    requires Partition(ids, lists) && 0 <= from < |lists| && |ids'| == |ids|
    requires forall a :: 0 <= a < |ids| ==> ids'[a] == if a in lists[from] then to else ids[a]
    ensures ids' == Retag(ids, from, to)
  {
    forall a | 0 <= a < |ids|
      ensures ids'[a] == Retag(ids, from, to)[a]
    {
      if ids[a] == from {
        assert a in lists[from];
      }
    }
  }

  lemma MergeKeepsLinks(ids: seq<int>, lists: seq<seq<int>>, E: set<(int, int)>, from: int, to: int, e: (int, int))
    requires MergeStep(ids, lists, E, from, to, e)
    ensures EdgesClosed(Retag(ids, from, to), E + {e})
    ensures Spanning(MergedLists(lists, from, to), E + {e})
  {
    var lists', E' := MergedLists(lists, from, to), E + {e};
    var nt := |lists[to]|;
    // the merged pair links the two clusters' first members
    var kt :| 0 <= kt < |lists[to]| && lists[to][kt] == e.0;
    var kf :| 0 <= kf < |lists[from]| && lists[from][kf] == e.1;
    var ht, hf := lists[to][0], lists[from][0];
    ConnectedMono(E, E', ht, e.0);
    ConnectedEdge(E', e.0, e.1);
    ConnectedMono(E, E', hf, e.1);
    ConnectedSym(E', hf, e.1);
    ConnectedTrans(E', ht, e.0, e.1);
    ConnectedTrans(E', ht, e.1, hf);
    forall d, k | 0 <= d < |lists'| && 0 <= k < |lists'[d]|
      ensures Connected(E', lists'[d][0], lists'[d][k])
    {
      if d == to && k >= nt {
        assert lists'[d][k] == lists[from][k - nt] && lists'[d][0] == ht;
        ConnectedMono(E, E', hf, lists[from][k - nt]);
        ConnectedTrans(E', ht, hf, lists[from][k - nt]);
      } else {
        assert lists'[d][k] == lists[d][k] && lists'[d][0] == lists[d][0];
        ConnectedMono(E, E', lists[d][0], lists[d][k]);
      }
    }
  }

  // ----- assignments that stay -----

  /** Every agent assigned in `before` is still assigned in `after`. */
  ghost predicate Kept(before: seq<int>, after: seq<int>)
  {
    |before| == |after| && forall b :: 0 <= b < |before| && before[b] != -1 ==> after[b] != -1
  }

  lemma KeptTrans(x: seq<int>, y: seq<int>, z: seq<int>)
    requires Kept(x, y) && Kept(y, z)
    ensures Kept(x, z)
  {
  }

  lemma UpdateKept(ids: seq<int>, a: int, v: int)
    requires 0 <= a < |ids| && v != -1
    ensures Kept(ids, ids[a := v])
  {
  }

  lemma RetagKept(ids: seq<int>, from: int, to: int)
    requires to != -1
    ensures Kept(ids, Retag(ids, from, to))
  {
  }

  /** The first i agents all have a cluster. */
  ghost predicate AllAssigned(ids: seq<int>, i: int)
  {
    0 <= i <= |ids| && forall a :: 0 <= a < i ==> ids[a] != -1
  }

  lemma AssignedStep(before: seq<int>, after: seq<int>, i: int)
    requires AllAssigned(before, i) && Kept(before, after) && i < |after| && after[i] != -1
    ensures AllAssigned(after, i + 1)
  {
  }

  // ----- the cluster state in place -----

  /**
   * `cluster_id` of every agent, `cluster_assignment` and `max_cluster_id`;
   * `edges` records, for the proof only, the pairs examined so far.
   */
  class Clusters {
    const n: nat
    const clusterId: array<int>
    var lists: seq<seq<int>>
    var maxClusterId: int
    ghost var edges: set<(int, int)>

    ghost predicate Valid()
      reads this, clusterId
    {
      clusterId.Length == n && maxClusterId + 1 == |lists| && Inv(clusterId[..], lists, edges)
    }

    constructor (n: nat)
      ensures Valid() && this.n == n && lists == [] && edges == {}
      ensures forall a :: 0 <= a < n ==> clusterId[a] == -1
      ensures fresh(clusterId)
    {
      this.n := n;
      clusterId := new int[n](_ => -1);
      lists := [];
      maxClusterId := -1;
      edges := {};
    }

    /** `max_cluster_id = -1`, clear the lists, then every agent unassigned. */
    method Reset()
      requires clusterId.Length == n
      modifies this, clusterId
      ensures Valid() && maxClusterId == -1 && lists == [] && edges == {}
      ensures forall a :: 0 <= a < n ==> clusterId[a] == -1
    {
      maxClusterId := -1;
      lists := [];
      edges := {};
      var i := 0;
      while i < n
        invariant 0 <= i <= n
        invariant forall a :: 0 <= a < i ==> clusterId[a] == -1
        invariant maxClusterId == -1 && lists == [] && edges == {}
      {
        clusterId[i] := -1;
        i := i + 1;
      }
    }

    /** An unassigned agent opens a new cluster holding only itself. */
    method NewCluster(i: int)
      requires Valid() && 0 <= i < n && clusterId[i] == -1
      modifies this, clusterId
      ensures Valid() && edges == old(edges)
      ensures maxClusterId == old(maxClusterId) + 1
      ensures clusterId[..] == old(clusterId[..])[i := maxClusterId]
      ensures lists == old(lists) + [[i]]
    {
      NewClusterKeepsInv(clusterId[..], lists, edges, i);
      maxClusterId := maxClusterId + 1;
      clusterId[i] := maxClusterId;
      lists := lists + [[i]];
    }

    /** An unassigned agent a joins cluster c through the examined pair e. */
    method Join(a: int, c: int, ghost e: (int, int))
      requires Valid() && 0 <= a < n && clusterId[a] == -1 && 0 <= c < |lists|
      requires (e.0 == a && 0 <= e.1 < n && clusterId[e.1] == c) || (e.1 == a && 0 <= e.0 < n && clusterId[e.0] == c)
      modifies this, clusterId
      ensures Valid() && edges == old(edges) + {e} && maxClusterId == old(maxClusterId)
      ensures clusterId[..] == old(clusterId[..])[a := c]
      ensures lists == old(lists)[c := old(lists)[c] + [a]]
    {
      JoinKeepsInv(clusterId[..], lists, edges, a, c, e);
      clusterId[a] := c;
      lists := lists[c := lists[c] + [a]];
      edges := edges + {e};
    }

    /** Append the agents of `src` to list `to`, tagging each with `to`. */
    method MoveMembers(src: seq<int>, to: int)
      requires clusterId.Length == n && 0 <= to < |lists|
      requires forall k :: 0 <= k < |src| ==> 0 <= src[k] < n
      modifies this, clusterId
      ensures lists == old(lists)[to := old(lists)[to] + src]
      ensures |clusterId[..]| == n
      ensures forall a :: 0 <= a < n ==> clusterId[..][a] == if a in src then to else old(clusterId[..])[a]
      ensures maxClusterId == old(maxClusterId) && edges == old(edges)
    {
      var k := 0;
      assert lists[to] + src[..0] == lists[to];
      while k < |src|
        invariant 0 <= k <= |src|
        invariant lists == old(lists)[to := old(lists)[to] + src[..k]]
        invariant forall a :: 0 <= a < n ==> clusterId[a] == if a in src[..k] then to else old(clusterId[a])
        invariant maxClusterId == old(maxClusterId) && edges == old(edges)
      {
        var kk := src[k];
        clusterId[kk] := to;
        assert src[..k + 1] == src[..k] + [kk];
        assert lists[to] + [kk] == old(lists)[to] + src[..k + 1];
        lists := lists[to := lists[to] + [kk]];
        k := k + 1;
      }
      assert src[..k] == src;
      assert forall a :: 0 <= a < n ==> clusterId[..][a] == clusterId[a];
    }

    /**
     * Merge cluster `from` into cluster `to`, the pair e linking them: every
     * member of `from` is re-tagged and appended to `to`, then `from` is
     * emptied.
     */
    method Merge(from: int, to: int, ghost e: (int, int))
      requires Valid() && MergeStep(clusterId[..], lists, edges, from, to, e)
      modifies this, clusterId
      ensures Valid() && edges == old(edges) + {e} && maxClusterId == old(maxClusterId)
      ensures clusterId[..] == Retag(old(clusterId[..]), from, to)
      ensures lists == MergedLists(old(lists), from, to)
    {
      ghost var ids0, lists0 := clusterId[..], lists;
      MergeKeepsPartition(ids0, lists0, edges, from, to, e);
      MergeKeepsLinks(ids0, lists0, edges, from, to, e);
      MoveMembers(lists[from], to);
      lists := lists[from := []];
      edges := edges + {e};
      RetagByMembers(ids0, lists0, from, to, clusterId[..]);
      assert lists == MergedLists(lists0, from, to);
    }

    /**
     * The pair step shared by both clustering passes, for agent i (already
     * assigned) and a close agent j: an unassigned j joins i's cluster; a j
     * in another cluster has that cluster merged into i's.
     */
    method Link(i: int, j: int)
      requires Valid() && 0 <= i < n && 0 <= j < n && clusterId[i] != -1
      modifies this, clusterId
      ensures Valid() && edges == old(edges) + {(i, j)} && maxClusterId == old(maxClusterId)
      ensures clusterId[i] == old(clusterId[i]) && clusterId[j] == clusterId[i]
      ensures Kept(old(clusterId[..]), clusterId[..])
      ensures old(clusterId[j]) == -1 ==>
                clusterId[..] == old(clusterId[..])[j := old(clusterId[i])] &&
                lists == old(lists)[old(clusterId[i]) := old(lists)[old(clusterId[i])] + [j]]
      ensures old(clusterId[j]) != -1 && old(clusterId[j]) != old(clusterId[i]) ==>
                clusterId[..] == Retag(old(clusterId[..]), old(clusterId[j]), old(clusterId[i])) &&
                lists == MergedLists(old(lists), old(clusterId[j]), old(clusterId[i]))
      ensures old(clusterId[j]) == old(clusterId[i]) ==> clusterId[..] == old(clusterId[..]) && lists == old(lists)
    {
      ghost var ids0 := clusterId[..];
      if clusterId[j] == -1 {
        Join(j, clusterId[i], (i, j));
        UpdateKept(ids0, j, clusterId[i]);
      }
      ghost var ids1 := clusterId[..];
      if clusterId[j] != clusterId[i] {
        Merge(clusterId[j], clusterId[i], (i, j));
        RetagKept(ids1, ids1[j], ids1[i]);
        KeptTrans(ids0, ids1, clusterId[..]);
      } else {
        RecordPair(i, j);
      }
    }

    /** Record a pair whose two agents already share a cluster. */
    ghost method RecordPair(i: int, j: int)
      requires Valid() && 0 <= i < n && 0 <= j < n && clusterId[i] != -1 && clusterId[i] == clusterId[j]
      modifies this
      ensures Valid() && edges == old(edges) + {(i, j)}
    {
      ghost var E' := edges + {(i, j)};
      forall c, k | 0 <= c < |lists| && 0 <= k < |lists[c]|
        ensures Connected(E', lists[c][0], lists[c][k])
      {
        ConnectedMono(edges, E', lists[c][0], lists[c][k]);
      }
      edges := E';
    }

    /**
     * Smallest cluster id among the assigned neighbours in `nbrs`, or -1 if
     * none is assigned; `via` is a neighbour carrying it.
     */
    method MinNeighbourCluster(nbrs: seq<int>) returns (m: int, ghost via: int)
      requires Valid() && forall l :: 0 <= l < |nbrs| ==> 0 <= nbrs[l] < n
      ensures m == -1 <==> forall l :: 0 <= l < |nbrs| ==> clusterId[nbrs[l]] == -1
      ensures m != -1 ==> via in nbrs && clusterId[via] == m
      ensures forall l :: 0 <= l < |nbrs| && clusterId[nbrs[l]] != -1 ==> m <= clusterId[nbrs[l]]
    {
      m := -1;
      via := -1;
      var l := 0;
      while l < |nbrs|
        invariant 0 <= l <= |nbrs|
        invariant m == -1 <==> forall p :: 0 <= p < l ==> clusterId[nbrs[p]] == -1
        invariant m != -1 ==> via in nbrs && clusterId[via] == m
        invariant forall p :: 0 <= p < l && clusterId[nbrs[p]] != -1 ==> m <= clusterId[nbrs[p]]
      {
        var j := nbrs[l];
        if clusterId[j] != -1 && (clusterId[j] < m || m == -1) {
          m := clusterId[j];
          via := j;
        }
        l := l + 1;
      }
    }

    /** Link agent i with every agent of `js`, in order. */
    method LinkAll(i: int, js: seq<int>)
      requires Valid() && 0 <= i < n && clusterId[i] != -1
      requires forall l :: 0 <= l < |js| ==> 0 <= js[l] < n
      modifies this, clusterId
      ensures Valid() && edges == old(edges) + PairsFrom(i, js) && maxClusterId == old(maxClusterId)
      ensures clusterId[i] == old(clusterId[i])
      ensures Kept(old(clusterId[..]), clusterId[..])
    {
      ghost var ids0 := clusterId[..];
      var l := 0;
      while l < |js|
        invariant 0 <= l <= |js|
        invariant Valid() && clusterId[i] == old(clusterId[i]) && maxClusterId == old(maxClusterId)
        invariant Kept(ids0, clusterId[..])
        invariant edges == old(edges) + PairsFrom(i, js[..l])
      {
        ghost var ids := clusterId[..];
        LinkStep(i, js, l, old(edges));
        KeptTrans(ids0, ids, clusterId[..]);
        l := l + 1;
      }
      assert js[..l] == js;
    }

    /** One turn of that loop: agent i is linked with js[l]. */
    method LinkStep(i: int, js: seq<int>, l: int, ghost E0: set<(int, int)>)
      requires Valid() && 0 <= i < n && clusterId[i] != -1 && 0 <= l < |js| && 0 <= js[l] < n
      requires edges == E0 + PairsFrom(i, js[..l])
      modifies this, clusterId
      ensures Valid() && edges == E0 + PairsFrom(i, js[..l + 1]) && maxClusterId == old(maxClusterId)
      ensures clusterId[i] == old(clusterId[i])
      ensures Kept(old(clusterId[..]), clusterId[..])
    {
      Link(i, js[l]);
      PairsFromStep(i, js, l);
    }

    /**
     * An unassigned agent takes the smallest cluster among its assigned
     * neighbours, recording the pair with that neighbour, or starts a new
     * cluster when none of them is assigned.
     */
    method SeedAgent(i: int, js: seq<int>)
      requires Valid() && 0 <= i < n
      requires forall l :: 0 <= l < |js| ==> 0 <= js[l] < n
      modifies this, clusterId
      ensures Valid() && clusterId[i] != -1
      ensures clusterId[..] == old(clusterId[..])[i := clusterId[i]]
      ensures old(clusterId[i]) != -1 ==> clusterId[i] == old(clusterId[i])
      ensures old(edges) <= edges <= old(edges) + PairsFrom(i, js)
      ensures old(clusterId[i]) != -1 ==> lists == old(lists) && maxClusterId == old(maxClusterId)
      ensures old(clusterId[i]) == -1 && (forall l :: 0 <= l < |js| ==> old(clusterId[js[l]]) == -1) ==>
                clusterId[i] == old(maxClusterId) + 1 && maxClusterId == clusterId[i] && lists == old(lists) + [[i]]
      ensures old(clusterId[i]) == -1 && (exists l :: 0 <= l < |js| && old(clusterId[js[l]]) != -1) ==>
                maxClusterId == old(maxClusterId) &&
                (exists l :: 0 <= l < |js| && old(clusterId[js[l]]) == clusterId[i]) &&
                (forall l :: 0 <= l < |js| && old(clusterId[js[l]]) != -1 ==> clusterId[i] <= old(clusterId[js[l]])) &&
                lists == old(lists)[clusterId[i] := old(lists)[clusterId[i]] + [i]]
    {
      if clusterId[i] == -1 {
        var m, via := MinNeighbourCluster(js);
        if m == -1 {
          NewCluster(i);
        } else {
          Join(i, m, (i, via));
          PairsFromMembers(i, js, i, via);
        }
      }
    }

    /**
     * One step of `AssignClusters`: an unassigned agent takes the smallest
     * cluster among its assigned neighbours (or a new cluster), then it is
     * linked with every agent in its neighbour list.
     */
    method AssignAgent(nbrs: seq<seq<int>>, i: int)
      requires Valid() && 0 <= i < n && |nbrs| == n
      requires forall l :: 0 <= l < |nbrs[i]| ==> 0 <= nbrs[i][l] < n
      modifies this, clusterId
      ensures Valid() && clusterId[i] != -1
      ensures Kept(old(clusterId[..]), clusterId[..])
      ensures edges == old(edges) + PairsFrom(i, nbrs[i])
    {
      ghost var ids0 := clusterId[..];
      SeedAgent(i, nbrs[i]);
      UpdateKept(ids0, i, clusterId[i]);
      ghost var ids1 := clusterId[..];
      LinkAll(i, nbrs[i]);
      KeptTrans(ids0, ids1, clusterId[..]);
    }

    /** The loop of AssignClusters: every agent in index order gets a cluster and joins its neighbours'. */
    method AssignAll(nbrs: seq<seq<int>>)
      requires Valid() && |nbrs| == n && edges == {}
      requires ListsInRange(nbrs, n)
      modifies this, clusterId
      ensures Valid() && AllAssigned(clusterId[..], n) && edges == NbrPairs(nbrs, n)
    {
      var i := 0;
      while i < n
        invariant 0 <= i <= n
        invariant Valid() && AllAssigned(clusterId[..], i)
        invariant edges == NbrPairs(nbrs, i)
      {
        AssignStep(nbrs, i);
        i := i + 1;
      }
    }

    /** One turn of that loop: agent i joins, and its pairs are examined. */
    method AssignStep(nbrs: seq<seq<int>>, i: int)
      requires Valid() && 0 <= i < n && |nbrs| == n && ListsInRange(nbrs, n)
      requires AllAssigned(clusterId[..], i) && edges == NbrPairs(nbrs, i)
      modifies this, clusterId
      ensures Valid() && AllAssigned(clusterId[..], i + 1) && edges == NbrPairs(nbrs, i + 1)
    {
      ghost var ids := clusterId[..];
      AssignAgent(nbrs, i);
      AssignedStep(ids, clusterId[..], i);
    }

    /**
     * `AssignClusters`: only on the GPU configuration; reset every
     * assignment, stop if clustering is switched off, otherwise give each
     * unassigned agent the smallest cluster among its assigned neighbours
     * (or a new cluster), then link it with every agent in its neighbour
     * list. The clusters end as the connected components of the
     * neighbour-list pairs.
     */
    method AssignClusters(nbrs: seq<seq<int>>, gpu: bool, calculate: bool)
      requires Valid() && |nbrs| == n
      requires ListsInRange(nbrs, n)
      modifies this, clusterId
      ensures Valid()
      ensures !gpu ==> clusterId[..] == old(clusterId[..]) && lists == old(lists) && maxClusterId == old(maxClusterId)
      ensures gpu && !calculate ==> maxClusterId == -1 && lists == [] && forall a :: 0 <= a < n ==> clusterId[a] == -1
      ensures gpu && calculate ==> edges == NbrPairs(nbrs, n) && forall a :: 0 <= a < n ==> clusterId[a] != -1
      ensures gpu && calculate ==>
                forall a, b :: 0 <= a < n && 0 <= b < n ==> (clusterId[a] == clusterId[b] <==> Connected(NbrPairs(nbrs, n), a, b))
    {
      if !gpu {
        return;
      }
      Reset();
      if !calculate {
        return;
      }
      AssignAll(nbrs);
      ghost var ids := clusterId[..];
      ComponentsAll(ids, lists, edges);
    }
  }

  /** Every neighbour list names agents below n. */
  ghost predicate ListsInRange(nbrs: seq<seq<int>>, n: int)
  {
    forall a, l :: 0 <= a < |nbrs| && 0 <= l < |nbrs[a]| ==> 0 <= nbrs[a][l] < n
  }

  /** The pairs (a, b) with b in the neighbour list of some agent a < i. */
  ghost function NbrPairs(nbrs: seq<seq<int>>, i: nat): set<(int, int)>
    requires i <= |nbrs|
  {
    if i == 0 then {} else NbrPairs(nbrs, i - 1) + PairsFrom(i - 1, nbrs[i - 1])
  }

  /** The pairs (a, b) with b in the list s, added in list order. */
  ghost function PairsFrom(a: int, s: seq<int>): set<(int, int)>
  {
    if s == [] then {} else PairsFrom(a, s[..|s| - 1]) + {(a, s[|s| - 1])}
  }

  lemma PairsFromStep(a: int, js: seq<int>, l: int)
    requires 0 <= l < |js|
    ensures PairsFrom(a, js[..l + 1]) == PairsFrom(a, js[..l]) + {(a, js[l])}
  {
    assert js[..l + 1][..l] == js[..l];
  }

  /** `PairsFrom` holds exactly the pairs from a to a member of the list. */
  lemma {:induction false} PairsFromMembers(a: int, s: seq<int>, x: int, y: int)
    ensures (x, y) in PairsFrom(a, s) <==> x == a && y in s
    decreases |s|
  {
    if s != [] {
      PairsFromMembers(a, s[..|s| - 1], x, y);
      assert s == s[..|s| - 1] + [s[|s| - 1]];
    }
  }

  /** `NbrPairs` holds exactly the pairs (a, b) with b listed by an agent a < i. */
  lemma {:induction false} NbrPairsMembers(nbrs: seq<seq<int>>, i: nat, x: int, y: int)
    requires i <= |nbrs|
    ensures (x, y) in NbrPairs(nbrs, i) <==> 0 <= x < i && y in nbrs[x]
  {
    if i > 0 {
      NbrPairsMembers(nbrs, i - 1, x, y);
      PairsFromMembers(i - 1, nbrs[i - 1], x, y);
    }
  }
}
