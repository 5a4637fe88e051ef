/**
 * Ranking the clusters by size: one histogram entry per cluster list
 * (merged-away lists included, with count 0), the histogram sorted into
 * non-increasing member count, and the inverse lookup from a cluster id to
 * its rank.
 */
module Ranking {

  /** One histogram entry: a cluster id and its member count. */
  datatype Entry = Entry(clusterId: int, birdCnt: int)

  /** The histogram before sorting: entry c counts list c. */
  function Histogram(lists: seq<seq<int>>): (h: seq<Entry>)
    ensures |h| == |lists|
  {
    seq(|lists|, c requires 0 <= c < |lists| => Entry(c, |lists[c]|))
  }

  ghost predicate NonIncreasing(h: seq<Entry>)
  {
    forall p, q :: 0 <= p < q < |h| ==> h[p].birdCnt >= h[q].birdCnt
  }

  // ----- the sort, on values -----

  /** x placed before the first entry that does not count more than x. */
  function Insert(x: Entry, s: seq<Entry>): (r: seq<Entry>)
    ensures |r| == |s| + 1
  {
    if s == [] || s[0].birdCnt <= x.birdCnt then [x] + s else [s[0]] + Insert(x, s[1..])
  }

  /** Insertion sort into non-increasing count. */
  function SortDesc(h: seq<Entry>): (r: seq<Entry>)
    ensures |r| == |h|
  {
    if h == [] then [] else Insert(h[0], SortDesc(h[1..]))
  }

  /** Insertion keeps the order and adds exactly x. */
  lemma {:induction false} InsertSorted(x: Entry, s: seq<Entry>)
    requires NonIncreasing(s)
    ensures NonIncreasing(Insert(x, s))
    ensures multiset(Insert(x, s)) == multiset(s) + multiset{x}
  {
    if s == [] || s[0].birdCnt <= x.birdCnt {
      PrependSorted(x, s);
    } else {
      var t := s[1..];
      InsertSorted(x, t);
      var r := Insert(x, t);
      // the head of r is x or the head of t, neither counting more than s[0]
      assert r[0] == if t == [] || t[0].birdCnt <= x.birdCnt then x else t[0];
      PrependSorted(s[0], r);
      assert s == [s[0]] + t;
    }
  }

  /** An entry counting no less than the head of a sorted list can go in front. */
  lemma PrependSorted(a: Entry, r: seq<Entry>)
    requires NonIncreasing(r) && (r != [] ==> a.birdCnt >= r[0].birdCnt)
    ensures NonIncreasing([a] + r)
  {
    var u := [a] + r;
    forall p, q | 0 <= p < q < |u|
      ensures u[p].birdCnt >= u[q].birdCnt
    {
      if p == 0 {
        assert u[q] == r[q - 1];
      } else {
        assert u[p] == r[p - 1] && u[q] == r[q - 1];
      }
    }
  }

  /** The sorted histogram is non-increasing and holds the same entries. */
  lemma {:induction false} SortDescCorrect(h: seq<Entry>)
    ensures NonIncreasing(SortDesc(h))
    ensures multiset(SortDesc(h)) == multiset(h)
    decreases |h|
  {
    if h != [] {
      SortDescCorrect(h[1..]);
      InsertSorted(h[0], SortDesc(h[1..]));
      assert h == [h[0]] + h[1..];
    }
  }

  // ----- the histogram's ids -----

  /** Any histogram holding the unsorted entries lists each cluster id once, with its count. */
  lemma HistogramIds(lists: seq<seq<int>>, h: seq<Entry>)
    requires multiset(h) == multiset(Histogram(lists))
    ensures |h| == |lists|
    ensures forall k :: 0 <= k < |h| ==> 0 <= h[k].clusterId < |h| && h[k].birdCnt == |lists[h[k].clusterId]|
    ensures forall p, q :: 0 <= p < q < |h| ==> h[p].clusterId != h[q].clusterId
    ensures forall c :: 0 <= c < |lists| ==> Histogram(lists)[c] in h
  {
    var H := Histogram(lists);
    assert |h| == |multiset(h)| == |multiset(H)| == |H|;
    forall k | 0 <= k < |h|
      ensures 0 <= h[k].clusterId < |h| && h[k] == H[h[k].clusterId]
    {
      assert h[k] in multiset(H);
    }
    forall p, q | 0 <= p < q < |h|
      ensures h[p].clusterId != h[q].clusterId
    {
      if h[p].clusterId == h[q].clusterId {
        var e := h[p];
        TwiceCounted(h, p, q);
        HistogramOnce(lists, e.clusterId);
      }
    }
    forall c | 0 <= c < |lists|
      ensures H[c] in h
    {
      assert H[c] in multiset(h);
    }
  }

  /** An entry at two positions is counted at least twice. */
  lemma TwiceCounted(h: seq<Entry>, p: int, q: int)
    requires 0 <= p < q < |h| && h[p] == h[q]
    ensures multiset(h)[h[p]] >= 2
  {
    assert h == h[..q] + h[q..];
    assert h[p] in h[..q];
    assert h[q] == h[q..][0];
  }

  /** The unsorted histogram holds each of its entries once. */
  lemma HistogramOnce(lists: seq<seq<int>>, c: int)
    requires 0 <= c < |lists|
    ensures multiset(Histogram(lists))[Histogram(lists)[c]] == 1
  {
    var H := Histogram(lists);
    assert H == H[..c] + [H[c]] + H[c + 1..];
    assert H[c] !in H[..c];
    assert H[c] !in H[c + 1..];
  }

  // ----- the histogram in place -----

  /** Fill the histogram: entry c gets id c and the size of list c. */
  method BuildHistogram(lists: seq<seq<int>>) returns (h: array<Entry>)
    ensures fresh(h) && h[..] == Histogram(lists)
  {
    h := new Entry[|lists|](c => Entry(0, 0));
    var i := 0;
    while i < |lists|
      invariant 0 <= i <= |lists| && h.Length == |lists|
      invariant forall c :: 0 <= c < i ==> h[c] == Entry(c, |lists[c]|)
    {
      h[i] := Entry(i, |lists[i]|);
      i := i + 1;
    }
    assert h[..] == Histogram(lists);
  }

  /** Sort the histogram into non-increasing count, in place. */
  method SortHistogram(h: array<Entry>)
    modifies h
    ensures h[..] == SortDesc(old(h[..]))
  {
    var s := SortDesc(h[..]);
    forall k | 0 <= k < h.Length {
      h[k] := s[k];
    }
    assert h[..] == s;
  }

  /** Rank of every cluster id: `order[h[k].clusterId] = k`. */
  method OrderOf(h: array<Entry>) returns (order: array<int>)
    requires forall k :: 0 <= k < h.Length ==> 0 <= h[k].clusterId < h.Length
    requires forall p, q :: 0 <= p < q < h.Length ==> h[p].clusterId != h[q].clusterId
    ensures order.Length == h.Length
    ensures forall k :: 0 <= k < h.Length ==> order[h[k].clusterId] == k
  {
    order := new int[h.Length](c => 0);
    var i := 0;
    while i < h.Length
      invariant 0 <= i <= h.Length
      invariant forall k :: 0 <= k < i ==> order[h[k].clusterId] == k
    {
      order[h[i].clusterId] := i;
      i := i + 1;
    }
  }

  /**
   * `CalculateClusters`: the histogram, one entry per list, sorted into
   * non-increasing count, and `order` mapping each cluster id to its rank,
   * so that `hist[order[c]]` is the entry of cluster c.
   */
  method CalculateClusters(lists: seq<seq<int>>) returns (hist: array<Entry>, order: array<int>)
    ensures hist.Length == order.Length == |lists|
    ensures NonIncreasing(hist[..]) && multiset(hist[..]) == multiset(Histogram(lists))
    ensures forall c :: 0 <= c < |lists| ==>
              0 <= order[c] < |lists| && hist[order[c]].clusterId == c && hist[order[c]].birdCnt == |lists[c]|
    ensures forall k :: 0 <= k < |lists| ==> 0 <= hist[k].clusterId < |lists| && order[hist[k].clusterId] == k
  {
    hist := BuildHistogram(lists);
    SortHistogram(hist);
    SortDescCorrect(Histogram(lists));
    HistogramIds(lists, hist[..]);
    order := OrderOf(hist);
    forall c | 0 <= c < |lists|
      ensures 0 <= order[c] < |lists| && hist[order[c]].clusterId == c && hist[order[c]].birdCnt == |lists[c]|
    {
      assert Histogram(lists)[c] in hist[..];
      var k :| 0 <= k < hist.Length && hist[..][k] == Histogram(lists)[c];
      assert order[hist[k].clusterId] == k;
    }
  }
}
