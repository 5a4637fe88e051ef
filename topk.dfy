/**
 * The bounded topological-neighbour list of one agent: candidate squared
 * distances and indices kept in two fixed arrays of SORT_SLOTS entries,
 * ascending by distance, insertion-sorted, and cut at K entries.
 */
module Topological {
  /** Size of the fixed sort arrays `sort_d_nbr` / `sort_j_nbr`. */
  const SORT_SLOTS := 16

  /** A candidate neighbour: squared distance d to agent j. */
  datatype Nbr = Nbr(d: real, j: int)

  function Min(a: int, b: int): int
  {
    if a <= b then a else b
  }

  ghost predicate Ascending(L: seq<Nbr>)
  {
    forall p, q :: 0 <= p < q < |L| ==> L[p].d <= L[q].d
  }

  /**
   * Where a candidate at distance d goes: the first entry whose distance is
   * not below d, or the end. Entries at the same distance stay after it.
   */
  function InsertPos(L: seq<Nbr>, d: real): (k: nat)
    ensures k <= |L|
    ensures forall p :: 0 <= p < k ==> L[p].d < d
    ensures k < |L| ==> d <= L[k].d
  {
    if |L| == 0 || d <= L[0].d then 0 else 1 + InsertPos(L[1..], d)
  }

  /** The insertion position is the only index with its two defining properties. */
  lemma InsertPosUnique(L: seq<Nbr>, d: real, k: int)
    requires 0 <= k <= |L|
    requires forall p :: 0 <= p < k ==> L[p].d < d
    requires k < |L| ==> d <= L[k].d
    ensures k == InsertPos(L, d)
  {
  }

  /** The list with x inserted at its position. */
  function Ins(L: seq<Nbr>, x: Nbr): (r: seq<Nbr>)
    ensures |r| == |L| + 1
  {
    var k := InsertPos(L, x.d);
    L[..k] + [x] + L[k..]
  }

  /**
   * The list after every candidate of `cs`, in order, has been offered:
   * each is inserted and the list is cut back to K entries.
   */
  function TopK(cs: seq<Nbr>, K: nat): (T: seq<Nbr>)
    ensures |T| == Min(|cs|, K)
  {
    if |cs| == 0 then []
    else
      var L := TopK(cs[..|cs| - 1], K);
      Ins(L, cs[|cs| - 1])[..Min(|L| + 1, K)]
  }

  /** Every candidate offered but not kept is at least as far as every kept one. */
  ghost predicate KeepsSmallest(cs: seq<Nbr>, T: seq<Nbr>)
  {
    forall y :: multiset(cs)[y] > multiset(T)[y] ==> forall i :: 0 <= i < |T| ==> T[i].d <= y.d
  }

  lemma MultisetSplit(U: seq<Nbr>, m: int)
    requires 0 <= m <= |U|
    ensures multiset(U) == multiset(U[..m]) + multiset(U[m..])
  {
    assert U == U[..m] + U[m..];
  }

  lemma MultisetLast(cs: seq<Nbr>)
    requires |cs| > 0
    ensures multiset(cs) == multiset(cs[..|cs| - 1]) + multiset{cs[|cs| - 1]}
  {
    assert cs == cs[..|cs| - 1] + [cs[|cs| - 1]];
  }

  /** Entries of the list after insertion, position by position. */
  lemma InsAt(L: seq<Nbr>, x: Nbr)
    ensures |Ins(L, x)| == |L| + 1
    ensures forall p :: 0 <= p < |L| + 1 ==>
              Ins(L, x)[p] == if p < InsertPos(L, x.d) then L[p] else if p == InsertPos(L, x.d) then x else L[p - 1]
  {
  }

  /** Insertion adds exactly x. */
  lemma InsMultiset(L: seq<Nbr>, x: Nbr)
    ensures multiset(Ins(L, x)) == multiset(L) + multiset{x}
  {
    var k := InsertPos(L, x.d);
    assert L == L[..k] + L[k..];
  }

  /** Insertion keeps the list ascending and puts x before the entries of equal distance. */
  lemma InsAscending(L: seq<Nbr>, x: Nbr)
    requires Ascending(L)
    ensures Ascending(Ins(L, x))
    ensures forall p :: InsertPos(L, x.d) < p < |L| + 1 ==> x.d <= Ins(L, x)[p].d
  {
    InsAbove(L, x);
    InsSorted(L, x);
  }

  /** The entries after x are no nearer than x. */
  lemma InsAbove(L: seq<Nbr>, x: Nbr)
    requires Ascending(L)
    ensures forall p :: InsertPos(L, x.d) < p < |L| + 1 ==> x.d <= Ins(L, x)[p].d
  {
    InsAt(L, x);
    var k := InsertPos(L, x.d);
    var U := Ins(L, x);
    forall p | k < p < |U|
      ensures x.d <= U[p].d
    {
      assert U[p] == L[p - 1];
      assert L[k].d <= L[p - 1].d;
    }
  }

  lemma InsSorted(L: seq<Nbr>, x: Nbr)
    requires Ascending(L)
    ensures Ascending(Ins(L, x))
  {
    InsAt(L, x);
    var k := InsertPos(L, x.d);
    var U := Ins(L, x);
    forall p, q | 0 <= p < q < |U|
      ensures U[p].d <= U[q].d
    {
      if q < k {
        assert U[p] == L[p] && U[q] == L[q];
      } else if q == k {
        assert U[p] == L[p];
      } else if p > k {
        assert U[p] == L[p - 1] && U[q] == L[q - 1];
      } else if p == k {
        assert U[q] == L[q - 1] && L[k].d <= L[q - 1].d;
      } else {
        assert U[p] == L[p] && U[q] == L[q - 1];
      }
    }
  }

  /** The list holds min(|cs|, K) entries, ascending. */
  lemma {:induction false} TopKShape(cs: seq<Nbr>, K: nat)
    ensures |TopK(cs, K)| == Min(|cs|, K)
    ensures Ascending(TopK(cs, K))
    decreases |cs|
  {
    if |cs| > 0 {
      var L := TopK(cs[..|cs| - 1], K);
      TopKShape(cs[..|cs| - 1], K);
      InsAscending(L, cs[|cs| - 1]);
    }
  }

  /** Every entry kept is a candidate offered, counting repetitions. */
  lemma {:induction false} TopKSubset(cs: seq<Nbr>, K: nat)
    ensures multiset(TopK(cs, K)) <= multiset(cs)
    decreases |cs|
  {
    if |cs| > 0 {
      var n := |cs| - 1;
      var L := TopK(cs[..n], K);
      TopKSubset(cs[..n], K);
      InsMultiset(L, cs[n]);
      var U := Ins(L, cs[n]);
      var m := Min(|L| + 1, K);
      assert TopK(cs, K) == U[..m];
      MultisetSplit(U, m);
      MultisetLast(cs);
      assert multiset(U[..m]) <= multiset(U);
      assert multiset(L) + multiset{cs[n]} <= multiset(cs[..n]) + multiset{cs[n]};
    }
  }

  /** While no more than K candidates have been offered, all of them are kept. */
  lemma {:induction false} TopKAll(cs: seq<Nbr>, K: nat)
    requires |cs| <= K
    ensures multiset(TopK(cs, K)) == multiset(cs)
    decreases |cs|
  {
    if |cs| > 0 {
      var n := |cs| - 1;
      TopKAll(cs[..n], K);
      TopKGrows(cs, K);
      InsMultiset(TopK(cs[..n], K), cs[n]);
      MultisetLast(cs);
    }
  }

  /** Below K entries, offering a candidate only inserts it. */
  lemma TopKGrows(cs: seq<Nbr>, K: nat)
    requires 0 < |cs| <= K
    ensures TopK(cs, K) == Ins(TopK(cs[..|cs| - 1], K), cs[|cs| - 1])
  {
    var U := Ins(TopK(cs[..|cs| - 1], K), cs[|cs| - 1]);
    assert U[..|U|] == U;
  }

  /** Every candidate offered but not kept is at least as far as every kept one. */
  lemma {:induction false} TopKKeepsSmallest(cs: seq<Nbr>, K: nat)
    ensures KeepsSmallest(cs, TopK(cs, K))
    decreases |cs|
  {
    if |cs| > K {
      var prev := cs[..|cs| - 1];
      TopKKeepsSmallest(prev, K);
      TopKShape(prev, K);
      FullStepKeeps(cs, TopK(prev, K));
    } else {
      TopKAll(cs, K);
    }
  }

  /** One insertion into a full list keeps the kept entries no farther than every dropped candidate. */
  lemma FullStepKeeps(cs: seq<Nbr>, L: seq<Nbr>)
    requires |cs| > 0 && Ascending(L)
    requires KeepsSmallest(cs[..|cs| - 1], L)
    ensures KeepsSmallest(cs, Ins(L, cs[|cs| - 1])[..|L|])
  {
    var prev, x := cs[..|cs| - 1], cs[|cs| - 1];
    InsMultiset(L, x);
    var U := Ins(L, x);
    var T, R := U[..|L|], U[|L|..];
    assert R == [U[|L|]];
    MultisetLast(cs);
    MultisetSplit(U, |L|);
    forall y | multiset(cs)[y] > multiset(T)[y]
      ensures forall i :: 0 <= i < |T| ==> T[i].d <= y.d
    {
      DroppedCount(cs, prev, x, L, U, T, R, y);
      forall i | 0 <= i < |T|
        ensures T[i].d <= y.d
      {
        DroppedBoundsKept(L, x, y, i);
      }
    }
  }

  /** Counting: a candidate dropped now was dropped before or is the entry cut off now. */
  lemma DroppedCount(cs: seq<Nbr>, prev: seq<Nbr>, x: Nbr, L: seq<Nbr>, U: seq<Nbr>, T: seq<Nbr>, R: seq<Nbr>, y: Nbr)
    requires multiset(cs) == multiset(prev) + multiset{x}
    requires multiset(U) == multiset(L) + multiset{x}
    requires multiset(U) == multiset(T) + multiset(R)
    requires multiset(cs)[y] > multiset(T)[y]
    ensures multiset(prev)[y] > multiset(L)[y] || y in R
  {
    if y !in R {
      assert y !in multiset(R);
      assert multiset(U)[y] == multiset(T)[y];
      assert multiset(U)[y] == multiset(L)[y] + multiset{x}[y];
      assert multiset(cs)[y] == multiset(prev)[y] + multiset{x}[y];
    }
  }

  /**
   * A full list of K entries, after one more insertion and the cut back to
   * K: every kept entry is no farther than the entry cut off, and no farther
   * than any candidate that bounded the whole list before.
   */
  lemma DroppedBoundsKept(L: seq<Nbr>, x: Nbr, y: Nbr, i: int)
    requires Ascending(L)
    requires y == Ins(L, x)[|L|] || forall t :: 0 <= t < |L| ==> L[t].d <= y.d
    requires 0 <= i < |L|
    ensures Ins(L, x)[i].d <= y.d
  {
    InsAt(L, x);
    InsAscending(L, x);
    var U := Ins(L, x);
    var k := InsertPos(L, x.d);
    if y != U[|L|] {
      if i < k {
        assert U[i] == L[i];
      } else if i == k {
        assert U[i] == x;
        assert x.d <= U[|L|].d;
        assert U[|L|] == L[|L| - 1];
      } else {
        assert U[i] == L[i - 1];
      }
    }
  }

  /** The head of a non-empty list is the nearest of all candidates offered. */
  lemma HeadIsNearest(cs: seq<Nbr>, K: nat)
    requires |cs| > 0 && K > 0
    ensures |TopK(cs, K)| > 0
    ensures forall y :: y in cs ==> TopK(cs, K)[0].d <= y.d
  {
    TopKShape(cs, K);
    TopKSubset(cs, K);
    TopKKeepsSmallest(cs, K);
    var T := TopK(cs, K);
    forall y | y in cs
      ensures T[0].d <= y.d
    {
      if multiset(cs)[y] <= multiset(T)[y] {
        assert y in multiset(T);
        var i :| 0 <= i < |T| && T[i] == y;
        assert T[0].d <= T[i].d;
      }
    }
  }

  /** The candidates viewed as a list of pairs. */
  function Pairs(ds: seq<real>, js: seq<int>): (ps: seq<Nbr>)
    requires |ds| == |js|
    ensures |ps| == |ds|
  {
    seq(|ds|, i requires 0 <= i < |ds| => Nbr(ds[i], js[i]))
  }

  /**
   * The search for the insertion slot: the first k below num whose distance
   * is not below d, or num. The test reads slot k before comparing k with
   * num, so slot num is read too (its value does not change the result).
   */
  method FindSlot(sd: array<real>, num: int, d: real) returns (k: int)
    requires 0 <= num < sd.Length
    ensures 0 <= k <= num
    ensures forall p :: 0 <= p < k ==> sd[p] < d
    ensures k < num ==> d <= sd[k]
  {
    k := 0;
    while d > sd[k] && k < num
      invariant 0 <= k <= num
      invariant forall p :: 0 <= p < k ==> sd[p] < d
      decreases num - k
    {
      k := k + 1;
    }
  }

  /** Shift slots k..num-1 up by one (slot num receives slot num-1). */
  method ShiftUp(sd: array<real>, sj: array<int>, k: int, num: int)
    requires sd.Length == sj.Length && 0 <= k <= num < sd.Length
    modifies sd, sj
    ensures sd[..] == Shifted(old(sd[..]), k, num) && sj[..] == Shifted(old(sj[..]), k, num)
  {
    var m := num - 1;
    while m >= k
      invariant k - 1 <= m <= num - 1
      invariant forall p :: 0 <= p <= m + 1 ==> sd[p] == old(sd[p]) && sj[p] == old(sj[p])
      invariant forall p :: m + 2 <= p <= num ==> sd[p] == old(sd[p - 1]) && sj[p] == old(sj[p - 1])
      invariant forall p :: num + 1 <= p < sd.Length ==> sd[p] == old(sd[p]) && sj[p] == old(sj[p])
    {
      sd[m + 1] := sd[m];
      sj[m + 1] := sj[m];
      m := m - 1;
    }
    assert sd[..] == Shifted(old(sd[..]), k, num);
    assert sj[..] == Shifted(old(sj[..]), k, num);
  }

  /** The slots with slots k..num-1 moved up by one. */
  function Shifted<T>(s: seq<T>, k: int, num: int): (t: seq<T>)
    requires 0 <= k <= num < |s|
    ensures |t| == |s|
  {
    seq(|s|, p requires 0 <= p < |s| => if k < p <= num then s[p - 1] else s[p])
  }

  /**
   * One insertion into the sort arrays: find the slot, shift the entries
   * from there up by one, write the candidate into the slot, and grow the
   * count up to K. Slots 0..num then hold the list with the candidate
   * inserted; a full list pushes its last entry into slot num, which lies
   * within the arrays because K < SORT_SLOTS.
   */
  method InsertNeighbor(sd: array<real>, sj: array<int>, num: int, K: int, d: real, j: int)
    returns (num': int)
    requires sd.Length == SORT_SLOTS && sj.Length == SORT_SLOTS
    requires 0 <= num <= K < SORT_SLOTS
    modifies sd, sj
    ensures Pairs(sd[..num + 1], sj[..num + 1]) == Ins(Pairs(old(sd[..num]), old(sj[..num])), Nbr(d, j))
    ensures sd[num + 1..] == old(sd[num + 1..]) && sj[num + 1..] == old(sj[num + 1..])
    ensures num' == Min(num + 1, K)
  {
    ghost var d0, j0 := sd[..], sj[..];
    var k := FindSlot(sd, num, d);
    InsertPosUnique(Pairs(d0[..num], j0[..num]), d, k);
    Place(sd, sj, k, num, d, j);
    PlacedPairs(d0, j0, k, num, d, j);
    PlacedTail(d0, k, num, d);
    PlacedTail(j0, k, num, j);
    num' := num + 1;
    if num' > K {
      num' := K;
    }
  }

  /** Move slots k..num-1 up by one when k is below num, then write the candidate into slot k. */
  method Place(sd: array<real>, sj: array<int>, k: int, num: int, d: real, j: int)
    requires sd.Length == sj.Length && 0 <= k <= num < sd.Length
    modifies sd, sj
    ensures sd[..] == Placed(old(sd[..]), k, num, d) && sj[..] == Placed(old(sj[..]), k, num, j)
  {
    ghost var d0, j0 := sd[..], sj[..];
    if k != num {
      ShiftUp(sd, sj, k, num);
    } else {
      assert Shifted(d0, k, num) == d0 && Shifted(j0, k, num) == j0;
    }
    sd[k] := d;
    sj[k] := j;
  }

  /** The slots after writing v at k, with slots k..num-1 moved up by one. */
  function Placed<T>(s: seq<T>, k: int, num: int, v: T): (t: seq<T>)
    requires 0 <= k <= num < |s|
    ensures |t| == |s|
  {
    Shifted(s, k, num)[k := v]
  }

  /** Placing a candidate at its insertion position inserts it into the list; the later slots keep their values. */
  lemma PlacedPairs(ds: seq<real>, js: seq<int>, k: int, num: int, d: real, j: int)
    requires |ds| == |js| && 0 <= k <= num < |ds|
    requires k == InsertPos(Pairs(ds[..num], js[..num]), d)
    ensures Pairs(Placed(ds, k, num, d)[..num + 1], Placed(js, k, num, j)[..num + 1]) == Ins(Pairs(ds[..num], js[..num]), Nbr(d, j))
  {
    var L := Pairs(ds[..num], js[..num]);
    var P := Pairs(Placed(ds, k, num, d)[..num + 1], Placed(js, k, num, j)[..num + 1]);
    InsAt(L, Nbr(d, j));
    forall p | 0 <= p <= num
      ensures P[p] == Ins(L, Nbr(d, j))[p]
    {
      if p < k {
        assert L[p] == Nbr(ds[p], js[p]);
      } else if p > k {
        assert L[p - 1] == Nbr(ds[p - 1], js[p - 1]);
      }
    }
  }

  /** Placing leaves the slots above num as they were. */
  lemma PlacedTail<T>(s: seq<T>, k: int, num: int, v: T)
    requires 0 <= k <= num < |s|
    ensures Placed(s, k, num, v)[num + 1..] == s[num + 1..]
  {
    var t := Placed(s, k, num, v);
    forall p | num + 1 <= p < |s|
      ensures t[p] == s[p]
    {
    }
    assert t[num + 1..] == s[num + 1..];
  }

}
