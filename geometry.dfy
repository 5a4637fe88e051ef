/**
 * Integer part of the spatial grid geometry of the flock simulation:
 * thread-block sizing, the search-window size, the flat cell index, the
 * interior test used when agents are inserted, the adjacency-offset table
 * and the auxiliary sizes of the hierarchical prefix scan.
 *
 * The floating-point part of the grid set-up (cell width, bounds, the
 * resolution obtained by `ceil`, the truncation of positions to cells) is
 * not modelled: its integer results are the inputs here.
 */
module GridGeometry {

  /** Sentinel for "no cell" (the largest 32-bit signed integer). */
  const GRID_UNDEF: int := 2147483647
  /** Threads per block of the GPU prefix scan. */
  const SCAN_BLOCKSIZE: int := 512
  /** Largest search-window side the grid set-up accepts. */
  const MAX_SEARCH: int := 6
  /** Number of slots of the adjacency table as declared in the accelerator record. */
  const ADJ_SLOTS_AS_WRITTEN: int := 64
  /** Slots needed by the largest accepted window: MAX_SEARCH cubed. */
  const ADJ_CAPACITY: int := 216

  datatype Int3 = Int3(x: int, y: int, z: int)

  datatype Status = Ready | ConfigError

  function Abs(a: int): nat { if a < 0 then -a else a }

  /** C++ integer division: the quotient is truncated toward zero. */
  function TruncDiv(a: int, b: int): (q: int)
    requires b != 0
    ensures a >= 0 && b > 0 ==> q == a / b
  {
    if (a >= 0) == (b > 0) then Abs(a) / Abs(b) else -(Abs(a) / Abs(b))
  }

  /** C++ `%`: the remainder takes the sign of the dividend. */
  function TruncRem(a: int, b: int): int
    requires b != 0
  {
    a - b * TruncDiv(a, b)
  }

  /** `iDivUp`: rounds the quotient up when the division leaves a remainder. */
  function DivUp(a: int, b: int): (r: int)
    requires b != 0
    ensures a >= 0 && b > 0 ==> (r - 1) * b < a <= r * b
  {
    if TruncRem(a, b) != 0 then TruncDiv(a, b) + 1 else TruncDiv(a, b)
  }

  /**
   * `ComputeNumBlocks`: at most `minThreads` threads per block, and enough
   * blocks that every point gets a thread without a block left idle.
   */
  method ComputeNumBlocks(numPnts: int, minThreads: int) returns (numBlocks: int, numThreads: int)
    ensures numThreads == if minThreads < numPnts then minThreads else numPnts
    ensures numThreads <= minThreads && numThreads <= numPnts
    ensures numPnts > 0 && minThreads > 0 ==>
              0 < numThreads && (numBlocks - 1) * numThreads < numPnts <= numBlocks * numThreads
    ensures numPnts == 0 && minThreads >= 0 ==> numThreads == 0 && numBlocks == 1
  {
    numThreads := if minThreads < numPnts then minThreads else numPnts;
    numBlocks := if numThreads == 0 then 1 else DivUp(numPnts, numThreads);
  }

  /**
   * Search-window side S from the integer part `span` of 2*radius/cellWidth:
   * S = span + 1, raised to 2 when smaller.
   */
  function SearchSize(span: int): (s: int)
    ensures s >= 2
    ensures s >= span + 1
    ensures span >= 1 ==> s == span + 1
    ensures span < 1 ==> s == 2
  {
    var s := span + 1;
    if s < 2 then 2 else s
  }

  /** The guard of the grid set-up: a window wider than MAX_SEARCH is a fatal configuration error. */
  predicate PassesSearchGuard(s: int)
  {
    !(s > MAX_SEARCH)
  }

  /**
   * Sizes of the two auxiliary levels of the hierarchical scan: blocks of
   * 2*SCAN_BLOCKSIZE elements, one more block than the integer quotient.
   */
  function AuxSizes(gridTotal: int): (sizes: (int, int))
    ensures gridTotal >= 0 ==>
              (sizes.0 - 1) * (2 * SCAN_BLOCKSIZE) <= gridTotal < sizes.0 * (2 * SCAN_BLOCKSIZE)
    ensures gridTotal >= 0 ==>
              sizes.1 >= 1 && (sizes.1 - 1) * (2 * SCAN_BLOCKSIZE) <= sizes.0 < sizes.1 * (2 * SCAN_BLOCKSIZE)
  {
    var blockSize := SCAN_BLOCKSIZE * 2;
    var numElem2 := TruncDiv(gridTotal, blockSize) + 1;
    var numElem3 := TruncDiv(numElem2, blockSize) + 1;
    (numElem2, numElem3)
  }

  /** Flat index of the cell (x, y, z): y is the slowest axis, x the fastest. */
  function Flat(c: Int3, res: Int3): int
  {
    (c.y * res.z + c.z) * res.x + c.x
  }

  function Total(res: Int3): int
  {
    res.x * res.y * res.z
  }

  /** The interior test applied when an agent is inserted: 1 <= gc <= res - S on every axis. */
  predicate Interior(gc: Int3, scanMax: Int3)
  {
    1 <= gc.x <= scanMax.x && 1 <= gc.y <= scanMax.y && 1 <= gc.z <= scanMax.z
  }

  function ScanMax(res: Int3, s: int): Int3
  {
    Int3(res.x - s, res.y - s, res.z - s)
  }

  /** Offset of the window cell (x, y, z) relative to the window's corner cell. */
  function Offset(y: int, z: int, x: int, res: Int3): int
  {
    (y * res.z + z) * res.x + x
  }

  /** The adjacency table the grid set-up writes: entry (y*S+z)*S+x holds Offset(y, z, x). */
  function AdjTable(s: nat, res: Int3): (t: seq<int>)
    requires s > 0
    ensures |t| == s * s * s
  {
    seq(s * s * s, k requires 0 <= k < s * s * s => Offset(k / (s * s), (k / s) % s, k % s, res))
  }

  /** Distance from a cell to the corner cell of its window, one cell back on every axis. */
  function WindowBack(res: Int3): int
  {
    (res.z + 1) * res.x + 1
  }

  lemma MulNonneg(a: int, b: int)
    requires a >= 0 && b >= 0
    ensures a * b >= 0
  {
  }

  lemma MulLe(a: int, b: int, c: int)
    requires a <= b && c >= 0
    ensures a * c <= b * c
  {
    MulNonneg(b - a, c);
    assert (b - a) * c == b * c - a * c;
  }

  lemma MulPred(a: int, b: int)
    ensures (a - 1) * b == a * b - b
  {
  }

  lemma MulLtCancel(a: int, b: int, c: int)
    requires c > 0 && a * c < b * c
    ensures a < b
  {
    assert (a - b) * c == a * c - b * c;
    if a >= b {
      MulNonneg(a - b, c);
    }
  }

  lemma DivModUnique(q: int, r: int, d: int)
    requires d > 0 && 0 <= r < d
    ensures (q * d + r) / d == q && (q * d + r) % d == r
  {
    var n := q * d + r;
    var qq, rr := n / d, n % d;
    assert n == qq * d + rr;
    assert (q - qq) * d == rr - r;
    MulLtCancel(q - qq, 1, d);
    MulLtCancel(-1, q - qq, d);
  }

  lemma {:induction false} AdjIndexBound(s: int, y: int, z: int, x: int)
    requires s > 0 && 0 <= y < s && 0 <= z < s && 0 <= x < s
    ensures 0 <= y * s + z < s * s
    ensures 0 <= (y * s + z) * s + x < s * s * s
  {
    var yz := y * s + z;
    MulLe(y, s - 1, s);
    MulNonneg(y, s);
    assert (s - 1) * s == s * s - s;
    MulLe(yz, s * s - 1, s);
    MulNonneg(yz, s);
    assert (s * s - 1) * s == s * s * s - s;
  }

  lemma {:induction false} AdjIndexDecodesY(s: int, y: int, z: int, x: int)
    requires s > 0 && 0 <= y < s && 0 <= z < s && 0 <= x < s
    ensures ((y * s + z) * s + x) / (s * s) == y
  {
    var ss := s * s;
    MulLe(z, s - 1, s);
    MulNonneg(z, s);
    assert (s - 1) * s == ss - s;
    assert (y * s + z) * s + x == y * ss + (z * s + x);
    DivModUnique(y, z * s + x, ss);
  }

  /** Decoding the flat table index (y*S+z)*S+x gives back y, z and x. */
  lemma {:induction false} AdjIndexDecodes(s: int, y: int, z: int, x: int)
    requires s > 0 && 0 <= y < s && 0 <= z < s && 0 <= x < s
    ensures 0 <= (y * s + z) * s + x < s * s * s
    ensures ((y * s + z) * s + x) / (s * s) == y
    ensures (((y * s + z) * s + x) / s) % s == z
    ensures ((y * s + z) * s + x) % s == x
  {
    AdjIndexBound(s, y, z, x);
    AdjIndexDecodesY(s, y, z, x);
    DivModUnique(y * s + z, x, s);
    DivModUnique(y, z, s);
  }

  /** Entry ((y*S+z)*S+x) of the adjacency table is the offset (y*resZ+z)*resX+x. */
  lemma {:induction false} AdjTableEntry(s: int, res: Int3, y: int, z: int, x: int)
    requires s > 0 && 0 <= y < s && 0 <= z < s && 0 <= x < s
    ensures (y * s + z) * s + x < |AdjTable(s, res)|
    ensures AdjTable(s, res)[(y * s + z) * s + x] == (y * res.z + z) * res.x + x
  {
    AdjIndexDecodes(s, y, z, x);
  }

  /** A table index below S^3 decodes into three coordinates below S. */
  lemma {:induction false} AdjIndexRange(s: int, k: int)
    requires s > 0 && 0 <= k < s * s * s
    ensures 0 <= k / (s * s) < s && 0 <= (k / s) % s < s && 0 <= k % s < s
  {
    var ss := s * s;
    var y := k / ss;
    assert k == y * ss + k % ss;
    assert y * ss < s * ss;
    MulLtCancel(y, s, ss);
    assert 0 <= y by {
      if y < 0 {
        MulLe(y, -1, ss);
      }
    }
  }

  /** Cells inside the resolution have a flat index in [0, Total). */
  lemma {:induction false} FlatInRange(c: Int3, res: Int3)
    requires 0 <= c.x < res.x && 0 <= c.y < res.y && 0 <= c.z < res.z
    ensures 0 <= Flat(c, res) < Total(res)
  {
    var p := res.y * res.z;
    var yz := c.y * res.z + c.z;
    MulLe(c.y, res.y - 1, res.z);
    MulPred(res.y, res.z);
    MulNonneg(c.y, res.z);
    assert 0 <= yz < p;
    MulLe(yz, p - 1, res.x);
    MulPred(p, res.x);
    MulNonneg(yz, res.x);
    assert Flat(c, res) == yz * res.x + c.x;
    assert Total(res) == p * res.x;
  }

  /** Shifting a cell by a window offset shifts its flat index by that offset. */
  lemma ShiftedFlat(gc: Int3, res: Int3, y: int, z: int, x: int)
    ensures Flat(Int3(gc.x - 1 + x, gc.y - 1 + y, gc.z - 1 + z), res)
            == Flat(gc, res) - WindowBack(res) + Offset(y, z, x, res)
  {
    var ny := gc.y - 1 + y;
    var nz := gc.z - 1 + z;
    calc {
      (ny * res.z + nz) * res.x;
      (gc.y * res.z + gc.z) * res.x + (y * res.z + z) * res.x - (res.z + 1) * res.x;
    }
  }

  /** An accepted agent's own cell lies in the grid. */
  lemma {:induction false} InteriorCellInGrid(gc: Int3, res: Int3, s: int)
    requires s >= 2 && Interior(gc, ScanMax(res, s))
    ensures 0 <= Flat(gc, res) < Total(res)
  {
    FlatInRange(gc, res);
  }

  /**
   * Every cell of the S^3 window scanned around an accepted agent's cell
   * lies in the grid: the window starts one cell back on each axis and ends
   * at most at res - 2.
   */
  lemma {:induction false} WindowCellInGrid(gc: Int3, res: Int3, s: int, k: int)
    requires s >= 2 && Interior(gc, ScanMax(res, s))
    requires 0 <= k < s * s * s
    ensures 0 <= Flat(gc, res) - WindowBack(res) + AdjTable(s, res)[k] < Total(res)
  {
    AdjIndexRange(s, k);
    var y, z, x := k / (s * s), (k / s) % s, k % s;
    ShiftedFlat(gc, res, y, z, x);
    FlatInRange(Int3(gc.x - 1 + x, gc.y - 1 + y, gc.z - 1 + z), res);
  }

  lemma {:induction false} CubeAtMostCapacity(s: int)
    requires 2 <= s <= MAX_SEARCH
    ensures s * s * s <= ADJ_CAPACITY
  {
    assert s * s <= 36 by { assert s * s <= 6 * s; }
    assert s * s * s <= 36 * s;
  }

  /**
   * As written, the guard admits a window of side 5 (a span of 4), whose
   * 125 offsets do not fit the 64 slots of the declared table.
   */
  lemma GuardAdmitsAdjOverflow()
    ensures PassesSearchGuard(SearchSize(4))
    ensures SearchSize(4) * SearchSize(4) * SearchSize(4) > ADJ_SLOTS_AS_WRITTEN
  {
  }

  /**
   * The integer part of the accelerator record, filled in by the grid set-up.
   * The adjacency table has room for the largest accepted window.
   */
  class Accel {
    var res: Int3
    var scanMax: Int3
    var srch: int
    var total: int
    var adjCnt: int
    const adj: array<int>

    ghost predicate Valid()
      reads this, adj
    {
      && adj.Length == ADJ_CAPACITY
      && res.x >= 1 && res.y >= 1 && res.z >= 1
      && 0 < total == Total(res) <= GRID_UNDEF
      && 2 <= srch <= MAX_SEARCH
      && adjCnt == srch * srch * srch <= ADJ_CAPACITY
      && scanMax == ScanMax(res, srch)
      && adj[..adjCnt] == AdjTable(srch, res)
    }

    constructor ()
      ensures adj.Length == ADJ_CAPACITY && fresh(adj)
    {
      adj := new int[ADJ_CAPACITY];
    }

    /** The adjacency loop of the grid set-up: y slowest, then z, then x. */
    method FillAdjacency(s: int, gridRes: Int3)
      requires 2 <= s <= MAX_SEARCH && adj.Length == ADJ_CAPACITY
      modifies adj
      ensures s * s * s <= ADJ_CAPACITY
      ensures adj[..s * s * s] == AdjTable(s, gridRes)
    {
      CubeAtMostCapacity(s);
      ghost var table := AdjTable(s, gridRes);
      var cell := 0;
      var y := 0;
      while y < s
        invariant 0 <= y <= s
        invariant cell == (y * s) * s
        invariant cell <= |table| && adj[..cell] == table[..cell]
      {
        var z := 0;
        while z < s
          invariant 0 <= z <= s
          invariant cell == (y * s + z) * s
          invariant cell <= |table| && adj[..cell] == table[..cell]
        {
          ghost var row := cell;
          var x := 0;
          while x < s
            invariant 0 <= x <= s
            invariant cell == row + x
            invariant cell <= |table| && adj[..cell] == table[..cell]
          {
            AdjTableEntry(s, gridRes, y, z, x);
            assert table[cell] == (y * gridRes.z + z) * gridRes.x + x;
            adj[cell] := (y * gridRes.z + z) * gridRes.x + x;
            assert adj[..cell + 1] == adj[..cell] + [adj[cell]];
            assert table[..cell + 1] == table[..cell] + [table[cell]];
            cell := cell + 1;
            x := x + 1;
          }
          assert (y * s + z) * s + s == (y * s + (z + 1)) * s;
          z := z + 1;
        }
        assert (y * s + s) * s == ((y + 1) * s) * s;
        y := y + 1;
      }
      assert table[..cell] == table;
    }

    /**
     * `InitializeGrid`, integer part: from the resolution and the window
     * span, set the total cell count, the window side, the scan limit and the
     * adjacency table; a window wider than MAX_SEARCH is a configuration error.
     */
    method InitializeGrid(gridRes: Int3, span: int) returns (status: Status)
      requires adj.Length == ADJ_CAPACITY
      requires gridRes.x >= 1 && gridRes.y >= 1 && gridRes.z >= 1
      requires Total(gridRes) <= GRID_UNDEF
      modifies this, adj
      ensures res == gridRes && total == Total(gridRes)
      ensures srch == SearchSize(span) && adjCnt == srch * srch * srch
      ensures scanMax == ScanMax(gridRes, srch)
      ensures status == Ready <==> PassesSearchGuard(srch)
      ensures status == Ready ==> Valid()
    {
      res := gridRes;
      total := gridRes.x * gridRes.y * gridRes.z;
      assert total > 0 by {
        assert gridRes.x * gridRes.y >= 1;
      }
      srch := SearchSize(span);
      adjCnt := srch * srch * srch;
      scanMax := Int3(gridRes.x - srch, gridRes.y - srch, gridRes.z - srch);
      if srch > MAX_SEARCH {
        return ConfigError;
      }
      CubeAtMostCapacity(srch);
      FillAdjacency(srch, gridRes);
      status := Ready;
    }
  }
}
