/**
 * Counting-sort bucketing of agents into grid cells (sequential path):
 * each agent gets a flat cell (or GRID_UNDEF) and a rank within its cell,
 * per-cell counters are bumped, an exclusive prefix sum of the counters
 * gives per-cell offsets, and agent indices are scattered into the sorted
 * grid array.
 */
module Bucketing {
  import opened GridGeometry

  /** Indices of the agents whose cell is `c`, in ascending order. */
  function Bucket(cells: seq<int>, c: int): (b: seq<int>)
    ensures forall k :: 0 <= k < |b| ==> 0 <= b[k] < |cells|
    ensures forall p, q :: 0 <= p < q < |b| ==> b[p] < b[q]
    decreases |cells|
  {
    if |cells| == 0 then []
    else
      var n := |cells| - 1;
      var prefix := Bucket(cells[..n], c);
      assert forall j :: 0 <= j < n ==> cells[..n][j] == cells[j];
      prefix + if cells[n] == c then [n] else []
  }

  /** Every member of the bucket of c is an agent of cell c. */
  lemma {:induction false} BucketInCell(cells: seq<int>, c: int)
    ensures forall k :: 0 <= k < |Bucket(cells, c)| ==> cells[Bucket(cells, c)[k]] == c
    decreases |cells|
  {
    if |cells| > 0 {
      var n := |cells| - 1;
      BucketInCell(cells[..n], c);
    }
  }

  /** Every agent of cell c is in the bucket of c. */
  lemma {:induction false} BucketComplete(cells: seq<int>, c: int, j: int)
    requires 0 <= j < |cells| && cells[j] == c
    ensures j in Bucket(cells, c)
    decreases |cells|
  {
    var n := |cells| - 1;
    if j < n {
      BucketComplete(cells[..n], c, j);
    }
  }

  /** Rank of agent j within its cell: the number of lower-indexed agents in the same cell. */
  function Rank(cells: seq<int>, j: int): (r: nat)
    requires 0 <= j < |cells|
    ensures r <= j
  {
    BucketLength(cells[..j], cells[j]);
    |Bucket(cells[..j], cells[j])|
  }

  /** A bucket never holds more agents than there are. */
  lemma {:induction false} BucketLength(cells: seq<int>, c: int)
    ensures |Bucket(cells, c)| <= |cells|
    decreases |cells|
  {
    if |cells| > 0 {
      BucketLength(cells[..|cells| - 1], c);
    }
  }

  /** Counter of every cell: the size of its bucket. */
  function Counts(cells: seq<int>, numCells: nat): (cnt: seq<int>)
    ensures |cnt| == numCells
  {
    seq(numCells, c requires 0 <= c < numCells => |Bucket(cells, c)|)
  }

  /** Flat cell of an agent: its flat index if the interior test accepts it, else GRID_UNDEF. */
  function CellOf(gc: Int3, res: Int3, scanMax: Int3): int
  {
    if Interior(gc, scanMax) then Flat(gc, res) else GRID_UNDEF
  }

  function Cells(coords: seq<Int3>, res: Int3, scanMax: Int3): (cells: seq<int>)
    ensures |cells| == |coords|
  {
    seq(|coords|, n requires 0 <= n < |coords| => CellOf(coords[n], res, scanMax))
  }

  /** Every cell value is a cell of the grid or the sentinel. */
  ghost predicate CellsInGrid(cells: seq<int>, numCells: int)
  {
    forall j :: 0 <= j < |cells| ==> cells[j] == GRID_UNDEF || 0 <= cells[j] < numCells
  }

  /** Number of agents with a cell in [0, numCells). */
  function Accepted(cells: seq<int>, numCells: int): (k: nat)
    ensures k <= |cells|
  {
    if |cells| == 0 then 0
    else Accepted(cells[..|cells| - 1], numCells) + if 0 <= cells[|cells| - 1] < numCells then 1 else 0
  }

  function Sum(s: seq<int>): int
  {
    if |s| == 0 then 0 else Sum(s[..|s| - 1]) + s[|s| - 1]
  }

  ghost predicate NonNegative(s: seq<int>)
  {
    forall k :: 0 <= k < |s| ==> s[k] >= 0
  }

  /** The agent at position r of a bucket has rank r. */
  lemma {:induction false} BucketRank(cells: seq<int>, c: int, r: int)
    requires 0 <= r < |Bucket(cells, c)|
    ensures Rank(cells, Bucket(cells, c)[r]) == r
    decreases |cells|
  {
    var n := |cells| - 1;
    var prefix := Bucket(cells[..n], c);
    if r < |prefix| {
      var j := prefix[r];
      BucketRank(cells[..n], c, r);
      assert cells[..n][..j] == cells[..j];
      assert cells[..n][j] == cells[j];
    } else {
      assert cells[..n] == cells[..|cells| - 1];
    }
  }

  /**
   * Ranks within a cell are exactly 0 .. count-1. First half: each agent of
   * cell c sits at its rank in the bucket of c.
   */
  lemma {:induction false} RankInBucket(cells: seq<int>, c: int)
    ensures forall j {:trigger Rank(cells, j)} :: 0 <= j < |cells| && cells[j] == c ==>
              Rank(cells, j) < |Bucket(cells, c)| && Bucket(cells, c)[Rank(cells, j)] == j
  {
    var b := Bucket(cells, c);
    forall j | 0 <= j < |cells| && cells[j] == c
      ensures Rank(cells, j) < |b| && b[Rank(cells, j)] == j
    {
      BucketComplete(cells, c, j);
      var r :| 0 <= r < |b| && b[r] == j;
      BucketRank(cells, c, r);
    }
  }

  /** Second half: bucket position r holds the agent of rank r. */
  lemma {:induction false} BucketRanks(cells: seq<int>, c: int)
    ensures forall r :: 0 <= r < |Bucket(cells, c)| ==>
              cells[Bucket(cells, c)[r]] == c && Rank(cells, Bucket(cells, c)[r]) == r
  {
    BucketInCell(cells, c);
    forall r | 0 <= r < |Bucket(cells, c)|
      ensures Rank(cells, Bucket(cells, c)[r]) == r
    {
      BucketRank(cells, c, r);
    }
  }

  /** Two distinct agents of the same cell have distinct ranks, in index order. */
  lemma {:induction false} RankIncreasing(cells: seq<int>, i: int, j: int)
    requires 0 <= i < j < |cells| && cells[i] == cells[j]
    ensures Rank(cells, i) < Rank(cells, j)
  {
    RankInBucket(cells, cells[j]);
  }

  lemma SumStep(s: seq<int>, a: int)
    requires 0 <= a < |s|
    ensures Sum(s[..a + 1]) == Sum(s[..a]) + s[a]
  {
    assert s[..a + 1][..a] == s[..a];
  }

  /** Prefix sums of non-negative counts never decrease. */
  lemma {:induction false} SumMonotone(s: seq<int>, a: int, b: int)
    requires NonNegative(s) && 0 <= a <= b <= |s|
    ensures Sum(s[..a]) <= Sum(s[..b])
    decreases b - a
  {
    if a < b {
      SumStep(s, b - 1);
      SumMonotone(s, a, b - 1);
    }
  }

  lemma {:induction false} SumNonNegative(s: seq<int>, a: int)
    requires NonNegative(s) && 0 <= a <= |s|
    ensures Sum(s[..a]) >= 0
  {
    SumMonotone(s, 0, a);
    assert s[..0] == [];
  }

  /** Bumping one counter by one raises the sum by one, if that counter exists. */
  lemma {:induction false} SumBump(s: seq<int>, t: seq<int>, x: int)
    requires |s| == |t|
    requires forall c :: 0 <= c < |s| ==> t[c] == s[c] + if c == x then 1 else 0
    ensures Sum(t) == Sum(s) + if 0 <= x < |s| then 1 else 0
    decreases |s|
  {
    if |s| > 0 {
      var n := |s| - 1;
      SumBump(s[..n], t[..n], x);
    }
  }

  /** The counters add up to the number of accepted agents. */
  lemma {:induction false} SumOfCounts(cells: seq<int>, numCells: nat)
    ensures Sum(Counts(cells, numCells)) == Accepted(cells, numCells)
    decreases |cells|
  {
    if |cells| == 0 {
      var z := Counts(cells, numCells);
      assert forall c :: 0 <= c < numCells ==> z[c] == 0;
      SumZero(z);
    } else {
      var n := |cells| - 1;
      var p := cells[..n];
      SumOfCounts(p, numCells);
      forall c | 0 <= c < numCells
        ensures Counts(cells, numCells)[c] == Counts(p, numCells)[c] + if c == cells[n] then 1 else 0
      {
      }
      SumBump(Counts(p, numCells), Counts(cells, numCells), cells[n]);
    }
  }

  lemma {:induction false} SumZero(s: seq<int>)
    requires forall c :: 0 <= c < |s| ==> s[c] == 0
    ensures Sum(s) == 0
    decreases |s|
  {
    if |s| > 0 {
      SumZero(s[..|s| - 1]);
    }
  }

  /**
   * The grid buffers: the sorted agent array, per-cell counters and
   * offsets, and the agent-aligned cell and rank fields.
   */
  class Grid {
    const numPoints: nat
    const numCells: nat
    const grid: array<int>
    const gridcnt: array<int>
    const gridoff: array<int>
    const gcell: array<int>
    const gndx: array<int>

    ghost predicate Valid()
      reads this
    {
      && grid.Length == numPoints && gcell.Length == numPoints && gndx.Length == numPoints
      && gridcnt.Length == numCells && gridoff.Length == numCells
      && numCells <= GRID_UNDEF
      && grid != gridcnt && grid != gridoff && grid != gcell && grid != gndx
      && gridcnt != gridoff && gridcnt != gcell && gridcnt != gndx
      && gridoff != gcell && gridoff != gndx
      && gcell != gndx
    }

    /** State after insertion: every counter is the size of its bucket, every accepted agent's rank recorded. */
    ghost predicate Counted()
      reads this, gridcnt, gcell, gndx
      requires Valid()
    {
      && CellsInGrid(gcell[..], numCells)
      && gridcnt[..] == Counts(gcell[..], numCells)
      && forall j {:trigger gndx[j]} :: 0 <= j < numPoints ==>
           gndx[j] == if gcell[j] == GRID_UNDEF then 0 else Rank(gcell[..], j)
    }

    /** State after the scan and scatter: the slice of every cell holds exactly its bucket. */
    ghost predicate Bucketed()
      reads this, grid, gridcnt, gridoff, gcell
      requires Valid()
    {
      forall c {:trigger gridoff[c]} :: 0 <= c < numCells ==>
        0 <= gridoff[c] && 0 <= gridcnt[c] && gridoff[c] + gridcnt[c] <= numPoints
        && grid[gridoff[c]..gridoff[c] + gridcnt[c]] == Bucket(gcell[..], c)
    }

    constructor (numPoints: nat, numCells: nat)
      requires numCells <= GRID_UNDEF
      ensures Valid() && this.numPoints == numPoints && this.numCells == numCells
      ensures fresh(grid) && fresh(gridcnt) && fresh(gridoff) && fresh(gcell) && fresh(gndx)
    {
      this.numPoints := numPoints;
      this.numCells := numCells;
      grid := new int[numPoints];
      gridcnt := new int[numCells];
      gridoff := new int[numCells];
      gcell := new int[numPoints];
      gndx := new int[numPoints];
    }

    /**
     * `InsertIntoGrid`, sequential path: clear the counters, then give each
     * agent its cell (GRID_UNDEF when the interior test rejects it) and, when
     * accepted, its rank and one more count in its cell.
     */
    method InsertIntoGrid(accel: Accel, coords: seq<Int3>)
      requires Valid() && accel.Valid() && accel.total == numCells
      requires |coords| == numPoints
      modifies gridcnt, gridoff, gcell, gndx
      ensures gcell[..] == Cells(coords, accel.res, accel.scanMax)
      ensures Counted()
      ensures forall c :: 0 <= c < numCells ==> gridoff[c] == 0
    {
      ghost var cells := Cells(coords, accel.res, accel.scanMax);
      CellsOfInGrid(coords, accel);
      var res, scanMax, srch := accel.res, accel.scanMax, accel.srch;
      forall c | 0 <= c < numCells {
        gridcnt[c] := 0;
      }
      forall c | 0 <= c < numCells {
        gridoff[c] := 0;
      }
      forall j | 0 <= j < numPoints {
        gcell[j] := 0;
      }
      forall j | 0 <= j < numPoints {
        gndx[j] := 0;
      }
      var n := 0;
      while n < numPoints
        invariant 0 <= n <= numPoints
        invariant Inserted(cells, n)
        invariant forall c :: 0 <= c < numCells ==> gridoff[c] == 0
      {
        if Interior(coords[n], scanMax) {
          InteriorCellInGrid(coords[n], res, srch);
        }
        InsertAgent(coords[n], res, scanMax, n, cells);
        n := n + 1;
      }
      assert cells[..numPoints] == cells;
      assert gcell[..] == cells;
    }

    /**
     * The first n agents hold their cells and ranks, the counters count
     * them, and the later ranks are still clear.
     */
    ghost predicate Inserted(cells: seq<int>, n: int)
      reads this, gridcnt, gcell, gndx
      requires Valid()
    {
      && 0 <= n <= numPoints == |cells|
      && (forall m :: 0 <= m < n ==> gcell[m] == cells[m])
      && (forall c :: 0 <= c < numCells ==> gridcnt[c] == |Bucket(cells[..n], c)|)
      && (forall m {:trigger gndx[m]} :: 0 <= m < n ==> gndx[m] == if cells[m] == GRID_UNDEF then 0 else Rank(cells, m))
      && (forall m :: n <= m < numPoints ==> gndx[m] == 0)
    }

    /** One turn of the `InsertIntoGrid` loop, for agent n at grid coordinates gc. */
    method InsertAgent(gc: Int3, res: Int3, scanMax: Int3, n: int, ghost cells: seq<int>)
      requires Valid() && 0 <= n < numPoints && Inserted(cells, n)
      requires cells[n] == CellOf(gc, res, scanMax)
      requires Interior(gc, scanMax) ==> 0 <= Flat(gc, res) < numCells
      modifies gridcnt, gcell, gndx
      ensures Inserted(cells, n + 1)
    {
      var gs := (gc.y * res.z + gc.z) * res.x + gc.x;
      BucketStep(cells, n);
      if gc.x >= 1 && gc.x <= scanMax.x && gc.y >= 1 && gc.y <= scanMax.y && gc.z >= 1 && gc.z <= scanMax.z {
        assert cells[n] == gs;
        assert Rank(cells, n) == gridcnt[gs];
        gcell[n] := gs;
        gndx[n] := gridcnt[gs];
        gridcnt[gs] := gridcnt[gs] + 1;
      } else {
        gcell[n] := GRID_UNDEF;
      }
    }

    /**
     * `PrefixSumGrid`, sequential path: the exclusive prefix sum of the
     * counters gives each cell's offset; the sorted array is cleared to
     * GRID_UNDEF; each accepted agent is written at its cell's offset plus
     * its rank.
     */
    method PrefixSumGrid()
      requires Valid() && Counted()
      modifies gridoff, grid
      ensures forall c :: 0 <= c < numCells ==> gridoff[c] == Sum(gridcnt[..c])
      ensures Sum(gridcnt[..]) == Accepted(gcell[..], numCells) <= numPoints
      ensures forall k :: Sum(gridcnt[..]) <= k < numPoints ==> grid[k] == GRID_UNDEF
      ensures Bucketed()
    {
      ExclusiveScan();
      var k := 0;
      while k < numPoints
        invariant 0 <= k <= numPoints
        invariant forall m :: 0 <= m < k ==> grid[m] == GRID_UNDEF
        invariant forall c :: 0 <= c < numCells ==> gridoff[c] == Sum(gridcnt[..c])
      {
        grid[k] := GRID_UNDEF;
        k := k + 1;
      }
      ScatterAgents();
    }

    /** Sequential exclusive scan: each cell's offset is the sum of the counters before it. */
    method ExclusiveScan()
      requires Valid()
      modifies gridoff
      ensures forall c :: 0 <= c < numCells ==> gridoff[c] == Sum(gridcnt[..c])
    {
      var sum := 0;
      var n := 0;
      while n < numCells
        invariant 0 <= n <= numCells
        invariant sum == Sum(gridcnt[..n])
        invariant forall m :: 0 <= m < n ==> gridoff[m] == Sum(gridcnt[..m])
      {
        gridoff[n] := sum;
        SumStep(gridcnt[..], n);
        sum := sum + gridcnt[n];
        n := n + 1;
      }
    }

    /** Scatter: each accepted agent is written at its cell's offset plus its rank. */
    method ScatterAgents()
      requires Valid() && Counted()
      requires forall c :: 0 <= c < numCells ==> gridoff[c] == Sum(gridcnt[..c])
      requires forall k :: 0 <= k < numPoints ==> grid[k] == GRID_UNDEF
      modifies grid
      ensures Sum(gridcnt[..]) == Accepted(gcell[..], numCells) <= numPoints
      ensures forall k :: Sum(gridcnt[..]) <= k < numPoints ==> grid[k] == GRID_UNDEF
      ensures Bucketed()
    {
      ghost var cells := gcell[..];
      ghost var cnt := gridcnt[..];
      SumOfCounts(cells, numCells);
      ghost var accepted := Sum(cnt);
      var j := 0;
      while j < numPoints
        invariant 0 <= j <= numPoints
        invariant Scattered(cells, cnt, grid[..], j)
        invariant forall m :: accepted <= m < numPoints ==> grid[m] == GRID_UNDEF
      {
        ScatterAgent(j, cells, cnt);
        j := j + 1;
      }
      forall c | 0 <= c < numCells
        ensures 0 <= gridoff[c] && 0 <= gridcnt[c] && gridoff[c] + gridcnt[c] <= numPoints
        ensures grid[gridoff[c]..gridoff[c] + gridcnt[c]] == Bucket(gcell[..], c)
      {
        ScatterFillsBucket(cells, cnt, grid[..], c);
        assert gridoff[c] == Sum(cnt[..c]) && gridcnt[c] == cnt[c];
      }
      assert cnt[..numCells] == cnt;
    }

    /** One step of the scatter: agent j, when accepted, goes to its slot. */
    method ScatterAgent(j: int, ghost cells: seq<int>, ghost cnt: seq<int>)
      requires Valid() && 0 <= j < numPoints
      requires cells == gcell[..] && cnt == gridcnt[..]
      requires CellsInGrid(cells, numCells) && cnt == Counts(cells, numCells)
      requires forall c :: 0 <= c < numCells ==> gridoff[c] == Sum(cnt[..c])
      requires forall k {:trigger gndx[k]} :: 0 <= k < numPoints ==> gndx[k] == if cells[k] == GRID_UNDEF then 0 else Rank(cells, k)
      requires Scattered(cells, cnt, grid[..], j)
      requires forall m :: 0 <= Sum(cnt) <= m < numPoints ==> grid[m] == GRID_UNDEF
      modifies grid
      ensures Scattered(cells, cnt, grid[..], j + 1)
      ensures forall m :: 0 <= Sum(cnt) <= m < numPoints ==> grid[m] == GRID_UNDEF
    {
      if gcell[j] != GRID_UNDEF {
        SlotInRange(cells, cnt, j);
        SlotsDistinct(cells, cnt, j);
        var sortNdx := gridoff[gcell[j]] + gndx[j];
        assert sortNdx == Slot(cells, cnt, j);
        grid[sortNdx] := j;
      }
    }
  }

  /** Every accepted agent before j sits at its slot of g. */
  ghost predicate Scattered(cells: seq<int>, cnt: seq<int>, g: seq<int>, j: int)
    requires CellsInGrid(cells, |cnt|) && 0 <= j <= |cells|
  {
    forall i {:trigger Slot(cells, cnt, i)} :: 0 <= i < j && cells[i] != GRID_UNDEF ==>
      0 <= Slot(cells, cnt, i) < |g| && g[Slot(cells, cnt, i)] == i
  }

  /** Position of accepted agent j in the sorted array: its cell's offset plus its rank. */
  function Slot(cells: seq<int>, cnt: seq<int>, j: int): int
    requires 0 <= j < |cells| && 0 <= cells[j] <= |cnt|
  {
    Sum(cnt[..cells[j]]) + Rank(cells, j)
  }

  lemma BucketStep(cells: seq<int>, n: int)
    requires 0 <= n < |cells|
    ensures forall c :: |Bucket(cells[..n + 1], c)| == |Bucket(cells[..n], c)| + if cells[n] == c then 1 else 0
  {
    assert cells[..n + 1][..n] == cells[..n];
  }

  lemma CellsOfInGrid(coords: seq<Int3>, accel: Accel)
    requires accel.Valid()
    ensures CellsInGrid(Cells(coords, accel.res, accel.scanMax), accel.total)
  {
    forall j | 0 <= j < |coords| && Interior(coords[j], accel.scanMax)
      ensures 0 <= Flat(coords[j], accel.res) < accel.total
    {
      InteriorCellInGrid(coords[j], accel.res, accel.srch);
    }
  }

  /** The slice of cell c lies within the accepted agents. */
  lemma SliceInRange(cnt: seq<int>, c: int)
    requires NonNegative(cnt) && 0 <= c < |cnt|
    ensures 0 <= Sum(cnt[..c]) && Sum(cnt[..c]) + cnt[c] <= Sum(cnt)
  {
    SumNonNegative(cnt, c);
    SumStep(cnt, c);
    SumMonotone(cnt, c + 1, |cnt|);
    assert cnt[..|cnt|] == cnt;
  }

  lemma SlotInRange(cells: seq<int>, cnt: seq<int>, j: int)
    requires CellsInGrid(cells, |cnt|) && cnt == Counts(cells, |cnt|)
    requires 0 <= j < |cells| && cells[j] != GRID_UNDEF
    ensures Sum(cnt[..cells[j]]) <= Slot(cells, cnt, j) < Sum(cnt[..cells[j]]) + cnt[cells[j]]
    ensures 0 <= Slot(cells, cnt, j) < Sum(cnt) <= |cells|
  {
    RankInBucket(cells, cells[j]);
    SliceInRange(cnt, cells[j]);
    SumOfCounts(cells, |cnt|);
  }

  /**
   * Filling every accepted agent's slot fills the slice of cell c with its
   * bucket, in order.
   */
  lemma ScatterFillsBucket(cells: seq<int>, cnt: seq<int>, g: seq<int>, c: int)
    requires CellsInGrid(cells, |cnt|) && cnt == Counts(cells, |cnt|) && |cnt| <= GRID_UNDEF
    requires |g| == |cells| && 0 <= c < |cnt|
    requires forall i {:trigger Slot(cells, cnt, i)} :: 0 <= i < |cells| && cells[i] != GRID_UNDEF ==>
               0 <= Slot(cells, cnt, i) < |g| && g[Slot(cells, cnt, i)] == i
    ensures 0 <= Sum(cnt[..c]) <= Sum(cnt[..c]) + cnt[c] <= |g|
    ensures g[Sum(cnt[..c])..Sum(cnt[..c]) + cnt[c]] == Bucket(cells, c)
  {
    SliceInRange(cnt, c);
    SumOfCounts(cells, |cnt|);
    assert cnt[c] == |Bucket(cells, c)|;
    FillsSlice(cells, cnt, g, c);
  }

  lemma FillsSlice(cells: seq<int>, cnt: seq<int>, g: seq<int>, c: int)
    requires CellsInGrid(cells, |cnt|) && 0 <= c < |cnt| && c != GRID_UNDEF
    requires 0 <= Sum(cnt[..c]) && Sum(cnt[..c]) + |Bucket(cells, c)| <= |g|
    requires forall i {:trigger Slot(cells, cnt, i)} :: 0 <= i < |cells| && cells[i] != GRID_UNDEF ==>
               0 <= Slot(cells, cnt, i) < |g| && g[Slot(cells, cnt, i)] == i
    ensures g[Sum(cnt[..c])..Sum(cnt[..c]) + |Bucket(cells, c)|] == Bucket(cells, c)
  {
    var b := Bucket(cells, c);
    var lo := Sum(cnt[..c]);
    var S := g[lo..lo + |b|];
    forall r | 0 <= r < |b|
      ensures S[r] == b[r]
    {
      var i := b[r];
      SlotInBucket(cells, cnt, c, r);
      assert 0 <= i < |cells| && cells[i] != GRID_UNDEF;
      assert g[Slot(cells, cnt, i)] == i;
      assert S[r] == g[lo + r];
    }
    assert S == b;
  }

  /** The r-th agent of a bucket has the r-th slot of that cell's slice. */
  lemma SlotInBucket(cells: seq<int>, cnt: seq<int>, c: int, r: int)
    requires 0 <= c < |cnt| && 0 <= r < |Bucket(cells, c)|
    ensures cells[Bucket(cells, c)[r]] == c
    ensures Slot(cells, cnt, Bucket(cells, c)[r]) == Sum(cnt[..c]) + r
  {
    BucketInCell(cells, c);
    BucketRank(cells, c, r);
  }


  /**
   * An accepted agent's slot differs from the slot of every earlier accepted
   * agent: agents of one cell differ in rank, and the slices of two cells do
   * not overlap.
   */
  lemma SlotsDistinct(cells: seq<int>, cnt: seq<int>, j: int)
    requires CellsInGrid(cells, |cnt|) && cnt == Counts(cells, |cnt|)
    requires 0 <= j < |cells| && cells[j] != GRID_UNDEF
    ensures forall i :: 0 <= i < j && cells[i] != GRID_UNDEF ==> Slot(cells, cnt, i) != Slot(cells, cnt, j)
  {
    forall i | 0 <= i < j && cells[i] != GRID_UNDEF
      ensures Slot(cells, cnt, i) != Slot(cells, cnt, j)
    {
      SlotInRange(cells, cnt, i);
      SlotInRange(cells, cnt, j);
      var ci, cj := cells[i], cells[j];
      if ci == cj {
        RankIncreasing(cells, i, j);
      } else if ci < cj {
        SumStep(cnt, ci);
        SumMonotone(cnt, ci + 1, cj);
      } else {
        SumStep(cnt, cj);
        SumMonotone(cnt, cj + 1, ci);
      }
    }
  }
}
