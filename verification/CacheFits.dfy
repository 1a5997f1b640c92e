/** Walks over a table that fits into the cache, in any order and with rows of any length: one miss a block. */
module CacheFits {
  import opened Bits
  import opened CacheAddresses
  import opened CacheLru
  import opened CacheTraces
  import opened CacheWalks
  import opened Products

  /** The numbers of the blocks that a trace reads. */
  function BlocksOf(g: Geometry, trace: seq<nat>): set<nat>
  {
    set i | 0 <= i < |trace| :: Shr(trace[i], g.offsetBits)
  }

  /** No set is asked for more blocks than it has lines. */
  ghost predicate SetsSuffice(g: Geometry, sets: Sets, trace: seq<nat>)
  {
    forall k | 0 <= k < |sets| :: |Elements(TagsIn(g, trace, k))| <= |sets[k]|
  }

  lemma BlockKnown(g: Geometry, trace: seq<nat>, a: nat)
    ensures TagOf(g, a) in TagsIn(g, trace, IndexOf(g, a)) <==> Shr(a, g.offsetBits) in BlocksOf(g, trace)
  {
    hide IndexOf, TagOf, Shr, TagsIn;
    if TagOf(g, a) in TagsIn(g, trace, IndexOf(g, a)) {
      var i := TagFromTrace(g, trace, IndexOf(g, a), TagOf(g, a));
      BlockNumber(g, trace[i]);
      BlockNumber(g, a);
    }
    if Shr(a, g.offsetBits) in BlocksOf(g, trace) {
      var i :| 0 <= i < |trace| && Shr(trace[i], g.offsetBits) == Shr(a, g.offsetBits);
      SameBlockSameSet(g, a, trace[i]);
      ReadTagIn(g, trace, i);
    }
  }

  lemma FewerBefore(g: Geometry, sets: Sets, before: seq<nat>, a: nat)
    requires SetsSuffice(g, sets, before + [a])
    ensures SetsSuffice(g, sets, before)
  {
    forall k | 0 <= k < |sets| ensures |Elements(TagsIn(g, before, k))| <= |sets[k]| {
      TagsOfPrefix(g, before, [a], k);
      SubsetCount(Elements(TagsIn(g, before, k)), Elements(TagsIn(g, before + [a], k)));
    }
  }

  lemma SubsetCount(a: set<int>, b: set<int>)
    requires a <= b
    ensures |a| <= |b|
  {
    assert b == a + (b - a);
  }

  /** Where the sets suffice, exactly the first read of each block misses. */
  lemma KnownBlockHits(g: Geometry, m: Memory, blockSize: nat, sets: Sets, before: seq<nat>, a: nat)
    requires FreshCache(g, sets, before + [a]) && SetsSuffice(g, sets, before + [a])
    ensures Usable(g, sets) && IndexOf(g, a) < |sets|
    ensures HitsAt(g, RunTrace(g, m, blockSize, sets, before), a) <==> Shr(a, g.offsetBits) in BlocksOf(g, before)
  {
    hide IndexOf, TagOf, Shr, RunTrace, HitsAt, TagsIn, Since, BlocksOf;
    ReadHitsIff(g, m, blockSize, sets, before, a);
    BlockKnown(g, before, a);
    FewerBefore(g, sets, before, a);
    var tags, t := TagsIn(g, before, IndexOf(g, a)), TagOf(g, a);
    SinceCount(tags, t);
    if t in tags { Smaller(Since(tags, t), Elements(tags), t); }
  }

  lemma OneMoreBlock(g: Geometry, before: seq<nat>, a: nat)
    ensures BlocksOf(g, before + [a]) == BlocksOf(g, before) + {Shr(a, g.offsetBits)}
  {
    var trace := before + [a];
    hide Shr;
    forall b | b in BlocksOf(g, before) + {Shr(a, g.offsetBits)} ensures b in BlocksOf(g, trace) {
      if b in BlocksOf(g, before) {
        var i :| 0 <= i < |before| && Shr(before[i], g.offsetBits) == b;
        assert trace[i] == before[i];
      } else {
        assert trace[|before|] == a;
      }
    }
  }

  /** The misses of any trace for which the sets suffice: as many as it reads blocks. */
  lemma {:induction false} FittingMisses(g: Geometry, m: Memory, blockSize: nat, sets: Sets, trace: seq<nat>)
    requires FreshCache(g, sets, trace) && SetsSuffice(g, sets, trace)
    ensures Usable(g, sets) && MissCount(g, m, blockSize, sets, trace) == |BlocksOf(g, trace)|
  {
    hide IndexOf, Shr, RunTrace, HitsAt, TagsIn, BlocksOf, SetsSuffice, FreshCache, Usable;
    FreshIsUnused(g, sets, trace);
    UnusedIsUsable(g, sets);
    if trace == [] {
      NoReads(g, m, blockSize, sets);
      NoBlocks(g);
    } else {
      var before, a := trace[..|trace| - 1], trace[|trace| - 1];
      assert trace == before + [a];
      FreshBefore(g, sets, before, a);
      FewerBefore(g, sets, before, a);
      FittingMisses(g, m, blockSize, sets, before);
      KnownBlockHits(g, m, blockSize, sets, before, a);
      OneMoreBlock(g, before, a);
      TraceGrows(g, m, blockSize, sets, before, a);
    }
  }

  lemma NoBlocks(g: Geometry)
    ensures BlocksOf(g, []) == {}
  {
  }

  // ---- a stretch of memory ----

  ghost predicate InStretch(g: Geometry, trace: seq<nat>, lo: nat, n: nat)
  {
    forall i | 0 <= i < |trace| :: lo <= Shr(trace[i], g.offsetBits) < lo + n
  }

  lemma {:induction false} IntervalCount(s: set<int>, lo: int, n: nat)
    requires forall t | t in s :: lo <= t < lo + n
    ensures |s| <= n
  {
    if n == 0 {
      assert forall t | t in s :: t in {lo};
      assert lo !in s;
      SubsetCount(s, {});
    } else {
      IntervalCount(s - {lo + n - 1}, lo, n - 1);
      SubsetCount(s, (s - {lo + n - 1}) + {lo + n - 1});
    }
  }

  /** The smallest tag of a set in a stretch that begins at block lo. */
  lemma TagsFrom(sets: nat, lo: nat, n: nat, lines: nat, k: nat) returns (first: int)
    requires k < sets && n <= sets * lines
    ensures forall t: int | lo <= sets * t + k < lo + n :: first <= t < first + lines
  {
    var q, d := Remains(lo, sets);
    first := if k >= d then q else q + 1;
    forall t: int | lo <= sets * t + k < lo + n ensures first <= t < first + lines {
      SumOf(sets, first, lines);
      SumOf(sets, q, 1);
      if t < first {
        SumOf(sets, t, 1);
        TimesWithin(sets, t + 1, t + 1, first);
      } else if t >= first + lines {
        TimesWithin(sets, first + lines, t, t);
      }
    }
  }

  /** A stretch of as many blocks as the cache has lines suffices, wherever it begins. */
  lemma StretchFits(g: Geometry, sets: Sets, trace: seq<nat>, lo: nat, n: nat, lines: nat)
    requires Wide(sets, lines) && InStretch(g, trace, lo, n) && n <= Pow2(g.indexBits) * lines
    ensures SetsSuffice(g, sets, trace)
  {
    hide IndexOf, TagOf, Shr, Pow2, TagsIn;
    forall k | 0 <= k < |sets| ensures |Elements(TagsIn(g, trace, k))| <= |sets[k]| {
      if k < Pow2(g.indexBits) {
        var first := TagsFrom(Pow2(g.indexBits), lo, n, lines, k);
        forall t | t in Elements(TagsIn(g, trace, k)) ensures first <= t < first + lines {
          var i := TagFromTrace(g, trace, k, t);
          BlockNumber(g, trace[i]);
        }
        IntervalCount(Elements(TagsIn(g, trace, k)), first, lines);
      } else if TagsIn(g, trace, k) != [] {
        var i := TagFromTrace(g, trace, k, TagsIn(g, trace, k)[0]);
        BlockNumber(g, trace[i]);
        assert false;
      }
    }
  }

  // ---- a table ----

  /** The walk stays in the table and visits every cell. */
  ghost predicate Covers(walk: seq<Cell>, rows: nat, cols: nat)
  {
    && (forall k | 0 <= k < |walk| :: walk[k].0 < rows && walk[k].1 < cols)
    && forall i: nat, j: nat | i < rows && j < cols :: (i, j) in walk
  }

  lemma ShrOrder(a: nat, b: nat, k: nat)
    requires a <= b
    ensures Shr(a, k) <= Shr(b, k)
  {
    hide Shr, Low, Pow2;
    SplitAt(a, k);
    SplitAt(b, k);
    if Shr(b, k) < Shr(a, k) {
      SumOf(Pow2(k), Shr(b, k), 1);
      TimesWithin(Pow2(k), Shr(b, k) + 1, Shr(b, k) + 1, Shr(a, k));
    }
  }

  lemma NextLong(a: nat, k: nat)
    requires k >= 3
    ensures Shr(a + 8, k) <= Shr(a, k) + 1
  {
    var q := EightBytes(k);
    hide Shr, Low, Pow2;
    SplitAt(a, k);
    SplitAt(a + 8, k);
    if Shr(a + 8, k) >= Shr(a, k) + 2 {
      SumOf(Pow2(k), Shr(a, k), 2);
      TimesWithin(Pow2(k), Shr(a, k) + 2, Shr(a, k) + 2, Shr(a + 8, k));
    }
  }

  /** Longs in a row leave out no block. */
  lemma {:induction false} LongInBlock(base: nat, k: nat, x: nat, n: nat) returns (l: nat)
    requires k >= 3 && Shr(base, k) <= x <= Shr(base + 8 * n, k)
    ensures l <= n && Shr(base + 8 * l, k) == x
  {
    if Shr(base + 8 * n, k) == x {
      l := n;
    } else {
      hide Shr;
      assert n > 0;
      NextLong(base + 8 * (n - 1), k);
      l := LongInBlock(base, k, x, n - 1);
    }
  }

  lemma BlockWithin(g: Geometry, base: nat, cols: nat, rows: nat, i: nat, j: nat)
    requires i < rows && j < cols
    ensures rows * cols > 0
    ensures Shr(base, g.offsetBits) <= Shr(Place(base, cols, i, j), g.offsetBits)
            <= Shr(base + 8 * (rows * cols - 1), g.offsetBits)
  {
    hide Shr;
    LastCell(rows, cols, i, j);
    ShrOrder(base, Place(base, cols, i, j), g.offsetBits);
    ShrOrder(Place(base, cols, i, j), base + 8 * (rows * cols - 1), g.offsetBits);
  }

  lemma BlockReached(g: Geometry, base: nat, cols: nat, rows: nat, b: nat) returns (i: nat, j: nat)
    requires g.offsetBits >= 3 && rows > 0 && cols > 0 && rows * cols > 0
    requires Shr(base, g.offsetBits) <= b <= Shr(base + 8 * (rows * cols - 1), g.offsetBits)
    ensures i < rows && j < cols && Shr(Place(base, cols, i, j), g.offsetBits) == b
  {
    hide Shr;
    var l := LongInBlock(base, g.offsetBits, b, rows * cols - 1);
    var q, d := Remains(l, cols);
    Cancels(cols, -1, q);
    Cancels(cols, q, rows);
    i, j := q, d;
  }

  /** The blocks of a table are those from its first to its last long. */
  lemma BlocksOfTable(g: Geometry, base: nat, cols: nat, rows: nat, walk: seq<Cell>)
    requires g.offsetBits >= 3 && rows > 0 && cols > 0 && Covers(walk, rows, cols)
    ensures rows * cols > 0
    ensures var first, last := Shr(base, g.offsetBits), Shr(base + 8 * (rows * cols - 1), g.offsetBits);
            forall b: nat :: b in BlocksOf(g, Addresses(base, cols, walk)) <==> first <= b <= last
  {
    hide Shr, Place;
    BlockWithin(g, base, cols, rows, 0, 0);
    var trace, k, n := Addresses(base, cols, walk), g.offsetBits, rows * cols - 1;
    forall b: nat | b in BlocksOf(g, trace) ensures Shr(base, k) <= b <= Shr(base + 8 * n, k) {
      var x :| 0 <= x < |trace| && Shr(trace[x], k) == b;
      BlockWithin(g, base, cols, rows, walk[x].0, walk[x].1);
    }
    forall b: nat | Shr(base, k) <= b <= Shr(base + 8 * n, k) ensures b in BlocksOf(g, trace) {
      var i, j := BlockReached(g, base, cols, rows, b);
      assert (i, j) in walk;
      var x :| 0 <= x < |walk| && walk[x] == (i, j);
      assert trace[x] == Place(base, cols, i, j);
    }
  }

  lemma LastCell(rows: nat, cols: nat, i: nat, j: nat)
    requires i < rows && j < cols
    ensures 0 <= i * cols + j <= rows * cols - 1
  {
    SumOf(cols, i, 1);
    MulMonotone(cols, i + 1, rows);
  }

  lemma {:induction false} IntervalSize(s: set<nat>, lo: nat, n: nat)
    requires forall t: nat :: t in s <==> lo <= t < lo + n
    ensures |s| == n
  {
    if n == 0 {
      assert s == {};
    } else {
      IntervalSize(s - {lo + n - 1}, lo, n - 1);
    }
  }

  /** A walk over a table that spans at most as many blocks as the cache has lines misses once a block: whatever the
      order, wherever the table begins, and with rows of any length. */
  lemma FittingWalkMisses(g: Geometry, m: Memory, blockSize: nat, sets: Sets, base: nat, cols: nat, rows: nat,
                          lines: nat, walk: seq<Cell>, n: int)
    requires g.offsetBits >= 3 && rows > 0 && cols > 0 && Covers(walk, rows, cols) && Wide(sets, lines)
    requires FreshCache(g, sets, Addresses(base, cols, walk))
    requires n == Shr(base + 8 * (rows * cols - 1), g.offsetBits) - Shr(base, g.offsetBits) + 1
    requires n <= Pow2(g.indexBits) * lines
    ensures Usable(g, sets) && MissCount(g, m, blockSize, sets, Addresses(base, cols, walk)) == n
  {
    hide Shr, Pow2, FreshCache, MissCount, Covers, Place, TagsIn;
    var trace, first := Addresses(base, cols, walk), Shr(base, g.offsetBits);
    BlocksOfTable(g, base, cols, rows, walk);
    ShrOrder(base, base + 8 * (rows * cols - 1), g.offsetBits);
    forall i | 0 <= i < |trace| ensures first <= Shr(trace[i], g.offsetBits) < first + n {
      assert Shr(trace[i], g.offsetBits) in BlocksOf(g, trace);
    }
    StretchFits(g, sets, trace, first, n, lines);
    FittingMisses(g, m, blockSize, sets, trace);
    IntervalSize(BlocksOf(g, trace), first, n);
  }

  // ---- the walks of the test program ----

  lemma {:induction false} ColumnWalkCovers(rows: nat, n: nat)
    ensures Covers(ColumnWalk(rows, n), rows, n)
  {
    if n > 0 {
      ColumnWalkCovers(rows, n - 1);
      var w, v, d := ColumnWalk(rows, n), ColumnWalk(rows, n - 1), Down(n - 1, 0, rows);
      forall i: nat, j: nat | i < rows && j < n ensures (i, j) in w {
        if j < n - 1 {
          assert (i, j) in v;
        } else {
          assert d[i] == (i, j);
        }
      }
    }
  }

  lemma QuadHas(h: nat, j: nat, x: nat, y: nat)
    requires 2 * h <= x <= 2 * h + 1 && j <= y <= j + 1
    ensures (x, y) in Quad(h, j)
  {
    assert Quad(h, j)[(x - 2 * h) + 2 * (y - j)] == (x, y);
  }

  lemma InConcat(a: seq<Cell>, b: seq<Cell>, c: Cell)
    requires c in a || c in b
    ensures c in a + b
  {
  }

  lemma {:induction false} QuadsCover(j: nat, lo: nat, hi: nat, x: nat, y: nat)
    requires lo <= hi && 2 * lo <= x < 2 * hi && j <= y <= j + 1
    ensures (x, y) in Quads(j, lo, hi)
    decreases hi
  {
    hide Quad;
    if x < 2 * hi - 2 {
      QuadsCover(j, lo, hi - 1, x, y);
    } else {
      QuadHas(hi - 1, j, x, y);
    }
    InConcat(Quads(j, lo, hi - 1), Quad(hi - 1, j), (x, y));
  }

  lemma {:induction false} PairWalkCovers(h: nat, n: nat)
    ensures Covers(PairWalk(h, n), 2 * h, 2 * n)
  {
    PairWalkWithin(h, n);
    forall i: nat, j: nat | i < 2 * h && j < 2 * n ensures (i, j) in PairWalk(h, n) {
      PairWalkVisits(h, n, i, j);
    }
  }

  lemma {:induction false} PairWalkWithin(h: nat, n: nat)
    ensures forall k | 0 <= k < |PairWalk(h, n)| :: PairWalk(h, n)[k].0 < 2 * h && PairWalk(h, n)[k].1 < 2 * n
  {
    if n > 0 {
      hide Quads;
      PairWalkWithin(h, n - 1);
      QuadsVisit(2 * (n - 1), 0, h);
    }
  }

  lemma {:induction false} PairWalkVisits(h: nat, n: nat, i: nat, j: nat)
    requires i < 2 * h && j < 2 * n
    ensures (i, j) in PairWalk(h, n)
  {
    hide Quads;
    if j >= 2 * (n - 1) {
      QuadsCover(2 * (n - 1), 0, h, i, j);
    } else {
      PairWalkVisits(h, n - 1, i, j);
    }
    InConcat(PairWalk(h, n - 1), Quads(2 * (n - 1), 0, h), (i, j));
  }

  /** A table that fits misses once a block also column by column and two by two. */
  lemma FittingTable(g: Geometry, m: Memory, blockSize: nat, sets: Sets, base: nat, cols: nat, rows: nat,
                     lines: nat, n: int)
    requires g.offsetBits >= 3 && rows > 0 && cols > 0 && Wide(sets, lines)
    requires n == Shr(base + 8 * (rows * cols - 1), g.offsetBits) - Shr(base, g.offsetBits) + 1
    requires n <= Pow2(g.indexBits) * lines
    ensures FreshCache(g, sets, Addresses(base, cols, ColumnWalk(rows, cols))) ==>
              Usable(g, sets) && MissCount(g, m, blockSize, sets, Addresses(base, cols, ColumnWalk(rows, cols))) == n
    ensures rows % 2 == 0 && cols % 2 == 0
            && FreshCache(g, sets, Addresses(base, cols, PairWalk(rows / 2, cols / 2))) ==>
              && Usable(g, sets)
              && MissCount(g, m, blockSize, sets, Addresses(base, cols, PairWalk(rows / 2, cols / 2))) == n
  {
    hide *;
    if FreshCache(g, sets, Addresses(base, cols, ColumnWalk(rows, cols))) {
      ColumnWalkCovers(rows, cols);
      FittingWalkMisses(g, m, blockSize, sets, base, cols, rows, lines, ColumnWalk(rows, cols), n);
    }
    if rows % 2 == 0 && cols % 2 == 0 && FreshCache(g, sets, Addresses(base, cols, PairWalk(rows / 2, cols / 2))) {
      PairWalkCovers(rows / 2, cols / 2);
      FittingWalkMisses(g, m, blockSize, sets, base, cols, rows, lines, PairWalk(rows / 2, cols / 2), n);
    }
  }
}
