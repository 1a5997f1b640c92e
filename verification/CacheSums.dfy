/** The traversals of lab6/cache-test.c: three orders of reading an array through the cache. */
module CacheSums {
  import opened Bits
  import opened CacheAddresses
  import opened CacheMemory
  import opened CacheTraces
  import opened CacheWalks
  import opened Products
  import opened Sums

  function EntriesOf(m: Memory, base: nat, cols: nat): Entry
  {
    (i: nat, j: nat) => LongAt(m, Place(base, cols, i, j))
  }

  ghost predicate ArrayFits(base: nat, rows: nat, cols: nat)
  {
    base % 8 == 0 && base + 8 * (rows * cols) <= ADDRESS_LIMIT
  }

  lemma EntryAt(m: Memory, base: nat, rows: nat, cols: nat, i: nat, j: nat)
    requires ArrayFits(base, rows, cols) && i < rows && j < cols
    ensures Place(base, cols, i, j) == base + 8 * (i * cols + j)
    ensures Place(base, cols, i, j) < ADDRESS_LIMIT && Place(base, cols, i, j) % 8 == 0
    ensures EntriesOf(m, base, cols)(i, j) == LongAt(m, Place(base, cols, i, j))
  {
    assert i * cols + cols == (i + 1) * cols;
    MulMonotone(cols, i + 1, rows);
    Remainder(Place(base, cols, i, j), 8, base / 8 + (i * cols + j), 0);
  }

  /** The next even number. */
  function Up(n: nat): nat { n + n % 2 }

  /** The array and what a walk two by two reads behind it. */
  ghost predicate PairsFit(base: nat, rows: nat, cols: nat)
  {
    base % 8 == 0 && base + 8 * (Up(rows) * cols + cols % 2) <= ADDRESS_LIMIT
  }

  lemma PairAt(m: Memory, base: nat, rows: nat, cols: nat, i: nat, j: nat)
    requires PairsFit(base, rows, cols) && i < Up(rows) && j < Up(cols)
    ensures Place(base, cols, i, j) < ADDRESS_LIMIT && Place(base, cols, i, j) % 8 == 0
    ensures EntriesOf(m, base, cols)(i, j) == LongAt(m, Place(base, cols, i, j))
  {
    assert i * cols + cols == (i + 1) * cols;
    MulMonotone(cols, i + 1, Up(rows));
    Remainder(Place(base, cols, i, j), 8, base / 8 + (i * cols + j), 0);
  }

  // ---- traversals as traces ----

  /** Contents and miss counter of a cache after reading the addresses of a trace. */
  ghost predicate Traced(g: Geometry, m: Memory, blockSize: nat, sets: Sets, misses: Counter, trace: seq<nat>,
                         contents: Sets, counter: Counter)
  {
    && Usable(g, sets)
    && contents == RunTrace(g, m, blockSize, sets, trace)
    && counter == (misses + MissCount(g, m, blockSize, sets, trace)) % COUNTER_LIMIT
  }

  lemma TraceStarts(g: Geometry, m: Memory, blockSize: nat, sets: Sets, misses: Counter)
    requires Usable(g, sets)
    ensures Traced(g, m, blockSize, sets, misses, [], sets, misses)
  {
  }

  lemma CacheUsable(cache: Cache)
    requires cache.Valid()
    ensures Usable(cache.G(), cache.Contents())
  {
  }

  lemma TracedUsable(g: Geometry, m: Memory, blockSize: nat, sets: Sets, misses: Counter, trace: seq<nat>, a: nat,
                     contents: Sets, counter: Counter)
    requires Traced(g, m, blockSize, sets, misses, trace, contents, counter)
    ensures IndexOf(g, a) < |contents| && |contents[IndexOf(g, a)]| > 0
  {
    BlockNumber(g, a);
    hide IndexOf;
  }

  lemma TraceAdvances(g: Geometry, m: Memory, blockSize: nat, sets: Sets, misses: Counter, trace: seq<nat>, a: nat,
                      contents: Sets, counter: Counter, contents': Sets, counter': Counter)
    requires Traced(g, m, blockSize, sets, misses, trace, contents, counter)
    requires IndexOf(g, a) < |contents| && |contents[IndexOf(g, a)]| > 0
    requires contents' == ReadAt(g, m, blockSize, contents, a)
    requires counter' == if HitsAt(g, contents, a) then counter else Increment(counter)
    ensures Traced(g, m, blockSize, sets, misses, trace + [a], contents', counter')
  {
    hide RunTrace, MissCount, ReadAt, HitsAt, IndexOf;
    TraceGrows(g, m, blockSize, sets, trace, a);
  }

  /** A read of entry (i, j): its value, and any trace so far grows by its address. */
  method ReadEntry(cache: Cache, base: nat, cols: nat, i: nat, j: nat,
                   ghost sets: Sets, ghost misses: Counter, ghost trace: seq<nat>)
    returns (value: int)
    requires cache.Valid() && Place(base, cols, i, j) < ADDRESS_LIMIT && Place(base, cols, i, j) % 8 == 0
    modifies cache, cache.sets, cache.allLines
    ensures cache.Valid() && value == EntriesOf(cache.memory, base, cols)(i, j)
    ensures old(Traced(cache.G(), cache.memory, cache.blockSize, sets, misses, trace, cache.Contents(),
                       cache.missCount))
            ==> Traced(cache.G(), cache.memory, cache.blockSize, sets, misses, trace + [Place(base, cols, i, j)],
                       cache.Contents(), cache.missCount)
  {
    hide Traced, EntriesOf, Place;
    ghost var a, contents, counter := Place(base, cols, i, j), cache.Contents(), cache.missCount;
    value := cache.CacheRead(Place(base, cols, i, j));
    EntryIs(cache.memory, base, cols, i, j);
    if Traced(cache.G(), cache.memory, cache.blockSize, sets, misses, trace, contents, counter) {
      TracedUsable(cache.G(), cache.memory, cache.blockSize, sets, misses, trace, a, contents, counter);
      TraceAdvances(cache.G(), cache.memory, cache.blockSize, sets, misses, trace, a, contents, counter,
                    cache.Contents(), cache.missCount);
    }
  }

  lemma EntryIs(m: Memory, base: nat, cols: nat, i: nat, j: nat)
    ensures EntriesOf(m, base, cols)(i, j) == LongAt(m, Place(base, cols, i, j))
  {
  }

  /** The miss counter of a new cache counts the misses of the trace. */
  lemma CounterCounts(g: Geometry, m: Memory, blockSize: nat, sets: Sets, trace: seq<nat>, contents: Sets,
                      counter: Counter)
    requires Traced(g, m, blockSize, sets, 0, trace, contents, counter)
    requires MissCount(g, m, blockSize, sets, trace) < COUNTER_LIMIT
    ensures counter == MissCount(g, m, blockSize, sets, trace)
  {
    hide RunTrace, MissCount;
  }

  /** After a scan on a new cache the miss counter is 8 n / block size, rounded up. */
  lemma ScanCounts(g: Geometry, m: Memory, blockSize: nat, sets: Sets, block: nat, base: nat, n: nat,
                   contents: Sets, counter: Counter)
    requires Traced(g, m, blockSize, sets, 0, Scan(base, n), contents, counter) && UnusedCache(g, sets)
    requires g.offsetBits >= 3 && base == Pow2(g.offsetBits) * block && base + 8 * n <= ADDRESS_LIMIT
    ensures IsCeiling(counter, 8 * n, Pow2(g.offsetBits))
  {
    hide Pow2, UnusedCache, RunTrace, MissCount, IsCeiling;
    UnusedIsUsable(g, sets);
    ScanMisses(g, m, blockSize, sets, block, base, n);
    Pow2Monotone(3, g.offsetBits);
    CeilingSmall(MissCount(g, m, blockSize, sets, Scan(base, n)), n, Pow2(g.offsetBits));
    CounterCounts(g, m, blockSize, sets, Scan(base, n), contents, counter);
  }

  lemma CeilingSmall(c: nat, n: nat, d: nat)
    requires IsCeiling(c, 8 * n, d) && d >= 1
    ensures c <= 8 * n
  {
    if c > 8 * n {
      MulMonotone(c - 1, 1, d);
    }
  }

  lemma NextOfScan(base: nat, cols: nat, i: nat, j: nat)
    ensures Scan(base, i * cols + j) + [Place(base, cols, i, j)] == Scan(base, i * cols + (j + 1))
    ensures i * cols + cols == (i + 1) * cols + 0 && Scan(base, 0 * cols + 0) == []
  {
  }

  // Sums are mathematical: the C code adds in a long, or in an int for SumC, which must not overflow.

  /** Row by row. */
  method SumA(cache: Cache, base: nat, rows: nat, cols: nat) returns (sum: int)
    requires cache.Valid() && ArrayFits(base, rows, cols)
    modifies cache, cache.sets, cache.allLines
    ensures cache.Valid() && sum == Rows(EntriesOf(cache.memory, base, cols), rows, cols)
    ensures Traced(cache.G(), cache.memory, cache.blockSize, old(cache.Contents()), old(cache.missCount),
                   Scan(base, rows * cols), cache.Contents(), cache.missCount)
  {
    hide *;
    ghost var f, sets, misses := EntriesOf(cache.memory, base, cols), cache.Contents(), cache.missCount;
    ghost var g, m, blockSize := cache.G(), cache.memory, cache.blockSize;
    CacheUsable(cache);
    TraceStarts(g, m, blockSize, sets, misses);
    NextOfScan(base, cols, 0, 0);
    TotalsGrow(f, 0, cols);
    sum := 0;
    var i := 0;
    while i < rows
      invariant cache.Valid() && i <= rows && sum == Rows(f, i, cols)
      invariant Traced(g, m, blockSize, sets, misses, Scan(base, i * cols + 0), cache.Contents(), cache.missCount)
    {
      var j := 0;
      PartsGrow(f, i, 0);
      while j < cols
        invariant cache.Valid() && j <= cols && sum == Rows(f, i, cols) + RowPart(f, i, j)
        invariant Traced(g, m, blockSize, sets, misses, Scan(base, i * cols + j), cache.Contents(), cache.missCount)
      {
        EntryAt(m, base, rows, cols, i, j);
        var value := ReadEntry(cache, base, cols, i, j, sets, misses, Scan(base, i * cols + j));
        NextOfScan(base, cols, i, j);
        PartsGrow(f, i, j);
        sum := sum + value;
        j := j + 1;
      }
      NextOfScan(base, cols, i, 0);
      TotalsGrow(f, i, cols);
      i := i + 1;
    }
  }

  lemma NextOfColumn(base: nat, cols: nat, rows: nat, i: nat, j: nat)
    ensures Addresses(base, cols, ColumnWalk(rows, j) + Down(j, 0, i)) + [Place(base, cols, i, j)]
         == Addresses(base, cols, ColumnWalk(rows, j) + Down(j, 0, i + 1))
    ensures Addresses(base, cols, ColumnWalk(rows, j) + Down(j, 0, rows))
         == Addresses(base, cols, ColumnWalk(rows, j + 1) + Down(j + 1, 0, 0))
    ensures Addresses(base, cols, ColumnWalk(rows, 0) + Down(0, 0, 0)) == []
    ensures ColumnWalk(rows, j) + Down(j, 0, 0) == ColumnWalk(rows, j)
  {
    hide Place, ColumnWalk;
    NextColumn(rows, j + 1);
    NoWalk(rows, base, cols);
    DownGrows(rows, j, i + 1);
    AddressesConcat(base, cols, ColumnWalk(rows, j) + Down(j, 0, i), [(i, j)]);
    AddressesOfOne(base, cols, (i, j));
  }

  /** Column by column. */
  method SumB(cache: Cache, base: nat, rows: nat, cols: nat) returns (sum: int)
    requires cache.Valid() && ArrayFits(base, rows, cols)
    modifies cache, cache.sets, cache.allLines
    ensures cache.Valid() && sum == Rows(EntriesOf(cache.memory, base, cols), rows, cols)
    ensures Traced(cache.G(), cache.memory, cache.blockSize, old(cache.Contents()), old(cache.missCount),
                   Addresses(base, cols, ColumnWalk(rows, cols)), cache.Contents(), cache.missCount)
  {
    hide *;
    ghost var f, sets, misses := EntriesOf(cache.memory, base, cols), cache.Contents(), cache.missCount;
    ghost var g, m, blockSize := cache.G(), cache.memory, cache.blockSize;
    CacheUsable(cache);
    TraceStarts(g, m, blockSize, sets, misses);
    NextOfColumn(base, cols, rows, 0, 0);
    sum := 0;
    var j := 0;
    TotalsGrow(f, rows, 0);
    while j < cols
      invariant cache.Valid() && j <= cols && sum == Cols(f, rows, j)
      invariant Traced(g, m, blockSize, sets, misses, Addresses(base, cols, ColumnWalk(rows, j) + Down(j, 0, 0)),
                       cache.Contents(), cache.missCount)
    {
      var i := 0;
      PartsGrow(f, 0, j);
      while i < rows
        invariant cache.Valid() && i <= rows && sum == Cols(f, rows, j) + ColPart(f, j, i)
        invariant Traced(g, m, blockSize, sets, misses, Addresses(base, cols, ColumnWalk(rows, j) + Down(j, 0, i)),
                         cache.Contents(), cache.missCount)
      {
        EntryAt(m, base, rows, cols, i, j);
        var value := ReadEntry(cache, base, cols, i, j, sets, misses,
                               Addresses(base, cols, ColumnWalk(rows, j) + Down(j, 0, i)));
        NextOfColumn(base, cols, rows, i, j);
        PartsGrow(f, i, j);
        sum := sum + value;
        i := i + 1;
      }
      NextOfColumn(base, cols, rows, 0, j);
      TotalsGrow(f, rows, j);
      j := j + 1;
    }
    NextOfColumn(base, cols, rows, 0, j);
    SameTotal(f, rows, cols);
  }

  lemma NextOfPairs(base: nat, cols: nat, pairs: nat, n: nat, h: nat, k: nat)
    requires h < pairs && k < 4
    ensures Addresses(base, cols, PairsBefore(pairs, n, h, k)) + [Place(base, cols, 2 * h + k % 2, 2 * n + k / 2)]
         == Addresses(base, cols, PairsBefore(pairs, n, h, k + 1))
  {
    hide *;
    QuadCell(pairs, n, h, k);
    AddressesConcat(base, cols, PairsBefore(pairs, n, h, k), [(2 * h + k % 2, 2 * n + k / 2)]);
    AddressesOfOne(base, cols, (2 * h + k % 2, 2 * n + k / 2));
  }

  /** Four reads, in this order. */
  method ReadPair(cache: Cache, base: nat, rows: nat, cols: nat, h: nat, n: nat, ghost pairs: nat,
                  ghost sets: Sets, ghost misses: Counter)
    returns (value: int)
    requires cache.Valid() && PairsFit(base, rows, cols) && h < pairs && 2 * pairs == Up(rows) && 2 * n + 2 <= Up(cols)
    modifies cache, cache.sets, cache.allLines
    ensures cache.Valid()
    ensures var f := EntriesOf(cache.memory, base, cols);
            value == f(2 * h, 2 * n) + f(2 * h + 1, 2 * n) + f(2 * h, 2 * n + 1) + f(2 * h + 1, 2 * n + 1)
    ensures var trace := Addresses(base, cols, PairsBefore(pairs, n, h, 0));
            old(Traced(cache.G(), cache.memory, cache.blockSize, sets, misses, trace, cache.Contents(),
                       cache.missCount))
            ==> Traced(cache.G(), cache.memory, cache.blockSize, sets, misses,
                       Addresses(base, cols, PairsBefore(pairs, n, h, 4)), cache.Contents(), cache.missCount)
  {
    hide *;
    ghost var m := cache.memory;
    PairAt(m, base, rows, cols, 2 * h, 2 * n);
    PairAt(m, base, rows, cols, 2 * h + 1, 2 * n);
    PairAt(m, base, rows, cols, 2 * h, 2 * n + 1);
    PairAt(m, base, rows, cols, 2 * h + 1, 2 * n + 1);
    NextOfPairs(base, cols, pairs, n, h, 0);
    NextOfPairs(base, cols, pairs, n, h, 1);
    NextOfPairs(base, cols, pairs, n, h, 2);
    NextOfPairs(base, cols, pairs, n, h, 3);
    var a := ReadEntry(cache, base, cols, 2 * h, 2 * n, sets, misses,
                       Addresses(base, cols, PairsBefore(pairs, n, h, 0)));
    var b := ReadEntry(cache, base, cols, 2 * h + 1, 2 * n, sets, misses,
                       Addresses(base, cols, PairsBefore(pairs, n, h, 1)));
    var c := ReadEntry(cache, base, cols, 2 * h, 2 * n + 1, sets, misses,
                       Addresses(base, cols, PairsBefore(pairs, n, h, 2)));
    var d := ReadEntry(cache, base, cols, 2 * h + 1, 2 * n + 1, sets, misses,
                       Addresses(base, cols, PairsBefore(pairs, n, h, 3)));
    value := a + b + c + d;
  }

  lemma HalfOf(n: nat, i: nat)
    requires i % 2 == 0
    ensures Up(n) % 2 == 0 && (n % 2 == 0 ==> Up(n) == n) && 2 * (Up(n) / 2) == Up(n) && 2 * (i / 2) == i
    ensures if i < n then i + 2 <= Up(n) && i / 2 < Up(n) / 2 && (i + 2) / 2 == i / 2 + 1 else i >= Up(n)
  {
  }

  /** Two by two: for even numbers of rows and columns this is the same total again. For odd ones the walk also
      adds what lies behind the rows and the array. */
  method SumC(cache: Cache, base: nat, rows: nat, cols: nat) returns (sum: int)
    requires cache.Valid() && PairsFit(base, rows, cols)
    modifies cache, cache.sets, cache.allLines
    ensures cache.Valid() && sum == Rows(EntriesOf(cache.memory, base, cols), Up(rows), Up(cols))
    ensures rows % 2 == 0 && cols % 2 == 0 ==> sum == Rows(EntriesOf(cache.memory, base, cols), rows, cols)
    ensures Traced(cache.G(), cache.memory, cache.blockSize, old(cache.Contents()), old(cache.missCount),
                   Addresses(base, cols, PairWalk(Up(rows) / 2, Up(cols) / 2)), cache.Contents(), cache.missCount)
  {
    hide *;
    ghost var f, sets, misses := EntriesOf(cache.memory, base, cols), cache.Contents(), cache.missCount;
    ghost var g, m, blockSize, pairs := cache.G(), cache.memory, cache.blockSize, Up(rows) / 2;
    CacheUsable(cache);
    TraceStarts(g, m, blockSize, sets, misses);
    NoPairs(pairs, base, cols);
    sum := 0;
    var j := 0;
    HalfOf(rows, 0);
    HalfOf(cols, 0);
    TotalsGrow(f, Up(rows), 0);
    while j < cols
      invariant cache.Valid() && j <= Up(cols) && j % 2 == 0 && sum == Cols(f, Up(rows), j)
      invariant Traced(g, m, blockSize, sets, misses, Addresses(base, cols, PairsBefore(pairs, j / 2, 0, 0)),
                       cache.Contents(), cache.missCount)
    {
      var i := 0;
      HalfOf(cols, j);
      PartsGrow(f, 0, j);
      PartsGrow(f, 0, j + 1);
      while i < rows
        invariant cache.Valid() && i <= Up(rows) && i % 2 == 0
        invariant sum == Cols(f, Up(rows), j) + ColPart(f, j, i) + ColPart(f, j + 1, i)
        invariant Traced(g, m, blockSize, sets, misses, Addresses(base, cols, PairsBefore(pairs, j / 2, i / 2, 0)),
                         cache.Contents(), cache.missCount)
      {
        HalfOf(rows, i);
        var value := ReadPair(cache, base, rows, cols, i / 2, j / 2, pairs, sets, misses);
        NextPair(pairs, j / 2, i / 2);
        PartsGrow(f, i, j);
        PartsGrow(f, i, j + 1);
        PartsGrow(f, i + 1, j);
        PartsGrow(f, i + 1, j + 1);
        sum := sum + value;
        i := i + 2;
      }
      HalfOf(rows, i);
      NextPairColumn(pairs, j / 2 + 1);
      TotalsGrow(f, Up(rows), j);
      TotalsGrow(f, Up(rows), j + 1);
      j := j + 2;
    }
    HalfOf(cols, j);
    WholePairWalk(pairs, j / 2);
    SameTotal(f, Up(rows), Up(cols));
  }
}
