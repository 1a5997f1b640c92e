/** The test program lab6/cache-test.c: new caches, and what the three traversals sum up and miss. */
module CacheTest {
  import opened Bits
  import opened CacheAddresses
  import opened CacheMemory
  import opened CacheSums
  import opened CacheTraces
  import opened CacheWalks
  import opened Products
  import opened Sums

  /** What cache_new promises, in the terms of the traces. */
  lemma NewIsUnused(cache: Cache)
    requires cache.Valid()
    requires forall k, i | 0 <= k < |cache.sets| && 0 <= i < cache.associativity :: !cache.Contents()[k][i].valid
    ensures UnusedCache(cache.G(), cache.Contents()) && Wide(cache.Contents(), cache.associativity)
    ensures cache.G().offsetBits >= 3
  {
  }

  lemma SmallerLogarithm(a: nat, b: nat)
    requires a < b
    ensures 2 * Pow2(a) <= Pow2(b)
  {
    Pow2Monotone(a + 1, b);
  }

  lemma SameLogarithm(a: nat, b: nat, v: nat)
    requires Pow2(a) <= v < 2 * Pow2(a) && Pow2(b) <= v < 2 * Pow2(b)
    ensures a == b
  {
    hide Pow2;
    if a < b {
      SmallerLogarithm(a, b);
    } else if b < a {
      SmallerLogarithm(b, a);
    }
  }

  lemma ShiftIs(cache: Cache, bits: nat)
    requires cache.Configured() && cache.blockSize < 2 * Pow2(cache.G().offsetBits)
    requires Pow2(bits) <= cache.blockSize < 2 * Pow2(bits)
    ensures cache.G().offsetBits == bits
  {
    SameLogarithm(cache.G().offsetBits, bits, cache.blockSize);
  }

  /** sumA on a cache of any size and shape, just created: from a block-aligned base, the miss counter ends at the
      number of blocks of the array. */
  method SumOnNewCache(numBlocks: nat, blockSize: nat, associativity: nat, memory: Memory,
                       base: nat, rows: nat, cols: nat, ghost bits: nat, ghost block: nat)
    returns (cache: Cache, sum: int)
    requires 0 < associativity <= numBlocks < ADDRESS_LIMIT && 8 <= blockSize < ADDRESS_LIMIT
    requires Pow2(bits) <= blockSize < 2 * Pow2(bits) && base == Pow2(bits) * block && ArrayFits(base, rows, cols)
    ensures fresh(cache) && sum == Rows(EntriesOf(memory, base, cols), rows, cols)
    ensures IsCeiling(cache.missCount, 8 * (rows * cols), Pow2(bits))
  {
    hide *;
    cache := new Cache.CacheNew(numBlocks, blockSize, associativity, memory);
    ghost var g, contents := cache.G(), cache.Contents();
    NewIsUnused(cache);
    ValidIsConfigured(cache);
    ShiftIs(cache, bits);
    sum := SumA(cache, base, rows, cols);
    FitsBelow(base, rows, cols);
    ScanCounts(g, memory, blockSize, contents, block, base, rows * cols, cache.Contents(), cache.missCount);
  }

  lemma ValidIsConfigured(cache: Cache)
    requires cache.Valid()
    ensures cache.Configured()
  {
  }

  lemma FitsBelow(base: nat, rows: nat, cols: nat)
    requires ArrayFits(base, rows, cols)
    ensures base + 8 * (rows * cols) <= ADDRESS_LIMIT
  {
  }

  // ---- the program's own numbers: 256 blocks of 64 bytes, one to a set, and 64 by 64 longs ----

  /** 64-byte blocks and 256 sets. */
  const TEST := Geometry(6, 8)

  lemma TestShape()
    ensures Pow2(6) == 64 && Pow2(8) == 256 && TEST.offsetBits == 6 && TEST.indexBits == 8
    ensures 4096 < ADDRESS_LIMIT && 4096 < COUNTER_LIMIT
  {
    assert Pow2(3) == 8 && Pow2(6) == 64;
  }

  /** Rows 32 apart share their sets, neighbours never do. */
  lemma TestRows(i: nat)
    requires i < 64
    ensures Crowded(TEST, 8, 1, 64, i) && !Clashes(TEST, 8, 1, i)
  {
    TestShape();
    hide Pow2;
    var x := if i < 32 then i + 32 else i - 32;
    assert Together(TEST, 8, i, x);
    var r := Rivals(TEST, 8, i, AllRows(64));
    TwoElements(r, i, x);
  }

  lemma TwoElements(s: set<nat>, x: nat, y: nat)
    requires x in s && y in s && x != y
    ensures |s| > 1
  {
    assert s == {x, y} + (s - {x, y});
  }

  lemma {:induction false} TestColumnTotal(n: nat)
    requires n <= 64
    ensures ColumnTotal(TEST, 8, 8, 1, 64, n) == 64 * n
  {
    hide Crowded;
    if n > 0 {
      TestColumnTotal(n - 1);
      TestRows(n - 1);
    }
  }

  lemma {:induction false} TestPairTotal(n: nat)
    requires n <= 64
    ensures PairTotal(TEST, 8, 8, 1, 64, n) == 32 * n
  {
    hide Crowded, Clashes;
    if n > 0 {
      TestPairTotal(n - 1);
      TestRows(n - 1);
    }
  }

  lemma TestAligned(base: nat)
    requires base % 1024 == 0
    ensures Aligned(TEST, base, 64, base / 64, 8, 8) && base == 64 * (base / 64)
  {
    TestShape();
    hide Pow2;
  }

  /** The number of misses of each traversal, on a new cache. */
  lemma TestMisses(m: Memory, sets: Sets, base: nat)
    requires UnusedCache(TEST, sets) && Wide(sets, 1) && base % 1024 == 0
    ensures Usable(TEST, sets)
    ensures MissCount(TEST, m, 64, sets, Scan(base, 64 * 64)) == 512
    ensures MissCount(TEST, m, 64, sets, Addresses(base, 64, ColumnWalk(64, 64))) == 4096
    ensures MissCount(TEST, m, 64, sets, Addresses(base, 64, PairWalk(32, 32))) == 2048
  {
    hide *;
    UnusedIsUsable(TEST, sets);
    TestShape();
    TestAligned(base);
    WideOne(sets);
    DirectMappedIsFresh(TEST, sets, Addresses(base, 64, ColumnWalk(64, 64)));
    DirectMappedIsFresh(TEST, sets, Addresses(base, 64, PairWalk(32, 32)));
    ScanMisses(TEST, m, 64, sets, base / 64, base, 4096);
    BlockCount(MissCount(TEST, m, 64, sets, Scan(base, 64 * 64)));
    ColumnWalkMisses(TEST, m, 64, sets, base, 64, base / 64, 8, 8, 1, 64);
    TestColumnTotal(64);
    PairWalkMisses(TEST, m, 64, sets, base, 64, base / 64, 8, 8, 1, 32);
    TestPairTotal(64);
  }

  lemma WideOne(sets: Sets)
    requires Wide(sets, 1)
    ensures forall k | 0 <= k < |sets| :: |sets[k]| == 1
  {
  }

  lemma BlockCount(c: nat)
    requires IsCeiling(c, 8 * 4096, 64)
    ensures c == 512
  {
  }

  lemma TestGeometry(cache: Cache)
    requires cache.Valid() && cache.blockSize == 64 && |cache.sets| == 256
    requires cache.blockSize < 2 * Pow2(cache.G().offsetBits) && |cache.sets| < 2 * Pow2(cache.G().indexBits)
    ensures cache.G() == TEST
  {
    TestShape();
    SameLogarithm(cache.G().offsetBits, 6, 64);
    SameLogarithm(cache.G().indexBits, 8, 256);
  }

  method NewTestCache(memory: Memory) returns (cache: Cache)
    ensures fresh(cache) && fresh(cache.allLines) && (forall k | 0 <= k < |cache.sets| :: fresh(cache.sets[k]))
    ensures cache.Valid() && cache.memory == memory && cache.blockSize == 64 && cache.missCount == 0
    ensures cache.G() == TEST && UnusedCache(TEST, cache.Contents()) && Wide(cache.Contents(), 1)
  {
    hide *;
    TestShape();
    cache := new Cache.CacheNew(256, 64, 1, memory);
    NewIsUnused(cache);
    TestGeometry(cache);
  }

  lemma FitsTest(base: nat)
    requires base % 1024 == 0 && base + 8 * 4096 <= ADDRESS_LIMIT
    ensures ArrayFits(base, 64, 64) && PairsFit(base, 64, 64) && Up(64) == 64
  {
    Remainder(base, 8, 128 * (base / 1024), 0);
  }

  // ---- the array that the program fills ----

  /** The first 4096 longs of the array, with 1024 to a row when it is filled. */
  ghost predicate Filled(m: Memory, base: nat)
  {
    forall l: nat | l < 4096 :: HoldsLong(m, base + 8 * l, (l / 1024 + 1) * 0x100 + (l % 1024 + 1))
  }

  /** The same longs as 64 rows of 64. */
  function FilledEntry(): Entry
  {
    (i: nat, j: nat) => (i / 16 + 1) * 0x100 + (i % 16 * 64 + j + 1)
  }

  lemma FilledAt(m: Memory, base: nat, i: nat, j: nat)
    requires Filled(m, base) && i < 64 && j < 64
    ensures EntriesOf(m, base, 64)(i, j) == FilledEntry()(i, j)
  {
    hide LongAt, HoldsLong;
    var l := i * 64 + j;
    assert l / 1024 == i / 16 && l % 1024 == i % 16 * 64 + j;
    assert Place(base, 64, i, j) == base + 8 * l;
    LongReadBack(m, base + 8 * l, (l / 1024 + 1) * 0x100 + (l % 1024 + 1));
  }

  lemma FilledIs(i: nat, j: nat)
    ensures FilledEntry()(i, j) == 256 * (i / 16 + 1) + 64 * (i % 16) + j + 1
  {
  }

  /** 1 + 2 + ... + n. */
  function Triangle(n: nat): nat
  {
    if n == 0 then 0 else Triangle(n - 1) + n
  }

  lemma {:induction false} FilledRow(i: nat, n: nat)
    ensures RowPart(FilledEntry(), i, n) == n * (256 * (i / 16 + 1) + 64 * (i % 16)) + Triangle(n)
  {
    hide FilledEntry, RowPart;
    PartsGrow(FilledEntry(), i, 0);
    if n > 0 {
      var x := 256 * (i / 16 + 1) + 64 * (i % 16);
      FilledRow(i, n - 1);
      PartsGrow(FilledEntry(), i, n - 1);
      FilledIs(i, n - 1);
      SumOf(x, n - 1, 1);
    }
  }

  /** The total of the first rows. */
  function FilledSum(rows: nat): nat
  {
    if rows == 0 then 0
    else FilledSum(rows - 1) + 64 * (256 * ((rows - 1) / 16 + 1) + 64 * ((rows - 1) % 16)) + 2080
  }

  lemma {:induction false} TriangleIs(n: nat)
    ensures 2 * Triangle(n) == n * (n + 1)
  {
    if n > 0 {
      TriangleIs(n - 1);
      SumOf(n, n - 1, 2);
      Commutes(n, n - 1);
    }
  }

  lemma OneMoreRow(a: nat, b: nat)
    requires b < 16
    ensures FilledSum(16 * a + b + 1) == FilledSum(16 * a + b) + 64 * (256 * (a + 1) + 64 * b) + 2080
    ensures Triangle(b + 1) == Triangle(b) + b + 1
    ensures FilledSum(0) == 0 && Triangle(0) == 0
  {
    var rows := 16 * a + b + 1;
    assert (rows - 1) / 16 == a && (rows - 1) % 16 == b;
  }

  lemma {:induction false} MoreRows(a: nat, b: nat)
    requires b <= 16
    ensures FilledSum(16 * a + b) == FilledSum(16 * a) + b * (16384 * a + 14368) + 4096 * Triangle(b)
  {
    hide FilledSum, Triangle;
    OneMoreRow(a, 0);
    if b > 0 {
      MoreRows(a, b - 1);
      OneMoreRow(a, b - 1);
      SumOf(16384 * a + 14368, b - 1, 1);
    }
  }

  lemma FilledSums()
    ensures FilledSum(64) == 4720640
  {
    hide FilledSum, Triangle;
    OneMoreRow(0, 0);
    TriangleIs(16);
    MoreRows(0, 16);
    MoreRows(1, 16);
    MoreRows(2, 16);
    MoreRows(3, 16);
  }

  lemma {:induction false} FilledRows(rows: nat)
    ensures Rows(FilledEntry(), rows, 64) == FilledSum(rows)
  {
    hide FilledEntry, Rows, Triangle;
    TotalsGrow(FilledEntry(), 0, 64);
    if rows > 0 {
      FilledRows(rows - 1);
      TotalsGrow(FilledEntry(), rows - 1, 64);
      FilledRow(rows - 1, 64);
      TriangleIs(64);
    }
  }

  /** What the program prints as its sum. */
  lemma FilledTotal(m: Memory, base: nat)
    requires Filled(m, base)
    ensures Rows(EntriesOf(m, base, 64), 64, 64) == 4720640
  {
    hide Filled, EntriesOf, FilledEntry, Rows, FilledSum;
    forall i: nat, j: nat | i < 64 && j < 64 ensures EntriesOf(m, base, 64)(i, j) == FilledEntry()(i, j) {
      FilledAt(m, base, i, j);
    }
    TotalsAgree(EntriesOf(m, base, 64), FilledEntry(), 64, 64);
    FilledRows(64);
    FilledSums();
  }

  /** The program: the three sums agree, and of 4096 reads 512, 4096 and 2048 miss. */
  method CompareSums(memory: Memory, base: nat) returns (sums: seq<int>, misses: seq<nat>)
    requires base % 1024 == 0 && base + 8 * 4096 <= ADDRESS_LIMIT
    ensures sums == [Rows(EntriesOf(memory, base, 64), 64, 64), Rows(EntriesOf(memory, base, 64), 64, 64),
                     Rows(EntriesOf(memory, base, 64), 64, 64)]
    ensures Filled(memory, base) ==> sums == [4720640, 4720640, 4720640]
    ensures misses == [512, 4096, 2048]
  {
    hide *;
    TestShape();
    FitsTest(base);
    var cache := NewTestCache(memory);
    TestMisses(memory, cache.Contents(), base);
    ghost var sets := cache.Contents();
    var a := SumA(cache, base, 64, 64);
    CounterCounts(TEST, memory, 64, sets, Scan(base, 64 * 64), cache.Contents(), cache.missCount);
    var missA := cache.missCount;

    cache := NewTestCache(memory);
    TestMisses(memory, cache.Contents(), base);
    sets := cache.Contents();
    var b := SumB(cache, base, 64, 64);
    CounterCounts(TEST, memory, 64, sets, Addresses(base, 64, ColumnWalk(64, 64)), cache.Contents(), cache.missCount);
    var missB := cache.missCount;

    cache := NewTestCache(memory);
    TestMisses(memory, cache.Contents(), base);
    sets := cache.Contents();
    var c := SumC(cache, base, 64, 64);
    CounterCounts(TEST, memory, 64, sets, Addresses(base, 64, PairWalk(32, 32)), cache.Contents(), cache.missCount);
    sums, misses := [a, b, c], [missA, missB, cache.missCount];
    if Filled(memory, base) { FilledTotal(memory, base); }
  }
}
