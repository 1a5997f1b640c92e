/** Whole caches over whole traces of addresses: exact LRU, inclusion, and the misses of a row-major scan. */
module CacheTraces {
  import opened Bits
  import opened CacheAddresses
  import opened CacheLru
  import opened Products

  /** The tags that a trace of addresses reads in set k. */
  function TagsIn(g: Geometry, trace: seq<nat>, k: nat): seq<int>
  {
    if trace == [] then [] else
      var before, a := trace[..|trace| - 1], trace[|trace| - 1];
      TagsIn(g, before, k) + if IndexOf(g, a) == k then [TagOf(g, a)] else []
  }

  /** The cache after reading the addresses of a trace. */
  function RunTrace(g: Geometry, m: Memory, blockSize: nat, sets: Sets, trace: seq<nat>): (sets': Sets)
    requires Usable(g, sets)
    ensures |sets'| == |sets| && forall k | 0 <= k < |sets| :: |sets'[k]| == |sets[k]|
  {
    if trace == [] then sets else
      BlockNumber(g, trace[|trace| - 1]);
      ReadAt(g, m, blockSize, RunTrace(g, m, blockSize, sets, trace[..|trace| - 1]), trace[|trace| - 1])
  }

  function MissCount(g: Geometry, m: Memory, blockSize: nat, sets: Sets, trace: seq<nat>): nat
    requires Usable(g, sets)
  {
    if trace == [] then 0 else
      var before, a := trace[..|trace| - 1], trace[|trace| - 1];
      BlockNumber(g, a);
      MissCount(g, m, blockSize, sets, before) + if HitsAt(g, RunTrace(g, m, blockSize, sets, before), a) then 0 else 1
  }

  /** One more read, at the end of a trace. */
  lemma TraceGrows(g: Geometry, m: Memory, blockSize: nat, sets: Sets, before: seq<nat>, a: nat)
    requires Usable(g, sets)
    ensures IndexOf(g, a) < |sets|
    ensures RunTrace(g, m, blockSize, sets, before + [a])
            == ReadAt(g, m, blockSize, RunTrace(g, m, blockSize, sets, before), a)
    ensures MissCount(g, m, blockSize, sets, before + [a]) ==
            MissCount(g, m, blockSize, sets, before) +
            if HitsAt(g, RunTrace(g, m, blockSize, sets, before), a) then 0 else 1
  {
    BlockNumber(g, a);
    assert (before + [a])[..|before|] == before;
    hide IndexOf, TagOf, ReadAt, HitsAt;
  }

  /** Enough non-empty sets, and no line is valid: what a new cache is like. */
  ghost predicate UnusedCache(g: Geometry, sets: Sets)
  {
    Usable(g, sets) && forall k | 0 <= k < |sets| :: Unused(sets[k])
  }

  function Tags(tags: seq<int>): iset<int>
  {
    iset t | t in tags
  }

  /** Moreover, no line of a set, but perhaps its last, happens to carry a tag that the trace reads in that set. */
  ghost predicate FreshCache(g: Geometry, sets: Sets, trace: seq<nat>)
  {
    Usable(g, sets) && forall k | 0 <= k < |sets| :: Fresh(sets[k], Tags(TagsIn(g, trace, k)))
  }

  /** With one line to a set, left-over tags cannot matter. */
  lemma DirectMappedIsFresh(g: Geometry, sets: Sets, trace: seq<nat>)
    requires UnusedCache(g, sets) && forall k | 0 <= k < |sets| :: |sets[k]| == 1
    ensures FreshCache(g, sets, trace)
  {
  }

  /** Each set only sees the tags of its own addresses. */
  lemma {:induction false} SetsAreIndependent(g: Geometry, m: Memory, blockSize: nat, sets: Sets, trace: seq<nat>,
                                              k: nat)
    requires Usable(g, sets) && k < |sets|
    ensures RunTrace(g, m, blockSize, sets, trace)[k] == Run(sets[k], TagsIn(g, trace, k), BlockOf(g, m, blockSize, k))
  {
    if trace != [] {
      var before, a := trace[..|trace| - 1], trace[|trace| - 1];
      BlockNumber(g, a);
      SetsAreIndependent(g, m, blockSize, sets, before, k);
      if IndexOf(g, a) == k {
        var tags := TagsIn(g, trace, k);
        assert tags[..|tags| - 1] == TagsIn(g, before, k) && tags[|tags| - 1] == TagOf(g, a);
      } else {
        assert TagsIn(g, trace, k) == TagsIn(g, before, k);
      }
    }
  }

  lemma {:induction false} TagsOfPrefix(g: Geometry, before: seq<nat>, rest: seq<nat>, k: nat)
    ensures forall t | t in TagsIn(g, before, k) :: t in TagsIn(g, before + rest, k)
  {
    if rest != [] {
      TagsOfPrefix(g, before, rest[..|rest| - 1], k);
      var whole := before + rest;
      assert whole[..|whole| - 1] == before + rest[..|rest| - 1];
    } else {
      assert before + rest == before;
    }
  }

  /** In every set, the valid lines are its most recently used distinct tags, in recency order, before all invalid
      lines. */
  lemma CacheIsExactLru(g: Geometry, m: Memory, blockSize: nat, sets: Sets, trace: seq<nat>, k: nat)
    requires FreshCache(g, sets, trace) && k < |sets|
    ensures Mirrors(RunTrace(g, m, blockSize, sets, trace)[k], Stack(TagsIn(g, trace, k)), Tags(TagsIn(g, trace, k)))
  {
    SetsAreIndependent(g, m, blockSize, sets, trace, k);
    ExactLru(sets[k], TagsIn(g, trace, k), BlockOf(g, m, blockSize, k), Tags(TagsIn(g, trace, k)));
  }

  /** A read hits exactly when its block was read before and, since then, fewer other blocks of its set
      than the set has lines. */
  lemma ReadHitsIff(g: Geometry, m: Memory, blockSize: nat, sets: Sets, trace: seq<nat>, a: nat)
    requires FreshCache(g, sets, trace + [a])
    ensures IndexOf(g, a) < |sets|
    ensures var k, tags := IndexOf(g, a), TagsIn(g, trace, IndexOf(g, a));
            HitsAt(g, RunTrace(g, m, blockSize, sets, trace), a) <==>
            TagOf(g, a) in tags && |Since(tags, TagOf(g, a))| < |sets[k]|
  {
    BlockNumber(g, a);
    var k, t := IndexOf(g, a), TagOf(g, a);
    assert (trace + [a])[..|trace|] == trace;
    assert TagsIn(g, trace + [a], k) == TagsIn(g, trace, k) + [t];
    SetsAreIndependent(g, m, blockSize, sets, trace, k);
    HitIffRecentlyUsed(sets[k], TagsIn(g, trace, k), BlockOf(g, m, blockSize, k), t, Tags(TagsIn(g, trace + [a], k)));
  }

  // ---- exactly when a whole cache is exact ----

  /** The tags that reads of the addresses of area leave in set k. */
  ghost function TagsAmong(g: Geometry, area: iset<nat>, k: nat): iset<int>
  {
    iset a | a in area && IndexOf(g, a) == k :: TagOf(g, a)
  }

  ghost predicate ReadsAsLru(g: Geometry, m: Memory, blockSize: nat, sets: Sets, trace: seq<nat>, a: nat)
    requires Usable(g, sets)
  {
    var k := IndexOf(g, a);
    && k < |sets|
    && (HitsAt(g, RunTrace(g, m, blockSize, sets, trace), a) <==>
        TagOf(g, a) in TagsIn(g, trace, k) && |Since(TagsIn(g, trace, k), TagOf(g, a))| < |sets[k]|)
  }

  ghost predicate AlwaysReadsAsLru(g: Geometry, m: Memory, blockSize: nat, sets: Sets, area: iset<nat>)
    requires Usable(g, sets)
  {
    forall trace, a | (forall b | b in trace :: b in area) && a in area :: ReadsAsLru(g, m, blockSize, sets, trace, a)
  }

  lemma ReadIsSetRead(g: Geometry, m: Memory, blockSize: nat, sets: Sets, trace: seq<nat>, a: nat)
    requires Usable(g, sets)
    ensures IndexOf(g, a) < |sets|
    ensures var k := IndexOf(g, a);
            ReadsAsLru(g, m, blockSize, sets, trace, a) <==>
            HitsAsLru(sets[k], TagsIn(g, trace, k), BlockOf(g, m, blockSize, k), TagOf(g, a))
  {
    BlockNumber(g, a);
    SetsAreIndependent(g, m, blockSize, sets, trace, IndexOf(g, a));
    hide IndexOf, TagOf;
  }

  /** Tags of addresses of a set, read in any order, come from some trace of these addresses. */
  lemma {:induction false} LiftTags(g: Geometry, area: iset<nat>, k: nat, tags: seq<int>) returns (trace: seq<nat>)
    requires Over(tags, TagsAmong(g, area, k))
    ensures TagsIn(g, trace, k) == tags && forall b | b in trace :: b in area
  {
    if tags == [] {
      trace := [];
    } else {
      var before, t := tags[..|tags| - 1], tags[|tags| - 1];
      trace := LiftTags(g, area, k, before);
      assert t in TagsAmong(g, area, k);
      var a :| a in area && IndexOf(g, a) == k && TagOf(g, a) == t;
      assert (trace + [a])[..|trace|] == trace;
      trace := trace + [a];
      assert tags == before + [t];
    }
  }

  lemma TagsOver(g: Geometry, area: iset<nat>, trace: seq<nat>, k: nat)
    requires forall b | b in trace :: b in area
    ensures Over(TagsIn(g, trace, k), TagsAmong(g, area, k))
  {
    forall t | t in TagsIn(g, trace, k) ensures t in TagsAmong(g, area, k) {
      var i := TagFromTrace(g, trace, k, t);
      assert trace[i] in area;
    }
  }

  /** Tags to fill each set with, which no line of it carries. */
  ghost predicate Spare(g: Geometry, sets: Sets, area: iset<nat>, spare: seq<seq<int>>)
    requires Usable(g, sets)
  {
    && |spare| == Pow2(g.indexBits)
    && forall k | 0 <= k < |spare| ::
         |spare[k]| == |sets[k]| - 1 && Distinct(spare[k])
         && forall t | t in spare[k] :: t in TagsAmong(g, area, k) && !Carries(sets[k], t)
  }

  lemma SetAlwaysLru(g: Geometry, m: Memory, blockSize: nat, sets: Sets, area: iset<nat>, k: nat)
    requires Usable(g, sets) && k < Pow2(g.indexBits) && AlwaysReadsAsLru(g, m, blockSize, sets, area)
    ensures AlwaysLru(sets[k], BlockOf(g, m, blockSize, k), TagsAmong(g, area, k))
  {
    hide ReadsAsLru, HitsAsLru, IndexOf, TagOf, BlockOf;
    var u := TagsAmong(g, area, k);
    forall tags, t | Over(tags, u) && t in u ensures HitsAsLru(sets[k], tags, BlockOf(g, m, blockSize, k), t) {
      var trace := LiftTags(g, area, k, tags);
      var a :| a in area && IndexOf(g, a) == k && TagOf(g, a) == t;
      ReadIsSetRead(g, m, blockSize, sets, trace, a);
      assert ReadsAsLru(g, m, blockSize, sets, trace, a);
    }
  }

  /** Reads of the addresses of area hit exactly as the textbook says, in every order, if and only if in each set no
      unused line but perhaps the last carries a tag of theirs. */
  lemma CacheExactIffFresh(g: Geometry, m: Memory, blockSize: nat, sets: Sets, area: iset<nat>, spare: seq<seq<int>>)
    requires UnusedCache(g, sets) && Spare(g, sets, area, spare)
    ensures AlwaysReadsAsLru(g, m, blockSize, sets, area) <==>
            forall k | 0 <= k < Pow2(g.indexBits) :: Fresh(sets[k], TagsAmong(g, area, k))
  {
    hide ReadsAsLru, HitsAsLru, TagsAmong, AlwaysLru, Fresh, IndexOf, TagOf, BlockOf, Carries;
    if AlwaysReadsAsLru(g, m, blockSize, sets, area) {
      forall k | 0 <= k < Pow2(g.indexBits) ensures Fresh(sets[k], TagsAmong(g, area, k)) {
        SetAlwaysLru(g, m, blockSize, sets, area, k);
        ExactIffFresh(sets[k], BlockOf(g, m, blockSize, k), TagsAmong(g, area, k), spare[k]);
      }
    }
    if forall k | 0 <= k < Pow2(g.indexBits) :: Fresh(sets[k], TagsAmong(g, area, k)) {
      forall trace, a | (forall b | b in trace :: b in area) && a in area
        ensures ReadsAsLru(g, m, blockSize, sets, trace, a)
      {
        FreshReads(g, m, blockSize, sets, area, trace, a);
      }
    }
  }

  lemma FreshReads(g: Geometry, m: Memory, blockSize: nat, sets: Sets, area: iset<nat>, trace: seq<nat>, a: nat)
    requires UnusedCache(g, sets) && (forall b | b in trace :: b in area) && a in area
    requires forall k | 0 <= k < Pow2(g.indexBits) :: Fresh(sets[k], TagsAmong(g, area, k))
    ensures ReadsAsLru(g, m, blockSize, sets, trace, a)
  {
    hide ReadsAsLru, HitsAsLru, Fresh, IndexOf, TagOf, BlockOf;
    var k, t := IndexOf(g, a), TagOf(g, a);
    BlockNumber(g, a);
    TagsOver(g, area, trace, k);
    assert t in TagsAmong(g, area, k);
    HitIffRecentlyUsed(sets[k], TagsIn(g, trace, k), BlockOf(g, m, blockSize, k), t, TagsAmong(g, area, k));
    ReadIsSetRead(g, m, blockSize, sets, trace, a);
  }

  /** The same geometry with at least as many lines in every set. */
  ghost predicate AtLeastAsLarge(sets: Sets, sets': Sets)
  {
    |sets'| == |sets| && forall k | 0 <= k < |sets| :: |sets[k]| <= |sets'[k]|
  }

  /** Inclusion: the smaller cache's valid lines are, set by set, the first lines of the larger one's. */
  lemma Inclusion(g: Geometry, m: Memory, blockSize: nat, sets: Sets, sets': Sets, trace: seq<nat>, k: nat, i: nat)
    requires FreshCache(g, sets, trace) && FreshCache(g, sets', trace) && AtLeastAsLarge(sets, sets')
    requires k < |sets| && i < |sets[k]| && RunTrace(g, m, blockSize, sets, trace)[k][i].valid
    ensures RunTrace(g, m, blockSize, sets', trace)[k][i].valid
    ensures RunTrace(g, m, blockSize, sets', trace)[k][i].tag == RunTrace(g, m, blockSize, sets, trace)[k][i].tag
  {
    var tags := TagsIn(g, trace, k);
    SetsAreIndependent(g, m, blockSize, sets, trace, k);
    SetsAreIndependent(g, m, blockSize, sets', trace, k);
    MoreLinesMissLess(sets[k], sets'[k], tags, BlockOf(g, m, blockSize, k), Tags(tags));
  }

  lemma FreshBefore(g: Geometry, sets: Sets, before: seq<nat>, a: nat)
    requires FreshCache(g, sets, before + [a])
    ensures FreshCache(g, sets, before)
  {
    forall k | 0 <= k < |sets| ensures Fresh(sets[k], Tags(TagsIn(g, before, k))) {
      TagsOfPrefix(g, before, [a], k);
    }
  }

  /** A larger associativity never misses more. */
  lemma {:induction false} LargerCacheMissesLess(g: Geometry, m: Memory, blockSize: nat, sets: Sets, sets': Sets,
                                                 trace: seq<nat>)
    requires FreshCache(g, sets, trace) && FreshCache(g, sets', trace) && AtLeastAsLarge(sets, sets')
    ensures MissCount(g, m, blockSize, sets', trace) <= MissCount(g, m, blockSize, sets, trace)
  {
    if trace != [] {
      var before, a := trace[..|trace| - 1], trace[|trace| - 1];
      assert trace == before + [a];
      FreshBefore(g, sets, before, a);
      FreshBefore(g, sets', before, a);
      LargerCacheMissesLess(g, m, blockSize, sets, sets', before);
      ReadHitsIff(g, m, blockSize, sets, before, a);
      ReadHitsIff(g, m, blockSize, sets', before, a);
      TraceGrows(g, m, blockSize, sets, before, a);
      TraceGrows(g, m, blockSize, sets', before, a);
    }
  }

  // ---- a row-major scan ----

  function Scan(base: nat, n: nat): (trace: seq<nat>)
    ensures |trace| == n && forall i | 0 <= i < n :: trace[i] == base + 8 * i
  {
    seq(n, i requires 0 <= i => base + 8 * i)
  }

  lemma {:induction false} TagFromTrace(g: Geometry, trace: seq<nat>, k: nat, t: int) returns (i: nat)
    requires t in TagsIn(g, trace, k)
    ensures i < |trace| && IndexOf(g, trace[i]) == k && TagOf(g, trace[i]) == t
  {
    var last := |trace| - 1;
    if IndexOf(g, trace[last]) == k && TagOf(g, trace[last]) == t {
      i := last;
    } else {
      i := TagFromTrace(g, trace[..last], k, t);
    }
  }

  /** A block that was not read before misses, whatever tags were left over. */
  lemma NewBlockMisses(g: Geometry, m: Memory, blockSize: nat, sets: Sets, trace: seq<nat>, a: nat)
    requires UnusedCache(g, sets) && forall b | b in trace :: Shr(b, g.offsetBits) != Shr(a, g.offsetBits)
    ensures IndexOf(g, a) < |sets|
    ensures !HitsAt(g, RunTrace(g, m, blockSize, sets, trace), a)
  {
    hide RunTrace, IndexOf, TagOf, Pow2, Run;
    BlockNumber(g, a);
    var k, t := IndexOf(g, a), TagOf(g, a);
    SetsAreIndependent(g, m, blockSize, sets, trace, k);
    ValidWasRead(sets[k], TagsIn(g, trace, k), BlockOf(g, m, blockSize, k));
    if t in TagsIn(g, trace, k) {
      var i := TagFromTrace(g, trace, k, t);
      assert trace[i] in trace;
      BlockNumber(g, trace[i]);
      assert false;
    }
  }

  lemma BlocksApart(offsetBits: nat, b: nat, a: nat, block: nat)
    requires a == Pow2(offsetBits) * block && b < a
    ensures Shr(b, offsetBits) < Shr(a, offsetBits)
  {
    hide Shr, Low, Pow2;
    var p, x, y := Pow2(offsetBits), Shr(a, offsetBits), Shr(b, offsetBits);
    SplitAt(a, offsetBits);
    SplitAt(b, offsetBits);
    SameQuotient(p, block, 0, x, Low(a, offsetBits));
    if y >= x {
      MulMonotone(p, x, y);
      assert false;
    }
  }

  /** A long in the block of the one read just before hits. */
  lemma SameBlockHits(g: Geometry, m: Memory, blockSize: nat, sets: Sets, trace: seq<nat>, a: nat)
    requires Usable(g, sets) && trace != [] && Shr(trace[|trace| - 1], g.offsetBits) == Shr(a, g.offsetBits)
    ensures IndexOf(g, a) < |sets|
    ensures HitsAt(g, RunTrace(g, m, blockSize, sets, trace), a)
  {
    var b, k := trace[|trace| - 1], IndexOf(g, a);
    BlockNumber(g, a);
    SameBlockSameSet(g, a, b);
    SetsAreIndependent(g, m, blockSize, sets, trace, k);
    var tags := TagsIn(g, trace, k);
    assert tags[|tags| - 1] == TagOf(g, b);
    JustReadHits(sets[k], tags, BlockOf(g, m, blockSize, k));
  }

  lemma SameBlockSameSet(g: Geometry, a: nat, b: nat)
    requires Shr(a, g.offsetBits) == Shr(b, g.offsetBits)
    ensures IndexOf(g, a) == IndexOf(g, b) && TagOf(g, a) == TagOf(g, b)
  {
    hide *;
    BlockNumber(g, a);
    BlockNumber(g, b);
    SameQuotient(Pow2(g.indexBits), TagOf(g, a), IndexOf(g, a), TagOf(g, b), IndexOf(g, b));
  }

  /** c blocks of d bytes are needed for x bytes, and fewer are not enough. */
  predicate IsCeiling(c: nat, x: nat, d: nat)
  {
    d * (c - 1) < x <= d * c
  }

  lemma SameBlock(offsetBits: nat, q: nat, block: nat, a: nat, c: nat, r: nat)
    requires Pow2(offsetBits) == 8 * q && a == 8 * (q * (block + c) + r) && r < q
    ensures Shr(a, offsetBits) == block + c
  {
    hide Shr, Low, Pow2;
    SplitAt(a, offsetBits);
    assert a == Pow2(offsetBits) * (block + c) + 8 * r by {
      assert 8 * (q * (block + c)) == (8 * q) * (block + c);
    }
    SameQuotient(Pow2(offsetBits), block + c, 8 * r, Shr(a, offsetBits), Low(a, offsetBits));
  }

  /** On any new cache, a scan of n longs from the start of a block misses once for every block it touches:
      ceil(8 n / block size). */
  lemma {:induction false} ScanMisses(g: Geometry, m: Memory, blockSize: nat, sets: Sets, block: nat, base: nat, n: nat)
    requires g.offsetBits >= 3 && base == Pow2(g.offsetBits) * block && UnusedCache(g, sets)
    ensures IsCeiling(MissCount(g, m, blockSize, sets, Scan(base, n)), 8 * n, Pow2(g.offsetBits))
  {
    hide *;
    UnusedIsUsable(g, sets);
    if n == 0 {
      EmptyScan(g, m, blockSize, sets, base);
    } else {
      var before, a := Scan(base, n - 1), base + 8 * (n - 1);
      assert Scan(base, n) == before + [a];
      TraceGrows(g, m, blockSize, sets, before, a);
      ScanMisses(g, m, blockSize, sets, block, base, n - 1);
      var c := MissCount(g, m, blockSize, sets, before);
      var q := EightBytes(g.offsetBits);
      ScanStep(g, m, blockSize, sets, before, block, a, n - 1, c, q);
    }
  }

  lemma EmptyScan(g: Geometry, m: Memory, blockSize: nat, sets: Sets, base: nat)
    requires Usable(g, sets)
    ensures IsCeiling(MissCount(g, m, blockSize, sets, Scan(base, 0)), 8 * 0, Pow2(g.offsetBits))
  {
    assert Scan(base, 0) == [];
    hide Pow2;
  }

  lemma UnusedIsUsable(g: Geometry, sets: Sets)
    requires UnusedCache(g, sets)
    ensures Usable(g, sets)
  {
  }

  lemma EightBytes(offsetBits: nat) returns (q: nat)
    requires offsetBits >= 3
    ensures Pow2(offsetBits) == 8 * q && q > 0
  {
    LowOfEights(0, offsetBits);
    q := Pow2(offsetBits - 3);
  }

  lemma ScanStep(g: Geometry, m: Memory, blockSize: nat, sets: Sets, trace: seq<nat>, block: nat, a: nat, n: nat,
                 c: nat, q: nat)
    requires Pow2(g.offsetBits) == 8 * q && q > 0 && IsCeiling(c, 8 * n, Pow2(g.offsetBits))
    requires UnusedCache(g, sets) && a == Pow2(g.offsetBits) * block + 8 * n
    requires |trace| == n && forall i | 0 <= i < n :: trace[i] == a - 8 * (n - i)
    ensures IndexOf(g, a) < |sets|
    ensures IsCeiling(if HitsAt(g, RunTrace(g, m, blockSize, sets, trace), a) then c else c + 1,
                      8 * n + 8, Pow2(g.offsetBits))
  {
    hide UnusedCache, RunTrace, HitsAt, IndexOf, Pow2, Shr;
    UnusedIsUsable(g, sets);
    CeilingSteps(n, c, q);
    if n == q * c {
      assert a == Pow2(g.offsetBits) * (block + c) by { assert (8 * q) * (block + c) == (8 * q) * block + 8 * (q * c); }
      forall b | b in trace ensures Shr(b, g.offsetBits) != Shr(a, g.offsetBits) {
        BlocksApart(g.offsetBits, b, a, block + c);
      }
      NewBlockMisses(g, m, blockSize, sets, trace, a);
    } else {
      var r := n - q * (c - 1);
      assert a == 8 * (q * (block + (c - 1)) + r) by { assert q * (block + (c - 1)) == q * block + q * (c - 1); }
      SameBlock(g.offsetBits, q, block, a, c - 1, r);
      SameBlock(g.offsetBits, q, block, a - 8, c - 1, r - 1);
      SameBlockHits(g, m, blockSize, sets, trace, a);
    }
  }

  lemma CeilingSteps(n: nat, c: nat, q: nat)
    requires q > 0 && IsCeiling(c, 8 * n, 8 * q)
    ensures q * (c - 1) < n <= q * c && (n < q * c ==> c > 0 && q * c == q * (c - 1) + q)
    ensures n < q * c ==> IsCeiling(c, 8 * n + 8, 8 * q)
    ensures n == q * c ==> IsCeiling(c + 1, 8 * n + 8, 8 * q)
  {
    assert 8 * q * (c - 1) == 8 * (q * (c - 1)) && 8 * q * c == 8 * (q * c) && 8 * q * (c + 1) == 8 * (q * (c + 1));
    assert q * c == q * (c - 1) + q && q * (c + 1) == q * c + q;
    if c == 0 { assert q * c == 0; }
  }
}
