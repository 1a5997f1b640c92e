/** How a cache splits an address, and the whole cache as a list of sets over a constant memory (lab6/cache.c). */
module CacheAddresses {
  import opened Bits
  import opened CacheLru
  import opened Products

  type Memory = nat -> Byte

  const ADDRESS_LIMIT: nat := 0x8000_0000  // addresses survive the cast to int
  const POINTER_BITS: nat := 64

  datatype Geometry = Geometry(offsetBits: nat, indexBits: nat)

  function TagOf(g: Geometry, a: nat): nat { Shr(a, g.offsetBits + g.indexBits) }

  function IndexOf(g: Geometry, a: nat): nat { And(Shr(a, g.offsetBits), Pow2(g.indexBits) - 1) }

  function OffsetOf(g: Geometry, a: nat): nat { And(a, Pow2(g.offsetBits) - 1) }

  /** The address with the offset bits cleared, as pointer arithmetic computes it. */
  function BaseOf(g: Geometry, a: nat): nat
    requires Pow2(g.offsetBits) <= Pow2(POINTER_BITS)
  {
    And(a, Pow2(POINTER_BITS) - Pow2(g.offsetBits))
  }

  /** The address of the block with a given tag in a given set. */
  function BlockAddress(g: Geometry, tag: nat, index: nat): nat
  {
    Pow2(g.offsetBits) * (Pow2(g.indexBits) * tag + index)
  }

  lemma Below64(a: nat)
    requires a < ADDRESS_LIMIT
    ensures a < Pow2(POINTER_BITS)
  {
    Pow2Of32();
    Pow2Monotone(32, POINTER_BITS);
  }

  /** Tag, index and offset rebuild the address uniquely, and the index is that of a set. */
  lemma AddressRebuilt(g: Geometry, a: nat)
    requires a < ADDRESS_LIMIT && g.offsetBits <= POINTER_BITS
    ensures IndexOf(g, a) < Pow2(g.indexBits) && OffsetOf(g, a) < Pow2(g.offsetBits)
    ensures Pow2(g.offsetBits) <= Pow2(POINTER_BITS)
    ensures BaseOf(g, a) == BlockAddress(g, TagOf(g, a), IndexOf(g, a))
    ensures a == BlockAddress(g, TagOf(g, a), IndexOf(g, a)) + OffsetOf(g, a)
  {
    hide And, Shr, Low, Pow2;
    Below64(a);
    SplitAt(a, g.offsetBits);
    AndOnes(a, g.offsetBits);
    AndNotOnes(a, g.offsetBits, POINTER_BITS);
    BlockNumber(g, a);
  }

  lemma BlockNumber(g: Geometry, a: nat)
    ensures IndexOf(g, a) < Pow2(g.indexBits)
    ensures Shr(a, g.offsetBits) == Pow2(g.indexBits) * TagOf(g, a) + IndexOf(g, a)
  {
    var block := Shr(a, g.offsetBits);
    SplitAt(block, g.indexBits);
    AndOnes(block, g.indexBits);
    ShrShr(a, g.offsetBits, g.indexBits);
  }

  /** Different blocks have different tags or different sets. */
  lemma BlockAddressInjective(g: Geometry, tag: nat, index: nat, tag': nat, index': nat)
    requires index < Pow2(g.indexBits) && index' < Pow2(g.indexBits)
    requires BlockAddress(g, tag, index) == BlockAddress(g, tag', index')
    ensures tag == tag' && index == index'
  {
    var p, q := Pow2(g.offsetBits), Pow2(g.indexBits);
    MulInjective(p, q * tag + index, q * tag' + index');
    SameQuotient(q, tag, index, tag', index');
  }

  // ---- memory ----

  /** The blockSize bytes from address a on. */
  function BytesAt(m: Memory, a: nat, blockSize: nat): (s: seq<Byte>)
    ensures |s| == blockSize && forall i | 0 <= i < blockSize :: s[i] == m(a + i)
  {
    seq(blockSize, i requires 0 <= i => m(a + i))
  }

  /** The unsigned value of bytes, lowest first. */
  function BytesValue(s: seq<Byte>): nat
  {
    if s == [] then 0 else s[0] + 256 * BytesValue(s[1..])
  }

  /** The long in eight bytes, in two's complement. */
  function LongOf(s: seq<Byte>): int
  {
    if BytesValue(s) < 0x8000_0000_0000_0000 then BytesValue(s) else BytesValue(s) - 0x1_0000_0000_0000_0000
  }

  function LongAt(m: Memory, a: nat): int
  {
    LongOf(BytesAt(m, a, 8))
  }

  /** The lowest byte of what is left of x after k bytes. */
  function ByteOf(x: nat, k: nat): Byte
  {
    if k == 0 then x % 256 else ByteOf(x / 256, k - 1)
  }

  /** Memory holds the long v at a: its bytes in two's complement, the lowest first. */
  ghost predicate HoldsLong(m: Memory, a: nat, v: int)
  {
    && -0x8000_0000_0000_0000 <= v < 0x8000_0000_0000_0000
    && forall k: nat | k < 8 :: m(a + k) == ByteOf(v % 0x1_0000_0000_0000_0000, k)
  }

  function Power256(k: nat): (p: nat)
    ensures p > 0
  {
    if k == 0 then 1 else 256 * Power256(k - 1)
  }

  lemma QuotientSmaller(x: nat, p: nat)
    requires x < 256 * p
    ensures x / 256 < p
  {
  }

  /** The bytes of a number, put together again. */
  lemma {:induction false} BytesJoin(x: nat, s: seq<Byte>)
    requires x < Power256(|s|) && forall k: nat | k < |s| :: s[k] == ByteOf(x, k)
    ensures BytesValue(s) == x
  {
    if s != [] {
      QuotientSmaller(x, Power256(|s| - 1));
      forall k: nat | k < |s[1..]| ensures s[1..][k] == ByteOf(x / 256, k) {
        assert s[1..][k] == s[k + 1];
      }
      BytesJoin(x / 256, s[1..]);
    }
  }

  lemma Power256Of8()
    ensures Power256(8) == 0x1_0000_0000_0000_0000
  {
    assert Power256(4) == 0x1_0000_0000;
    assert Power256(8) == 256 * (256 * (256 * (256 * Power256(4))));
  }

  /** A long in memory is read back, whatever its sign. */
  lemma LongReadBack(m: Memory, a: nat, v: int)
    requires HoldsLong(m, a, v)
    ensures LongAt(m, a) == v
  {
    hide BytesValue, ByteOf, Power256;
    Power256Of8();
    BytesJoin(v % 0x1_0000_0000_0000_0000, BytesAt(m, a, 8));
  }

  /** The k-th byte is what the k-th division by 256 leaves. */
  lemma {:induction false} ByteIsDigit(x: nat, k: nat)
    ensures ByteOf(x, k) == x / Power256(k) % 256
  {
    if k > 0 {
      ByteIsDigit(x / 256, k - 1);
      QuotientTwice(x, Power256(k - 1));
    }
  }

  lemma QuotientTwice(x: nat, p: nat)
    requires p > 0
    ensures x / 256 / p == x / (256 * p)
  {
    var q, r := Remains(x, 256);
    var t, d := Remains(q, p);
    var u, e := Remains(x, 256 * p);
    assert x == 256 * p * t + (256 * d + r) by {
      assert 256 * q == 256 * (p * t) + 256 * d;
      assert 256 * (p * t) == 256 * p * t;
    }
    SameQuotient(256 * p, t, 256 * d + r, u, e);
  }

  // ---- the whole cache ----

  type Sets = seq<seq<Line>>

  /** The sets are at least as many as the index can name, and none is empty. */
  predicate Usable(g: Geometry, sets: Sets)
  {
    |sets| >= Pow2(g.indexBits) && forall k | 0 <= k < |sets| :: |sets[k]| > 0
  }

  function BlockOf(g: Geometry, m: Memory, blockSize: nat, index: nat): int -> seq<Byte>
  {
    tag => if tag < 0 then [] else BytesAt(m, BlockAddress(g, tag, index), blockSize)
  }

  /** The sets after a read of address a. */
  function ReadAt(g: Geometry, m: Memory, blockSize: nat, sets: Sets, a: nat): Sets
    requires IndexOf(g, a) < |sets| && |sets[IndexOf(g, a)]| > 0
  {
    var k, tag := IndexOf(g, a), TagOf(g, a);
    sets[k := Read(sets[k], tag, BlockOf(g, m, blockSize, k)(tag))]
  }

  predicate HitsAt(g: Geometry, sets: Sets, a: nat)
    requires IndexOf(g, a) < |sets|
  {
    Hits(sets[IndexOf(g, a)], TagOf(g, a))
  }

  /** Every valid line holds the block of memory that its tag and its set name. */
  ghost predicate Coherent(g: Geometry, m: Memory, blockSize: nat, sets: Sets)
  {
    && (forall k | 0 <= k < |sets| :: ValidFirst(sets[k]))
    && forall k, i | 0 <= k < |sets| && 0 <= i < |sets[k]| && sets[k][i].valid ::
         sets[k][i].data == BlockOf(g, m, blockSize, k)(sets[k][i].tag)
  }

  lemma AllInvalid(g: Geometry, m: Memory, blockSize: nat, sets: Sets)
    requires forall k, i | 0 <= k < |sets| && 0 <= i < |sets[k]| :: !sets[k][i].valid
    ensures Coherent(g, m, blockSize, sets)
  {
  }

  /** Reads keep every valid line coherent with memory, whatever tags fresh lines started with. */
  lemma ReadKeepsCoherent(g: Geometry, m: Memory, blockSize: nat, sets: Sets, a: nat)
    requires Coherent(g, m, blockSize, sets) && IndexOf(g, a) < |sets| && |sets[IndexOf(g, a)]| > 0
    ensures Coherent(g, m, blockSize, ReadAt(g, m, blockSize, sets, a))
  {
    var k, tag := IndexOf(g, a), TagOf(g, a);
    var data := BlockOf(g, m, blockSize, k)(tag);
    ReadKeepsValidFirst(sets[k], tag, data);
    var s' := Read(sets[k], tag, data);
    forall i | 0 <= i < |s'| && s'[i].valid ensures s'[i].data == BlockOf(g, m, blockSize, k)(s'[i].tag) {
      ReadLines(sets[k], tag, data, i);
    }
  }

  lemma LongInBlock(m: Memory, a: nat, start: nat, offset: nat, blockSize: nat)
    requires a == start + offset && offset + 8 <= blockSize
    ensures BytesAt(m, start, blockSize)[offset..offset + 8] == BytesAt(m, a, 8)
  {
  }

  lemma FrontIsBlock(g: Geometry, m: Memory, blockSize: nat, sets: Sets, a: nat)
    requires Coherent(g, m, blockSize, sets) && IndexOf(g, a) < |sets| && |sets[IndexOf(g, a)]| > 0
    ensures var k := IndexOf(g, a);
            ReadAt(g, m, blockSize, sets, a)[k][0].data == BytesAt(m, BlockAddress(g, TagOf(g, a), k), blockSize)
  {
    hide Read, BytesAt, IndexOf, TagOf, BlockAddress, ValidFirst;
    var k, tag := IndexOf(g, a), TagOf(g, a);
    ReadKeepsCoherent(g, m, blockSize, sets, a);
    ReadInFront(sets[k], tag, BlockOf(g, m, blockSize, k)(tag));
  }

  /** The line in front after a read holds the long that memory holds at the address. */
  lemma FrontHoldsLong(g: Geometry, m: Memory, blockSize: nat, sets: Sets, a: nat)
    requires Coherent(g, m, blockSize, sets) && IndexOf(g, a) < |sets| && |sets[IndexOf(g, a)]| > 0
    requires a < ADDRESS_LIMIT && a % 8 == 0 && 3 <= g.offsetBits <= POINTER_BITS && Pow2(g.offsetBits) <= blockSize
    ensures var data := ReadAt(g, m, blockSize, sets, a)[IndexOf(g, a)][0].data;
            OffsetOf(g, a) + 8 <= |data| && LongOf(data[OffsetOf(g, a)..OffsetOf(g, a) + 8]) == LongAt(m, a)
  {
    hide Read, Coherent, LongOf, IndexOf, TagOf, OffsetOf, BlockAddress, Pow2, ReadAt, BytesAt;
    var k, tag, offset := IndexOf(g, a), TagOf(g, a), OffsetOf(g, a);
    FrontIsBlock(g, m, blockSize, sets, a);
    AddressRebuilt(g, a);
    OffsetAligned(g, a);
    LongInBlock(m, a, BlockAddress(g, tag, k), offset, blockSize);
  }

  /** An aligned long never crosses the end of its block. */
  lemma OffsetAligned(g: Geometry, a: nat)
    requires a % 8 == 0 && 3 <= g.offsetBits
    ensures OffsetOf(g, a) + 8 <= Pow2(g.offsetBits)
  {
    AndOnes(a, g.offsetBits);
    LowAligned(a, g.offsetBits);
  }

  /** All that cache_read needs to know about the set it works on. */
  lemma ReadFacts(g: Geometry, m: Memory, blockSize: nat, sets: Sets, a: nat)
    requires Coherent(g, m, blockSize, sets) && Usable(g, sets)
    requires a < ADDRESS_LIMIT && a % 8 == 0 && 3 <= g.offsetBits <= POINTER_BITS && Pow2(g.offsetBits) <= blockSize
    ensures Pow2(g.offsetBits) <= Pow2(POINTER_BITS) && IndexOf(g, a) < |sets|
    ensures BytesAt(m, BaseOf(g, a), blockSize) == BlockOf(g, m, blockSize, IndexOf(g, a))(TagOf(g, a))
    ensures Coherent(g, m, blockSize, ReadAt(g, m, blockSize, sets, a))
    ensures var data := ReadAt(g, m, blockSize, sets, a)[IndexOf(g, a)][0].data;
            OffsetOf(g, a) + 8 <= |data| && LongOf(data[OffsetOf(g, a)..OffsetOf(g, a) + 8]) == LongAt(m, a)
  {
    AddressRebuilt(g, a);
    FrontHoldsLong(g, m, blockSize, sets, a);
    ReadKeepsCoherent(g, m, blockSize, sets, a);
  }
}
