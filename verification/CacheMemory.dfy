/** The cache of lab6/cache.c: arrays of pointers to lines, rotated and refilled in place. */
module CacheMemory {
  import opened Bits
  import L = CacheLru
  import opened CacheAddresses

  type Byte = L.Byte

  const COUNTER_LIMIT := 0x1_0000_0000

  /** The counters are 32-bit and unsigned. */
  type Counter = c: nat | c < COUNTER_LIMIT

  function Increment(count: Counter): Counter
  {
    (count + 1) % COUNTER_LIMIT
  }

  lemma CounterWraps(count: Counter)
    ensures Increment(count) == if count == 0xFFFF_FFFF then 0 else count + 1
  {
  }

  /** A fresh line is invalid; its tag and its data are whatever malloc left there. */
  class CacheLine {
    var isValid: bool
    var tag: int
    var data: seq<Byte>

    constructor ()
      ensures !isValid
    {
      isValid := false;
    }

    function View(): L.Line
      reads this
    {
      L.Line(isValid, tag, data)
    }
  }

  function ViewOf(lines: seq<CacheLine>): (s: seq<L.Line>)
    reads lines
    ensures |s| == |lines| && forall i | 0 <= i < |lines| :: s[i] == lines[i].View()
  {
    seq(|lines|, i requires 0 <= i < |lines| reads lines => lines[i].View())
  }

  ghost predicate Injective(lines: seq<CacheLine>)
  {
    forall i, j | 0 <= i < j < |lines| :: lines[i] != lines[j]
  }

  /** Moves the pointer at lineIndex to the front of the array, shifting those before it. */
  method CacheLineMakeMru(lines: array<CacheLine>, lineIndex: nat) returns (line: CacheLine)
    requires lineIndex < lines.Length
    modifies lines
    ensures lines[..] == L.MakeMru(old(lines[..]), lineIndex)
    ensures line == old(lines[lineIndex])
  {
    hide L.MakeMru;
    ghost var before := lines[..];
    line := lines[lineIndex];
    var i := lineIndex - 1;
    while i >= 0
      invariant -1 <= i < lineIndex
      invariant forall j | 0 <= j < lines.Length && !(i + 2 <= j <= lineIndex) :: lines[j] == before[j]
      invariant forall j | i + 2 <= j <= lineIndex :: lines[j] == before[j - 1]
    {
      lines[i + 1] := lines[i];
      i := i - 1;
    }
    lines[0] := line;
    IsMru(before, lines[..], lineIndex);
  }

  lemma IsMru(s: seq<CacheLine>, s': seq<CacheLine>, i: nat)
    requires i < |s| == |s'| && s'[0] == s[i]
    requires forall j | 0 < j <= i :: s'[j] == s[j - 1]
    requires forall j | i < j < |s| :: s'[j] == s[j]
    ensures s' == L.MakeMru(s, i)
  {
  }

  lemma ViewOfMru(s: seq<CacheLine>, i: nat)
    requires i < |s|
    ensures ViewOf(L.MakeMru(s, i)) == L.MakeMru(ViewOf(s), i)
  {
  }

  ghost predicate Shuffled(s: seq<CacheLine>, s': seq<CacheLine>)
  {
    Injective(s') && forall line | line in s' :: line in s
  }

  lemma MruShuffles(s: seq<CacheLine>, i: nat)
    requires Injective(s) && i < |s|
    ensures Shuffled(s, L.MakeMru(s, i))
  {
  }

  lemma NothingShuffled(s: seq<CacheLine>)
    requires Injective(s)
    ensures Shuffled(s, s)
  {
  }

  lemma TouchFound(s: seq<L.Line>, tag: int, i: nat)
    requires i <= |s| && (i < |s| ==> s[i].tag == tag) && forall j | 0 <= j < i :: s[j].tag != tag
    ensures L.FirstMatch(s, tag) == i && L.Touch(s, tag) == if i < |s| then L.MakeMru(s, i) else s
  {
  }

  /** The first line with the tag, valid or not, moved to the front; null if there is none. */
  method CacheSetFindMatchingLine(lines: array<CacheLine>, tag: int) returns (line: CacheLine?)
    requires Injective(lines[..])
    modifies lines
    ensures Shuffled(old(lines[..]), lines[..])
    ensures ViewOf(lines[..]) == L.Touch(old(ViewOf(lines[..])), tag)
    ensures var i := L.FirstMatch(old(ViewOf(lines[..])), tag);
            if i < lines.Length then line == old(lines[i]) == lines[0] else line == null
  {
    hide L.FirstMatch, L.Touch, Injective, Shuffled;
    ghost var view := ViewOf(lines[..]);
    NothingShuffled(lines[..]);
    var i := 0;
    while i < lines.Length
      invariant lines[..] == old(lines[..])
      invariant i <= lines.Length && forall j | 0 <= j < i :: view[j].tag != tag
    {
      if lines[i].tag == tag {
        MruShuffles(lines[..], i);
        ViewOfMru(lines[..], i);
        TouchFound(view, tag, i);
        line := CacheLineMakeMru(lines, i);
        return;
      }
      i := i + 1;
    }
    TouchFound(view, tag, i);
    return null;
  }

  /** Policies are never consulted: the last line is evicted. */
  method FindAvailableCacheLine(lines: array<CacheLine>) returns (line: CacheLine)
    requires lines.Length > 0
    modifies lines
    ensures lines[..] == L.MakeMru(old(lines[..]), lines.Length - 1)
    ensures line == old(lines[lines.Length - 1])
  {
    line := CacheLineMakeMru(lines, lines.Length - 1);
  }

  /** shift - initShift is the whole part of the base-two logarithm of value, and mask has that many ones. */
  method GetShiftAndMask(value: nat, initShift: nat) returns (shift: nat, mask: nat)
    ensures shift >= initShift && mask == Pow2(shift - initShift) - 1
    ensures value >= 1 ==> Pow2(shift - initShift) <= value < 2 * Pow2(shift - initShift)
    ensures value == 0 ==> shift == initShift
  {
    mask := 0;
    shift := initShift;
    var v := value;
    while v > 1
      invariant shift >= initShift && mask == Pow2(shift - initShift) - 1
      invariant IsQuotient(v, Pow2(shift - initShift), value)
      invariant if value == 0 then v == 0 && shift == initShift else v >= 1
    {
      QuotientHalved(v, Pow2(shift - initShift), value);
      OrLowBit(2 * mask, 1);
      shift := shift + 1;
      v := v / 2;
      mask := Or(2 * mask, 1);
    }
  }

  predicate IsQuotient(v: nat, p: nat, value: nat)
  {
    v * p <= value < (v + 1) * p
  }

  lemma QuotientHalved(v: nat, p: nat, value: nat)
    requires IsQuotient(v, p, value)
    ensures IsQuotient(v / 2, 2 * p, value)
  {
    var h := v / 2;
    assert h * (2 * p) == (2 * h) * p && (h + 1) * (2 * p) == (2 * h + 2) * p;
    assert (2 * h) * p <= v * p && (v + 1) * p <= (2 * h + 2) * p;
  }

  /** The array of cache_set_init: distinct fresh lines, none valid. */
  method CacheSetInit(associativity: nat) returns (lines: array<CacheLine>)
    requires associativity > 0
    ensures fresh(lines) && lines.Length == associativity && Injective(lines[..])
    ensures forall j | 0 <= j < associativity :: fresh(lines[j]) && !lines[j].isValid
  {
    var first := new CacheLine();
    lines := new CacheLine[associativity](_ => first);
    var i := 1;
    while i < associativity
      invariant 1 <= i <= associativity && fresh(lines)
      invariant forall j | 0 <= j < associativity :: fresh(lines[j]) && !lines[j].isValid
      invariant forall j | i <= j < associativity :: lines[j] == first
      invariant forall j, k | 0 <= j < k < i :: lines[j] != lines[k]
    {
      lines[i] := new CacheLine();
      i := i + 1;
    }
  }

  ghost predicate Holds(lines: array<CacheLine>, own: set<CacheLine>, associativity: nat)
    reads lines
  {
    lines.Length == associativity && Injective(lines[..]) && forall line | line in lines[..] :: line in own
  }

  /** A block of at least 8 bytes needs 3 offset bits, and one that an int can measure needs at most 64. */
  lemma ShiftBounds(blockSize: nat, shift: nat)
    requires 8 <= blockSize < ADDRESS_LIMIT && Pow2(shift) <= blockSize < 2 * Pow2(shift)
    ensures 3 <= shift <= POINTER_BITS
  {
    assert Pow2(3) == 8;
    if shift < 3 {
      Pow2Monotone(shift, 2);
    }
    if shift > 32 {
      Pow2Of32();
      Pow2Monotone(32, shift);
    }
  }

  class Cache {
    const numSets: nat
    const associativity: nat
    const blockSize: nat
    const blockOffsetMask: nat
    const cacheIndexMask: nat
    const cacheIndexShift: nat
    const tagShift: nat
    const sets: seq<array<CacheLine>>
    const memory: Memory
    var accessCount: Counter
    var missCount: Counter
    ghost const owned: seq<set<CacheLine>>
    ghost const allLines: set<CacheLine>

    /** Creates a cache with numBlocks / associativity sets. The remainder of that division is not used. */
    constructor CacheNew(numBlocks: nat, blockSize: nat, associativity: nat, memory: Memory)
      requires 0 < associativity <= numBlocks < ADDRESS_LIMIT && 8 <= blockSize < ADDRESS_LIMIT
      ensures Valid() && accessCount == 0 && missCount == 0
      ensures this.memory == memory && this.associativity == associativity && this.blockSize == blockSize
      ensures |sets| == numBlocks / associativity && fresh(allLines) && forall k | 0 <= k < |sets| :: fresh(sets[k])
      ensures blockSize < 2 * Pow2(G().offsetBits) && |sets| < 2 * Pow2(G().indexBits)
      ensures forall k, i | 0 <= k < |sets| && 0 <= i < associativity :: !Contents()[k][i].valid
    {
      hide Pow2, Coherent;
      this.memory, this.blockSize, this.associativity := memory, blockSize, associativity;
      accessCount, missCount := 0, 0;
      numSets := numBlocks / associativity;
      var indexShift, offsetMask := GetShiftAndMask(blockSize, 0);
      var tagShift, indexMask := GetShiftAndMask(numBlocks / associativity, indexShift);
      cacheIndexShift, blockOffsetMask, this.tagShift, cacheIndexMask := indexShift, offsetMask, tagShift, indexMask;
      var built: seq<array<CacheLine>> := [];
      ghost var own: seq<set<CacheLine>> := [];
      ghost var all: set<CacheLine> := {};
      while |built| < numBlocks / associativity
        invariant |built| == |own| <= numBlocks / associativity
        invariant forall k | 0 <= k < |built| ::
                    fresh(built[k]) && Holds(built[k], own[k], associativity) && own[k] <= all
        invariant forall k, l | 0 <= k < l < |built| :: built[k] != built[l] && own[k] !! own[l]
        invariant forall line | line in all :: fresh(line) && !line.isValid
      {
        var lines := CacheSetInit(associativity);
        ghost var mine := set line | line in lines[..];
        built, own, all := built + [lines], own + [mine], all + mine;
      }
      sets, owned, allLines := built, own, all;
      new;
      ShiftBounds(blockSize, indexShift);
      NoneValid();
    }

    /** Without valid lines there is nothing to be coherent. */
    lemma NoneValid()
      requires Configured() && Separate() && forall line | line in allLines :: !line.isValid
      ensures Coherent(G(), memory, blockSize, Contents())
      ensures forall k, i | 0 <= k < |sets| && 0 <= i < associativity :: !Contents()[k][i].valid
    {
      forall k | 0 <= k < |sets| ensures forall i | 0 <= i < associativity :: !Contents()[k][i].valid {
        LinesNotValid(k);
      }
      AllInvalid(G(), memory, blockSize, Contents());
    }

    lemma LinesNotValid(k: nat)
      requires Configured() && Separate() && k < |sets| && forall line | line in allLines :: !line.isValid
      ensures forall i | 0 <= i < associativity :: !SetView(k)[i].valid
    {
      assert SetOk(k);
      forall i | 0 <= i < associativity ensures !SetView(k)[i].valid {
        assert sets[k][..][i] in sets[k][..];
      }
    }

    /** The shifts and masks fit the block size and the number of sets; neither has to be a power of two. */
    ghost predicate Configured()
    {
      && 3 <= cacheIndexShift <= POINTER_BITS && Pow2(cacheIndexShift) <= blockSize
      && cacheIndexShift <= tagShift && Pow2(tagShift - cacheIndexShift) <= numSets
      && blockOffsetMask == Pow2(cacheIndexShift) - 1 && cacheIndexMask == Pow2(tagShift - cacheIndexShift) - 1
      && associativity > 0 && |sets| == numSets
    }

    ghost function G(): Geometry
      requires Configured()
    {
      Geometry(cacheIndexShift, tagShift - cacheIndexShift)
    }

    /** Set k's array holds lines that belong to set k, each once. */
    ghost predicate SetOk(k: nat)
      requires k < |sets| == |owned|
      reads sets[k]
    {
      Holds(sets[k], owned[k], associativity)
    }

    /** Every set has its own array and its own lines. */
    ghost predicate Separate()
      reads sets
    {
      && |owned| == |sets|
      && (forall k | 0 <= k < |sets| :: owned[k] <= allLines)
      && (forall k, l | 0 <= k < l < |sets| :: sets[k] != sets[l] && owned[k] !! owned[l])
      && (forall k | 0 <= k < |sets| :: SetOk(k))
    }

    ghost function SetView(k: nat): (s: seq<L.Line>)
      requires k < |sets| == |owned| && SetOk(k)
      reads sets[k], owned[k]
      ensures |s| == associativity
    {
      ViewOf(sets[k][..])
    }

    ghost function Contents(): (c: Sets)
      requires Separate()
      reads sets, allLines
      ensures |c| == |sets| && forall k | 0 <= k < |sets| :: c[k] == SetView(k)
    {
      seq(|sets|, k requires 0 <= k < |sets| == |owned| && SetOk(k) && owned[k] <= allLines
                  reads sets, allLines => SetView(k))
    }

    ghost predicate Valid()
      reads sets, allLines
      ensures Valid() ==> Configured() && Separate()
    {
      Configured() && Separate() && Coherent(G(), memory, blockSize, Contents())
    }

    /** Evicts the last line and fills it with the block of the address. */
    method CacheSetAdd(lines: array<CacheLine>, address: nat, tag: int) returns (line: CacheLine)
      requires Configured() && lines.Length > 0 && Injective(lines[..])
      modifies lines, lines[lines.Length - 1]
      ensures Shuffled(old(lines[..]), lines[..]) && line == lines[0]
      ensures Pow2(cacheIndexShift) <= Pow2(POINTER_BITS)
      ensures ViewOf(lines[..]) ==
              L.Fill(old(ViewOf(lines[..])), L.Line(true, tag, BytesAt(memory, BaseOf(G(), address), blockSize)))
    {
      hide Pow2, And, Shr;
      Pow2Monotone(cacheIndexShift, POINTER_BITS);
      MruShuffles(lines[..], lines.Length - 1);
      line := FindAvailableCacheLine(lines);
      line.tag := tag;
      line.isValid := true;
      line.data := BytesAt(memory, And(address, Pow2(POINTER_BITS) - 1 - blockOffsetMask), blockSize);
    }

    static predicate CheckValidityAndTag(line: CacheLine, tag: int)
      reads line
    {
      line.tag == tag && line.isValid
    }

    /** The part of cache_read that works on the set of the address. */
    method LookUp(lines: array<CacheLine>, address: nat, tag: int) returns (line: CacheLine, miss: bool)
      requires Configured() && lines.Length > 0 && Injective(lines[..])
      modifies lines, lines[..]
      ensures Pow2(cacheIndexShift) <= Pow2(POINTER_BITS)
      ensures Shuffled(old(lines[..]), lines[..]) && line == lines[0]
      ensures miss <==> !L.Hits(old(ViewOf(lines[..])), tag)
      ensures ViewOf(lines[..]) ==
              L.Read(old(ViewOf(lines[..])), tag, BytesAt(memory, BaseOf(G(), address), blockSize))
    {
      Pow2Monotone(cacheIndexShift, POINTER_BITS);
      var found := CacheSetFindMatchingLine(lines, tag);
      miss := found == null || !CheckValidityAndTag(found, tag);
      if miss {
        assert lines[lines.Length - 1] in lines[..];
        line := CacheSetAdd(lines, address, tag);
      } else {
        line := found;
      }
    }

    /** Working on one set leaves all others as they are. */
    method LookUpInSet(index: nat, address: nat, tag: int) returns (line: CacheLine, miss: bool)
      requires Configured() && Separate() && address < ADDRESS_LIMIT
      requires index == IndexOf(G(), address) < |sets| && tag == TagOf(G(), address)
      modifies sets[index], owned[index]
      ensures Separate() && |Contents()[index]| > 0 && line.data == Contents()[index][0].data
      ensures miss <==> !HitsAt(G(), old(Contents()), address)
      ensures Contents() == ReadAt(G(), memory, blockSize, old(Contents()), address)
    {
      hide L.Read, L.Hits, L.FirstMatch, BytesAt, BlockAddress, Pow2, And, Shr, Injective;
      assert SetOk(index);
      ghost var view := SetView(index);
      line, miss := LookUp(sets[index], address, tag);
      assert SetOk(index);
      assert SetView(index) == L.Read(view, tag, BlockOf(G(), memory, blockSize, index)(tag)) by {
        AddressRebuilt(G(), address);
      }
    }

    /** The shifts and masks compute tag, index and offset. */
    lemma AddressSplit(address: nat)
      requires Configured() && address < ADDRESS_LIMIT
      ensures Shr(address, tagShift) == TagOf(G(), address)
      ensures And(Shr(address, cacheIndexShift), cacheIndexMask) == IndexOf(G(), address) < |sets|
      ensures And(address, blockOffsetMask) == OffsetOf(G(), address)
    {
      AddressRebuilt(G(), address);
    }

    lemma AfterRead(before: Sets, address: nat, after: Sets)
      requires Configured() && |before| == |sets| && (forall k | 0 <= k < |sets| :: |before[k]| == associativity)
      requires Coherent(G(), memory, blockSize, before) && address < ADDRESS_LIMIT && address % 8 == 0
      requires IndexOf(G(), address) < |sets| && after == ReadAt(G(), memory, blockSize, before, address)
      ensures Coherent(G(), memory, blockSize, after)
      ensures var data, offset := after[IndexOf(G(), address)][0].data, OffsetOf(G(), address);
              offset + 8 <= |data| && LongOf(data[offset..offset + 8]) == LongAt(memory, address)
    {
      ReadFacts(G(), memory, blockSize, before, address);
    }

    /** cache_read without its counters. */
    method ReadThrough(address: nat) returns (value: int, miss: bool)
      requires Valid() && address < ADDRESS_LIMIT && address % 8 == 0
      modifies sets, allLines
      ensures Valid() && value == LongAt(memory, address)
      ensures IndexOf(G(), address) < |sets|
      ensures Contents() == ReadAt(G(), memory, blockSize, old(Contents()), address)
      ensures miss <==> !HitsAt(G(), old(Contents()), address)
    {
      hide Pow2, And, Shr, BytesAt, ReadAt, HitsAt, LongOf, Coherent, L.Read;
      AddressSplit(address);
      var tag := Shr(address, tagShift);
      var index := And(Shr(address, cacheIndexShift), cacheIndexMask);
      var offset := And(address, blockOffsetMask);
      ghost var before := Contents();
      var line;
      line, miss := LookUpInSet(index, address, tag);
      AfterRead(before, address, Contents());
      value := LongOf(line.data[offset..offset + 8]);
    }

    /** Reads the long at an aligned address through the cache. */
    method CacheRead(address: nat) returns (value: int)
      requires Valid() && address < ADDRESS_LIMIT && address % 8 == 0
      modifies this, sets, allLines
      ensures Valid() && value == LongAt(memory, address)
      ensures forall v | HoldsLong(memory, address, v) :: value == v
      ensures IndexOf(G(), address) < |sets|
      ensures Contents() == ReadAt(G(), memory, blockSize, old(Contents()), address)
      ensures accessCount == Increment(old(accessCount))
      ensures missCount == if HitsAt(G(), old(Contents()), address) then old(missCount) else Increment(old(missCount))
    {
      hide *;
      accessCount := Increment(accessCount);
      var miss;
      value, miss := ReadThrough(address);
      if miss {
        missCount := Increment(missCount);
      }
      forall v | HoldsLong(memory, address, v) ensures value == v {
        LongReadBack(memory, address, v);
      }
    }
  }
}
