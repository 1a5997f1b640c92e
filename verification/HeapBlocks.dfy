/** The heap as its user sees it: a list of blocks that tiles the region, and what
    malloc and free do to that list (lab5/implicit.c). The words of memory come in HeapWords. */
module HeapBlocks {
  import opened Bits

  const HEADER_SIZE := 4
  const PAYLOAD_ALIGN := 8
  const MAX_UNUSED_BYTES := 128
  const U32_LIMIT := 0x1_0000_0000

  datatype Block = Block(start: int, size: int, used: bool)
  {
    function End(): int { start + size }
    function Payload(): int { start + HEADER_SIZE }
    function PayloadEnd(): int { End() - HEADER_SIZE }
  }

  datatype SearchAlg = FirstFit | NextFit | BestFit

  /** When coalesce compares the rover with the second block: after the first block's
      header was overwritten, as the code has it, or before, as its comment intends. */
  datatype RoverOrder = AsWritten | AsIntended

  predicate LegalBlock(b: Block)
  {
    8 <= b.size && b.size % 8 == 0
  }

  /** The blocks cover [lo, hi) in order, without gap or overlap. */
  ghost predicate Tiles(bs: seq<Block>, lo: int, hi: int)
  {
    if bs == [] then lo == hi
    else LegalBlock(bs[0]) && bs[0].start == lo && Tiles(bs[1..], bs[0].End(), hi)
  }

  ghost predicate NoAdjacentFree(bs: seq<Block>)
  {
    |bs| >= 2 ==> (bs[0].used || bs[1].used) && NoAdjacentFree(bs[1..])
  }

  ghost function UsedBlocks(bs: seq<Block>): set<Block>
  {
    set b | b in bs && b.used
  }

  // ---- sizes ----

  /** The bytes a request needs, in 32-bit arithmetic. Sizes that are no multiple of 8 are rounded up. */
  function SizeToAllocate(userSize: nat): nat
  {
    var aligned := if userSize % PAYLOAD_ALIGN == 0 then userSize
                   else userSize + PAYLOAD_ALIGN - userSize % PAYLOAD_ALIGN;
    (aligned + 2 * HEADER_SIZE) % U32_LIMIT
  }

  /** The request and its two headers fit exactly when nothing wraps around. */
  lemma SizeToAllocateEnough(userSize: nat)
    requires userSize < U32_LIMIT
    ensures userSize + 8 <= SizeToAllocate(userSize) <==> userSize <= U32_LIMIT - 16
    ensures SizeToAllocate(userSize) % 8 == 0
    ensures SizeToAllocate(userSize) < userSize + 16
    ensures userSize % 8 == 0 && userSize + 8 < U32_LIMIT ==> SizeToAllocate(userSize) == userSize + 8
  {
  }

  /** Only requests of 2^32 - 15 to 2^32 - 8 bytes wrap around to nothing; larger ones to a block without payload. */
  lemma SizeToAllocateWraps(userSize: nat)
    requires userSize < U32_LIMIT
    ensures SizeToAllocate(userSize) < 8 <==> U32_LIMIT - 16 < userSize <= U32_LIMIT - 8
    ensures userSize > U32_LIMIT - 8 ==> SizeToAllocate(userSize) == 8
    ensures SizeToAllocate(userSize) % 8 == 0
  {
  }

  predicate Splits(blockSize: nat, need: nat)
  {
    (need + MAX_UNUSED_BYTES) % U32_LIMIT < blockSize || need * 2 % U32_LIMIT < blockSize
  }

  // ---- block-list operations ----

  /** The list with blocks i..j replaced by mid. */
  function Splice(bs: seq<Block>, i: nat, j: nat, mid: seq<Block>): seq<Block>
    requires i <= j <= |bs|
  {
    bs[..i] + mid + bs[j..]
  }

  /** A free block turned into a used one, split when it is much larger than needed. */
  function Carve(b: Block, need: nat): seq<Block>
  {
    if b.size >= 0 && Splits(b.size, need) then
      [Block(b.start, need, true), Block(b.start + need, b.size - need, false)]
    else
      [b.(used := true)]
  }

  function Allocate(bs: seq<Block>, i: nat, need: nat): seq<Block>
    requires i < |bs|
  {
    Splice(bs, i, i + 1, Carve(bs[i], need))
  }

  function Coalesce(bs: seq<Block>, i: nat): seq<Block>
    requires i < |bs|
  {
    if i + 1 == |bs| || bs[i].used || bs[i + 1].used then bs
    else Splice(bs, i, i + 2, [Block(bs[i].start, bs[i].size + bs[i + 1].size, false)])
  }

  function Release(bs: seq<Block>, i: nat): seq<Block>
    requires i < |bs|
  {
    bs[i := bs[i].(used := false)]
  }

  /** free: release block i, then coalesce it with its right and its left neighbour. */
  function Free(bs: seq<Block>, i: nat): seq<Block>
    requires i < |bs|
  {
    var merged := Coalesce(Release(bs, i), i);
    if i == 0 then merged else Coalesce(merged, i - 1)
  }

  // ---- tilings ----

  lemma {:induction false} TilesConcat(left: seq<Block>, right: seq<Block>, lo: int, mid: int, hi: int)
    requires Tiles(left, lo, mid) && Tiles(right, mid, hi)
    ensures Tiles(left + right, lo, hi)
  {
    if left == [] {
      assert left + right == right;
    } else {
      TilesConcat(left[1..], right, left[0].End(), mid, hi);
      assert (left + right)[1..] == left[1..] + right;
    }
  }

  /** A tiling is cut in two at every block. */
  lemma {:induction false} TilesSplit(bs: seq<Block>, lo: int, hi: int, i: nat)
    requires Tiles(bs, lo, hi) && i < |bs|
    ensures Tiles(bs[..i], lo, bs[i].start) && LegalBlock(bs[i]) && Tiles(bs[i + 1..], bs[i].End(), hi)
  {
    if i > 0 {
      TilesSplit(bs[1..], bs[0].End(), hi, i - 1);
      assert bs[..i][1..] == bs[1..][..i - 1];
      assert bs[i + 1..] == bs[1..][i..];
    }
  }

  lemma {:induction false} TilesWithin(bs: seq<Block>, lo: int, hi: int)
    requires Tiles(bs, lo, hi)
    ensures lo <= hi
    ensures forall b | b in bs :: LegalBlock(b) && b.start % 8 == lo % 8 && lo <= b.start && b.End() <= hi
  {
    if bs != [] {
      TilesWithin(bs[1..], bs[0].End(), hi);
      assert bs == [bs[0]] + bs[1..];
      Remainder(bs[0].End(), 8, lo / 8 + bs[0].size / 8, lo % 8);
    }
  }

  /** Everything left of block i ends before it and everything right of it starts after it. */
  lemma TilesAround(bs: seq<Block>, lo: int, hi: int, i: nat)
    requires Tiles(bs, lo, hi) && i < |bs|
    ensures lo <= bs[i].start && bs[i].End() <= hi && bs[i].start % 8 == lo % 8 && LegalBlock(bs[i])
    ensures Tiles(bs[..i], lo, bs[i].start) && Tiles(bs[i + 1..], bs[i].End(), hi)
    ensures forall b | b in bs[..i] :: lo <= b.start && b.End() <= bs[i].start
    ensures forall b | b in bs[i + 1..] :: bs[i].End() <= b.start && b.End() <= hi
    ensures forall b | b in bs :: LegalBlock(b) && b.start % 8 == lo % 8 && lo <= b.start && b.End() <= hi
  {
    hide Tiles;
    TilesSplit(bs, lo, hi, i);
    TilesWithin(bs, lo, hi);
    TilesWithin(bs[..i], lo, bs[i].start);
    TilesWithin(bs[i + 1..], bs[i].End(), hi);
    assert bs[i] in bs;
  }

  lemma {:induction false} NoAdjacentFreeConcat(left: seq<Block>, right: seq<Block>)
    ensures NoAdjacentFree(left + right) <==>
            NoAdjacentFree(left) && NoAdjacentFree(right) &&
            (left != [] && right != [] ==> left[|left| - 1].used || right[0].used)
  {
    if left == [] {
      assert left + right == right;
    } else {
      NoAdjacentFreeConcat(left[1..], right);
      assert (left + right)[1..] == left[1..] + right;
    }
  }

  lemma BlockBounds(bs: seq<Block>, lo: int, hi: int, i: nat)
    requires Tiles(bs, lo, hi) && i < |bs|
    ensures lo <= bs[i].start && bs[i].End() <= hi && bs[i].start % 8 == lo % 8 && LegalBlock(bs[i])
  {
    TilesAround(bs, lo, hi, i);
  }

  lemma BlocksInOrder(bs: seq<Block>, lo: int, hi: int, i: nat, j: nat)
    requires Tiles(bs, lo, hi) && i < j < |bs|
    ensures bs[i].End() <= bs[j].start
  {
    TilesAround(bs, lo, hi, i);
    assert bs[j] == bs[i + 1..][j - i - 1];
  }

  lemma LastEnds(bs: seq<Block>, lo: int, hi: int, i: nat)
    requires Tiles(bs, lo, hi) && i < |bs|
    ensures i + 1 < |bs| <==> bs[i].End() < hi
  {
    TilesAround(bs, lo, hi, i);
    if i + 1 < |bs| { BlockBounds(bs, lo, hi, i + 1); }
  }

  // ---- replacing a stretch of blocks ----

  lemma SpliceTiles(bs: seq<Block>, lo: int, hi: int, i: nat, j: nat, mid: seq<Block>)
    requires Tiles(bs, lo, hi) && i < j <= |bs| && Tiles(mid, bs[i].start, bs[j - 1].End())
    ensures Tiles(Splice(bs, i, j, mid), lo, hi)
  {
    TilesAround(bs, lo, hi, i);
    TilesAround(bs, lo, hi, j - 1);
    TilesConcat(bs[..i], mid, lo, bs[i].start, bs[j - 1].End());
    TilesConcat(bs[..i] + mid, bs[j..], lo, bs[j - 1].End(), hi);
  }

  lemma UsedConcat(left: seq<Block>, right: seq<Block>)
    ensures UsedBlocks(left + right) == UsedBlocks(left) + UsedBlocks(right)
  {
  }

  lemma SpliceUsed(bs: seq<Block>, i: nat, j: nat, mid: seq<Block>)
    requires i <= j <= |bs|
    ensures UsedBlocks(bs) == UsedBlocks(bs[..i]) + UsedBlocks(bs[i..j]) + UsedBlocks(bs[j..])
    ensures UsedBlocks(Splice(bs, i, j, mid)) == UsedBlocks(bs[..i]) + UsedBlocks(mid) + UsedBlocks(bs[j..])
  {
    UsedConcat(bs[..i], mid);
    UsedConcat(bs[..i] + mid, bs[j..]);
    UsedConcat(bs[..i], bs[i..j]);
    UsedConcat(bs[..i] + bs[i..j], bs[j..]);
    assert bs == bs[..i] + bs[i..j] + bs[j..];
  }

  /** Replacing a stretch keeps neighbours apart if mid does and no free block of mid meets a free neighbour. */
  lemma SpliceNoAdjacentFree(bs: seq<Block>, i: nat, j: nat, mid: seq<Block>)
    requires NoAdjacentFree(bs) && i <= j <= |bs| && mid != [] && NoAdjacentFree(mid)
    requires i > 0 ==> bs[i - 1].used || mid[0].used
    requires j < |bs| ==> mid[|mid| - 1].used || bs[j].used
    ensures NoAdjacentFree(Splice(bs, i, j, mid))
  {
    var left, right := bs[..i], bs[j..];
    assert NoAdjacentFree(left) by { NoAdjacentFreeConcat(left, bs[i..]); assert bs == left + bs[i..]; }
    assert NoAdjacentFree(right) by { NoAdjacentFreeConcat(bs[..j], right); assert bs == bs[..j] + right; }
    assert NoAdjacentFree(left + mid) by { NoAdjacentFreeConcat(left, mid); }
    NoAdjacentFreeConcat(left + mid, right);
  }

  lemma NeighbourUsed(bs: seq<Block>, i: nat)
    requires NoAdjacentFree(bs) && i + 1 < |bs|
    ensures bs[i].used || bs[i + 1].used
  {
    NoAdjacentFreeConcat(bs[..i + 1], bs[i + 1..]);
    assert bs == bs[..i + 1] + bs[i + 1..];
  }

  lemma SpliceKeeps(bs: seq<Block>, lo: int, hi: int, i: nat, j: nat, mid: seq<Block>)
    requires Tiles(bs, lo, hi) && NoAdjacentFree(bs) && i < j <= |bs|
    requires Tiles(mid, bs[i].start, bs[j - 1].End()) && NoAdjacentFree(mid) && mid != []
    requires mid[0].used || i == 0 || bs[i - 1].used
    requires mid[|mid| - 1].used || j == |bs| || bs[j].used
    ensures Tiles(Splice(bs, i, j, mid), lo, hi) && NoAdjacentFree(Splice(bs, i, j, mid))
  {
    SpliceTiles(bs, lo, hi, i, j, mid);
    SpliceNoAdjacentFree(bs, i, j, mid);
  }

  // ---- what malloc and free keep ----

  lemma CarveTiles(b: Block, need: nat)
    requires LegalBlock(b) && !b.used && 8 <= need <= b.size < U32_LIMIT / 2 && need % 8 == 0
    ensures Tiles(Carve(b, need), b.start, b.End()) && NoAdjacentFree(Carve(b, need))
    ensures UsedBlocks(Carve(b, need)) == {Carve(b, need)[0]}
  {
  }

  lemma AllocateKeeps(bs: seq<Block>, lo: int, hi: int, i: nat, need: nat)
    requires Tiles(bs, lo, hi) && NoAdjacentFree(bs)
    requires i < |bs| && !bs[i].used && 8 <= need <= bs[i].size < U32_LIMIT / 2 && need % 8 == 0
    ensures Tiles(Allocate(bs, i, need), lo, hi) && NoAdjacentFree(Allocate(bs, i, need))
    ensures UsedBlocks(Allocate(bs, i, need)) == UsedBlocks(bs) + {Carve(bs[i], need)[0]}
  {
    BlockBounds(bs, lo, hi, i);
    CarveTiles(bs[i], need);
    if i + 1 < |bs| { NeighbourUsed(bs, i); }
    SpliceKeeps(bs, lo, hi, i, i + 1, Carve(bs[i], need));
    SpliceUsed(bs, i, i + 1, Carve(bs[i], need));
    assert UsedBlocks(bs[i..i + 1]) == {};
  }

  /** The stretch of blocks that freeing block i merges. */
  function MergeFrom(bs: seq<Block>, i: nat): nat
    requires i < |bs|
  {
    if i > 0 && !bs[i - 1].used then i - 1 else i
  }

  function MergeTo(bs: seq<Block>, i: nat): nat
    requires i < |bs|
  {
    if i + 1 < |bs| && !bs[i + 1].used then i + 2 else i + 1
  }

  lemma MergeRight(bs: seq<Block>, i: nat)
    requires i < |bs| && (i + 1 < |bs| ==> bs[i].End() == bs[i + 1].start)
    ensures Coalesce(Release(bs, i), i) ==
            Splice(bs, i, MergeTo(bs, i), [Block(bs[i].start, bs[MergeTo(bs, i) - 1].End() - bs[i].start, false)])
  {
    var r := Release(bs, i);
    assert r[..i] == bs[..i] && r[i] == bs[i].(used := false);
    if MergeTo(bs, i) == i + 2 {
      assert r[i + 2..] == bs[i + 2..];
    } else {
      assert r == bs[..i] + [r[i]] + bs[i + 1..];
    }
  }

  lemma MergeLeft(bs: seq<Block>, i: nat, j: nat, x: Block)
    requires 0 < i <= j <= |bs| && !x.used
    requires bs[i - 1].End() == x.start
    ensures |Splice(bs, i, j, [x])| > i
    ensures Coalesce(Splice(bs, i, j, [x]), i - 1) ==
            if bs[i - 1].used then Splice(bs, i, j, [x])
            else Splice(bs, i - 1, j, [Block(bs[i - 1].start, x.End() - bs[i - 1].start, false)])
  {
    var r := Splice(bs, i, j, [x]);
    assert r[i] == x && r[i - 1] == bs[i - 1];
    if !bs[i - 1].used {
      assert r[..i - 1] == bs[..i - 1];
      assert r[i + 1..] == bs[j..];
    }
  }

  /** The two coalesces of free merge exactly the free neighbours of the freed block. */
  lemma FreeIsOneMerge(bs: seq<Block>, lo: int, hi: int, i: nat)
    requires Tiles(bs, lo, hi) && i < |bs|
    ensures var m, n := MergeFrom(bs, i), MergeTo(bs, i);
            Free(bs, i) == Splice(bs, m, n, [Block(bs[m].start, bs[n - 1].End() - bs[m].start, false)])
  {
    if i + 1 < |bs| { TilesNext(bs, lo, hi, i); }
    MergeRight(bs, i);
    if i > 0 {
      TilesNext(bs, lo, hi, i - 1);
      MergeLeft(bs, i, MergeTo(bs, i), Block(bs[i].start, bs[MergeTo(bs, i) - 1].End() - bs[i].start, false));
    }
  }

  lemma TilesNext(bs: seq<Block>, lo: int, hi: int, i: nat)
    requires Tiles(bs, lo, hi) && i + 1 < |bs|
    ensures bs[i].End() == bs[i + 1].start
  {
    TilesAround(bs, lo, hi, i);
  }

  lemma FreeKeeps(bs: seq<Block>, lo: int, hi: int, i: nat)
    requires Tiles(bs, lo, hi) && NoAdjacentFree(bs) && i < |bs| && bs[i].used
    ensures Tiles(Free(bs, i), lo, hi) && NoAdjacentFree(Free(bs, i))
  {
    var m, n := MergeFrom(bs, i), MergeTo(bs, i);
    FreeIsOneMerge(bs, lo, hi, i);
    StretchIsLegal(bs, lo, hi, m, n);
    if m > 0 { NeighbourUsed(bs, m - 1); }
    if n < |bs| { NeighbourUsed(bs, n - 1); }
    SpliceKeeps(bs, lo, hi, m, n, [Block(bs[m].start, bs[n - 1].End() - bs[m].start, false)]);
  }

  /** Freeing a block removes it from the blocks in use and touches no other. */
  lemma FreeReleasesOne(bs: seq<Block>, lo: int, hi: int, i: nat)
    requires Tiles(bs, lo, hi) && i < |bs| && bs[i].used
    ensures UsedBlocks(Free(bs, i)) == UsedBlocks(bs) - {bs[i]}
  {
    hide Tiles, Free, Splice, UsedBlocks;
    var m, n := MergeFrom(bs, i), MergeTo(bs, i);
    var mid := [Block(bs[m].start, bs[n - 1].End() - bs[m].start, false)];
    FreeIsOneMerge(bs, lo, hi, i);
    SpliceUsed(bs, m, n, mid);
    NoneUsed(mid[0]);
    UsedOnce(bs, lo, hi, i, m, n);
  }

  lemma NoneUsed(b: Block)
    requires !b.used
    ensures UsedBlocks([b]) == {}
  {
  }

  lemma StretchIsLegal(bs: seq<Block>, lo: int, hi: int, m: nat, n: nat)
    requires Tiles(bs, lo, hi) && m < n <= |bs|
    ensures LegalBlock(Block(bs[m].start, bs[n - 1].End() - bs[m].start, false))
  {
    BlockBounds(bs, lo, hi, n - 1);
    BlockBounds(bs, lo, hi, m);
    if m < n - 1 { BlocksInOrder(bs, lo, hi, m, n - 1); }
    var b, c := bs[m], bs[n - 1];
    Remainder(c.End() - b.start, 8, c.start / 8 + c.size / 8 - b.start / 8, 0);
  }

  lemma ReleaseKeeps(bs: seq<Block>, lo: int, hi: int, i: nat)
    requires Tiles(bs, lo, hi) && i < |bs| && bs[i].used
    ensures Release(bs, i) == Splice(bs, i, i + 1, [bs[i].(used := false)])
    ensures Tiles(Release(bs, i), lo, hi)
    ensures UsedBlocks(Release(bs, i)) == UsedBlocks(bs) - {bs[i]}
  {
    BlockBounds(bs, lo, hi, i);
    SpliceTiles(bs, lo, hi, i, i + 1, [bs[i].(used := false)]);
    SpliceUsed(bs, i, i + 1, [bs[i].(used := false)]);
    UsedOnce(bs, lo, hi, i, i, i + 1);
  }

  lemma CoalesceKeepsUsed(bs: seq<Block>, i: nat)
    requires i < |bs|
    ensures UsedBlocks(Coalesce(bs, i)) == UsedBlocks(bs)
  {
    if Merges(bs, i) {
      SpliceUsed(bs, i, i + 2, [Block(bs[i].start, bs[i].size + bs[i + 1].size, false)]);
      assert UsedBlocks(bs[i..i + 2]) == {};
    }
  }

  lemma NothingToMerge(bs: seq<Block>)
    requires NoAdjacentFree(bs) && bs != []
    ensures !Merges(bs, 0)
  {
  }

  /** The stages of free: release, merge to the right, merge to the left. */
  lemma FreeFacts(bs: seq<Block>, lo: int, hi: int, i: nat)
    requires Tiles(bs, lo, hi) && NoAdjacentFree(bs) && i < |bs| && bs[i].used
    ensures NoAdjacentFree(Free(bs, i))
    ensures UsedBlocks(Release(bs, i)) == UsedBlocks(bs) - {bs[i]}
    ensures UsedBlocks(Coalesce(Release(bs, i), i)) == UsedBlocks(bs) - {bs[i]}
    ensures Coalesce(Release(bs, i), i) != [] && (i == 0 ==> !Merges(Coalesce(Release(bs, i), i), 0))
  {
    FreeKeeps(bs, lo, hi, i);
    ReleaseKeeps(bs, lo, hi, i);
    CoalesceKeepsUsed(Release(bs, i), i);
    if i == 0 { NothingToMerge(Free(bs, i)); }
  }

  lemma OnlyUsed(bs: seq<Block>, i: nat, m: nat, n: nat)
    requires m <= i < n <= |bs| && bs[i].used && forall k | m <= k < n && k != i :: !bs[k].used
    ensures UsedBlocks(bs[m..n]) == {bs[i]}
  {
    assert bs[m..n][i - m] == bs[i];
  }

  lemma NotElsewhere(bs: seq<Block>, lo: int, hi: int, i: nat, m: nat, n: nat)
    requires Tiles(bs, lo, hi) && m <= i < n <= |bs|
    ensures bs[i] !in UsedBlocks(bs[..m]) && bs[i] !in UsedBlocks(bs[n..])
  {
    hide Tiles;
    forall k | 0 <= k < |bs| && k != i ensures bs[k] != bs[i] {
      if bs[k].start == bs[i].start { StartsDistinct(bs, lo, hi, k, i); }
    }
  }

  /** A used block occurs once, so removing a stretch in which it is the only used block removes it. */
  lemma UsedOnce(bs: seq<Block>, lo: int, hi: int, i: nat, m: nat, n: nat)
    requires Tiles(bs, lo, hi) && m <= i < n <= |bs|
    requires bs[i].used && forall k | m <= k < n && k != i :: !bs[k].used
    ensures UsedBlocks(bs[..m]) + UsedBlocks(bs[n..]) == UsedBlocks(bs) - {bs[i]}
  {
    hide Tiles, UsedBlocks;
    SpliceUsed(bs, m, n, []);
    OnlyUsed(bs, i, m, n);
    NotElsewhere(bs, lo, hi, i, m, n);
  }

  /** Two different blocks do not overlap. */
  lemma BlocksDisjoint(bs: seq<Block>, lo: int, hi: int, b: Block, c: Block)
    requires Tiles(bs, lo, hi) && b in bs && c in bs && b != c
    ensures b.End() <= c.start || c.End() <= b.start
  {
    var i :| 0 <= i < |bs| && bs[i] == b;
    var j :| 0 <= j < |bs| && bs[j] == c;
    if i < j { BlocksInOrder(bs, lo, hi, i, j); } else { BlocksInOrder(bs, lo, hi, j, i); }
  }

  /** A heap without used blocks is one free block: no split survives. */
  lemma AllFreeIsOneBlock(bs: seq<Block>, lo: int, hi: int)
    requires Tiles(bs, lo, hi) && NoAdjacentFree(bs) && lo < hi && UsedBlocks(bs) == {}
    ensures bs == [Block(lo, hi - lo, false)]
  {
    assert forall b | b in bs :: b.used ==> b in UsedBlocks(bs);
    if |bs| > 1 {
      assert false;
    }
    assert bs[1..] == [];
  }

  function TotalSize(bs: seq<Block>): int
  {
    if bs == [] then 0 else bs[0].size + TotalSize(bs[1..])
  }

  /** The block sizes add up to the size of the heap. */
  lemma {:induction false} SizesAddUp(bs: seq<Block>, lo: int, hi: int)
    requires Tiles(bs, lo, hi)
    ensures TotalSize(bs) == hi - lo
  {
    if bs != [] {
      SizesAddUp(bs[1..], bs[0].End(), hi);
    }
  }

  /** The bytes in free blocks, and their number. */
  function FreeSize(bs: seq<Block>): int
  {
    if bs == [] then 0 else
      var last := |bs| - 1;
      FreeSize(bs[..last]) + if bs[last].used then 0 else bs[last].size
  }

  function FreeCount(bs: seq<Block>): nat
  {
    if bs == [] then 0 else
      var last := |bs| - 1;
      FreeCount(bs[..last]) + if bs[last].used then 0 else 1
  }

  lemma FreeGrows(bs: seq<Block>, k: nat)
    requires k < |bs|
    ensures FreeSize(bs[..0]) == 0 && FreeCount(bs[..0]) == 0 && bs[..|bs|] == bs
    ensures FreeSize(bs[..k + 1]) == FreeSize(bs[..k]) + if bs[k].used then 0 else bs[k].size
    ensures FreeCount(bs[..k + 1]) == FreeCount(bs[..k]) + if bs[k].used then 0 else 1
  {
    assert bs[..k + 1][..k] == bs[..k];
  }

  /** Free bytes never exceed the heap, and there are none exactly if every block is in use. */
  lemma {:induction false} FreeWithin(bs: seq<Block>, lo: int, hi: int)
    requires Tiles(bs, lo, hi)
    ensures 8 * FreeCount(bs) <= FreeSize(bs) <= hi - lo
    ensures FreeCount(bs) == 0 <==> forall b | b in bs :: b.used
  {
    if bs != [] {
      var last := |bs| - 1;
      TilesAround(bs, lo, hi, last);
      TilesSplit(bs, lo, hi, last);
      FreeWithin(bs[..last], lo, bs[last].start);
      assert bs == bs[..last] + [bs[last]];
    }
  }

  // ---- the search policies, by what they promise ----

  predicate Fits(b: Block, need: nat)
  {
    !b.used && b.size >= need
  }

  ghost predicate NoneFits(bs: seq<Block>, need: nat, lo: nat, hi: nat)
    requires hi <= |bs|
  {
    forall k | lo <= k < hi :: !Fits(bs[k], need)
  }

  /** Block i is the one that the policy picks; i == |bs| stands for none. */
  ghost predicate Chosen(alg: SearchAlg, bs: seq<Block>, rover: int, need: nat, i: nat)
  {
    && i <= |bs|
    && if i == |bs| then NoneFits(bs, need, 0, |bs|)
       else
         && Fits(bs[i], need)
         && (alg == FirstFit ==> NoneFits(bs, need, 0, i))
         && (alg == BestFit ==> Tightest(bs, need, i))
         && (alg == NextFit ==> exists r: nat :: ResumesAt(bs, rover, r) && FirstFrom(bs, need, r, i))
  }

  /** No fitting block is smaller, and none of the same size lies further right. */
  ghost predicate Tightest(bs: seq<Block>, need: nat, i: nat)
    requires i < |bs|
  {
    TightestBelow(bs, need, i, |bs|)
  }

  ghost predicate TightestBelow(bs: seq<Block>, need: nat, i: nat, hi: nat)
    requires i < |bs| && hi <= |bs|
  {
    forall k | 0 <= k < hi && Fits(bs[k], need) ::
      bs[i].size < bs[k].size || (bs[i].size == bs[k].size && k <= i)
  }

  /** Block r is the first that starts at the rover or behind it; r == |bs| stands for none. */
  predicate ResumesAt(bs: seq<Block>, rover: int, r: nat)
  {
    r <= |bs| && (r > 0 ==> bs[r - 1].start < rover) && (r < |bs| ==> rover <= bs[r].start)
  }

  /** No block before i fits, going round from r. */
  ghost predicate FirstFrom(bs: seq<Block>, need: nat, r: nat, i: nat)
    requires r <= |bs| && i < |bs|
  {
    if r <= i then NoneFits(bs, need, r, i)
    else NoneFits(bs, need, r, |bs|) && NoneFits(bs, need, 0, i)
  }

  /** A policy picks at most one block. */
  lemma ChosenUnique(alg: SearchAlg, bs: seq<Block>, lo: int, hi: int, rover: int, need: nat, i: nat, j: nat)
    requires Tiles(bs, lo, hi)
    requires Chosen(alg, bs, rover, need, i) && Chosen(alg, bs, rover, need, j)
    ensures i == j
  {
    if alg == NextFit && i < |bs| && j < |bs| {
      var r: nat :| ResumesAt(bs, rover, r) && FirstFrom(bs, need, r, i);
      var q: nat :| ResumesAt(bs, rover, q) && FirstFrom(bs, need, q, j);
      ResumesOnce(bs, lo, hi, rover, r, q);
    }
  }

  lemma ResumesOnce(bs: seq<Block>, lo: int, hi: int, rover: int, r: nat, q: nat)
    requires Tiles(bs, lo, hi) && ResumesAt(bs, rover, r) && ResumesAt(bs, rover, q)
    ensures r == q
  {
    if r < q {
      StartsOrdered(bs, lo, hi, r, q - 1);
    } else if q < r {
      StartsOrdered(bs, lo, hi, q, r - 1);
    }
  }

  lemma StartsOrdered(bs: seq<Block>, lo: int, hi: int, i: nat, j: nat)
    requires Tiles(bs, lo, hi) && i <= j < |bs|
    ensures bs[i].start <= bs[j].start
    ensures i < j ==> bs[i].End() <= bs[j].start && bs[i].start < bs[j].start
  {
    BlockBounds(bs, lo, hi, i);
    if i < j { BlocksInOrder(bs, lo, hi, i, j); }
  }

  lemma StartsDistinct(bs: seq<Block>, lo: int, hi: int, i: nat, j: nat)
    requires Tiles(bs, lo, hi) && i < |bs| && j < |bs| && bs[i].start == bs[j].start
    ensures i == j
  {
    BlockBounds(bs, lo, hi, i);
    BlockBounds(bs, lo, hi, j);
    if i < j {
      BlocksInOrder(bs, lo, hi, i, j);
    } else if j < i {
      BlocksInOrder(bs, lo, hi, j, i);
    }
  }

  // ---- the next-fit rover ----

  ghost predicate IsBlockStart(bs: seq<Block>, a: int)
  {
    exists i :: 0 <= i < |bs| && bs[i].start == a
  }

  predicate Merges(bs: seq<Block>, i: nat)
    requires i < |bs|
  {
    i + 1 < |bs| && !bs[i].used && !bs[i + 1].used
  }

  /** The rover after coalescing block i. As written, the test reads the header that was just overwritten. */
  function RoverAfterCoalesce(alg: SearchAlg, order: RoverOrder, bs: seq<Block>, i: nat, rover: int): int
    requires i < |bs|
  {
    if alg == NextFit && Merges(bs, i) &&
       rover == (if order == AsWritten then bs[i + 1].End() else bs[i + 1].start)
    then bs[i].start
    else rover
  }

  function RoverAfterFree(alg: SearchAlg, order: RoverOrder, bs: seq<Block>, i: nat, rover: int): int
    requires i < |bs|
  {
    var released := Release(bs, i);
    var rover' := RoverAfterCoalesce(alg, order, released, i, rover);
    if i == 0 then rover' else RoverAfterCoalesce(alg, order, Coalesce(released, i), i - 1, rover')
  }

  /** The three situations in which free, as written, leaves the rover inside a merged block. */
  predicate RoverLost(bs: seq<Block>, i: nat, rover: int)
    requires i < |bs|
  {
    var prevFree := i > 0 && !bs[i - 1].used;
    var nextFree := i + 1 < |bs| && !bs[i + 1].used;
    || (nextFree && rover == bs[i + 1].start)
    || (prevFree && rover == bs[i].start)
    || (prevFree && nextFree && rover == bs[i + 1].End())
  }

  lemma MergedTiles(bs: seq<Block>, lo: int, hi: int, i: nat)
    requires Tiles(bs, lo, hi) && i < |bs|
    ensures Tiles(Coalesce(bs, i), lo, hi)
  {
    if Merges(bs, i) {
      TilesNext(bs, lo, hi, i);
      StretchIsLegal(bs, lo, hi, i, i + 2);
      SpliceTiles(bs, lo, hi, i, i + 2, [Block(bs[i].start, bs[i].size + bs[i + 1].size, false)]);
    }
  }

  /** A merge removes exactly one block start: the second block's. */
  lemma StartsAfterCoalesce(bs: seq<Block>, lo: int, hi: int, i: nat, a: int)
    requires Tiles(bs, lo, hi) && i < |bs|
    ensures IsBlockStart(Coalesce(bs, i), a) <==> IsBlockStart(bs, a) && !(Merges(bs, i) && a == bs[i + 1].start)
  {
    hide Tiles;
    if Merges(bs, i) {
      var r := Coalesce(bs, i);
      assert forall j | 0 <= j < |r| :: r[j].start == bs[if j <= i then j else j + 1].start;
      if IsBlockStart(bs, a) && a != bs[i + 1].start {
        var k :| 0 <= k < |bs| && bs[k].start == a;
        assert r[if k <= i then k else k - 1].start == a;
      }
      if IsBlockStart(r, a) && a == bs[i + 1].start {
        var j :| 0 <= j < |r| && r[j].start == a;
        StartsDistinct(bs, lo, hi, if j <= i then j else j + 1, i + 1);
      }
    }
  }

  /** Merging two blocks loses the rover exactly when it pointed to the second one and the test came too late. */
  lemma RoverCoalesced(order: RoverOrder, bs: seq<Block>, lo: int, hi: int, i: nat, rover: int)
    requires Tiles(bs, lo, hi) && i < |bs| && rover != hi
    ensures IsBlockStart(Coalesce(bs, i), RoverAfterCoalesce(NextFit, order, bs, i, rover)) <==>
            IsBlockStart(bs, rover) && !(order == AsWritten && Merges(bs, i) && rover == bs[i + 1].start)
    ensures RoverAfterCoalesce(NextFit, order, bs, i, rover) != hi
  {
    var rover' := RoverAfterCoalesce(NextFit, order, bs, i, rover);
    StartsAfterCoalesce(bs, lo, hi, i, rover');
    BlockBounds(bs, lo, hi, i);
    if Merges(bs, i) {
      TilesNext(bs, lo, hi, i);
      BlockBounds(bs, lo, hi, i + 1);
      if i + 2 < |bs| {
        TilesNext(bs, lo, hi, i + 1);
      } else {
        TilesAround(bs, lo, hi, i + 1);
      }
    }
  }

  /** With the intended test the rover stays on a block; as written, free loses it exactly in the three cases. */
  lemma RoverFreed(order: RoverOrder, bs: seq<Block>, lo: int, hi: int, i: nat, rover: int)
    requires Tiles(bs, lo, hi) && i < |bs| && bs[i].used && IsBlockStart(bs, rover)
    ensures IsBlockStart(Free(bs, i), RoverAfterFree(NextFit, order, bs, i, rover)) <==>
            !(order == AsWritten && RoverLost(bs, i, rover))
  {
    var released := Release(bs, i);
    assert Tiles(released, lo, hi) by {
      BlockBounds(bs, lo, hi, i);
      SpliceTiles(bs, lo, hi, i, i + 1, [released[i]]);
      assert released == Splice(bs, i, i + 1, [released[i]]);
    }
    var k :| 0 <= k < |bs| && bs[k].start == rover;
    assert released[k].start == rover;
    BlockBounds(bs, lo, hi, k);
    RoverCoalesced(order, released, lo, hi, i, rover);
    if i > 0 {
      var merged := Coalesce(released, i);
      assert merged[i - 1] == bs[i - 1] && merged[i].start == bs[i].start && !merged[i].used;
      MergedTiles(released, lo, hi, i);
      RoverCoalesced(order, merged, lo, hi, i - 1, RoverAfterCoalesce(NextFit, order, released, i, rover));
    }
  }
}
