/** The words of memory that lab5/implicit.c works on. Every block carries its size and its in-use bit
    in a header and in an identical footer; nothing else describes the heap. */
module HeapWords {
  import opened Bits
  import opened HeapBlocks

  type Word = w: int | 0 <= w < U32_LIMIT

  const NULL := 0
  const SIZEOF_HEAP := 32

  /** Byte addresses: of the first word of memory, of the first block, and the size of the heap. */
  datatype Layout = Layout(origin: int, start: int, size: int)
  {
    function End(): int { start + size }
  }

  predicate Within(g: Layout, a: int)
  {
    g.start <= a < g.End()
  }

  /** The word before the heap belongs to memory too: free reads it. Payloads are 8-aligned. */
  predicate Placed(g: Layout, length: nat)
  {
    && g.origin >= 0 && g.origin % 4 == 0
    && g.start % PAYLOAD_ALIGN == PAYLOAD_ALIGN - HEADER_SIZE
    && 8 <= g.size < U32_LIMIT / 2 && g.size % 8 == 0
    && g.origin <= g.start - HEADER_SIZE && g.End() <= g.origin + 4 * length
  }

  /** The bytes from a to the next place for a header whose payload is aligned. */
  function AlignmentGap(a: int): (gap: int)
    ensures 0 <= gap < PAYLOAD_ALIGN && (a + gap + HEADER_SIZE) % PAYLOAD_ALIGN == 0
  {
    (PAYLOAD_ALIGN - HEADER_SIZE - a % PAYLOAD_ALIGN) % PAYLOAD_ALIGN
  }

  predicate InWindow(g: Layout, length: nat, a: int)
  {
    a % 4 == 0 && g.origin % 4 == 0 && g.origin <= a < g.origin + 4 * length
  }

  function Index(g: Layout, length: nat, a: int): (i: nat)
    requires InWindow(g, length, a)
    ensures i < length && g.origin + 4 * i == a
  {
    (a - g.origin) / 4
  }

  function At(g: Layout, words: seq<Word>, a: int): Word
    requires InWindow(g, |words|, a)
  {
    words[Index(g, |words|, a)]
  }

  // ---- headers ----

  function HeaderOf(b: Block): int
  {
    b.size + if b.used then 1 else 0
  }

  /** Where the footer of a block of this size goes; sizes are 32-bit numbers, addresses are not. */
  function FooterAt(a: int, size: int): int
  {
    a + HEADER_SIZE + (size - 2 * HEADER_SIZE) % U32_LIMIT
  }

  /** What the masks of the header macros compute. */
  lemma HeaderBits(w: Word)
    ensures And(w, U32_LIMIT - HEADER_SIZE) == w - w % 4
    ensures And(w, 1) == w % 2
  {
    Pow2Of32();
    AndNotOnes(w, 2, 32);
    assert Low(w / 2, 1) == w / 2 % 2 + 2 * Low(w / 2 / 2, 0);
  }

  predicate Inside(g: Layout, b: Block)
  {
    g.start <= b.start && b.End() <= g.End() && LegalBlock(b) && b.start % 8 == g.start % 8
  }

  lemma MergedInside(g: Layout, b: Block, c: Block)
    requires Inside(g, b) && Inside(g, c) && b.End() == c.start
    ensures Inside(g, Block(b.start, b.size + c.size, false))
  {
  }

  lemma DecodeHeader(g: Layout, b: Block)
    requires Inside(g, b) && g.size < U32_LIMIT / 2
    ensures 0 <= HeaderOf(b) < U32_LIMIT
    ensures And(HeaderOf(b), U32_LIMIT - HEADER_SIZE) == b.size
    ensures And(HeaderOf(b), 1) != 0 <==> b.used
  {
    HeaderBits(HeaderOf(b));
    HeaderParts(b.size, if b.used then 1 else 0);
  }

  lemma HeaderParts(size: int, inUse: nat)
    requires size % 8 == 0 && inUse <= 1
    ensures size + inUse - (size + inUse) % 4 == size && (size + inUse) % 2 == inUse
  {
    var q := size / 8;
    Remainder(size + inUse, 4, 2 * q, inUse);
    Remainder(size + inUse, 2, 4 * q, inUse);
  }

  lemma AlignedTags(start: int, size: int)
    requires start % 8 == 4 && size % 8 == 0
    ensures start % 4 == 0 && (start + size - 4) % 4 == 0
  {
    var p, q := start / 8, size / 8;
    Remainder(start, 4, 2 * p + 1, 0);
    Remainder(start + size - 4, 4, 2 * p + 2 * q, 0);
  }

  /** Headers lie in memory, at multiples of 4. */
  lemma TagsInWindow(g: Layout, length: nat, b: Block)
    requires Placed(g, length) && Inside(g, b)
    ensures InWindow(g, length, b.start) && InWindow(g, length, b.PayloadEnd())
  {
    AlignedTags(b.start, b.size);
  }

  /** Header and footer of b are in memory and agree. */
  predicate Tagged(g: Layout, words: seq<Word>, b: Block)
    requires Placed(g, |words|)
  {
    && Inside(g, b)
    && InWindow(g, |words|, b.start) && InWindow(g, |words|, b.PayloadEnd())
    && At(g, words, b.start) == HeaderOf(b)
    && At(g, words, b.PayloadEnd()) == HeaderOf(b)
  }

  /** Memory is tiled by blocks; this is all that the words say about the heap. */
  ghost predicate Represents(g: Layout, words: seq<Word>, bs: seq<Block>)
  {
    && Placed(g, |words|)
    && Tiles(bs, g.start, g.End())
    && forall b | b in bs :: Tagged(g, words, b)
  }

  // ---- what stays unchanged ----

  ghost predicate SameOutside(g: Layout, words: seq<Word>, words': seq<Word>, lo: int, hi: int)
  {
    && |words'| == |words|
    && forall a | InWindow(g, |words|, a) && !(lo <= a < hi) :: At(g, words', a) == At(g, words, a)
  }

  ghost predicate OnlyTagsChanged(g: Layout, b: Block, words: seq<Word>, words': seq<Word>)
  {
    && |words'| == |words|
    && forall a | InWindow(g, |words|, a) && a != b.start && a != b.PayloadEnd() :: At(g, words', a) == At(g, words, a)
  }

  /** The words with the header and the footer of b written. */
  function PutTags(g: Layout, words: seq<Word>, b: Block): (words': seq<Word>)
    requires Placed(g, |words|) && Inside(g, b)
    ensures |words'| == |words|
  {
    TagsInWindow(g, |words|, b);
    words[Index(g, |words|, b.start) := HeaderOf(b)][Index(g, |words|, b.PayloadEnd()) := HeaderOf(b)]
  }

  lemma TagsWritten(g: Layout, b: Block, words: seq<Word>)
    requires Placed(g, |words|) && Inside(g, b)
    ensures Tagged(g, PutTags(g, words, b), b) && OnlyTagsChanged(g, b, words, PutTags(g, words, b))
  {
    TagsInWindow(g, |words|, b);
  }

  /** Every word outside the heap and every word of the kept blocks is as before. */
  ghost predicate Preserves(g: Layout, keep: set<Block>, words: seq<Word>, words': seq<Word>)
  {
    && |words'| == |words|
    && forall a | InWindow(g, |words|, a) && (!Within(g, a) || Covered(keep, a)) :: At(g, words', a) == At(g, words, a)
  }

  ghost predicate Covered(keep: set<Block>, a: int)
  {
    exists b :: b in keep && b.start <= a < b.End()
  }

  lemma SameOutsidePreserves(g: Layout, bs: seq<Block>, i: nat, j: nat, words: seq<Word>, words': seq<Word>)
    requires Tiles(bs, g.start, g.End()) && i < j <= |bs|
    requires SameOutside(g, words, words', bs[i].start, bs[j - 1].End())
    ensures Preserves(g, UsedBlocks(bs[..i]) + UsedBlocks(bs[j..]), words, words')
  {
    hide Tiles;
    TilesAround(bs, g.start, g.End(), i);
    TilesAround(bs, g.start, g.End(), j - 1);
    forall a | InWindow(g, |words|, a) && (!Within(g, a) || Covered(UsedBlocks(bs[..i]) + UsedBlocks(bs[j..]), a))
      ensures !(bs[i].start <= a < bs[j - 1].End())
    {
      if Within(g, a) {
        var b :| b in UsedBlocks(bs[..i]) + UsedBlocks(bs[j..]) && b.start <= a < b.End();
      }
    }
  }

  lemma TagKept(g: Layout, b: Block, lo: int, hi: int, words: seq<Word>, words': seq<Word>)
    requires Placed(g, |words|) && Tagged(g, words, b) && SameOutside(g, words, words', lo, hi)
    requires b.End() <= lo || hi <= b.start
    ensures Tagged(g, words', b)
  {
    TagsInWindow(g, |words|, b);
    assert At(g, words', b.start) == At(g, words, b.start);
    assert At(g, words', b.PayloadEnd()) == At(g, words, b.PayloadEnd());
  }

  lemma PreservesTransitive(g: Layout, keep: set<Block>, w0: seq<Word>, w1: seq<Word>, w2: seq<Word>)
    requires Preserves(g, keep, w0, w1) && Preserves(g, keep, w1, w2)
    ensures Preserves(g, keep, w0, w2)
  {
  }

  /** Replacing a stretch of blocks: the other blocks keep their tags. */
  lemma RepresentsSplice(g: Layout, bs: seq<Block>, i: nat, j: nat, mid: seq<Block>,
                         words: seq<Word>, words': seq<Word>)
    requires Represents(g, words, bs) && i < j <= |bs|
    requires SameOutside(g, words, words', bs[i].start, bs[j - 1].End())
    requires Tiles(mid, bs[i].start, bs[j - 1].End()) && forall b | b in mid :: Tagged(g, words', b)
    ensures Represents(g, words', Splice(bs, i, j, mid))
  {
    hide Tiles, Tagged;
    SpliceTiles(bs, g.start, g.End(), i, j, mid);
    forall b | b in bs[..i] ensures Tagged(g, words', b) {
      TilesAround(bs, g.start, g.End(), i);
      TagKept(g, b, bs[i].start, bs[j - 1].End(), words, words');
    }
    forall b | b in bs[j..] ensures Tagged(g, words', b) {
      TilesAround(bs, g.start, g.End(), j - 1);
      TagKept(g, b, bs[i].start, bs[j - 1].End(), words, words');
    }
  }

  lemma OneBlockTiles(b: Block)
    requires LegalBlock(b)
    ensures Tiles([b], b.start, b.End())
  {
  }

  /** Writing the merged header over two free neighbours represents the coalesced list. */
  lemma MergeRepresents(g: Layout, bs: seq<Block>, i: nat, words: seq<Word>, words': seq<Word>)
    requires Represents(g, words, bs) && i < |bs| && Merges(bs, i)
    requires OnlyTagsChanged(g, Block(bs[i].start, bs[i].size + bs[i + 1].size, false), words, words')
    requires Tagged(g, words', Block(bs[i].start, bs[i].size + bs[i + 1].size, false))
    ensures Represents(g, words', Coalesce(bs, i))
    ensures Preserves(g, UsedBlocks(bs), words, words')
  {
    TilesNext(bs, g.start, g.End(), i);
    assert SameOutside(g, words, words', bs[i].start, bs[i + 1].End());
    MergeInPlace(g, bs, i, words, words');
    MergePreserves(g, bs, i, words, words');
  }

  lemma MergeInPlace(g: Layout, bs: seq<Block>, i: nat, words: seq<Word>, words': seq<Word>)
    requires Represents(g, words, bs) && i < |bs| && Merges(bs, i) && bs[i].End() == bs[i + 1].start
    requires SameOutside(g, words, words', bs[i].start, bs[i + 1].End())
    requires Tagged(g, words', Block(bs[i].start, bs[i].size + bs[i + 1].size, false))
    ensures Represents(g, words', Coalesce(bs, i))
  {
    var merged := Block(bs[i].start, bs[i].size + bs[i + 1].size, false);
    OneBlockTiles(merged);
    RepresentsSplice(g, bs, i, i + 2, [merged], words, words');
  }

  lemma MergePreserves(g: Layout, bs: seq<Block>, i: nat, words: seq<Word>, words': seq<Word>)
    requires Tiles(bs, g.start, g.End()) && i < |bs| && Merges(bs, i)
    requires SameOutside(g, words, words', bs[i].start, bs[i + 1].End())
    ensures Preserves(g, UsedBlocks(bs), words, words')
  {
    hide Tiles, SameOutside, Preserves;
    SameOutsidePreserves(g, bs, i, i + 2, words, words');
    SpliceUsed(bs, i, i + 2, []);
    assert UsedBlocks(bs[i..i + 2]) == {};
    assert UsedBlocks(bs[..i]) + UsedBlocks(bs[i + 2..]) == UsedBlocks(bs);
  }

  lemma ReleaseRepresents(g: Layout, bs: seq<Block>, i: nat, words: seq<Word>, words': seq<Word>)
    requires Represents(g, words, bs) && i < |bs| && bs[i].used
    requires OnlyTagsChanged(g, bs[i].(used := false), words, words')
    requires Tagged(g, words', bs[i].(used := false))
    ensures Represents(g, words', Release(bs, i))
    ensures Preserves(g, UsedBlocks(bs) - {bs[i]}, words, words')
  {
    ReleaseKeeps(bs, g.start, g.End(), i);
    RepresentsSplice(g, bs, i, i + 1, [bs[i].(used := false)], words, words');
    SameOutsidePreserves(g, bs, i, i + 1, words, words');
    UsedOnce(bs, g.start, g.End(), i, i, i + 1);
  }

  /** Tags survive writes to the tags of a block elsewhere. */
  lemma TagKeptByTags(g: Layout, b: Block, c: Block, words: seq<Word>, words': seq<Word>)
    requires Placed(g, |words|) && Tagged(g, words, b) && OnlyTagsChanged(g, c, words, words')
    requires LegalBlock(c) && (b.End() <= c.start || c.End() <= b.start)
    ensures Tagged(g, words', b)
  {
    TagsInWindow(g, |words|, b);
    assert At(g, words', b.start) == At(g, words, b.start);
    assert At(g, words', b.PayloadEnd()) == At(g, words, b.PayloadEnd());
  }

  lemma AllocatePreserves(g: Layout, bs: seq<Block>, i: nat, words: seq<Word>, words': seq<Word>)
    requires Tiles(bs, g.start, g.End()) && i < |bs| && !bs[i].used
    requires SameOutside(g, words, words', bs[i].start, bs[i].End())
    ensures Preserves(g, UsedBlocks(bs), words, words')
  {
    hide Tiles, SameOutside, Preserves;
    SameOutsidePreserves(g, bs, i, i + 1, words, words');
    SpliceUsed(bs, i, i + 1, []);
    assert UsedBlocks(bs[i..i + 1]) == {};
    assert UsedBlocks(bs[..i]) + UsedBlocks(bs[i + 1..]) == UsedBlocks(bs);
  }

  /** Tagging the carved-up block represents the list after malloc. */
  lemma AllocateRepresents(g: Layout, bs: seq<Block>, i: nat, need: nat, words: seq<Word>, words': seq<Word>)
    requires Represents(g, words, bs) && i < |bs| && !bs[i].used && 8 <= need <= bs[i].size && need % 8 == 0
    requires SameOutside(g, words, words', bs[i].start, bs[i].End())
    requires forall b | b in Carve(bs[i], need) :: Tagged(g, words', b)
    ensures Represents(g, words', Allocate(bs, i, need))
    ensures Preserves(g, UsedBlocks(bs), words, words')
  {
    BlockBounds(bs, g.start, g.End(), i);
    CarveTiles(bs[i], need);
    hide Tiles, Carve, Tagged, SameOutside, Preserves, UsedBlocks;
    RepresentsSplice(g, bs, i, i + 1, Carve(bs[i], need), words, words');
    AllocatePreserves(g, bs, i, words, words');
  }

  lemma InsideSplit(g: Layout, b: Block, need: nat)
    requires Inside(g, b) && 8 <= need <= b.size < U32_LIMIT / 2 && need % 8 == 0 && Splits(b.size, need)
    ensures Inside(g, Block(b.start, need, true)) && Inside(g, Block(b.start + need, b.size - need, false))
    ensures b.size - need >= 16
  {
  }

  /** The two headers of a split, written one after the other. */
  lemma SplitRepresents(g: Layout, bs: seq<Block>, i: nat, need: nat, w0: seq<Word>, w1: seq<Word>, w2: seq<Word>)
    requires Represents(g, w0, bs) && i < |bs| && !bs[i].used && 8 <= need <= bs[i].size && need % 8 == 0
    requires Splits(bs[i].size, need)
    requires var taken, rest := Carve(bs[i], need)[0], Carve(bs[i], need)[1];
             && OnlyTagsChanged(g, rest, w0, w1) && Tagged(g, w1, rest)
             && OnlyTagsChanged(g, taken, w1, w2) && Tagged(g, w2, taken)
    ensures Represents(g, w2, Allocate(bs, i, need))
    ensures Preserves(g, UsedBlocks(bs), w0, w2)
  {
    var taken, rest := Carve(bs[i], need)[0], Carve(bs[i], need)[1];
    TagKeptByTags(g, rest, taken, w1, w2);
    AllocateRepresents(g, bs, i, need, w0, w2);
  }

  lemma AllocatedSizes(userSize: nat)
    ensures SizeToAllocate(userSize) % 8 == 0
  {
  }

  // ---- words that need not represent a list ----

  function SizeAt(g: Layout, words: seq<Word>, a: int): int
    requires InWindow(g, |words|, a)
  {
    And(At(g, words, a), U32_LIMIT - HEADER_SIZE)
  }

  predicate UsedAt(g: Layout, words: seq<Word>, a: int)
    requires InWindow(g, |words|, a)
  {
    And(At(g, words, a), 1) != 0
  }

  predicate FitsAt(g: Layout, words: seq<Word>, a: int, need: nat)
    requires InWindow(g, |words|, a)
  {
    !UsedAt(g, words, a) && SizeAt(g, words, a) >= need
  }

  /** The word at a can be taken for the header of a block inside the heap. */
  predicate HeaderLike(g: Layout, words: seq<Word>, a: int)
  {
    InWindow(g, |words|, a) && Inside(g, Block(a, SizeAt(g, words, a), true))
  }

  /** The words after prepare_block_for_use at a. */
  function Prepared(g: Layout, words: seq<Word>, a: int, need: nat): (words': seq<Word>)
    requires Placed(g, |words|) && HeaderLike(g, words, a) && 8 <= need <= SizeAt(g, words, a) && need % 8 == 0
    ensures |words'| == |words|
  {
    var size := SizeAt(g, words, a);
    if Splits(size, need) then
      InsideSplit(g, Block(a, size, true), need);
      PutTags(g, PutTags(g, words, Block(a + need, size - need, false)), Block(a, need, true))
    else PutTags(g, words, Block(a, size, true))
  }

  /** The header of a listed block is read back. */
  lemma ListedHeader(g: Layout, bs: seq<Block>, i: nat, words: seq<Word>)
    requires Represents(g, words, bs) && i < |bs|
    ensures Inside(g, bs[i]) && InWindow(g, |words|, bs[i].start)
    ensures SizeAt(g, words, bs[i].start) == bs[i].size && (UsedAt(g, words, bs[i].start) <==> bs[i].used)
  {
    assert Tagged(g, words, bs[i]);
    hide Tiles;
    DecodeHeader(g, bs[i]);
  }

  lemma SplitPrepared(g: Layout, bs: seq<Block>, i: nat, need: nat, words: seq<Word>)
    requires Represents(g, words, bs) && i < |bs| && !bs[i].used && 8 <= need <= bs[i].size && need % 8 == 0
    requires Inside(g, bs[i]) && Splits(bs[i].size, need)
    ensures var taken, rest := Block(bs[i].start, need, true), Block(bs[i].start + need, bs[i].size - need, false);
            && Inside(g, taken) && Inside(g, rest)
            && Represents(g, PutTags(g, PutTags(g, words, rest), taken), Allocate(bs, i, need))
            && Preserves(g, UsedBlocks(bs), words, PutTags(g, PutTags(g, words, rest), taken))
  {
    InsideSplit(g, bs[i], need);
    var taken, rest := Block(bs[i].start, need, true), Block(bs[i].start + need, bs[i].size - need, false);
    hide Tiles, Tagged, OnlyTagsChanged, Preserves, PutTags, Allocate, Splits, Inside, UsedBlocks;
    var w1 := PutTags(g, words, rest);
    TagsWritten(g, rest, words);
    TagsWritten(g, taken, w1);
    CarvedInTwo(bs[i], need);
    SplitRepresents(g, bs, i, need, words, w1, PutTags(g, w1, taken));
  }

  lemma CarvedInTwo(b: Block, need: nat)
    requires b.size >= 0 && Splits(b.size, need)
    ensures Carve(b, need) == [Block(b.start, need, true), Block(b.start + need, b.size - need, false)]
  {
  }

  lemma WholePrepared(g: Layout, bs: seq<Block>, i: nat, need: nat, words: seq<Word>)
    requires Represents(g, words, bs) && i < |bs| && !bs[i].used && 8 <= need <= bs[i].size && need % 8 == 0
    requires Inside(g, bs[i]) && !Splits(bs[i].size, need)
    ensures var taken := bs[i].(used := true);
            && Inside(g, taken)
            && Represents(g, PutTags(g, words, taken), Allocate(bs, i, need))
            && Preserves(g, UsedBlocks(bs), words, PutTags(g, words, taken))
  {
    var taken := bs[i].(used := true);
    assert Inside(g, taken);
    hide Tiles, Tagged, OnlyTagsChanged, Preserves, PutTags, Allocate, Splits, Inside, UsedBlocks;
    TagsWritten(g, taken, words);
    WholeRepresents(g, bs, i, need, words, PutTags(g, words, taken));
  }

  /** What prepare_block_for_use does to words that represent a list. */
  lemma PreparedRepresents(g: Layout, bs: seq<Block>, i: nat, need: nat, words: seq<Word>)
    requires Represents(g, words, bs) && i < |bs| && !bs[i].used && 8 <= need <= bs[i].size && need % 8 == 0
    ensures HeaderLike(g, words, bs[i].start) && SizeAt(g, words, bs[i].start) == bs[i].size
    ensures Represents(g, Prepared(g, words, bs[i].start, need), Allocate(bs, i, need))
    ensures Preserves(g, UsedBlocks(bs), words, Prepared(g, words, bs[i].start, need))
  {
    hide Tiles, Tagged, Represents, Preserves, PutTags, Allocate, Splits, UsedBlocks, SizeAt, UsedAt;
    ListedHeader(g, bs, i, words);
    PlacedWords(g, bs, words);
    if Splits(bs[i].size, need) {
      SplitPrepared(g, bs, i, need, words);
    } else {
      WholePrepared(g, bs, i, need, words);
      assert bs[i].(used := true) == Block(bs[i].start, bs[i].size, true);
    }
  }

  lemma PlacedWords(g: Layout, bs: seq<Block>, words: seq<Word>)
    requires Represents(g, words, bs)
    ensures Placed(g, |words|)
  {
  }

  lemma WholeRepresents(g: Layout, bs: seq<Block>, i: nat, need: nat, words: seq<Word>, words': seq<Word>)
    requires Represents(g, words, bs) && i < |bs| && !bs[i].used && 8 <= need <= bs[i].size && need % 8 == 0
    requires !Splits(bs[i].size, need)
    requires OnlyTagsChanged(g, bs[i].(used := true), words, words') && Tagged(g, words', bs[i].(used := true))
    ensures Represents(g, words', Allocate(bs, i, need))
    ensures Preserves(g, UsedBlocks(bs), words, words')
  {
    AllocateRepresents(g, bs, i, need, words, words');
  }

  /** The block that follows the k-th, or the end of the heap. */
  function StartOf(g: Layout, bs: seq<Block>, k: nat): int
  {
    if k < |bs| then bs[k].start else g.End()
  }

  /** The headers that a search meets from a on until it leaves the heap. */
  ghost predicate Walk(g: Layout, words: seq<Word>, a: int, path: seq<int>)
    decreases path
  {
    if path == [] then !Within(g, a)
    else path[0] == a && Within(g, a) && HeaderLike(g, words, a) && Walk(g, words, a + SizeAt(g, words, a), path[1..])
  }

  predicate Takes(g: Layout, words: seq<Word>, a: int, need: nat)
  {
    InWindow(g, |words|, a) && FitsAt(g, words, a, need)
  }

  function FirstFitting(g: Layout, words: seq<Word>, path: seq<int>, need: nat): (i: nat)
    ensures i <= |path| && (i < |path| ==> Takes(g, words, path[i], need))
    ensures forall j | 0 <= j < i :: !Takes(g, words, path[j], need)
  {
    if path == [] || Takes(g, words, path[0], need) then 0 else 1 + FirstFitting(g, words, path[1..], need)
  }

  /** malloc_next_fit as the words have it: the first header that fits on the way from the rover, then from the
      start; wherever the rover is, as long as both ways end. */
  ghost predicate NextFitOn(g: Layout, words: seq<Word>, next: int, userSize: nat, p: int, words': seq<Word>,
                            next': int)
  {
    exists path, path2 :: Walk(g, words, next, path) && Walk(g, words, g.start, path2)
      && TakesFirst(g, words, next, path + path2, userSize, p, words', next')
  }

  ghost predicate TakesFirst(g: Layout, words: seq<Word>, next: int, path: seq<int>, userSize: nat,
                             p: int, words': seq<Word>, next': int)
  {
    var need := SizeToAllocate(userSize);
    var i := FirstFitting(g, words, path, need);
    if i == |path| then p == NULL && words' == words && next' == next
    else
      && p == path[i] + HEADER_SIZE && next' == path[i]
      && Placed(g, |words|) && HeaderLike(g, words, path[i]) && 8 <= need && need % 8 == 0
      && words' == Prepared(g, words, path[i], need)
  }

  lemma FirstFittingIs(g: Layout, words: seq<Word>, path: seq<int>, need: nat, i: nat)
    requires i <= |path| && (i < |path| ==> Takes(g, words, path[i], need))
    requires forall j | 0 <= j < i :: !Takes(g, words, path[j], need)
    ensures FirstFitting(g, words, path, need) == i
  {
  }

  lemma WalkOn(g: Layout, words: seq<Word>, a: int, path: seq<int>, k: nat)
    requires k <= |path| && Walk(g, words, a, path[k..]) && Within(g, a)
    ensures k < |path| && path[k] == a && HeaderLike(g, words, a)
            && Walk(g, words, a + SizeAt(g, words, a), path[k + 1..])
  {
    if k < |path| { assert path[k..][1..] == path[k + 1..]; }
  }

  lemma WalkOver(g: Layout, words: seq<Word>, a: int, path: seq<int>, k: nat)
    requires k <= |path| && Walk(g, words, a, path[k..]) && !Within(g, a)
    ensures k == |path|
  {
  }

  ghost predicate NoneTakes(g: Layout, words: seq<Word>, path: seq<int>, need: nat, k: nat)
    requires k <= |path|
  {
    forall j | 0 <= j < k :: !Takes(g, words, path[j], need)
  }

  lemma NoneTaken(g: Layout, words: seq<Word>, path: seq<int>, need: nat)
    ensures NoneTakes(g, words, path, need, 0)
  {
  }

  lemma NoneAtAll(g: Layout, words: seq<Word>, path: seq<int>, need: nat)
    requires NoneTakes(g, words, path, need, |path|)
    ensures forall j | 0 <= j < |path| :: !Takes(g, words, path[j], need)
  {
  }

  lemma TakenHere(g: Layout, words: seq<Word>, path: seq<int>, need: nat, k: nat)
    requires k < |path| && NoneTakes(g, words, path, need, k)
    requires InWindow(g, |words|, path[k]) && !UsedAt(g, words, path[k]) && SizeAt(g, words, path[k]) >= need
    ensures Takes(g, words, path[k], need) && forall j | 0 <= j < k :: !Takes(g, words, path[j], need)
  {
    hide UsedAt, SizeAt;
  }

  lemma NotTakenHere(g: Layout, words: seq<Word>, path: seq<int>, need: nat, k: nat)
    requires k < |path| && NoneTakes(g, words, path, need, k)
    requires InWindow(g, |words|, path[k]) && (UsedAt(g, words, path[k]) || SizeAt(g, words, path[k]) < need)
    ensures NoneTakes(g, words, path, need, k + 1)
  {
    hide UsedAt, SizeAt;
  }

  lemma FoundOnPath(g: Layout, words: seq<Word>, next: int, path: seq<int>, userSize: nat, i: nat)
    requires i < |path| && Takes(g, words, path[i], SizeToAllocate(userSize))
    requires forall j | 0 <= j < i :: !Takes(g, words, path[j], SizeToAllocate(userSize))
    requires Placed(g, |words|) && HeaderLike(g, words, path[i]) && 8 <= SizeToAllocate(userSize)
    ensures SizeToAllocate(userSize) % 8 == 0 && SizeToAllocate(userSize) <= SizeAt(g, words, path[i])
    ensures TakesFirst(g, words, next, path, userSize, path[i] + HEADER_SIZE,
                       Prepared(g, words, path[i], SizeToAllocate(userSize)), path[i])
  {
    AllocatedSizes(userSize);
    hide Prepared, SizeToAllocate, HeaderLike;
    FirstFittingIs(g, words, path, SizeToAllocate(userSize), i);
  }

  lemma NothingOnPath(g: Layout, words: seq<Word>, next: int, path: seq<int>, userSize: nat)
    requires forall j | 0 <= j < |path| :: !Takes(g, words, path[j], SizeToAllocate(userSize))
    ensures TakesFirst(g, words, next, path, userSize, NULL, words, next)
  {
    hide SizeToAllocate, Takes;
    FirstFittingIs(g, words, path, SizeToAllocate(userSize), |path|);
  }

  function Starts(bs: seq<Block>): (path: seq<int>)
    ensures |path| == |bs| && forall k | 0 <= k < |bs| :: path[k] == bs[k].start
  {
    seq(|bs|, k requires 0 <= k < |bs| => bs[k].start)
  }

  /** On words that represent a list, a walk meets its blocks. */
  lemma {:induction false} WalkOfList(g: Layout, words: seq<Word>, bs: seq<Block>, r: nat)
    requires Represents(g, words, bs) && r <= |bs|
    ensures Walk(g, words, StartOf(g, bs, r), Starts(bs[r..]))
    decreases |bs| - r
  {
    if r < |bs| {
      WalkOfList(g, words, bs, r + 1);
      WalkStep(g, words, bs, r);
      assert Starts(bs[r..])[1..] == Starts(bs[r + 1..]);
    }
  }

  lemma WalkStep(g: Layout, words: seq<Word>, bs: seq<Block>, r: nat)
    requires Represents(g, words, bs) && r < |bs|
    ensures Within(g, bs[r].start) && HeaderLike(g, words, bs[r].start)
    ensures bs[r].start + SizeAt(g, words, bs[r].start) == StartOf(g, bs, r + 1)
  {
    ListedHeader(g, bs, r, words);
    BlockBounds(bs, g.start, g.End(), r);
    if r + 1 < |bs| { TilesNext(bs, g.start, g.End(), r); } else { LastEnds(bs, g.start, g.End(), r); }
  }

  /** The block that a path from block r round to block r names. */
  function GoingRound(bs: seq<Block>, r: nat, i: nat): int
  {
    if i < |bs| - r then r + i else i - (|bs| - r)
  }

  /** The first header that fits is the one that next fit chooses. */
  lemma NextFitChooses(g: Layout, words: seq<Word>, bs: seq<Block>, r: nat, need: nat)
    requires Represents(g, words, bs) && r <= |bs|
    ensures var path := Starts(bs[r..]) + Starts(bs);
            var i := FirstFitting(g, words, path, need);
            if i == |path| then NoneFits(bs, need, 0, |bs|)
            else
              var k := GoingRound(bs, r, i);
              0 <= k < |bs| && path[i] == bs[k].start && Fits(bs[k], need) && FirstFrom(bs, need, r, k)
  {
    var path := Starts(bs[r..]) + Starts(bs);
    var i := FirstFitting(g, words, path, need);
    forall j | 0 <= j < |path|
      ensures var k := GoingRound(bs, r, j);
              0 <= k < |bs| && path[j] == bs[k].start && (Takes(g, words, path[j], need) <==> Fits(bs[k], need))
    {
      ListedHeader(g, bs, GoingRound(bs, r, j), words);
    }
    hide Represents, Takes;
    forall k | r <= k < |bs| && k - r < i ensures !Fits(bs[k], need) {
      assert GoingRound(bs, r, k - r) == k;
    }
    forall k | 0 <= k < |bs| && |bs| - r + k < i ensures !Fits(bs[k], need) {
      assert GoingRound(bs, r, |bs| - r + k) == k;
    }
  }
}
