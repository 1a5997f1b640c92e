/** What malloc and free do to the heap as a whole, and where next fit's rover can be. */
module HeapSteps {
  import opened HeapBlocks
  import opened HeapWords

  // ---- states ----

  datatype HeapState = HeapState(blocks: seq<Block>, next: int, words: seq<Word>)

  ghost predicate ValidState(g: Layout, s: HeapState)
  {
    Represents(g, s.words, s.blocks) && NoAdjacentFree(s.blocks)
  }

  ghost predicate RoverOk(alg: SearchAlg, s: HeapState)
  {
    alg == NextFit ==> IsBlockStart(s.blocks, s.next)
  }

  // ---- malloc ----

  predicate Preparable(g: Layout, words: seq<Word>, a: int, need: nat)
  {
    Placed(g, |words|) && HeaderLike(g, words, a) && 8 <= need <= SizeAt(g, words, a) && need % 8 == 0
  }

  /** malloc: the policy picks block i, which is carved up on the words, or nothing fits and nothing changes. */
  ghost predicate MallocStep(g: Layout, alg: SearchAlg, s: HeapState, userSize: nat, p: int, s': HeapState)
  {
    var need := SizeToAllocate(userSize);
    exists i: nat ::
      && i <= |s.blocks| && Chosen(alg, s.blocks, s.next, need, i)
      && if i == |s.blocks| then p == NULL && s' == s
         else
           && p == s.blocks[i].Payload()
           && s'.blocks == Allocate(s.blocks, i, need)
           && s'.next == (if alg == NextFit then s.blocks[i].start else s.next)
           && Preparable(g, s.words, s.blocks[i].start, need)
           && s'.words == Prepared(g, s.words, s.blocks[i].start, need)
  }

  /** The block that a malloc takes, and what the words represent then. */
  lemma MallocTaken(g: Layout, alg: SearchAlg, s: HeapState, userSize: nat, p: int, s': HeapState) returns (i: nat)
    requires ValidState(g, s) && 8 <= SizeToAllocate(userSize) && MallocStep(g, alg, s, userSize, p, s')
    ensures i <= |s.blocks| && Chosen(alg, s.blocks, s.next, SizeToAllocate(userSize), i)
    ensures i == |s.blocks| ==> p == NULL && s' == s
    ensures i < |s.blocks| ==>
              && p == s.blocks[i].Payload() && s'.blocks == Allocate(s.blocks, i, SizeToAllocate(userSize))
              && s'.next == (if alg == NextFit then s.blocks[i].start else s.next)
              && Preserves(g, UsedBlocks(s.blocks), s.words, s'.words)
    ensures ValidState(g, s')
  {
    hide Chosen, Prepared, HeaderLike, Tiles, NoAdjacentFree, Tagged, Preserves, Allocate;
    AllocatedSizes(userSize);
    var need := SizeToAllocate(userSize);
    i :| i <= |s.blocks| && Chosen(alg, s.blocks, s.next, need, i)
      && if i == |s.blocks| then p == NULL && s' == s
         else
           && p == s.blocks[i].Payload()
           && s'.blocks == Allocate(s.blocks, i, need)
           && s'.next == (if alg == NextFit then s.blocks[i].start else s.next)
           && Preparable(g, s.words, s.blocks[i].start, need)
           && s'.words == Prepared(g, s.words, s.blocks[i].start, need);
    if i < |s.blocks| {
      ChosenFits(alg, s.blocks, s.next, need, i);
      PreparedRepresents(g, s.blocks, i, need, s.words);
      AllocatedValid(g, s.blocks, i, need);
    }
  }

  lemma ChosenFits(alg: SearchAlg, bs: seq<Block>, rover: int, need: nat, i: nat)
    requires Chosen(alg, bs, rover, need, i)
    ensures i <= |bs| && (i < |bs| ==> Fits(bs[i], need))
  {
  }

  lemma MallocTakes(g: Layout, alg: SearchAlg, s: HeapState, userSize: nat, i: nat, s': HeapState)
    requires i < |s.blocks| && Chosen(alg, s.blocks, s.next, SizeToAllocate(userSize), i)
    requires s'.blocks == Allocate(s.blocks, i, SizeToAllocate(userSize))
    requires s'.next == (if alg == NextFit then s.blocks[i].start else s.next)
    requires Preparable(g, s.words, s.blocks[i].start, SizeToAllocate(userSize))
    requires s'.words == Prepared(g, s.words, s.blocks[i].start, SizeToAllocate(userSize))
    ensures MallocStep(g, alg, s, userSize, s.blocks[i].Payload(), s')
  {
  }

  lemma MallocFails(g: Layout, alg: SearchAlg, s: HeapState, userSize: nat)
    requires NoneFits(s.blocks, SizeToAllocate(userSize), 0, |s.blocks|)
    ensures MallocStep(g, alg, s, userSize, NULL, s)
  {
    assert Chosen(alg, s.blocks, s.next, SizeToAllocate(userSize), |s.blocks|);
  }

  /** A request that wraps around to 0 fits every free block and splits it, and the footer of the part taken then
      goes outside the heap, 2^32 - 4 bytes behind the block. No other request does that. */
  lemma FooterOutside(g: Layout, bs: seq<Block>, i: nat, words: seq<Word>, userSize: nat)
    requires Represents(g, words, bs) && i < |bs| && !bs[i].used
    requires userSize < U32_LIMIT && SizeToAllocate(userSize) <= bs[i].size
    ensures !Within(g, FooterAt(bs[i].start, SizeToAllocate(userSize))) <==>
            U32_LIMIT - 16 < userSize <= U32_LIMIT - 8
    ensures U32_LIMIT - 16 < userSize <= U32_LIMIT - 8 ==>
              && SizeToAllocate(userSize) == 0 && Splits(bs[i].size, SizeToAllocate(userSize))
              && FooterAt(bs[i].start, SizeToAllocate(userSize)) == bs[i].start + U32_LIMIT - 4 >= g.End()
  {
    BlockBounds(bs, g.start, g.End(), i);
    SizeToAllocateWraps(userSize);
  }

  // ---- free ----

  function FreeBlock(b: Block): Block
  {
    b.(used := false)
  }

  function Joined(b: Block, c: Block): Block
  {
    Block(b.start, b.size + c.size, false)
  }

  /** The words after set_block_header for b, which lies inside the heap whenever the words represent a list. */
  function Marked(g: Layout, words: seq<Word>, b: Block): (words': seq<Word>)
    requires Placed(g, |words|)
    ensures |words'| == |words|
  {
    if Inside(g, b) then PutTags(g, words, b) else words
  }

  /** The words after coalesce at block i. */
  function CoalescedWords(g: Layout, words: seq<Word>, bs: seq<Block>, i: nat): (words': seq<Word>)
    requires Placed(g, |words|) && i < |bs|
    ensures |words'| == |words|
  {
    if Merges(bs, i) then Marked(g, words, Joined(bs[i], bs[i + 1])) else words
  }

  /** The words after free of block i. */
  function FreedWords(g: Layout, words: seq<Word>, bs: seq<Block>, i: nat): (words': seq<Word>)
    requires Placed(g, |words|) && i < |bs|
    ensures |words'| == |words|
  {
    var released := Release(bs, i);
    var words' := CoalescedWords(g, Marked(g, words, FreeBlock(bs[i])), released, i);
    if i == 0 then words' else CoalescedWords(g, words', Coalesce(released, i), i - 1)
  }

  lemma ReleasedRepresents(g: Layout, bs: seq<Block>, i: nat, words: seq<Word>)
    requires Represents(g, words, bs) && i < |bs| && bs[i].used
    ensures Inside(g, FreeBlock(bs[i]))
    ensures Represents(g, Marked(g, words, FreeBlock(bs[i])), Release(bs, i))
    ensures Preserves(g, UsedBlocks(bs) - {bs[i]}, words, Marked(g, words, FreeBlock(bs[i])))
  {
    hide Tiles, Preserves, OnlyTagsChanged, PutTags, UsedBlocks;
    ListedHeader(g, bs, i, words);
    TagsWritten(g, FreeBlock(bs[i]), words);
    ReleaseRepresents(g, bs, i, words, PutTags(g, words, FreeBlock(bs[i])));
  }

  lemma CoalescedRepresents(g: Layout, bs: seq<Block>, i: nat, words: seq<Word>)
    requires Represents(g, words, bs) && i < |bs|
    ensures Merges(bs, i) ==> Inside(g, Joined(bs[i], bs[i + 1])) && bs[i].End() == bs[i + 1].start
    ensures Represents(g, CoalescedWords(g, words, bs, i), Coalesce(bs, i))
    ensures Preserves(g, UsedBlocks(bs), words, CoalescedWords(g, words, bs, i))
  {
    if Merges(bs, i) {
      TilesNext(bs, g.start, g.End(), i);
      hide Tiles, OnlyTagsChanged, PutTags, UsedBlocks, Preserves;
      ListedHeader(g, bs, i, words);
      ListedHeader(g, bs, i + 1, words);
      MergedInside(g, bs[i], bs[i + 1]);
      TagsWritten(g, Joined(bs[i], bs[i + 1]), words);
      MergeRepresents(g, bs, i, words, PutTags(g, words, Joined(bs[i], bs[i + 1])));
    } else {
      NothingChanged(g, UsedBlocks(bs), words);
    }
  }

  lemma NothingChanged(g: Layout, keep: set<Block>, words: seq<Word>)
    ensures Preserves(g, keep, words, words)
  {
  }

  /** What free does to words that represent a list. */
  lemma FreedRepresents(g: Layout, bs: seq<Block>, i: nat, words: seq<Word>)
    requires Represents(g, words, bs) && NoAdjacentFree(bs) && i < |bs| && bs[i].used
    ensures Represents(g, FreedWords(g, words, bs, i), Free(bs, i)) && NoAdjacentFree(Free(bs, i))
    ensures Preserves(g, UsedBlocks(bs) - {bs[i]}, words, FreedWords(g, words, bs, i))
  {
    hide Tiles, Tagged, Preserves, UsedBlocks, NoAdjacentFree, Represents, Marked, CoalescedWords, Coalesce, Release;
    RepresentsTiles(g, bs, words);
    FreeFacts(bs, g.start, g.End(), i);
    var keep, released := UsedBlocks(bs) - {bs[i]}, Release(bs, i);
    var w1 := Marked(g, words, FreeBlock(bs[i]));
    ReleasedRepresents(g, bs, i, words);
    ReleasedSize(bs, i);
    var w2 := CoalescedWords(g, w1, released, i);
    CoalescedRepresents(g, released, i, w1);
    PreservesTransitive(g, keep, words, w1, w2);
    if i > 0 {
      CoalescedRepresents(g, Coalesce(released, i), i - 1, w2);
      PreservesTransitive(g, keep, words, w2, FreedWords(g, words, bs, i));
    }
  }

  lemma ReleasedSize(bs: seq<Block>, i: nat)
    requires i < |bs|
    ensures |Release(bs, i)| == |bs| && |Coalesce(Release(bs, i), i)| > i
  {
  }

  lemma RepresentsTiles(g: Layout, bs: seq<Block>, words: seq<Word>)
    requires Represents(g, words, bs)
    ensures Placed(g, |words|) && Tiles(bs, g.start, g.End())
  {
  }

  /** free: the block of payload p is released and merged with its free neighbours, on the words. */
  ghost predicate FreeStep(g: Layout, alg: SearchAlg, order: RoverOrder, s: HeapState, p: int, s': HeapState)
  {
    && Placed(g, |s.words|)
    && exists i: nat ::
         && i < |s.blocks| && s.blocks[i].used && s.blocks[i].Payload() == p
         && s' == HeapState(Free(s.blocks, i), RoverAfterFree(alg, order, s.blocks, i, s.next),
                            FreedWords(g, s.words, s.blocks, i))
  }

  /** The block that a free releases, and what the words represent then. */
  lemma FreeReleases(g: Layout, alg: SearchAlg, order: RoverOrder, s: HeapState, p: int, s': HeapState) returns (i: nat)
    requires ValidState(g, s) && FreeStep(g, alg, order, s, p, s')
    ensures i < |s.blocks| && s.blocks[i].used && s.blocks[i].Payload() == p
    ensures s' == HeapState(Free(s.blocks, i), RoverAfterFree(alg, order, s.blocks, i, s.next),
                            FreedWords(g, s.words, s.blocks, i))
    ensures ValidState(g, s') && Preserves(g, UsedBlocks(s.blocks) - {s.blocks[i]}, s.words, s'.words)
  {
    hide Tiles, Tagged, NoAdjacentFree, Preserves, UsedBlocks, FreedWords, RoverAfterFree, Free;
    i :| i < |s.blocks| && s.blocks[i].used && s.blocks[i].Payload() == p
      && s' == HeapState(Free(s.blocks, i), RoverAfterFree(alg, order, s.blocks, i, s.next),
                         FreedWords(g, s.words, s.blocks, i));
    FreedRepresents(g, s.blocks, i, s.words);
  }

  lemma FreeTakes(g: Layout, alg: SearchAlg, order: RoverOrder, s: HeapState, i: nat, s': HeapState)
    requires Placed(g, |s.words|) && i < |s.blocks| && s.blocks[i].used
    requires s' == HeapState(Free(s.blocks, i), RoverAfterFree(alg, order, s.blocks, i, s.next),
                             FreedWords(g, s.words, s.blocks, i))
    ensures FreeStep(g, alg, order, s, s.blocks[i].Payload(), s')
  {
    hide FreedWords, Free, RoverAfterFree;
  }

  // ---- searches ----

  lemma NextFitIs(g: Layout, words: seq<Word>, next: int, path: seq<int>, path2: seq<int>, userSize: nat,
                  p: int, words': seq<Word>, next': int)
    requires Walk(g, words, next, path) && Walk(g, words, g.start, path2)
    requires TakesFirst(g, words, next, path + path2, userSize, p, words', next')
    ensures NextFitOn(g, words, next, userSize, p, words', next')
  {
    hide Walk, TakesFirst;
  }

  lemma WalkFromStart(g: Layout, words: seq<Word>, bs: seq<Block>)
    requires Represents(g, words, bs)
    ensures Walk(g, words, g.start, Starts(bs))
  {
    WalkOfList(g, words, bs, 0);
    assert bs[0..] == bs;
  }

  lemma AllocatedValid(g: Layout, bs: seq<Block>, i: nat, need: nat)
    requires Tiles(bs, g.start, g.End()) && NoAdjacentFree(bs) && g.size < U32_LIMIT / 2
    requires i < |bs| && Fits(bs[i], need) && 8 <= need && need % 8 == 0
    ensures NoAdjacentFree(Allocate(bs, i, need))
  {
    BlockBounds(bs, g.start, g.End(), i);
    AllocateKeeps(bs, g.start, g.End(), i, need);
  }
}
