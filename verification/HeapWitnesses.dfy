/** Runs of a small heap that show how the code fails: one that loses the rover, with the two mallocs after it
    that hand out overlapping payloads, and one that leaves no free block. All words are given. */
module HeapWitnesses {
  import opened HeapBlocks
  import opened HeapWords
  import opened HeapSteps
  import opened HeapStale
  import opened HeapRuns

  /** A heap of 64 bytes at address 4, behind one word that is not its own. */
  const SMALL := Config(Layout(0, 4, 64), NextFit, AsWritten)

  const WORDS0: seq<Word> := [0, 64, 0, 0, 0, 0, 0, 0, 0, 0, 0, 0, 0, 0, 0, 0, 64]
  const WORDS1: seq<Word> := [0, 17, 0, 0, 17, 48, 0, 0, 0, 0, 0, 0, 0, 0, 0, 0, 48]
  const WORDS2: seq<Word> := [0, 17, 0, 0, 17, 17, 0, 0, 17, 32, 0, 0, 0, 0, 0, 0, 32]
  const WORDS3: seq<Word> := [0, 17, 0, 0, 17, 48, 0, 0, 16, 32, 0, 0, 0, 0, 0, 0, 48]
  const WORDS4: seq<Word> := [0, 64, 0, 0, 16, 48, 0, 0, 16, 32, 0, 0, 0, 0, 0, 0, 64]
  const WORDS5: seq<Word> := [0, 64, 0, 0, 16, 17, 0, 0, 17, 32, 0, 0, 0, 0, 0, 0, 32]
  const WORDS6: seq<Word> := [0, 65, 0, 0, 16, 17, 0, 0, 17, 32, 0, 0, 0, 0, 0, 0, 65]

  const BLOCKS0 := [Block(4, 64, false)]
  const BLOCKS1 := [Block(4, 16, true), Block(20, 48, false)]
  const BLOCKS2 := [Block(4, 16, true), Block(20, 16, true), Block(36, 32, false)]

  const WORLD0 := World(HeapState(BLOCKS0, 4, WORDS0), map[], map[])
  const WORLD1 := World(HeapState(BLOCKS1, 4, WORDS1), map[8 := 8], map[])
  const WORLD2 := World(HeapState(BLOCKS2, 20, WORDS2), map[8 := 8, 24 := 8], map[])
  const WORLD3 := World(HeapState(BLOCKS1, 20, WORDS3), map[8 := 8], map[])
  const WORLD4 := World(HeapState(BLOCKS0, 20, WORDS4), map[], map[])

  lemma WordAt(words: seq<Word>, a: int)
    requires |words| == 17 && a % 4 == 0 && 0 <= a < 68
    ensures InWindow(SMALL.g, |words|, a) && At(SMALL.g, words, a) == words[a / 4]
  {
  }

  lemma OneBlock(words: seq<Word>)
    requires |words| == 17 && words[1] == 64 && words[16] == 64
    ensures Represents(SMALL.g, words, BLOCKS0)
  {
    WordAt(words, 4);
    WordAt(words, 64);
    OneBlockTiles(BLOCKS0[0]);
  }

  lemma HeaderAt(words: seq<Word>, a: int, size: int, used: bool)
    requires |words| == 17 && a % 8 == 4 && 4 <= a && 8 <= size && a + size <= 68 && size % 8 == 0
    requires words[a / 4] == size + if used then 1 else 0
    ensures HeaderLike(SMALL.g, words, a) && SizeAt(SMALL.g, words, a) == size
    ensures UsedAt(SMALL.g, words, a) == used
  {
    WordAt(words, a);
    DecodeHeader(SMALL.g, Block(a, size, used));
  }

  lemma TagsAt(words: seq<Word>, b: Block)
    requires |words| == 17 && Inside(SMALL.g, b)
    ensures PutTags(SMALL.g, words, b) == words[b.start / 4 := HeaderOf(b)][(b.PayloadEnd()) / 4 := HeaderOf(b)]
  {
  }

  lemma FirstMalloc()
    ensures Step(SMALL, WORLD0, Malloc(8, 8), WORLD1)
  {
    HeaderAt(WORDS0, 4, 64, false);
    TagsAt(WORDS0, Block(20, 48, false));
    TagsAt(PutTags(SMALL.g, WORDS0, Block(20, 48, false)), Block(4, 16, true));
    assert Prepared(SMALL.g, WORDS0, 4, 16) == WORDS1;
    assert Allocate(BLOCKS0, 0, 16) == BLOCKS1;
    assert ResumesAt(BLOCKS0, 4, 0) && FirstFrom(BLOCKS0, 16, 0, 0);
    assert Chosen(NextFit, BLOCKS0, 4, 16, 0);
    MallocTakes(SMALL.g, NextFit, WORLD0.s, 8, 0, WORLD1.s);
    OnBlockSafe(WORLD0.s, 0);
  }

  lemma OnBlockSafe(s: HeapState, r: nat)
    requires r < |s.blocks| && s.blocks[r].start == s.next
    ensures forall need: nat | need > 0 :: Safe(NextFit, SMALL.g, s, need)
  {
    OnBlockIs(SMALL.g, s, r);
    OnBlockNothingStale(SMALL.g, s, r);
  }

  lemma SecondMalloc()
    ensures Step(SMALL, WORLD1, Malloc(8, 24), WORLD2)
  {
    HeaderAt(WORDS1, 20, 48, false);
    TagsAt(WORDS1, Block(36, 32, false));
    TagsAt(PutTags(SMALL.g, WORDS1, Block(36, 32, false)), Block(20, 16, true));
    assert Prepared(SMALL.g, WORDS1, 20, 16) == WORDS2;
    assert Allocate(BLOCKS1, 1, 16) == BLOCKS2;
    assert ResumesAt(BLOCKS1, 4, 0) && FirstFrom(BLOCKS1, 16, 0, 1);
    assert Chosen(NextFit, BLOCKS1, 4, 16, 1);
    MallocTakes(SMALL.g, NextFit, WORLD1.s, 8, 1, WORLD2.s);
    OnBlockSafe(WORLD1.s, 0);
  }

  lemma FirstFree()
    ensures Step(SMALL, WORLD2, HeapRuns.Free(24), WORLD3)
  {
    var released := [Block(4, 16, true), Block(20, 16, false), Block(36, 32, false)];
    assert Release(BLOCKS2, 1) == released;
    assert Coalesce(released, 1) == BLOCKS1;
    assert HeapBlocks.Free(BLOCKS2, 1) == BLOCKS1;
    assert RoverAfterFree(NextFit, AsWritten, BLOCKS2, 1, 20) == 20;
    TagsAt(WORDS2, Block(20, 16, false));
    TagsAt(Marked(SMALL.g, WORDS2, Block(20, 16, false)), Block(20, 48, false));
    assert FreedWords(SMALL.g, WORDS2, BLOCKS2, 1) == WORDS3;
    FreeTakes(SMALL.g, NextFit, AsWritten, WORLD2.s, 1, WORLD3.s);
    assert WORLD2.live - {24} == WORLD3.live;
  }

  lemma SecondFree()
    ensures Step(SMALL, WORLD3, HeapRuns.Free(8), WORLD4)
  {
    var released := [Block(4, 16, false), Block(20, 48, false)];
    assert Release(BLOCKS1, 0) == released;
    assert Coalesce(released, 0) == BLOCKS0;
    assert HeapBlocks.Free(BLOCKS1, 0) == BLOCKS0;
    assert RoverAfterFree(NextFit, AsWritten, BLOCKS1, 0, 20) == 20;
    TagsAt(WORDS3, Block(4, 16, false));
    TagsAt(Marked(SMALL.g, WORDS3, Block(4, 16, false)), Block(4, 64, false));
    assert FreedWords(SMALL.g, WORDS3, BLOCKS1, 0) == WORDS4;
    FreeTakes(SMALL.g, NextFit, AsWritten, WORLD3.s, 0, WORLD4.s);
    assert WORLD3.live - {8} == WORLD4.live;
  }

  const LOSING_RUN := [WORLD0, WORLD1, WORLD2, WORLD3, WORLD4]
  const LOSING_EVENTS := [Malloc(8, 8), Malloc(8, 24), HeapRuns.Free(24), HeapRuns.Free(8)]

  lemma FourSteps(c: Config, w0: World, w1: World, w2: World, w3: World, w4: World,
                  e0: Event, e1: Event, e2: Event, e3: Event)
    requires Init(c, w0) && Step(c, w0, e0, w1) && Step(c, w1, e1, w2) && Step(c, w2, e2, w3) && Step(c, w3, e3, w4)
    ensures IsRun(c, [w0, w1, w2, w3, w4], [e0, e1, e2, e3])
  {
    hide Init, Step;
    var ws, es := [w0, w1, w2, w3, w4], [e0, e1, e2, e3];
    forall k, l | 0 <= k < 4 && l == k + 1 ensures Step(c, ws[k], es[k], ws[l]) {
      assert k == 0 || k == 1 || k == 2 || k == 3;
    }
  }

  lemma SmallStarts()
    ensures Init(SMALL, WORLD0)
  {
    OneBlock(WORDS0);
    hide Represents;
  }

  lemma SmallEnds()
    ensures WORLD4.s.blocks == BLOCKS0 && WORLD4.s.next == 20 && !RoverOk(NextFit, WORLD4.s)
    ensures LOSING_RUN == [WORLD0, WORLD1, WORLD2, WORLD3, WORLD4] && LOSING_RUN[4] == WORLD4
    ensures LOSING_EVENTS == [Malloc(8, 8), Malloc(8, 24), HeapRuns.Free(24), HeapRuns.Free(8)]
  {
    assert BLOCKS0[0].start == 4;
  }

  /** Two mallocs and two frees after which the rover is in the middle of the only block. */
  lemma RoverLostWitness()
    ensures IsRun(SMALL, LOSING_RUN, LOSING_EVENTS)
    ensures |LOSING_RUN| == 5 && LOSING_RUN[4].s.blocks == BLOCKS0 && LOSING_RUN[4].s.next == 20
    ensures !RoverOk(NextFit, LOSING_RUN[4].s)
  {
    hide *;
    SmallStarts();
    FirstMalloc();
    SecondMalloc();
    FirstFree();
    SecondFree();
    SmallEnds();
    FourSteps(SMALL, WORLD0, WORLD1, WORLD2, WORLD3, WORLD4,
              Malloc(8, 8), Malloc(8, 24), HeapRuns.Free(24), HeapRuns.Free(8));
  }

  // ---- after that ----

  /** The next malloc trusts the stale header at 20. */
  lemma StaleHeaderTaken()
    ensures NextFitOn(SMALL.g, WORDS4, 20, 8, 24, WORDS5, 20)
  {
    HeaderAt(WORDS4, 20, 48, false);
    HeaderAt(WORDS4, 4, 64, false);
    assert [20][1..] == [] && [4][1..] == [];
    assert Walk(SMALL.g, WORDS4, 20, [20]) && Walk(SMALL.g, WORDS4, 4, [4]);
    FirstFittingIs(SMALL.g, WORDS4, [20] + [4], 16, 0);
    TagsAt(WORDS4, Block(36, 32, false));
    var w := PutTags(SMALL.g, WORDS4, Block(36, 32, false));
    assert w == [0, 64, 0, 0, 16, 48, 0, 0, 16, 32, 0, 0, 0, 0, 0, 0, 32];
    TagsAt(w, Block(20, 16, true));
    assert Prepared(SMALL.g, WORDS4, 20, 16) == WORDS5;
    NextFitIs(SMALL.g, WORDS4, 20, [20], [4], 8, 24, WORDS5, 20);
  }

  lemma SecondWalk()
    ensures Walk(SMALL.g, WORDS5, 20, [20, 36]) && Walk(SMALL.g, WORDS5, 4, [4])
    ensures FirstFitting(SMALL.g, WORDS5, [20, 36] + [4], 56) == 2
  {
    HeaderAt(WORDS5, 20, 16, true);
    HeaderAt(WORDS5, 36, 32, false);
    HeaderAt(WORDS5, 4, 64, false);
    hide HeaderLike, SizeAt, UsedAt;
    assert [20, 36][1..] == [36] && [36][1..] == [] && [4][1..] == [];
    assert Walk(SMALL.g, WORDS5, 36, [36]);
    assert [20, 36] + [4] == [20, 36, 4];
    FirstFittingIs(SMALL.g, WORDS5, [20, 36, 4], 56, 2);
  }

  /** The one after it finds the whole heap free. */
  lemma WholeHeapTaken()
    ensures NextFitOn(SMALL.g, WORDS5, 20, 48, 8, WORDS6, 4)
  {
    hide Walk, FirstFitting;
    SecondWalk();
    HeaderAt(WORDS5, 4, 64, false);
    TagsAt(WORDS5, Block(4, 64, true));
    assert Prepared(SMALL.g, WORDS5, 4, 56) == WORDS6;
    NextFitIs(SMALL.g, WORDS5, 20, [20, 36], [4], 48, 8, WORDS6, 4);
  }

  /** Next fit in the written order is not safe: after a legal run, a malloc of 8 bytes returns 24 and a malloc of
      48 bytes returns 8, and the first payload lies inside the second. */
  lemma OverlapWitness()
    ensures IsRun(SMALL, LOSING_RUN, LOSING_EVENTS)
    ensures |LOSING_RUN| == 5
    ensures NextFitOn(SMALL.g, LOSING_RUN[4].s.words, LOSING_RUN[4].s.next, 8, 24, WORDS5, 20)
    ensures NextFitOn(SMALL.g, WORDS5, 20, 48, 8, WORDS6, 4)
    ensures 8 < 24 && 24 + 8 < 8 + 48
  {
    hide Init, Step, Represents, NextFitOn;
    RoverLostWitness();
    StaleHeaderTaken();
    WholeHeapTaken();
  }

  // ---- a full heap ----

  const FULL_WORDS: seq<Word> := [0, 65, 0, 0, 0, 0, 0, 0, 0, 0, 0, 0, 0, 0, 0, 0, 65]
  const FULL_BLOCKS := [Block(4, 64, true)]
  const FULL_WORLD := World(HeapState(FULL_BLOCKS, 4, FULL_WORDS), map[8 := 56], map[])

  /** One malloc of 56 bytes takes the whole heap; then heap_find_avg_free_block_size divides by zero. */
  lemma FullHeapWitness()
    ensures IsRun(SMALL, [WORLD0, FULL_WORLD], [Malloc(56, 8)])
    ensures FreeCount(FULL_WORLD.s.blocks) == 0
  {
    SmallStarts();
    HeaderAt(WORDS0, 4, 64, false);
    TagsAt(WORDS0, Block(4, 64, true));
    assert Prepared(SMALL.g, WORDS0, 4, 64) == FULL_WORDS;
    assert Allocate(BLOCKS0, 0, 64) == FULL_BLOCKS;
    assert ResumesAt(BLOCKS0, 4, 0) && FirstFrom(BLOCKS0, 64, 0, 0);
    assert Chosen(NextFit, BLOCKS0, 4, 64, 0);
    MallocTakes(SMALL.g, NextFit, WORLD0.s, 56, 0, FULL_WORLD.s);
    OnBlockSafe(WORLD0.s, 0);
    assert Step(SMALL, WORLD0, Malloc(56, 8), FULL_WORLD);
  }
}
