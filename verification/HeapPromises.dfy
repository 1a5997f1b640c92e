/** What malloc and free promise, in addresses and numbers. */
module HeapPromises {
  import opened HeapBlocks
  import opened HeapWords
  import opened HeapSteps

  // ---- which block, and how much of it ----

  predicate Candidate(bs: seq<Block>, d: Block, need: nat)
  {
    d in bs && !d.used && need <= d.size
  }

  /** The free block d that is large enough is no better choice than b for this policy. */
  ghost predicate NoBetter(alg: SearchAlg, rover: int, b: Block, d: Block)
  {
    match alg
    case FirstFit => b.start <= d.start
    case BestFit => b.size < d.size || (b.size == d.size && d.start <= b.start)
    case NextFit => if rover <= b.start then d.start < rover || b.start <= d.start
                    else b.start <= d.start < rover
  }

  /** malloc serves a request from a free block that is large enough: the lowest such block (first fit), the smallest
      and of these the highest (best fit), or the first one at the rover or behind it, else from the start (next fit);
      then the rover is on it. It returns NULL only if there is none, and changes nothing then. */
  lemma MallocPicks(g: Layout, alg: SearchAlg, s: HeapState, userSize: nat, p: int, s': HeapState)
    requires ValidState(g, s) && userSize <= U32_LIMIT - 16 && MallocStep(g, alg, s, userSize, p, s')
    ensures p != 0 ==>
              exists b ::
                && Candidate(s.blocks, b, SizeToAllocate(userSize)) && p == b.start + 4
                && (forall d | Candidate(s.blocks, d, SizeToAllocate(userSize)) :: NoBetter(alg, s.next, b, d))
                && s'.next == if alg == NextFit then b.start else s.next
    ensures p == 0 ==> s' == s && forall d :: !Candidate(s.blocks, d, SizeToAllocate(userSize))
  {
    hide Tiles, NoAdjacentFree, MallocStep, Chosen, NoBetter, SizeToAllocate;
    var bs, need := s.blocks, SizeToAllocate(userSize);
    RequestSize(userSize);
    var i := MallocTaken(g, alg, s, userSize, p, s');
    RepresentsTiles(g, bs, s.words);
    if i < |bs| {
      ChosenFits(alg, bs, s.next, need, i);
      BlockBounds(bs, g.start, g.End(), i);
      assert Candidate(bs, bs[i], need);
      forall d | Candidate(bs, d, need) ensures NoBetter(alg, s.next, bs[i], d) {
        var k: nat :| k < |bs| && bs[k] == d;
        ChosenIsBest(g, alg, bs, s.next, need, i, k);
      }
    } else {
      NothingChosen(alg, bs, s.next, need);
    }
  }

  /** That describes one block. */
  lemma PickUnique(alg: SearchAlg, bs: seq<Block>, lo: int, hi: int, rover: int, b: Block, c: Block)
    requires Tiles(bs, lo, hi) && b in bs && c in bs
    requires NoBetter(alg, rover, b, c) && NoBetter(alg, rover, c, b)
    ensures b == c
  {
    hide Tiles;
    var i :| 0 <= i < |bs| && bs[i] == b;
    var k :| 0 <= k < |bs| && bs[k] == c;
    if b.start == c.start { StartsDistinct(bs, lo, hi, i, k); }
  }

  lemma RequestSize(userSize: nat)
    requires userSize <= U32_LIMIT - 16
    ensures 8 <= SizeToAllocate(userSize)
  {
    SizeToAllocateEnough(userSize);
  }

  lemma NothingChosen(alg: SearchAlg, bs: seq<Block>, rover: int, need: nat)
    requires Chosen(alg, bs, rover, need, |bs|)
    ensures forall d :: !Candidate(bs, d, need)
  {
    forall d | d in bs ensures !Candidate(bs, d, need) {
      var k :| 0 <= k < |bs| && bs[k] == d;
      assert !Fits(bs[k], need);
    }
  }

  lemma ChosenIsBest(g: Layout, alg: SearchAlg, bs: seq<Block>, rover: int, need: nat, i: nat, k: nat)
    requires Tiles(bs, g.start, g.End()) && i < |bs| && Chosen(alg, bs, rover, need, i)
    requires k < |bs| && Fits(bs[k], need)
    ensures NoBetter(alg, rover, bs[i], bs[k])
  {
    hide Tiles;
    if i <= k { StartsOrdered(bs, g.start, g.End(), i, k); } else { StartsOrdered(bs, g.start, g.End(), k, i); }
    if alg == NextFit {
      var r: nat :| ResumesAt(bs, rover, r) && FirstFrom(bs, need, r, i);
      BesideRover(g, bs, rover, r, i);
      BesideRover(g, bs, rover, r, k);
    }
  }

  lemma BesideRover(g: Layout, bs: seq<Block>, rover: int, r: nat, k: nat)
    requires Tiles(bs, g.start, g.End()) && ResumesAt(bs, rover, r) && k < |bs|
    ensures bs[k].start < rover <==> k < r
  {
    hide Tiles;
    if k < r { StartsOrdered(bs, g.start, g.End(), k, r - 1); } else { StartsOrdered(bs, g.start, g.End(), r, k); }
  }

  /** The block is split if and only if it is more than 128 bytes larger than needed, or more than twice as large;
      otherwise all of it is handed out. Every other block stays as it is. */
  lemma MallocSplits(g: Layout, alg: SearchAlg, s: HeapState, userSize: nat, p: int, s': HeapState) returns (i: nat)
    requires ValidState(g, s) && userSize <= U32_LIMIT - 16 && MallocStep(g, alg, s, userSize, p, s') && p != 0
    ensures i < |s.blocks| && p == s.blocks[i].start + 4 && !s.blocks[i].used
    ensures var need, b := SizeToAllocate(userSize), s.blocks[i];
            s'.blocks == s.blocks[..i]
                         + (if b.size > need + 128 || b.size > 2 * need
                            then [Block(b.start, need, true), Block(b.start + need, b.size - need, false)]
                            else [Block(b.start, b.size, true)])
                         + s.blocks[i + 1..]
    ensures Represents(g, s'.words, s'.blocks)
  {
    hide Tiles, NoAdjacentFree, MallocStep, Chosen, SizeToAllocate, Represents;
    RequestSize(userSize);
    i := MallocTaken(g, alg, s, userSize, p, s');
    RepresentsTiles(g, s.blocks, s.words);
    ChosenFits(alg, s.blocks, s.next, SizeToAllocate(userSize), i);
    BlockBounds(s.blocks, g.start, g.End(), i);
    SmallHeap(g, |s.words|);
  }

  lemma SmallHeap(g: Layout, length: nat)
    requires Placed(g, length)
    ensures g.size < U32_LIMIT / 2
  {
  }

  /** A request of 104 bytes takes a free block of 128 whole; one of 40 bytes splits it. */
  lemma SplitExamples(b: Block)
    requires b.size == 128
    ensures Carve(b, SizeToAllocate(104)) == [Block(b.start, 128, true)]
    ensures Carve(b, SizeToAllocate(40)) == [Block(b.start, 48, true), Block(b.start + 48, 80, false)]
  {
  }

  // ---- where free leaves the rover ----

  /** In the intended order free moves the rover off a block that is merged into the one before it, to the merged
      block, and otherwise not at all. As written, it moves a rover that is behind the merged pair. */
  lemma FreeMovesRover(alg: SearchAlg, order: RoverOrder, bs: seq<Block>, lo: int, hi: int, i: nat, rover: int)
    requires Tiles(bs, lo, hi) && i < |bs| && bs[i].used
    ensures var prevFree, nextFree := i > 0 && !bs[i - 1].used, i + 1 < |bs| && !bs[i + 1].used;
            RoverAfterFree(alg, order, bs, i, rover) ==
            if alg != NextFit then rover
            else if order == AsIntended then
              if (prevFree && rover == bs[i].start) || (nextFree && rover == bs[i + 1].start)
              then bs[if prevFree then i - 1 else i].start else rover
            else if nextFree && rover == bs[i + 1].End() then bs[i].start
            else if prevFree && !nextFree && rover == bs[i].End() then bs[i - 1].start
            else rover
  {
    BlockBounds(bs, lo, hi, i);
    if i + 1 < |bs| {
      TilesNext(bs, lo, hi, i);
      BlockBounds(bs, lo, hi, i + 1);
    }
    hide Tiles;
    FirstMerge(bs, i);
  }

  /** What the second coalesce of free finds. */
  lemma FirstMerge(bs: seq<Block>, i: nat)
    requires i < |bs| && bs[i].used && (i + 1 < |bs| ==> bs[i].End() == bs[i + 1].start)
    ensures var merged, nextFree := Coalesce(Release(bs, i), i), i + 1 < |bs| && !bs[i + 1].used;
            && Merges(Release(bs, i), i) == nextFree
            && |merged| > i && merged[i].start == bs[i].start && !merged[i].used
            && merged[i].End() == (if nextFree then bs[i + 1].End() else bs[i].End())
            && (i > 0 ==> merged[i - 1] == bs[i - 1])
  {
  }

  /** The starts that are left after a free: not those of the blocks that were merged into the one before them. */
  lemma StartsLeft(bs: seq<Block>, lo: int, hi: int, i: nat, k: nat) returns (x: nat)
    requires Tiles(bs, lo, hi) && i < |bs| && k < |Free(bs, i)|
    ensures x < |bs| && Free(bs, i)[k].start == bs[x].start
    ensures i > 0 && !bs[i - 1].used ==> x != i
    ensures i + 1 < |bs| && !bs[i + 1].used ==> x != i + 1
  {
    FreeIsOneMerge(bs, lo, hi, i);
    hide Tiles, Free;
    var m, n := MergeFrom(bs, i), MergeTo(bs, i);
    x := if k <= m then k else k + (n - m) - 1;
  }

  /** The intended order moves the rover only off a block that disappears. */
  lemma IntendedOnlyOffMerged(bs: seq<Block>, lo: int, hi: int, i: nat, rover: int)
    requires Tiles(bs, lo, hi) && i < |bs| && bs[i].used && IsBlockStart(Free(bs, i), rover)
    ensures RoverAfterFree(NextFit, AsIntended, bs, i, rover) == rover
  {
    hide Tiles, Free, RoverAfterFree;
    FreeMovesRover(NextFit, AsIntended, bs, lo, hi, i, rover);
    var k: nat :| k < |Free(bs, i)| && Free(bs, i)[k].start == rover;
    var x := StartsLeft(bs, lo, hi, i, k);
    if i + 1 < |bs| && rover == bs[i + 1].start { StartsDistinct(bs, lo, hi, i + 1, x); }
    if rover == bs[i].start { StartsDistinct(bs, lo, hi, i, x); }
  }

  // ---- the bytes that are left ----

  function UsedSize(bs: seq<Block>): int
  {
    if bs == [] then 0 else (if bs[0].used then bs[0].size else 0) + UsedSize(bs[1..])
  }

  lemma {:induction false} UsedSizeSplits(left: seq<Block>, right: seq<Block>)
    ensures UsedSize(left + right) == UsedSize(left) + UsedSize(right)
  {
    if left == [] {
      assert left + right == right;
    } else {
      UsedSizeSplits(left[1..], right);
      assert (left + right)[1..] == left[1..] + right;
    }
  }

  /** Free bytes and used bytes make up the heap. */
  lemma {:induction false} FreeAndUsed(bs: seq<Block>, lo: int, hi: int)
    requires Tiles(bs, lo, hi)
    ensures FreeSize(bs) + UsedSize(bs) == hi - lo
  {
    if bs != [] {
      var last := |bs| - 1;
      var front := bs[..last];
      TilesAround(bs, lo, hi, last);
      FreeAndUsed(front, lo, bs[last].start);
      LastEnds(bs, lo, hi, last);
      UsedSizeSplits(front, [bs[last]]);
      assert bs == front + [bs[last]];
    }
  }

  /** The places of the free blocks in the list. */
  function FreePlaces(bs: seq<Block>): set<nat>
  {
    set k | 0 <= k < |bs| && !bs[k].used
  }

  lemma {:induction false} FreeCounted(bs: seq<Block>)
    ensures FreeCount(bs) == |FreePlaces(bs)|
  {
    if bs != [] {
      var last := |bs| - 1;
      FreeCounted(bs[..last]);
      assert FreePlaces(bs) == FreePlaces(bs[..last]) + if bs[last].used then {} else {last};
    }
  }
}
