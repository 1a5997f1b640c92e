/** The allocator of lab5/implicit.c on an array of words. */
module HeapMemory {
  import opened Bits
  import opened HeapBlocks
  import opened HeapWords
  import opened HeapSteps
  import opened HeapStale
  import opened Products

  /** Where the first block has nothing to merge with, coalesce leaves everything as it is. */
  lemma NothingCoalesced(g: Layout, bs: seq<Block>, words: seq<Word>, alg: SearchAlg, order: RoverOrder, rover: int)
    requires Placed(g, |words|) && bs != [] && !Merges(bs, 0)
    ensures HeapBlocks.Coalesce(bs, 0) == bs && CoalescedWords(g, words, bs, 0) == words
    ensures RoverAfterCoalesce(alg, order, bs, 0, rover) == rover
  {
  }

  lemma OneBlockHeap(g: Layout, words: seq<Word>, b: Block)
    requires Placed(g, |words|) && Tagged(g, words, b) && b.start == g.start && b.size == g.size && !b.used
    ensures Represents(g, words, [b]) && NoAdjacentFree([b]) && IsBlockStart([b], g.start)
  {
    hide Tagged;
    OneBlockTiles(b);
    assert [b][0].start == g.start;
  }

  lemma GapAligns(a: int)
    ensures 0 <= AlignmentGap(a) < 8 && (a + AlignmentGap(a)) % 8 == 4
  {
    var s := a + AlignmentGap(a);
    Remainder(s, 8, (s + 4) / 8 - 1, 4);
  }

  lemma WholeBlocks(size: int) returns (q: int)
    requires size >= 8
    ensures size - (size - 8) % 8 == 8 * (q + 1) && size - 8 < 8 * (q + 1) <= size && q >= 0
    ensures (8 * (q + 1)) % 8 == 0
  {
    var d;
    q, d := Remains(size - 8, 8);
    Remainder(8 * (q + 1), 8, q + 1, 0);
  }

  /** The sizes and alignments that heap_create works out. */
  lemma PlacedAfter(g: Layout, length: nat, brk: int, bytes: int)
    requires g.origin >= 0 && g.origin % 4 == 0 && g.origin <= brk && brk + bytes <= g.origin + 4 * length
    requires g.start == brk + SIZEOF_HEAP + AlignmentGap(brk + SIZEOF_HEAP)
    requires var size := brk + bytes - g.start; size >= 8 && g.size == size - (size - 8) % 8 && size < U32_LIMIT / 2
    ensures Placed(g, length) && Inside(g, Block(g.start, g.size, false))
    ensures brk + bytes - 8 < g.End() <= brk + bytes
  {
    hide AlignmentGap;
    GapAligns(brk + SIZEOF_HEAP);
    var q := WholeBlocks(brk + bytes - g.start);
  }

  datatype Average = Average(size: int) | DivisionByZero

  lemma AverageWithin(size: int, count: nat, limit: int)
    requires 8 * count <= size <= limit
    ensures count > 0 ==> 8 <= size / count <= limit
  {
    if count > 0 {
      var q, d := Remains(size, count);
      Cancels(count, 7, q);
      Cancels(count, q, limit + 1);
    }
  }

  // ---- the allocator ----

  class Heap {
    const alg: SearchAlg
    const order: RoverOrder
    const g: Layout
    const mem: array<Word>
    var next: int
    ghost var blocks: seq<Block>

    ghost function State(): HeapState
      reads this, mem
    {
      HeapState(blocks, next, mem[..])
    }

    ghost predicate Valid()
      reads this, mem
    {
      ValidState(g, State())
    }

    ghost predicate Tiled()
      reads this, mem
    {
      Represents(g, mem[..], blocks)
    }

    // ---- header macros ----

    function Load(a: int): (w: Word)
      requires InWindow(g, mem.Length, a)
      reads mem
      ensures w == At(g, mem[..], a)
    {
      mem[Index(g, mem.Length, a)]
    }

    predicate BlockIsInUse(a: int)
      requires InWindow(g, mem.Length, a)
      reads mem
    {
      And(Load(a), 1) != 0
    }

    function GetBlockSize(a: int): int
      requires InWindow(g, mem.Length, a)
      reads mem
    {
      And(Load(a), U32_LIMIT - HEADER_SIZE)
    }

    function GetNextBlock(a: int): int
      requires InWindow(g, mem.Length, a)
      reads mem
    {
      a + GetBlockSize(a)
    }

    function GetPreviousBlock(a: int): int
      requires InWindow(g, mem.Length, a - HEADER_SIZE)
      reads mem
    {
      a - GetBlockSize(a - HEADER_SIZE)
    }

    predicate IsWithinHeapRange(a: int)
    {
      a >= g.start && a < g.start + g.size
    }

    /** The header macros read back the block that memory represents. */
    lemma TagRead(b: Block)
      requires Tiled() && b in blocks
      ensures Inside(g, b) && InWindow(g, mem.Length, b.start) && InWindow(g, mem.Length, b.PayloadEnd())
      ensures GetBlockSize(b.start) == b.size && GetBlockSize(b.PayloadEnd()) == b.size
      ensures BlockIsInUse(b.start) <==> b.used
      ensures GetNextBlock(b.start) == b.End()
    {
      assert Tagged(g, mem[..], b);
      TagsInWindow(g, mem.Length, b);
      DecodeHeader(g, b);
    }

    /** From the second block on, the footer before a block leads back to its predecessor. */
    lemma PreviousInvertsNext(i: nat)
      requires Tiled() && i + 1 < |blocks|
      ensures InWindow(g, mem.Length, blocks[i].start)
      ensures GetNextBlock(blocks[i].start) == blocks[i + 1].start
      ensures InWindow(g, mem.Length, blocks[i + 1].start - HEADER_SIZE)
      ensures GetPreviousBlock(blocks[i + 1].start) == blocks[i].start
    {
      TagRead(blocks[i]);
      TilesNext(blocks, g.start, g.End(), i);
    }

    /** The word before the heap leads to the first block itself or out of the heap. */
    lemma PreviousOfFirst()
      requires Placed(g, mem.Length)
      ensures InWindow(g, mem.Length, g.start - HEADER_SIZE)
      ensures GetPreviousBlock(g.start) == g.start || !IsWithinHeapRange(GetPreviousBlock(g.start))
    {
      assert InWindow(g, mem.Length, g.start - HEADER_SIZE);
      HeaderBits(Load(g.start - HEADER_SIZE));
    }

    method Store(a: int, w: Word)
      requires InWindow(g, mem.Length, a)
      modifies mem
      ensures mem[..] == old(mem[..])[Index(g, mem.Length, a) := w]
    {
      mem[Index(g, mem.Length, a)] := w;
    }

    /** What coalesce sees at block i: the block, and whether a successor follows and is in use. */
    lemma CoalesceView(i: nat)
      requires Tiled() && i < |blocks|
      ensures var a := blocks[i].start;
              && IsWithinHeapRange(a) && InWindow(g, mem.Length, a)
              && GetBlockSize(a) == blocks[i].size && GetNextBlock(a) == blocks[i].End()
              && (BlockIsInUse(a) <==> blocks[i].used)
              && (IsWithinHeapRange(blocks[i].End()) <==> i + 1 < |blocks|)
      ensures i + 1 < |blocks| ==>
              && blocks[i].End() == blocks[i + 1].start && InWindow(g, mem.Length, blocks[i + 1].start)
              && GetBlockSize(blocks[i + 1].start) == blocks[i + 1].size
              && (BlockIsInUse(blocks[i + 1].start) <==> blocks[i + 1].used)
              && Inside(g, Block(blocks[i].start, blocks[i].size + blocks[i + 1].size, false))
    {
      TagRead(blocks[i]);
      LastEnds(blocks, g.start, g.End(), i);
      if i + 1 < |blocks| {
        var b, c := blocks[i], blocks[i + 1];
        assert b.End() == c.start by { TilesNext(blocks, g.start, g.End(), i); }
        TagRead(c);
        MergedInside(g, b, c);
      }
    }

    /** Writes the header and the footer of a block, and no other word. */
    method SetBlockHeader(a: int, blockSize: int, inUse: nat)
      requires Placed(g, mem.Length) && inUse <= 1 && Inside(g, Block(a, blockSize, inUse == 1))
      modifies mem
      ensures Tagged(g, mem[..], Block(a, blockSize, inUse == 1))
      ensures OnlyTagsChanged(g, Block(a, blockSize, inUse == 1), old(mem[..]), mem[..])
      ensures mem[..] == PutTags(g, old(mem[..]), Block(a, blockSize, inUse == 1))
    {
      TagsInWindow(g, mem.Length, Block(a, blockSize, inUse == 1));
      OrLowBit(blockSize, inUse);
      DecodeHeader(g, Block(a, blockSize, inUse == 1));
      var headerValue := Or(blockSize, inUse);
      Store(a, headerValue);
      Store(FooterAt(a, GetBlockSize(a)), headerValue);
      TagsWritten(g, Block(a, blockSize, inUse == 1), old(mem[..]));
    }

    /** Merges a free block with a free successor. A first block outside the heap (i == |blocks|) is ignored. */
    method Coalesce(first: int, ghost i: nat) returns (r: int)
      requires Tiled()
      requires if i < |blocks| then blocks[i].start == first else !IsWithinHeapRange(first)
      modifies this`next, this`blocks, mem
      ensures Tiled() && r == first
      ensures if i < |old(blocks)| then
                && blocks == HeapBlocks.Coalesce(old(blocks), i)
                && next == RoverAfterCoalesce(alg, order, old(blocks), i, old(next))
                && mem[..] == CoalescedWords(g, old(mem[..]), old(blocks), i)
              else
                blocks == old(blocks) && next == old(next) && mem[..] == old(mem[..])
    {
      hide Tiles, Preserves;
      r := first;
      if i < |blocks| {
        CoalesceView(i);
        CoalescedRepresents(g, blocks, i, mem[..]);
      }
      if !IsWithinHeapRange(first) || !IsWithinHeapRange(GetNextBlock(first)) {
        return;
      }
      if BlockIsInUse(first) || BlockIsInUse(GetNextBlock(first)) {
        return;
      }
      var second := GetNextBlock(first);
      ghost var merged := Joined(blocks[i], blocks[i + 1]);
      SetBlockHeader(first, GetBlockSize(first) + GetBlockSize(second), 0);
      blocks := HeapBlocks.Coalesce(blocks, i);
      TagRead(merged);
      if order == AsWritten {
        second := GetNextBlock(first);
      }
      if next == second && alg == NextFit {
        next := first;
      }
    }

    method MarkFree(start: int, ghost i: nat)
      requires Tiled() && i < |blocks| && blocks[i].used && blocks[i].start == start
      modifies this`blocks, mem
      ensures Tiled() && blocks == Release(old(blocks), i)
      ensures mem[..] == Marked(g, old(mem[..]), FreeBlock(old(blocks)[i]))
    {
      hide Tiles, Preserves;
      TagRead(blocks[i]);
      ReleasedRepresents(g, blocks, i, mem[..]);
      SetBlockHeader(start, GetBlockSize(start), 0);
      blocks := Release(blocks, i);
    }

    /** Releases the block of a live payload and merges it with its free neighbours. */
    method HeapFree(payload: int)
      requires Valid() && exists i :: 0 <= i < |blocks| && blocks[i].used && blocks[i].Payload() == payload
      modifies this`next, this`blocks, mem
      ensures Valid()
      ensures FreeStep(g, alg, order, old(State()), payload, State())
    {
      hide Tiles, Tagged, Merges, NoAdjacentFree, UsedBlocks, Represents, FreeStep, Marked, CoalescedWords, Placed;
      ghost var s := State();
      ghost var i :| 0 <= i < |blocks| && blocks[i].used && blocks[i].Payload() == payload;
      ghost var bs := blocks;
      RepresentsTiles(g, bs, mem[..]);
      FreeFacts(bs, g.start, g.End(), i);
      var start := payload - HEADER_SIZE;
      MarkFree(start, i);
      var _ := Coalesce(start, i);
      ghost var w2 := mem[..];
      PreviousView(i);
      var previous := GetPreviousBlock(start);
      ghost var j := if i > 0 then i - 1 else if previous == start then 0 else |blocks|;
      if i == 0 { NothingCoalesced(g, blocks, w2, alg, order, next); }
      var _ := Coalesce(previous, j);
      FreeTakes(g, alg, order, s, i, State());
    }

    /** Whatever word lies before the heap, free of the first block coalesces nothing wrong. */
    lemma PreviousView(i: nat)
      requires Tiled() && i < |blocks|
      ensures InWindow(g, mem.Length, blocks[i].start - HEADER_SIZE)
      ensures var p := GetPreviousBlock(blocks[i].start);
              if i > 0 then p == blocks[i - 1].start else p == blocks[0].start || !IsWithinHeapRange(p)
    {
      if i > 0 { PreviousInvertsNext(i - 1); } else { PreviousOfFirst(); }
    }

    /** Marks a free block as used; what the request does not need becomes a free block of its own if it is large. */
    method PrepareBlockForUse(a: int, realSize: nat) returns (p: int)
      requires Placed(g, mem.Length) && HeaderLike(g, mem[..], a)
      requires 8 <= SizeToAllocate(realSize) <= GetBlockSize(a) && SizeToAllocate(realSize) % 8 == 0
      modifies mem
      ensures p == a + HEADER_SIZE
      ensures mem[..] == Prepared(g, old(mem[..]), a, SizeToAllocate(realSize))
    {
      if (SizeToAllocate(realSize) + MAX_UNUSED_BYTES) % U32_LIMIT < GetBlockSize(a)
         || SizeToAllocate(realSize) * 2 % U32_LIMIT < GetBlockSize(a) {
        InsideSplit(g, Block(a, GetBlockSize(a), true), SizeToAllocate(realSize));
        SetBlockHeader(a + SizeToAllocate(realSize), GetBlockSize(a) - SizeToAllocate(realSize), 0);
        SetBlockHeader(a, SizeToAllocate(realSize), 1);
        return a + HEADER_SIZE;
      }
      SetBlockHeader(a, GetBlockSize(a), 1);
      return a + HEADER_SIZE;
    }

    /** Of a block that the policy picks, the list goes on to tell. */
    method TakeListed(a: int, userSize: nat, ghost i: nat) returns (p: int)
      requires Valid() && alg != NextFit && i < |blocks| && blocks[i].start == a
      requires 8 <= SizeToAllocate(userSize) && Chosen(alg, blocks, next, SizeToAllocate(userSize), i)
      modifies this`blocks, mem
      ensures Valid() && MallocStep(g, alg, old(State()), userSize, p, State())
    {
      hide Tiles, NoAdjacentFree, Chosen, Prepared, Preserves, HeaderLike, Placed, Allocate, MallocStep, SizeToAllocate;
      ghost var s, need := State(), SizeToAllocate(userSize);
      AllocatedSizes(userSize);
      ChosenFits(alg, blocks, next, need, i);
      RepresentsTiles(g, blocks, mem[..]);
      PreparedRepresents(g, blocks, i, need, mem[..]);
      AllocatedValid(g, blocks, i, need);
      p := PrepareBlockForUse(a, userSize);
      blocks := Allocate(blocks, i, need);
      MallocTakes(g, alg, s, userSize, i, State());
    }

    /** What the searches see when they stand at block k, or at the end. */
    lemma WalkView(k: nat)
      requires Tiled() && k <= |blocks|
      ensures IsWithinHeapRange(StartOf(g, blocks, k)) <==> k < |blocks|
      ensures StartOf(g, blocks, 0) == g.start
      ensures k < |blocks| ==>
              var a := blocks[k].start;
              && InWindow(g, mem.Length, a) && GetBlockSize(a) == blocks[k].size
              && (BlockIsInUse(a) <==> blocks[k].used)
              && GetNextBlock(a) == StartOf(g, blocks, k + 1)
              && 0 < blocks[k].size <= g.size && 0 < a
    {
      if k < |blocks| {
        TagRead(blocks[k]);
        LastEnds(blocks, g.start, g.End(), k);
        BlockBounds(blocks, g.start, g.End(), k);
        if k + 1 < |blocks| { TilesNext(blocks, g.start, g.End(), k); }
      }
    }

    /** The average size of the free blocks; the code divides by zero if there is none. */
    method HeapFindAvgFreeBlockSize() returns (average: Average)
      requires Valid()
      ensures average ==
              if FreeCount(blocks) == 0 then DivisionByZero else Average(FreeSize(blocks) / FreeCount(blocks))
      ensures average == DivisionByZero <==> forall b | b in blocks :: b.used
      ensures average.Average? ==> 8 <= average.size <= g.size
    {
      hide Tiles, Represents, NoAdjacentFree, FreeSize, FreeCount;
      ValidLists();
      ghost var k := 0;
      var size, numOfBlock := 0, 0;
      var current := g.start;
      WalkView(0);
      if |blocks| > 0 { FreeGrows(blocks, 0); }
      while IsWithinHeapRange(current)
        invariant k <= |blocks| && current == StartOf(g, blocks, k)
        invariant size == FreeSize(blocks[..k]) && numOfBlock == FreeCount(blocks[..k])
        decreases |blocks| - k
      {
        WalkView(k);
        FreeGrows(blocks, k);
        if !BlockIsInUse(current) {
          size := size + GetBlockSize(current);
          numOfBlock := numOfBlock + 1;
        }
        current := GetNextBlock(current);
        k := k + 1;
      }
      WalkView(k);
      assert blocks[..k] == blocks;
      FreeWithin(blocks, g.start, g.End());
      average := if numOfBlock == 0 then DivisionByZero else Average(size / numOfBlock);
      AverageWithin(size, numOfBlock, g.size);
    }

    lemma ValidLists()
      requires Valid()
      ensures Tiled() && Tiles(blocks, g.start, g.End()) && 0 < |blocks|
    {
    }

    method MallocFirstFit(userSize: nat) returns (p: int)
      requires Valid() && alg == FirstFit && 8 <= SizeToAllocate(userSize)
      modifies this`blocks, mem
      ensures Valid() && MallocStep(g, alg, old(State()), userSize, p, State())
    {
      hide Tiles, NoAdjacentFree, Represents, MallocStep, SizeToAllocate;
      AllocatedSizes(userSize);
      ghost var k, need := 0, SizeToAllocate(userSize);
      var current := g.start;
      WalkView(0);
      while IsWithinHeapRange(current)
        invariant unchanged(this) && unchanged(mem)
        invariant k <= |blocks| && current == StartOf(g, blocks, k)
        invariant NoneFits(blocks, need, 0, k)
        decreases |blocks| - k
      {
        WalkView(k);
        if !BlockIsInUse(current) {
          if GetBlockSize(current) >= SizeToAllocate(userSize) {
            p := TakeListed(current, userSize, k);
            return;
          }
        }
        current := GetNextBlock(current);
        k := k + 1;
      }
      WalkView(k);
      MallocFails(g, alg, State(), userSize);
      return NULL;
    }

    /** The difference between a fitting block and the request never exceeds the heap size. */
    method MallocBestFit(userSize: nat) returns (p: int)
      requires Valid() && alg == BestFit && 8 <= SizeToAllocate(userSize)
      modifies this`blocks, mem
      ensures Valid() && MallocStep(g, alg, old(State()), userSize, p, State())
    {
      hide Tiles, NoAdjacentFree, Represents, MallocStep, SizeToAllocate;
      AllocatedSizes(userSize);
      ghost var k: nat, best: nat, need := 0, |blocks|, SizeToAllocate(userSize);
      var smallestDifference := g.size;
      var bestBlock := NULL;
      var current := g.start;
      WalkView(0);
      while IsWithinHeapRange(current)
        invariant unchanged(this) && unchanged(mem)
        invariant k <= |blocks| && current == StartOf(g, blocks, k)
        invariant if best == |blocks|
                  then bestBlock == NULL && smallestDifference == g.size && NoneFits(blocks, need, 0, k)
                  else best < k && bestBlock == blocks[best].start && bestBlock != NULL
                       && smallestDifference == blocks[best].size - need
                       && Fits(blocks[best], need) && TightestBelow(blocks, need, best, k)
        decreases |blocks| - k
      {
        WalkView(k);
        if !BlockIsInUse(current) {
          if GetBlockSize(current) >= SizeToAllocate(userSize) {
            var thisDifference := GetBlockSize(current) - SizeToAllocate(userSize);
            if thisDifference <= smallestDifference {
              smallestDifference := thisDifference;
              bestBlock := current;
              best := k;
            }
          }
        }
        current := GetNextBlock(current);
        k := k + 1;
      }
      WalkView(k);
      if bestBlock != NULL {
        p := TakeListed(bestBlock, userSize, best);
        return;
      }
      MallocFails(g, alg, State(), userSize);
      return NULL;
    }

    /** Both loops of next fit end like this when they find a header that fits. */
    method TakeFitting(current: int, userSize: nat, ghost path: seq<int>, ghost path2: seq<int>, ghost i: nat)
      returns (p: int)
      requires Placed(g, mem.Length) && 8 <= SizeToAllocate(userSize)
      requires Walk(g, mem[..], next, path) && Walk(g, mem[..], g.start, path2)
      requires i < |path + path2| && (path + path2)[i] == current && HeaderLike(g, mem[..], current)
      requires Takes(g, mem[..], current, SizeToAllocate(userSize))
      requires forall j | 0 <= j < i :: !Takes(g, mem[..], (path + path2)[j], SizeToAllocate(userSize))
      modifies this`next, mem
      ensures TakesFirst(g, old(mem[..]), old(next), path + path2, userSize, p, mem[..], next)
      ensures NextFitOn(g, old(mem[..]), old(next), userSize, p, mem[..], next)
    {
      hide Prepared, NextFitOn, HeaderLike, TakesFirst, Takes, Walk, SizeToAllocate;
      FoundOnPath(g, mem[..], next, path + path2, userSize, i);
      p := PrepareBlockForUse(current, userSize);
      next := p - HEADER_SIZE;
      NextFitIs(g, old(mem[..]), old(next), path, path2, userSize, p, mem[..], next);
    }

    /** malloc_next_fit: looks from the rover to the end, then again from the start, wherever the rover is.
        The two walks must end, as they do when the rover is on a block. */
    method NextFitOnWords(userSize: nat, ghost path: seq<int>, ghost path2: seq<int>) returns (p: int)
      requires Placed(g, mem.Length) && 8 <= SizeToAllocate(userSize)
      requires Walk(g, mem[..], next, path) && Walk(g, mem[..], g.start, path2)
      modifies this`next, mem
      ensures TakesFirst(g, old(mem[..]), old(next), path + path2, userSize, p, mem[..], next)
      ensures NextFitOn(g, old(mem[..]), old(next), userSize, p, mem[..], next)
    {
      hide Prepared, NextFitOn, HeaderLike, TakesFirst, FirstFitting, SizeToAllocate, Walk, Takes, NoneTakes, And;
      ghost var whole, need, words := path + path2, SizeToAllocate(userSize), mem[..];
      ghost var k := 0;
      NoneTaken(g, words, whole, need);
      var current := next;
      assert path[0..] == path && path2[0..] == path2;
      while IsWithinHeapRange(current)
        invariant unchanged(this) && unchanged(mem) && mem[..] == words
        invariant k <= |path| && Walk(g, words, current, path[k..]) && NoneTakes(g, words, whole, need, k)
        decreases |path| - k
      {
        WalkOn(g, words, current, path, k);
        Headers(current);
        if !BlockIsInUse(current) {
          if GetBlockSize(current) >= SizeToAllocate(userSize) {
            TakenHere(g, words, whole, need, k);
            p := TakeFitting(current, userSize, path, path2, k);
            return;
          }
        }
        NotTakenHere(g, words, whole, need, k);
        current := GetNextBlock(current);
        k := k + 1;
      }
      WalkOver(g, words, current, path, k);
      current := g.start;
      k := 0;
      while IsWithinHeapRange(current)
        invariant unchanged(this) && unchanged(mem) && mem[..] == words
        invariant k <= |path2| && Walk(g, words, current, path2[k..]) && NoneTakes(g, words, whole, need, |path| + k)
        decreases |path2| - k
      {
        WalkOn(g, words, current, path2, k);
        Headers(current);
        if !BlockIsInUse(current) {
          if GetBlockSize(current) >= SizeToAllocate(userSize) {
            TakenHere(g, words, whole, need, |path| + k);
            p := TakeFitting(current, userSize, path, path2, |path| + k);
            return;
          }
        }
        NotTakenHere(g, words, whole, need, |path| + k);
        current := GetNextBlock(current);
        k := k + 1;
      }
      WalkOver(g, words, current, path2, k);
      NoneAtAll(g, words, whole, need);
      NothingOnPath(g, words, next, whole, userSize);
      NextFitIs(g, words, next, path, path2, userSize, NULL, words, next);
      return NULL;
    }

    /** The header macros in terms of the words. */
    lemma Headers(a: int)
      requires HeaderLike(g, mem[..], a)
      ensures InWindow(g, mem.Length, a)
      ensures GetBlockSize(a) == SizeAt(g, mem[..], a) && BlockIsInUse(a) == UsedAt(g, mem[..], a)
    {
    }

    /** On a list, with the rover on a block or where a free has left it. */
    method MallocNextFit(userSize: nat) returns (p: int)
      requires Valid() && alg == NextFit && Tracked(alg, g, State()) && 8 <= SizeToAllocate(userSize)
      modifies this`blocks, this`next, mem
      ensures NextFitOn(g, old(mem[..]), old(next), userSize, p, mem[..], next)
      ensures if Safe(alg, g, old(State()), SizeToAllocate(userSize))
              then Valid() && MallocStep(g, alg, old(State()), userSize, p, State())
              else blocks == old(blocks)
    {
      hide Tiles, NoAdjacentFree, MallocStep, Walk, NextFitOn, TakesFirst, Represents, RoverAt, Stale, SizeToAllocate;
      ghost var s := State();
      ghost var r: nat :| RoverAt(g, s, r);
      WalkOfRover(g, s, r);
      RoverResumes(g, s, r);
      p := NextFitOnWords(userSize, RoverPath(g, s, r), Starts(blocks));
      SafeIs(g, s, r, SizeToAllocate(userSize));
      if Stale(g, s, r) < SizeToAllocate(userSize) {
        blocks := NextFitRefines(g, s, r, userSize, p, mem[..], next);
      }
    }

    method HeapMalloc(userSize: nat) returns (p: int)
      requires Valid() && Tracked(alg, g, State()) && 8 <= SizeToAllocate(userSize)
      modifies this`blocks, this`next, mem
      ensures if Safe(alg, g, old(State()), SizeToAllocate(userSize))
              then Valid() && MallocStep(g, alg, old(State()), userSize, p, State())
              else blocks == old(blocks) && NextFitOn(g, old(mem[..]), old(next), userSize, p, mem[..], next)
    {
      match alg
      case FirstFit => p := MallocFirstFit(userSize);
      case NextFit => p := MallocNextFit(userSize);
      case BestFit => p := MallocBestFit(userSize);
    }

    /** heap_create on the bytes at brk that sbrk returned: after the heap record and the alignment gap,
        one free block fills the rest. */
    constructor HeapCreate(memory: array<Word>, origin: int, brk: int, bytes: int, searchAlg: SearchAlg,
                           roverOrder: RoverOrder)
      requires origin >= 0 && origin % 4 == 0 && origin <= brk && brk + bytes <= origin + 4 * memory.Length
      requires SIZEOF_HEAP + AlignmentGap(brk + SIZEOF_HEAP) + 2 * HEADER_SIZE <= bytes < U32_LIMIT / 2
      modifies memory
      ensures Valid() && RoverOk(alg, State())
      ensures alg == searchAlg && order == roverOrder && mem == memory && next == g.start
      ensures g.start == brk + 32 + AlignmentGap(brk + 32)
      ensures brk + bytes - 8 < g.End() <= brk + bytes
      ensures blocks == [Block(g.start, g.size, false)]
    {
      var heapStart, size := AlignedRegion(brk, bytes);
      alg, order, mem, g := searchAlg, roverOrder, memory, Layout(origin, heapStart, size);
      next := heapStart;
      blocks := [Block(heapStart, size, false)];
      hide Tiles, NoAdjacentFree, Represents, Tagged, AlignmentGap, Placed, Inside;
      new;
      PlacedAfter(g, mem.Length, brk, bytes);
      SetBlockHeader(g.start, size, 0);
      OneBlockHeap(g, mem[..], blocks[0]);
      PlacedSize(g, mem.Length);
    }
  }

  lemma PlacedSize(g: Layout, length: nat)
    requires Placed(g, length)
    ensures g.size < U32_LIMIT / 2
  {
  }

  /** Where heap_create puts the first block, and how large it can be. */
  method AlignedRegion(brk: int, bytes: int) returns (heapStart: int, size: int)
    requires SIZEOF_HEAP + AlignmentGap(brk + SIZEOF_HEAP) + 2 * HEADER_SIZE <= bytes
    ensures heapStart == brk + SIZEOF_HEAP + AlignmentGap(brk + SIZEOF_HEAP)
    ensures var room := brk + bytes - heapStart; size == room - (room - 8) % 8
  {
    heapStart := brk + SIZEOF_HEAP;
    size := bytes - SIZEOF_HEAP;
    var delta := PAYLOAD_ALIGN - HEADER_SIZE - heapStart % PAYLOAD_ALIGN;
    if delta < 0 {
      delta := delta + PAYLOAD_ALIGN;
    }
    if delta > 0 {
      heapStart := heapStart + delta;
      size := size - delta;
    }
    size := size - (size - 2 * HEADER_SIZE) % PAYLOAD_ALIGN;
  }
}
