/** Next fit with a rover that a free has left inside a merged block: which headers it meets there, when it takes
    one of them, and that otherwise it does what next fit promises. */
module HeapStale {
  import opened HeapBlocks
  import opened HeapWords
  import opened HeapSteps

  // ---- headers that no block of the list has any more ----

  /** Headers of free blocks lead from a to e. */
  predicate FreeChain(g: Layout, words: seq<Word>, a: int, e: int)
    decreases e - a
  {
    a == e || (a < e && HeaderLike(g, words, a) && !UsedAt(g, words, a)
               && FreeChain(g, words, a + SizeAt(g, words, a), e))
  }

  /** The largest size in the headers from a to e; 0 if there are none. */
  function Largest(g: Layout, words: seq<Word>, a: int, e: int): nat
    decreases e - a
  {
    if a < e && HeaderLike(g, words, a) then
      var size := SizeAt(g, words, a);
      var rest := Largest(g, words, a + size, e);
      if rest > size then rest else size
    else 0
  }

  function ChainPath(g: Layout, words: seq<Word>, a: int, e: int): seq<int>
    decreases e - a
  {
    if a < e && HeaderLike(g, words, a) then [a] + ChainPath(g, words, a + SizeAt(g, words, a), e) else []
  }

  /** The search of the list resumes at block r: the rover is on it, or in the free block before it, from where
      headers of free blocks lead to it. */
  ghost predicate RoverAt(g: Layout, s: HeapState, r: nat)
  {
    && r <= |s.blocks| && FreeChain(g, s.words, s.next, StartOf(g, s.blocks, r))
    && if s.next == StartOf(g, s.blocks, r) then r < |s.blocks|
       else r > 0 && !s.blocks[r - 1].used && s.blocks[r - 1].start < s.next
  }

  function Stale(g: Layout, s: HeapState, r: nat): nat
  {
    Largest(g, s.words, s.next, StartOf(g, s.blocks, r))
  }

  ghost predicate Tracked(alg: SearchAlg, g: Layout, s: HeapState)
  {
    alg == NextFit ==> exists r: nat :: RoverAt(g, s, r)
  }

  /** No stale header is large enough for the request. */
  ghost predicate Safe(alg: SearchAlg, g: Layout, s: HeapState, need: nat)
  {
    alg == NextFit ==> exists r: nat :: RoverAt(g, s, r) && Stale(g, s, r) < need
  }

  ghost predicate OnBlock(g: Layout, s: HeapState, r: nat)
  {
    RoverAt(g, s, r) && s.next == StartOf(g, s.blocks, r)
  }

  /** The rover is inside a merged block, and one stale header leads to its end. */
  ghost predicate OneStale(g: Layout, s: HeapState, r: nat)
  {
    && RoverAt(g, s, r) && s.next != StartOf(g, s.blocks, r)
    && s.next + SizeAt(g, s.words, s.next) == StartOf(g, s.blocks, r)
  }

  // ---- chains ----

  /** The words where headers can be have not changed from a up to e. */
  ghost predicate SameHeaders(words: seq<Word>, words': seq<Word>, g: Layout, a: int, e: int)
  {
    && |words'| == |words|
    && forall x | InWindow(g, |words|, x) && a <= x < e && x % 8 == 4 :: At(g, words', x) == At(g, words, x)
  }

  lemma HeaderSame(g: Layout, words: seq<Word>, words': seq<Word>, a: int, e: int)
    requires Placed(g, |words|) && SameHeaders(words, words', g, a, e) && a < e && HeaderLike(g, words, a)
    ensures HeaderLike(g, words', a) && SizeAt(g, words', a) == SizeAt(g, words, a)
    ensures UsedAt(g, words', a) == UsedAt(g, words, a) && SizeAt(g, words, a) >= 8
  {
    assert At(g, words', a) == At(g, words, a);
  }

  lemma {:induction false} ChainKept(g: Layout, words: seq<Word>, words': seq<Word>, a: int, e: int)
    requires Placed(g, |words|) && SameHeaders(words, words', g, a, e) && FreeChain(g, words, a, e)
    ensures FreeChain(g, words', a, e) && Largest(g, words', a, e) == Largest(g, words, a, e)
    ensures a < e ==> HeaderLike(g, words', a) && SizeAt(g, words', a) == SizeAt(g, words, a)
    decreases e - a
  {
    if a < e {
      hide HeaderLike, SizeAt, UsedAt;
      HeaderSame(g, words, words', a, e);
      ChainKept(g, words, words', a + SizeAt(g, words, a), e);
    }
  }

  lemma HeaderSize(g: Layout, words: seq<Word>, a: int)
    requires HeaderLike(g, words, a)
    ensures InWindow(g, |words|, a) && 8 <= SizeAt(g, words, a) && g.start <= a && a + SizeAt(g, words, a) <= g.End()
  {
  }

  lemma {:induction false} ChainOrder(g: Layout, words: seq<Word>, a: int, e: int)
    requires FreeChain(g, words, a, e)
    ensures a <= e
  {
  }

  lemma {:induction false} ChainJoins(g: Layout, words: seq<Word>, a: int, m: int, e: int)
    requires FreeChain(g, words, a, m) && FreeChain(g, words, m, e)
    ensures FreeChain(g, words, a, e)
    decreases m - a
  {
    if a < m {
      hide HeaderLike, SizeAt, UsedAt;
      ChainOrder(g, words, m, e);
      HeaderSize(g, words, a);
      ChainJoins(g, words, a + SizeAt(g, words, a), m, e);
    }
  }

  /** The header of a free block of the list is a chain of its own. */
  lemma FreeBlockChain(g: Layout, bs: seq<Block>, i: nat, words: seq<Word>)
    requires Represents(g, words, bs) && i < |bs| && !bs[i].used
    ensures FreeChain(g, words, bs[i].start, bs[i].End()) && HeaderLike(g, words, bs[i].start)
    ensures SizeAt(g, words, bs[i].start) == bs[i].size
  {
    ListedHeader(g, bs, i, words);
    hide Represents, SizeAt, UsedAt;
    assert FreeChain(g, words, bs[i].End(), bs[i].End());
  }

  /** Writing the tags of a block changes one header. */
  lemma MarkedElsewhere(g: Layout, words: seq<Word>, b: Block, a: int, e: int)
    requires Placed(g, |words|) && (e <= b.start || b.start < a)
    ensures SameHeaders(words, Marked(g, words, b), g, a, e)
  {
    if Inside(g, b) {
      FooterPlace(g, b);
      TagsInWindow(g, |words|, b);
    }
  }

  lemma FooterPlace(g: Layout, b: Block)
    requires g.start % 8 == 4 && Inside(g, b)
    ensures b.PayloadEnd() % 8 == 0 && b.start % 8 == 4
  {
  }

  // ---- the rover through free ----

  lemma StartsOf(g: Layout, bs: seq<Block>, words: seq<Word>, r: nat)
    requires Represents(g, words, bs) && r <= |bs|
    ensures Placed(g, |words|) && Tiles(bs, g.start, g.End())
    ensures r > 0 ==> bs[r - 1].End() == StartOf(g, bs, r) && bs[r - 1].start < StartOf(g, bs, r)
    ensures r < |bs| ==> StartOf(g, bs, r) < g.End()
  {
    if r > 0 {
      BlockBounds(bs, g.start, g.End(), r - 1);
      if r < |bs| { TilesNext(bs, g.start, g.End(), r - 1); } else { LastEnds(bs, g.start, g.End(), r - 1); }
    }
    if r < |bs| { BlockBounds(bs, g.start, g.End(), r); }
  }

  /** Marking a used block as free does not concern the rover. */
  lemma ReleaseKeepsRover(g: Layout, s: HeapState, i: nat, r: nat, s': HeapState)
    requires Represents(g, s.words, s.blocks) && RoverAt(g, s, r) && i < |s.blocks| && s.blocks[i].used
    requires s' == HeapState(Release(s.blocks, i), s.next, Marked(g, s.words, FreeBlock(s.blocks[i])))
    ensures RoverAt(g, s', r)
    ensures OnBlock(g, s, r) ==> OnBlock(g, s', r)
  {
    var bs := s.blocks;
    StartsOf(g, bs, s.words, r);
    hide Represents, Tiles, Marked, Largest;
    assert StartOf(g, s'.blocks, r) == StartOf(g, bs, r);
    ChainOrder(g, s.words, s.next, StartOf(g, bs, r));
    if s.next < StartOf(g, bs, r) {
      if i < r - 1 { StartsOrdered(bs, g.start, g.End(), i, r - 1); }
      if r <= i { StartsOrdered(bs, g.start, g.End(), r, i); }
      MarkedElsewhere(g, s.words, FreeBlock(bs[i]), s.next, StartOf(g, bs, r));
      ChainKept(g, s.words, s'.words, s.next, StartOf(g, bs, r));
    }
  }

  lemma CoalescedStarts(g: Layout, bs: seq<Block>, i: nat, q: nat)
    requires i < |bs| && Merges(bs, i) && q < |bs|
    ensures |Coalesce(bs, i)| == |bs| - 1
    ensures StartOf(g, Coalesce(bs, i), q) == StartOf(g, bs, if q <= i then q else q + 1)
    ensures q > 0 ==> Coalesce(bs, i)[q - 1] ==
                      if q - 1 < i then bs[q - 1] else if q - 1 == i then Joined(bs[i], bs[i + 1]) else bs[q]
  {
  }

  lemma RoverResumes(g: Layout, s: HeapState, r: nat)
    requires Represents(g, s.words, s.blocks) && RoverAt(g, s, r)
    ensures ResumesAt(s.blocks, s.next, r)
    ensures IsBlockStart(s.blocks, s.next) <==> OnBlock(g, s, r)
  {
    StartsOf(g, s.blocks, s.words, r);
    hide Represents, Tiles;
    ChainOrder(g, s.words, s.next, StartOf(g, s.blocks, r));
    if IsBlockStart(s.blocks, s.next) && s.next != StartOf(g, s.blocks, r) {
      var j :| 0 <= j < |s.blocks| && s.blocks[j].start == s.next;
      if j <= r - 1 { StartsOrdered(s.blocks, g.start, g.End(), j, r - 1); }
      if r <= j { StartsOrdered(s.blocks, g.start, g.End(), r, j); }
      assert false;
    }
  }

  /** The test of coalesce holds: the rover was at a boundary and goes to the merged block. */
  lemma RoverMoved(order: RoverOrder, g: Layout, s: HeapState, i: nat, r: nat, s': HeapState)
    requires Represents(g, s.words, s.blocks) && RoverAt(g, s, r) && i < |s.blocks| && Merges(s.blocks, i)
    requires s'.blocks == Coalesce(s.blocks, i) && s'.next == RoverAfterCoalesce(NextFit, order, s.blocks, i, s.next)
    requires s'.next != s.next
    ensures OnBlock(g, s', i) && OnBlock(g, s, r)
  {
    hide Represents, Tiles, Coalesce;
    CoalescedStarts(g, s.blocks, i, i);
    StartsOf(g, s.blocks, s.words, r);
    StartsOf(g, s.blocks, s.words, i + 1);
    StartsOf(g, s.blocks, s.words, i + 2);
    RoverResumes(g, s, r);
  }

  /** The merge leaves the rover inside: the second block's header becomes a stale one. */
  lemma RoverSwallowed(g: Layout, s: HeapState, i: nat, s': HeapState)
    requires Represents(g, s.words, s.blocks) && RoverAt(g, s, i + 1) && i + 1 < |s.blocks| && Merges(s.blocks, i)
    requires s.blocks[i].start < s.next
    requires s'.blocks == Coalesce(s.blocks, i) && s'.next == s.next
    requires SameHeaders(s.words, s'.words, g, s.next, s.blocks[i + 1].End())
    ensures RoverAt(g, s', i + 1)
    ensures OnBlock(g, s, i + 1) ==> OneStale(g, s', i + 1)
  {
    var bs, e := s.blocks, s.blocks[i + 1].End();
    StartsOf(g, bs, s.words, i + 2);
    hide Represents, Tiles, Coalesce, SameHeaders, HeaderLike, SizeAt;
    CoalescedStarts(g, bs, i, i + 1);
    FreeBlockChain(g, bs, i + 1, s.words);
    ChainOrder(g, s.words, s.next, bs[i + 1].start);
    ChainJoins(g, s.words, s.next, bs[i + 1].start, e);
    ChainKept(g, s.words, s'.words, s.next, e);
  }

  /** A merge of two blocks before the rover's. */
  lemma RoverBeyond(g: Layout, s: HeapState, i: nat, r: nat, s': HeapState)
    requires Represents(g, s.words, s.blocks) && RoverAt(g, s, r) && i < |s.blocks| && Merges(s.blocks, i) && i + 2 <= r
    requires s'.blocks == Coalesce(s.blocks, i) && s'.next == s.next
    requires SameHeaders(s.words, s'.words, g, s.next, StartOf(g, s.blocks, r))
    ensures RoverAt(g, s', r - 1)
    ensures OnBlock(g, s, r) ==> OnBlock(g, s', r - 1)
    ensures OneStale(g, s, r) ==> OneStale(g, s', r - 1)
  {
    var bs := s.blocks;
    StartsOf(g, bs, s.words, i + 1);
    StartsOf(g, bs, s.words, r);
    hide Represents, Tiles, Coalesce, SameHeaders, HeaderLike, SizeAt, StartOf;
    CoalescedStarts(g, bs, i, r - 1);
    ChainOrder(g, s.words, s.next, StartOf(g, bs, r));
    ChainKept(g, s.words, s'.words, s.next, StartOf(g, bs, r));
  }

  lemma HeadersBehind(g: Layout, s: HeapState, i: nat, r: nat)
    requires Represents(g, s.words, s.blocks) && RoverAt(g, s, r) && i < |s.blocks| && Merges(s.blocks, i) && i < r
    ensures s.blocks[i].start < s.next && Placed(g, |s.words|)
    ensures forall e :: SameHeaders(s.words, CoalescedWords(g, s.words, s.blocks, i), g, s.next, e)
  {
    var bs := s.blocks;
    StartsOf(g, bs, s.words, r);
    hide Represents, Tiles, Marked, SameHeaders, FreeChain;
    StartsOrdered(bs, g.start, g.End(), i, r - 1);
    forall e ensures SameHeaders(s.words, CoalescedWords(g, s.words, bs, i), g, s.next, e) {
      MarkedElsewhere(g, s.words, Joined(bs[i], bs[i + 1]), s.next, e);
    }
  }

  /** A merge at block i, seen from a rover behind the start of that block. */
  lemma RoverBehind(order: RoverOrder, g: Layout, s: HeapState, i: nat, r: nat, s': HeapState) returns (r': nat)
    requires Represents(g, s.words, s.blocks) && RoverAt(g, s, r) && i < |s.blocks| && Merges(s.blocks, i) && i < r
    requires s' == HeapState(Coalesce(s.blocks, i), RoverAfterCoalesce(NextFit, order, s.blocks, i, s.next),
                             CoalescedWords(g, s.words, s.blocks, i))
    ensures RoverAt(g, s', r')
    ensures OnBlock(g, s, r) ==> OnBlock(g, s', r') || (OneStale(g, s', r') && r' == i + 1)
    ensures OneStale(g, s, r) && r != i + 1 ==> OneStale(g, s', r')
  {
    hide Represents, Coalesce, SameHeaders, HeaderLike, SizeAt, StartOf, CoalescedWords, FreeChain;
    HeadersBehind(g, s, i, r);
    if s'.next != s.next {
      r' := i;
      RoverMoved(order, g, s, i, r, s');
    } else if r == i + 1 {
      r' := i + 1;
      RoverSwallowed(g, s, i, s');
    } else {
      r' := r - 1;
      RoverBeyond(g, s, i, r, s');
    }
  }

  /** Coalescing keeps track of the rover: from a block it can only go to a block or to one stale header. */
  lemma CoalesceKeepsRover(order: RoverOrder, g: Layout, s: HeapState, i: nat, r: nat, s': HeapState)
    returns (r': nat)
    requires Represents(g, s.words, s.blocks) && RoverAt(g, s, r) && i < |s.blocks|
    requires s' == HeapState(Coalesce(s.blocks, i), RoverAfterCoalesce(NextFit, order, s.blocks, i, s.next),
                             CoalescedWords(g, s.words, s.blocks, i))
    ensures RoverAt(g, s', r')
    ensures OnBlock(g, s, r) ==> OnBlock(g, s', r') || (OneStale(g, s', r') && r' == i + 1)
    ensures OneStale(g, s, r) && !(Merges(s.blocks, i) && r == i + 1) ==> OneStale(g, s', r')
  {
    if !Merges(s.blocks, i) {
      r' := r;
    } else if r <= i {
      r' := r;
      RoverAhead(order, g, s, i, r, s');
    } else {
      r' := RoverBehind(order, g, s, i, r, s');
    }
  }

  /** A merge behind the rover's block changes nothing for it. */
  lemma RoverAhead(order: RoverOrder, g: Layout, s: HeapState, i: nat, r: nat, s': HeapState)
    requires Represents(g, s.words, s.blocks) && RoverAt(g, s, r) && i < |s.blocks| && Merges(s.blocks, i) && r <= i
    requires s' == HeapState(Coalesce(s.blocks, i), RoverAfterCoalesce(NextFit, order, s.blocks, i, s.next),
                             CoalescedWords(g, s.words, s.blocks, i))
    ensures RoverAt(g, s', r)
    ensures OnBlock(g, s, r) ==> OnBlock(g, s', r)
    ensures OneStale(g, s, r) ==> OneStale(g, s', r)
  {
    var bs := s.blocks;
    StartsOf(g, bs, s.words, i + 1);
    StartsOf(g, bs, s.words, i + 2);
    StartsOf(g, bs, s.words, r);
    StartsOrdered(bs, g.start, g.End(), r, i);
    ChainOrder(g, s.words, s.next, StartOf(g, bs, r));
    MarkedElsewhere(g, s.words, Joined(bs[i], bs[i + 1]), s.next, StartOf(g, bs, r));
    CoalescedStarts(g, bs, i, r);
    hide Represents, Tiles, Marked, Largest, Coalesce, SameHeaders, HeaderLike, SizeAt;
    ChainKept(g, s.words, s'.words, s.next, StartOf(g, bs, r));
  }

  lemma OnBlockIs(g: Layout, s: HeapState, i: nat)
    requires i < |s.blocks| && s.blocks[i].start == s.next
    ensures RoverAt(g, s, i) && OnBlock(g, s, i)
  {
  }

  /** free keeps track of the rover. When it leaves a block, the word under it is the header of a free block
      that ends where the merged block ends. */
  lemma FreeKeepsRover(order: RoverOrder, g: Layout, s: HeapState, i: nat, r: nat, s': HeapState) returns (r': nat)
    requires ValidState(g, s) && RoverAt(g, s, r) && i < |s.blocks| && s.blocks[i].used
    requires s' == HeapState(Free(s.blocks, i), RoverAfterFree(NextFit, order, s.blocks, i, s.next),
                             FreedWords(g, s.words, s.blocks, i))
    ensures RoverAt(g, s', r')
    ensures OnBlock(g, s, r) ==> OnBlock(g, s', r') || OneStale(g, s', r')
  {
    hide Tiles, Tagged, NoAdjacentFree, Represents, Marked, CoalescedWords, RoverAt, OnBlock, OneStale, Preserves,
         Merges, RoverAfterCoalesce, Coalesce, Release;
    var bs := s.blocks;
    ReleasedSize(bs, i);
    RepresentsTiles(g, bs, s.words);
    ReleasedRepresents(g, bs, i, s.words);
    var s1 := HeapState(Release(bs, i), s.next, Marked(g, s.words, FreeBlock(bs[i])));
    ReleaseKeepsRover(g, s, i, r, s1);
    var s2 := HeapState(Coalesce(s1.blocks, i), RoverAfterCoalesce(NextFit, order, s1.blocks, i, s1.next),
                        CoalescedWords(g, s1.words, s1.blocks, i));
    CoalescedRepresents(g, s1.blocks, i, s1.words);
    r' := CoalesceKeepsRover(order, g, s1, i, r, s2);
    if i > 0 {
      r' := CoalesceKeepsRover(order, g, s2, i - 1, r', s');
    }
  }

  /** After such a free the only stale size is the one at the rover. */
  lemma OneStaleSize(g: Layout, s: HeapState, r: nat)
    requires OneStale(g, s, r)
    ensures InWindow(g, |s.words|, s.next) && Stale(g, s, r) == SizeAt(g, s.words, s.next)
  {
    hide HeaderLike, SizeAt, UsedAt, StartOf;
    HeaderSize(g, s.words, s.next);
    assert Largest(g, s.words, StartOf(g, s.blocks, r), StartOf(g, s.blocks, r)) == 0;
  }

  lemma OnBlockNothingStale(g: Layout, s: HeapState, r: nat)
    requires OnBlock(g, s, r)
    ensures Stale(g, s, r) == 0
  {
  }

  lemma RoverOnce(g: Layout, s: HeapState, r: nat, q: nat)
    requires Represents(g, s.words, s.blocks) && RoverAt(g, s, r) && RoverAt(g, s, q)
    ensures r == q
  {
    hide Represents, Tiles, RoverAt;
    RepresentsTiles(g, s.blocks, s.words);
    RoverResumes(g, s, r);
    RoverResumes(g, s, q);
    ResumesOnce(s.blocks, g.start, g.End(), s.next, r, q);
  }

  lemma SafeIs(g: Layout, s: HeapState, r: nat, need: nat)
    requires Represents(g, s.words, s.blocks) && RoverAt(g, s, r)
    ensures Safe(NextFit, g, s, need) <==> Stale(g, s, r) < need
  {
    hide Represents, RoverAt, Stale;
    if Safe(NextFit, g, s, need) {
      var q: nat :| RoverAt(g, s, q) && Stale(g, s, q) < need;
      RoverOnce(g, s, r, q);
    }
  }

  // ---- malloc from such a rover ----

  /** What the search meets on the chain. */
  lemma {:induction false} ChainMeets(g: Layout, words: seq<Word>, a: int, e: int, need: nat)
    requires FreeChain(g, words, a, e)
    ensures forall x | x in ChainPath(g, words, a, e) ::
              a <= x && HeaderLike(g, words, x) && x + SizeAt(g, words, x) <= e
              && SizeAt(g, words, x) <= Largest(g, words, a, e)
              && (Takes(g, words, x, need) <==> SizeAt(g, words, x) >= need)
    ensures a < e && need <= Largest(g, words, a, e) ==>
              exists x :: x in ChainPath(g, words, a, e) && Takes(g, words, x, need)
    decreases e - a
  {
    if a < e {
      hide HeaderLike, SizeAt, UsedAt;
      var b := a + SizeAt(g, words, a);
      HeaderSize(g, words, a);
      ChainMeets(g, words, b, e, need);
      ChainOrder(g, words, b, e);
      var path := ChainPath(g, words, b, e);
      assert ChainPath(g, words, a, e) == [a] + path;
      assert a in ChainPath(g, words, a, e);
      forall x | x in path ensures x in ChainPath(g, words, a, e) {}
    }
  }

  /** A walk from the end of a chain is a walk from its beginning. */
  lemma {:induction false} WalkJoins(g: Layout, words: seq<Word>, a: int, e: int, path: seq<int>)
    requires FreeChain(g, words, a, e) && Walk(g, words, e, path)
    ensures Walk(g, words, a, ChainPath(g, words, a, e) + path)
    decreases e - a
  {
    if a == e {
      assert ChainPath(g, words, a, e) + path == path;
    } else {
      hide HeaderLike, SizeAt, UsedAt;
      var b := a + SizeAt(g, words, a);
      HeaderSize(g, words, a);
      WalkJoins(g, words, b, e, path);
      assert (ChainPath(g, words, a, e) + path)[1..] == ChainPath(g, words, b, e) + path;
    }
  }

  /** The headers that next fit looks at: the stale ones, the blocks from r on, and all blocks from the first. */
  function RoverPath(g: Layout, s: HeapState, r: nat): seq<int>
    requires r <= |s.blocks|
  {
    ChainPath(g, s.words, s.next, StartOf(g, s.blocks, r)) + Starts(s.blocks[r..])
  }

  lemma WalkOfRover(g: Layout, s: HeapState, r: nat)
    requires Represents(g, s.words, s.blocks) && RoverAt(g, s, r)
    ensures Placed(g, |s.words|) && Walk(g, s.words, s.next, RoverPath(g, s, r))
    ensures Walk(g, s.words, g.start, Starts(s.blocks))
  {
    WalkOfList(g, s.words, s.blocks, r);
    WalkFromStart(g, s.words, s.blocks);
    WalkJoins(g, s.words, s.next, StartOf(g, s.blocks, r), Starts(s.blocks[r..]));
  }

  lemma {:induction false} WalkUnique(g: Layout, words: seq<Word>, a: int, path: seq<int>, path2: seq<int>)
    requires Walk(g, words, a, path) && Walk(g, words, a, path2)
    ensures path == path2
    decreases path
  {
    if path != [] {
      hide HeaderLike, SizeAt;
      WalkUnique(g, words, a + SizeAt(g, words, a), path[1..], path2[1..]);
      assert path == [a] + path[1..] && path2 == [a] + path2[1..];
    }
  }

  /** Next fit on the words has one outcome, which the path determines. */
  lemma NextFitTakesFirst(g: Layout, s: HeapState, r: nat, userSize: nat, p: int, words': seq<Word>, next': int)
    requires Represents(g, s.words, s.blocks) && RoverAt(g, s, r)
    requires NextFitOn(g, s.words, s.next, userSize, p, words', next')
    ensures TakesFirst(g, s.words, s.next, RoverPath(g, s, r) + Starts(s.blocks), userSize, p, words', next')
  {
    WalkOfRover(g, s, r);
    hide Represents, RoverAt, Walk, TakesFirst;
    var path, path2 :| Walk(g, s.words, s.next, path) && Walk(g, s.words, g.start, path2)
      && TakesFirst(g, s.words, s.next, path + path2, userSize, p, words', next');
    WalkUnique(g, s.words, s.next, path, RoverPath(g, s, r));
    WalkUnique(g, s.words, g.start, path2, Starts(s.blocks));
  }

  lemma FrontSkipped(g: Layout, words: seq<Word>, next: int, front: seq<int>, rest: seq<int>, userSize: nat,
                     p: int, words': seq<Word>, next': int)
    requires forall x | x in front :: !Takes(g, words, x, SizeToAllocate(userSize))
    requires TakesFirst(g, words, next, front + rest, userSize, p, words', next')
    ensures TakesFirst(g, words, next, rest, userSize, p, words', next')
  {
    hide Takes, HeaderLike, SizeAt, Prepared, SizeToAllocate;
    var need := SizeToAllocate(userSize);
    var i := FirstFitting(g, words, rest, need);
    FirstFittingIs(g, words, front + rest, need, |front| + i);
  }

  /** When nothing on the chain fits, the chain might as well not be there. */
  lemma ChainSkipped(g: Layout, s: HeapState, r: nat, userSize: nat, p: int, words': seq<Word>, next': int)
    requires RoverAt(g, s, r) && Stale(g, s, r) < SizeToAllocate(userSize)
    requires TakesFirst(g, s.words, s.next, RoverPath(g, s, r) + Starts(s.blocks), userSize, p, words', next')
    ensures TakesFirst(g, s.words, s.next, Starts(s.blocks[r..]) + Starts(s.blocks), userSize, p, words', next')
  {
    hide Takes, HeaderLike, SizeAt, Prepared, FreeChain, SizeToAllocate, FirstFitting, TakesFirst, ChainPath, Largest;
    var e, need := StartOf(g, s.blocks, r), SizeToAllocate(userSize);
    var front, rest := ChainPath(g, s.words, s.next, e), Starts(s.blocks[r..]) + Starts(s.blocks);
    ChainMeets(g, s.words, s.next, e, need);
    assert RoverPath(g, s, r) + Starts(s.blocks) == front + rest;
    FrontSkipped(g, s.words, s.next, front, rest, userSize, p, words', next');
  }

  lemma FoundGoingRound(bs: seq<Block>, rover: int, need: nat, r: nat, i: nat)
    requires ResumesAt(bs, rover, r) && i < |bs| && Fits(bs[i], need) && FirstFrom(bs, need, r, i)
    ensures Chosen(NextFit, bs, rover, need, i)
  {
  }

  /** Next fit on the words does to the list what the policy promises, if no stale header is large enough. */
  lemma NextFitRefines(g: Layout, s: HeapState, r: nat, userSize: nat, p: int, words': seq<Word>, next': int)
    returns (bs': seq<Block>)
    requires ValidState(g, s) && RoverAt(g, s, r) && 8 <= SizeToAllocate(userSize)
    requires Stale(g, s, r) < SizeToAllocate(userSize)
    requires TakesFirst(g, s.words, s.next, RoverPath(g, s, r) + Starts(s.blocks), userSize, p, words', next')
    ensures ValidState(g, HeapState(bs', next', words'))
    ensures MallocStep(g, NextFit, s, userSize, p, HeapState(bs', next', words'))
  {
    hide Tiles, NoAdjacentFree, MallocStep, Chosen, Tagged, Prepared, FirstFitting, Preserves, FirstFrom, Allocate,
         RoverAt, Stale;
    AllocatedSizes(userSize);
    RoverResumes(g, s, r);
    ChainSkipped(g, s, r, userSize, p, words', next');
    var bs, need, path := s.blocks, SizeToAllocate(userSize), Starts(s.blocks[r..]) + Starts(s.blocks);
    NextFitChooses(g, s.words, bs, r, need);
    var i := FirstFitting(g, s.words, path, need);
    if i == |path| {
      bs' := bs;
      MallocFails(g, NextFit, s, userSize);
    } else {
      var k := GoingRound(bs, r, i);
      bs' := Allocate(bs, k, need);
      FoundGoingRound(bs, s.next, need, r, k);
      PreparedRepresents(g, bs, k, need, s.words);
      AllocatedValid(g, bs, k, need);
      MallocTakes(g, NextFit, s, userSize, k, HeapState(bs', next', words'));
    }
  }

  // ---- exactly when the request is served from the list ----

  /** The words represent some list in which p is the payload of a block in use. */
  ghost predicate HandedOut(g: Layout, words: seq<Word>, p: int)
  {
    exists bs :: Represents(g, words, bs) && UsedPayload(bs, p)
  }

  ghost predicate UsedPayload(bs: seq<Block>, p: int)
  {
    exists b :: b in bs && b.used && b.Payload() == p
  }

  /** The header words of the blocks determine the list. */
  lemma {:induction false} HeadersDetermine(g: Layout, words: seq<Word>, bs: seq<Block>, bs': seq<Block>, lo: int)
    requires Placed(g, |words|) && Tiles(bs, lo, g.End()) && Tiles(bs', lo, g.End())
    requires forall b | b in bs + bs' :: InWindow(g, |words|, b.start) && At(g, words, b.start) == HeaderOf(b)
    ensures bs == bs'
  {
    if bs != [] && bs' != [] {
      var b, c := bs[0], bs'[0];
      assert b in bs + bs' && c in bs + bs';
      assert b == c;
      forall d | d in bs[1..] + bs'[1..] ensures d in bs + bs' {}
      HeadersDetermine(g, words, bs[1..], bs'[1..], b.End());
    } else if bs != [] {
      TilesWithin(bs[1..], bs[0].End(), g.End());
    } else if bs' != [] {
      TilesWithin(bs'[1..], bs'[0].End(), g.End());
    }
  }

  /** What next fit does with a stale header: it hands out memory inside a free block of the list. */
  ghost predicate TakesStale(g: Layout, s: HeapState, r: nat, need: nat, p: int, words': seq<Word>)
  {
    && 0 < r <= |s.blocks| && !s.blocks[r - 1].used
    && s.blocks[r - 1].start < p - HEADER_SIZE && p - HEADER_SIZE + need <= s.blocks[r - 1].End()
    && Preparable(g, s.words, p - HEADER_SIZE, need)
    && p - HEADER_SIZE + SizeAt(g, s.words, p - HEADER_SIZE) <= s.blocks[r - 1].End()
    && words' == Prepared(g, s.words, p - HEADER_SIZE, need)
  }

  lemma {:induction false} FirstFound(g: Layout, words: seq<Word>, front: seq<int>, rest: seq<int>, need: nat, x: int)
    requires x in front && Takes(g, words, x, need)
    ensures FirstFitting(g, words, front + rest, need) < |front|
  {
    hide Takes;
    var k :| 0 <= k < |front| && front[k] == x;
    assert (front + rest)[k] == x;
  }

  lemma StaleTaken(g: Layout, s: HeapState, r: nat, userSize: nat, p: int, words': seq<Word>, next': int)
    requires Represents(g, s.words, s.blocks) && RoverAt(g, s, r) && Stale(g, s, r) >= SizeToAllocate(userSize) >= 8
    requires TakesFirst(g, s.words, s.next, RoverPath(g, s, r) + Starts(s.blocks), userSize, p, words', next')
    ensures TakesStale(g, s, r, SizeToAllocate(userSize), p, words') && next' == p - HEADER_SIZE
  {
    hide Takes, HeaderLike, SizeAt, Prepared, FreeChain, SizeToAllocate, FirstFitting, ChainPath, Largest, Represents;
    var e, need := StartOf(g, s.blocks, r), SizeToAllocate(userSize);
    var front, rest := ChainPath(g, s.words, s.next, e), Starts(s.blocks[r..]) + Starts(s.blocks);
    StartsOf(g, s.blocks, s.words, r);
    ChainMeets(g, s.words, s.next, e, need);
    NotEmptyChain(g, s.words, s.next, e);
    var x :| x in front && Takes(g, s.words, x, need);
    FirstFound(g, s.words, front, rest, need, x);
    assert RoverPath(g, s, r) + Starts(s.blocks) == front + rest;
    var y := (front + rest)[FirstFitting(g, s.words, front + rest, need)];
    assert y in front;
  }

  lemma NotEmptyChain(g: Layout, words: seq<Word>, a: int, e: int)
    requires Largest(g, words, a, e) > 0
    ensures a < e
  {
  }

  /** The tags that malloc writes at a lie between a and the end that the header there names. */
  lemma PreparedElsewhere(g: Layout, words: seq<Word>, a: int, need: nat, x: int)
    requires Preparable(g, words, a, need) && InWindow(g, |words|, x) && x % 8 == 4
    requires x < a || a + SizeAt(g, words, a) <= x
    ensures |Prepared(g, words, a, need)| == |words|
    ensures At(g, Prepared(g, words, a, need), x) == At(g, words, x)
  {
    var size := SizeAt(g, words, a);
    if Splits(size, need) {
      var rest, taken := Block(a + need, size - need, false), Block(a, need, true);
      InsideSplit(g, Block(a, size, true), need);
      hide SizeAt, Splits;
      OtherWord(g, words, rest, x);
      OtherWord(g, PutTags(g, words, rest), taken, x);
    } else {
      hide SizeAt, Splits;
      OtherWord(g, words, Block(a, size, true), x);
    }
  }

  lemma OtherWord(g: Layout, words: seq<Word>, b: Block, x: int)
    requires Placed(g, |words|) && Inside(g, b) && InWindow(g, |words|, x) && x % 8 == 4 && x != b.start
    ensures At(g, PutTags(g, words, b), x) == At(g, words, x)
  {
    FooterPlace(g, b);
    TagsInWindow(g, |words|, b);
  }

  /** Listed headers are not among those that malloc overwrites when it takes a stale one. */
  lemma ListedKept(g: Layout, s: HeapState, r: nat, need: nat, p: int, words': seq<Word>, i: nat)
    requires Represents(g, s.words, s.blocks) && TakesStale(g, s, r, need, p, words') && i < |s.blocks|
    ensures |words'| == |s.words| && InWindow(g, |words'|, s.blocks[i].start)
    ensures At(g, words', s.blocks[i].start) == HeaderOf(s.blocks[i])
  {
    var bs := s.blocks;
    assert Tagged(g, s.words, bs[i]);
    RepresentsTiles(g, bs, s.words);
    hide Represents, Tiles, Prepared, HeaderLike, SizeAt;
    FooterPlace(g, bs[i]);
    if i < r - 1 { StartsOrdered(bs, g.start, g.End(), i, r - 1); }
    if r - 1 < i { StartsOrdered(bs, g.start, g.End(), r - 1, i); }
    PreparedElsewhere(g, s.words, p - HEADER_SIZE, need, bs[i].start);
  }

  /** After a stale header was taken, no list that the words may represent has the memory handed out in use. */
  lemma StaleNotHandedOut(g: Layout, s: HeapState, r: nat, need: nat, p: int, words': seq<Word>)
    requires Represents(g, s.words, s.blocks) && TakesStale(g, s, r, need, p, words')
    ensures !HandedOut(g, words', p)
  {
    hide TakesStale, Tiles;
    if HandedOut(g, words', p) {
      var bs := s.blocks;
      var bs' :| Represents(g, words', bs') && UsedPayload(bs', p);
      forall b: Block | b in bs + bs' ensures InWindow(g, |words'|, b.start) && At(g, words', b.start) == HeaderOf(b) {
        if b in bs {
          var i :| 0 <= i < |bs| && bs[i] == b;
          ListedKept(g, s, r, need, p, words', i);
        } else {
          assert Tagged(g, words', b);
        }
      }
      HeadersDetermine(g, words', bs, bs', g.start);
      StaleNotListed(g, s, r, need, p, words');
    }
  }

  lemma StaleNotListed(g: Layout, s: HeapState, r: nat, need: nat, p: int, words': seq<Word>)
    requires Represents(g, s.words, s.blocks) && TakesStale(g, s, r, need, p, words')
    ensures !UsedPayload(s.blocks, p)
  {
    RepresentsTiles(g, s.blocks, s.words);
    hide Represents, Tiles;
    forall i | 0 <= i < |s.blocks| ensures s.blocks[i].Payload() != p {
      if i < r - 1 { StartsOrdered(s.blocks, g.start, g.End(), i, r - 1); }
      if r - 1 < i { StartsOrdered(s.blocks, g.start, g.End(), r - 1, i); }
    }
  }

  lemma AllocatedUsed(bs: seq<Block>, i: nat, need: nat)
    requires i < |bs|
    ensures UsedPayload(Allocate(bs, i, need), bs[i].Payload())
  {
    assert Allocate(bs, i, need)[i].used && Allocate(bs, i, need)[i] in Allocate(bs, i, need);
  }

  lemma StepHandsOut(g: Layout, s: HeapState, userSize: nat, p: int, s': HeapState)
    requires ValidState(g, s) && 8 <= SizeToAllocate(userSize) && MallocStep(g, NextFit, s, userSize, p, s')
    ensures p == NULL || HandedOut(g, s'.words, p)
  {
    hide Tiles, NoAdjacentFree, MallocStep, Chosen, Tagged, Allocate;
    var i := MallocTaken(g, NextFit, s, userSize, p, s');
    if i < |s.blocks| { AllocatedUsed(s.blocks, i, SizeToAllocate(userSize)); }
  }

  /** Wherever a free has left the rover: next fit returns NULL, or a block that is in use from then on, if and only
      if the request is larger than every stale header. Then it does what the policy promises. Otherwise the memory
      it hands out lies inside a block that the heap still has as free. */
  lemma NextFitSafeIff(g: Layout, s: HeapState, r: nat, userSize: nat, p: int, words': seq<Word>, next': int)
    requires ValidState(g, s) && RoverAt(g, s, r) && 8 <= SizeToAllocate(userSize)
    requires NextFitOn(g, s.words, s.next, userSize, p, words', next')
    ensures p == NULL || HandedOut(g, words', p) <==> Stale(g, s, r) < SizeToAllocate(userSize)
    ensures Stale(g, s, r) < SizeToAllocate(userSize) ==>
              exists bs' :: ValidState(g, HeapState(bs', next', words'))
                            && MallocStep(g, NextFit, s, userSize, p, HeapState(bs', next', words'))
    ensures SizeToAllocate(userSize) <= Stale(g, s, r) ==>
              TakesStale(g, s, r, SizeToAllocate(userSize), p, words') && next' == p - HEADER_SIZE && p != NULL
  {
    hide Tiles, NoAdjacentFree, MallocStep, NextFitOn, TakesFirst, TakesStale, RoverAt, Stale, HandedOut,
         SizeToAllocate;
    NextFitTakesFirst(g, s, r, userSize, p, words', next');
    if Stale(g, s, r) < SizeToAllocate(userSize) {
      var bs' := NextFitRefines(g, s, r, userSize, p, words', next');
      StepHandsOut(g, s, userSize, p, HeapState(bs', next', words'));
    } else {
      StaleTaken(g, s, r, userSize, p, words', next');
      StaleNotHandedOut(g, s, r, SizeToAllocate(userSize), p, words');
      StaleNotNull(g, s, r, SizeToAllocate(userSize), p, words');
    }
  }

  lemma StaleNotNull(g: Layout, s: HeapState, r: nat, need: nat, p: int, words': seq<Word>)
    requires TakesStale(g, s, r, need, p, words')
    ensures p != NULL
  {
    HeaderSize(g, s.words, p - HEADER_SIZE);
  }
}
