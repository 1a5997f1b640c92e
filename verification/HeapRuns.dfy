/** Whole runs of the allocator: any sequence of mallocs, frees of live pointers and stores into live payloads. */
module HeapRuns {
  import opened Bits
  import opened HeapBlocks
  import opened HeapWords
  import opened HeapSteps
  import opened HeapStale

  datatype Config = Config(g: Layout, alg: SearchAlg, order: RoverOrder)

  datatype Event =
    | Malloc(userSize: nat, p: int)
    | Free(p: int)
    | Store(p: int, a: int, w: Word)

  /** What the user knows: the live pointers with the sizes asked for, and the words stored through each. */
  datatype World = World(s: HeapState, live: map<int, nat>, stored: map<(int, int), Word>)

  ghost predicate Init(c: Config, w: World)
  {
    && Represents(c.g, w.s.words, w.s.blocks)
    && w.s.blocks == [Block(c.g.start, c.g.size, false)] && w.s.next == c.g.start
    && w.live == map[] && w.stored == map[]
  }

  ghost predicate Step(c: Config, w: World, e: Event, w': World)
  {
    match e
    case Malloc(userSize, p) =>
      && userSize <= U32_LIMIT - 16 && Safe(c.alg, c.g, w.s, SizeToAllocate(userSize))
      && MallocStep(c.g, c.alg, w.s, userSize, p, w'.s)
      && w'.live == (if p == NULL then w.live else w.live[p := userSize])
      && w'.stored == w.stored
    case Free(p) =>
      && p in w.live
      && FreeStep(c.g, c.alg, c.order, w.s, p, w'.s)
      && w'.live == w.live - {p}
      && w'.stored == map k | k in w.stored && k.0 != p :: w.stored[k]
    case Store(p, a, v) =>
      && p in w.live && p <= a && a + 4 <= p + w.live[p] && InWindow(c.g, |w.s.words|, a)
      && w'.s == w.s.(words := w.s.words[Index(c.g, |w.s.words|, a) := v])
      && w'.live == w.live
      && w'.stored == w.stored[(p, a) := v]
  }

  ghost predicate IsRun(c: Config, ws: seq<World>, es: seq<Event>)
  {
    && |ws| == |es| + 1
    && Init(c, ws[0])
    && forall k, l | 0 <= k < |es| && l == k + 1 :: Step(c, ws[k], es[k], ws[l])
  }

  // ---- the invariant of all runs ----

  /** Block b serves a request of userSize bytes: large enough, but not wasteful. */
  predicate Serves(b: Block, userSize: nat)
  {
    && userSize <= U32_LIMIT - 16
    && SizeToAllocate(userSize) <= b.size <= SizeToAllocate(userSize) + MAX_UNUSED_BYTES
    && b.size <= 2 * SizeToAllocate(userSize)
  }

  ghost predicate Served(w: World, p: int)
    requires p in w.live
  {
    exists b :: b in UsedBlocks(w.s.blocks) && b.Payload() == p && Serves(b, w.live[p])
  }

  ghost predicate Kept(c: Config, w: World, k: (int, int))
    requires k in w.stored
  {
    && k.0 in w.live && k.0 <= k.1 && k.1 + 4 <= k.0 + w.live[k.0]
    && InWindow(c.g, |w.s.words|, k.1) && At(c.g, w.s.words, k.1) == w.stored[k]
  }

  ghost predicate Inv(c: Config, w: World)
  {
    && ValidState(c.g, w.s)
    && (forall b | b in UsedBlocks(w.s.blocks) :: b.Payload() in w.live)
    && (forall p | p in w.live :: Served(w, p))
    && (forall k | k in w.stored :: Kept(c, w, k))
  }

  lemma InitInv(c: Config, w: World)
    requires Init(c, w)
    ensures Inv(c, w) && RoverOk(c.alg, w.s)
  {
    assert w.s.blocks[0].start == c.g.start;
  }

  /** Used blocks with the same payload are the same block. */
  lemma PayloadUnique(bs: seq<Block>, lo: int, hi: int, b: Block, d: Block)
    requires Tiles(bs, lo, hi) && b in bs && d in bs && b.Payload() == d.Payload()
    ensures b == d
  {
    if b != d {
      var i :| 0 <= i < |bs| && bs[i] == b;
      var j :| 0 <= j < |bs| && bs[j] == d;
      StartsDistinct(bs, lo, hi, i, j);
    }
  }

  lemma ListedInside(c: Config, w: World, b: Block)
    requires Inv(c, w) && b in w.s.blocks
    ensures c.g.start <= b.start && b.End() <= c.g.End() && b.Payload() % 8 == 0
  {
    hide Tiles, NoAdjacentFree, UsedBlocks, Served, Kept;
    assert Tagged(c.g, w.s.words, b);
    PayloadAligned(c.g, |w.s.words|, b);
  }

  lemma PayloadAligned(g: Layout, length: nat, b: Block)
    requires Placed(g, length) && Inside(g, b)
    ensures b.Payload() % 8 == 0
  {
    Remainder(b.start, 8, b.start / 8, 4);
    Remainder(b.Payload(), 8, b.start / 8 + 1, 0);
  }

  /** The block behind a live pointer. */
  lemma LiveBlock(c: Config, w: World, p: int) returns (b: Block)
    requires Inv(c, w) && p in w.live
    ensures b in w.s.blocks && b.used && b.Payload() == p && Serves(b, w.live[p])
    ensures w.live[p] + 8 <= b.size && c.g.start <= b.start && b.End() <= c.g.End() && p % 8 == 0
    ensures b.size <= SizeToAllocate(w.live[p]) + 128 && b.size <= 2 * SizeToAllocate(w.live[p])
  {
    hide Tiles, NoAdjacentFree, Kept, SizeToAllocate, UsedBlocks, ValidState;
    assert Served(w, p);
    UsedAreListed(w.s.blocks);
    b :| b in UsedBlocks(w.s.blocks) && b.Payload() == p && Serves(b, w.live[p]);
    SizeToAllocateEnough(w.live[p]);
    ListedInside(c, w, b);
  }

  lemma UsedAreListed(bs: seq<Block>)
    ensures forall b | b in UsedBlocks(bs) :: b in bs && b.used
  {
  }

  lemma CarveServes(b: Block, userSize: nat)
    requires LegalBlock(b) && b.size < U32_LIMIT / 2 && userSize <= U32_LIMIT - 16 && SizeToAllocate(userSize) <= b.size
    ensures Serves(Carve(b, SizeToAllocate(userSize))[0], userSize)
    ensures Carve(b, SizeToAllocate(userSize))[0].start == b.start && Carve(b, SizeToAllocate(userSize))[0].used
  {
    SizeToAllocateEnough(userSize);
  }

  /** Words stored through live pointers survive a step that preserves the blocks of those pointers. */
  lemma StoredKept(c: Config, w: World, w': World, keep: set<Block>, k: (int, int))
    requires Inv(c, w) && k in w.stored && k in w'.stored && w'.stored[k] == w.stored[k]
    requires k.0 in w'.live && w'.live[k.0] == w.live[k.0]
    requires Preserves(c.g, keep, w.s.words, w'.s.words)
    requires forall b | b in UsedBlocks(w.s.blocks) && b.Payload() == k.0 :: b in keep
    ensures Kept(c, w', k)
  {
    assert Kept(c, w, k);
    var b := LiveBlock(c, w, k.0);
    assert b.start <= k.1 < b.End();
  }

  lemma KeptOf(c: Config, w: World, k: (int, int))
    requires Inv(c, w) && k in w.stored
    ensures k.0 in w.live
  {
    assert Kept(c, w, k);
  }

  lemma MallocInv(c: Config, w: World, userSize: nat, p: int, w': World)
    requires Inv(c, w) && Step(c, w, Malloc(userSize, p), w')
    ensures Inv(c, w')
  {
    hide Tiles, NoAdjacentFree, Kept, Serves, Preserves, UsedBlocks, Carve, Served, MallocStep, Chosen, Allocate, Safe;
    var bs, need := w.s.blocks, SizeToAllocate(userSize);
    SizeToAllocateEnough(userSize);
    var i := MallocTaken(c.g, c.alg, w.s, userSize, p, w'.s);
    if i < |bs| {
      var lo, hi := c.g.start, c.g.End();
      BlockBounds(bs, lo, hi, i);
      ChosenFits(c.alg, bs, w.s.next, need, i);
      AllocateKeeps(bs, lo, hi, i, need);
      CarveServes(bs[i], userSize);
      MallocKeepsServed(c, w, i, userSize, w');
      forall k | k in w'.stored ensures Kept(c, w', k) {
        KeptOf(c, w, k);
        NotYetLive(c, w, i);
        UsedAreListed(bs);
        StoredKept(c, w, w', UsedBlocks(bs), k);
      }
    }
  }

  /** A free block's payload is no live pointer. */
  lemma NotYetLive(c: Config, w: World, i: nat)
    requires Inv(c, w) && i < |w.s.blocks| && !w.s.blocks[i].used
    ensures w.s.blocks[i].Payload() !in w.live
  {
    var p := w.s.blocks[i].Payload();
    if p in w.live {
      var b := LiveBlock(c, w, p);
      PayloadUnique(w.s.blocks, c.g.start, c.g.End(), b, w.s.blocks[i]);
    }
  }

  lemma MallocKeepsServed(c: Config, w: World, i: nat, userSize: nat, w': World)
    requires Inv(c, w) && i < |w.s.blocks| && !w.s.blocks[i].used
    requires var taken := Carve(w.s.blocks[i], SizeToAllocate(userSize))[0];
             && UsedBlocks(w'.s.blocks) == UsedBlocks(w.s.blocks) + {taken}
             && Serves(taken, userSize) && taken.start == w.s.blocks[i].start
    requires w'.live == w.live[w.s.blocks[i].Payload() := userSize]
    ensures forall b | b in UsedBlocks(w'.s.blocks) :: b.Payload() in w'.live
    ensures forall p | p in w'.live :: Served(w', p)
  {
    NotYetLive(c, w, i);
    forall p | p in w'.live ensures Served(w', p) {
      var b := Carve(w.s.blocks[i], SizeToAllocate(userSize))[0];
      if p == b.Payload() {
        assert b in UsedBlocks(w'.s.blocks);
      } else {
        b := LiveBlock(c, w, p);
        assert b in UsedBlocks(w'.s.blocks);
      }
    }
  }

  lemma FreeInv(c: Config, w: World, p: int, w': World)
    requires Inv(c, w) && Step(c, w, Free(p), w')
    ensures Inv(c, w')
  {
    hide Tiles, NoAdjacentFree, FreeStep, Kept, Served, FreedWords, Tagged, Preserves, HeapBlocks.Free;
    var bs := w.s.blocks;
    var i := FreeReleases(c.g, c.alg, c.order, w.s, p, w'.s);
    FreeKeeps(bs, c.g.start, c.g.End(), i);
    FreeReleasesOne(bs, c.g.start, c.g.End(), i);
    FreeKeepsServed(c, w, i, w');
    FreeKeepsStored(c, w, i, w');
  }

  lemma FreeKeepsStored(c: Config, w: World, i: nat, w': World)
    requires Inv(c, w) && i < |w.s.blocks|
    requires Preserves(c.g, UsedBlocks(w.s.blocks) - {w.s.blocks[i]}, w.s.words, w'.s.words)
    requires w'.live == w.live - {w.s.blocks[i].Payload()}
    requires forall k | k in w'.stored :: k in w.stored && k.0 != w.s.blocks[i].Payload() && w'.stored[k] == w.stored[k]
    ensures forall k | k in w'.stored :: Kept(c, w', k)
  {
    hide Inv, Preserves, Kept, UsedBlocks;
    forall k | k in w'.stored ensures Kept(c, w', k) {
      KeptOf(c, w, k);
      StoredKept(c, w, w', UsedBlocks(w.s.blocks) - {w.s.blocks[i]}, k);
    }
  }

  lemma FreeKeepsServed(c: Config, w: World, i: nat, w': World)
    requires Inv(c, w) && i < |w.s.blocks| && w.s.blocks[i].used
    requires UsedBlocks(w'.s.blocks) == UsedBlocks(w.s.blocks) - {w.s.blocks[i]}
    requires w'.live == w.live - {w.s.blocks[i].Payload()}
    ensures forall b | b in UsedBlocks(w'.s.blocks) :: b.Payload() in w'.live
    ensures forall p | p in w'.live :: Served(w', p)
  {
    forall b | b in UsedBlocks(w'.s.blocks) ensures b.Payload() in w'.live {
      if b.Payload() == w.s.blocks[i].Payload() {
        PayloadUnique(w.s.blocks, c.g.start, c.g.End(), b, w.s.blocks[i]);
      }
    }
    forall p | p in w'.live ensures Served(w', p) {
      var b := LiveBlock(c, w, p);
      assert b in UsedBlocks(w'.s.blocks);
    }
  }

  /** A store through a live pointer touches no header and no other live payload. */
  lemma StoreInv(c: Config, w: World, p: int, a: int, v: Word, w': World)
    requires Inv(c, w) && Step(c, w, Store(p, a, v), w')
    ensures Inv(c, w')
  {
    hide Tiles, NoAdjacentFree, Represents, Serves;
    StoreKeepsTags(c, w, p, a, v, w');
    forall q | q in w'.live ensures Served(w', q) { assert Served(w, q); }
    forall k | k in w'.stored ensures Kept(c, w', k) {
      if k != (p, a) {
        assert Kept(c, w, k);
        if k.0 == p { assert k.1 != a; } else { LiveDisjoint(c, w, p, k.0); }
      }
    }
  }

  lemma StoreKeepsTags(c: Config, w: World, p: int, a: int, v: Word, w': World)
    requires Inv(c, w) && Step(c, w, Store(p, a, v), w')
    ensures Represents(c.g, w'.s.words, w'.s.blocks)
  {
    var b := LiveBlock(c, w, p);
    forall d | d in w.s.blocks ensures Tagged(c.g, w'.s.words, d) {
      assert Tagged(c.g, w.s.words, d);
      TagsInWindow(c.g, |w.s.words|, d);
      if d != b { BlocksDisjoint(w.s.blocks, c.g.start, c.g.End(), b, d); }
    }
  }

  // ---- what holds in every reachable world ----

  lemma StepInv(c: Config, w: World, e: Event, w': World)
    requires Inv(c, w) && Step(c, w, e, w')
    ensures Inv(c, w')
  {
    hide Inv, Step;
    match e
    case Malloc(userSize, p) => MallocInv(c, w, userSize, p, w');
    case Free(p) => FreeInv(c, w, p, w');
    case Store(p, a, v) => StoreInv(c, w, p, a, v, w');
  }

  lemma {:induction false} RunInv(c: Config, ws: seq<World>, es: seq<Event>, k: nat)
    requires IsRun(c, ws, es) && k < |ws|
    ensures Inv(c, ws[k])
  {
    hide Inv, Step, Init;
    if k == 0 {
      InitInv(c, ws[0]);
    } else {
      RunInv(c, ws, es, k - 1);
      assert Step(c, ws[k - 1], es[k - 1], ws[k]);
      StepInv(c, ws[k - 1], es[k - 1], ws[k]);
    }
  }

  /** Live payloads are aligned and inside the heap, between their own headers. */
  lemma LiveInside(c: Config, w: World, p: int)
    requires Inv(c, w) && p in w.live
    ensures p % PAYLOAD_ALIGN == 0
    ensures c.g.start + HEADER_SIZE <= p && p + w.live[p] <= c.g.End() - HEADER_SIZE
  {
    var _ := LiveBlock(c, w, p);
  }

  /** Two live payloads are at least a footer and a header apart. */
  lemma LiveDisjoint(c: Config, w: World, p: int, q: int)
    requires Inv(c, w) && p in w.live && q in w.live && p != q
    ensures p + w.live[p] + 2 * HEADER_SIZE <= q || q + w.live[q] + 2 * HEADER_SIZE <= p
  {
    var b := LiveBlock(c, w, p);
    var d := LiveBlock(c, w, q);
    BlocksDisjoint(w.s.blocks, c.g.start, c.g.End(), b, d);
  }

  /** Memory safety of every run: live payloads are aligned, inside the heap and apart, and every word
      stored through a live pointer is still there. */
  lemma RunsAreSafe(c: Config, ws: seq<World>, es: seq<Event>, k: nat)
    requires IsRun(c, ws, es) && k < |ws|
    ensures forall p | p in ws[k].live ::
              p % 8 == 0 && c.g.start + 4 <= p && p + ws[k].live[p] <= c.g.End() - 4
    ensures forall p, q | p in ws[k].live && q in ws[k].live && p != q ::
              p + ws[k].live[p] <= q || q + ws[k].live[q] <= p
    ensures forall x | x in ws[k].stored :: InWindow(c.g, |ws[k].s.words|, x.1)
                                            && At(c.g, ws[k].s.words, x.1) == ws[k].stored[x]
  {
    var w := ws[k];
    RunInv(c, ws, es, k);
    forall p | p in w.live
      ensures p % 8 == 0 && c.g.start + 4 <= p && p + w.live[p] <= c.g.End() - 4
    {
      LiveInside(c, w, p);
    }
    forall p, q | p in w.live && q in w.live && p != q
      ensures p + w.live[p] <= q || q + w.live[q] <= p
    {
      LiveDisjoint(c, w, p, q);
    }
    forall x | x in w.stored ensures Kept(c, w, x) {}
  }

  /** The blocks always add up to the whole heap, and no two free neighbours are left unmerged. */
  lemma RunsTile(c: Config, ws: seq<World>, es: seq<Event>, k: nat)
    requires IsRun(c, ws, es) && k < |ws|
    ensures Represents(c.g, ws[k].s.words, ws[k].s.blocks) && NoAdjacentFree(ws[k].s.blocks)
    ensures TotalSize(ws[k].s.blocks) == c.g.size
  {
    RunInv(c, ws, es, k);
    SizesAddUp(ws[k].s.blocks, c.g.start, c.g.End());
  }

  /** Once everything is freed, in whatever order and after whatever splits, one free block is left. */
  lemma FreeingAllRestores(c: Config, ws: seq<World>, es: seq<Event>, k: nat)
    requires IsRun(c, ws, es) && k < |ws| && ws[k].live == map[]
    ensures ws[k].s.blocks == ws[0].s.blocks
  {
    RunInv(c, ws, es, k);
    assert UsedBlocks(ws[k].s.blocks) == {};
    AllFreeIsOneBlock(ws[k].s.blocks, c.g.start, c.g.End());
  }

  /** malloc returns NULL exactly when no free block is large enough. */
  lemma NullIffNothingFits(c: Config, w: World, userSize: nat, p: int, w': World)
    requires Inv(c, w) && Step(c, w, Malloc(userSize, p), w')
    ensures p == NULL <==> NoneFits(w.s.blocks, SizeToAllocate(userSize), 0, |w.s.blocks|)
  {
    hide MallocStep;
    var bs := w.s.blocks;
    SizeToAllocateEnough(userSize);
    var i := MallocTaken(c.g, c.alg, w.s, userSize, p, w'.s);
    if i < |bs| { BlockBounds(bs, c.g.start, c.g.End(), i); }
  }

  // ---- the rover over whole runs ----

  /** malloc brings the rover back to a block, or finds nothing and leaves it where it is. */
  lemma MallocKeepsRover(c: Config, w: World, userSize: nat, p: int, w': World)
    requires Inv(c, w) && Step(c, w, Malloc(userSize, p), w')
    ensures if p == NULL then w'.s == w.s else RoverOk(c.alg, w'.s)
  {
    hide MallocStep, Chosen, Tiles, NoAdjacentFree;
    SizeToAllocateEnough(userSize);
    var i := MallocTaken(c.g, c.alg, w.s, userSize, p, w'.s);
    if i < |w.s.blocks| {
      BlockBounds(w.s.blocks, c.g.start, c.g.End(), i);
      assert c.alg == NextFit ==> w'.s.blocks[i].start == w'.s.next;
    }
  }

  /** With the intended order of coalesce, or under first or best fit, malloc always finds a sound rover. */
  lemma {:induction false} RoverNeverLost(c: Config, ws: seq<World>, es: seq<Event>, k: nat)
    requires IsRun(c, ws, es) && k < |ws| && (c.order == AsIntended || c.alg != NextFit)
    ensures RoverOk(c.alg, ws[k].s)
  {
    if k == 0 {
      InitInv(c, ws[0]);
    } else {
      RoverNeverLost(c, ws, es, k - 1);
      RunInv(c, ws, es, k - 1);
      var w, w' := ws[k - 1], ws[k];
      assert Step(c, w, es[k - 1], w');
      match es[k - 1]
      case Malloc(userSize, p) => MallocKeepsRover(c, w, userSize, p, w');
      case Free(p) => FreeRover(c, w, p, w');
      case Store(_, _, _) =>
    }
  }

  /** There no request finds a stale header. */
  lemma NothingStale(c: Config, ws: seq<World>, es: seq<Event>, k: nat, need: nat)
    requires IsRun(c, ws, es) && k < |ws| && (c.order == AsIntended || c.alg != NextFit) && need > 0
    ensures Safe(c.alg, c.g, ws[k].s, need)
  {
    RoverNeverLost(c, ws, es, k);
    if c.alg == NextFit {
      var s := ws[k].s;
      var r: nat :| r < |s.blocks| && s.blocks[r].start == s.next;
      OnBlockIs(c.g, s, r);
      OnBlockNothingStale(c.g, s, r);
    }
  }

  /** free keeps the rover on a block, except in the three situations that the written order gets wrong. */
  lemma FreeRover(c: Config, w: World, p: int, w': World)
    requires Inv(c, w) && RoverOk(c.alg, w.s) && Step(c, w, Free(p), w')
    ensures RoverOk(c.alg, w'.s) <==>
            !(c.alg == NextFit && c.order == AsWritten &&
              exists i :: 0 <= i < |w.s.blocks| && w.s.blocks[i].Payload() == p && RoverLost(w.s.blocks, i, w.s.next))
  {
    hide FreeStep, FreedWords, HeapBlocks.Free, Tiles, NoAdjacentFree;
    var bs := w.s.blocks;
    var i := FreeReleases(c.g, c.alg, c.order, w.s, p, w'.s);
    if c.alg == NextFit {
      RoverFreed(c.order, bs, c.g.start, c.g.End(), i, w.s.next);
      forall j | 0 <= j < |bs| && bs[j].Payload() == p ensures j == i {
        StartsDistinct(bs, c.g.start, c.g.End(), i, j);
      }
    }
  }

  // ---- next fit as written, over whole runs ----

  lemma StoreKeepsRover(c: Config, w: World, p: int, a: int, v: Word, r: nat, w': World)
    requires Inv(c, w) && Step(c, w, Store(p, a, v), w') && RoverAt(c.g, w.s, r)
    ensures RoverAt(c.g, w'.s, r)
  {
    var bs, e := w.s.blocks, StartOf(c.g, w.s.blocks, r);
    StartsOf(c.g, bs, w.s.words, r);
    hide Tiles, NoAdjacentFree, Served, Kept, HeaderLike, UsedAt, SizeAt;
    ChainOrder(c.g, w.s.words, w.s.next, e);
    if w.s.next < e {
      var b := LiveBlock(c, w, p);
      BlocksDisjoint(bs, c.g.start, c.g.End(), b, bs[r - 1]);
      assert SameHeaders(w.s.words, w'.s.words, c.g, w.s.next, e);
      ChainKept(c.g, w.s.words, w'.s.words, w.s.next, e);
    }
  }

  lemma FreeTracks(c: Config, w: World, p: int, w': World)
    requires Inv(c, w) && Step(c, w, Free(p), w') && Tracked(c.alg, c.g, w.s)
    ensures Tracked(c.alg, c.g, w'.s)
  {
    hide FreeStep, FreedWords, HeapBlocks.Free, Tiles, NoAdjacentFree, RoverAt, Served, Kept;
    if c.alg == NextFit {
      var i := FreeReleases(c.g, c.alg, c.order, w.s, p, w'.s);
      var r: nat :| RoverAt(c.g, w.s, r);
      var r' := FreeKeepsRover(c.order, c.g, w.s, i, r, w'.s);
    }
  }

  lemma OkIsTracked(alg: SearchAlg, g: Layout, s: HeapState)
    requires RoverOk(alg, s)
    ensures Tracked(alg, g, s)
  {
    if alg == NextFit {
      var r: nat :| r < |s.blocks| && s.blocks[r].start == s.next;
      OnBlockIs(g, s, r);
    }
  }

  /** In every run the rover is on a block, or stale headers of free blocks lead from it to the end of the free
      block it is in. */
  lemma {:induction false} RoverTracked(c: Config, ws: seq<World>, es: seq<Event>, k: nat)
    requires IsRun(c, ws, es) && k < |ws|
    ensures Tracked(c.alg, c.g, ws[k].s)
  {
    if k == 0 {
      InitInv(c, ws[0]);
      OkIsTracked(c.alg, c.g, ws[0].s);
    } else {
      hide Inv, RoverAt, MallocStep, FreeStep;
      RoverTracked(c, ws, es, k - 1);
      RunInv(c, ws, es, k - 1);
      var w, w' := ws[k - 1], ws[k];
      assert Step(c, w, es[k - 1], w');
      match es[k - 1] {
        case Malloc(userSize, p) =>
          MallocKeepsRover(c, w, userSize, p, w');
          if p != NULL { OkIsTracked(c.alg, c.g, w'.s); }
        case Free(p) =>
          FreeTracks(c, w, p, w');
        case Store(p, a, v) =>
          if c.alg == NextFit {
            var r: nat :| RoverAt(c.g, w.s, r);
            StoreKeepsRover(c, w, p, a, v, r, w');
          }
      }
    }
  }

  /** In every run of next fit, in either order: whatever malloc does on the words next, it is NULL or a block in use
      from then on if and only if no stale header is as large as the request, and then it is a step of the run. */
  lemma NextMallocSafeIff(c: Config, ws: seq<World>, es: seq<Event>, k: nat, userSize: nat,
                          p: int, words': seq<Word>, next': int)
    requires IsRun(c, ws, es) && k < |ws| && c.alg == NextFit && userSize <= U32_LIMIT - 16
    requires NextFitOn(c.g, ws[k].s.words, ws[k].s.next, userSize, p, words', next')
    ensures p == NULL || HandedOut(c.g, words', p) <==> Safe(NextFit, c.g, ws[k].s, SizeToAllocate(userSize))
    ensures Safe(NextFit, c.g, ws[k].s, SizeToAllocate(userSize)) ==>
              exists w' :: Step(c, ws[k], Malloc(userSize, p), w') && w'.s.words == words' && w'.s.next == next'
    ensures !Safe(NextFit, c.g, ws[k].s, SizeToAllocate(userSize)) ==>
              exists b :: b in ws[k].s.blocks && !b.used
                          && b.start < p - HEADER_SIZE && p - HEADER_SIZE + SizeToAllocate(userSize) <= b.End()
  {
    hide Inv, RoverAt, MallocStep, NextFitOn, HandedOut, Stale, IsRun, SizeToAllocate, Prepared, Tiles, NoAdjacentFree;
    var w, s, need := ws[k], ws[k].s, SizeToAllocate(userSize);
    RunInv(c, ws, es, k);
    assert ValidState(c.g, s) by { InvState(c, w); }
    RoverTracked(c, ws, es, k);
    var r: nat :| RoverAt(c.g, s, r);
    SizeToAllocateEnough(userSize);
    NextFitSafeIff(c.g, s, r, userSize, p, words', next');
    SafeIs(c.g, s, r, need);
    if Stale(c.g, s, r) < need {
      var bs' :| ValidState(c.g, HeapState(bs', next', words'))
                 && MallocStep(c.g, NextFit, s, userSize, p, HeapState(bs', next', words'));
      var w' := World(HeapState(bs', next', words'), if p == NULL then w.live else w.live[p := userSize], w.stored);
      assert Step(c, w, Malloc(userSize, p), w');
    } else {
      assert s.blocks[r - 1] in s.blocks;
    }
  }

  lemma InvState(c: Config, w: World)
    requires Inv(c, w)
    ensures ValidState(c.g, w.s)
  {
  }

  /** Right after the free that loses the rover, the test is to compare the request with the header at h->next. */
  lemma AfterLosingFree(c: Config, w: World, p: int, w': World, need: nat)
    requires Inv(c, w) && RoverOk(c.alg, w.s) && Step(c, w, Free(p), w') && !RoverOk(c.alg, w'.s)
    ensures InWindow(c.g, |w'.s.words|, w'.s.next)
    ensures Safe(c.alg, c.g, w'.s, need) <==> SizeAt(c.g, w'.s.words, w'.s.next) < need
  {
    hide FreeStep, FreedWords, HeapBlocks.Free, Tiles, NoAdjacentFree, RoverAt, Served, Kept, OnBlock, OneStale, SizeAt;
    var i := FreeReleases(c.g, c.alg, c.order, w.s, p, w'.s);
    var r: nat :| r < |w.s.blocks| && w.s.blocks[r].start == w.s.next;
    OnBlockIs(c.g, w.s, r);
    var r' := FreeKeepsRover(c.order, c.g, w.s, i, r, w'.s);
    RoverResumes(c.g, w'.s, r');
    OneStaleSize(c.g, w'.s, r');
    SafeIs(c.g, w'.s, r', need);
  }
}
