/** A user of the allocator: any list of requests, served by the class, is a run. */
module HeapClient {
  import opened HeapBlocks
  import opened HeapWords
  import opened HeapSteps
  import opened HeapStale
  import opened HeapMemory
  import opened HeapRuns

  datatype Request =
    | Ask(userSize: nat)
    | GiveBack(p: int)
    | Put(p: int, a: int, w: Word)

  /** What a C program may ask for: sizes that do not wrap around, live pointers, words inside live payloads. */
  predicate Legal(live: map<int, nat>, r: Request)
  {
    match r
    case Ask(userSize) => userSize <= U32_LIMIT - 16
    case GiveBack(p) => p in live
    case Put(p, a, _) => p in live && p <= a && a + 4 <= p + live[p] && a % 4 == 0
  }

  /** What is served: legal requests, and under next fit in the written order only those for memory that no stale
      header is large enough for. */
  ghost predicate Allowed(c: Config, w: World, r: Request)
  {
    Legal(w.live, r) && (r.Ask? ==> Safe(c.alg, c.g, w.s, SizeToAllocate(r.userSize)))
  }

  predicate Answers(r: Request, e: Event)
  {
    match r
    case Ask(userSize) => e.Malloc? && e.userSize == userSize
    case GiveBack(p) => e == Free(p)
    case Put(p, a, w) => e == Store(p, a, w)
  }

  /** A request at event number from: if it is allowed the next event answers it, otherwise it is refused. */
  ghost predicate Met(c: Config, ws: seq<World>, es: seq<Event>, r: Request, from: nat, to: nat)
    requires |ws| == |es| + 1
  {
    && from <= |es| && to <= |es|
    && if Allowed(c, ws[from], r) then to == from + 1 && Answers(r, es[from]) else to == from
  }

  /** The requests are met one after the other; at says at which event each arrives. */
  ghost predicate Follows(c: Config, requests: seq<Request>, ws: seq<World>, es: seq<Event>, at: seq<nat>)
  {
    && |at| == |requests| + 1 && at[0] == 0 && at[|requests|] == |es| && |ws| == |es| + 1
    && forall k | 0 <= k < |requests| :: Met(c, ws, es, requests[k], at[k], at[k + 1])
  }

  lemma MetStays(c: Config, ws: seq<World>, es: seq<Event>, r: Request, from: nat, to: nat, w: World, e: Event)
    requires |ws| == |es| + 1 && Met(c, ws, es, r, from, to)
    ensures Met(c, ws + [w], es + [e], r, from, to)
  {
    hide Allowed, Answers;
    assert (ws + [w])[from] == ws[from];
  }

  lemma MetNow(c: Config, ws: seq<World>, es: seq<Event>, r: Request, w: World, e: Event)
    requires |ws| == |es| + 1 && Allowed(c, ws[|es|], r) && Answers(r, e)
    ensures Met(c, ws + [w], es + [e], r, |es|, |es| + 1)
  {
    hide Allowed, Answers;
    assert (ws + [w])[|es|] == ws[|es|];
  }

  lemma FollowsMore(c: Config, requests: seq<Request>, ws: seq<World>, es: seq<Event>, at: seq<nat>, r: Request,
                    w: World, e: Event)
    requires Follows(c, requests, ws, es, at) && Allowed(c, ws[|es|], r) && Answers(r, e)
    ensures Follows(c, requests + [r], ws + [w], es + [e], at + [|es| + 1])
  {
    hide Allowed, Answers, Met;
    var requests', ws', es', at' := requests + [r], ws + [w], es + [e], at + [|es| + 1];
    forall k | 0 <= k < |requests'| ensures Met(c, ws', es', requests'[k], at'[k], at'[k + 1]) {
      if k < |requests| {
        MetStays(c, ws, es, requests[k], at[k], at[k + 1], w, e);
      } else {
        MetNow(c, ws, es, r, w, e);
      }
    }
  }

  lemma FollowsRefused(c: Config, requests: seq<Request>, ws: seq<World>, es: seq<Event>, at: seq<nat>, r: Request)
    requires Follows(c, requests, ws, es, at) && !Allowed(c, ws[|es|], r)
    ensures Follows(c, requests + [r], ws, es, at + [|es|])
  {
    assert Met(c, ws, es, r, |es|, |es|);
    hide Allowed, Answers, Met;
    var requests', at' := requests + [r], at + [|es|];
    forall k | 0 <= k < |requests'| ensures Met(c, ws, es, requests'[k], at'[k], at'[k + 1]) {
      if k < |requests| {
        assert Met(c, ws, es, requests[k], at[k], at[k + 1]);
      }
    }
  }

  lemma RunMore(c: Config, ws: seq<World>, es: seq<Event>, w: World, e: Event)
    requires IsRun(c, ws, es) && Step(c, ws[|es|], e, w)
    ensures IsRun(c, ws + [w], es + [e])
  {
    hide Step, Init;
  }

  /** The run so far has led to the state of the heap. */
  ghost predicate Reached(heap: Heap, c: Config, live: map<int, nat>, ws: seq<World>, es: seq<Event>)
    reads heap, heap.mem
  {
    && c == Config(heap.g, heap.alg, heap.order)
    && IsRun(c, ws, es) && ws[|es|].s == heap.State() && ws[|es|].live == live
  }

  lemma ReachedFacts(heap: Heap, c: Config, live: map<int, nat>, ws: seq<World>, es: seq<Event>)
    requires Reached(heap, c, live, ws, es)
    ensures |ws| == |es| + 1 && Inv(c, ws[|es|]) && heap.Valid() && Tracked(heap.alg, heap.g, heap.State())
  {
    RunInv(c, ws, es, |es|);
    RoverTracked(c, ws, es, |es|);
    hide IsRun;
  }

  /** A request for memory, and the world after it. */
  method Serve(heap: Heap, userSize: nat, live: map<int, nat>, ghost c: Config, ghost ws: seq<World>,
               ghost es: seq<Event>)
    returns (live': map<int, nat>, ghost w: World, ghost e: Event)
    requires Reached(heap, c, live, ws, es) && userSize <= U32_LIMIT - 16
    requires Safe(heap.alg, heap.g, heap.State(), SizeToAllocate(userSize))
    modifies heap`next, heap`blocks, heap.mem
    ensures e.Malloc? && e.userSize == userSize && Reached(heap, c, live', ws + [w], es + [e])
  {
    hide IsRun, MallocStep, ValidState, Inv, Tracked, Safe;
    ReachedFacts(heap, c, live, ws, es);
    RequestFits(userSize);
    var p := heap.HeapMalloc(userSize);
    live' := if p == NULL then live else live[p := userSize];
    w := World(heap.State(), live', ws[|es|].stored);
    e := Malloc(userSize, p);
    RunMore(c, ws, es, w, e);
    RunIs(c, ws + [w], es + [e]);
  }

  lemma RequestFits(userSize: nat)
    requires userSize <= U32_LIMIT - 16
    ensures 8 <= SizeToAllocate(userSize)
  {
    SizeToAllocateEnough(userSize);
  }

  lemma RunIs(c: Config, ws: seq<World>, es: seq<Event>)
    requires IsRun(c, ws, es)
    ensures |ws| == |es| + 1
  {
  }

  method TakeBack(heap: Heap, p: int, live: map<int, nat>, ghost c: Config, ghost ws: seq<World>, ghost es: seq<Event>)
    returns (live': map<int, nat>, ghost w: World)
    requires Reached(heap, c, live, ws, es) && p in live
    modifies heap`next, heap`blocks, heap.mem
    ensures Reached(heap, c, live', ws + [w], es + [Free(p)])
  {
    hide IsRun, FreeStep, ValidState, Inv, Tracked, Safe;
    ReachedFacts(heap, c, live, ws, es);
    ghost var b := LiveBlock(c, ws[|es|], p);
    heap.HeapFree(p);
    live' := live - {p};
    w := World(heap.State(), live', map k | k in ws[|es|].stored && k.0 != p :: ws[|es|].stored[k]);
    RunMore(c, ws, es, w, Free(p));
    RunIs(c, ws + [w], es + [Free(p)]);
  }

  method WriteWord(heap: Heap, p: int, a: int, v: Word, live: map<int, nat>,
                   ghost c: Config, ghost ws: seq<World>, ghost es: seq<Event>)
    returns (ghost w: World)
    requires Reached(heap, c, live, ws, es) && Legal(live, Put(p, a, v))
    modifies heap.mem
    ensures Reached(heap, c, live, ws + [w], es + [Store(p, a, v)])
  {
    hide IsRun, ValidState, Inv, Tracked, Safe;
    ReachedFacts(heap, c, live, ws, es);
    WordInWindow(c, ws[|es|], p, a);
    heap.Store(a, v);
    w := World(heap.State(), live, ws[|es|].stored[(p, a) := v]);
    RunMore(c, ws, es, w, Store(p, a, v));
    RunIs(c, ws + [w], es + [Store(p, a, v)]);
  }

  lemma WordInWindow(c: Config, w: World, p: int, a: int)
    requires Inv(c, w) && p in w.live && p <= a && a + 4 <= p + w.live[p] && a % 4 == 0
    ensures InWindow(c.g, |w.s.words|, a)
  {
    LiveInside(c, w, p);
  }

  /** Any list of requests to a heap that was just created: the legal ones are answered, and the worlds that
      the heap passes through are a run. */
  method ServeAll(heap: Heap, requests: seq<Request>)
    returns (live: map<int, nat>, ghost c: Config, ghost ws: seq<World>, ghost es: seq<Event>, ghost at: seq<nat>)
    requires heap.Valid() && heap.next == heap.g.start && heap.blocks == [Block(heap.g.start, heap.g.size, false)]
    modifies heap`next, heap`blocks, heap.mem
    ensures c == Config(heap.g, heap.alg, heap.order) && heap.Valid()
    ensures IsRun(c, ws, es) && Follows(c, requests, ws, es, at)
    ensures ws[|es|].s == heap.State() && ws[|es|].live == live
  {
    hide IsRun, Follows, Legal, Answers, Safe;
    live := map[];
    c, ws, es, at := Config(heap.g, heap.alg, heap.order), [World(heap.State(), map[], map[])], [], [0];
    FirstWorld(heap, c, ws);
    var k := 0;
    while k < |requests|
      invariant k <= |requests| && Reached(heap, c, live, ws, es) && |ws| == |es| + 1
      invariant Follows(c, requests[..k], ws, es, at)
    {
      var r := requests[k];
      assert requests[..k] + [r] == requests[..k + 1];
      var allowed := IsAllowed(heap, r, live, c, ws, es);
      if allowed {
        ghost var w, e;
        match r {
          case Ask(userSize) =>
            LegalSize(live, userSize);
            live, w, e := Serve(heap, userSize, live, c, ws, es);
          case GiveBack(p) =>
            LegalPointer(live, p);
            live, w := TakeBack(heap, p, live, c, ws, es);
            e := Free(p);
          case Put(p, a, v) =>
            w := WriteWord(heap, p, a, v, live, c, ws, es);
            e := Store(p, a, v);
        }
        AnswerIs(r, e);
        FollowsMore(c, requests[..k], ws, es, at, r, w, e);
        ws, es, at := ws + [w], es + [e], at + [|es| + 1];
      } else {
        FollowsRefused(c, requests[..k], ws, es, at, r);
        at := at + [|es|];
      }
      k := k + 1;
    }
    assert requests[..k] == requests;
    ReachedFacts(heap, c, live, ws, es);
  }

  lemma FirstWorld(heap: Heap, c: Config, ws: seq<World>)
    requires heap.Valid() && heap.next == heap.g.start && heap.blocks == [Block(heap.g.start, heap.g.size, false)]
    requires c == Config(heap.g, heap.alg, heap.order) && ws == [World(heap.State(), map[], map[])]
    ensures Reached(heap, c, map[], ws, []) && Follows(c, [], ws, [], [0])
  {
  }

  /** Block k of the list starts before the rover exactly if the search resumes behind it. */
  lemma BeforeRover(g: Layout, s: HeapState, r: nat, k: nat)
    requires Represents(g, s.words, s.blocks) && RoverAt(g, s, r) && k <= |s.blocks|
    ensures StartOf(g, s.blocks, k) < s.next <==> k < r
  {
    RoverResumes(g, s, r);
    RepresentsTiles(g, s.blocks, s.words);
    StartsOf(g, s.blocks, s.words, r);
    hide Represents, Tiles;
    ChainOrder(g, s.words, s.next, StartOf(g, s.blocks, r));
    if k < r { StartsOrdered(s.blocks, g.start, g.End(), k, r - 1); }
    if r <= k < |s.blocks| { StartsOrdered(s.blocks, g.start, g.End(), r, k); }
    if r < |s.blocks| && k == |s.blocks| { BlockBounds(s.blocks, g.start, g.End(), r); }
  }

  /** The test that a user of next fit can make before a malloc: walk to the first block at the rover or behind it,
      and see whether a header on the way there from the rover is as large as the request needs. */
  method IsSafe(heap: Heap, need: nat) returns (safe: bool)
    requires heap.Valid() && Tracked(heap.alg, heap.g, heap.State())
    ensures safe <==> Safe(heap.alg, heap.g, heap.State(), need)
  {
    hide Tiles, NoAdjacentFree, HeaderLike, RoverAt, Represents, UsedAt, SizeAt;
    if heap.alg != NextFit {
      return true;
    }
    ghost var s, g, words := heap.State(), heap.g, heap.mem[..];
    ghost var r: nat :| RoverAt(g, s, r);
    RoverChain(g, s, r);
    ghost var k := 0;
    var current := heap.g.start;
    heap.WalkView(0);
    while current < heap.next
      invariant k <= r <= |heap.blocks| && current == StartOf(g, heap.blocks, k)
      decreases r - k
    {
      BeforeRover(g, s, r, k);
      heap.WalkView(k);
      current := heap.GetNextBlock(current);
      k := k + 1;
    }
    BeforeRover(g, s, r, k);
    SafeIs(g, s, r, need);
    var stale := heap.next;
    while stale < current
      invariant FreeChain(g, words, stale, current)
      invariant Largest(g, words, heap.next, current) < need <==> Largest(g, words, stale, current) < need
      decreases current - stale
    {
      heap.Headers(stale);
      HeaderSize(g, words, stale);
      if heap.GetBlockSize(stale) >= need {
        return false;
      }
      stale := heap.GetNextBlock(stale);
    }
    return need > 0;
  }

  lemma RoverChain(g: Layout, s: HeapState, r: nat)
    requires RoverAt(g, s, r)
    ensures r <= |s.blocks| && FreeChain(g, s.words, s.next, StartOf(g, s.blocks, r))
  {
  }

  method IsAllowed(heap: Heap, r: Request, live: map<int, nat>, ghost c: Config, ghost ws: seq<World>,
                   ghost es: seq<Event>)
    returns (allowed: bool)
    requires Reached(heap, c, live, ws, es)
    ensures |ws| == |es| + 1 && (allowed <==> Allowed(c, ws[|es|], r))
  {
    hide IsRun, Inv, Safe, Tracked, Legal;
    ReachedFacts(heap, c, live, ws, es);
    allowed := Legal(live, r);
    if allowed && r.Ask? {
      allowed := IsSafe(heap, SizeToAllocate(r.userSize));
    }
  }

  /** With the intended order, or under first or best fit, nothing that a C program may ask for is refused. */
  lemma NothingRefused(c: Config, ws: seq<World>, es: seq<Event>, k: nat, r: Request)
    requires IsRun(c, ws, es) && k < |ws| && (c.order == AsIntended || c.alg != NextFit)
    requires match r
             case Ask(userSize) => userSize <= 0xFFFF_FFF0
             case GiveBack(p) => p in ws[k].live
             case Put(p, a, _) => p in ws[k].live && p <= a && a + 4 <= p + ws[k].live[p] && a % 4 == 0
    ensures Allowed(c, ws[k], r)
  {
    hide IsRun, Safe;
    if r.Ask? {
      RequestFits(r.userSize);
      NothingStale(c, ws, es, k, SizeToAllocate(r.userSize));
    }
  }

  lemma LegalSize(live: map<int, nat>, userSize: nat)
    requires Legal(live, Ask(userSize))
    ensures userSize <= U32_LIMIT - 16
  {
  }

  lemma LegalPointer(live: map<int, nat>, p: int)
    requires Legal(live, GiveBack(p))
    ensures p in live
  {
  }

  lemma AnswerIs(r: Request, e: Event)
    requires match r
             case Ask(userSize) => e.Malloc? && e.userSize == userSize
             case GiveBack(p) => e == Free(p)
             case Put(p, a, w) => e == Store(p, a, w)
    ensures Answers(r, e)
  {
  }

  /** From heap_create on: memory safety of the class itself, whatever its user asks for. */
  method CreateAndServe(memory: array<Word>, origin: int, brk: int, bytes: int, alg: SearchAlg, order: RoverOrder,
                        requests: seq<Request>)
    returns (heap: Heap, live: map<int, nat>)
    requires origin >= 0 && origin % 4 == 0 && origin <= brk && brk + bytes <= origin + 4 * memory.Length
    requires SIZEOF_HEAP + AlignmentGap(brk + SIZEOF_HEAP) + 2 * HEADER_SIZE <= bytes < U32_LIMIT / 2
    modifies memory
    ensures fresh(heap) && heap.Valid()
    ensures forall p | p in live ::
              p % 8 == 0 && brk + 36 <= p && p + live[p] <= brk + bytes - 4
    ensures forall p, q | p in live && q in live && p != q :: p + live[p] <= q || q + live[q] <= p
  {
    heap := new Heap.HeapCreate(memory, origin, brk, bytes, alg, order);
    ghost var c, ws, es, at;
    live, c, ws, es, at := ServeAll(heap, requests);
    RunsAreSafe(c, ws, es, |es|);
  }
}
