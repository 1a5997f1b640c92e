/** One set of the cache of lab6/cache.c as a list of lines, most recently used first,
    and the textbook LRU stack that it must follow. */
module CacheLru {

  type Byte = b: int | 0 <= b < 256

  datatype Line = Line(valid: bool, tag: int, data: seq<Byte>)

  /** The list with element i moved to the front. */
  function MakeMru<T>(s: seq<T>, i: nat): (s': seq<T>)
    requires i < |s|
    ensures |s'| == |s| && s'[0] == s[i]
    ensures forall j | 0 < j < |s| :: s'[j] == if j <= i then s[j - 1] else s[j]
  {
    [s[i]] + s[..i] + s[i + 1..]
  }

  /** The first line with the tag, valid or not. */
  function FirstMatch(s: seq<Line>, tag: int): (i: nat)
    ensures i <= |s| && (i < |s| ==> s[i].tag == tag)
    ensures forall j | 0 <= j < i :: s[j].tag != tag
  {
    if s == [] || s[0].tag == tag then 0 else 1 + FirstMatch(s[1..], tag)
  }

  function Touch(s: seq<Line>, tag: int): (s': seq<Line>)
    ensures |s'| == |s|
  {
    var i := FirstMatch(s, tag);
    if i < |s| then MakeMru(s, i) else s
  }

  predicate Hits(s: seq<Line>, tag: int)
  {
    var i := FirstMatch(s, tag);
    i < |s| && s[i].valid
  }

  /** The last line is evicted and refilled at the front. */
  function Fill(s: seq<Line>, line: Line): (s': seq<Line>)
    requires |s| > 0
    ensures |s'| == |s|
  {
    MakeMru(s, |s| - 1)[0 := line]
  }

  /** The set after a read of the tag, whose block holds data. */
  function Read(s: seq<Line>, tag: int, data: seq<Byte>): (s': seq<Line>)
    requires |s| > 0
    ensures |s'| == |s|
  {
    if Hits(s, tag) then Touch(s, tag) else Fill(Touch(s, tag), Line(true, tag, data))
  }

  // ---- facts that hold with arbitrary tags in fresh lines ----

  /** No tag is valid twice, and a valid line comes before every invalid line with its tag. */
  ghost predicate ValidFirst(s: seq<Line>)
  {
    forall i, j | 0 <= i < j < |s| && s[j].valid :: s[i].tag != s[j].tag
  }

  lemma ReadKeepsValidFirst(s: seq<Line>, tag: int, data: seq<Byte>)
    requires |s| > 0 && ValidFirst(s)
    ensures ValidFirst(Read(s, tag, data))
  {
    TouchKeepsValidFirst(s, tag);
    if !Hits(s, tag) {
      MissedTagNotValid(s, tag);
      FillKeepsValidFirst(Touch(s, tag), Line(true, tag, data));
    }
  }

  lemma TouchKeepsValidFirst(s: seq<Line>, tag: int)
    requires ValidFirst(s)
    ensures ValidFirst(Touch(s, tag))
  {
    var i, s1 := FirstMatch(s, tag), Touch(s, tag);
    forall j, k | 0 <= j < k < |s1| && s1[k].valid ensures s1[j].tag != s1[k].tag {
      if i < |s| {
        assert s1[k] == s[if k <= i then k - 1 else k];
        assert s1[j] == s[if j == 0 then i else if j <= i then j - 1 else j];
      }
    }
  }

  lemma MissedTagNotValid(s: seq<Line>, tag: int)
    requires ValidFirst(s) && !Hits(s, tag)
    ensures forall k | 0 <= k < |Touch(s, tag)| && Touch(s, tag)[k].valid :: Touch(s, tag)[k].tag != tag
  {
    var i, s1 := FirstMatch(s, tag), Touch(s, tag);
    forall k | 0 <= k < |s| && s[k].valid ensures s[k].tag != tag {
      if i < |s| && k > i { assert s[i].tag != s[k].tag; }
    }
    forall k | 0 <= k < |s1| && s1[k].valid ensures s1[k].tag != tag {
      TouchLines(s, tag, k);
    }
  }

  lemma FillKeepsValidFirst(s: seq<Line>, line: Line)
    requires |s| > 0 && ValidFirst(s) && forall k | 0 <= k < |s| && s[k].valid :: s[k].tag != line.tag
    ensures ValidFirst(Fill(s, line))
  {
  }

  /** What is read is in front afterwards, valid and with the tag asked for. */
  lemma ReadInFront(s: seq<Line>, tag: int, data: seq<Byte>)
    requires |s| > 0
    ensures Read(s, tag, data)[0].valid && Read(s, tag, data)[0].tag == tag
  {
  }

  lemma MruLines(s: seq<Line>, i: nat, j: nat)
    requires i < |s| && j < |s|
    ensures MakeMru(s, i)[j] in s
  {
    assert MakeMru(s, i)[j] == s[if j == 0 then i else if j <= i then j - 1 else j];
  }

  lemma TouchLines(s: seq<Line>, tag: int, j: nat)
    requires j < |s|
    ensures Touch(s, tag)[j] in s
  {
    hide MakeMru, FirstMatch;
    var i := FirstMatch(s, tag);
    if i < |s| { MruLines(s, i, j); }
  }

  lemma ReadLines(s: seq<Line>, tag: int, data: seq<Byte>, i: nat)
    requires |s| > 0 && i < |s|
    ensures Read(s, tag, data)[i] in s || Read(s, tag, data)[i] == Line(true, tag, data)
    ensures Hits(s, tag) ==> Read(s, tag, data)[0] in s
  {
    hide MakeMru, FirstMatch, Touch, Hits;
    var s1 := Touch(s, tag);
    forall j | 0 <= j < |s1| ensures s1[j] in s {
      TouchLines(s, tag, j);
    }
    if !Hits(s, tag) && i > 0 { MruLines(s1, |s1| - 1, i); }
    TouchLines(s, tag, 0);
  }

  // ---- the LRU stack ----

  function Without(st: seq<int>, t: int): seq<int>
  {
    if st == [] then [] else (if st[0] == t then [] else [st[0]]) + Without(st[1..], t)
  }

  /** The distinct tags of a trace, most recently used first. */
  function Stack(trace: seq<int>): seq<int>
  {
    if trace == [] then [] else
      Promote(Stack(trace[..|trace| - 1]), trace[|trace| - 1])
  }

  /** The set after reading the tags of a trace; blocks gives the memory block of each tag. */
  function Run(s: seq<Line>, trace: seq<int>, blocks: int -> seq<Byte>): (s': seq<Line>)
    requires |s| > 0
    ensures |s'| == |s|
  {
    if trace == [] then s else
      var t := trace[|trace| - 1];
      Read(Run(s, trace[..|trace| - 1], blocks), t, blocks(t))
  }

  function Misses(s: seq<Line>, trace: seq<int>, blocks: int -> seq<Byte>): nat
    requires |s| > 0
  {
    if trace == [] then 0 else
      var before := trace[..|trace| - 1];
      Misses(s, before, blocks) + if Hits(Run(s, before, blocks), trace[|trace| - 1]) then 0 else 1
  }

  /** No line is valid. */
  ghost predicate Unused(s: seq<Line>)
  {
    |s| > 0 && forall i | 0 <= i < |s| :: !s[i].valid
  }

  ghost predicate Carries(s: seq<Line>, t: int)
  {
    exists i :: 0 <= i < |s| && s[i].tag == t
  }

  /** Nothing is valid, and no line but perhaps the last has a left-over tag of u. */
  ghost predicate Fresh(s: seq<Line>, u: iset<int>)
  {
    Unused(s) && forall i | 0 <= i < |s| - 1 :: s[i].tag !in u
  }

  ghost predicate Over(trace: seq<int>, u: iset<int>)
  {
    forall t | t in trace :: t in u
  }

  function Min(a: nat, b: nat): nat { if a < b then a else b }

  ghost predicate Distinct(st: seq<int>)
  {
    forall i, j | 0 <= i < j < |st| :: st[i] != st[j]
  }

  /** The valid lines are the top of the stack, in its order. The left-over tags behind them mislead no read:
      u has none of them, or they are valid further in front. The last line goes first, so its tag is harmless. */
  ghost predicate Mirrors(s: seq<Line>, st: seq<int>, u: iset<int>)
  {
    && |s| > 0 && Distinct(st)
    && (forall i | 0 <= i < |s| && i < |st| :: s[i].valid && s[i].tag == st[i])
    && (forall i | |st| <= i < |s| ::
          !s[i].valid && (s[i].tag !in u || s[i].tag in st || (st == [] && i == |s| - 1)))
  }

  lemma {:induction false} WithoutAbsent(st: seq<int>, t: int)
    requires t !in st
    ensures Without(st, t) == st
  {
    if st != [] {
      WithoutAbsent(st[1..], t);
    }
  }

  function Promote(st: seq<int>, t: int): seq<int>
  {
    [t] + Without(st, t)
  }

  /** Promoting a tag moves it to the front. */
  lemma {:induction false} PromoteAt(st: seq<int>, p: nat)
    requires Distinct(st) && p < |st|
    ensures Promote(st, st[p]) == MakeMru(st, p)
  {
    hide Without, MakeMru;
    if p == 0 {
      FirstPromoted(st);
    } else {
      PromoteAt(st[1..], p - 1);
      WithoutUnfolds(st, st[p]);
      MruOfTail(st, p, Without(st[1..], st[p]));
    }
  }

  lemma FirstPromoted(st: seq<int>)
    requires Distinct(st) && |st| > 0
    ensures Promote(st, st[0]) == MakeMru(st, 0)
  {
    WithoutAbsent(st[1..], st[0]);
  }

  lemma WithoutUnfolds(st: seq<int>, t: int)
    requires |st| > 0 && st[0] != t
    ensures Without(st, t) == [st[0]] + Without(st[1..], t)
  {
  }

  lemma MruOfTail(st: seq<int>, p: nat, rest: seq<int>)
    requires 0 < p < |st| && [st[p]] + rest == MakeMru(st[1..], p - 1)
    ensures [st[p]] + ([st[0]] + rest) == MakeMru(st, p)
  {
    assert rest == MakeMru(st[1..], p - 1)[1..] == st[1..][..p - 1] + st[p + 1..];
    assert st[..p] == [st[0]] + st[1..][..p - 1];
  }

  lemma HitMirrors(s: seq<Line>, st: seq<int>, u: iset<int>, p: nat)
    requires Mirrors(s, st, u) && p < |s| && p < |st|
    ensures Mirrors(MakeMru(s, p), MakeMru(st, p), u)
  {
    forall x | x in st ensures x in MakeMru(st, p) {
      var q :| 0 <= q < |st| && st[q] == x;
      assert MakeMru(st, p)[if q == p then 0 else if q < p then q + 1 else q] == x;
    }
    MruDistinct(st, p);
  }

  lemma MissMirrors(s: seq<Line>, st: seq<int>, u: iset<int>, st': seq<int>, line: Line)
    requires Mirrors(s, st, u) && line.valid
    requires Distinct(st') && |st'| > 0 && st'[0] == line.tag
    requires Min(|st'|, |s|) == Min(|st| + 1, |s|) && forall i | 0 < i < |s| && i < |st'| :: st'[i] == st[i - 1]
    ensures Mirrors(Fill(s, line), st', u)
  {
    var s' := Fill(s, line);
    forall i | |st'| <= i < |s'| ensures !s'[i].valid && (s'[i].tag !in u || s'[i].tag in st') {
      assert s'[i] == s[i - 1];
      if s[i - 1].tag in st {
        var q :| 0 <= q < |st| && st[q] == s[i - 1].tag;
        assert st'[q + 1] == st[q];
      }
    }
  }

  /** The first read of all, of the tag that the last line happens to carry. */
  lemma FirstReadMirrors(s: seq<Line>, u: iset<int>, t: int, data: seq<Byte>)
    requires Mirrors(s, [], u) && t in u && s[|s| - 1].tag == t
    ensures Mirrors(Read(s, t, data), [t], u) && !Hits(s, t)
  {
    var n := |s|;
    assert FirstMatch(s, t) == n - 1;
    var s1, s2 := MakeMru(s, n - 1), Read(s, t, data);
    assert s2 == Fill(s1, Line(true, t, data));
    forall i | 1 <= i < n ensures !s2[i].valid && (s2[i].tag !in u || s2[i].tag in [t]) {
      assert s2[i] == s1[i - 1];
      assert s1[i - 1] == s[if i == 1 then n - 1 else i - 2];
    }
  }

  lemma MruDistinct(st: seq<int>, p: nat)
    requires Distinct(st) && p < |st|
    ensures Distinct(MakeMru(st, p))
  {
  }

  /** Reading a tag does to the set what promoting it does to the stack. */
  lemma ReadMirrors(s: seq<Line>, st: seq<int>, u: iset<int>, t: int, data: seq<Byte>)
    requires Mirrors(s, st, u) && t in u
    ensures Mirrors(Read(s, t, data), Promote(st, t), u)
    ensures Hits(s, t) <==> t in st[..Min(|s|, |st|)]
  {
    hide Without;
    if t in st {
      var p :| 0 <= p < |st| && st[p] == t;
      KnownTagMirrors(s, st, u, p, data);
    } else {
      WithoutAbsent(st, t);
      NewTagMirrors(s, st, u, t, data);
    }
  }

  lemma KnownTagMirrors(s: seq<Line>, st: seq<int>, u: iset<int>, p: nat, data: seq<Byte>)
    requires Mirrors(s, st, u) && p < |st|
    ensures Mirrors(Read(s, st[p], data), Promote(st, st[p]), u)
    ensures Hits(s, st[p]) <==> st[p] in st[..Min(|s|, |st|)]
  {
    hide Promote;
    var t := st[p];
    PromoteAt(st, p);
    MruDistinct(st, p);
    if p < |s| {
      FirstMatchIs(s, t, p);
      HitMirrors(s, st, u, p);
      assert st[..Min(|s|, |st|)][p] == t;
    } else {
      FirstMatchIs(s, t, |s|);
      MissMirrors(s, st, u, MakeMru(st, p), Line(true, t, data));
    }
  }

  lemma NewTagMirrors(s: seq<Line>, st: seq<int>, u: iset<int>, t: int, data: seq<Byte>)
    requires Mirrors(s, st, u) && t in u && t !in st
    ensures Mirrors(Read(s, t, data), [t] + st, u) && !Hits(s, t)
  {
    if st == [] && s[|s| - 1].tag == t {
      FirstReadMirrors(s, u, t, data);
      assert [t] + st == [t];
    } else {
      FirstMatchIs(s, t, |s|);
      MissMirrors(s, st, u, [t] + st, Line(true, t, data));
    }
  }

  lemma FirstMatchIs(s: seq<Line>, t: int, i: nat)
    requires i <= |s| && (i < |s| ==> s[i].tag == t) && forall j | 0 <= j < i :: s[j].tag != t
    ensures FirstMatch(s, t) == i
  {
  }

  // ---- whole traces ----

  /** After any trace, the valid lines are the most recently used distinct tags, in order, before all invalid lines. */
  lemma {:induction false} ExactLru(s: seq<Line>, trace: seq<int>, blocks: int -> seq<Byte>, u: iset<int>)
    requires Fresh(s, u) && Over(trace, u)
    ensures Mirrors(Run(s, trace, blocks), Stack(trace), u)
  {
    if trace != [] {
      var before, t := trace[..|trace| - 1], trace[|trace| - 1];
      ExactLru(s, before, blocks, u);
      assert t in trace;
      ReadMirrors(Run(s, before, blocks), Stack(before), u, t, blocks(t));
    }
  }

  /** The distinct tags read since t was read last. */
  function Since(trace: seq<int>, t: int): set<int>
  {
    if trace == [] || trace[|trace| - 1] == t then {}
    else Since(trace[..|trace| - 1], t) + {trace[|trace| - 1]}
  }

  function Elements(st: seq<int>): set<int>
  {
    set t | t in st
  }

  lemma {:induction false} DistinctCount(st: seq<int>)
    requires Distinct(st)
    ensures |Elements(st)| == |st|
  {
    if st != [] {
      var last := |st| - 1;
      DistinctCount(st[..last]);
      assert Elements(st) == Elements(st[..last]) + {st[last]};
    }
  }

  lemma ElementsConcat(x: seq<int>, y: seq<int>)
    ensures Elements(x + y) == Elements(x) + Elements(y)
  {
  }

  lemma MruBelow(st: seq<int>, p: nat, q: nat)
    requires q < p < |st|
    ensures MakeMru(st, q)[..p] == [st[q]] + (st[..q] + st[q + 1..p]) && MakeMru(st, q)[p] == st[p]
    ensures st[..p] == st[..q] + [st[q]] + st[q + 1..p]
  {
  }

  lemma MruAbove(st: seq<int>, p: nat, q: nat)
    requires p < q < |st|
    ensures MakeMru(st, q)[..p + 1] == [st[q]] + st[..p] && MakeMru(st, q)[p + 1] == st[p]
  {
  }

  lemma MruDepth(st: seq<int>, p: nat, q: nat) returns (p': nat)
    requires p < |st| && q < |st| && p != q
    ensures p' < |MakeMru(st, q)| && MakeMru(st, q)[p'] == st[p]
    ensures Elements(MakeMru(st, q)[..p']) == Elements(st[..p]) + {st[q]}
  {
    hide MakeMru, Elements;
    OneElement(st[q]);
    if q < p {
      p' := p;
      MruBelow(st, p, q);
      ElementsConcat(st[..q] + [st[q]], st[q + 1..p]);
      ElementsConcat(st[..q], [st[q]]);
      ElementsConcat([st[q]], st[..q] + st[q + 1..p]);
      ElementsConcat(st[..q], st[q + 1..p]);
    } else {
      p' := p + 1;
      MruAbove(st, p, q);
      ElementsConcat([st[q]], st[..p]);
    }
  }

  lemma OneElement(x: int)
    ensures Elements([x]) == {x}
  {
  }

  /** Promoting u keeps the other elements and puts u above t. */
  lemma PromoteDepth(st: seq<int>, p: nat, u: int) returns (p': nat)
    requires Distinct(st) && p < |st| && u != st[p]
    ensures p' < |Promote(st, u)| && Promote(st, u)[p'] == st[p]
    ensures Elements(Promote(st, u)[..p']) == Elements(st[..p]) + {u}
  {
    if u in st {
      var q :| 0 <= q < |st| && st[q] == u;
      PromoteAt(st, q);
      p' := MruDepth(st, p, q);
    } else {
      WithoutAbsent(st, u);
      p' := p + 1;
      assert ([u] + st)[..p + 1] == [u] + st[..p];
      ElementsConcat([u], st[..p]);
    }
  }

  lemma PromoteDistinct(st: seq<int>, t: int)
    requires Distinct(st)
    ensures Distinct(Promote(st, t)) && Elements(Promote(st, t)) == Elements(st) + {t}
  {
    if t in st {
      var p :| 0 <= p < |st| && st[p] == t;
      PromoteAt(st, p);
      MruDistinct(st, p);
      assert st == st[..p] + [t] + st[p + 1..];
    } else {
      WithoutAbsent(st, t);
    }
  }

  /** The stack holds every tag of the trace once. */
  lemma {:induction false} StackDistinct(trace: seq<int>)
    ensures Distinct(Stack(trace)) && Elements(Stack(trace)) == Elements(trace)
  {
    if trace != [] {
      var before, t := trace[..|trace| - 1], trace[|trace| - 1];
      StackDistinct(before);
      PromoteDistinct(Stack(before), t);
      assert trace == before + [t];
    }
  }

  /** Above a tag, the stack holds exactly the distinct tags read since its last use. */
  lemma {:induction false} StackDepth(trace: seq<int>, t: int) returns (p: nat)
    requires t in trace
    ensures p < |Stack(trace)| && Stack(trace)[p] == t
    ensures Elements(Stack(trace)[..p]) == Since(trace, t) && p == |Since(trace, t)|
  {
    var before, u := trace[..|trace| - 1], trace[|trace| - 1];
    if u == t {
      p := 0;
    } else {
      p := StackDepth(before, t);
      StackDistinct(before);
      p := PromoteDepth(Stack(before), p, u);
    }
    StackDistinct(trace);
    DistinctCount(Stack(trace)[..p]);
  }

  /** A read hits exactly when its tag was read before and fewer other distinct tags than the set has lines
      were read since. */
  lemma HitIffRecentlyUsed(s: seq<Line>, trace: seq<int>, blocks: int -> seq<Byte>, t: int, u: iset<int>)
    requires Fresh(s, u) && Over(trace, u) && t in u
    ensures HitsAsLru(s, trace, blocks, t)
  {
    var st := Stack(trace);
    ExactLru(s, trace, blocks, u);
    ReadMirrors(Run(s, trace, blocks), st, u, t, blocks(t));
    StackDistinct(trace);
    assert t in Elements(st) <==> t in Elements(trace);
    hide Stack, Run, Hits;
    if t in trace {
      var p := StackDepth(trace, t);
      if p < |s| {
        assert st[..Min(|s|, |st|)][p] == t;
      }
    }
  }

  ghost predicate HitsAsLru(s: seq<Line>, trace: seq<int>, blocks: int -> seq<Byte>, t: int)
    requires |s| > 0
  {
    Hits(Run(s, trace, blocks), t) <==> t in trace && |Since(trace, t)| < |s|
  }

  /** Inclusion: with more lines per set, the set still holds all that the smaller one holds, in the same order,
      and misses no more often. */
  lemma {:induction false} MoreLinesMissLess(s: seq<Line>, s': seq<Line>, trace: seq<int>, blocks: int -> seq<Byte>,
                                             u: iset<int>)
    requires Fresh(s, u) && Fresh(s', u) && |s| <= |s'| && Over(trace, u)
    ensures forall i | 0 <= i < |s| && Run(s, trace, blocks)[i].valid ::
              Run(s', trace, blocks)[i].valid && Run(s', trace, blocks)[i].tag == Run(s, trace, blocks)[i].tag
    ensures Misses(s', trace, blocks) <= Misses(s, trace, blocks)
  {
    hide Run, Stack;
    ExactLru(s, trace, blocks, u);
    ExactLru(s', trace, blocks, u);
    if trace != [] {
      var before, t := trace[..|trace| - 1], trace[|trace| - 1];
      assert t in trace;
      MoreLinesMissLess(s, s', before, blocks, u);
      HitIffRecentlyUsed(s, before, blocks, t, u);
      HitIffRecentlyUsed(s', before, blocks, t, u);
    }
  }

  // ---- what left-over tags can do ----

  /** Fresh lines with tags 7 and 5: after reads of 3 and 7 the tag 3 is gone, though the set has two lines. */
  lemma LeftOverTagWitness(blocks: int -> seq<Byte>)
    ensures var s := [Line(false, 7, []), Line(false, 5, [])];
            && !Hits(Run(s, [3, 7], blocks), 3)
            && Since([3, 7], 3) == {7} && !HitsAsLru(s, [3, 7], blocks, 3)
  {
    var s := [Line(false, 7, []), Line(false, 5, [])];
    var s1, s2 := Run(s, [3], blocks), Run(s, [3, 7], blocks);
    assert [3, 7][..1] == [3] && [3][..0] == [];
    assert Run(s, [], blocks) == s;
    assert FirstMatch(s, 3) == 2;
    assert s1 == [Line(true, 3, blocks(3)), Line(false, 7, [])];
    FirstMatchIs(s1, 7, 1);
    assert s2 == [Line(true, 7, blocks(7)), Line(false, 7, [])];
    FirstMatchIs(s2, 3, 2);
    assert Since([3], 3) == {};
  }

  lemma RunUnfolds(s: seq<Line>, before: seq<int>, t: int, blocks: int -> seq<Byte>)
    requires |s| > 0
    ensures Run(s, before + [t], blocks) == Read(Run(s, before, blocks), t, blocks(t))
  {
    assert (before + [t])[..|before|] == before;
  }

  lemma {:induction false} RunConcat(s: seq<Line>, a: seq<int>, b: seq<int>, blocks: int -> seq<Byte>)
    requires |s| > 0
    ensures Run(s, a + b, blocks) == Run(Run(s, a, blocks), b, blocks)
  {
    if b == [] {
      assert a + b == a;
    } else {
      hide Run;
      var before, t := b[..|b| - 1], b[|b| - 1];
      assert b == before + [t] && a + b == (a + before) + [t];
      RunConcat(s, a, before, blocks);
      RunUnfolds(s, a + before, t, blocks);
      RunUnfolds(Run(s, a, blocks), before, t, blocks);
    }
  }

  lemma ReadNew(s: seq<Line>, t: int, data: seq<Byte>)
    requires |s| > 0 && forall j | 0 <= j < |s| :: s[j].tag != t
    ensures Read(s, t, data)[0] == Line(true, t, data)
    ensures forall p | 1 <= p < |s| :: Read(s, t, data)[p] == s[p - 1]
  {
    FirstMatchIs(s, t, |s|);
  }

  lemma NotCarried(s: seq<Line>, t: int, p: nat)
    requires !Carries(s, t) && p < |s|
    ensures s[p].tag != t
  {
  }

  ghost predicate InFront(s: seq<Line>, v: seq<int>, r: seq<Line>)
  {
    && |v| <= |s| == |r|
    && (forall p | 0 <= p < |v| :: r[p].tag == v[|v| - 1 - p])
    && (forall p | |v| <= p < |s| :: r[p] == s[p - |v|])
  }

  lemma StillNew(s: seq<Line>, before: seq<int>, t: int, r: seq<Line>, p: nat)
    requires InFront(s, before, r) && t !in before && !Carries(s, t) && p < |s|
    ensures r[p].tag != t
  {
    if p >= |before| {
      NotCarried(s, t, p - |before|);
    }
  }

  lemma OneMoreInFront(s: seq<Line>, before: seq<int>, t: int, r: seq<Line>, r': seq<Line>)
    requires InFront(s, before, r) && |before| < |s| == |r'|
    requires r'[0].tag == t && forall p | 1 <= p < |s| :: r'[p] == r[p - 1]
    ensures InFront(s, before + [t], r')
  {
  }

  lemma LastIsNew(v: seq<int>)
    requires |v| > 0 && Distinct(v)
    ensures v[|v| - 1] !in v[..|v| - 1] && Distinct(v[..|v| - 1])
  {
  }

  /** Tags that no line carries push the other lines to the back. */
  lemma {:induction false} NewTagsPush(s: seq<Line>, v: seq<int>, blocks: int -> seq<Byte>)
    requires 0 < |s| && |v| <= |s| && Distinct(v) && forall t | t in v :: !Carries(s, t)
    ensures InFront(s, v, Run(s, v, blocks))
  {
    if v != [] {
      var before, t := v[..|v| - 1], v[|v| - 1];
      hide Run, Read, Carries, InFront, Distinct;
      assert v == before + [t];
      LastIsNew(v);
      NewTagsPush(s, before, blocks);
      var r := Run(s, before, blocks);
      forall p | 0 <= p < |s| ensures r[p].tag != t {
        StillNew(s, before, t, r, p);
      }
      ReadNew(r, t, blocks(t));
      RunUnfolds(s, before, t, blocks);
      OneMoreInFront(s, before, t, r, Run(s, v, blocks));
    }
  }

  lemma {:induction false} SinceCount(trace: seq<int>, t: int)
    ensures Since(trace, t) <= Elements(trace) - {t}
    ensures |Elements(trace)| <= |trace|
    ensures t in trace ==> |Since(trace, t)| < |trace|
  {
    if trace != [] {
      var before, x := trace[..|trace| - 1], trace[|trace| - 1];
      SinceCount(before, t);
      assert trace == before + [x];
      assert Elements(trace) == Elements(before) + {x};
    }
    if t in trace {
      Smaller(Since(trace, t), Elements(trace), t);
    }
  }

  lemma Smaller(a: set<int>, b: set<int>, t: int)
    requires a <= b - {t} && t in b
    ensures |a| < |b|
  {
    assert b == a + (b - a) && t in b - a;
  }

  /** The line with the tag is the last: it comes to the front, and the line before it is evicted instead. */
  lemma StaleLastRead(s: seq<Line>, x: int, data: seq<Byte>)
    requires |s| >= 2 && FirstMatch(s, x) == |s| - 1 && !s[|s| - 1].valid
    ensures Read(s, x, data)[0].tag == x && Read(s, x, data)[1].tag == x
    ensures forall p | 2 <= p < |s| :: Read(s, x, data)[p] == s[p - 2]
  {
    var s1, r := MakeMru(s, |s| - 1), Read(s, x, data);
    assert r == Fill(s1, Line(true, x, data));
    forall p | 1 <= p < |s| ensures r[p] == s[if p == 1 then |s| - 1 else p - 2] {
      assert r[p] == s1[p - 1];
    }
  }

  lemma LastReads(s: seq<Line>, v: seq<int>, x: int, w: seq<int>, blocks: int -> seq<Byte>)
    requires |s| > 0
    ensures Run(s, v + [x] + w, blocks) == Run(Read(Run(s, v, blocks), x, blocks(x)), w, blocks)
  {
    RunConcat(s, v + [x], w, blocks);
    assert (v + [x])[..|v|] == v;
  }

  /** The lines after reading spare tags until line i is the last. */
  ghost predicate Pushed(s: seq<Line>, i: nat, spare: seq<int>, s1: seq<Line>)
  {
    && i < |s| - 1 && |spare| == |s| - 1 == |s1| - 1 && Distinct(spare) && (forall t | t in spare :: !Carries(s, t))
    && var j := |s| - 1 - i;
       && (forall p | 0 <= p < j :: s1[p].tag == spare[j - 1 - p])
       && (forall p | j <= p < |s| :: s1[p] == s[p - j])
  }

  /** And after the read of that line's tag. */
  ghost predicate Misled(s: seq<Line>, i: nat, s1: seq<Line>, s2: seq<Line>)
  {
    && i < |s| == |s1| == |s2| && |s| >= 2 && s2[0].tag == s[i].tag && s2[1].tag == s[i].tag
    && forall p | 2 <= p < |s| :: s2[p] == s1[p - 2]
  }

  lemma SpareStaysNew(s: seq<Line>, i: nat, spare: seq<int>, s1: seq<Line>, s2: seq<Line>, k: nat)
    requires Pushed(s, i, spare, s1) && Misled(s, i, s1, s2) && |s| - 1 - i <= k < |spare|
    ensures !Carries(s2, spare[k])
  {
    var t := spare[k];
    assert t in spare;
    forall p | 0 <= p < |s2| ensures s2[p].tag != t {
      if p < 2 {
        assert Carries(s, s[i].tag);
      } else if p - 2 >= |s| - 1 - i {
        assert Carries(s, s1[p - 2].tag);
      }
    }
  }

  lemma FirstTagGone(s: seq<Line>, i: nat, spare: seq<int>, s1: seq<Line>, s2: seq<Line>, q: nat)
    requires Pushed(s, i, spare, s1) && Misled(s, i, s1, s2) && q < |s| - i
    ensures s2[q].tag != spare[0]
  {
    assert spare[0] in spare;
    if q < 2 {
      assert Carries(s, s[i].tag);
    }
  }

  /** A left-over tag in line i, not the last: spare tags bring that line to the back, the read of its tag then
      evicts a line too early, and after as many reads as there are lines the first tag is gone. */
  lemma LeftOverTagMisses(s: seq<Line>, blocks: int -> seq<Byte>, i: nat, spare: seq<int>)
    requires Unused(s) && i < |s| - 1 && |spare| == |s| - 1 && Distinct(spare)
    requires (forall t | t in spare :: !Carries(s, t)) && forall j | 0 <= j < i :: s[j].tag != s[i].tag
    ensures !HitsAsLru(s, spare[..|s| - 1 - i] + [s[i].tag] + spare[|s| - 1 - i..], blocks, spare[0])
  {
    hide Run, Read, FirstMatch, Carries, HitsAsLru;
    var n, x := |s|, s[i].tag;
    var j := n - 1 - i;
    var v, w := spare[..j], spare[j..];
    var s1 := Run(s, v, blocks);
    NewTagsPush(s, v, blocks);
    assert Pushed(s, i, spare, s1);
    StaleIsLast(s, i, spare, s1);
    var s2 := Read(s1, x, blocks(x));
    StaleLastRead(s1, x, blocks(x));
    forall t | t in w ensures !Carries(s2, t) {
      var k :| j <= k < |spare| && spare[k] == t;
      SpareStaysNew(s, i, spare, s1, s2, k);
    }
    NewTagsPush(s2, w, blocks);
    var s3 := Run(s2, w, blocks);
    forall p | 0 <= p < n ensures s3[p].tag != spare[0] {
      if p < i {
        assert s3[p].tag == w[i - 1 - p];
      } else {
        FirstTagGone(s, i, spare, s1, s2, p - i);
      }
    }
    LastReads(s, v, x, w, blocks);
    TooFewForMiss(s, v + [x] + w, blocks, spare[0], s3);
  }

  lemma StaleIsLast(s: seq<Line>, i: nat, spare: seq<int>, s1: seq<Line>)
    requires Unused(s) && Pushed(s, i, spare, s1) && forall j | 0 <= j < i :: s[j].tag != s[i].tag
    ensures FirstMatch(s1, s[i].tag) == |s| - 1 && !s1[|s| - 1].valid
  {
    var j, x := |s| - 1 - i, s[i].tag;
    forall p | 0 <= p < |s| - 1 ensures s1[p].tag != x {
      if p < j {
        assert spare[j - 1 - p] in spare;
        assert Carries(s, x);
      }
    }
    FirstMatchIs(s1, x, |s| - 1);
  }

  lemma TooFewForMiss(s: seq<Line>, trace: seq<int>, blocks: int -> seq<Byte>, t: int, r: seq<Line>)
    requires 0 < |s| == |trace| && t in trace && r == Run(s, trace, blocks) && forall p | 0 <= p < |r| :: r[p].tag != t
    ensures !HitsAsLru(s, trace, blocks, t)
  {
    hide Run, Since;
    SinceCount(trace, t);
    FirstMatchIs(r, t, |r|);
  }

  ghost predicate AlwaysLru(s: seq<Line>, blocks: int -> seq<Byte>, u: iset<int>)
    requires |s| > 0
  {
    forall trace, t | Over(trace, u) && t in u :: HitsAsLru(s, trace, blocks, t)
  }

  /** Reads of the tags of u hit exactly as the textbook says, in every order, if and only if no unused line but
      perhaps the last carries one of them. (The spare tags say that u has enough tags to fill the set with.) */
  lemma ExactIffFresh(s: seq<Line>, blocks: int -> seq<Byte>, u: iset<int>, spare: seq<int>)
    requires Unused(s) && |spare| == |s| - 1 && Distinct(spare) && forall t | t in spare :: t in u && !Carries(s, t)
    ensures AlwaysLru(s, blocks, u) <==> Fresh(s, u)
  {
    hide HitsAsLru, Carries;
    if Fresh(s, u) {
      forall trace, t | Over(trace, u) && t in u ensures HitsAsLru(s, trace, blocks, t) {
        HitIffRecentlyUsed(s, trace, blocks, t, u);
      }
    } else {
      var i := FirstStale(s, u);
      LeftOverTagMisses(s, blocks, i, spare);
      var trace := spare[..|s| - 1 - i] + [s[i].tag] + spare[|s| - 1 - i..];
      assert Over(trace, u) && spare[0] in spare;
    }
  }

  lemma FirstStale(s: seq<Line>, u: iset<int>) returns (i: nat)
    requires Unused(s) && !Fresh(s, u)
    ensures i < |s| - 1 && s[i].tag in u && forall j | 0 <= j < i :: s[j].tag !in u
  {
    i := 0;
    while s[i].tag !in u
      invariant i < |s| - 1 && forall j | 0 <= j < i :: s[j].tag !in u
      decreases |s| - i
    {
      assert exists k :: 0 <= k < |s| - 1 && s[k].tag in u;
      i := i + 1;
    }
  }

  // ---- what holds with any left-over tags ----

  /** On an unused set, only tags that were read are ever valid. */
  lemma {:induction false} ValidWasRead(s: seq<Line>, trace: seq<int>, blocks: int -> seq<Byte>)
    requires Unused(s)
    ensures forall i | 0 <= i < |s| && Run(s, trace, blocks)[i].valid :: Run(s, trace, blocks)[i].tag in trace
  {
    if trace != [] {
      var before, t := trace[..|trace| - 1], trace[|trace| - 1];
      ValidWasRead(s, before, blocks);
      var r := Run(s, before, blocks);
      assert trace == before + [t];
      forall i | 0 <= i < |s|
        ensures Read(r, t, blocks(t))[i] in r || Read(r, t, blocks(t))[i] == Line(true, t, blocks(t))
      {
        ReadLines(r, t, blocks(t), i);
      }
    }
  }

  /** The tag read last always hits. */
  lemma JustReadHits(s: seq<Line>, trace: seq<int>, blocks: int -> seq<Byte>)
    requires |s| > 0 && trace != []
    ensures Hits(Run(s, trace, blocks), trace[|trace| - 1])
  {
    var before, t := trace[..|trace| - 1], trace[|trace| - 1];
    ReadInFront(Run(s, before, blocks), t, blocks(t));
    FirstMatchIs(Run(s, trace, blocks), t, 0);
  }
}
