/** The Y86-64 exchange sort of lab2/sort_64.ys: from its first instruction to halt it sorts any array,
    in a bounded number of steps. */
module Y86ExchangeSort {
  import opened Bits
  import opened Y86
  import opened QuickSort
  import opened Y86QuickSort

  const P64 := Sort64Ys

  // ---- what the program computes ----

  /** The inner loop: element k against the elements from j on. */
  function Exchange(s: seq<int>, k: nat, j: nat): (s': seq<int>)
    requires k < j <= |s|
    ensures |s'| == |s|
    decreases |s| - j
  {
    if j == |s| then s else Exchange(if s[j] < s[k] then Swap(s, k, j) else s, k, j + 1)
  }

  /** The outer loop from element k on. */
  function Rounds(s: seq<int>, k: nat): (s': seq<int>)
    requires k <= |s|
    ensures |s'| == |s|
    decreases |s| - k
  {
    if k == |s| then s else Rounds(Exchange(s, k, k + 1), k + 1)
  }

  /** The first k elements are in their final places. */
  ghost predicate Settled(s: seq<int>, k: nat)
  {
    forall i, j | 0 <= i < k && i < j < |s| :: s[i] <= s[j]
  }

  lemma SwapSettles(s: seq<int>, k: nat, j: nat)
    requires k < j < |s| && Settled(s, k) && s[j] < s[k] && forall l | k < l < j :: s[k] <= s[l]
    ensures Settled(Swap(s, k, j), k) && multiset(Swap(s, k, j)) == multiset(s)
    ensures forall l | k < l <= j :: Swap(s, k, j)[k] <= Swap(s, k, j)[l]
  {
    SwapPermutes(s, k, j);
  }

  lemma RoundDone(s: seq<int>, k: nat)
    requires k < |s| && Settled(s, k) && forall l | k < l < |s| :: s[k] <= s[l]
    ensures Settled(s, k + 1)
  {
  }

  lemma {:induction false} ExchangeSettles(s: seq<int>, k: nat, j: nat)
    requires k < j <= |s| && Settled(s, k) && forall l | k < l < j :: s[k] <= s[l]
    ensures Settled(Exchange(s, k, j), k + 1) && multiset(Exchange(s, k, j)) == multiset(s)
    decreases |s| - j
  {
    hide Settled, Swap;
    if j == |s| {
      RoundDone(s, k);
    } else if s[j] < s[k] {
      SwapSettles(s, k, j);
      ExchangeSettles(Swap(s, k, j), k, j + 1);
    } else {
      ExchangeSettles(s, k, j + 1);
    }
  }

  lemma {:induction false} RoundsSort(s: seq<int>, k: nat)
    requires k <= |s| && Settled(s, k)
    ensures Sorted(Rounds(s, k)) && multiset(Rounds(s, k)) == multiset(s)
    decreases |s| - k
  {
    if k < |s| {
      ExchangeSettles(s, k, k + 1);
      RoundsSort(Exchange(s, k, k + 1), k + 1);
    }
  }

  // ---- straight-line code ----

  lemma Start(s: State)
    requires s.status == AOK && s.pc == 0x100 && 0x1008 in s.mem && 0x1000 in s.mem
    ensures Run(P64, s, 4) == s.(pc := 0x128, regs := s.regs.(rax := s.mem[0x1008], rcx := s.mem[0x1000]))
  {
    hide Run, Flags, Holds, Quotient, Wrap;
    var s1 := s.(pc := 0x10a, regs := s.regs.(rax := 0x1008));
    One(P64, s, s1, 3);
    var s2 := s1.(pc := 0x114, regs := s1.regs.(rax := s.mem[0x1008]));
    One(P64, s1, s2, 2);
    var s3 := s2.(pc := 0x11e, regs := s2.regs.(rcx := 0x1000));
    One(P64, s2, s3, 1);
    One(P64, s3, s3.(pc := 0x128, regs := s3.regs.(rcx := s.mem[0x1000])), 0);
  }

  lemma OuterTest(s: State)
    requires s.status == AOK && s.pc == 0x128 && 0 <= s.regs.rax < WORD_LIMIT
    ensures var s' := Run(P64, s, 3);
            s' == s.(pc := if s.regs.rax == 0 then 0x1c3 else 0x13d, cc := s'.cc,
                     regs := s.regs.(rdi := 1, rax := s.regs.rax - 1))
  {
    hide Run, Flags, Holds, Quotient, Wrap;
    NoWrap(s.regs.rax - 1);
    SubCompares(1, s.regs.rax);
    var s1 := s.(pc := 0x132, regs := s.regs.(rdi := 1));
    One(P64, s, s1, 2);
    var s2 := s1.(pc := 0x134, regs := s1.regs.(rax := s.regs.rax - 1), cc := Flags(Sub, 1, s.regs.rax));
    One(P64, s1, s2, 1);
    One(P64, s2, s2.(pc := if s.regs.rax == 0 then 0x1c3 else 0x13d), 0);
  }

  lemma BeginRound(s: State)
    requires s.status == AOK && s.pc == 0x13d && 0 <= s.regs.rcx < ADDRESS_LIMIT && s.regs.rcx in s.mem
    ensures var s' := Run(P64, s, 5);
            s' == s.(pc := 0x157, cc := s'.cc,
                     regs := s.regs.(rbx := s.mem[s.regs.rcx], rdx := s.regs.rax, rsi := s.regs.rcx + 8, rdi := 8))
  {
    hide Run, Step;
    CopyCursors(s);
    PassElement(Run(P64, s, 3));
    RunAdd(P64, s, 3, 2);
  }

  lemma CopyCursors(s: State)
    requires s.status == AOK && s.pc == 0x13d && s.regs.rcx in s.mem
    ensures Run(P64, s, 3)
            == s.(pc := 0x14b, regs := s.regs.(rbx := s.mem[s.regs.rcx], rdx := s.regs.rax, rsi := s.regs.rcx))
  {
    hide Run, Flags, Holds, Quotient, Wrap;
    var s1 := s.(pc := 0x147, regs := s.regs.(rbx := s.mem[s.regs.rcx]));
    One(P64, s, s1, 2);
    var s2 := s1.(pc := 0x149, regs := s1.regs.(rdx := s.regs.rax));
    One(P64, s1, s2, 1);
    One(P64, s2, s2.(pc := 0x14b, regs := s2.regs.(rsi := s.regs.rcx)), 0);
  }

  lemma PassElement(s: State)
    requires s.status == AOK && s.pc == 0x14b && 0 <= s.regs.rsi < ADDRESS_LIMIT
    ensures var s' := Run(P64, s, 2);
            s' == s.(pc := 0x157, cc := s'.cc, regs := s.regs.(rdi := 8, rsi := s.regs.rsi + 8))
  {
    hide Run, Flags, Holds, Quotient, Wrap;
    NoWrap(s.regs.rsi + 8);
    var s1 := s.(pc := 0x155, regs := s.regs.(rdi := 8));
    One(P64, s, s1, 1);
    One(P64, s1, s1.(pc := 0x157, regs := s1.regs.(rsi := s.regs.rsi + 8), cc := Flags(Add, 8, s.regs.rsi)), 0);
  }

  lemma InnerTest(s: State)
    requires s.status == AOK && s.pc == 0x157 && 0 <= s.regs.rdx < WORD_LIMIT
    ensures var s' := Run(P64, s, 3);
            s' == s.(pc := if s.regs.rdx == 0 then 0x1ae else 0x16c, cc := s'.cc,
                     regs := s.regs.(rdi := 1, rdx := s.regs.rdx - 1))
  {
    hide Run, Flags, Holds, Quotient, Wrap;
    NoWrap(s.regs.rdx - 1);
    SubCompares(1, s.regs.rdx);
    var s1 := s.(pc := 0x161, regs := s.regs.(rdi := 1));
    One(P64, s, s1, 2);
    var s2 := s1.(pc := 0x163, regs := s1.regs.(rdx := s.regs.rdx - 1), cc := Flags(Sub, 1, s.regs.rdx));
    One(P64, s1, s2, 1);
    One(P64, s2, s2.(pc := if s.regs.rdx == 0 then 0x1ae else 0x16c), 0);
  }

  /** *b against *a, exact even when the subtraction overflows. */
  lemma CompareElements(s: State)
    requires s.status == AOK && s.pc == 0x16c && s.regs.rsi in s.mem
    requires IsWord(s.mem[s.regs.rsi]) && IsWord(s.regs.rbx)
    ensures var v, s' := s.mem[s.regs.rsi], Run(P64, s, 4);
            s' == s.(pc := if v >= s.regs.rbx then 0x199 else 0x183, cc := s'.cc,
                     regs := s.regs.(rdi := v, rbp := s'.regs.rbp))
  {
    hide Run, Flags, Holds, Quotient, Wrap;
    var v := s.mem[s.regs.rsi];
    SubCompares(s.regs.rbx, v);
    var s1 := s.(pc := 0x176, regs := s.regs.(rdi := v));
    One(P64, s, s1, 3);
    var s2 := s1.(pc := 0x178, regs := s1.regs.(rbp := v));
    One(P64, s1, s2, 2);
    var s3 := s2.(pc := 0x17a, regs := s2.regs.(rbp := Wrap(v - s.regs.rbx)), cc := Flags(Sub, s.regs.rbx, v));
    One(P64, s2, s3, 1);
    One(P64, s3, s3.(pc := if v >= s.regs.rbx then 0x199 else 0x183), 0);
  }

  lemma SwapElements(s: State)
    requires s.status == AOK && s.pc == 0x183 && s.regs.rsi in s.mem && s.regs.rcx in s.mem
    ensures Run(P64, s, 3) == s.(pc := 0x199, regs := s.regs.(rbx := s.regs.rdi),
                                 mem := s.mem[s.regs.rsi := s.regs.rbx][s.regs.rcx := s.regs.rdi])
  {
    hide Run, Flags, Holds, Quotient, Wrap;
    var s1 := s.(pc := 0x18d, mem := s.mem[s.regs.rsi := s.regs.rbx]);
    One(P64, s, s1, 2);
    var s2 := s1.(pc := 0x197, mem := s1.mem[s.regs.rcx := s.regs.rdi]);
    One(P64, s1, s2, 1);
    One(P64, s2, s2.(pc := 0x199, regs := s.regs.(rbx := s.regs.rdi)), 0);
  }

  lemma NextElement(s: State)
    requires s.status == AOK && s.pc == 0x199 && 0 <= s.regs.rsi < ADDRESS_LIMIT
    ensures var s' := Run(P64, s, 3);
            s' == s.(pc := 0x157, cc := s'.cc, regs := s.regs.(rdi := 8, rsi := s.regs.rsi + 8))
  {
    hide Run, Flags, Quotient, Wrap;
    NoWrap(s.regs.rsi + 8);
    var s1 := s.(pc := 0x1a3, regs := s.regs.(rdi := 8));
    One(P64, s, s1, 2);
    var s2 := s1.(pc := 0x1a5, regs := s1.regs.(rsi := s.regs.rsi + 8), cc := Flags(Add, 8, s.regs.rsi));
    One(P64, s1, s2, 1);
    One(P64, s2, s2.(pc := 0x157), 0);
  }

  lemma EndRound(s: State)
    requires s.status == AOK && s.pc == 0x1ae && 0 <= s.regs.rcx < ADDRESS_LIMIT
    ensures var s' := Run(P64, s, 3);
            s' == s.(pc := 0x128, cc := s'.cc, regs := s.regs.(rdi := 8, rcx := s.regs.rcx + 8))
  {
    hide Run, Flags, Quotient, Wrap;
    NoWrap(s.regs.rcx + 8);
    var s1 := s.(pc := 0x1b8, regs := s.regs.(rdi := 8));
    One(P64, s, s1, 2);
    var s2 := s1.(pc := 0x1ba, regs := s1.regs.(rcx := s.regs.rcx + 8), cc := Flags(Add, 8, s.regs.rcx));
    One(P64, s1, s2, 1);
    One(P64, s2, s2.(pc := 0x128), 0);
  }

  lemma Halts(s: State)
    requires s.status == AOK && s.pc == 0x1c3
    ensures Run(P64, s, 1) == s.(status := HLT)
  {
    hide Run;
    One(P64, s, s.(status := HLT), 0);
  }

  // ---- the loops ----

  /** The array at base holds t, and nothing else in memory has changed. */
  ghost predicate Holding(base: int, mem0: map<int, int>, s: State, t: seq<int>)
  {
    && s.status == AOK && 0 <= base && base + 8 * |t| < ADDRESS_LIMIT - 8
    && SameExcept(mem0, s.mem, base, base + 8 * |t|, 0, 0)
    && HasWords(s.mem, base, |t|) && Words(s.mem, base, |t|) == t && AllWords(t)
  }

  /** Before round k. */
  ghost predicate AtOuter(base: int, mem0: map<int, int>, s: State, t: seq<int>, k: nat)
  {
    && Holding(base, mem0, s, t) && s.pc == 0x128 && k <= |t|
    && s.regs.rcx == base + 8 * k && s.regs.rax == |t| - k
  }

  /** In round k, before comparing with element j. */
  ghost predicate AtInner(base: int, mem0: map<int, int>, s: State, t: seq<int>, k: nat, j: nat)
  {
    && Holding(base, mem0, s, t) && s.pc == 0x157 && k < j <= |t|
    && s.regs.rcx == base + 8 * k && s.regs.rsi == base + 8 * j && s.regs.rbx == t[k]
    && s.regs.rax == |t| - k - 1 && s.regs.rdx == |t| - j
  }

  lemma InnerFacts(base: int, mem0: map<int, int>, s: State, t: seq<int>, k: nat, j: nat)
    requires AtInner(base, mem0, s, t, k, j) && j < |t|
    ensures s.status == AOK && s.pc == 0x157 && s.regs.rdx == |t| - j < ADDRESS_LIMIT
    ensures s.regs.rsi in s.mem && s.mem[s.regs.rsi] == t[j] && IsWord(t[j]) && 0 <= s.regs.rsi < ADDRESS_LIMIT
    ensures s.regs.rcx in s.mem && s.regs.rbx == t[k] && IsWord(t[k])
  {
  }

  lemma Swapped(base: int, mem0: map<int, int>, s: State, t: seq<int>, k: nat, j: nat, s': State)
    requires Holding(base, mem0, s, t) && k < |t| && j < |t| && s'.status == AOK
    requires s'.mem == s.mem[base + 8 * j := t[k]][base + 8 * k := t[j]]
    ensures Holding(base, mem0, s', Swap(t, k, j))
  {
    assert base + 8 * j in s.mem && base + 8 * k in s.mem;
    WordsUpdated(s.mem, base, |t|, j, t[k]);
    WordsUpdated(s.mem[base + 8 * j := t[k]], base, |t|, k, t[j]);
    assert t[j := t[k]][k := t[j]] == Swap(t, k, j);
  }

  /** One comparison takes at most 13 steps. */
  lemma InnerStep(base: int, mem0: map<int, int>, s: State, t: seq<int>, k: nat, j: nat) returns (n: nat)
    requires AtInner(base, mem0, s, t, k, j) && j < |t|
    ensures n <= 13 && AtInner(base, mem0, Run(P64, s, n), if t[j] < t[k] then Swap(t, k, j) else t, k, j + 1)
  {
    hide Run, Step;
    InnerFacts(base, mem0, s, t, k, j);
    InnerTest(s);
    var s1 := Run(P64, s, 3);
    CompareElements(s1);
    var s2 := Run(P64, s1, 4);
    RunAdd(P64, s, 3, 4);
    if t[j] < t[k] {
      SwapElements(s2);
      var s3 := Run(P64, s2, 3);
      RunAdd(P64, s, 7, 3);
      Swapped(base, mem0, s, t, k, j, s3);
      NextElement(s3);
      RunAdd(P64, s, 10, 3);
      n := 13;
    } else {
      NextElement(s2);
      RunAdd(P64, s, 7, 3);
      n := 10;
    }
  }

  lemma InnerEnds(base: int, mem0: map<int, int>, s: State, t: seq<int>, k: nat)
    requires AtInner(base, mem0, s, t, k, |t|)
    ensures AtOuter(base, mem0, Run(P64, s, 6), t, k + 1)
  {
    hide Run, Step;
    InnerTest(s);
    EndRound(Run(P64, s, 3));
    RunAdd(P64, s, 3, 3);
  }

  lemma ExchangeUnfolds(t: seq<int>, k: nat, j: nat)
    requires k < j <= |t|
    ensures Exchange(t, k, j) == if j == |t| then t else Exchange(if t[j] < t[k] then Swap(t, k, j) else t, k, j + 1)
  {
  }

  lemma InnerSize(base: int, mem0: map<int, int>, s: State, t: seq<int>, k: nat, j: nat)
    requires AtInner(base, mem0, s, t, k, j)
    ensures k < j <= |t|
  {
  }

  lemma {:induction false} InnerRuns(base: int, mem0: map<int, int>, s: State, t: seq<int>, k: nat, j: nat)
    returns (n: nat)
    requires AtInner(base, mem0, s, t, k, j)
    ensures k < j <= |t| && n <= 13 * (|t| - j) + 6
    ensures AtOuter(base, mem0, Run(P64, s, n), Exchange(t, k, j), k + 1)
    decreases |t| - j
  {
    hide *;
    InnerSize(base, mem0, s, t, k, j);
    ExchangeUnfolds(t, k, j);
    if j == |t| {
      InnerEnds(base, mem0, s, t, k);
      n := 6;
    } else {
      var n1 := InnerStep(base, mem0, s, t, k, j);
      var n2 := InnerRuns(base, mem0, Run(P64, s, n1), if t[j] < t[k] then Swap(t, k, j) else t, k, j + 1);
      RunAdd(P64, s, n1, n2);
      n := n1 + n2;
    }
  }

  lemma BeginInner(base: int, mem0: map<int, int>, s: State, t: seq<int>, k: nat)
    requires AtOuter(base, mem0, s, t, k) && k < |t|
    ensures AtInner(base, mem0, Run(P64, s, 8), t, k, k + 1)
  {
    hide Run, Step;
    assert base + 8 * k in s.mem && s.mem[base + 8 * k] == t[k];
    OuterTest(s);
    BeginRound(Run(P64, s, 3));
    RunAdd(P64, s, 3, 5);
  }

  /** The program has halted with the sorted array; the rest of memory is as before. */
  ghost predicate Finished(base: int, mem0: map<int, int>, s: State, t: seq<int>)
  {
    && s.status == HLT && SameExcept(mem0, s.mem, base, base + 8 * |t|, 0, 0)
    && HasWords(s.mem, base, |t|) && Words(s.mem, base, |t|) == t
  }

  lemma OuterEnds(base: int, mem0: map<int, int>, s: State, t: seq<int>)
    requires AtOuter(base, mem0, s, t, |t|)
    ensures Finished(base, mem0, Run(P64, s, 4), t)
  {
    hide Run, Step;
    OuterTest(s);
    Halts(Run(P64, s, 3));
    RunAdd(P64, s, 3, 1);
  }

  lemma OuterSize(base: int, mem0: map<int, int>, s: State, t: seq<int>, k: nat)
    requires AtOuter(base, mem0, s, t, k)
    ensures k <= |t|
  {
  }

  lemma RoundsUnfolds(t: seq<int>, k: nat)
    requires k <= |t|
    ensures Rounds(t, k) == if k == |t| then t else Rounds(Exchange(t, k, k + 1), k + 1)
  {
  }

  /** Steps for r more rounds: 14 and at most 13 a comparison in each, and 4 to stop. */
  function StepBound(r: nat): nat
  {
    if r == 0 then 4 else 14 + 13 * (r - 1) + StepBound(r - 1)
  }

  lemma {:induction false} StepBoundClosed(r: nat)
    ensures 2 * StepBound(r) == 13 * r * r + 15 * r + 8
  {
    if r > 0 {
      StepBoundClosed(r - 1);
    }
  }

  lemma StepBoundUnfolds(r: nat, n1: nat, n2: nat)
    requires r > 0 && n1 <= 13 * (r - 1) + 6 && n2 <= StepBound(r - 1)
    ensures 8 + (n1 + n2) <= StepBound(r)
  {
  }

  lemma {:induction false} OuterRuns(base: int, mem0: map<int, int>, s: State, t: seq<int>, k: nat) returns (n: nat)
    requires AtOuter(base, mem0, s, t, k)
    ensures k <= |t| && n <= StepBound(|t| - k) && Finished(base, mem0, Run(P64, s, n), Rounds(t, k))
    decreases |t| - k
  {
    hide *;
    OuterSize(base, mem0, s, t, k);
    RoundsUnfolds(t, k);
    if k == |t| {
      OuterEnds(base, mem0, s, t);
      n := 4;
      assert n <= StepBound(0) by { StepBoundClosed(0); }
    } else {
      BeginInner(base, mem0, s, t, k);
      var s1 := Run(P64, s, 8);
      var n1 := InnerRuns(base, mem0, s1, t, k, k + 1);
      var n2 := OuterRuns(base, mem0, Run(P64, s1, n1), Exchange(t, k, k + 1), k + 1);
      RunAdd(P64, s1, n1, n2);
      RunAdd(P64, s, 8, n1 + n2);
      StepBoundUnfolds(|t| - k, n1, n2);
      n := 8 + (n1 + n2);
    }
  }

  lemma Begins(s: State, base: int, len: nat)
    requires s.status == AOK && s.pc == 0x100
    requires 0x1000 in s.mem && s.mem[0x1000] == base && 0x1008 in s.mem && s.mem[0x1008] == len
    requires 0 <= base && base + 8 * len < ADDRESS_LIMIT - 8
    requires HasWords(s.mem, base, len) && AllWords(Words(s.mem, base, len))
    ensures AtOuter(base, s.mem, Run(P64, s, 4), Words(s.mem, base, len), 0)
  {
    hide Run, Step;
    Start(s);
  }

  lemma Results(base: int, mem0: map<int, int>, s: State, t: seq<int>)
    requires Finished(base, mem0, s, t)
    ensures s.status == HLT && SameExcept(mem0, s.mem, base, base + 8 * |t|, 0, 0)
    ensures HasWords(s.mem, base, |t|) && Words(s.mem, base, |t|) == t
  {
  }

  lemma Nothing(s: seq<int>)
    ensures Settled(s, 0)
  {
  }

  /** From start to halt: the array whose address and length are in memory at a and aSize is sorted in place,
      nothing else changes, and about 6.5 n^2 steps are enough. The array is apart from the code, which is at 0x100
      to 0x1c3. */
  lemma ExchangeSortHalts(s: State, base: int, len: nat) returns (n: nat)
    requires s.status == AOK && s.pc == 0x100
    requires 0x1000 in s.mem && s.mem[0x1000] == base && 0x1008 in s.mem && s.mem[0x1008] == len
    requires 0 <= base && base + 8 * len < ADDRESS_LIMIT - 8 && (base + 8 * len <= 0x100 || 0x1c4 <= base)
    requires HasWords(s.mem, base, len) && AllWords(Words(s.mem, base, len))
    ensures 2 * n <= 13 * len * len + 15 * len + 16
    ensures var w, s' := Words(s.mem, base, len), Run(P64, s, n);
            && s'.status == HLT && SameExcept(s.mem, s'.mem, base, base + 8 * len, 0, 0)
            && HasWords(s'.mem, base, len)
            && Sorted(Words(s'.mem, base, len)) && multiset(Words(s'.mem, base, len)) == multiset(w)
  {
    hide *;
    var w := Words(s.mem, base, len);
    Begins(s, base, len);
    var s1 := Run(P64, s, 4);
    var n1 := OuterRuns(base, s.mem, s1, w, 0);
    RunAdd(P64, s, 4, n1);
    Nothing(w);
    RoundsSort(w, 0);
    Results(base, s.mem, Run(P64, s1, n1), Rounds(w, 0));
    StepBoundClosed(len);
    n := 4 + n1;
  }
}
