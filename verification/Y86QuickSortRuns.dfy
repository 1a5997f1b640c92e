/** The blocks of the Y86-64 quickSort put together: the loop is the partition loop of the C function,
    and a call returns with the array as Sort leaves it. */
module Y86QuickSortRuns {
  import opened Products
  import opened Y86
  import opened QuickSort
  import opened Y86QuickSort

  /** The call that s0 makes: base and length of the array, and the stack pointer at the return address. */
  datatype Caller = Caller(base: int, len: nat, sp: int, rbx: int, rbp: int, r12: int, ret: int)

  ghost predicate IsCall(s0: State, c: Caller)
  {
    && s0.status == AOK && s0.pc == 0x1000
    && s0.regs.rdi == c.base && s0.regs.rsi == c.len && s0.regs.rsp == c.sp
    && s0.regs.rbx == c.rbx && s0.regs.rbp == c.rbp && s0.regs.r12 == c.r12
    && Callable(s0.mem, c.base, c.len, c.sp) && s0.mem[c.sp] == c.ret
  }

  /** Only the array and the stack below the return address have changed. */
  ghost predicate Framed(c: Caller, mem0: map<int, int>, mem: map<int, int>)
  {
    SameExcept(mem0, mem, c.base, c.base + 8 * c.len, c.sp - StackUse(c.len), c.sp)
  }

  /** Inside the call: the callee-saved registers are on the stack, and the array holds t. */
  ghost predicate Inside(c: Caller, mem0: map<int, int>, s: State, t: seq<int>)
  {
    && s.status == AOK && s.regs.rsp == c.sp - 24
    && Framed(c, mem0, s.mem) && Callable(s.mem, c.base, c.len, c.sp)
    && s.mem[c.sp] == c.ret
    && c.sp - 8 in s.mem && s.mem[c.sp - 8] == c.r12
    && c.sp - 16 in s.mem && s.mem[c.sp - 16] == c.rbp
    && c.sp - 24 in s.mem && s.mem[c.sp - 24] == c.rbx
    && Words(s.mem, c.base, c.len) == t
  }

  /** At the loop: cursors i and j, the pivot, and the address of the last element in their registers. */
  ghost predicate InLoop(c: Caller, mem0: map<int, int>, s: State, t: seq<int>, i: nat, j: nat)
  {
    && Inside(c, mem0, s, t) && i <= j < c.len
    && s.regs.rax == c.base + 8 * j && s.regs.rbx == c.base + 8 * i && s.regs.rcx == c.base + 8 * (c.len - 1)
    && s.regs.rdi == c.base && s.regs.rbp == c.len && s.regs.r8 == t[c.len - 1]
  }

  /** Writing array elements keeps everything else of the call in place. */
  lemma ArrayWritten(c: Caller, mem0: map<int, int>, s: State, t: seq<int>, k: nat, v: int, s': State)
    requires Inside(c, mem0, s, t) && k < c.len && IsWord(v)
    requires s'.status == AOK && s'.regs.rsp == s.regs.rsp && s'.mem == s.mem[c.base + 8 * k := v]
    ensures Inside(c, mem0, s', t[k := v])
  {
    WordsUpdated(s.mem, c.base, c.len, k, v);
    CallableKept(c.base, c.len, c.sp, s.mem, s'.mem);
  }

  lemma CallableKept(base: int, len: nat, sp: int, mem: map<int, int>, mem': map<int, int>)
    requires Callable(mem, base, len, sp) && mem'.Keys == mem.Keys
    requires HasWords(mem', base, len) && AllWords(Words(mem', base, len))
    ensures Callable(mem', base, len, sp)
  {
  }

  /** What the loop reads: the two elements under the cursors, and addresses in range. */
  lemma LoopFacts(c: Caller, mem0: map<int, int>, s: State, t: seq<int>, i: nat, j: nat)
    requires InLoop(c, mem0, s, t, i, j)
    ensures s.status == AOK && |t| == c.len && 0 <= s.regs.rbx <= s.regs.rax <= s.regs.rcx < ADDRESS_LIMIT
    ensures s.regs.rax in s.mem && s.mem[s.regs.rax] == t[j] && IsWord(t[j])
    ensures s.regs.rbx in s.mem && s.mem[s.regs.rbx] == t[i] && IsWord(t[i])
    ensures s.regs.rcx in s.mem && s.mem[s.regs.rcx] == t[c.len - 1] == s.regs.r8 && IsWord(s.regs.r8)
  {
  }

  /** After the comparison, and the swap if there was one, j moves on. */
  lemma LoopNext(c: Caller, mem0: map<int, int>, s: State, t: seq<int>, i: nat, j: nat, s1: State, t': seq<int>,
                 i': nat)
      returns (n: nat)
    requires InLoop(c, mem0, s, t, i, j) && j < c.len - 1
    requires Inside(c, mem0, s1, t') && s1.pc == 0x1100 && |t'| == |t| && t'[c.len - 1] == t[c.len - 1]
             && i <= i' <= i + 1
    requires s1.regs.rax == s.regs.rax && s1.regs.rbx == c.base + 8 * i' && s1.regs.rcx == s.regs.rcx
    requires s1.regs.rdi == s.regs.rdi && s1.regs.rbp == s.regs.rbp && s1.regs.r8 == s.regs.r8
    ensures n <= 6 && InLoop(c, mem0, Run(P, s1, n), t', i', j + 1)
    ensures Run(P, s1, n).pc == if j + 1 == c.len - 1 then 0x1048 else 0x10bf
  {
    hide Run, Step;
    n := Advance(s1);
  }

  /** One round of the loop. */
  lemma LoopRound(c: Caller, mem0: map<int, int>, s: State, t: seq<int>, i: nat, j: nat) returns (n: nat)
    requires InLoop(c, mem0, s, t, i, j) && j < c.len - 1 && s.pc == 0x10bf
    ensures n <= 15
    ensures var s', left := Run(P, s, n), t[j] <= t[c.len - 1];
            && InLoop(c, mem0, s', if left then Swap(t, i, j) else t, if left then i + 1 else i, j + 1)
            && s'.pc == if j + 1 == c.len - 1 then 0x1048 else 0x10bf
  {
    hide Run, Step, Framed, Callable, Words;
    LoopFacts(c, mem0, s, t, i, j);
    Compare(s);
    var s1 := Run(P, s, 4);
    if t[j] <= t[c.len - 1] {
      SwapInLoop(s1);
      var s2 := Run(P, s1, 5);
      RunAdd(P, s, 4, 5);
      SwapWritten(c, mem0, s1, t, i, j, s2);
      var n2 := LoopNext(c, mem0, s, t, i, j, s2, Swap(t, i, j), i + 1);
      RunAdd(P, s, 9, n2);
      n := 9 + n2;
    } else {
      var n1 := LoopNext(c, mem0, s, t, i, j, s1, t, i);
      RunAdd(P, s, 4, n1);
      n := 4 + n1;
    }
  }

  lemma SwapWritten(c: Caller, mem0: map<int, int>, s: State, t: seq<int>, i: nat, j: nat, s': State)
    requires Inside(c, mem0, s, t) && i < c.len && j < c.len && s'.status == AOK && s'.regs.rsp == s.regs.rsp
    requires s'.mem == s.mem[c.base + 8 * j := t[i]][c.base + 8 * i := t[j]]
    ensures Inside(c, mem0, s', Swap(t, i, j))
  {
    var s1 := s.(mem := s.mem[c.base + 8 * j := t[i]]);
    assert IsWord(t[i]) && IsWord(t[j]);
    ArrayWritten(c, mem0, s, t, j, t[i], s1);
    ArrayWritten(c, mem0, s1, t[j := t[i]], i, t[j], s');
    assert t[j := t[i]][i := t[j]] == Swap(t, i, j);
  }

  lemma PartitionUnfolds(t: seq<int>, i: nat, j: nat)
    requires i <= j < |t|
    ensures PartitionFrom(t, i, j) ==
            if j == |t| - 1 then (t, i)
            else if t[j] <= t[|t| - 1] then PartitionFrom(Swap(t, i, j), i + 1, j + 1)
            else PartitionFrom(t, i, j + 1)
  {
  }

  lemma InLoopSize(c: Caller, mem0: map<int, int>, s: State, t: seq<int>, i: nat, j: nat)
    requires InLoop(c, mem0, s, t, i, j)
    ensures |t| == c.len && i <= j < c.len
  {
  }

  lemma NoSteps(s: State)
    ensures Run(P, s, 0) == s
  {
  }

  /** The loop computes PartitionFrom. */
  lemma {:induction false} LoopRuns(c: Caller, mem0: map<int, int>, s: State, t: seq<int>, i: nat, j: nat)
    returns (n: nat)
    requires InLoop(c, mem0, s, t, i, j) && s.pc == if j == c.len - 1 then 0x1048 else 0x10bf
    ensures |t| == c.len && i <= j < c.len && n <= 15 * (c.len - 1 - j)
    ensures var (u, m) := PartitionFrom(t, i, j);
            InLoop(c, mem0, Run(P, s, n), u, m, c.len - 1) && Run(P, s, n).pc == 0x1048
    decreases c.len - j
  {
    hide *;
    InLoopSize(c, mem0, s, t, i, j);
    PartitionUnfolds(t, i, j);
    if j == c.len - 1 {
      NoSteps(s);
      n := 0;
    } else {
      var n1 := LoopRound(c, mem0, s, t, i, j);
      var left := t[j] <= t[c.len - 1];
      var n2 := LoopRuns(c, mem0, Run(P, s, n1), if left then Swap(t, i, j) else t, if left then i + 1 else i, j + 1);
      RunAdd(P, s, n1, n2);
      n := n1 + n2;
    }
  }

  // ---- entry ----

  lemma Entered(c: Caller, s0: State, s: State)
    requires IsCall(s0, c) && s.status == AOK && s.regs.rsp == c.sp - 24
    requires s.mem == s0.mem[c.sp - 8 := c.r12][c.sp - 16 := c.rbp][c.sp - 24 := c.rbx]
    ensures Inside(c, s0.mem, s, Words(s0.mem, c.base, c.len))
  {
    StackSlots(s0.mem, c.base, c.len, c.sp);
    assert SameExcept(s0.mem, s.mem, c.sp - 24, c.sp, 0, 0);
    WordsKept(s0.mem, s.mem, c.sp - 24, c.sp, 0, 0, c.base, c.len);
    CallableKept(c.base, c.len, c.sp, s0.mem, s.mem);
  }

  lemma CallFacts(c: Caller, s0: State)
    requires IsCall(s0, c)
    ensures StackUse(c.len) <= c.sp < ADDRESS_LIMIT && 32 <= StackUse(c.len) && 0 <= c.base
            && c.base + 8 * c.len < ADDRESS_LIMIT
    ensures c.sp - 8 in s0.mem && c.sp - 16 in s0.mem && c.sp - 24 in s0.mem && c.sp - 32 in s0.mem
    ensures HasWords(s0.mem, c.base, c.len) && AllWords(Words(s0.mem, c.base, c.len))
  {
    StackSlots(s0.mem, c.base, c.len, c.sp);
  }

  /** From the entry to the end of the test for short arrays. */
  lemma Begin(c: Caller, s0: State)
    requires IsCall(s0, c)
    ensures var s := Run(P, s0, 7);
            && HasWords(s0.mem, c.base, c.len) && Inside(c, s0.mem, s, Words(s0.mem, c.base, c.len))
            && s.pc == (if c.len <= 1 then 0x1122 else 0x101d)
            && s.regs.rdi == c.base && s.regs.rsi == c.len && s.regs.rbp == c.len
  {
    hide Run, Step, Callable, StackUse, Words, Framed;
    CallFacts(c, s0);
    Pushes(s0);
    var s1 := Run(P, s0, 3);
    TestLength(s1);
    RunAdd(P, s0, 3, 4);
    Entered(c, s0, Run(P, s0, 7));
  }

  /** From there to the loop, for two elements or more. */
  lemma ReachLoop(c: Caller, mem0: map<int, int>, s: State, t: seq<int>)
    requires Inside(c, mem0, s, t) && c.len >= 2 && s.pc == 0x101d
    requires s.regs.rdi == c.base && s.regs.rsi == c.len && s.regs.rbp == c.len
    ensures InLoop(c, mem0, Run(P, s, 11), t, 0, 0) && Run(P, s, 11).pc == 0x10bf
  {
    hide Run, Step;
    assert c.base + 8 * (c.len - 1) in s.mem;
    LoadPivot(s, c.base, c.len);
    EnterLoop(Run(P, s, 6));
    RunAdd(P, s, 6, 5);
  }

  // ---- the recursive calls ----

  /** The stack of a call for fewer words fits below the second return address. */
  lemma PartStack(mem: map<int, int>, sp: int, len: nat, l: nat)
    requires HasWords(mem, sp - StackUse(len), StackWords(len)) && l < len && len >= 2
    ensures StackUse(l) + 32 <= StackUse(len) && HasWords(mem, sp - 32 - StackUse(l), StackWords(l))
  {
    var shift := StackWords(len) - 4 - StackWords(l);
    forall k | 0 <= k < StackWords(l) ensures sp - 32 - StackUse(l) + 8 * k in mem {
      assert sp - StackUse(len) + 8 * (shift + k) in mem;
    }
  }

  lemma PartWords(mem: map<int, int>, base: int, len: nat, a: nat, l: nat)
    requires HasWords(mem, base, len) && a + l <= len
    ensures HasWords(mem, base + 8 * a, l) && Words(mem, base + 8 * a, l) == Words(mem, base, len)[a..a + l]
  {
    forall k | 0 <= k < l
      ensures base + 8 * a + 8 * k in mem && mem[base + 8 * a + 8 * k] == Words(mem, base, len)[a + k]
    {
      assert base + 8 * (a + k) in mem;
    }
  }

  lemma HasWordsUpdated(mem: map<int, int>, base: int, n: nat, a: int, v: int)
    requires HasWords(mem, base, n)
    ensures HasWords(mem[a := v], base, n)
  {
  }

  lemma AllWordsPart(t: seq<int>, a: nat, l: nat)
    requires AllWords(t) && a + l <= |t|
    ensures AllWords(t[a..a + l])
  {
  }

  lemma PartApart(base: int, len: nat, sp: int, a: nat, l: nat)
    requires base + 8 * len <= sp - StackUse(len) || sp + 8 <= base
    requires a + l <= len && StackUse(l) + 32 <= StackUse(len)
    requires OffCode(base, base + 8 * len) && OffCode(sp - StackUse(len), sp + 8)
    ensures OffCode(base + 8 * a, base + 8 * a + 8 * l) && OffCode(sp - 32 - StackUse(l), sp - 32 + 8)
    ensures var b := base + 8 * a; b + 8 * l <= sp - 32 - StackUse(l) || sp - 32 + 8 <= b
    ensures base + 8 * len <= sp - 32 || sp - 24 <= base
  {
    hide StackUse;
  }

  /** The part of the array from a on, l elements long, can be sorted by a call from inside. */
  lemma PartCallable(c: Caller, mem0: map<int, int>, s: State, t: seq<int>, a: nat, l: nat, mem: map<int, int>,
                     ret: int)
    requires Inside(c, mem0, s, t) && a + l <= c.len && l < c.len && c.len >= 2
    requires mem == s.mem[c.sp - 32 := ret]
    ensures c.sp - 32 in s.mem && Callable(mem, c.base + 8 * a, l, c.sp - 32)
    ensures HasWords(mem, c.base + 8 * a, l) && Words(mem, c.base + 8 * a, l) == t[a..a + l]
  {
    hide StackUse, StackWords, HasWords, Words, AllWords, Framed;
    StackSlots(s.mem, c.base, c.len, c.sp);
    PartStack(s.mem, c.sp, c.len, l);
    HasWordsUpdated(s.mem, c.sp - 32 - StackUse(l), StackWords(l), c.sp - 32, ret);
    PartApart(c.base, c.len, c.sp, a, l);
    assert SameExcept(s.mem, mem, c.sp - 32, c.sp - 24, 0, 0);
    WordsKept(s.mem, mem, c.sp - 32, c.sp - 24, 0, 0, c.base, c.len);
    PartWords(mem, c.base, c.len, a, l);
    AllWordsPart(t, a, l);
    StackUsed(l);
  }

  lemma StackUsed(len: nat)
    ensures StackUse(len) == 8 * StackWords(len) >= 0
  {
  }

  lemma PartSame(mem: map<int, int>, mem': map<int, int>, a: int, v: int, lo: int, hi: int, low: int, high: int)
    requires a in mem && SameExcept(mem[a := v], mem', lo, hi, low, a) && high == a + 8 && low <= a
    ensures SameExcept(mem, mem', lo, hi, low, high)
  {
  }

  /** When that call has returned, the part is replaced and the rest of the call is as before. */
  lemma PartReturned(c: Caller, mem0: map<int, int>, s: State, t: seq<int>, a: nat, l: nat, ret: int, u: seq<int>,
                     s': State)
    requires Inside(c, mem0, s, t) && a + l <= c.len && l < c.len && c.len >= 2 && |u| == l && AllWords(u)
    requires c.sp - 32 in s.mem && s'.status == AOK && s'.regs.rsp == c.sp - 24
    requires var mem := s.mem[c.sp - 32 := ret];
             SameExcept(mem, s'.mem, c.base + 8 * a, c.base + 8 * a + 8 * l, c.sp - 32 - StackUse(l), c.sp - 32)
    requires HasWords(s'.mem, c.base + 8 * a, l) && Words(s'.mem, c.base + 8 * a, l) == u
    ensures Inside(c, mem0, s', t[..a] + u + t[a + l..])
  {
    hide StackUse, StackWords, HasWords, Words, AllWords, Framed, SameExcept;
    StackSlots(s.mem, c.base, c.len, c.sp);
    PartStack(s.mem, c.sp, c.len, l);
    PartApart(c.base, c.len, c.sp, a, l);
    StackUsed(l);
    var lo := c.sp - 32 - StackUse(l);
    PartSame(s.mem, s'.mem, c.sp - 32, ret, c.base + 8 * a, c.base + 8 * a + 8 * l, lo, c.sp - 24);
    PartReplaced(s.mem, s'.mem, c.base, c.len, a, l, u, lo, c.sp - 24);
    CallableKept(c.base, c.len, c.sp, s.mem, s'.mem);
    SavedKept(c, s.mem, s'.mem, c.base + 8 * a, c.base + 8 * a + 8 * l, lo);
    FrameGrows(c, mem0, s.mem, s'.mem, c.base + 8 * a, c.base + 8 * a + 8 * l, lo, c.sp - 24);
  }

  lemma SavedKept(c: Caller, mem: map<int, int>, mem': map<int, int>, lo: int, hi: int, low: int)
    requires Callable(mem, c.base, c.len, c.sp) && SameExcept(mem, mem', lo, hi, low, c.sp - 24)
    requires c.base <= lo && hi <= c.base + 8 * c.len
    ensures forall k | 0 <= k <= 3 && c.sp - 8 * k in mem ::
              c.sp - 8 * k in mem' && mem'[c.sp - 8 * k] == mem[c.sp - 8 * k]
  {
  }

  lemma FrameGrows(c: Caller, mem0: map<int, int>, mem: map<int, int>, mem': map<int, int>, lo: int, hi: int, low: int,
                   high: int)
    requires Framed(c, mem0, mem) && SameExcept(mem, mem', lo, hi, low, high)
    requires c.base <= lo && hi <= c.base + 8 * c.len && c.sp - StackUse(c.len) <= low && high <= c.sp
    ensures Framed(c, mem0, mem')
  {
  }

  lemma PartReplaced(mem: map<int, int>, mem': map<int, int>, base: int, len: nat, a: nat, l: nat, u: seq<int>, lo: int,
                     hi: int)
    requires HasWords(mem, base, len) && AllWords(Words(mem, base, len)) && a + l <= len && |u| == l && AllWords(u)
    requires SameExcept(mem, mem', base + 8 * a, base + 8 * a + 8 * l, lo, hi) && (base + 8 * len <= lo || hi <= base)
    requires HasWords(mem', base + 8 * a, l) && Words(mem', base + 8 * a, l) == u
    ensures HasWords(mem', base, len) && AllWords(Words(mem', base, len))
    ensures var t := Words(mem, base, len); Words(mem', base, len) == t[..a] + u + t[a + l..]
  {
    var t := Words(mem, base, len);
    forall k | 0 <= k < len
      ensures base + 8 * k in mem' && mem'[base + 8 * k] == (t[..a] + u + t[a + l..])[k]
    {
      assert base + 8 * k in mem;
      if a <= k < a + l {
        assert mem'[base + 8 * a + 8 * (k - a)] == u[k - a];
      }
    }
  }

  lemma SortKeepsWords(s: seq<int>)
    requires AllWords(s)
    ensures AllWords(Sort(s))
  {
    SortCorrect(s);
    forall k | 0 <= k < |s| ensures IsWord(Sort(s)[k]) {
      SameElements(Sort(s), s, Sort(s)[k]);
    }
  }

  // ---- the whole call ----

  /** The call is over: back at the return address, with the stack and the callee-saved registers restored,
      nothing else in memory changed, and the array as the C quickSort leaves it. */
  ghost predicate Returned(c: Caller, s0: State, s: State)
    requires HasWords(s0.mem, c.base, c.len)
  {
    && s.status == AOK && s.pc == c.ret && s.regs.rsp == c.sp + 8
    && s.regs.rbx == c.rbx && s.regs.rbp == c.rbp && s.regs.r12 == c.r12
    && Framed(c, s0.mem, s.mem)
    && HasWords(s.mem, c.base, c.len) && Words(s.mem, c.base, c.len) == Sort(Words(s0.mem, c.base, c.len))
  }

  lemma Leave(c: Caller, s0: State, s: State, t: seq<int>)
    requires HasWords(s0.mem, c.base, c.len) && t == Sort(Words(s0.mem, c.base, c.len))
    requires Inside(c, s0.mem, s, t) && s.pc == 0x1122
    ensures Returned(c, s0, Run(P, s, 4))
  {
    hide Run, Step, Sort;
    assert 24 <= c.sp < ADDRESS_LIMIT;
    Epilogue(s, c.sp);
  }

  /** The caller of the part from a on, from inside of c with the given return address. */
  function PartCaller(c: Caller, s: State, a: nat, l: nat, ret: int): Caller
  {
    Caller(c.base + 8 * a, l, c.sp - 32, s.regs.rbx, s.regs.rbp, s.regs.r12, ret)
  }

  /** From the end of the loop to the first recursive call. */
  lemma ReachFirstCall(c: Caller, mem0: map<int, int>, s: State, t: seq<int>, i: nat)
    requires c.len >= 2 && InLoop(c, mem0, s, t, i, c.len - 1) && s.pc == 0x1048
    ensures |t| == c.len
    ensures var s1, s2 := Run(P, s, 4), Run(P, s, 10);
            && Inside(c, mem0, s1, Swap(t, i, c.len - 1))
            && s2.mem == s1.mem[c.sp - 32 := 0x108b] && c.sp - 32 in s1.mem
            && s2.regs.rbx == c.base + 8 * i && s2.regs.rbp == c.len && s2.regs.r12 == i
            && IsCall(s2, PartCaller(c, s2, 0, i, 0x108b))
  {
    hide Run, Step, Callable, Framed, Words, Swap;
    LoopFacts(c, mem0, s, t, i, c.len - 1);
    PlacePivot(s);
    var s1 := Run(P, s, 4);
    SwapWritten(c, mem0, s, t, i, c.len - 1, s1);
    PartCallable(c, mem0, s1, Swap(t, i, c.len - 1), 0, i, s1.mem[c.sp - 32 := 0x108b], 0x108b);
    StackBounds(c, mem0, s1, Swap(t, i, c.len - 1));
    CallLeft(s1, i);
    RunAdd(P, s, 4, 6);
  }

  lemma StackBounds(c: Caller, mem0: map<int, int>, s: State, t: seq<int>)
    requires Inside(c, mem0, s, t)
    ensures |t| == c.len && 32 <= c.sp < ADDRESS_LIMIT && 0 <= c.base && c.base + 8 * c.len < ADDRESS_LIMIT
            && AllWords(t)
    ensures c.sp - 32 in s.mem
  {
    StackSlots(s.mem, c.base, c.len, c.sp);
  }

  /** From the first return to the second recursive call. */
  lemma ReachSecondCall(c: Caller, mem0: map<int, int>, s: State, t: seq<int>, m: nat)
    requires Inside(c, mem0, s, t) && s.pc == 0x108b && m < c.len && c.len >= 2
    requires s.regs.rbx == c.base + 8 * m && s.regs.rbp == c.len && s.regs.r12 == m
    ensures var s' := Run(P, s, 8);
            && s'.mem == s.mem[c.sp - 32 := 0x10b2] && c.sp - 32 in s.mem
            && IsCall(s', PartCaller(c, s', m + 1, c.len - m - 1, 0x10b2))
  {
    hide Run, Step, Callable, Framed, Words;
    StackBounds(c, mem0, s, t);
    CallRight(s);
    PartCallable(c, mem0, s, t, m + 1, c.len - m - 1, s.mem[c.sp - 32 := 0x10b2], 0x10b2);
  }

  /** A returned part call, seen from inside of c. */
  lemma AfterPart(c: Caller, mem0: map<int, int>, s: State, t: seq<int>, a: nat, l: nat, ret: int, s1: State, s2: State)
    requires Inside(c, mem0, s, t) && a + l <= c.len && l < c.len && c.len >= 2 && c.sp - 32 in s.mem
    requires s1.mem == s.mem[c.sp - 32 := ret] && IsCall(s1, PartCaller(c, s1, a, l, ret))
    requires HasWords(s1.mem, c.base + 8 * a, l) && Returned(PartCaller(c, s1, a, l, ret), s1, s2)
    ensures |t| == c.len && s2.status == AOK && s2.pc == ret
    ensures s2.regs.rbx == s1.regs.rbx && s2.regs.rbp == s1.regs.rbp && s2.regs.r12 == s1.regs.r12
    ensures Inside(c, mem0, s2, t[..a] + Sort(t[a..a + l]) + t[a + l..])
  {
    hide Sort, Callable, StackUse, StackWords;
    PartCallable(c, mem0, s, t, a, l, s1.mem, ret);
    StackBounds(c, mem0, s, t);
    SortKeepsWords(t[a..a + l]);
    PartReturned(c, mem0, s, t, a, l, ret, Sort(t[a..a + l]), s2);
  }

  /** The two sorted parts around the pivot are the sorted array. */
  lemma PartsMakeSort(w: seq<int>, t: seq<int>, m: nat)
    requires |w| > 1 && Partition(w) == (t, m)
    ensures |t| == |w| && m < |t|
    ensures var u, n := t[..0] + Sort(t[0..0 + m]) + t[0 + m..], |w|;
            |u| == n && u[..m + 1] + Sort(u[m + 1..m + 1 + (n - m - 1)]) + u[m + 1 + (n - m - 1)..] == Sort(w)
  {
    hide *;
    SortUnfolds(w, t, m);
    assert t[0..0 + m] == t[..m];
    PiecesJoin(t, m, Sort(t[..m]), Sort(t[m + 1..]));
  }

  lemma PiecesJoin(t: seq<int>, m: nat, left: seq<int>, right: seq<int>)
    requires m < |t| && |left| == m
    ensures var u := t[..0] + left + t[0 + m..];
            |u| == |t| && u[m + 1..m + 1 + (|t| - m - 1)] == t[m + 1..]
            && u[..m + 1] + right + u[m + 1 + (|t| - m - 1)..] == left + [t[m]] + right
  {
    var u := t[..0] + left + t[0 + m..];
    assert u[..m + 1] == left + [t[m]] && u[m + 1 + (|t| - m - 1)..] == [];
  }

  lemma PartitionIs(w: seq<int>)
    requires |w| > 0
    ensures var (v, m) := PartitionFrom(w, 0, 0); Partition(w) == (Swap(v, m, |w| - 1), m)
  {
  }

  /** Twice the number of steps that a call for len words takes at most. */
  function StepBound(len: nat): nat
  {
    15 * (len * len) + 89 * len + 22
  }

  lemma BoundOfShort(len: nat)
    ensures 2 * 11 <= StepBound(len)
  {
  }

  /** Both parts and the partition stay within the bound of the whole, however unequal the parts are. */
  lemma BoundOfParts(len: nat, m: nat)
    requires m < len && len >= 2
    ensures StepBound(m) + StepBound(len - 1 - m) + 2 * (15 * (len - 1) + 41) <= StepBound(len)
  {
    var d := len - 1 - m;
    SquareOfSum(m, d, len);
  }

  /** quickSort returns from every call: with the stack and the callee-saved registers restored, no other word
      of memory changed than the array and the stack below the call, and the array sorted as by the C function.
      It takes at most 7.5 len^2 + 44.5 len + 11 steps. */
  lemma {:induction false} QuickSortReturns(s0: State, c: Caller) returns (n: nat)
    requires IsCall(s0, c)
    ensures HasWords(s0.mem, c.base, c.len) && Returned(c, s0, Run(P, s0, n))
    ensures 2 * n <= StepBound(c.len)
    decreases c.len
  {
    hide *;
    CallFacts(c, s0);
    var w := Words(s0.mem, c.base, c.len);
    Begin(c, s0);
    var s1 := Run(P, s0, 7);
    if c.len <= 1 {
      SortOfOne(w);
      Leave(c, s0, s1, w);
      RunAdd(P, s0, 7, 4);
      BoundOfShort(c.len);
      n := 11;
    } else {
      var n2 := SortBothParts(s0, c, s1, w);
      RunAdd(P, s0, 7, n2);
      n := 7 + n2;
    }
  }

  lemma InsideAnywhere(c: Caller, mem0: map<int, int>, s: State, t: seq<int>, pc: int)
    requires Inside(c, mem0, s, t)
    ensures Inside(c, mem0, s.(pc := pc), t)
  {
  }

  lemma {:induction false} SortBothParts(s0: State, c: Caller, s1: State, w: seq<int>) returns (n: nat)
    requires HasWords(s0.mem, c.base, c.len) && w == Words(s0.mem, c.base, c.len)
    requires Inside(c, s0.mem, s1, w) && c.len >= 2 && s1.pc == 0x101d
    requires s1.regs.rdi == c.base && s1.regs.rsi == c.len && s1.regs.rbp == c.len
    ensures Returned(c, s0, Run(P, s1, n)) && 2 * (7 + n) <= StepBound(c.len)
    decreases c.len, 0
  {
    hide Run, Step, Sort, Partition, PartitionFrom, Swap, Inside, InLoop, Callable, IsCall, Framed, Words;
    ReachLoop(c, s0.mem, s1, w);
    var s2 := Run(P, s1, 11);
    var n3 := LoopRuns(c, s0.mem, s2, w, 0, 0);
    var s3 := Run(P, s2, n3);
    var (v, m) := PartitionFrom(w, 0, 0);
    ReachFirstCall(c, s0.mem, s3, v, m);
    var (s4, s5) := (Run(P, s3, 4), Run(P, s3, 10));
    var t := Swap(v, m, c.len - 1);
    var c5 := PartCaller(c, s5, 0, m, 0x108b);
    var n6 := QuickSortReturns(s5, c5);
    var s6 := Run(P, s5, n6);
    AfterPart(c, s0.mem, s4, t, 0, m, 0x108b, s5, s6);
    var u := t[..0] + Sort(t[0..0 + m]) + t[0 + m..];
    ReachSecondCall(c, s0.mem, s6, u, m);
    var s7 := Run(P, s6, 8);
    var c7 := PartCaller(c, s7, m + 1, c.len - m - 1, 0x10b2);
    var n8 := QuickSortReturns(s7, c7);
    var s8 := Run(P, s7, n8);
    AfterPart(c, s0.mem, s6, u, m + 1, c.len - m - 1, 0x10b2, s7, s8);
    PartitionIs(w);
    PartsMakeSort(w, t, m);
    JumpToEpilogue(s8);
    var s9 := Run(P, s8, 1);
    InsideAnywhere(c, s0.mem, s8, Sort(w), 0x1122);
    Leave(c, s0, s9, Sort(w));
    RunAdd(P, s8, 1, 4);
    RunAdd(P, s7, n8, 5);
    RunAdd(P, s6, 8, n8 + 5);
    RunAdd(P, s5, n6, 8 + n8 + 5);
    RunAdd(P, s3, 10, n6 + 8 + n8 + 5);
    RunAdd(P, s2, n3, 10 + n6 + 8 + n8 + 5);
    n := 11 + (n3 + 10 + n6 + 8 + n8 + 5);
    RunAdd(P, s1, 11, n - 11);
    BoundOfParts(c.len, m);
  }

  function StartWord(t: seq<int>, base: int, sp: int, ret: int, a: int): int
  {
    if a == sp then ret
    else if base <= a < base + 8 * |t| && (a - base) % 8 == 0 then t[(a - base) / 8]
    else 0
  }

  /** Every array of words can be handed to such a call, wherever it is behind the code, with the stack behind it. */
  lemma AnyArrayCallable(t: seq<int>, base: int, sp: int, ret: int) returns (s0: State, c: Caller)
    requires AllWords(t) && 0x1129 <= base && base + 8 * |t| + 32 * |t| + 32 <= sp < 0x4000_0000_0000_0000
    ensures IsCall(s0, c) && c.base == base && c.len == |t| && c.sp == sp && c.ret == ret
    ensures HasWords(s0.mem, base, |t|) && Words(s0.mem, base, |t|) == t
  {
    var mem := map a: int | base <= a < sp + 8 :: StartWord(t, base, sp, ret, a);
    s0 := State(AOK, 0x1000, Regs(0, 0, 0, 0, sp, 0, |t|, base, 0, 0, 0), Codes(false, false, false), mem);
    c := Caller(base, |t|, sp, 0, 0, 0, ret);
    forall k | 0 <= k < |t| ensures base + 8 * k in mem && mem[base + 8 * k] == t[k] {
      var a := base + 8 * k;
      assert (a - base) % 8 == 0 && (a - base) / 8 == k;
    }
  }

  /** In particular, the array comes back sorted and with the same elements. */
  lemma QuickSortSorts(s0: State, c: Caller) returns (n: nat)
    requires IsCall(s0, c)
    ensures 2 * n <= StepBound(c.len)
    ensures var s := Run(P, s0, n);
            && s.status == AOK && s.pc == c.ret && HasWords(s0.mem, c.base, c.len) && HasWords(s.mem, c.base, c.len)
            && Sorted(Words(s.mem, c.base, c.len))
            && multiset(Words(s.mem, c.base, c.len)) == multiset(Words(s0.mem, c.base, c.len))
  {
    hide IsCall, Run, Sorted, Sort, Framed;
    n := QuickSortReturns(s0, c);
    SortCorrect(Words(s0.mem, c.base, c.len));
  }
}
