/** The Y86-64 quickSort of lab3/sort.ys leaves in memory what the C quickSort leaves, and returns. */
module Y86QuickSort {
  import opened Bits
  import opened Y86

  const P := SortYs
  const ADDRESS_LIMIT := 0x4000_0000_0000_0000

  /** Words of stack that a call for len words may use below its return address. */
  function StackWords(len: nat): nat
  {
    if len <= 1 then 4 else 4 * len
  }

  function StackUse(len: nat): nat
  {
    8 * StackWords(len)
  }

  ghost predicate AllWords(s: seq<int>)
  {
    forall k | 0 <= k < |s| :: IsWord(s[k])
  }

  /** The code occupies the addresses from 0x1000 to 0x1128. */
  predicate OffCode(lo: int, hi: int)
  {
    hi <= 0x1000 || 0x1129 <= lo
  }

  /** A call for len words at base, with the stack pointer at the return address, can proceed:
      its array and its stack are in memory, apart from each other and from the code. */
  ghost predicate Callable(mem: map<int, int>, base: int, len: nat, sp: int)
  {
    && 0 <= base && base + 8 * len < ADDRESS_LIMIT
    && StackUse(len) <= sp < ADDRESS_LIMIT && sp in mem
    && HasWords(mem, sp - StackUse(len), StackWords(len))
    && (base + 8 * len <= sp - StackUse(len) || sp + 8 <= base)
    && OffCode(base, base + 8 * len) && OffCode(sp - StackUse(len), sp + 8)
    && HasWords(mem, base, len) && AllWords(Words(mem, base, len))
  }

  lemma StackSlots(mem: map<int, int>, base: int, len: nat, sp: int)
    requires Callable(mem, base, len, sp)
    ensures sp - 8 in mem && sp - 16 in mem && sp - 24 in mem && sp - 32 in mem
  {
    var n := StackWords(len);
    assert sp - StackUse(len) + 8 * (n - 1) in mem;
    assert sp - StackUse(len) + 8 * (n - 2) in mem;
    assert sp - StackUse(len) + 8 * (n - 3) in mem;
    assert sp - StackUse(len) + 8 * (n - 4) in mem;
  }

  // ---- straight-line code, one lemma a block ----

  /** pushq %r12, %rbp, %rbx */
  lemma Pushes(s: State)
    requires s.status == AOK && s.pc == 0x1000 && 24 <= s.regs.rsp < ADDRESS_LIMIT
    requires s.regs.rsp - 8 in s.mem && s.regs.rsp - 16 in s.mem && s.regs.rsp - 24 in s.mem
    ensures var r := s.regs;
            Run(P, s, 3) == s.(pc := 0x1006, regs := r.(rsp := r.rsp - 24),
                               mem := s.mem[r.rsp - 8 := r.r12][r.rsp - 16 := r.rbp][r.rsp - 24 := r.rbx])
  {
    hide Run;
    var r := s.regs;
    var s1 := s.(pc := 0x1002, regs := r.(rsp := r.rsp - 8), mem := s.mem[r.rsp - 8 := r.r12]);
    One(P, s, s1, 2);
    var s2 := s1.(pc := 0x1004, regs := r.(rsp := r.rsp - 16), mem := s1.mem[r.rsp - 16 := r.rbp]);
    One(P, s1, s2, 1);
    One(P, s2, s2.(pc := 0x1006, regs := r.(rsp := r.rsp - 24), mem := s2.mem[r.rsp - 24 := r.rbx]), 0);
  }

  /** The test for len <= 1. */
  lemma TestLength(s: State)
    requires s.status == AOK && s.pc == 0x1006 && 0 <= s.regs.rsi < ADDRESS_LIMIT
    ensures Run(P, s, 4) == s.(pc := if s.regs.rsi <= 1 then 0x1122 else 0x101d,
                               regs := s.regs.(rbp := s.regs.rsi, r9 := 1 - s.regs.rsi),
                               cc := Flags(Sub, s.regs.rsi, 1))
  {
    hide Run, Step, Flags;
    var s2 := s.(pc := 0x1012, regs := s.regs.(rbp := s.regs.rsi, r9 := 1));
    assert Run(P, s, 2) == s2 by {
      hide *;
      CopyLength(s);
    }
    OneMinusLength(s2);
    RunAdd(P, s, 2, 2);
  }

  lemma CopyLength(s: State)
    requires s.status == AOK && s.pc == 0x1006
    ensures Run(P, s, 2) == s.(pc := 0x1012, regs := s.regs.(rbp := s.regs.rsi, r9 := 1))
  {
    hide Run;
    var s1 := s.(pc := 0x1008, regs := s.regs.(rbp := s.regs.rsi));
    One(P, s, s1, 1);
    One(P, s1, s1.(pc := 0x1012, regs := s1.regs.(r9 := 1)), 0);
  }

  lemma OneMinusLength(s: State)
    requires s.status == AOK && s.pc == 0x1012 && 0 <= s.regs.rsi < ADDRESS_LIMIT && s.regs.r9 == 1
    ensures Run(P, s, 2) == s.(pc := if s.regs.rsi <= 1 then 0x1122 else 0x101d,
                               regs := s.regs.(r9 := 1 - s.regs.rsi), cc := Flags(Sub, s.regs.rsi, 1))
  {
    hide Run, Flags, Holds, Quotient, Wrap;
    SubCompares(s.regs.rsi, 1);
    NoWrap(1 - s.regs.rsi);
    var s1 := s.(pc := 0x1014, regs := s.regs.(r9 := 1 - s.regs.rsi), cc := Flags(Sub, s.regs.rsi, 1));
    One(P, s, s1, 1);
    One(P, s1, s1.(pc := if s.regs.rsi <= 1 then 0x1122 else 0x101d), 0);
  }

  /** popq %rbx, %rbp, %r12 and ret. */
  lemma Epilogue(s: State, sp: int)
    requires s.status == AOK && s.pc == 0x1122 && s.regs.rsp == sp - 24 && 24 <= sp < ADDRESS_LIMIT
    requires sp in s.mem && sp - 8 in s.mem && sp - 16 in s.mem && sp - 24 in s.mem
    ensures Run(P, s, 4) == s.(pc := s.mem[sp], regs := s.regs.(rsp := sp + 8, rbx := s.mem[sp - 24],
                                                               rbp := s.mem[sp - 16], r12 := s.mem[sp - 8]))
  {
    hide Run;
    var s1 := s.(pc := 0x1124, regs := s.regs.(rsp := sp - 16, rbx := s.mem[sp - 24]));
    One(P, s, s1, 3);
    var s2 := s1.(pc := 0x1126, regs := s1.regs.(rsp := sp - 8, rbp := s.mem[sp - 16]));
    One(P, s1, s2, 2);
    var s3 := s2.(pc := 0x1128, regs := s2.regs.(rsp := sp, r12 := s.mem[sp - 8]));
    One(P, s2, s3, 1);
    One(P, s3, s3.(pc := s.mem[sp], regs := s3.regs.(rsp := sp + 8)), 0);
  }

  /** The address of the last element and the pivot. */
  lemma LoadPivot(s: State, base: int, len: nat)
    requires s.status == AOK && s.pc == 0x101d && s.regs.rdi == base && s.regs.rsi == len >= 2
    requires 0 <= base && base + 8 * len < ADDRESS_LIMIT && base + 8 * (len - 1) in s.mem
    ensures var s' := Run(P, s, 6);
            s' == s.(pc := 0x1039, cc := s'.cc,
                     regs := s.regs.(rcx := base + 8 * (len - 1), r8 := s.mem[base + 8 * (len - 1)], r9 := 8))
  {
    hide Run, Step;
    EightTimes(s, len);
    LastElement(Run(P, s, 3), base, len);
    RunAdd(P, s, 3, 3);
  }

  lemma EightTimes(s: State, len: nat)
    requires s.status == AOK && s.pc == 0x101d && s.regs.rsi == len && 8 * len < ADDRESS_LIMIT
    ensures var s' := Run(P, s, 3);
            s' == s.(pc := 0x102b, cc := s'.cc, regs := s.regs.(rcx := 8 * len, r9 := 8))
  {
    hide Run, Flags, Holds, Quotient;
    var s1 := s.(pc := 0x1027, regs := s.regs.(r9 := 8));
    One(P, s, s1, 2);
    var s2 := s1.(pc := 0x1029, regs := s1.regs.(rcx := len));
    One(P, s1, s2, 1);
    One(P, s2, s2.(pc := 0x102b, regs := s2.regs.(rcx := 8 * len), cc := Flags(Mul, 8, len)), 0);
  }

  lemma LastElement(s: State, base: int, len: nat)
    requires s.status == AOK && s.pc == 0x102b && s.regs.rdi == base && s.regs.rcx == 8 * len && s.regs.r9 == 8
    requires 0 <= base && 2 <= len && base + 8 * len < ADDRESS_LIMIT && base + 8 * (len - 1) in s.mem
    ensures var s' := Run(P, s, 3);
            s' == s.(pc := 0x1039, cc := s'.cc,
                     regs := s.regs.(rcx := base + 8 * (len - 1), r8 := s.mem[base + 8 * (len - 1)]))
  {
    hide Run, Flags, Holds, Quotient;
    var s1 := s.(pc := 0x102d, regs := s.regs.(rcx := 8 * (len - 1)), cc := Flags(Sub, 8, 8 * len));
    One(P, s, s1, 2);
    var s2 := s1.(pc := 0x102f, regs := s1.regs.(rcx := base + 8 * (len - 1)), cc := Flags(Add, base, 8 * (len - 1)));
    One(P, s1, s2, 1);
    One(P, s2, s2.(pc := 0x1039, regs := s2.regs.(r8 := s.mem[base + 8 * (len - 1)])), 0);
  }

  /** base <= high always holds here, so the jump to LN6 is taken; both cursors start at base. */
  lemma EnterLoop(s: State)
    requires s.status == AOK && s.pc == 0x1039 && 0 <= s.regs.rdi < s.regs.rcx < ADDRESS_LIMIT
    ensures var s' := Run(P, s, 5);
            s' == s.(pc := 0x10bf, cc := s'.cc,
                     regs := s.regs.(rax := s.regs.rdi, rbx := s.regs.rdi, r9 := s.regs.rdi - s.regs.rcx))
  {
    hide Run, Step;
    BaseBelowHigh(s);
    StartCursors(Run(P, s, 3));
    RunAdd(P, s, 3, 2);
  }

  lemma BaseBelowHigh(s: State)
    requires s.status == AOK && s.pc == 0x1039 && 0 <= s.regs.rdi < s.regs.rcx < ADDRESS_LIMIT
    ensures var s' := Run(P, s, 3);
            s' == s.(pc := 0x10bb, cc := s'.cc, regs := s.regs.(r9 := s.regs.rdi - s.regs.rcx))
  {
    hide Run, Flags, Holds, Quotient, Wrap;
    SubCompares(s.regs.rcx, s.regs.rdi);
    NoWrap(s.regs.rdi - s.regs.rcx);
    var s1 := s.(pc := 0x103b, regs := s.regs.(r9 := s.regs.rdi));
    One(P, s, s1, 2);
    var s2 := s1.(pc := 0x103d, regs := s1.regs.(r9 := s.regs.rdi - s.regs.rcx),
                  cc := Flags(Sub, s.regs.rcx, s.regs.rdi));
    One(P, s1, s2, 1);
    One(P, s2, s2.(pc := 0x10bb), 0);
  }

  lemma StartCursors(s: State)
    requires s.status == AOK && s.pc == 0x10bb
    ensures Run(P, s, 2) == s.(pc := 0x10bf, regs := s.regs.(rax := s.regs.rdi, rbx := s.regs.rdi))
  {
    hide Run;
    var s1 := s.(pc := 0x10bd, regs := s.regs.(rax := s.regs.rdi));
    One(P, s, s1, 1);
    One(P, s1, s1.(pc := 0x10bf, regs := s1.regs.(rbx := s.regs.rdi)), 0);
  }

  /** The comparison of *j with the pivot, exact even when the subtraction overflows. */
  lemma Compare(s: State)
    requires s.status == AOK && s.pc == 0x10bf && s.regs.rax in s.mem
    requires IsWord(s.mem[s.regs.rax]) && IsWord(s.regs.r8)
    ensures var v, s' := s.mem[s.regs.rax], Run(P, s, 4);
            s' == s.(pc := if v <= s.regs.r8 then 0x10d6 else 0x1100, cc := s'.cc,
                     regs := s.regs.(rdx := v, r9 := s'.regs.r9))
  {
    hide Run, Step;
    LoadElement(s);
    CompareWithPivot(Run(P, s, 2));
    RunAdd(P, s, 2, 2);
  }

  lemma LoadElement(s: State)
    requires s.status == AOK && s.pc == 0x10bf && s.regs.rax in s.mem
    ensures Run(P, s, 2) == s.(pc := 0x10cb, regs := s.regs.(rdx := s.mem[s.regs.rax], r9 := s.regs.r8))
  {
    hide Run;
    var s1 := s.(pc := 0x10c9, regs := s.regs.(rdx := s.mem[s.regs.rax]));
    One(P, s, s1, 1);
    One(P, s1, s1.(pc := 0x10cb, regs := s1.regs.(r9 := s.regs.r8)), 0);
  }

  lemma CompareWithPivot(s: State)
    requires s.status == AOK && s.pc == 0x10cb && IsWord(s.regs.rdx) && IsWord(s.regs.r9)
    ensures var s' := Run(P, s, 2);
            s' == s.(pc := if s.regs.rdx <= s.regs.r9 then 0x10d6 else 0x1100, cc := s'.cc,
                     regs := s.regs.(r9 := s'.regs.r9))
  {
    hide Run, Flags, Holds, Quotient, Wrap;
    SubCompares(s.regs.rdx, s.regs.r9);
    var s1 := s.(pc := 0x10cd, regs := s.regs.(r9 := Wrap(s.regs.r9 - s.regs.rdx)),
                 cc := Flags(Sub, s.regs.rdx, s.regs.r9));
    One(P, s, s1, 1);
    One(P, s1, s1.(pc := if s.regs.rdx <= s.regs.r9 then 0x10d6 else 0x1100), 0);
  }

  /** The swap of *i and *j, and i++. */
  lemma SwapInLoop(s: State)
    requires s.status == AOK && s.pc == 0x10d6 && s.regs.rax in s.mem && s.regs.rbx in s.mem
    requires 0 <= s.regs.rbx < ADDRESS_LIMIT
    ensures var s' := Run(P, s, 5);
            s' == s.(pc := 0x1100, cc := s'.cc,
                     regs := s.regs.(rsi := s.mem[s.regs.rbx], r9 := 8, rbx := s.regs.rbx + 8),
                     mem := s.mem[s.regs.rax := s.mem[s.regs.rbx]][s.regs.rbx := s.regs.rdx])
  {
    hide Run, Flags, Holds, Quotient;
    var s1 := s.(pc := 0x10e0, regs := s.regs.(rsi := s.mem[s.regs.rbx]));
    One(P, s, s1, 4);
    var s2 := s1.(pc := 0x10ea, mem := s.mem[s.regs.rax := s.mem[s.regs.rbx]]);
    One(P, s1, s2, 3);
    var s3 := s2.(pc := 0x10f4, mem := s2.mem[s.regs.rbx := s.regs.rdx]);
    One(P, s2, s3, 2);
    var s4 := s3.(pc := 0x10fe, regs := s3.regs.(r9 := 8));
    One(P, s3, s4, 1);
    One(P, s4, s4.(pc := 0x1100, regs := s4.regs.(rbx := s.regs.rbx + 8), cc := Flags(Add, 8, s.regs.rbx)), 0);
  }

  /** j++ and the loop test. */
  lemma Advance(s: State) returns (n: nat)
    requires s.status == AOK && s.pc == 0x1100
    requires 0 <= s.regs.rax < ADDRESS_LIMIT && 0 <= s.regs.rcx < ADDRESS_LIMIT
    ensures n <= 6
    ensures var j, s' := s.regs.rax + 8, Run(P, s, n);
            s' == s.(pc := if s.regs.rcx <= j then 0x1048 else 0x10bf, cc := s'.cc,
                     regs := s.regs.(rax := j, r9 := s.regs.rcx - j))
  {
    hide Run, Step;
    NextJ(s);
    LoopTest(Run(P, s, 2));
    RunAdd(P, s, 2, 3);
    n := 5;
    if s.regs.rcx > s.regs.rax + 8 {
      LoopBack(Run(P, s, 5));
      RunAdd(P, s, 5, 1);
      n := 6;
    }
  }

  lemma NextJ(s: State)
    requires s.status == AOK && s.pc == 0x1100 && 0 <= s.regs.rax < ADDRESS_LIMIT
    ensures var s' := Run(P, s, 2);
            s' == s.(pc := 0x110c, cc := s'.cc, regs := s.regs.(rax := s.regs.rax + 8, r9 := 8))
  {
    hide Run, Flags, Holds, Quotient;
    var s1 := s.(pc := 0x110a, regs := s.regs.(r9 := 8));
    One(P, s, s1, 1);
    One(P, s1, s1.(pc := 0x110c, regs := s1.regs.(rax := s.regs.rax + 8), cc := Flags(Add, 8, s.regs.rax)), 0);
  }

  lemma LoopTest(s: State)
    requires s.status == AOK && s.pc == 0x110c && 0 <= s.regs.rax < WORD_LIMIT && 0 <= s.regs.rcx < ADDRESS_LIMIT
    ensures var s' := Run(P, s, 3);
            s' == s.(pc := if s.regs.rcx <= s.regs.rax then 0x1048 else 0x1119, cc := s'.cc,
                     regs := s.regs.(r9 := s.regs.rcx - s.regs.rax))
  {
    hide Run, Step, Flags;
    BytesToGo(s);
    JumpAt1110(Run(P, s, 2), s.regs.rax, s.regs.rcx);
    RunAdd(P, s, 2, 1);
  }

  lemma BytesToGo(s: State)
    requires s.status == AOK && s.pc == 0x110c && 0 <= s.regs.rax < WORD_LIMIT && 0 <= s.regs.rcx < ADDRESS_LIMIT
    ensures Run(P, s, 2) == s.(pc := 0x1110, cc := Flags(Sub, s.regs.rax, s.regs.rcx),
                               regs := s.regs.(r9 := s.regs.rcx - s.regs.rax))
  {
    hide Run, Flags, Holds, Quotient, Wrap;
    NoWrap(s.regs.rcx - s.regs.rax);
    var s1 := s.(pc := 0x110e, regs := s.regs.(r9 := s.regs.rcx));
    One(P, s, s1, 1);
    var s2 := s1.(pc := 0x1110, regs := s1.regs.(r9 := s.regs.rcx - s.regs.rax),
                  cc := Flags(Sub, s.regs.rax, s.regs.rcx));
    One(P, s1, s2, 0);
  }

  lemma JumpAt1110(s: State, a: int, b: int)
    requires s.status == AOK && s.pc == 0x1110 && IsWord(a) && IsWord(b) && s.cc == Flags(Sub, a, b)
    ensures Run(P, s, 1) == s.(pc := if b <= a then 0x1048 else 0x1119)
  {
    SubCompares(a, b);
    hide Run, Flags, Holds, Quotient, Wrap;
    One(P, s, s.(pc := if b <= a then 0x1048 else 0x1119), 0);
  }

  lemma LoopBack(s: State)
    requires s.status == AOK && s.pc == 0x1119
    ensures Run(P, s, 1) == s.(pc := 0x10bf)
  {
    hide Run;
    One(P, s, s.(pc := 0x10bf), 0);
  }

  /** The pivot goes to place i. */
  lemma PlacePivot(s: State)
    requires s.status == AOK && s.pc == 0x1048 && s.regs.rcx in s.mem && s.regs.rbx in s.mem
    ensures var high, i := s.regs.rcx, s.regs.rbx;
            Run(P, s, 4) == s.(pc := 0x1070, regs := s.regs.(rax := s.mem[high], rdx := s.mem[i]),
                               mem := s.mem[high := s.mem[i]][i := s.mem[high]])
  {
    hide Run;
    var high, i := s.regs.rcx, s.regs.rbx;
    var s1 := s.(pc := 0x1052, regs := s.regs.(rax := s.mem[high]));
    One(P, s, s1, 3);
    var s2 := s1.(pc := 0x105c, regs := s1.regs.(rdx := s.mem[i]));
    One(P, s1, s2, 2);
    var s3 := s2.(pc := 0x1066, mem := s.mem[high := s.mem[i]]);
    One(P, s2, s3, 1);
    One(P, s3, s3.(pc := 0x1070, mem := s3.mem[i := s.mem[high]]), 0);
  }

  /** i - A elements are left of the pivot; then the first call. */
  lemma CallLeft(s: State, m: nat)
    requires s.status == AOK && s.pc == 0x1070 && 0 <= s.regs.rdi && s.regs.rbx == s.regs.rdi + 8 * m < ADDRESS_LIMIT
    requires 8 <= s.regs.rsp < ADDRESS_LIMIT && s.regs.rsp - 8 in s.mem
    ensures var s' := Run(P, s, 6);
            s' == s.(pc := 0x1000, cc := s'.cc, regs := s.regs.(r12 := m, r9 := 8, rsi := m, rsp := s.regs.rsp - 8),
                     mem := s.mem[s.regs.rsp - 8 := 0x108b])
  {
    hide Run, Step;
    BytesLeft(s, m);
    CountLeft(Run(P, s, 3), m);
    RunAdd(P, s, 3, 3);
  }

  lemma BytesLeft(s: State, m: nat)
    requires s.status == AOK && s.pc == 0x1070 && 0 <= s.regs.rdi && s.regs.rbx == s.regs.rdi + 8 * m < ADDRESS_LIMIT
    ensures var s' := Run(P, s, 3);
            s' == s.(pc := 0x107e, cc := s'.cc, regs := s.regs.(r12 := 8 * m, r9 := 8))
  {
    hide Run, Step;
    PivotOffset(s, m);
    LoadEight(Run(P, s, 2));
    RunAdd(P, s, 2, 1);
  }

  lemma PivotOffset(s: State, m: nat)
    requires s.status == AOK && s.pc == 0x1070 && 0 <= s.regs.rdi && s.regs.rbx == s.regs.rdi + 8 * m < ADDRESS_LIMIT
    ensures var s' := Run(P, s, 2); s' == s.(pc := 0x1074, cc := s'.cc, regs := s.regs.(r12 := 8 * m))
  {
    hide Run, Flags, Holds, Quotient, Wrap;
    NoWrap(8 * m);
    var s1 := s.(pc := 0x1072, regs := s.regs.(r12 := s.regs.rbx));
    One(P, s, s1, 1);
    One(P, s1, s1.(pc := 0x1074, regs := s1.regs.(r12 := 8 * m), cc := Flags(Sub, s.regs.rdi, s.regs.rbx)), 0);
  }

  lemma LoadEight(s: State)
    requires s.status == AOK && s.pc == 0x1074
    ensures Run(P, s, 1) == s.(pc := 0x107e, regs := s.regs.(r9 := 8))
  {
    hide Run;
    One(P, s, s.(pc := 0x107e, regs := s.regs.(r9 := 8)), 0);
  }

  lemma CountLeft(s: State, m: nat)
    requires s.status == AOK && s.pc == 0x107e && s.regs.r12 == 8 * m < ADDRESS_LIMIT && s.regs.r9 == 8
    requires 8 <= s.regs.rsp < ADDRESS_LIMIT && s.regs.rsp - 8 in s.mem
    ensures var s' := Run(P, s, 3);
            s' == s.(pc := 0x1000, cc := s'.cc, regs := s.regs.(r12 := m, rsi := m, rsp := s.regs.rsp - 8),
                     mem := s.mem[s.regs.rsp - 8 := 0x108b])
  {
    hide Run, Step;
    DivideByEight(s, m);
    EnterLeft(Run(P, s, 1));
    RunAdd(P, s, 1, 2);
  }

  lemma DivideByEight(s: State, m: nat)
    requires s.status == AOK && s.pc == 0x107e && s.regs.r12 == 8 * m < ADDRESS_LIMIT && s.regs.r9 == 8
    ensures var s' := Run(P, s, 1); s' == s.(pc := 0x1080, cc := s'.cc, regs := s.regs.(r12 := m))
  {
    hide Run, Flags, Holds, Wrap;
    NoWrap(m);
    One(P, s, s.(pc := 0x1080, regs := s.regs.(r12 := m), cc := Flags(Div, 8, 8 * m)), 0);
  }

  lemma EnterLeft(s: State)
    requires s.status == AOK && s.pc == 0x1080 && 8 <= s.regs.rsp < ADDRESS_LIMIT && s.regs.rsp - 8 in s.mem
    ensures Run(P, s, 2) == s.(pc := 0x1000, regs := s.regs.(rsi := s.regs.r12, rsp := s.regs.rsp - 8),
                               mem := s.mem[s.regs.rsp - 8 := 0x108b])
  {
    hide Run, Flags, Holds, Wrap, Quotient;
    NoWrap(s.regs.rsp - 8);
    var s1 := s.(pc := 0x1082, regs := s.regs.(rsi := s.regs.r12));
    One(P, s, s1, 1);
    One(P, s1, s1.(pc := 0x1000, regs := s1.regs.(rsp := s.regs.rsp - 8), mem := s.mem[s.regs.rsp - 8 := 0x108b]), 0);
  }

  /** len - (i - A) - 1 elements are right of the pivot, from i + 1 on; then the second call. */
  lemma CallRight(s: State)
    requires s.status == AOK && s.pc == 0x108b && 0 <= s.regs.r12 < s.regs.rbp < ADDRESS_LIMIT
    requires 0 <= s.regs.rbx < ADDRESS_LIMIT && 8 <= s.regs.rsp < ADDRESS_LIMIT && s.regs.rsp - 8 in s.mem
    ensures var d, s' := s.regs.rbp - s.regs.r12, Run(P, s, 8);
            s' == s.(pc := 0x1000, cc := s'.cc, mem := s.mem[s.regs.rsp - 8 := 0x10b2],
                     regs := s.regs.(rbp := d, rsi := d - 1, r9 := 8, rdi := s.regs.rbx + 8, rsp := s.regs.rsp - 8))
  {
    hide Run, Step;
    RestLength(s);
    RestBase(Run(P, s, 4));
    RunAdd(P, s, 4, 4);
  }

  lemma RestLength(s: State)
    requires s.status == AOK && s.pc == 0x108b && 0 <= s.regs.r12 < s.regs.rbp < ADDRESS_LIMIT
    ensures var d, s' := s.regs.rbp - s.regs.r12, Run(P, s, 4);
            s' == s.(pc := 0x109b, cc := s'.cc, regs := s.regs.(rbp := d, rsi := d - 1, r9 := 1))
  {
    hide Run, Step;
    RestCopied(s);
    LessOne(Run(P, s, 2));
    RunAdd(P, s, 2, 2);
  }

  lemma RestCopied(s: State)
    requires s.status == AOK && s.pc == 0x108b && 0 <= s.regs.r12 < s.regs.rbp < ADDRESS_LIMIT
    ensures var d, s' := s.regs.rbp - s.regs.r12, Run(P, s, 2);
            s' == s.(pc := 0x108f, cc := s'.cc, regs := s.regs.(rbp := d, rsi := d))
  {
    hide Run, Flags, Holds, Quotient, Wrap;
    var d := s.regs.rbp - s.regs.r12;
    NoWrap(d);
    var s1 := s.(pc := 0x108d, regs := s.regs.(rbp := d), cc := Flags(Sub, s.regs.r12, s.regs.rbp));
    One(P, s, s1, 1);
    One(P, s1, s1.(pc := 0x108f, regs := s1.regs.(rsi := d)), 0);
  }

  lemma LessOne(s: State)
    requires s.status == AOK && s.pc == 0x108f && 0 < s.regs.rsi < ADDRESS_LIMIT
    ensures var s' := Run(P, s, 2);
            s' == s.(pc := 0x109b, cc := s'.cc, regs := s.regs.(rsi := s.regs.rsi - 1, r9 := 1))
  {
    hide Run, Flags, Holds, Quotient, Wrap;
    NoWrap(s.regs.rsi - 1);
    var s1 := s.(pc := 0x1099, regs := s.regs.(r9 := 1));
    One(P, s, s1, 1);
    One(P, s1, s1.(pc := 0x109b, regs := s1.regs.(rsi := s.regs.rsi - 1), cc := Flags(Sub, 1, s.regs.rsi)), 0);
  }

  lemma RestBase(s: State)
    requires s.status == AOK && s.pc == 0x109b && 0 <= s.regs.rbx < ADDRESS_LIMIT
    requires 8 <= s.regs.rsp < ADDRESS_LIMIT && s.regs.rsp - 8 in s.mem
    ensures var s' := Run(P, s, 4);
            s' == s.(pc := 0x1000, cc := s'.cc, mem := s.mem[s.regs.rsp - 8 := 0x10b2],
                     regs := s.regs.(r9 := 8, rdi := s.regs.rbx + 8, rsp := s.regs.rsp - 8))
  {
    hide Run, Step;
    RestStart(s);
    SecondCall(Run(P, s, 2));
    RunAdd(P, s, 2, 2);
  }

  lemma RestStart(s: State)
    requires s.status == AOK && s.pc == 0x109b
    ensures Run(P, s, 2) == s.(pc := 0x10a7, regs := s.regs.(r9 := 8, rdi := s.regs.rbx))
  {
    hide Run;
    var s1 := s.(pc := 0x10a5, regs := s.regs.(r9 := 8));
    One(P, s, s1, 1);
    One(P, s1, s1.(pc := 0x10a7, regs := s1.regs.(rdi := s.regs.rbx)), 0);
  }

  lemma SecondCall(s: State)
    requires s.status == AOK && s.pc == 0x10a7 && 0 <= s.regs.rdi < ADDRESS_LIMIT && s.regs.r9 == 8
    requires 8 <= s.regs.rsp < ADDRESS_LIMIT && s.regs.rsp - 8 in s.mem
    ensures var s' := Run(P, s, 2);
            s' == s.(pc := 0x1000, cc := s'.cc, mem := s.mem[s.regs.rsp - 8 := 0x10b2],
                     regs := s.regs.(rdi := s.regs.rdi + 8, rsp := s.regs.rsp - 8))
  {
    hide Run, Step, Flags;
    AddEight(s);
    CallAt10a9(Run(P, s, 1));
    RunAdd(P, s, 1, 1);
  }

  lemma AddEight(s: State)
    requires s.status == AOK && s.pc == 0x10a7 && 0 <= s.regs.rdi < ADDRESS_LIMIT && s.regs.r9 == 8
    ensures Run(P, s, 1) == s.(pc := 0x10a9, regs := s.regs.(rdi := s.regs.rdi + 8), cc := Flags(Add, 8, s.regs.rdi))
  {
    hide Run, Flags, Holds, Quotient, Wrap;
    NoWrap(s.regs.rdi + 8);
    One(P, s, s.(pc := 0x10a9, regs := s.regs.(rdi := s.regs.rdi + 8), cc := Flags(Add, 8, s.regs.rdi)), 0);
  }

  lemma CallAt10a9(s: State)
    requires s.status == AOK && s.pc == 0x10a9 && 8 <= s.regs.rsp < ADDRESS_LIMIT && s.regs.rsp - 8 in s.mem
    ensures Run(P, s, 1)
            == s.(pc := 0x1000, regs := s.regs.(rsp := s.regs.rsp - 8), mem := s.mem[s.regs.rsp - 8 := 0x10b2])
  {
    hide Run, Flags, Holds, Quotient, Wrap;
    NoWrap(s.regs.rsp - 8);
    One(P, s, s.(pc := 0x1000, regs := s.regs.(rsp := s.regs.rsp - 8), mem := s.mem[s.regs.rsp - 8 := 0x10b2]), 0);
  }

  lemma JumpToEpilogue(s: State)
    requires s.status == AOK && s.pc == 0x10b2
    ensures Run(P, s, 1) == s.(pc := 0x1122)
  {
    hide Run;
    One(P, s, s.(pc := 0x1122), 0);
  }
}
