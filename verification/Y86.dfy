/** A Y86-64 machine: program counter, registers, condition codes and 64-bit words of memory, with the
    mulq and divq of this course. Values are signed; a word of memory is named by its address. */
module Y86 {
  import opened Bits

  const WORD_MIN := -0x8000_0000_0000_0000
  const WORD_LIMIT := 0x8000_0000_0000_0000
  const WORD_RANGE := 0x1_0000_0000_0000_0000

  predicate IsWord(x: int) { WORD_MIN <= x < WORD_LIMIT }

  /** The 64-bit value of a result. */
  function Wrap(x: int): int
  {
    if IsWord(x) then x else (x - WORD_MIN) % WORD_RANGE + WORD_MIN
  }

  lemma NoWrap(x: int)
    requires IsWord(x)
    ensures Wrap(x) == x
  {
  }

  datatype Reg = RAX | RCX | RDX | RBX | RSP | RBP | RSI | RDI | R8 | R9 | R12

  datatype Regs = Regs(rax: int, rcx: int, rdx: int, rbx: int, rsp: int, rbp: int,
                       rsi: int, rdi: int, r8: int, r9: int, r12: int)

  datatype Codes = Codes(zf: bool, sf: bool, of: bool)

  datatype Status = AOK | HLT | ADR | INS

  datatype State = State(status: Status, pc: int, regs: Regs, cc: Codes, mem: map<int, int>)

  datatype Op = Add | Sub | Mul | Div

  datatype Cond = Always | Le | Lt | Ge

  /** Moves between a register and memory have no displacement in the programs here. */
  datatype Instr =
    | Halt | Ret
    | Irmovq(v: int, rB: Reg)
    | Rrmovq(rA: Reg, rB: Reg)
    | Rmmovq(rA: Reg, rB: Reg)
    | Mrmovq(rB: Reg, rA: Reg)
    | Opq(op: Op, rA: Reg, rB: Reg)
    | Jump(cond: Cond, dest: int)
    | Call(dest: int)
    | Pushq(rA: Reg)
    | Popq(rA: Reg)

  /** The length of an instruction's encoding in bytes. */
  function Size(i: Instr): int
  {
    match i
    case Halt => 1
    case Ret => 1
    case Irmovq(_, _) => 10
    case Rmmovq(_, _) => 10
    case Mrmovq(_, _) => 10
    case Jump(_, _) => 9
    case Call(_) => 9
    case _ => 2
  }

  function Get(r: Regs, x: Reg): int
  {
    match x
    case RAX => r.rax case RCX => r.rcx case RDX => r.rdx case RBX => r.rbx case RSP => r.rsp case RBP => r.rbp
    case RSI => r.rsi case RDI => r.rdi case R8 => r.r8 case R9 => r.r9 case R12 => r.r12
  }

  function Set(r: Regs, x: Reg, v: int): Regs
  {
    match x
    case RAX => r.(rax := v) case RCX => r.(rcx := v) case RDX => r.(rdx := v) case RBX => r.(rbx := v)
    case RSP => r.(rsp := v) case RBP => r.(rbp := v) case RSI => r.(rsi := v) case RDI => r.(rdi := v)
    case R8 => r.(r8 := v) case R9 => r.(r9 := v) case R12 => r.(r12 := v)
  }

  function Compute(op: Op, a: int, b: int): int
    requires op == Div ==> a != 0
  {
    match op
    case Add => Wrap(b + a)
    case Sub => Wrap(b - a)
    case Mul => Wrap(b * a)
    case Div => Wrap(Quotient(b, a))
  }

  /** Zero, sign and overflow, from the signs of the operands; mulq and divq clear the overflow flag. */
  function Flags(op: Op, a: int, b: int): Codes
    requires op == Div ==> a != 0
  {
    var t := Compute(op, a, b);
    Codes(t == 0, t < 0,
          match op
          case Add => (a < 0) == (b < 0) && (t < 0) != (a < 0)
          case Sub => (a < 0) != (b < 0) && (t < 0) != (b < 0)
          case _ => false)
  }

  predicate Holds(c: Cond, cc: Codes)
  {
    match c
    case Always => true
    case Le => cc.sf != cc.of || cc.zf
    case Lt => cc.sf != cc.of
    case Ge => cc.sf == cc.of
  }

  /** One instruction; next is the address of the one behind it. Memory outside the map cannot be accessed. */
  function Execute(i: Instr, s: State, next: int): State
  {
    var r := s.regs;
    match i
    case Halt => s.(status := HLT)
    case Irmovq(v, rB) => s.(pc := next, regs := Set(r, rB, v))
    case Rrmovq(rA, rB) => s.(pc := next, regs := Set(r, rB, Get(r, rA)))
    case Mrmovq(rB, rA) =>
      var a := Get(r, rB);
      if a in s.mem then s.(pc := next, regs := Set(r, rA, s.mem[a])) else s.(status := ADR)
    case Rmmovq(rA, rB) =>
      var a := Get(r, rB);
      if a in s.mem then s.(pc := next, mem := s.mem[a := Get(r, rA)]) else s.(status := ADR)
    case Opq(op, rA, rB) =>
      var a, b := Get(r, rA), Get(r, rB);
      if op == Div && a == 0 then s.(status := INS) else
        s.(pc := next, regs := Set(r, rB, Compute(op, a, b)), cc := Flags(op, a, b))
    case Jump(c, dest) => s.(pc := if Holds(c, s.cc) then dest else next)
    case Call(dest) =>
      var sp := Wrap(r.rsp - 8);
      if sp in s.mem then s.(pc := dest, regs := r.(rsp := sp), mem := s.mem[sp := next]) else s.(status := ADR)
    case Ret =>
      if r.rsp in s.mem then s.(pc := s.mem[r.rsp], regs := r.(rsp := Wrap(r.rsp + 8))) else s.(status := ADR)
    case Pushq(rA) =>
      var sp := Wrap(r.rsp - 8);
      if sp in s.mem then s.(pc := next, regs := r.(rsp := sp), mem := s.mem[sp := Get(r, rA)]) else s.(status := ADR)
    case Popq(rA) =>
      if r.rsp in s.mem then s.(pc := next, regs := Set(r.(rsp := Wrap(r.rsp + 8)), rA, s.mem[r.rsp]))
      else s.(status := ADR)
  }

  /** After subq a, b the jumps compare b with a exactly, even when the subtraction overflows. */
  lemma SubCompares(a: int, b: int)
    requires IsWord(a) && IsWord(b)
    ensures var cc := Flags(Sub, a, b);
            && (Holds(Lt, cc) <==> b < a) && (Holds(Ge, cc) <==> b >= a) && (Holds(Le, cc) <==> b <= a)
            && (cc.zf <==> b == a)
  {
  }

  /** Results are reduced modulo 2^64 to a word. */
  lemma WrapIsModular(x: int)
    ensures -0x8000_0000_0000_0000 <= Wrap(x) < 0x8000_0000_0000_0000
    ensures (Wrap(x) - x) % 0x1_0000_0000_0000_0000 == 0
  {
  }

  /** What an operation leaves, and its flags: the overflow flag is set exactly if the exact sum or difference is
      no word. Division drops the remainder. */
  lemma OpExact(op: Op, a: int, b: int)
    requires IsWord(a) && IsWord(b) && (op == Div ==> a != 0)
    ensures var t, cc := Compute(op, a, b), Flags(op, a, b);
            && IsWord(t) && (cc.zf <==> t == 0) && (cc.sf <==> t < 0)
            && (op == Add ==> (t - (b + a)) % 0x1_0000_0000_0000_0000 == 0 && (cc.of <==> !IsWord(b + a)))
            && (op == Sub ==> (t - (b - a)) % 0x1_0000_0000_0000_0000 == 0 && (cc.of <==> !IsWord(b - a)))
            && (op == Mul ==> (t - b * a) % 0x1_0000_0000_0000_0000 == 0 && !cc.of)
            && (op == Div ==> (t - Quotient(b, a)) % 0x1_0000_0000_0000_0000 == 0 && !cc.of)
  {
    hide Quotient;
    match op
    case Add => WrapIsModular(b + a);
    case Sub => WrapIsModular(b - a);
    case Mul => WrapIsModular(b * a);
    case Div => WrapIsModular(Quotient(b, a));
  }

  /** Only a halt, a missing address and a division by zero stop the machine, and then nothing else changes. */
  lemma StopsIff(i: Instr, s: State, next: int)
    requires s.status == AOK && IsWord(s.regs.rsp - 8) && IsWord(s.regs.rsp + 8)
    ensures var s', r := Execute(i, s, next), s.regs;
            && (s'.status == HLT <==> i == Halt)
            && (s'.status == INS <==> i.Opq? && i.op == Div && Get(r, i.rA) == 0)
            && (s'.status == ADR <==>
                  || (i.Mrmovq? && Get(r, i.rB) !in s.mem) || (i.Rmmovq? && Get(r, i.rB) !in s.mem)
                  || ((i.Ret? || i.Popq?) && r.rsp !in s.mem) || ((i.Call? || i.Pushq?) && r.rsp - 8 !in s.mem))
            && (s'.status != AOK ==> s' == s.(status := s'.status))
            && s'.mem.Keys == s.mem.Keys
  {
  }

  /** What is pushed is popped, and ret goes back behind the call: the stack pointer is as before. */
  lemma StackRoundTrip(s: State, x: Reg, y: Reg, dest: int, next: int, next': int)
    requires s.status == AOK && s.regs.rsp - 8 in s.mem && IsWord(s.regs.rsp - 8) && IsWord(s.regs.rsp)
    ensures var s' := Execute(Popq(y), Execute(Pushq(x), s, next), next');
            && s' == s.(pc := next', regs := Set(s.regs, y, Get(s.regs, x)),
                        mem := s.mem[s.regs.rsp - 8 := Get(s.regs, x)])
    ensures Execute(Call(dest), s, next).pc == dest
    ensures Execute(Ret, Execute(Call(dest), s, next), next')
         == s.(pc := next, mem := s.mem[s.regs.rsp - 8 := next])
  {
  }

  /** Registers are written one at a time. */
  lemma SetGet(r: Regs, x: Reg, v: int, y: Reg)
    ensures Get(Set(r, x, v), y) == if y == x then v else Get(r, y)
  {
  }

  // ---- arrays in memory ----

  ghost predicate HasWords(mem: map<int, int>, base: int, n: nat)
  {
    forall k | 0 <= k < n :: base + 8 * k in mem
  }

  /** The n words from address base on. */
  ghost function Words(mem: map<int, int>, base: int, n: nat): (s: seq<int>)
    requires HasWords(mem, base, n)
    ensures |s| == n && forall k | 0 <= k < n :: s[k] == mem[base + 8 * k]
  {
    seq(n, k requires 0 <= k < n => mem[base + 8 * k])
  }

  /** The same addresses, and the same words except from lo to hi and from lo' to hi'. */
  ghost predicate SameExcept(mem: map<int, int>, mem': map<int, int>, lo: int, hi: int, lo': int, hi': int)
  {
    && mem'.Keys == mem.Keys
    && forall a | a in mem && !(lo <= a < hi) && !(lo' <= a < hi') :: mem'[a] == mem[a]
  }

  lemma WordsUpdated(mem: map<int, int>, base: int, n: nat, k: nat, v: int)
    requires HasWords(mem, base, n) && k < n
    ensures HasWords(mem[base + 8 * k := v], base, n)
    ensures Words(mem[base + 8 * k := v], base, n) == Words(mem, base, n)[k := v]
  {
  }

  lemma WordsKept(mem: map<int, int>, mem': map<int, int>, lo: int, hi: int, lo': int, hi': int, base: int, n: nat)
    requires HasWords(mem, base, n) && SameExcept(mem, mem', lo, hi, lo', hi')
    requires (base + 8 * n <= lo || hi <= base) && (base + 8 * n <= lo' || hi' <= base)
    ensures HasWords(mem', base, n) && Words(mem', base, n) == Words(mem, base, n)
  {
  }

  // ---- programs ----

  datatype Program = SortYs | Sort64Ys

  /** The code of lab3/sort.ys and lab2/sort_64.ys at the addresses that the assembler gives it. */
  function Fetch(p: Program, pc: int): Instr
  {
    match p
    case SortYs => QuickSortCode(pc)
    case Sort64Ys => ExchangeSortCode(pc)
  }

  function QuickSortCode(pc: int): Instr
  {
    match pc
    case 0x1000 => Pushq(R12)
    case 0x1002 => Pushq(RBP)
    case 0x1004 => Pushq(RBX)
    case 0x1006 => Rrmovq(RSI, RBP)
    case 0x1008 => Irmovq(1, R9)
    case 0x1012 => Opq(Sub, RSI, R9)
    case 0x1014 => Jump(Ge, 0x1122)
    case 0x101d => Irmovq(8, R9)
    case 0x1027 => Rrmovq(RSI, RCX)
    case 0x1029 => Opq(Mul, R9, RCX)
    case 0x102b => Opq(Sub, R9, RCX)
    case 0x102d => Opq(Add, RDI, RCX)
    case 0x102f => Mrmovq(RCX, R8)
    case 0x1039 => Rrmovq(RDI, R9)
    case 0x103b => Opq(Sub, RCX, R9)
    case 0x103d => Jump(Le, 0x10bb)
    case 0x1046 => Rrmovq(RDI, RBX)
    case 0x1048 => Mrmovq(RCX, RAX)
    case 0x1052 => Mrmovq(RBX, RDX)
    case 0x105c => Rmmovq(RDX, RCX)
    case 0x1066 => Rmmovq(RAX, RBX)
    case 0x1070 => Rrmovq(RBX, R12)
    case 0x1072 => Opq(Sub, RDI, R12)
    case 0x1074 => Irmovq(8, R9)
    case 0x107e => Opq(Div, R9, R12)
    case 0x1080 => Rrmovq(R12, RSI)
    case 0x1082 => Call(0x1000)
    case 0x108b => Opq(Sub, R12, RBP)
    case 0x108d => Rrmovq(RBP, RSI)
    case 0x108f => Irmovq(1, R9)
    case 0x1099 => Opq(Sub, R9, RSI)
    case 0x109b => Irmovq(8, R9)
    case 0x10a5 => Rrmovq(RBX, RDI)
    case 0x10a7 => Opq(Add, R9, RDI)
    case 0x10a9 => Call(0x1000)
    case 0x10b2 => Jump(Always, 0x1122)
    case 0x10bb => Rrmovq(RDI, RAX)
    case 0x10bd => Rrmovq(RDI, RBX)
    case 0x10bf => Mrmovq(RAX, RDX)
    case 0x10c9 => Rrmovq(R8, R9)
    case 0x10cb => Opq(Sub, RDX, R9)
    case 0x10cd => Jump(Lt, 0x1100)
    case 0x10d6 => Mrmovq(RBX, RSI)
    case 0x10e0 => Rmmovq(RSI, RAX)
    case 0x10ea => Rmmovq(RDX, RBX)
    case 0x10f4 => Irmovq(8, R9)
    case 0x10fe => Opq(Add, R9, RBX)
    case 0x1100 => Irmovq(8, R9)
    case 0x110a => Opq(Add, R9, RAX)
    case 0x110c => Rrmovq(RCX, R9)
    case 0x110e => Opq(Sub, RAX, R9)
    case 0x1110 => Jump(Le, 0x1048)
    case 0x1119 => Jump(Always, 0x10bf)
    case 0x1122 => Popq(RBX)
    case 0x1124 => Popq(RBP)
    case 0x1126 => Popq(R12)
    case 0x1128 => Ret
    case _ => Halt
  }

  function ExchangeSortCode(pc: int): Instr
  {
    match pc
    case 0x100 => Irmovq(0x1008, RAX)
    case 0x10a => Mrmovq(RAX, RAX)
    case 0x114 => Irmovq(0x1000, RCX)
    case 0x11e => Mrmovq(RCX, RCX)
    case 0x128 => Irmovq(1, RDI)
    case 0x132 => Opq(Sub, RDI, RAX)
    case 0x134 => Jump(Lt, 0x1c3)
    case 0x13d => Mrmovq(RCX, RBX)
    case 0x147 => Rrmovq(RAX, RDX)
    case 0x149 => Rrmovq(RCX, RSI)
    case 0x14b => Irmovq(8, RDI)
    case 0x155 => Opq(Add, RDI, RSI)
    case 0x157 => Irmovq(1, RDI)
    case 0x161 => Opq(Sub, RDI, RDX)
    case 0x163 => Jump(Lt, 0x1ae)
    case 0x16c => Mrmovq(RSI, RDI)
    case 0x176 => Rrmovq(RDI, RBP)
    case 0x178 => Opq(Sub, RBX, RBP)
    case 0x17a => Jump(Ge, 0x199)
    case 0x183 => Rmmovq(RBX, RSI)
    case 0x18d => Rmmovq(RDI, RCX)
    case 0x197 => Rrmovq(RDI, RBX)
    case 0x199 => Irmovq(8, RDI)
    case 0x1a3 => Opq(Add, RDI, RSI)
    case 0x1a5 => Jump(Always, 0x157)
    case 0x1ae => Irmovq(8, RDI)
    case 0x1b8 => Opq(Add, RDI, RCX)
    case 0x1ba => Jump(Always, 0x128)
    case _ => Halt
  }

  function Step(p: Program, s: State): State
  {
    if s.status != AOK then s else
      var i := Fetch(p, s.pc);
      Execute(i, s, s.pc + Size(i))
  }

  function Run(p: Program, s: State, n: nat): State
    decreases n
  {
    if n == 0 then s else Run(p, Step(p, s), n - 1)
  }

  lemma One(p: Program, s: State, s': State, n: nat)
    requires Step(p, s) == s'
    ensures Run(p, s, n + 1) == Run(p, s', n) && Run(p, s', 0) == s'
  {
  }

  lemma {:induction false} RunAdd(p: Program, s: State, m: nat, n: nat)
    ensures Run(p, s, m + n) == Run(p, Run(p, s, m), n)
    decreases m
  {
    if m > 0 {
      RunAdd(p, Step(p, s), m - 1, n);
    }
  }
}
