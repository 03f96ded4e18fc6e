/** The part of x86-64 that the block emitter uses (src/cpu/jit/emit_x64.cpp), with the System V calling
    convention for the C++ helpers (src/cpu/jit/helpers.cpp).

    A register holds a number, the address of one of the cells the emitter embeds, or junk. Code that does
    arithmetic on an address, follows a number, or reads junk or undefined flags faults, so a run without
    faults also shows that the emitted code keeps nothing in registers that a call may clobber.
    Every jump the emitter makes goes forward, so a program runs as one pass over its instructions: after a
    taken jump the pass looks for the label and resumes there. */
module X86 {
  import opened Bits
  import opened ByteOrder
  import opened Cpu
  import opened Interp
  import opened Timer
  import Tlb
  import SoftTlb

  /** What an embedded address points at. */
  datatype Cell =
    | GprCell(r: RegNum) | HiCell | LoCell
    | DelayCell | PrevDelayCell | PrevPcCell | PcCell | NextPcCell
    | AbortedCell | AnnulCell
    | RdramBase | SoftLoadBase | SoftStoreBase

  datatype Val = Num(n: u64) | Ptr(cell: Cell) | Junk

  datatype Reg = Rax | Rcx | Rdx | Rbx | Rsi | Rdi | R12

  /** CF, ZF and SF != OF after a comparison; other instructions leave them undefined here. */
  datatype Flags = Undefined | Compared(carry: bool, zero: bool, less: bool)

  datatype Cond = E | NE | A | B | L | GE | LE | G

  datatype Label = Exit | Local(op: nat, name: Name)
  datatype Name = NotTaken | Done | SegOk | TrySoft | Slow

  datatype Helper =
    | DoBranchAddr | DoBranchOffset | DoBranchLikelyOffset | DoLink | DoJ | DoJal
    | DoMem(kind: Kind) | DoHiLo(kind: Kind) | DoAddCount

  datatype AluOp = AddA | SubA | AndA | OrA | XorA | NotA | ShlA | ShrA | SarA

  datatype Src = R(reg: Reg) | I(n: u64)

  datatype Instr =
    | MovImm(r: Reg, n: u64) | MovPtr(r: Reg, cell: Cell)
    | Mov64(r: Reg, from: Reg) | Mov32(r: Reg, from: Reg)
    | LoadQ(r: Reg, base: Reg) | StoreQ(base: Reg, from: Reg) | AddMemQ(base: Reg, n: u64)
    | MovzxB(r: Reg, base: Reg) | StoreB(base: Reg, from: Reg) | StoreImmB(base: Reg, b: bool)
    | CmpMemB(base: Reg)
    | LoadMem(r: Reg, w: Width, signed: bool, base: Reg, index: Reg, disp: nat)
    | StoreMem(w: Width, base: Reg, index: Reg, disp: nat, from: Reg)
    | CmpSlotVpn(base: Reg, index: Reg, with: Reg) | LoadSlotPage(r: Reg, base: Reg, index: Reg)
    | Alu(op: AluOp, wide: bool, r: Reg, src: Src) | Zero(r: Reg) | Inc32(r: Reg) | Cdqe
    | Cmp64(r: Reg, with: Reg) | Cmp32Imm(r: Reg, n: u64) | Cmp8Imm(r: Reg, n: u64)
    | Test64(r: Reg) | Test32(r: Reg)
    | SetCc(c: Cond, r: Reg) | Movzx8(r: Reg, from: Reg)
    | Jcc(c: Cond, to: Label) | Jmp(to: Label) | Lbl(l: Label)
    | Call(f: Helper)

  datatype Machine = Machine(core: Core, tables: Tables, timer: Timer, aborted: bool, annul: bool,
                             rax: Val, rcx: Val, rdx: Val, rbx: Val, rsi: Val, rdi: Val, r12: Val, flags: Flags)

  datatype Config = Running(m: Machine) | Seeking(l: Label, m: Machine) | Fault

  function Get(m: Machine, r: Reg): Val {
    match r
    case Rax => m.rax case Rcx => m.rcx case Rdx => m.rdx case Rbx => m.rbx
    case Rsi => m.rsi case Rdi => m.rdi case R12 => m.r12
  }

  function Set(m: Machine, r: Reg, v: Val): Machine {
    match r
    case Rax => m.(rax := v) case Rcx => m.(rcx := v) case Rdx => m.(rdx := v) case Rbx => m.(rbx := v)
    case Rsi => m.(rsi := v) case Rdi => m.(rdi := v) case R12 => m.(r12 := v)
  }

  /** An arithmetic instruction: its result, and the flags gone. */
  function Result(m: Machine, r: Reg, n: u64): Config { Running(Set(m, r, Num(n)).(flags := Undefined)) }

  function Quad(m: Machine, c: Cell): Val {
    match c
    case GprCell(r) => Num(m.core.gpr[r])
    case HiCell => Num(m.core.hi)
    case LoCell => Num(m.core.lo)
    case PrevPcCell => Num(m.core.prevPc)
    case PcCell => Num(m.core.pc)
    case NextPcCell => Num(m.core.nextPc)
    case _ => Junk
  }

  function SetQuad(m: Machine, c: Cell, n: u64): Config {
    match c
    case GprCell(r) => Running(m.(core := m.core.(gpr := m.core.gpr[r := n])))
    case HiCell => Running(m.(core := m.core.(hi := n)))
    case LoCell => Running(m.(core := m.core.(lo := n)))
    case PrevPcCell => Running(m.(core := m.core.(prevPc := n)))
    case PcCell => Running(m.(core := m.core.(pc := n)))
    case NextPcCell => Running(m.(core := m.core.(nextPc := n)))
    case _ => Fault
  }

  /** The boolean cells hold 0 or 1. */
  function Byte(m: Machine, c: Cell): Val {
    match c
    case DelayCell => Num(Odd(m.core.delay))
    case PrevDelayCell => Num(Odd(m.core.prevDelay))
    case AbortedCell => Num(Odd(m.aborted))
    case AnnulCell => Num(Odd(m.annul))
    case _ => Junk
  }

  function SetByte(m: Machine, c: Cell, b: bool): Config {
    match c
    case DelayCell => Running(m.(core := m.core.(delay := b)))
    case PrevDelayCell => Running(m.(core := m.core.(prevDelay := b)))
    case AbortedCell => Running(m.(aborted := b))
    case AnnulCell => Running(m.(annul := b))
    case _ => Fault
  }

  function Compare64(m: Machine, a: u64, b: u64): Config {
    Running(m.(flags := Compared(a < b, a == b, Signed(a) < Signed(b))))
  }

  function Compare32(m: Machine, a: nat, b: nat): Config {
    Running(m.(flags := Compared(Lo32(a) < Lo32(b), Lo32(a) == Lo32(b), Signed32(a) < Signed32(b))))
  }

  predicate Holds(c: Cond, f: Flags)
    requires f.Compared?
  {
    match c
    case E => f.zero case NE => !f.zero
    case A => !f.carry && !f.zero case B => f.carry
    case L => f.less case GE => !f.less case LE => f.less || f.zero case G => !f.less && !f.zero
  }

  /** Bytes of RDRAM straight from the host array, least significant first. */
  function HostRead(mem: seq<byte>, w: Width, i: nat): u64 {
    match w
    case W8 => At(mem, i)
    case W16 => Host16(mem, i)
    case W32 => Host32(mem, i)
    case W64 => Host32(mem, i) + Host32(mem, i + 4) * WORD
  }

  function HostWrite(mem: seq<byte>, w: Width, i: nat, v: u64): (r: seq<byte>)
    ensures |r| == |mem|
  {
    match w
    case W8 => Put(mem, i, v % 0x100)
    case W16 => PutHost16(mem, i, v % 0x1_0000)
    case W32 => PutHost32(mem, i, v % WORD)
    case W64 => PutHost32(PutHost32(mem, i, v % WORD), i + 4, v / WORD)
  }

  function SignExtend(w: Width, v: u64): u64 {
    match w case W8 => Sext8(v) case W16 => Sext16(v) case W32 => Sext32(v) case W64 => v
  }

  // ---- Instructions -----------------------------------------------------------------------------------

  function Slots(m: Machine, c: Cell): SoftTlb.Table { if c.SoftLoadBase? then m.tables.load else m.tables.store }

  /** 64-bit results wrap; 32-bit ones also clear the upper half. Shift counts are taken modulo the width. */
  function Value(op: AluOp, wide: bool, a: u64, b: u64): u64 {
    match op
    case AddA => if wide then Wrap(a + b) else Lo32(a + b)
    case SubA => if wide then Wrap(a - b) else (Lo32(a) - Lo32(b)) % WORD
    case AndA => if wide then Wrap(And(a, b)) else Lo32(And(Lo32(a), Lo32(b)))
    case OrA => if wide then Wrap(Or(a, b)) else Lo32(Or(Lo32(a), Lo32(b)))
    case XorA => if wide then Wrap(Xor(a, b)) else Lo32(Xor(Lo32(a), Lo32(b)))
    case NotA => if wide then DOUBLE - 1 - a else WORD - 1 - Lo32(a)
    case ShlA => if wide then Wrap(Shl(a, b % 64)) else Lo32(Shl(Lo32(a), b % 32))
    case ShrA => if wide then Wrap(Right(a, b % 64)) else Lo32(Right(Lo32(a), b % 32))
    case SarA => if wide then Wrap(Right(Signed(a), b % 64)) else Lo32(Wrap(Right(Signed32(a), b % 32)))
  }

  function Operand(m: Machine, src: Src): Val {
    match src case R(f) => Get(m, f) case I(n) => Num(n)
  }

  function Exec(i: Instr, c: Config): Config {
    match c
    case Running(m) => ExecRunning(i, m)
    case Seeking(l, m) => if i == Lbl(l) then Running(m) else c
    case Fault => Fault
  }

  function ExecRunning(i: Instr, m: Machine): Config {
    match i
    case MovImm(_, _) | MovPtr(_, _) | Mov64(_, _) | Mov32(_, _) => Move(i, m)
    case Alu(_, _, _, _) | Inc32(_) | Zero(_) | Cdqe => Arith(i, m)
    case Jcc(_, _) | Jmp(_) | Lbl(_) => Jump(i, m)
    case Call(f) => CallHelper(f, m)
    case LoadQ(_, _) | StoreQ(_, _) | AddMemQ(_, _) => QuadCell(i, m)
    case MovzxB(_, _) | StoreB(_, _) | StoreImmB(_, _) | CmpMemB(_) => ByteCell(i, m)
    case LoadMem(_, _, _, _, _, _) | StoreMem(_, _, _, _, _) => HostMemory(i, m)
    case CmpSlotVpn(_, _, _) | LoadSlotPage(_, _, _) => SlotCell(i, m)
    case _ => Test(i, m)
  }

  function Move(i: Instr, m: Machine): Config {
    match i
    case MovImm(r, n) => Running(Set(m, r, Num(n)))
    case MovPtr(r, cell) => Running(Set(m, r, Ptr(cell)))
    case Mov64(r, f) => Running(Set(m, r, Get(m, f)))
    case Mov32(r, f) => (match Get(m, f) case Num(n) => Running(Set(m, r, Num(Lo32(n)))) case _ => Fault)
    case _ => Fault
  }

  function Arith(i: Instr, m: Machine): Config {
    match i
    case Alu(op, wide, r, src) =>
      (match (Get(m, r), Operand(m, src)) case (Num(a), Num(b)) => Result(m, r, Value(op, wide, a, b)) case _ => Fault)
    case Inc32(r) => (match Get(m, r) case Num(a) => Result(m, r, Lo32(a + 1)) case _ => Fault)
    case Zero(r) => Result(m, r, 0)
    case Cdqe => (match m.rax case Num(n) => Running(m.(rax := Num(Sext32(n)))) case _ => Fault)
    case _ => Fault
  }

  function Jump(i: Instr, m: Machine): Config {
    match i
    case Jcc(cc, l) => if m.flags.Undefined? then Fault else if Holds(cc, m.flags) then Seeking(l, m) else Running(m)
    case Jmp(l) => Seeking(l, m)
    case Lbl(_) => Running(m)
    case _ => Fault
  }

  function QuadCell(i: Instr, m: Machine): Config {
    match i
    case LoadQ(r, b) => (match Get(m, b) case Ptr(cell) => Running(Set(m, r, Quad(m, cell))) case _ => Fault)
    case StoreQ(b, f) => (match (Get(m, b), Get(m, f)) case (Ptr(cell), Num(n)) => SetQuad(m, cell, n) case _ => Fault)
    case AddMemQ(b, n) =>
      (match Get(m, b)
       case Ptr(cell) => (match Quad(m, cell) case Num(q) => SetQuad(m.(flags := Undefined), cell, Wrap(q + n)) case _ => Fault)
       case _ => Fault)
    case _ => Fault
  }

  function ByteCell(i: Instr, m: Machine): Config {
    match i
    case MovzxB(r, b) => (match Get(m, b) case Ptr(cell) => Running(Set(m, r, Byte(m, cell))) case _ => Fault)
    case StoreB(b, f) =>
      (match (Get(m, b), Get(m, f)) case (Ptr(cell), Num(n)) => SetByte(m, cell, n % 0x100 != 0) case _ => Fault)
    case StoreImmB(b, v) => (match Get(m, b) case Ptr(cell) => SetByte(m, cell, v) case _ => Fault)
    case CmpMemB(b) =>
      (match Get(m, b)
       case Ptr(cell) => (match Byte(m, cell) case Num(n) => Compare64(m, n, 0) case _ => Fault)
       case _ => Fault)
    case _ => Fault
  }

  function HostMemory(i: Instr, m: Machine): Config {
    match i
    case LoadMem(r, w, signed, b, x, d) =>
      (match (Get(m, b), Get(m, x))
       case (Ptr(RdramBase), Num(n)) =>
         var v := HostRead(m.core.rdram, w, n + d);
         Running(Set(m, r, Num(if signed then SignExtend(w, v) else v)))
       case _ => Fault)
    case StoreMem(w, b, x, d, f) =>
      (match (Get(m, b), Get(m, x), Get(m, f))
       case (Ptr(RdramBase), Num(n), Num(v)) =>
         Running(m.(core := m.core.(rdram := HostWrite(m.core.rdram, w, n + d, v))))
       case _ => Fault)
    case _ => Fault
  }

  function SlotCell(i: Instr, m: Machine): Config {
    match i
    case CmpSlotVpn(b, x, w) =>
      (match (Get(m, b), Get(m, x), Get(m, w))
       case (Ptr(cell), Num(n), Num(v)) =>
         if IsSlotBase(cell) && n < SoftTlb.SLOTS then Compare32(m, Slots(m, cell)[n].vpn, v) else Fault
       case _ => Fault)
    case LoadSlotPage(r, b, x) =>
      (match (Get(m, b), Get(m, x))
       case (Ptr(cell), Num(n)) =>
         if IsSlotBase(cell) && n < SoftTlb.SLOTS then Running(Set(m, r, Num(Lo32(Slots(m, cell)[n].page)))) else Fault
       case _ => Fault)
    case _ => Fault
  }

  predicate IsSlotBase(c: Cell) { c.SoftLoadBase? || c.SoftStoreBase? }

  function Test(i: Instr, m: Machine): Config {
    match i
    case Cmp64(r, w) => (match (Get(m, r), Get(m, w)) case (Num(a), Num(b)) => Compare64(m, a, b) case _ => Fault)
    case Cmp32Imm(r, n) => (match Get(m, r) case Num(a) => Compare32(m, a, n) case _ => Fault)
    case Cmp8Imm(r, n) =>
      (match Get(m, r)
       case Num(a) => Running(m.(flags := Compared(a % 0x100 < n, a % 0x100 == n, Signed(Sext8(a)) < Signed(Sext8(n)))))
       case _ => Fault)
    case Test64(r) => (match Get(m, r) case Num(a) => Running(m.(flags := Compared(false, a == 0, Signed(a) < 0))) case _ => Fault)
    case Test32(r) =>
      (match Get(m, r) case Num(a) => Running(m.(flags := Compared(false, Lo32(a) == 0, Signed32(a) < 0))) case _ => Fault)
    case SetCc(cc, r) =>
      (match Get(m, r)
       case Num(a) => if m.flags.Undefined? then Fault else Running(Set(m, r, Num(a - a % 0x100 + Odd(Holds(cc, m.flags)))))
       case _ => Fault)
    case Movzx8(r, f) => (match Get(m, f) case Num(a) => Running(Set(m, r, Num(a % 0x100))) case _ => Fault)
    case _ => Fault
  }

  // ---- The C++ helpers --------------------------------------------------------------------------------

  /** A call preserves rbx and r12 and may clobber the other registers the emitter uses. */
  function Return(m: Machine): Config {
    Running(m.(rax := Junk, rcx := Junk, rdx := Junk, rsi := Junk, rdi := Junk, flags := Undefined))
  }

  function ReturnCore(m: Machine, s: Core): Config { Return(m.(core := s)) }

  /** do_load and do_store look in the software TLB first; do_lwl and its kin do not. */
  function HelperMemory(m: Machine, k: Kind, rt: RegNum, base: RegNum, imm: nat): Machine {
    var op := IrOp(k, 0, base, rt, 0, imm, 0);
    var s := m.core;
    var (mmu, r) :=
      if IsUnaligned(k) then
        (match SoftTlb.Resolve(s.es, s.c.hi, Address(s, op), AccessOf(k))
         case Hit(p) => (MmuOf(s, m.tables), Tlb.Hit(p))
         case Fail(e) => (SoftTlb.Missed(MmuOf(s, m.tables), Address(s, op)), Tlb.Fail(e)))
      else SoftTlb.ResolveHelper(MmuOf(s, m.tables), Address(s, op), WidthOf(k).Size(), AccessOf(k));
    var m' := m.(tables := Tables(mmu.load, mmu.store));
    match r
    case Hit(p) => m'.(core := Transfer(s, op, p))
    case Fail(e) =>
      m'.(core := HandleException(s.(c := mmu.c), TlbExceptionCode(e, AccessOf(k)), true, e), aborted := true)
  }

  function Truth(n: u64): bool { n % 0x100 != 0 }

  function CallHelper(f: Helper, m: Machine): Config {
    match f
    case DoBranchAddr =>
      (match (m.rdi, m.rsi)
       case (Num(c), Num(t)) => ReturnCore(m, BranchTo(m.core, Truth(c), t))
       case _ => Fault)
    case DoBranchOffset =>
      (match (m.rdi, m.rsi)
       case (Num(c), Num(o)) => ReturnCore(m, BranchTo(m.core, Truth(c), OffsetTarget(m.core, o % 0x1_0000)))
       case _ => Fault)
    case DoBranchLikelyOffset =>
      (match (m.rdi, m.rsi)
       case (Num(c), Num(o)) =>
         ReturnCore(m.(annul := !Truth(c)), BranchLikelyTo(m.core, Truth(c), OffsetTarget(m.core, o % 0x1_0000)))
       case _ => Fault)
    case DoLink => (match m.rdi case Num(r) => ReturnCore(m, Link(m.core, r % 32)) case _ => Fault)
    case DoJ => (match m.rdi case Num(t) => ReturnCore(m, BranchTo(m.core, true, Region(m.core, t))) case _ => Fault)
    case DoJal => (match m.rdi case Num(t) => ReturnCore(m, BranchTo(Link(m.core, 31), true, Region(m.core, t))) case _ => Fault)
    case DoMem(k) =>
      (match (m.rdi, m.rsi, m.rdx)
       case (Num(rt), Num(base), Num(o)) =>
         if IsMem(k) then Return(HelperMemory(m, k, rt % 32, base % 32, o % 0x1_0000)) else Fault
       case _ => Fault)
    case DoAddCount => (match m.rdi case Num(n) => Return(m.(timer := AddCount(m.timer, Lo32(n)))) case _ => Fault)
    case DoHiLo(k) =>
      (match (m.rdi, m.rsi)
       case (Num(rs), Num(rt)) => ReturnCore(m, HiLo(m.core, IrOp(k, 0, rs % 32, rt % 32, 0, 0, 0)))
       case _ => Fault)
  }

  // ---- Programs ---------------------------------------------------------------------------------------

  function Run(code: seq<Instr>, c: Config): Config
    decreases |code|
  {
    if code == [] then c else Run(code[1..], Exec(code[0], c))
  }

  // ---- One rule per instruction, for proofs that step through emitted code -------------------------

  lemma MoveRules()
    ensures forall m: Machine, r, n: u64 {:trigger Exec(MovImm(r, n), Running(m))} ::
      Exec(MovImm(r, n), Running(m)) == Running(Set(m, r, Num(n)))
    ensures forall m: Machine, r, x {:trigger Exec(MovPtr(r, x), Running(m))} ::
      Exec(MovPtr(r, x), Running(m)) == Running(Set(m, r, Ptr(x)))
    ensures forall m: Machine, r, f {:trigger Exec(Mov64(r, f), Running(m))} ::
      Exec(Mov64(r, f), Running(m)) == Running(Set(m, r, Get(m, f)))
    ensures forall m: Machine, r, f {:trigger Exec(Mov32(r, f), Running(m))} :: Get(m, f).Num? ==>
      Exec(Mov32(r, f), Running(m)) == Running(Set(m, r, Num(Lo32(Get(m, f).n))))
  {
    hide CallHelper, Arith, Jump, QuadCell, ByteCell, HostMemory, SlotCell, Test, Lo32, Set, Get;
  }

  lemma ArithRules()
    ensures forall m: Machine, op, wide, r, src {:trigger Exec(Alu(op, wide, r, src), Running(m))} ::
      Get(m, r).Num? && Operand(m, src).Num? ==>
      Exec(Alu(op, wide, r, src), Running(m)) == Result(m, r, Value(op, wide, Get(m, r).n, Operand(m, src).n))
    ensures forall m: Machine, r {:trigger Exec(Inc32(r), Running(m))} ::
      Get(m, r).Num? ==> Exec(Inc32(r), Running(m)) == Result(m, r, Lo32(Get(m, r).n + 1))
    ensures forall m: Machine, r {:trigger Exec(Zero(r), Running(m))} :: Exec(Zero(r), Running(m)) == Result(m, r, 0)
    ensures forall m: Machine {:trigger Exec(Cdqe, Running(m))} ::
      m.rax.Num? ==> Exec(Cdqe, Running(m)) == Running(m.(rax := Num(Sext32(m.rax.n))))
  {
    hide CallHelper, Move, Jump, QuadCell, ByteCell, HostMemory, SlotCell, Test, Lo32, Set, Get, Value, Sext32, Operand, Result;
  }

  lemma TestRules()
    ensures forall m: Machine, r, w {:trigger Exec(Cmp64(r, w), Running(m))} :: Get(m, r).Num? && Get(m, w).Num? ==>
      Exec(Cmp64(r, w), Running(m)) == Compare64(m, Get(m, r).n, Get(m, w).n)
    ensures forall m: Machine, r {:trigger Exec(Test64(r), Running(m))} :: Get(m, r).Num? ==>
      Exec(Test64(r), Running(m)) == Running(m.(flags := Compared(false, Get(m, r).n == 0, Signed(Get(m, r).n) < 0)))
  {
    hide CallHelper, Move, Jump, QuadCell, ByteCell, HostMemory, SlotCell, Arith, Lo32, Set, Get, Sext8, Signed, Signed32,
         Compare64, Compare32, Holds;
  }

  lemma Test32Rules()
    ensures forall m: Machine, r, n: u64 {:trigger Exec(Cmp32Imm(r, n), Running(m))} ::
      Get(m, r).Num? ==> Exec(Cmp32Imm(r, n), Running(m)) == Compare32(m, Get(m, r).n, n)
    ensures forall m: Machine, r, n: u64 {:trigger Exec(Cmp8Imm(r, n), Running(m))} :: Get(m, r).Num? ==>
      Exec(Cmp8Imm(r, n), Running(m)) ==
        Running(m.(flags := Compared(Get(m, r).n % 0x100 < n, Get(m, r).n % 0x100 == n,
                                     Signed(Sext8(Get(m, r).n)) < Signed(Sext8(n)))))
    ensures forall m: Machine, r {:trigger Exec(Test32(r), Running(m))} :: Get(m, r).Num? ==>
      Exec(Test32(r), Running(m)) ==
        Running(m.(flags := Compared(false, Lo32(Get(m, r).n) == 0, Signed32(Get(m, r).n) < 0)))
  {
    hide CallHelper, Move, Jump, QuadCell, ByteCell, HostMemory, SlotCell, Arith, Lo32, Set, Get, Sext8, Signed, Signed32,
         Compare64, Compare32, Holds;
  }

  lemma SetRules()
    ensures forall m: Machine, c, r {:trigger Exec(SetCc(c, r), Running(m))} :: Get(m, r).Num? && m.flags.Compared? ==>
      Exec(SetCc(c, r), Running(m)) == Running(Set(m, r, Num(Get(m, r).n - Get(m, r).n % 0x100 + Odd(Holds(c, m.flags)))))
    ensures forall m: Machine, r, f {:trigger Exec(Movzx8(r, f), Running(m))} :: Get(m, f).Num? ==>
      Exec(Movzx8(r, f), Running(m)) == Running(Set(m, r, Num(Get(m, f).n % 0x100)))
  {
    hide CallHelper, Move, Jump, QuadCell, ByteCell, HostMemory, SlotCell, Arith, Lo32, Set, Get, Sext8, Signed, Signed32,
         Compare64, Compare32, Holds;
  }

  lemma CellRules()
    ensures forall m: Machine, r, b {:trigger Exec(LoadQ(r, b), Running(m))} :: Get(m, b).Ptr? ==>
      Exec(LoadQ(r, b), Running(m)) == Running(Set(m, r, Quad(m, Get(m, b).cell)))
    ensures forall m: Machine, b, f {:trigger Exec(StoreQ(b, f), Running(m))} :: Get(m, b).Ptr? && Get(m, f).Num? ==>
      Exec(StoreQ(b, f), Running(m)) == SetQuad(m, Get(m, b).cell, Get(m, f).n)
    ensures forall m: Machine, b, n {:trigger Exec(AddMemQ(b, n), Running(m))} ::
      Get(m, b).Ptr? && Quad(m, Get(m, b).cell).Num? ==>
      Exec(AddMemQ(b, n), Running(m)) ==
        SetQuad(m.(flags := Undefined), Get(m, b).cell, Wrap(Quad(m, Get(m, b).cell).n + n))
    ensures forall m: Machine, r, b {:trigger Exec(MovzxB(r, b), Running(m))} :: Get(m, b).Ptr? ==>
      Exec(MovzxB(r, b), Running(m)) == Running(Set(m, r, Byte(m, Get(m, b).cell)))
    ensures forall m: Machine, b, f {:trigger Exec(StoreB(b, f), Running(m))} :: Get(m, b).Ptr? && Get(m, f).Num? ==>
      Exec(StoreB(b, f), Running(m)) == SetByte(m, Get(m, b).cell, Get(m, f).n % 0x100 != 0)
    ensures forall m: Machine, b, v {:trigger Exec(StoreImmB(b, v), Running(m))} ::
      Get(m, b).Ptr? ==> Exec(StoreImmB(b, v), Running(m)) == SetByte(m, Get(m, b).cell, v)
    ensures forall m: Machine, b {:trigger Exec(CmpMemB(b), Running(m))} ::
      Get(m, b).Ptr? && Byte(m, Get(m, b).cell).Num? ==>
      Exec(CmpMemB(b), Running(m)) == Compare64(m, Byte(m, Get(m, b).cell).n, 0)
  {
    hide CallHelper, Move, Jump, HostMemory, SlotCell, Arith, Test, Set, Get, Wrap, Compare64, Quad, Byte, SetQuad, SetByte;
  }

  lemma JumpRules()
    ensures forall m: Machine, c, l {:trigger Exec(Jcc(c, l), Running(m))} :: m.flags.Compared? ==>
      Exec(Jcc(c, l), Running(m)) == if Holds(c, m.flags) then Seeking(l, m) else Running(m)
    ensures forall m: Machine, l {:trigger Exec(Jmp(l), Running(m))} :: Exec(Jmp(l), Running(m)) == Seeking(l, m)
    ensures forall m: Machine, l {:trigger Exec(Lbl(l), Running(m))} :: Exec(Lbl(l), Running(m)) == Running(m)
    ensures forall m: Machine, l, k {:trigger Exec(Lbl(k), Seeking(l, m))} ::
      Exec(Lbl(k), Seeking(l, m)) == if k == l then Running(m) else Seeking(l, m)
    ensures forall m: Machine, f {:trigger Exec(Call(f), Running(m))} :: Exec(Call(f), Running(m)) == CallHelper(f, m)
  {
    hide CallHelper, Move, QuadCell, ByteCell, HostMemory, SlotCell, Arith, Test, Holds;
  }

  lemma LoadMemRule(m: Machine, r: Reg, w: Width, signed: bool, b: Reg, x: Reg, d: nat)
    requires Get(m, b) == Ptr(RdramBase) && Get(m, x).Num?
    ensures var v := HostRead(m.core.rdram, w, Get(m, x).n + d);
      Exec(LoadMem(r, w, signed, b, x, d), Running(m)) == Running(Set(m, r, Num(if signed then SignExtend(w, v) else v)))
  {
    hide CallHelper, Move, Jump, QuadCell, ByteCell, SlotCell, Arith, Test, Set, Get, HostRead, SignExtend;
  }

  lemma StoreMemRule(m: Machine, w: Width, b: Reg, x: Reg, d: nat, f: Reg)
    requires Get(m, b) == Ptr(RdramBase) && Get(m, x).Num? && Get(m, f).Num?
    ensures Exec(StoreMem(w, b, x, d, f), Running(m)) ==
      Running(m.(core := m.core.(rdram := HostWrite(m.core.rdram, w, Get(m, x).n + d, Get(m, f).n))))
  {
    hide CallHelper, Move, Jump, QuadCell, ByteCell, SlotCell, Arith, Test, Set, Get, HostWrite;
  }

  lemma SlotRules()
    ensures forall m: Machine, b, x, w {:trigger Exec(CmpSlotVpn(b, x, w), Running(m))} ::
      Get(m, b).Ptr? && IsSlotBase(Get(m, b).cell)
      && Get(m, x).Num? && Get(m, x).n < SoftTlb.SLOTS && Get(m, w).Num? ==>
      Exec(CmpSlotVpn(b, x, w), Running(m)) == Compare32(m, Slots(m, Get(m, b).cell)[Get(m, x).n].vpn, Get(m, w).n)
    ensures forall m: Machine, r, b, x {:trigger Exec(LoadSlotPage(r, b, x), Running(m))} ::
      Get(m, b).Ptr? && IsSlotBase(Get(m, b).cell) && Get(m, x).Num? && Get(m, x).n < SoftTlb.SLOTS ==>
      Exec(LoadSlotPage(r, b, x), Running(m)) == Running(Set(m, r, Num(Lo32(Slots(m, Get(m, b).cell)[Get(m, x).n].page))))
  {
    hide CallHelper, Move, Jump, QuadCell, ByteCell, HostMemory, Arith, Test, Set, Get, HostRead, HostWrite, SignExtend, Slots,
         Compare32;
  }

  lemma {:induction false} RunCat(a: seq<Instr>, b: seq<Instr>, c: Config)
    ensures Run(a + b, c) == Run(b, Run(a, c))
    decreases |a|
  {
    hide Exec;
    if a == [] {
      assert a + b == b;
    } else {
      assert (a + b)[1..] == a[1..] + b;
      RunCat(a[1..], b, Exec(a[0], c));
    }
  }

  lemma Run1(a: Instr, c: Config)
    ensures Run([a], c) == Exec(a, c)
  {
    hide Exec;
  }

  lemma Run2(a: Instr, b: Instr, c: Config)
    ensures Run([a, b], c) == Exec(b, Exec(a, c))
  {
    hide Exec;
    assert [a, b] == [a] + [b];
    RunCat([a], [b], c); Run1(a, c); Run1(b, Exec(a, c));
  }

  lemma Run3(a: Instr, b: Instr, d: Instr, c: Config)
    ensures Run([a, b, d], c) == Exec(d, Exec(b, Exec(a, c)))
  {
    hide Exec;
    assert [a, b, d] == [a, b] + [d];
    RunCat([a, b], [d], c); Run2(a, b, c); Run1(d, Exec(b, Exec(a, c)));
  }

  lemma Run4(a: Instr, b: Instr, d: Instr, e: Instr, c: Config)
    ensures Run([a, b, d, e], c) == Exec(e, Exec(d, Exec(b, Exec(a, c))))
  {
    hide Exec;
    assert [a, b, d, e] == [a, b] + [d, e];
    RunCat([a, b], [d, e], c); Run2(a, b, c); Run2(d, e, Exec(b, Exec(a, c)));
  }

  predicate Free(code: seq<Instr>, l: Label) { Lbl(l) !in code }

  /** A pass that looks for a label runs nothing before it. */
  lemma {:induction false} Skip(code: seq<Instr>, l: Label, m: Machine)
    requires Free(code, l)
    ensures Run(code, Seeking(l, m)) == Seeking(l, m)
    decreases |code|
  {
    hide ExecRunning;
    if code != [] {
      assert code[0] in code;
      assert forall i :: i in code[1..] ==> i in code;
      Skip(code[1..], l, m);
    }
  }
}
