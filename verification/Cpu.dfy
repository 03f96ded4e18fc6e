/** The R4300 core: registers, program counters, exceptions, and what each instruction of the recompiler's
    source language does to them (src/cpu/cpu.cpp, src/cpu/cpu_instruction_impl.cpp, include/cpu/jit/ir.h).
    Address translation here is the hardware's own; Interp puts the software TLB in front of it. */
module Cpu {
  import opened Bits
  import opened ByteOrder
  import Tlb
  import SoftTlb

  const DOUBLE: nat := 0x1_0000_0000_0000_0000

  // ---- Machine words --------------------------------------------------------------------------

  function Lo32(x: nat): nat { x % WORD }
  function Wrap(x: int): u64 { x % DOUBLE }
  function Signed32(x: nat): int { if Lo32(x) < 0x8000_0000 then Lo32(x) else Lo32(x) - WORD }
  function Signed(x: u64): int { if x < 0x8000_0000_0000_0000 then x else x - DOUBLE }
  function Sext32(x: nat): u64 { Wrap(Signed32(x)) }
  function Signed16(x: nat): int { if x % 0x1_0000 < 0x8000 then x % 0x1_0000 else x % 0x1_0000 - 0x1_0000 }
  function Sext16(x: nat): u64 { Wrap(Signed16(x)) }
  function Sext8(x: nat): u64 { Wrap(if x % 0x100 < 0x80 then x % 0x100 else x % 0x100 - 0x100) }

  /** C++ integer division truncates towards zero. */
  function Quotient(a: int, b: int): int
    requires b != 0
  {
    if a >= 0 then a / b else -((-a) / b)
  }

  function Remainder(a: int, b: int): int
    requires b != 0
  {
    a - Quotient(a, b) * b
  }

  // ---- The source language of the recompiler ----------------------------------------------------

  datatype Kind =
    | Nop
    | Add | Addu | Sub | Subu | AndOp | OrOp | XorOp | Nor | Slt | Sltu | Daddu | Dsubu
    | Sll | Srl | Sra | Sllv | Srlv | Srav | Dsll | Dsrl | Dsra | Dsll32 | Dsrl32 | Dsra32
    | Addiu | Andi | Ori | Xori | Lui | Slti | Sltiu | Daddiu
    | Jr | Jalr | J | Jal | Beq | Bne | Blez | Bgtz | Bltz | Bgez
    | Beql | Bnel | Blezl | Bgtzl | Bltzl | Bgezl | Bgezal | Bltzal
    | Lb | Lbu | Lh | Lhu | Lw | Lwu | Ld | Lwl | Lwr | Sb | Sh | Sw | Sd | Swl | Swr
    | Mfhi | Mflo | Mthi | Mtlo | Mult | Multu | Div | Divu

  type RegNum = r: nat | r < 32

  datatype IrOp = IrOp(kind: Kind, rd: RegNum, rs: RegNum, rt: RegNum, sa: RegNum, imm: nat, target: nat)

  predicate IsImmediate(k: Kind) {
    k.Addiu? || k.Andi? || k.Ori? || k.Xori? || k.Lui? || k.Slti? || k.Sltiu? || k.Daddiu?
  }

  predicate IsShift(k: Kind) {
    k.Sll? || k.Srl? || k.Sra? || k.Sllv? || k.Srlv? || k.Srav?
    || k.Dsll? || k.Dsrl? || k.Dsra? || k.Dsll32? || k.Dsrl32? || k.Dsra32?
  }

  predicate IsRegister(k: Kind) {
    k.Add? || k.Addu? || k.Sub? || k.Subu? || k.AndOp? || k.OrOp? || k.XorOp? || k.Nor?
    || k.Slt? || k.Sltu? || k.Daddu? || k.Dsubu?
  }

  predicate IsAlu(k: Kind) { IsRegister(k) || IsShift(k) || IsImmediate(k) }

  predicate IsLikely(k: Kind) { k.Beql? || k.Bnel? || k.Blezl? || k.Bgtzl? || k.Bltzl? || k.Bgezl? }

  predicate IsConditional(k: Kind) {
    k.Beq? || k.Bne? || k.Blez? || k.Bgtz? || k.Bltz? || k.Bgez? || k.Bgezal? || k.Bltzal? || IsLikely(k)
  }

  predicate IsBranch(k: Kind) { k.Jr? || k.Jalr? || k.J? || k.Jal? || IsConditional(k) }

  predicate IsPlainLoad(k: Kind) { k.Lb? || k.Lbu? || k.Lh? || k.Lhu? || k.Lw? || k.Lwu? || k.Ld? }
  predicate IsPlainStore(k: Kind) { k.Sb? || k.Sh? || k.Sw? || k.Sd? }
  predicate IsUnaligned(k: Kind) { k.Lwl? || k.Lwr? || k.Swl? || k.Swr? }
  predicate IsMem(k: Kind) { IsPlainLoad(k) || IsPlainStore(k) || IsUnaligned(k) }

  function WidthOf(k: Kind): Width {
    if k.Lb? || k.Lbu? || k.Sb? then W8
    else if k.Lh? || k.Lhu? || k.Sh? then W16
    else if k.Ld? || k.Sd? then W64
    else W32
  }

  // ---- State --------------------------------------------------------------------------------------

  type Gprs = g: seq<u64> | |g| == 32 witness seq(32, _ => 0)

  type Rdram = m: seq<byte> | |m| == SoftTlb.RDRAM_SIZE witness seq(SoftTlb.RDRAM_SIZE, _ => 0)

  /** Everything on the bus outside RDRAM: any deterministic device, as a function of the accesses it has seen. */
  datatype BusAccess = BusRead(w: Width, paddr: nat) | BusWrite(w: Width, paddr: nat, value: u64)

  datatype Devices = Devices(seen: seq<BusAccess>, reply: seq<BusAccess> -> u64, line: seq<BusAccess> -> bool)

  /** The exception side of COP0: Status, Cause and EPC. */
  datatype Exceptions = Exceptions(exl: bool, erl: bool, ie: bool, ux: bool, sx: bool, kx: bool,
                                   maskMi: bool, maskTimer: bool, other: bool,
                                   code: nat, copError: nat, branchDelay: bool, epc: u64)

  /** `selfBranches` counts the branches reported to the idle skipper. */
  datatype Core = Core(gpr: Gprs, hi: u64, lo: u64, delay: bool, prevDelay: bool,
                       prevPc: u64, pc: u64, nextPc: u64, ex: Exceptions,
                       es: Tlb.Entries, c: Tlb.Cop0, rdram: Rdram, dev: Devices, selfBranches: nat)

  function Gpr(s: Core, r: RegNum): u64 { if r == 0 then 0 else s.gpr[r] }
  function SetGpr(s: Core, r: RegNum, v: u64): Core { if r == 0 then s else s.(gpr := s.gpr[r := v]) }

  // ---- Program counters and exceptions --------------------------------------------------------------

  function RetireDelaySlot(s: Core): Core { s.(prevDelay := s.delay, delay := false) }
  function NextInstruction(s: Core): Core { s.(prevPc := s.pc, pc := s.nextPc, nextPc := Wrap(s.nextPc + 4)) }
  function SetPc(s: Core, v: u64): Core { s.(prevPc := s.pc, pc := v, nextPc := Wrap(v + 4)) }

  const INTERRUPT: nat := 0
  const TLB_MODIFICATION: nat := 1
  const TLB_MISS_LOAD: nat := 2
  const TLB_MISS_STORE: nat := 3

  function TlbExceptionCode(e: Tlb.Error, a: Tlb.Access): nat {
    if e.Modification? then TLB_MODIFICATION else if a.Load? then TLB_MISS_LOAD else TLB_MISS_STORE
  }

  function Vector(s: Core, code: nat, error: Tlb.Error): nat {
    if code != TLB_MISS_LOAD && code != TLB_MISS_STORE then 0x8000_0180
    else if s.ex.exl || error.Invalid? then 0x8000_0180
    else
      var region := s.c.badVaddr / 0x4000_0000_0000_0000;
      if (if region == 0 then s.ex.ux else if region == 1 then s.ex.sx else s.ex.kx) then 0x8000_0080 else 0x8000_0000
  }

  /** `error` is the TLB's last error; only a TLB miss looks at it. */
  function HandleException(s: Core, code: nat, usePrevPc: bool, error: Tlb.Error): Core {
    var epc := if usePrevPc then s.prevPc else s.pc;
    var ex := if s.ex.exl then s.ex
              else s.ex.(exl := true, branchDelay := s.prevDelay, epc := Wrap(if s.prevDelay then epc - 4 else epc));
    SetPc(s.(ex := ex.(code := code, copError := 0)), Sext32(Vector(s, code, error)))
  }

  function Miss(s: Core, va: SoftTlb.Tlb.u32, a: Tlb.Access, error: Tlb.Error): Core {
    HandleException(s.(c := Tlb.OnException(s.c, Tlb.SignExtend(va))), TlbExceptionCode(error, a), true, error)
  }

  // ---- Memory ---------------------------------------------------------------------------------------

  /** Memory::read_paddr: RDRAM, or whatever answers on the bus. */
  function Load(s: Core, w: Width, p: nat): (u64, Core) {
    if SoftTlb.InRdram(p, w.Size()) then (Read(s.rdram, w, p), s)
    else
      var seen := s.dev.seen + [BusRead(w, p)];
      (s.dev.reply(seen) % Limit(w), s.(dev := s.dev.(seen := seen)))
  }

  function Limit(w: Width): (r: nat)
    ensures r > 0
  {
    match w case W8 => 0x100 case W16 => 0x1_0000 case W32 => WORD case W64 => DOUBLE
  }

  function Store(s: Core, w: Width, p: nat, v: u64): Core {
    if SoftTlb.InRdram(p, w.Size()) then s.(rdram := Write(s.rdram, w, p, v % Limit(w)))
    else s.(dev := s.dev.(seen := s.dev.seen + [BusWrite(w, p, v % Limit(w))]))
  }

  function Extend(k: Kind, v: u64): u64 {
    match k
    case Lb => Sext8(v)
    case Lh => Sext16(v)
    case Lw => Sext32(v)
    case _ => v
  }

  function Address(s: Core, op: IrOp): SoftTlb.Tlb.u32 { Lo32(Gpr(s, op.rs) + Sext16(op.imm)) }

  function BytePow(n: nat): (r: nat)
    requires n <= 4
    ensures r > 0
  {
    match n case 0 => 1 case 1 => 0x100 case 2 => 0x1_0000 case 3 => 0x100_0000 case 4 => WORD
  }

  /** LWL and LWR merge the word around the address into rt; SWL and SWR merge rt into that word.
      Shifting by n bytes is multiplying or dividing by 256^n; the merged parts do not overlap. */
  function MergeLoad(k: Kind, va: nat, reg: nat, data: nat): u64 {
    var n := if k.Lwl? then va % 4 else 3 - va % 4;
    Sext32(if k.Lwl? then reg % BytePow(n) + data * BytePow(n) % WORD
           else Lo32(reg) / BytePow(4 - n) * BytePow(4 - n) + data / BytePow(n))
  }

  function MergeStore(k: Kind, va: nat, data: nat, reg: nat): nat {
    var n := if k.Swl? then va % 4 else 3 - va % 4;
    if k.Swl? then data / BytePow(4 - n) * BytePow(4 - n) + Lo32(reg) / BytePow(n)
    else data % BytePow(n) + Lo32(reg) * BytePow(n) % WORD
  }

  function AlignedWord(p: nat): nat { p / 4 * 4 }

  /** A memory operation whose address translates to p. */
  function Transfer(s: Core, op: IrOp, p: nat): Core {
    if IsPlainLoad(op.kind) then
      var (v, s') := Load(s, WidthOf(op.kind), p);
      SetGpr(s', op.rt, Extend(op.kind, v))
    else if IsPlainStore(op.kind) then Store(s, WidthOf(op.kind), p, Gpr(s, op.rt))
    else
      var (data, s') := Load(s, W32, AlignedWord(p));
      if op.kind.Lwl? || op.kind.Lwr? then
        SetGpr(s', op.rt, MergeLoad(op.kind, Address(s, op), Gpr(s, op.rt), data))
      else Store(s', W32, AlignedWord(p), MergeStore(op.kind, Address(s, op), data, Gpr(s, op.rt)) % WORD)
  }

  function AccessOf(k: Kind): Tlb.Access {
    if IsPlainStore(k) || k.Swl? || k.Swr? then Tlb.Store else Tlb.Load
  }

  function Memory(s: Core, op: IrOp): Core {
    match SoftTlb.Resolve(s.es, s.c.hi, Address(s, op), AccessOf(op.kind))
    case Hit(p) => Transfer(s, op, p)
    case Fail(e) => Miss(s, Address(s, op), AccessOf(op.kind), e)
  }

  // ---- Branches -------------------------------------------------------------------------------------

  /** A taken branch to itself is reported to the idle skipper; the branch is at pc - 4. */
  function NoteSelfBranch(s: Core, target: u64): Core {
    if target == Wrap(s.pc - 4) then s.(selfBranches := s.selfBranches + 1) else s
  }

  function BranchTo(s: Core, taken: bool, target: u64): Core {
    var s' := s.(delay := true);
    if taken then NoteSelfBranch(s'.(nextPc := target), target) else s'
  }

  /** A branch-likely that is not taken skips its delay slot. */
  function BranchLikelyTo(s: Core, taken: bool, target: u64): Core {
    if taken then BranchTo(s, true, target) else SetPc(s.(delay := true), Wrap(s.pc + 4))
  }

  function OffsetTarget(s: Core, imm: nat): u64 { Wrap(s.pc + Signed16(imm) * 4) }

  function Link(s: Core, r: RegNum): Core { SetGpr(s, r, Wrap(s.pc + 4)) }

  function Region(s: Core, target: nat): u64 {
    var branch := Wrap(s.pc - 4);
    branch - branch % 0x1000_0000 + target % 0x400_0000 * 4
  }

  predicate Taken(k: Kind, rs: u64, rt: u64) {
    match k
    case Beq | Beql => rs == rt
    case Bne | Bnel => rs != rt
    case Blez | Blezl => Signed(rs) <= 0
    case Bgtz | Bgtzl => Signed(rs) > 0
    case Bltz | Bltzl | Bltzal => Signed(rs) < 0
    case _ => Signed(rs) >= 0
  }

  function Branch(s: Core, op: IrOp): Core {
    var taken := Taken(op.kind, Gpr(s, op.rs), Gpr(s, op.rt));
    match op.kind
    case Jr => BranchTo(s, true, Gpr(s, op.rs))
    case Jalr => Link(BranchTo(s, true, Gpr(s, op.rs)), op.rd)
    case J => BranchTo(s, true, Region(s, op.target))
    case Jal => BranchTo(Link(s, 31), true, Region(s, op.target))
    case Bltzal | Bgezal => Link(BranchTo(s, taken, OffsetTarget(s, op.imm)), 31)
    case _ =>
      if IsLikely(op.kind) then BranchLikelyTo(s, taken, OffsetTarget(s, op.imm))
      else BranchTo(s, taken, OffsetTarget(s, op.imm))
  }

  // ---- Arithmetic -----------------------------------------------------------------------------------

  function RegisterResult(k: Kind, rs: u64, rt: u64): u64 {
    match k
    case Add | Addu => Sext32(Lo32(rs) + Lo32(rt))
    case Sub | Subu => Sext32((Lo32(rs) - Lo32(rt)) % WORD)
    case AndOp => Wrap(And(rs, rt))
    case OrOp => Wrap(Or(rs, rt))
    case XorOp => Wrap(Xor(rs, rt))
    case Nor => Wrap(DOUBLE - 1 - Or(rs, rt))
    case Slt => Odd(Signed(rs) < Signed(rt))
    case Sltu => Odd(rs < rt)
    case Daddu => Wrap(rs + rt)
    case _ => Wrap(rs - rt)
  }

  /** Shifts: the interpreter shifts SRA and SRAV operands as 64-bit values. */
  function ShiftResult(k: Kind, sa: RegNum, rs: u64, rt: u64): u64 {
    match k
    case Sll => Sext32(Wrap(Shl(rt, sa)))
    case Srl => Sext32(Right(Lo32(rt), sa))
    case Sra => Sext32(Wrap(Right(Signed(rt), sa)))
    case Sllv => Sext32(Shl(Lo32(rt), rs % 32))
    case Srlv => Sext32(Right(Lo32(rt), rs % 32))
    case Srav => Sext32(Wrap(Right(Signed(rt), rs % 32)))
    case Dsll => Wrap(Shl(rt, sa))
    case Dsrl => Wrap(Right(rt, sa))
    case Dsra => Wrap(Right(Signed(rt), sa))
    case Dsll32 => Wrap(Shl(rt, sa + 32))
    case Dsrl32 => Wrap(Right(rt, sa + 32))
    case _ => Wrap(Right(Signed(rt), sa + 32))
  }

  function ImmediateResult(k: Kind, imm: nat, rs: u64): u64 {
    match k
    case Addiu => Sext32(Lo32(rs) + Lo32(Sext16(imm)))
    case Andi => Wrap(And(rs, imm % 0x1_0000))
    case Ori => Wrap(Or(rs, imm % 0x1_0000))
    case Xori => Wrap(Xor(rs, imm % 0x1_0000))
    case Lui => Wrap(Signed16(imm) * 0x1_0000)
    case Slti => Odd(Signed(rs) < Signed16(imm))
    case Sltiu => Odd(rs < Sext16(imm))
    case _ => Wrap(rs + Sext16(imm))
  }

  function AluResult(op: IrOp, rs: u64, rt: u64): u64 {
    if IsRegister(op.kind) then RegisterResult(op.kind, rs, rt)
    else if IsShift(op.kind) then ShiftResult(op.kind, op.sa, rs, rt)
    else ImmediateResult(op.kind, op.imm, rs)
  }

  function HiLo(s: Core, op: IrOp): Core {
    var rs, rt := Gpr(s, op.rs), Gpr(s, op.rt);
    match op.kind
    case Mfhi => SetGpr(s, op.rd, s.hi)
    case Mflo => SetGpr(s, op.rd, s.lo)
    case Mthi => s.(hi := rs)
    case Mtlo => s.(lo := rs)
    case Mult => Product(s, Signed32(rs) * Signed32(rt))
    case Multu => Product(s, Lo32(rs) * Lo32(rt))
    case Div => SignedDivision(s, rs, rt)
    case _ => UnsignedDivision(s, rs, rt)
  }

  function SignedDivision(s: Core, rs: u64, rt: u64): Core {
    if Lo32(rt) == 0 then s.(hi := Sext32(rs), lo := if Signed32(rs) >= 0 then DOUBLE - 1 else 1)
    else s.(lo := Sext32(Wrap(Quotient(Signed32(rs), Signed32(rt)))),
            hi := Sext32(Wrap(Remainder(Signed32(rs), Signed32(rt)))))
  }

  function UnsignedDivision(s: Core, rs: u64, rt: u64): Core {
    if Lo32(rt) == 0 then s.(hi := Sext32(rs), lo := DOUBLE - 1)
    else s.(lo := Sext32(Lo32(rs) / Lo32(rt)), hi := Sext32(Lo32(rs) % Lo32(rt)))
  }

  function Product(s: Core, p: int): Core { s.(lo := Sext32(Wrap(p)), hi := Sext32(Wrap(p / WORD))) }

  /** One instruction, after the program counters have moved past it. */
  function Execute(s: Core, op: IrOp): Core {
    if op.kind.Nop? then s
    else if IsAlu(op.kind) then
      SetGpr(s, if IsImmediate(op.kind) then op.rt else op.rd, AluResult(op, Gpr(s, op.rs), Gpr(s, op.rt)))
    else if IsBranch(op.kind) then Branch(s, op)
    else if IsMem(op.kind) then Memory(s, op)
    else HiLo(s, op)
  }
}
