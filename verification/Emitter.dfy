/** The block emitter: what it appends for each operation, and the object that appends it
    (src/cpu/jit/emit_x64.cpp). Pushes, pops and stack alignment are left out; x86 byte encodings too. */
module Emitter {
  import opened ByteOrder
  import opened Cpu
  import opened X86
  import SoftTlb

  // ---- Register file and program counters -----------------------------------------------------------

  function AdvancePc(): seq<Instr> {
    [MovPtr(Rax, DelayCell), MovzxB(Rcx, Rax), MovPtr(Rdx, PrevDelayCell), StoreB(Rdx, Rcx)]
    + [StoreImmB(Rax, false), MovPtr(Rax, PcCell), LoadQ(Rcx, Rax), MovPtr(Rdx, PrevPcCell)]
    + [StoreQ(Rdx, Rcx), MovPtr(Rdx, NextPcCell), LoadQ(Rcx, Rdx), StoreQ(Rax, Rcx)]
    + [AddMemQ(Rdx, 4)]
  }

  function GprToRax(r: RegNum): seq<Instr> {
    if r == 0 then [Zero(Rax)] else [MovPtr(Rax, GprCell(r)), LoadQ(Rax, Rax)]
  }

  function RaxToGpr(r: RegNum): seq<Instr> {
    if r == 0 then [] else [MovPtr(Rdx, GprCell(r)), StoreQ(Rdx, Rax)]
  }

  /** rs in r12 and rt in rax. */
  function LoadTwo(rs: RegNum, rt: RegNum): seq<Instr> { GprToRax(rs) + [Mov64(R12, Rax)] + GprToRax(rt) }

  // ---- Arithmetic -----------------------------------------------------------------------------------

  function RegisterCore(k: Kind): seq<Instr> {
    match k
    case Add | Addu => [Mov32(Rcx, Rax), Mov32(Rax, R12), Alu(AddA, false, Rax, R(Rcx)), Cdqe]
    case Sub | Subu => [Mov32(Rcx, Rax), Mov32(Rax, R12), Alu(SubA, false, Rax, R(Rcx)), Cdqe]
    case AndOp => [Alu(AndA, true, Rax, R(R12))]
    case OrOp => [Alu(OrA, true, Rax, R(R12))]
    case XorOp => [Alu(XorA, true, Rax, R(R12))]
    case Nor => [Alu(OrA, true, Rax, R(R12)), Alu(NotA, true, Rax, I(0))]
    case Slt => [Cmp64(R12, Rax), SetCc(L, Rax), Movzx8(Rax, Rax), Cdqe]
    case Sltu => [Cmp64(R12, Rax), SetCc(B, Rax), Movzx8(Rax, Rax), Cdqe]
    case Daddu => [Alu(AddA, true, Rax, R(R12))]
    case _ => [Mov64(Rcx, Rax), Mov64(Rax, R12), Alu(SubA, true, Rax, R(Rcx))]
  }

  predicate Is64Shift(k: Kind) { k.Dsll? || k.Dsrl? || k.Dsra? || k.Dsll32? || k.Dsrl32? || k.Dsra32? }
  predicate IsVariableShift(k: Kind) { k.Sllv? || k.Srlv? || k.Srav? }

  function ShiftOp(k: Kind): AluOp {
    match k
    case Sll | Sllv | Dsll | Dsll32 => ShlA
    case Srl | Srlv | Dsrl | Dsrl32 => ShrA
    case _ => SarA
  }

  /** The shift itself, with the amount in cl. */
  function ShiftByCl(k: Kind): seq<Instr> {
    if Is64Shift(k) then [Alu(ShiftOp(k), true, Rax, R(Rcx))]
    else [Alu(ShiftOp(k), false, Rax, R(Rcx)), Cdqe]
  }

  function ShiftAmount(op: IrOp): seq<Instr> {
    if op.kind.Dsll32? || op.kind.Dsrl32? || op.kind.Dsra32? then [MovImm(Rcx, op.sa), MovImm(Rcx, op.sa + 32)]
    else [MovImm(Rcx, op.sa)]
  }

  function ShiftCode(op: IrOp): seq<Instr> {
    if IsVariableShift(op.kind) then
      GprToRax(op.rs) + [Mov32(Rcx, Rax), Alu(AndA, false, Rcx, I(31))] + GprToRax(op.rt) + ShiftByCl(op.kind)
    else GprToRax(op.rt) + ShiftAmount(op) + ShiftByCl(op.kind)
  }

  function ImmediateCore(k: Kind, imm: nat): seq<Instr> {
    var simm, zimm := Sext16(imm), imm % 0x1_0000;
    match k
    case Addiu => [Alu(AddA, false, Rax, I(simm)), Cdqe]
    case Andi => [Alu(AndA, true, Rax, I(zimm))]
    case Ori => [Alu(OrA, true, Rax, I(zimm))]
    case Xori => [Alu(XorA, true, Rax, I(zimm))]
    case Lui => [MovImm(Rax, zimm * 0x1_0000), Cdqe]
    case Slti => [MovImm(Rcx, simm)] + [Cmp64(Rax, Rcx), SetCc(L, Rax), Movzx8(Rax, Rax), Cdqe]
    case Sltiu => [MovImm(Rcx, simm)] + [Cmp64(Rax, Rcx), SetCc(B, Rax), Movzx8(Rax, Rax), Cdqe]
    case _ => [MovImm(Rcx, simm), Alu(AddA, true, Rax, R(Rcx))]
  }

  function AluCode(op: IrOp): seq<Instr> {
    if IsRegister(op.kind) then LoadTwo(op.rs, op.rt) + RegisterCore(op.kind) + RaxToGpr(op.rd)
    else if IsShift(op.kind) then ShiftCode(op) + RaxToGpr(op.rd)
    else GprToRax(op.rs) + ImmediateCore(op.kind, op.imm) + RaxToGpr(op.rt)
  }

  function HiLoCode(op: IrOp): seq<Instr> {
    match op.kind
    case Mfhi => [MovPtr(Rax, HiCell), LoadQ(Rax, Rax)] + RaxToGpr(op.rd)
    case Mflo => [MovPtr(Rax, LoCell), LoadQ(Rax, Rax)] + RaxToGpr(op.rd)
    case Mthi => GprToRax(op.rs) + [MovPtr(Rdx, HiCell), StoreQ(Rdx, Rax)]
    case Mtlo => GprToRax(op.rs) + [MovPtr(Rdx, LoCell), StoreQ(Rdx, Rax)]
    case _ => [MovImm(Rdi, op.rs), MovImm(Rsi, op.rt), Call(DoHiLo(op.kind))]
  }

  // ---- Branches -------------------------------------------------------------------------------------

  /** A 16-bit offset as a 32-bit immediate operand. */
  function Imm32(imm: nat): u64 { Lo32(Sext16(imm)) }

  function ConditionOf(k: Kind): Cond {
    match k
    case Blez | Blezl => LE
    case Bgtz | Bgtzl => G
    case Bltz | Bltzl | Bltzal => L
    case _ => GE
  }

  predicate IsEquality(k: Kind) { k.Beq? || k.Beql? || k.Bne? || k.Bnel? }

  /** The condition, as 0 or 1, in the first argument register. */
  function ConditionCode(op: IrOp): seq<Instr> {
    if IsEquality(op.kind) then
      LoadTwo(op.rs, op.rt) + [Cmp64(R12, Rax), SetCc(E, Rax), Movzx8(Rdi, Rax)]
      + (if op.kind.Bne? || op.kind.Bnel? then [Alu(XorA, false, Rdi, I(1))] else [])
    else GprToRax(op.rs) + [Test64(Rax), SetCc(ConditionOf(op.kind), Rax), Movzx8(Rdi, Rax)]
  }

  function InlineBranch(imm: nat, i: nat): seq<Instr> {
    [MovPtr(Rax, DelayCell), StoreImmB(Rax, true), Test32(Rdi), Jcc(E, Local(i, NotTaken))]
    + ([MovPtr(Rax, PcCell), LoadQ(Rcx, Rax), Alu(AddA, true, Rcx, I(Wrap(Signed16(imm) * 4))), MovPtr(Rax, NextPcCell)]
       + [StoreQ(Rax, Rcx), Jmp(Local(i, Done))])
    + [Lbl(Local(i, NotTaken)), Lbl(Local(i, Done))]
  }

  function JumpCode(op: IrOp, i: nat): seq<Instr> {
    if IsLikely(op.kind) then [MovImm(Rsi, Imm32(op.imm)), Call(DoBranchLikelyOffset)]
    else if Signed16(op.imm) == -1 then [MovImm(Rsi, Imm32(op.imm)), Call(DoBranchOffset)]
    else InlineBranch(op.imm, i)
  }

  function LinkCode(): seq<Instr> { [MovImm(Rdi, 31), Call(DoLink)] }

  function BranchCode(op: IrOp, i: nat): seq<Instr> {
    match op.kind
    case Jr => GprToRax(op.rs) + [Mov64(Rsi, Rax), MovImm(Rdi, 1), Call(DoBranchAddr)]
    case Jalr =>
      GprToRax(op.rs) + [Mov64(R12, Rax), MovImm(Rdi, 1), Mov64(Rsi, R12), Call(DoBranchAddr)]
      + [MovImm(Rdi, op.rd), Call(DoLink)]
    case J => [MovImm(Rdi, op.target % 0x400_0000), Call(DoJ)]
    case Jal => [MovImm(Rdi, op.target % 0x400_0000), Call(DoJal)]
    case _ =>
      ConditionCode(op) + JumpCode(op, i) + (if op.kind.Bltzal? || op.kind.Bgezal? then LinkCode() else [])
  }

  // ---- Memory ---------------------------------------------------------------------------------------

  function HelperCall(op: IrOp): seq<Instr> {
    [MovImm(Rdi, op.rt), MovImm(Rsi, op.rs), MovImm(Rdx, Imm32(op.imm)), Call(DoMem(op.kind))]
  }

  /** The access itself, with the physical address in eax and the RDRAM base in rdx. */
  function AccessCode(op: IrOp): seq<Instr> {
    match op.kind
    case Lb => [Alu(XorA, false, Rax, I(3)), LoadMem(Rax, W8, true, Rdx, Rax, 0)] + RaxToGpr(op.rt)
    case Lbu => [Alu(XorA, false, Rax, I(3)), LoadMem(Rax, W8, false, Rdx, Rax, 0)] + RaxToGpr(op.rt)
    case Lh => [Alu(XorA, false, Rax, I(2)), LoadMem(Rax, W16, true, Rdx, Rax, 0)] + RaxToGpr(op.rt)
    case Lhu => [Alu(XorA, false, Rax, I(2)), LoadMem(Rax, W16, false, Rdx, Rax, 0)] + RaxToGpr(op.rt)
    case Lw => [LoadMem(Rax, W32, false, Rdx, Rax, 0), Cdqe] + RaxToGpr(op.rt)
    case Lwu => [LoadMem(Rax, W32, false, Rdx, Rax, 0)] + RaxToGpr(op.rt)
    case Ld =>
      ([LoadMem(R12, W32, false, Rdx, Rax, 0), LoadMem(Rcx, W32, false, Rdx, Rax, 4)]
       + [Alu(ShlA, true, R12, I(32)), Mov32(Rax, Rcx), Alu(OrA, true, Rax, R(R12))]) + RaxToGpr(op.rt)
    case Sb =>
      [Mov32(R12, Rax)] + GprToRax(op.rt)
      + [Mov32(Rcx, Rax), Mov32(Rax, R12), Alu(XorA, false, Rax, I(3)), StoreMem(W8, Rdx, Rax, 0, Rcx)]
    case Sh =>
      [Mov32(R12, Rax)] + GprToRax(op.rt)
      + [Mov32(Rcx, Rax), Mov32(Rax, R12), Alu(XorA, false, Rax, I(2)), StoreMem(W16, Rdx, Rax, 0, Rcx)]
    case Sw => [Mov32(R12, Rax)] + GprToRax(op.rt) + [StoreMem(W32, Rdx, R12, 0, Rax)]
    case _ =>
      [Mov32(R12, Rax)] + GprToRax(op.rt)
      + [Mov32(Rcx, Rax), Alu(ShrA, true, Rax, I(32)), StoreMem(W32, Rdx, R12, 0, Rax), StoreMem(W32, Rdx, R12, 4, Rcx)]
  }

  /** The 32-bit virtual address in eax and ecx. */
  function AddressCode(op: IrOp): seq<Instr> {
    GprToRax(op.rs) + (if op.imm % 0x1_0000 != 0 then [Alu(AddA, false, Rax, I(Sext16(op.imm)))] else []) + [Mov32(Rcx, Rax)]
  }

  function MaxPaddr(k: Kind): u64 { SoftTlb.RDRAM_SIZE - WidthOf(k).Size() }

  /** KSEG0 and KSEG1 are segments 4 and 5. */
  function SegmentTest(i: nat): seq<Instr> {
    [Alu(ShrA, false, Rax, I(29)), Cmp8Imm(Rax, 4), Jcc(E, Local(i, SegOk)), Cmp8Imm(Rax, 5)]
    + [Jcc(NE, Local(i, TrySoft)), Lbl(Local(i, SegOk))]
  }

  function DirectTest(op: IrOp, i: nat): seq<Instr> {
    [Mov32(Rax, Rcx), Alu(AndA, false, Rax, I(0x1FFF_FFFF)), Cmp32Imm(Rax, MaxPaddr(op.kind)), Jcc(A, Local(i, Slow))]
    + [MovPtr(Rdx, RdramBase)]
  }

  /** The software TLB: the access stays in its page, the slot holds the page, the address is in RDRAM. */
  function PageTest(op: IrOp, i: nat): seq<Instr> {
    [Mov32(Rax, Rcx), Alu(AndA, false, Rax, I(0xFFF)), Cmp32Imm(Rax, 0x1000 - WidthOf(op.kind).Size()), Jcc(A, Local(i, Slow))]
  }

  function SlotTest(op: IrOp, i: nat): seq<Instr> {
    [Mov32(Rax, Rcx), Alu(ShrA, false, Rax, I(12)), Mov32(R12, Rax), Alu(AndA, false, Rax, I(0xFFF))]
    + [MovPtr(Rdx, if IsPlainStore(op.kind) then SoftStoreBase else SoftLoadBase), CmpSlotVpn(Rdx, Rax, R12), Jcc(NE, Local(i, Slow))]
  }

  function RangeTest(op: IrOp, i: nat): seq<Instr> {
    [LoadSlotPage(Rax, Rdx, Rax), Mov32(Rdx, Rcx), Alu(AndA, false, Rdx, I(0xFFF)), Alu(OrA, false, Rax, R(Rdx))]
    + [Cmp32Imm(Rax, MaxPaddr(op.kind)), Jcc(A, Local(i, Slow)), MovPtr(Rdx, RdramBase)]
  }

  function DirectPath(op: IrOp, i: nat): seq<Instr> { DirectTest(op, i) + AccessCode(op) + [Jmp(Local(i, Done))] }

  function SoftPath(op: IrOp, i: nat): seq<Instr> {
    PageTest(op, i) + SlotTest(op, i) + RangeTest(op, i) + AccessCode(op) + [Jmp(Local(i, Done))]
  }

  function MemCode(op: IrOp, i: nat): seq<Instr> {
    if IsUnaligned(op.kind) then HelperCall(op)
    else
      AddressCode(op) + SegmentTest(i) + DirectPath(op, i)
      + ([Lbl(Local(i, TrySoft))] + SoftPath(op, i))
      + ([Lbl(Local(i, Slow))] + HelperCall(op) + [Lbl(Local(i, Done))])
  }

  // ---- Blocks ---------------------------------------------------------------------------------------

  function OpCode(op: IrOp, i: nat): seq<Instr> {
    if op.kind.Nop? then []
    else if IsAlu(op.kind) then AluCode(op)
    else if IsBranch(op.kind) then BranchCode(op, i)
    else if IsMem(op.kind) then MemCode(op, i)
    else HiLoCode(op)
  }

  function ExitTests(op: IrOp, last: bool): seq<Instr> {
    (if IsMem(op.kind) then [MovPtr(Rax, AbortedCell), CmpMemB(Rax), Jcc(NE, Exit)] else [])
    + (if IsLikely(op.kind) && !last then [MovPtr(Rax, AnnulCell), CmpMemB(Rax), Jcc(NE, Exit)] else [])
  }

  function OneOp(ops: seq<IrOp>, i: nat): seq<Instr>
    requires i < |ops|
  {
    AdvancePc() + OpCode(ops[i], i) + [Inc32(Rbx)] + ExitTests(ops[i], i + 1 == |ops|)
  }

  /** The first n operations, cycles counted in ebx. */
  function Ops(ops: seq<IrOp>, n: nat): seq<Instr>
    requires n <= |ops|
  {
    if n == 0 then [Zero(Rbx)] else Ops(ops, n - 1) + OneOp(ops, n - 1)
  }

  /** COUNT moves once, at the end, by the cycles counted; they are also the block's result. */
  function Epilogue(): seq<Instr> { [Lbl(Exit), Mov32(Rdi, Rbx), Call(DoAddCount), Mov32(Rax, Rbx)] }

  function BlockCode(ops: seq<IrOp>): seq<Instr> { Ops(ops, |ops|) + Epilogue() }

  /** The code generator. */
  class BlockEmitter {
    var code: seq<Instr>

    constructor ()
      ensures code == []
    {
      code := [];
    }

    method EmitOp(op: IrOp, i: nat)
      modifies this
      ensures code == old(code) + OpCode(op, i)
    {
      code := code + OpCode(op, i);
    }

    method EmitExitTests(op: IrOp, last: bool)
      modifies this
      ensures code == old(code) + ExitTests(op, last)
    {
      if IsMem(op.kind) { code := code + [MovPtr(Rax, AbortedCell), CmpMemB(Rax), Jcc(NE, Exit)]; }
      if IsLikely(op.kind) && !last { code := code + [MovPtr(Rax, AnnulCell), CmpMemB(Rax), Jcc(NE, Exit)]; }
    }

    method Emit(ops: seq<IrOp>)
      requires code == []
      modifies this
      ensures code == BlockCode(ops)
    {
      hide AdvancePc, OpCode, ExitTests;
      code := code + [Zero(Rbx)];
      for i := 0 to |ops|
        invariant code == Ops(ops, i)
      {
        code := code + AdvancePc();
        EmitOp(ops[i], i);
        code := code + [Inc32(Rbx)];
        EmitExitTests(ops[i], i + 1 == |ops|);
        assert code == Ops(ops, i) + OneOp(ops, i);
      }
      code := code + Epilogue();
    }
  }
}
