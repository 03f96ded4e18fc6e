/** The interpreter: fetch, decode and execute one instruction, with the software TLB in front of every
    translation and COUNT advanced once per instruction (src/cpu/cached_interp.cpp:145-193). */
module Interp {
  import opened Common
  import opened Bits
  import opened ByteOrder
  import opened Cpu
  import opened Timer
  import Tlb
  import SoftTlb

  datatype Tables = Tables(load: SoftTlb.Table, store: SoftTlb.Table)

  function MmuOf(s: Core, t: Tables): SoftTlb.Mmu { SoftTlb.Mmu(s.es, s.c, t.load, t.store) }

  ghost predicate Coherent(s: Core, t: Tables) { SoftTlb.Coherent(MmuOf(s, t)) }

  /** The machine the interpreter runs on. */
  datatype System = System(core: Core, tables: Tables, timer: Timer)

  predicate ShouldService(s: Core, t: Timer) {
    s.ex.ie && !s.ex.exl && !s.ex.erl
    && (s.ex.other || (s.ex.maskMi && s.dev.line(s.dev.seen)) || (s.ex.maskTimer && t.ip7))
  }

  function AccessSize(k: Kind): nat { if IsUnaligned(k) then 1 else WidthOf(k).Size() }

  function MemoryCached(s: Core, t: Tables, op: IrOp): (Core, Tables) {
    var (m, r) := SoftTlb.ResolveCached(MmuOf(s, t), Address(s, op), AccessSize(op.kind), AccessOf(op.kind));
    match r
    case Hit(p) => (Transfer(s, op, p), Tables(m.load, m.store))
    case Fail(e) =>
      (HandleException(s.(c := m.c), TlbExceptionCode(e, AccessOf(op.kind)), true, e), Tables(m.load, m.store))
  }

  function ExecuteCached(s: Core, t: Tables, op: IrOp): (Core, Tables) {
    if IsMem(op.kind) then MemoryCached(s, t, op) else (Execute(s, op), t)
  }

  /** `code` is the decoded program, by physical address. */
  function Step(x: System, code: nat -> IrOp): System {
    var s := RetireDelaySlot(x.core);
    var s := if ShouldService(s, x.timer) then HandleException(s, INTERRUPT, false, Tlb.Miss) else s;
    var (m, r) :=
      if SoftTlb.DirectMap(Lo32(s.pc)).Some? then
        (MmuOf(s, x.tables), Tlb.Hit(SoftTlb.DirectMap(Lo32(s.pc)).value))
      else SoftTlb.ResolveCached(MmuOf(s, x.tables), Lo32(s.pc), 4, Tlb.Load);
    var s, t := s.(c := m.c), Tables(m.load, m.store);
    match r
    case Fail(e) => System(HandleException(s, TlbExceptionCode(e, Tlb.Load), false, e), t, x.timer)
    case Hit(p) =>
      var (s', t') := ExecuteCached(NextInstruction(s), t, code(p));
      System(s', t', AddCount(x.timer, 1))
  }

  function Iterate(x: System, code: nat -> IrOp, n: nat): System {
    if n == 0 then x else Step(Iterate(x, code, n - 1), code)
  }

  // ---- Without the software TLB ---------------------------------------------------------------------

  /** One instruction as the architecture defines it. */
  function Arch(s: Core, op: IrOp): Core { Execute(NextInstruction(RetireDelaySlot(s)), op) }

  lemma MemoryCachedIsMemory(s: Core, t: Tables, op: IrOp)
    requires Coherent(s, t) && IsMem(op.kind)
    ensures MemoryCached(s, t, op).0 == Memory(s, op)
    ensures Coherent(Memory(s, op), MemoryCached(s, t, op).1)
  {
    hide SoftTlb.Resolve, Transfer, HandleException, SoftTlb.Coherent, Tlb.OnException, SoftTlb.SoftLookup, SoftTlb.Noted;
    SoftTlb.TranslateCoherent(MmuOf(s, t), Address(s, op), AccessSize(op.kind), AccessOf(op.kind), false);
    TransferKeepsMmu(s, op);
  }

  lemma TransferKeepsMmu(s: Core, op: IrOp)
    ensures forall p :: Transfer(s, op, p).c == s.c && Transfer(s, op, p).es == s.es
    ensures forall va, a, e :: Miss(s, va, a, e).c == Tlb.OnException(s.c, Tlb.SignExtend(va)) && Miss(s, va, a, e).es == s.es
  {
    hide Tlb.OnException, MergeLoad, MergeStore, Extend, Address, Write, Read;
  }

  predicate SameMmu(s: Core, s': Core) { s'.c == s.c && s'.es == s.es }

  lemma BranchPiecesKeepMmu(s: Core, b: bool, t: u64, r: RegNum)
    ensures SameMmu(s, BranchTo(s, b, t)) && SameMmu(s, BranchLikelyTo(s, b, t)) && SameMmu(s, Link(s, r))
  {
    hide Wrap;
  }

  lemma BranchKeepsMmu(s: Core, op: IrOp)
    ensures Branch(s, op).c == s.c && Branch(s, op).es == s.es
  {
    hide Taken, OffsetTarget, Region, BranchTo, BranchLikelyTo, Link, Gpr;
    var taken := Taken(op.kind, Gpr(s, op.rs), Gpr(s, op.rt));
    BranchPiecesKeepMmu(s, true, Gpr(s, op.rs), 31);
    BranchPiecesKeepMmu(s, true, Region(s, op.target), 31);
    BranchPiecesKeepMmu(s, taken, OffsetTarget(s, op.imm), 31);
    match op.kind
    case Jal => BranchPiecesKeepMmu(Link(s, 31), true, Region(s, op.target), 31);
    case Jalr => BranchPiecesKeepMmu(BranchTo(s, true, Gpr(s, op.rs)), true, 0, op.rd);
    case Bltzal | Bgezal => BranchPiecesKeepMmu(BranchTo(s, taken, OffsetTarget(s, op.imm)), true, 0, 31);
    case _ =>
  }

  lemma HiLoKeepsMmu(s: Core, op: IrOp)
    ensures HiLo(s, op).c == s.c && HiLo(s, op).es == s.es
  {
    hide Quotient, Remainder, Sext32, Wrap;
  }

  lemma RegistersKeepMmu(s: Core, op: IrOp)
    requires !IsMem(op.kind)
    ensures Execute(s, op).c == s.c && Execute(s, op).es == s.es
  {
    hide AluResult, Branch, HiLo;
    BranchKeepsMmu(s, op);
    HiLoKeepsMmu(s, op);
  }

  lemma ExecuteCachedIsExecute(s: Core, t: Tables, op: IrOp)
    requires Coherent(s, t)
    ensures ExecuteCached(s, t, op).0 == Execute(s, op)
    ensures Coherent(Execute(s, op), ExecuteCached(s, t, op).1)
  {
    hide SoftTlb.Coherent, Memory, HiLo, Branch, AluResult, MemoryCached;
    if IsMem(op.kind) { MemoryCachedIsMemory(s, t, op); } else { RegistersKeepMmu(s, op); }
  }

  /** When nothing interrupts and the program counter is mapped, a step is the architecture's instruction. */
  lemma StepIsArch(x: System, code: nat -> IrOp, p: nat)
    requires Coherent(x.core, x.tables) && !ShouldService(x.core, x.timer)
    requires SoftTlb.Resolve(x.core.es, x.core.c.hi, Lo32(x.core.pc), Tlb.Load) == Tlb.Hit(p)
    ensures var x' := Step(x, code);
      && x'.core == Arch(x.core, code(p)) && Coherent(x'.core, x'.tables)
      && x'.timer == AddCount(x.timer, 1)
  {
    hide SoftTlb.Coherent, Execute, ExecuteCached, SoftTlb.SoftLookup, Tlb.Probe, SoftTlb.Noted, AddCount;
    var s := RetireDelaySlot(x.core);
    var m := MmuOf(s, x.tables);
    var t := x.tables;
    if SoftTlb.DirectMap(Lo32(s.pc)).None? {
      SoftTlb.TranslateCoherent(m, Lo32(s.pc), 4, Tlb.Load, false);
      var m' := SoftTlb.ResolveCached(m, Lo32(s.pc), 4, Tlb.Load).0;
      t := Tables(m'.load, m'.store);
    }
    ExecuteCachedIsExecute(NextInstruction(s), t, code(p));
  }
}
