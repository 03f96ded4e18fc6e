/** Where exceptions go and what they leave to return by, by the address of the instruction
    (src/cpu/cpu.cpp:90-103, 151-213, src/cpu/cached_interp.cpp:145-193). */
module Exceptions {
  import opened Common
  import opened ByteOrder
  import opened Cpu
  import opened Interp
  import opened Timer
  import Tlb
  import SoftTlb

  const GENERAL: nat := 0xFFFF_FFFF_8000_0180
  const REFILL: nat := 0xFFFF_FFFF_8000_0000
  const REFILL64: nat := 0xFFFF_FFFF_8000_0080

  /** The vector of a TLB exception on a 32-bit address: the refill vectors are for misses outside an exception handler,
      one for each width of addresses that Status selects for the address's space. */
  function TlbVector(ex: Exceptions, va: SoftTlb.Tlb.u32, e: Tlb.Error): u64 {
    if ex.exl || !e.Miss? then GENERAL
    else if (if va < 0x8000_0000 then ex.ux else ex.kx) then REFILL64 else REFILL
  }

  /** Cause.ExcCode of a TLB exception. */
  function TlbCode(e: Tlb.Error, store: bool): nat { if e.Modification? then 1 else if store then 3 else 2 }

  /** The exception registers after an exception at the instruction at A; in a delay slot, the branch before it is what
      to return to. Inside a handler nothing is recorded but the cause. */
  function Recorded(ex: Exceptions, a: u64, inSlot: bool, code: nat): Exceptions {
    if ex.exl then ex.(code := code, copError := 0)
    else ex.(exl := true, branchDelay := inSlot, epc := (if inSlot then a - 4 else a) % DOUBLE, code := code, copError := 0)
  }

  lemma VectorValue(v: nat)
    requires 0x8000_0000 <= v < WORD
    ensures Sext32(v) == v + 0xFFFF_FFFF_0000_0000
  {
    Euclid(v, WORD, 0, v);
    Euclid(v - WORD, DOUBLE, -1, v + 0xFFFF_FFFF_0000_0000);
  }

  lemma NextOf(v: u64)
    requires v + 4 < DOUBLE
    ensures Wrap(v + 4) == v + 4
  {
    Euclid(v + 4, DOUBLE, 0, v + 4);
  }

  lemma Space(c: Tlb.Cop0, va: SoftTlb.Tlb.u32)
    ensures Tlb.OnException(c, Tlb.SignExtend(va)).badVaddr / 0x4000_0000_0000_0000 == if va < 0x8000_0000 then 0 else 3
  {
    var x := Tlb.SignExtend(va);
    if va < 0x8000_0000 { Euclid(x, 0x4000_0000_0000_0000, 0, x); }
    else { Euclid(x, 0x4000_0000_0000_0000, 3, x - 0xC000_0000_0000_0000); }
  }

  /** The vector function, on the state a TLB exception leaves. */
  lemma VectorIs(s: Core, va: SoftTlb.Tlb.u32, e: Tlb.Error, a: Tlb.Access)
    requires s.c.badVaddr / 0x4000_0000_0000_0000 == if va < 0x8000_0000 then 0 else 3
    ensures Sext32(Vector(s, TlbExceptionCode(e, a), e)) == TlbVector(s.ex, va, e)
  {
    VectorValue(0x8000_0180);
    VectorValue(0x8000_0080);
    VectorValue(0x8000_0000);
    hide Sext32;
  }

  /** What a TLB exception does to the core: only COP0 and the program counters change. */
  lemma TlbException(s: Core, c: Tlb.Cop0, va: SoftTlb.Tlb.u32, e: Tlb.Error, a: Tlb.Access, usePrevPc: bool)
    requires c == Tlb.OnException(s.c, Tlb.SignExtend(va))
    ensures var v := TlbVector(s.ex, va, e);
      HandleException(s.(c := c), TlbExceptionCode(e, a), usePrevPc, e) ==
        s.(c := c, ex := Recorded(s.ex, if usePrevPc then s.prevPc else s.pc, s.prevDelay, TlbCode(e, a.Store?)),
           prevPc := s.pc, pc := v, nextPc := v + 4)
  {
    Space(s.c, va);
    var code := TlbExceptionCode(e, a);
    var ex := Recorded(s.ex, if usePrevPc then s.prevPc else s.pc, s.prevDelay, code);
    VectorIs(s.(c := c), va, e, a);
    NextOf(TlbVector(s.ex, va, e));
    hide Sext32, Vector, Tlb.OnException, Tlb.SignExtend;
  }

  /** A load or store at A whose address does not translate: registers, memory and devices are untouched, BadVAddr and
      the other TLB registers describe the address, and the handler returns to A, or to the branch before it. */
  lemma LoadStoreException(s: Core, op: IrOp, e: Tlb.Error)
    requires IsMem(op.kind) && SoftTlb.Resolve(s.es, s.c.hi, Address(s, op), AccessOf(op.kind)) == Tlb.Fail(e)
    ensures var va := Address(s, op); var v := TlbVector(s.ex, va, e);
      Arch(s, op) == s.(c := Tlb.OnException(s.c, Tlb.SignExtend(va)),
                        ex := Recorded(s.ex, s.pc, s.delay, TlbCode(e, AccessOf(op.kind).Store?)),
                        delay := false, prevDelay := s.delay, prevPc := s.nextPc, pc := v, nextPc := v + 4)
  {
    var f := NextInstruction(RetireDelaySlot(s));
    var va := Address(s, op);
    assert Address(f, op) == va && f.prevPc == s.pc && f.prevDelay == s.delay && f.pc == s.nextPc;
    TlbException(f, Tlb.OnException(f.c, Tlb.SignExtend(va)), va, e, AccessOf(op.kind), true);
    MemoryFails(f, op, e);
    hide Memory, HandleException, Recorded, TlbVector, Tlb.OnException, Tlb.SignExtend, Address, AccessOf, TlbExceptionCode, Wrap;
  }

  lemma MemoryFails(f: Core, op: IrOp, e: Tlb.Error)
    requires IsMem(op.kind) && SoftTlb.Resolve(f.es, f.c.hi, Address(f, op), AccessOf(op.kind)) == Tlb.Fail(e)
    ensures Execute(f, op) == HandleException(f.(c := Tlb.OnException(f.c, Tlb.SignExtend(Address(f, op)))),
                                              TlbExceptionCode(e, AccessOf(op.kind)), true, e)
  {
    hide HandleException, Tlb.OnException, Tlb.SignExtend, Address, AccessOf, TlbExceptionCode, SoftTlb.Resolve, Transfer, Execute;
    ExecuteIsMemory(f, op);
  }

  lemma ExecuteIsMemory(f: Core, op: IrOp)
    requires IsMem(op.kind)
    ensures Execute(f, op) == Memory(f, op)
  {
    hide Memory, Branch, HiLo, AluResult, SetGpr;
  }

  // ---- The interpreter's step -----------------------------------------------------------------------

  /** Where a deliverable interrupt leaves the core before the instruction at A: at the general vector, to return to A,
      or to the branch if A is a delay slot. */
  function Interrupted(s: Core): Core {
    s.(ex := Recorded(s.ex, s.pc, s.delay, 0), delay := false, prevDelay := s.delay,
       prevPc := s.pc, pc := GENERAL, nextPc := GENERAL + 4)
  }

  lemma InterruptIs(s: Core)
    ensures HandleException(RetireDelaySlot(s), INTERRUPT, false, Tlb.Miss) == Interrupted(s)
  {
    VectorValue(0x8000_0180);
    NextOf(GENERAL);
    hide Sext32;
  }

  /** An interrupted step runs the first instruction of the handler, at physical address 0x180. */
  lemma InterruptedStep(x: System, code: nat -> IrOp)
    requires Coherent(x.core, x.tables) && ShouldService(RetireDelaySlot(x.core), x.timer)
    ensures var x' := Step(x, code);
      x'.core == Execute(NextInstruction(Interrupted(x.core)), code(0x180)) && x'.timer == AddCount(x.timer, 1)
  {
    InterruptIs(x.core);
    hide HandleException, ShouldService, AddCount, RetireDelaySlot;
    var s := Interrupted(x.core);
    Direct();
    ExecuteCachedIsExecute(NextInstruction(s), x.tables, code(0x180));
    hide SoftTlb.DirectMap, Execute, ExecuteCached, NextInstruction, SoftTlb.ResolveCached;
  }

  lemma Direct()
    ensures Lo32(GENERAL) == 0x8000_0180 && SoftTlb.DirectMap(0x8000_0180) == Some(0x180)
  {}

  /** An instruction whose own address does not translate is not executed: the handler returns to it, or to the branch
      before it, and COUNT does not move. */
  lemma FetchException(x: System, code: nat -> IrOp, e: Tlb.Error)
    requires Coherent(x.core, x.tables) && !ShouldService(RetireDelaySlot(x.core), x.timer)
    requires SoftTlb.Resolve(x.core.es, x.core.c.hi, Lo32(x.core.pc), Tlb.Load) == Tlb.Fail(e)
    ensures var s := x.core; var va := Lo32(s.pc); var v := TlbVector(s.ex, va, e);
      Step(x, code).core == s.(c := Tlb.OnException(s.c, Tlb.SignExtend(va)), ex := Recorded(s.ex, s.pc, s.delay, TlbCode(e, false)),
                               delay := false, prevDelay := s.delay, prevPc := s.pc, pc := v, nextPc := v + 4)
      && Step(x, code).timer == x.timer
  {
    var s, va := RetireDelaySlot(x.core), Lo32(x.core.pc);
    TlbException(s, Tlb.OnException(s.c, Tlb.SignExtend(va)), va, e, Tlb.Load, false);
    SoftTlb.TranslateCoherent(MmuOf(s, x.tables), va, 4, Tlb.Load, false);
    hide HandleException, ShouldService, Recorded, TlbVector, Tlb.OnException, Tlb.SignExtend, SoftTlb.ResolveCached, SoftTlb.Coherent,
      TlbExceptionCode, Wrap;
    assert SoftTlb.DirectMap(va).None?;
  }
}
