/** A whole emitted block: one pass over its code is one operation after another, up to the first exit. */
module EmitBlock {
  import opened Bits
  import opened ByteOrder
  import opened Cpu
  import opened Interp
  import opened Timer
  import opened X86
  import opened Emitter
  import opened EmitAlu
  import opened EmitBranch
  import opened EmitMem
  import SoftTlb

  // ---- What a block means ---------------------------------------------------------------------------

  /** A block in progress: the core, the cycles counted, and whether an exit was taken. */
  datatype Progress = Progress(core: Core, count: nat, exited: bool)

  /** A translation that fails ends the block, and so does a branch-likely that is not taken: its delay slot
      must not run. After the last operation there is nothing left to skip. */
  predicate Exits(s: Core, op: IrOp, last: bool) {
    (IsMem(op.kind) && Aborts(s, op)) || (IsLikely(op.kind) && !last && Annulled(s, op, false))
  }

  function Fetched(s: Core): Core { NextInstruction(RetireDelaySlot(s)) }

  function Block(s: Core, ops: seq<IrOp>, n: nat): (p: Progress)
    requires n <= |ops|
    ensures p.count <= n
  {
    if n == 0 then Progress(s, 0, false)
    else
      var p := Block(s, ops, n - 1);
      if p.exited then p
      else Progress(Arch(p.core, ops[n - 1]), p.count + 1, Exits(Fetched(p.core), ops[n - 1], n == |ops|))
  }

  /** Every SRA and SRAV the block reaches has an operand whose sign fills the bits shifted in. */
  ghost predicate ShiftsExact(s: Core, ops: seq<IrOp>) {
    forall i :: 0 <= i < |ops| ==> ShiftExactAt(s, ops, i)
  }

  ghost predicate ShiftExactAt(s: Core, ops: seq<IrOp>, i: nat)
    requires i < |ops|
  {
    var p := Block(s, ops, i);
    !p.exited ==> ShiftExact(ops[i], Gpr(p.core, ops[i].rs), Gpr(p.core, ops[i].rt))
  }

  // ---- One operation --------------------------------------------------------------------------------

  lemma DelayCode(m: Machine)
    ensures var c := Run([MovPtr(Rax, DelayCell), MovzxB(Rcx, Rax), MovPtr(Rdx, PrevDelayCell), StoreB(Rdx, Rcx)], Running(m));
      After(c, m, m.core.(prevDelay := m.core.delay)) && c.m.rax == Ptr(DelayCell)
  {
    hide Run, ExecRunning;
    MoveRules(); CellRules();
    Run4(MovPtr(Rax, DelayCell), MovzxB(Rcx, Rax), MovPtr(Rdx, PrevDelayCell), StoreB(Rdx, Rcx), Running(m));
    var c := Exec(MovzxB(Rcx, Rax), Exec(MovPtr(Rax, DelayCell), Running(m)));
    assert c == Running(m.(rax := Ptr(DelayCell), rcx := Num(Odd(m.core.delay))));
  }

  lemma LoadPcCode(m: Machine)
    requires m.rax == Ptr(DelayCell)
    ensures var c := Run([StoreImmB(Rax, false), MovPtr(Rax, PcCell), LoadQ(Rcx, Rax), MovPtr(Rdx, PrevPcCell)], Running(m));
      && After(c, m, m.core.(delay := false))
      && c.m.rax == Ptr(PcCell) && c.m.rcx == Num(m.core.pc) && c.m.rdx == Ptr(PrevPcCell)
  {
    hide Run, ExecRunning;
    MoveRules(); CellRules();
    Run4(StoreImmB(Rax, false), MovPtr(Rax, PcCell), LoadQ(Rcx, Rax), MovPtr(Rdx, PrevPcCell), Running(m));
    var c := Exec(MovPtr(Rax, PcCell), Exec(StoreImmB(Rax, false), Running(m)));
    assert c == Running(m.(core := m.core.(delay := false), rax := Ptr(PcCell)));
  }

  lemma StorePcCode(m: Machine)
    requires m.rax == Ptr(PcCell) && m.rcx == Num(m.core.pc) && m.rdx == Ptr(PrevPcCell)
    ensures var c := Run([StoreQ(Rdx, Rcx), MovPtr(Rdx, NextPcCell), LoadQ(Rcx, Rdx), StoreQ(Rax, Rcx)], Running(m));
      After(c, m, m.core.(prevPc := m.core.pc, pc := m.core.nextPc)) && c.m.rdx == Ptr(NextPcCell)
  {
    hide Run, Exec;
    var a, b := [StoreQ(Rdx, Rcx), MovPtr(Rdx, NextPcCell)], [LoadQ(Rcx, Rdx), StoreQ(Rax, Rcx)];
    assert [StoreQ(Rdx, Rcx), MovPtr(Rdx, NextPcCell), LoadQ(Rcx, Rdx), StoreQ(Rax, Rcx)] == a + b;
    RunCat(a, b, Running(m));
    StorePrevPc(m);
    CopyNextPc(m.(core := m.core.(prevPc := m.core.pc), rdx := Ptr(NextPcCell)));
  }

  lemma StorePrevPc(m: Machine)
    requires m.rcx == Num(m.core.pc) && m.rdx == Ptr(PrevPcCell)
    ensures Run([StoreQ(Rdx, Rcx), MovPtr(Rdx, NextPcCell)], Running(m)) ==
      Running(m.(core := m.core.(prevPc := m.core.pc), rdx := Ptr(NextPcCell)))
  {
    hide Run, ExecRunning;
    MoveRules(); CellRules();
    Run2(StoreQ(Rdx, Rcx), MovPtr(Rdx, NextPcCell), Running(m));
  }

  lemma CopyNextPc(m: Machine)
    requires m.rax == Ptr(PcCell) && m.rdx == Ptr(NextPcCell)
    ensures Run([LoadQ(Rcx, Rdx), StoreQ(Rax, Rcx)], Running(m)) ==
      Running(m.(core := m.core.(pc := m.core.nextPc), rcx := Num(m.core.nextPc)))
  {
    hide Run, ExecRunning;
    CellRules();
    Run2(LoadQ(Rcx, Rdx), StoreQ(Rax, Rcx), Running(m));
  }

  lemma NextPcCode(m: Machine)
    requires m.rdx == Ptr(NextPcCell)
    ensures After(Run([AddMemQ(Rdx, 4)], Running(m)), m, m.core.(nextPc := Wrap(m.core.nextPc + 4)))
  {
    hide Run, ExecRunning, Wrap;
    Run1(AddMemQ(Rdx, 4), Running(m));
    CellRules();
  }

  lemma AdvanceRuns(m: Machine)
    ensures After(Run(AdvancePc(), Running(m)), m, Fetched(m.core))
  {
    hide Run, Exec;
    var a := [MovPtr(Rax, DelayCell), MovzxB(Rcx, Rax), MovPtr(Rdx, PrevDelayCell), StoreB(Rdx, Rcx)];
    var b := [StoreImmB(Rax, false), MovPtr(Rax, PcCell), LoadQ(Rcx, Rax), MovPtr(Rdx, PrevPcCell)];
    var d := [StoreQ(Rdx, Rcx), MovPtr(Rdx, NextPcCell), LoadQ(Rcx, Rdx), StoreQ(Rax, Rcx)];
    assert AdvancePc() == a + b + d + [AddMemQ(Rdx, 4)];
    RunCat(a + b + d, [AddMemQ(Rdx, 4)], Running(m));
    RunCat(a + b, d, Running(m));
    RunCat(a, b, Running(m));
    DelayCode(m);
    LoadPcCode(Run(a, Running(m)).m);
    StorePcCode(Run(a + b, Running(m)).m);
    NextPcCode(Run(a + b + d, Running(m)).m);
  }

  /** The body of one operation. */
  ghost predicate OpDone(c: Config, m: Machine, op: IrOp) {
    && c.Running?
    && c.m.core == Execute(m.core, op) && Coherent(c.m.core, c.m.tables)
    && c.m.annul == Annulled(m.core, op, m.annul) && c.m.rbx == m.rbx && c.m.timer == m.timer
    && c.m.aborted == (m.aborted || (IsMem(op.kind) && Aborts(m.core, op)))
  }

  lemma AfterIsDone(c: Config, m: Machine, op: IrOp)
    requires !IsMem(op.kind) && Coherent(m.core, m.tables)
    requires After(c, m.(annul := Annulled(m.core, op, m.annul)), Execute(m.core, op))
    ensures OpDone(c, m, op)
  {
    hide Execute, SoftTlb.Coherent, Aborts;
    RegistersKeepMmu(m.core, op);
  }

  lemma OpRuns(op: IrOp, m: Machine, i: nat)
    requires Coherent(m.core, m.tables) && ShiftExact(op, Gpr(m.core, op.rs), Gpr(m.core, op.rt))
    ensures OpDone(Run(OpCode(op, i), Running(m)), m, op)
  {
    hide Run, ShiftExact, Branch, Memory, HiLo, AluResult, SoftTlb.Coherent, Aborts, Taken, SetGpr, Gpr,
         AluCode, BranchCode, MemCode, HiLoCode;
    if IsMem(op.kind) {
      MemRuns(op, m, i);
    } else {
      hide OpCode, Execute;
      RegisterOpRuns(op, m, i);
      AfterIsDone(Run(OpCode(op, i), Running(m)), m, op);
    }
  }

  lemma RegisterOpRuns(op: IrOp, m: Machine, i: nat)
    requires !IsMem(op.kind) && ShiftExact(op, Gpr(m.core, op.rs), Gpr(m.core, op.rt))
    ensures After(Run(OpCode(op, i), Running(m)), m.(annul := Annulled(m.core, op, m.annul)), Execute(m.core, op))
  {
    hide Run, ShiftExact, Branch, Memory, HiLo, AluResult, Taken, SetGpr, Gpr, AluCode, BranchCode, MemCode, HiLoCode;
    if op.kind.Nop? { RunNothing(Running(m)); }
    else if IsAlu(op.kind) { AluRuns(op, m); }
    else if IsBranch(op.kind) { BranchRuns(op, m, i); }
    else { HiLoRuns(op, m); }
  }

  lemma FlagTest(cell: Cell, m: Machine)
    requires cell.AbortedCell? || cell.AnnulCell?
    ensures var c := Run([MovPtr(Rax, cell), CmpMemB(Rax), Jcc(NE, Exit)], Running(m));
      && !c.Fault? && After(Running(c.m), m, m.core)
      && c == if (if cell.AbortedCell? then m.aborted else m.annul) then Seeking(Exit, c.m) else Running(c.m)
  {
    hide Run, ExecRunning, Signed;
    MoveRules(); CellRules(); JumpRules();
    Run3(MovPtr(Rax, cell), CmpMemB(Rax), Jcc(NE, Exit), Running(m));
    assert Exec(MovPtr(Rax, cell), Running(m)) == Running(m.(rax := Ptr(cell)));
  }

  lemma ExitTestsRun(op: IrOp, last: bool, m: Machine)
    ensures var c := Run(ExitTests(op, last), Running(m));
      && !c.Fault? && After(Running(c.m), m, m.core)
      && c == if (IsMem(op.kind) && m.aborted) || (IsLikely(op.kind) && !last && m.annul) then Seeking(Exit, c.m) else Running(c.m)
  {
    hide Run, ExecRunning;
    RunNothing(Running(m));
    var abort := [MovPtr(Rax, AbortedCell), CmpMemB(Rax), Jcc(NE, Exit)];
    var annul := [MovPtr(Rax, AnnulCell), CmpMemB(Rax), Jcc(NE, Exit)];
    assert abort + [] == abort && [] + annul == annul;
    if IsMem(op.kind) { FlagTest(AbortedCell, m); }
    else if IsLikely(op.kind) && !last { FlagTest(AnnulCell, m); }
    else { assert ExitTests(op, last) == []; }
  }

  lemma IncRuns(m: Machine, k: u64)
    requires m.rbx == Num(k) && k + 1 < WORD
    ensures Run([Inc32(Rbx)], Running(m)) == Running(m.(rbx := Num(k + 1), flags := Undefined))
  {
    hide Run, ExecRunning;
    ArithRules();
    SmallLow(k + 1);
    Run1(Inc32(Rbx), Running(m));
  }

  // ---- The pass -------------------------------------------------------------------------------------

  /** Where the pass is after some operations: at the next one, or looking for the exit. */
  ghost predicate Reached(c: Config, p: Progress, t: Timer, last: bool) {
    && !c.Fault? && c.m.timer == t
    && (if p.exited then c == Seeking(Exit, c.m) else c.Running?)
    && c.m.core == p.core && Coherent(c.m.core, c.m.tables)
    && p.count < WORD && c.m.rbx == Num(p.count)
    && (!p.exited ==> !c.m.aborted && (!last ==> !c.m.annul))
  }

  lemma AfterOp(ops: seq<IrOp>, i: nat, p: Progress, m: Machine)
    requires i < |ops| < WORD && p.count <= i && !p.exited
    requires Reached(Running(m), p, m.timer, false)
    requires ShiftExact(ops[i], Gpr(p.core, ops[i].rs), Gpr(p.core, ops[i].rt))
    ensures var c := Run(AdvancePc() + OpCode(ops[i], i) + [Inc32(Rbx)], Running(m));
      && c.Running? && c.m.core == Arch(p.core, ops[i]) && Coherent(c.m.core, c.m.tables) && c.m.rbx == Num(p.count + 1)
      && c.m.aborted == (IsMem(ops[i].kind) && Aborts(Fetched(p.core), ops[i]))
      && c.m.annul == Annulled(Fetched(p.core), ops[i], false) && c.m.timer == m.timer
  {
    hide Run, AdvancePc, OpCode, Execute, SoftTlb.Coherent, Annulled, Aborts, ShiftExact, Gpr;
    var op, s := ops[i], Fetched(p.core);
    RunCat(AdvancePc() + OpCode(op, i), [Inc32(Rbx)], Running(m));
    RunCat(AdvancePc(), OpCode(op, i), Running(m));
    AdvanceRuns(m);
    var m1 := Run(AdvancePc(), Running(m)).m;
    FetchKeepsRegisters(p.core, m1.tables);
    OpRuns(op, m1, i);
    IncRuns(Run(OpCode(op, i), Running(m1)).m, p.count);
  }

  lemma FetchKeepsRegisters(s: Core, t: Tables)
    ensures Coherent(Fetched(s), t) == Coherent(s, t)
    ensures forall r :: Gpr(Fetched(s), r) == Gpr(s, r)
  {
    hide SoftTlb.Coherent, Wrap;
  }

  lemma OneOpRuns(ops: seq<IrOp>, i: nat, p: Progress, m: Machine)
    requires i < |ops| < WORD && p.count <= i && !p.exited
    requires Reached(Running(m), p, m.timer, false)
    requires ShiftExact(ops[i], Gpr(p.core, ops[i].rs), Gpr(p.core, ops[i].rt))
    ensures Reached(Run(OneOp(ops, i), Running(m)),
                    Progress(Arch(p.core, ops[i]), p.count + 1, Exits(Fetched(p.core), ops[i], i + 1 == |ops|)),
                    m.timer, i + 1 == |ops|)
  {
    hide Run, AdvancePc, OpCode, Arch, Fetched, SoftTlb.Coherent, ShiftExact, Gpr, ExitTests, Aborts, Annulled;
    var body := AdvancePc() + OpCode(ops[i], i) + [Inc32(Rbx)];
    RunCat(body, ExitTests(ops[i], i + 1 == |ops|), Running(m));
    AfterOp(ops, i, p, m);
    ExitTestsRun(ops[i], i + 1 == |ops|, Run(body, Running(m)).m);
    OnlyLikelyAnnuls(Fetched(p.core), ops[i]);
  }

  lemma OnlyLikelyAnnuls(s: Core, op: IrOp)
    ensures Annulled(s, op, false) ==> IsLikely(op.kind) && !IsMem(op.kind)
  {
    hide Taken;
  }

  lemma ConditionFree(op: IrOp)
    ensures Free(ConditionCode(op), Exit)
  {
    hide ConditionOf;
  }

  lemma JumpFree(op: IrOp, i: nat)
    ensures Free(JumpCode(op, i), Exit)
  {
    hide Imm32, Wrap, Signed16;
  }

  lemma BranchFree(op: IrOp, i: nat)
    ensures Free(BranchCode(op, i), Exit)
  {
    hide ConditionCode, JumpCode;
    ConditionFree(op);
    JumpFree(op, i);
  }

  lemma AluFree(op: IrOp)
    requires IsAlu(op.kind)
    ensures Free(AluCode(op), Exit)
  {
    hide RegisterCore, ShiftCode, ImmediateCore, LoadTwo, RaxToGpr, GprToRax, Free;
    LoadsFree(op);
    CoresFree(op);
    if IsRegister(op.kind) {
      FreeCat(LoadTwo(op.rs, op.rt), RegisterCore(op.kind), Exit);
      FreeCat(LoadTwo(op.rs, op.rt) + RegisterCore(op.kind), RaxToGpr(op.rd), Exit);
    } else if IsShift(op.kind) {
      FreeCat(ShiftCode(op), RaxToGpr(op.rd), Exit);
    } else {
      FreeCat(GprToRax(op.rs), ImmediateCore(op.kind, op.imm), Exit);
      FreeCat(GprToRax(op.rs) + ImmediateCore(op.kind, op.imm), RaxToGpr(op.rt), Exit);
    }
  }

  lemma LoadsFree(op: IrOp)
    ensures Free(GprToRax(op.rs), Exit) && Free(LoadTwo(op.rs, op.rt), Exit)
    ensures Free(RaxToGpr(op.rd), Exit) && Free(RaxToGpr(op.rt), Exit)
  {}

  lemma CoresFree(op: IrOp)
    ensures Free(RegisterCore(op.kind), Exit) && Free(ShiftCode(op), Exit) && Free(ImmediateCore(op.kind, op.imm), Exit)
  {
    hide Sext16;
  }

  lemma MemFree(op: IrOp, i: nat)
    ensures Free(MemCode(op, i), Exit)
  {
    hide Imm32, Sext16, AccessCode, SlotTest, RangeTest;
    AccessFree(op, i, Exit);
    TestsFree(op, i, Exit);
  }

  lemma OpFree(op: IrOp, i: nat)
    ensures Free(OpCode(op, i), Exit)
  {
    hide AluCode, BranchCode, MemCode;
    if IsAlu(op.kind) { AluFree(op); }
    BranchFree(op, i);
    MemFree(op, i);
  }

  lemma OneOpFree(ops: seq<IrOp>, i: nat)
    requires i < |ops|
    ensures Free(OneOp(ops, i), Exit)
  {
    hide OpCode;
    OpFree(ops[i], i);
  }

  /** After the code of the first n operations the machine is where the block is. */
  lemma {:induction false} OpsRun(ops: seq<IrOp>, n: nat, m: Machine)
    requires n <= |ops| < WORD
    requires !m.aborted && !m.annul && Coherent(m.core, m.tables) && ShiftsExact(m.core, ops)
    ensures Reached(Run(Ops(ops, n), Running(m)), Block(m.core, ops, n), m.timer, n == |ops|)
  {
    hide Run, OneOp, Arch, SoftTlb.Coherent, ShiftExact, Gpr, Exits, Free;
    if n == 0 {
      ArithRules();
      Run1(Zero(Rbx), Running(m));
    } else {
      OpsRun(ops, n - 1, m);
      RunCat(Ops(ops, n - 1), OneOp(ops, n - 1), Running(m));
      var c, p := Run(Ops(ops, n - 1), Running(m)), Block(m.core, ops, n - 1);
      if p.exited {
        OneOpFree(ops, n - 1);
        Skip(OneOp(ops, n - 1), Exit, c.m);
      } else {
        assert ShiftExactAt(m.core, ops, n - 1);
        OneOpRuns(ops, n - 1, p, c.m);
      }
    }
  }

  lemma EpilogueRuns(c: Config, p: Progress, t: Timer)
    requires Reached(c, p, t, true)
    ensures var c' := Run(Epilogue(), c);
      && c'.Running? && c'.m.core == p.core && Coherent(c'.m.core, c'.m.tables)
      && c'.m.timer == AddCount(t, p.count) && c'.m.rax == Num(p.count)
  {
    hide Run, ExecRunning, CallHelper, SoftTlb.Coherent;
    Run4(Lbl(Exit), Mov32(Rdi, Rbx), Call(DoAddCount), Mov32(Rax, Rbx), c);
    JumpRules(); MoveRules();
    SmallLow(p.count);
    var m1 := c.m.(rdi := Num(p.count));
    assert Exec(Mov32(Rdi, Rbx), Exec(Lbl(Exit), c)) == Running(m1);
    CountRule(m1, p.count);
  }

  lemma CountRule(m: Machine, n: u64)
    requires m.rdi == Num(n) && n < WORD
    ensures CallHelper(DoAddCount, m) == Return(m.(timer := AddCount(m.timer, n)))
  {
    hide BranchTo, OffsetTarget, Truth, HelperMemory, HiLo, BranchLikelyTo, Link, Region, ReturnCore, Return, AddCount;
  }

  /** The emitted block, run as one pass, ends normally with the core the block means, COUNT advanced by the
      number of instructions it executed, that number as its result, and the software TLB still coherent. */
  lemma BlockRuns(ops: seq<IrOp>, m: Machine)
    requires |ops| < WORD
    requires !m.aborted && !m.annul && Coherent(m.core, m.tables) && ShiftsExact(m.core, ops)
    ensures var c, p := Run(BlockCode(ops), Running(m)), Block(m.core, ops, |ops|);
      && c.Running? && c.m.core == p.core && Coherent(c.m.core, c.m.tables)
      && c.m.timer == AddCount(m.timer, p.count) && c.m.rax == Num(p.count)
  {
    hide Run, Ops, Block, SoftTlb.Coherent, ShiftsExact, Reached, Epilogue;
    OpsRun(ops, |ops|, m);
    RunCat(Ops(ops, |ops|), Epilogue(), Running(m));
    EpilogueRuns(Run(Ops(ops, |ops|), Running(m)), Block(m.core, ops, |ops|), m.timer);
  }
}
