/** The emitted code for branches: the condition, the inlined delay-slot bookkeeping, the helper calls. */
module EmitBranch {
  import opened Bits
  import opened ByteOrder
  import opened Cpu
  import opened Timer
  import opened X86
  import opened Emitter
  import opened EmitAlu

  // ---- The condition --------------------------------------------------------------------------------

  lemma TruthByte(b: bool, n: u64)
    ensures (n - n % 0x100 + Odd(b)) % 0x100 == Odd(b) && Truth(Odd(b)) == b
  {}

  lemma FlagToRdi(cc: Cond, m: Machine, n: u64)
    requires m.rax == Num(n) && m.flags.Compared?
    ensures var c := Run([SetCc(cc, Rax), Movzx8(Rdi, Rax)], Running(m));
      After(c, m, m.core) && c.m.rdi == Num(Odd(Holds(cc, m.flags)))
  {
    hide Run, ExecRunning, Holds, Odd;
    SetRules();
    var b := Holds(cc, m.flags);
    TruthByte(b, n);
    Run2(SetCc(cc, Rax), Movzx8(Rdi, Rax), Running(m));
    assert Exec(SetCc(cc, Rax), Running(m)) == Running(m.(rax := Num(n - n % 0x100 + Odd(b))));
  }

  lemma CompareRuns(m: Machine, rs: u64, rt: u64)
    requires m.r12 == Num(rs) && m.rax == Num(rt)
    ensures var c := Run([Cmp64(R12, Rax), SetCc(E, Rax), Movzx8(Rdi, Rax)], Running(m));
      After(c, m, m.core) && c.m.rdi == Num(Odd(rs == rt))
  {
    hide Run, ExecRunning, Signed, Odd;
    TestRules();
    assert [Cmp64(R12, Rax), SetCc(E, Rax), Movzx8(Rdi, Rax)] == [Cmp64(R12, Rax)] + [SetCc(E, Rax), Movzx8(Rdi, Rax)];
    RunCat([Cmp64(R12, Rax)], [SetCc(E, Rax), Movzx8(Rdi, Rax)], Running(m));
    Run1(Cmp64(R12, Rax), Running(m));
    var c := Exec(Cmp64(R12, Rax), Running(m));
    FlagToRdi(E, c.m, rt);
  }

  lemma FlipTruth(b: bool)
    ensures Value(XorA, false, Odd(b), 1) == Odd(!b)
  {
    hide Zip;
    ZipZero(1);
    ZipSelf(1);
    SmallLow(0); SmallLow(1);
  }

  lemma FlipRuns(m: Machine, b: bool)
    requires m.rdi == Num(Odd(b))
    ensures var c := Run([Alu(XorA, false, Rdi, I(1))], Running(m));
      After(c, m, m.core) && c.m.rdi == Num(Odd(!b))
  {
    hide Run, ExecRunning, Value, Odd;
    ArithRules();
    FlipTruth(b);
    Run1(Alu(XorA, false, Rdi, I(1)), Running(m));
  }

  lemma SignRuns(cc: Cond, m: Machine, rs: u64)
    requires m.rax == Num(rs)
    ensures var c := Run([Test64(Rax), SetCc(cc, Rax), Movzx8(Rdi, Rax)], Running(m));
      && After(c, m, m.core)
      && c.m.rdi == Num(Odd(Holds(cc, Compared(false, rs == 0, Signed(rs) < 0))))
  {
    hide Run, ExecRunning, Signed, Odd, Holds;
    TestRules();
    assert [Test64(Rax), SetCc(cc, Rax), Movzx8(Rdi, Rax)] == [Test64(Rax)] + [SetCc(cc, Rax), Movzx8(Rdi, Rax)];
    RunCat([Test64(Rax)], [SetCc(cc, Rax), Movzx8(Rdi, Rax)], Running(m));
    Run1(Test64(Rax), Running(m));
    var c := Exec(Test64(Rax), Running(m));
    FlagToRdi(cc, c.m, rs);
  }

  lemma SignCondition(k: Kind, rs: u64, rt: u64)
    requires IsConditional(k) && !IsEquality(k)
    ensures Holds(ConditionOf(k), Compared(false, rs == 0, Signed(rs) < 0)) == Taken(k, rs, rt)
  {}

  lemma EqualityRuns(op: IrOp, m: Machine)
    requires IsEquality(op.kind)
    ensures var c := Run(ConditionCode(op), Running(m));
      && After(c, m, m.core)
      && c.m.rdi == Num(Odd(Taken(op.kind, Gpr(m.core, op.rs), Gpr(m.core, op.rt))))
  {
    hide Run, LoadTwo, Gpr, Odd;
    var compare := [Cmp64(R12, Rax), SetCc(E, Rax), Movzx8(Rdi, Rax)];
    var rs, rt := Gpr(m.core, op.rs), Gpr(m.core, op.rt);
    LoadBoth(m, op.rs, op.rt);
    RunCat(LoadTwo(op.rs, op.rt), compare, Running(m));
    var c := Run(LoadTwo(op.rs, op.rt), Running(m));
    CompareRuns(c.m, rs, rt);
    var flip := if op.kind.Bne? || op.kind.Bnel? then [Alu(XorA, false, Rdi, I(1))] else [];
    RunCat(LoadTwo(op.rs, op.rt) + compare, flip, Running(m));
    if op.kind.Bne? || op.kind.Bnel? { FlipRuns(Run(compare, c).m, rs == rt); } else { RunNothing(Run(compare, c)); }
  }

  lemma RunNothing(c: Config)
    ensures Run([], c) == c
  {}

  lemma ConditionRuns(op: IrOp, m: Machine)
    requires IsConditional(op.kind)
    ensures var c := Run(ConditionCode(op), Running(m));
      && After(c, m, m.core)
      && c.m.rdi == Num(Odd(Taken(op.kind, Gpr(m.core, op.rs), Gpr(m.core, op.rt))))
  {
    hide Run, GprToRax, LoadTwo, Gpr, Odd, Taken, Holds, ConditionOf;
    if IsEquality(op.kind) {
      EqualityRuns(op, m);
    } else {
      var test := [Test64(Rax), SetCc(ConditionOf(op.kind), Rax), Movzx8(Rdi, Rax)];
      LoadGpr(m, op.rs);
      RunCat(GprToRax(op.rs), test, Running(m));
      SignRuns(ConditionOf(op.kind), Run(GprToRax(op.rs), Running(m)).m, Gpr(m.core, op.rs));
      SignCondition(op.kind, Gpr(m.core, op.rs), Gpr(m.core, op.rt));
    }
  }

  // ---- The calls ------------------------------------------------------------------------------------

  lemma OffsetBits(imm: nat)
    ensures Imm32(imm) % 0x1_0000 == imm % 0x1_0000
  {}

  lemma SameOffset(s: Core, a: nat, b: nat)
    requires a % 0x1_0000 == b % 0x1_0000
    ensures OffsetTarget(s, a) == OffsetTarget(s, b)
  {}

  lemma OffsetRule(m: Machine, c: u64, o: u64)
    requires m.rdi == Num(c) && m.rsi == Num(o)
    ensures CallHelper(DoBranchOffset, m) == ReturnCore(m, BranchTo(m.core, Truth(c), OffsetTarget(m.core, o % 0x1_0000)))
    ensures CallHelper(DoBranchLikelyOffset, m) ==
      ReturnCore(m.(annul := !Truth(c)), BranchLikelyTo(m.core, Truth(c), OffsetTarget(m.core, o % 0x1_0000)))
  {
    hide BranchTo, OffsetTarget, Truth, HelperMemory, HiLo, BranchLikelyTo, Link, Region, ReturnCore, AddCount;
  }

  lemma OffsetArguments(m: Machine, b: bool, imm: nat)
    ensures Truth(Odd(b)) == b
    ensures OffsetTarget(m.core, Imm32(imm) % 0x1_0000) == OffsetTarget(m.core, imm)
  {
    TruthByte(b, 0);
    OffsetBits(imm);
    SameOffset(m.core, Imm32(imm) % 0x1_0000, imm);
  }

  lemma OffsetCall(m: Machine, b: bool, imm: nat)
    requires m.rdi == Num(Odd(b))
    ensures After(Run([MovImm(Rsi, Imm32(imm)), Call(DoBranchOffset)], Running(m)), m,
                  BranchTo(m.core, b, OffsetTarget(m.core, imm)))
  {
    hide Run, CallHelper, BranchTo, BranchLikelyTo, OffsetTarget, Imm32, Truth, Odd;
    assert [MovImm(Rsi, Imm32(imm)), Call(DoBranchOffset)] == [MovImm(Rsi, Imm32(imm))] + [Call(DoBranchOffset)];
    ArgumentRuns(Rsi, Imm32(imm), [Call(DoBranchOffset)], m);
    var m' := Set(m, Rsi, Num(Imm32(imm)));
    OffsetRule(m', Odd(b), Imm32(imm));
    OffsetArguments(m, b, imm);
    CallRuns(DoBranchOffset, m', BranchTo(m.core, b, OffsetTarget(m.core, imm)));
  }

  lemma LikelyCall(m: Machine, b: bool, imm: nat)
    requires m.rdi == Num(Odd(b))
    ensures After(Run([MovImm(Rsi, Imm32(imm)), Call(DoBranchLikelyOffset)], Running(m)), m.(annul := !b),
                  BranchLikelyTo(m.core, b, OffsetTarget(m.core, imm)))
  {
    hide Run, ExecRunning, CallHelper, BranchTo, BranchLikelyTo, OffsetTarget, Imm32, Truth, Odd;
    assert [MovImm(Rsi, Imm32(imm)), Call(DoBranchLikelyOffset)] == [MovImm(Rsi, Imm32(imm))] + [Call(DoBranchLikelyOffset)];
    ArgumentRuns(Rsi, Imm32(imm), [Call(DoBranchLikelyOffset)], m);
    var m' := Set(m, Rsi, Num(Imm32(imm)));
    OffsetRule(m', Odd(b), Imm32(imm));
    OffsetArguments(m, b, imm);
    JumpRules();
    Run1(Call(DoBranchLikelyOffset), Running(m'));
  }

  lemma LinkRule(m: Machine, r: RegNum)
    requires m.rdi == Num(r)
    ensures CallHelper(DoLink, m) == ReturnCore(m, Link(m.core, r))
  {
    hide BranchTo, OffsetTarget, Truth, HelperMemory, HiLo, BranchLikelyTo, Link, Region, ReturnCore, AddCount;
  }

  lemma LinkCall(m: Machine, r: RegNum)
    ensures After(Run([MovImm(Rdi, r), Call(DoLink)], Running(m)), m, Link(m.core, r))
  {
    hide Run, CallHelper, Link;
    assert [MovImm(Rdi, r), Call(DoLink)] == [MovImm(Rdi, r)] + [Call(DoLink)];
    ArgumentRuns(Rdi, r, [Call(DoLink)], m);
    var m' := Set(m, Rdi, Num(r));
    LinkRule(m', r);
    CallRuns(DoLink, m', Link(m.core, r));
  }

  lemma JumpRule(m: Machine, t: u64, link: bool)
    requires m.rdi == Num(t)
    ensures CallHelper(if link then DoJal else DoJ, m) ==
      ReturnCore(m, BranchTo(if link then Link(m.core, 31) else m.core, true, Region(m.core, t)))
  {
    hide BranchTo, OffsetTarget, Truth, HelperMemory, HiLo, BranchLikelyTo, Link, Region, ReturnCore, AddCount;
  }

  lemma RegionBits(s: Core, target: nat)
    ensures Region(s, target % 0x400_0000) == Region(s, target)
  {}

  lemma JumpCall(m: Machine, target: nat, link: bool)
    ensures After(Run([MovImm(Rdi, target % 0x400_0000), Call(if link then DoJal else DoJ)], Running(m)), m,
                  BranchTo(if link then Link(m.core, 31) else m.core, true, Region(m.core, target)))
  {
    hide Run, CallHelper, BranchTo, Link, Region;
    var f, t := if link then DoJal else DoJ, target % 0x400_0000;
    assert [MovImm(Rdi, t), Call(f)] == [MovImm(Rdi, t)] + [Call(f)];
    ArgumentRuns(Rdi, t, [Call(f)], m);
    var m' := Set(m, Rdi, Num(t));
    JumpRule(m', t, link);
    RegionBits(m.core, target);
    CallRuns(f, m', BranchTo(if link then Link(m.core, 31) else m.core, true, Region(m.core, target)));
  }

  lemma AddrCall(m: Machine, target: u64)
    requires m.rsi == Num(target) && m.rdi == Num(1)
    ensures After(Run([Call(DoBranchAddr)], Running(m)), m, BranchTo(m.core, true, target))
  {
    hide Run, ExecRunning, BranchTo, OffsetTarget, HelperMemory, HiLo, BranchLikelyTo, Link, Region;
    JumpRules();
    Run1(Call(DoBranchAddr), Running(m));
  }

  lemma JrRuns(m: Machine, rs: RegNum)
    ensures After(Run(GprToRax(rs) + [Mov64(Rsi, Rax), MovImm(Rdi, 1), Call(DoBranchAddr)], Running(m)), m,
                  BranchTo(m.core, true, Gpr(m.core, rs)))
  {
    hide Run, ExecRunning, BranchTo, GprToRax, Gpr;
    MoveRules();
    LoadGpr(m, rs);
    var c := Run(GprToRax(rs), Running(m));
    RunCat(GprToRax(rs), [Mov64(Rsi, Rax), MovImm(Rdi, 1), Call(DoBranchAddr)], Running(m));
    assert [Mov64(Rsi, Rax), MovImm(Rdi, 1), Call(DoBranchAddr)] == [Mov64(Rsi, Rax), MovImm(Rdi, 1)] + [Call(DoBranchAddr)];
    RunCat([Mov64(Rsi, Rax), MovImm(Rdi, 1)], [Call(DoBranchAddr)], c);
    Run2(Mov64(Rsi, Rax), MovImm(Rdi, 1), c);
    AddrCall(c.m.(rsi := c.m.rax, rdi := Num(1)), Gpr(m.core, rs));
  }

  lemma JalrJump(m: Machine, rs: RegNum)
    ensures After(Run(GprToRax(rs) + [Mov64(R12, Rax), MovImm(Rdi, 1), Mov64(Rsi, R12), Call(DoBranchAddr)], Running(m)), m,
                  BranchTo(m.core, true, Gpr(m.core, rs)))
  {
    hide Run, ExecRunning, BranchTo, GprToRax, Gpr;
    MoveRules();
    LoadGpr(m, rs);
    var c := Run(GprToRax(rs), Running(m));
    var moves := [Mov64(R12, Rax), MovImm(Rdi, 1), Mov64(Rsi, R12)];
    RunCat(GprToRax(rs), [Mov64(R12, Rax), MovImm(Rdi, 1), Mov64(Rsi, R12), Call(DoBranchAddr)], Running(m));
    assert [Mov64(R12, Rax), MovImm(Rdi, 1), Mov64(Rsi, R12), Call(DoBranchAddr)] == moves + [Call(DoBranchAddr)];
    RunCat(moves, [Call(DoBranchAddr)], c);
    Run3(Mov64(R12, Rax), MovImm(Rdi, 1), Mov64(Rsi, R12), c);
    var m' := c.m.(r12 := c.m.rax, rdi := Num(1), rsi := c.m.rax);
    assert Run(moves, c) == Running(m');
    AddrCall(m', Gpr(m.core, rs));
  }

  lemma JalrRuns(m: Machine, rs: RegNum, rd: RegNum)
    ensures After(Run(GprToRax(rs) + [Mov64(R12, Rax), MovImm(Rdi, 1), Mov64(Rsi, R12), Call(DoBranchAddr)]
                      + [MovImm(Rdi, rd), Call(DoLink)], Running(m)), m,
                  Link(BranchTo(m.core, true, Gpr(m.core, rs)), rd))
  {
    hide Run, ExecRunning, BranchTo, GprToRax, Gpr, Link;
    var jump := GprToRax(rs) + [Mov64(R12, Rax), MovImm(Rdi, 1), Mov64(Rsi, R12), Call(DoBranchAddr)];
    JalrJump(m, rs);
    RunCat(jump, [MovImm(Rdi, rd), Call(DoLink)], Running(m));
    LinkCall(Run(jump, Running(m)).m, rd);
  }

  // ---- The inlined branch ---------------------------------------------------------------------------

  function TakenCode(imm: nat, i: nat): seq<Instr> {
    [MovPtr(Rax, PcCell), LoadQ(Rcx, Rax), Alu(AddA, true, Rcx, I(Wrap(Signed16(imm) * 4))), MovPtr(Rax, NextPcCell)]
    + [StoreQ(Rax, Rcx), Jmp(Local(i, Done))]
  }

  lemma TargetCode(m: Machine, step: u64)
    ensures Run([MovPtr(Rax, PcCell), LoadQ(Rcx, Rax), Alu(AddA, true, Rcx, I(step)), MovPtr(Rax, NextPcCell)], Running(m)) ==
      Running(m.(rax := Ptr(NextPcCell), rcx := Num(Value(AddA, true, m.core.pc, step)), flags := Undefined))
  {
    hide Run, ExecRunning, Value;
    MoveRules(); CellRules(); ArithRules();
    Run4(MovPtr(Rax, PcCell), LoadQ(Rcx, Rax), Alu(AddA, true, Rcx, I(step)), MovPtr(Rax, NextPcCell), Running(m));
  }

  lemma InlineTaken(m: Machine, imm: nat, i: nat)
    ensures var c := Run(TakenCode(imm, i), Running(m));
      c.Seeking? && c.l == Local(i, Done)
      && After(Running(c.m), m, m.core.(nextPc := OffsetTarget(m.core, imm)))
  {
    hide Run, ExecRunning, CallHelper;
    CellRules(); JumpRules();
    var step := Wrap(Signed16(imm) * 4);
    var target := OffsetTarget(m.core, imm);
    assert Value(AddA, true, m.core.pc, step) == target by { WrapSum(m.core.pc, Signed16(imm) * 4); }
    hide Value, Wrap, OffsetTarget, Signed16;
    var a := [MovPtr(Rax, PcCell), LoadQ(Rcx, Rax), Alu(AddA, true, Rcx, I(step)), MovPtr(Rax, NextPcCell)];
    var b := [StoreQ(Rax, Rcx), Jmp(Local(i, Done))];
    RunCat(a, b, Running(m));
    TargetCode(m, step);
    var m1 := m.(rax := Ptr(NextPcCell), rcx := Num(target), flags := Undefined);
    Run2(StoreQ(Rax, Rcx), Jmp(Local(i, Done)), Running(m1));
  }

  lemma WrapSum(a: nat, b: int)
    ensures Wrap(a + Wrap(b)) == Wrap(a + b)
  {
    var q := b / DOUBLE;
    assert a + b == a + Wrap(b) + q * DOUBLE;
  }

  lemma InlineTest(m: Machine, b: bool, i: nat)
    requires m.rdi == Num(Odd(b))
    ensures var c := Run([MovPtr(Rax, DelayCell), StoreImmB(Rax, true), Test32(Rdi), Jcc(E, Local(i, NotTaken))], Running(m));
      if b then After(c, m, m.core.(delay := true))
      else c.Seeking? && c.l == Local(i, NotTaken) && After(Running(c.m), m, m.core.(delay := true))
  {
    hide Run, ExecRunning, Signed32;
    MoveRules(); CellRules(); Test32Rules(); JumpRules();
    SmallLow(Odd(b));
    hide Lo32;
    Run4(MovPtr(Rax, DelayCell), StoreImmB(Rax, true), Test32(Rdi), Jcc(E, Local(i, NotTaken)), Running(m));
    var m1 := m.(rax := Ptr(DelayCell), core := m.core.(delay := true));
    assert Exec(StoreImmB(Rax, true), Exec(MovPtr(Rax, DelayCell), Running(m))) == Running(m1);
    var c := Exec(Test32(Rdi), Running(m1));
    assert c == Running(m1.(flags := Compared(false, Odd(b) == 0, Signed32(Odd(b)) < 0)));
  }

  lemma NotSelf(s: Core, imm: nat)
    requires Signed16(imm) != -1
    ensures OffsetTarget(s, imm) != Wrap(s.pc - 4)
  {
    var d := Signed16(imm) * 4 + 4;
    assert -0x2_0000 <= d <= 0x2_0000 && d != 0;
    if OffsetTarget(s, imm) == Wrap(s.pc - 4) {
      SameRemainder(s.pc + Signed16(imm) * 4, s.pc - 4);
      assert false;
    }
  }

  lemma SameRemainder(a: int, b: int)
    requires Wrap(a) == Wrap(b)
    ensures (a - b) % DOUBLE == 0
  {
    var p, q := a / DOUBLE, b / DOUBLE;
    assert a - b == (p - q) * DOUBLE;
  }

  lemma InlineEnds(c: Config, i: nat)
    requires c.Running? || (c.Seeking? && (c.l == Local(i, NotTaken) || c.l == Local(i, Done)))
    ensures Run([Lbl(Local(i, NotTaken)), Lbl(Local(i, Done))], c) == Running(c.m)
  {
    hide Run, ExecRunning, CallHelper;
    JumpRules();
    Run2(Lbl(Local(i, NotTaken)), Lbl(Local(i, Done)), c);
  }

  lemma InlineIs(imm: nat, i: nat)
    ensures InlineBranch(imm, i) ==
      [MovPtr(Rax, DelayCell), StoreImmB(Rax, true), Test32(Rdi), Jcc(E, Local(i, NotTaken))]
      + TakenCode(imm, i) + [Lbl(Local(i, NotTaken)), Lbl(Local(i, Done))]
  {
    hide Wrap, Signed16;
  }

  lemma TakenFree(imm: nat, i: nat)
    ensures Free(TakenCode(imm, i), Local(i, NotTaken))
  {
    hide Wrap, Signed16;
  }

  lemma InlineRuns(m: Machine, b: bool, imm: nat, i: nat)
    requires m.rdi == Num(Odd(b)) && Signed16(imm) != -1
    ensures After(Run(InlineBranch(imm, i), Running(m)), m, BranchTo(m.core, b, OffsetTarget(m.core, imm)))
  {
    hide Run, ExecRunning, Exec, OffsetTarget, Signed16, Wrap, Odd, Free, TakenCode;
    var test := [MovPtr(Rax, DelayCell), StoreImmB(Rax, true), Test32(Rdi), Jcc(E, Local(i, NotTaken))];
    var body := TakenCode(imm, i);
    InlineIs(imm, i);
    RunCat(test + body, [Lbl(Local(i, NotTaken)), Lbl(Local(i, Done))], Running(m));
    RunCat(test, body, Running(m));
    InlineTest(m, b, i);
    var c := Run(test, Running(m));
    if b {
      NotSelf(m.core, imm);
      InlineTaken(c.m, imm, i);
      TargetByPc(c.m.core, m.core, imm);
    } else {
      TakenFree(imm, i);
      Skip(body, Local(i, NotTaken), c.m);
    }
    InlineEnds(Run(body, c), i);
  }

  lemma TargetByPc(s: Core, s': Core, imm: nat)
    requires s.pc == s'.pc
    ensures OffsetTarget(s, imm) == OffsetTarget(s', imm)
  {}

  // ---- All branches ---------------------------------------------------------------------------------

  /** Only a branch-likely writes the annul flag: its delay slot is annulled when it is not taken. */
  function Annulled(s: Core, op: IrOp, annul: bool): bool {
    if IsLikely(op.kind) then !Taken(op.kind, Gpr(s, op.rs), Gpr(s, op.rt)) else annul
  }

  lemma JumpRuns(op: IrOp, m: Machine, b: bool, i: nat)
    requires IsConditional(op.kind) && m.rdi == Num(Odd(b))
    ensures After(Run(JumpCode(op, i), Running(m)), m.(annul := if IsLikely(op.kind) then !b else m.annul),
                  if IsLikely(op.kind) then BranchLikelyTo(m.core, b, OffsetTarget(m.core, op.imm))
                  else BranchTo(m.core, b, OffsetTarget(m.core, op.imm)))
  {
    hide Run, ExecRunning, OffsetTarget, BranchTo, BranchLikelyTo, InlineBranch, Odd, Imm32;
    if IsLikely(op.kind) {
      LikelyCall(m, b, op.imm);
    } else if Signed16(op.imm) == -1 {
      OffsetCall(m, b, op.imm);
    } else {
      InlineRuns(m, b, op.imm, i);
    }
  }

  lemma ConditionalRuns(op: IrOp, m: Machine, i: nat)
    requires IsConditional(op.kind)
    ensures var taken := Taken(op.kind, Gpr(m.core, op.rs), Gpr(m.core, op.rt));
      After(Run(ConditionCode(op) + JumpCode(op, i), Running(m)), m.(annul := Annulled(m.core, op, m.annul)),
                  if IsLikely(op.kind) then BranchLikelyTo(m.core, taken, OffsetTarget(m.core, op.imm))
                  else BranchTo(m.core, taken, OffsetTarget(m.core, op.imm)))
  {
    hide Run, ConditionCode, JumpCode, BranchLikelyTo, BranchTo, Taken, Gpr, Odd, OffsetTarget;
    ConditionRuns(op, m);
    RunCat(ConditionCode(op), JumpCode(op, i), Running(m));
    JumpRuns(op, Run(ConditionCode(op), Running(m)).m, Taken(op.kind, Gpr(m.core, op.rs), Gpr(m.core, op.rt)), i);
  }

  lemma LinkAfter(c: Config, m: Machine, s: Core)
    requires After(c, m, s)
    ensures After(Run(LinkCode(), c), m, Link(s, 31))
  {
    hide Run, Link;
    LinkCall(c.m, 31);
  }

  lemma ConditionalBranchRuns(op: IrOp, m: Machine, i: nat)
    requires IsConditional(op.kind)
    ensures After(Run(BranchCode(op, i), Running(m)), m.(annul := Annulled(m.core, op, m.annul)), Branch(m.core, op))
  {
    hide Run, ConditionCode, JumpCode, BranchLikelyTo, BranchTo, Taken, Gpr, OffsetTarget, After, Link, LinkCode;
    ConditionalRuns(op, m, i);
    var code := ConditionCode(op) + JumpCode(op, i);
    var m' := m.(annul := Annulled(m.core, op, m.annul));
    if op.kind.Bltzal? || op.kind.Bgezal? {
      RunCat(code, LinkCode(), Running(m));
      LinkAfter(Run(code, Running(m)), m',
                BranchTo(m.core, Taken(op.kind, Gpr(m.core, op.rs), Gpr(m.core, op.rt)), OffsetTarget(m.core, op.imm)));
    } else {
      assert BranchCode(op, i) == code;
    }
  }

  /** Every branch's code leaves the interpreter's state. */
  lemma BranchRuns(op: IrOp, m: Machine, i: nat)
    requires IsBranch(op.kind)
    ensures After(Run(BranchCode(op, i), Running(m)), m.(annul := Annulled(m.core, op, m.annul)), Branch(m.core, op))
  {
    if IsConditional(op.kind) {
      hide *;
      ConditionalBranchRuns(op, m, i);
    } else {
      hide Run, GprToRax, Gpr, BranchTo, Link, Region, Taken, ConditionCode, JumpCode, OffsetTarget, BranchLikelyTo;
      match op.kind
      case Jr => JrRuns(m, op.rs);
      case Jalr => JalrRuns(m, op.rs, op.rd);
      case J => JumpCall(m, op.target, false);
      case Jal => JumpCall(m, op.target, true);
    }
  }
}
