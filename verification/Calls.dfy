/** Where jumps and branches go, what calls leave to return by, and which instructions run, by the address of the
    instruction (src/cpu/cpu.cpp:109-149, src/cpu/cpu_instruction_impl.cpp:377-391, 497-622). */
module Calls {
  import opened Common
  import opened ByteOrder
  import opened Cpu
  import opened Interp
  import BlockSim
  import EmitMem

  /** About to execute the instruction at s.pc, with no branch before it. */
  predicate Sequential(s: Core) { s.nextPc == Wrap(s.pc + 4) }

  /** The distance a branch's offset field stands for, in bytes. */
  function Distance(imm: nat): int {
    var field := imm % 0x1_0000;
    if field >= 0x8000 then 4 * field - 0x4_0000 else 4 * field
  }

  /** The branch conditions, on two's complement registers: negative means the top bit is set. */
  predicate Condition(k: Kind, rs: u64, rt: u64) {
    var negative := rs >= 0x8000_0000_0000_0000;
    match k
    case Beq | Beql => rs == rt
    case Bne | Bnel => rs != rt
    case Blez | Blezl => negative || rs == 0
    case Bgtz | Bgtzl => !negative && rs != 0
    case Bltz | Bltzl | Bltzal => negative
    case _ => !negative
  }

  predicate IsCall(op: IrOp) { op.kind.Jal? || op.kind.Jalr? || op.kind.Bltzal? || op.kind.Bgezal? }

  function LinkRegister(op: IrOp): RegNum { if op.kind.Jalr? then op.rd else 31 }

  /** The target of a jump or a taken branch at A: the branch target counts from the delay slot, the jump's 256 MiB
      region is that of the jump. */
  function Target(s: Core, op: IrOp): u64 {
    if op.kind.J? || op.kind.Jal? then s.pc / 0x1000_0000 * 0x1000_0000 + op.target % 0x400_0000 * 4
    else if op.kind.Jr? || op.kind.Jalr? then Gpr(s, op.rs)
    else (s.pc + 4 + Distance(op.imm)) % DOUBLE
  }

  predicate Goes(s: Core, op: IrOp) {
    !IsConditional(op.kind) || Condition(op.kind, Gpr(s, op.rs), Gpr(s, op.rt))
  }

  // ---- Pieces ---------------------------------------------------------------------------------------

  function Fetched(s: Core): Core { NextInstruction(RetireDelaySlot(s)) }

  lemma FetchedPc(s: Core)
    requires Sequential(s)
    ensures var f := Fetched(s);
      f.pc == Wrap(s.pc + 4) && f.nextPc == Wrap(s.pc + 8) && f.gpr == s.gpr && Wrap(f.pc - 4) == s.pc
      && f.selfBranches == s.selfBranches
  {
    BlockSim.WrapStep(s.pc + 4, 4);
    BlockSim.WrapStep(s.pc + 4, -4);
    Euclid(s.pc, DOUBLE, 0, s.pc);
    hide Wrap;
  }

  lemma ConditionIsTaken(k: Kind, rs: u64, rt: u64)
    requires IsConditional(k)
    ensures Taken(k, rs, rt) == Condition(k, rs, rt)
  {}

  lemma OffsetIsTarget(s: Core, imm: nat)
    requires Sequential(s)
    ensures OffsetTarget(Fetched(s), imm) == (s.pc + 4 + Distance(imm)) % DOUBLE
  {
    FetchedPc(s);
    BlockSim.WrapStep(s.pc + 4, Signed16(imm) * 4);
    hide Fetched;
  }

  lemma RegionIsTarget(s: Core, target: nat)
    requires Sequential(s)
    ensures s.pc / 0x1000_0000 * 0x1000_0000 + target % 0x400_0000 * 4 < DOUBLE
    ensures Region(Fetched(s), target) == s.pc / 0x1000_0000 * 0x1000_0000 + target % 0x400_0000 * 4
  {
    FetchedPc(s);
    hide Fetched, Wrap;
  }

  lemma LinkWrites(s: Core, f: Core, r: RegNum)
    requires f.pc == Wrap(s.pc + 4)
    ensures Link(f, r) == SetGpr(f, r, Wrap(s.pc + 8))
  {
    BlockSim.WrapStep(s.pc + 4, 4);
    hide Wrap, SetGpr;
  }

  // ---- One jump or branch ---------------------------------------------------------------------------

  /** A call leaves the address behind its delay slot in the link register, taken or not, and no jump or branch
      changes another register. */
  lemma LinksPastTheSlot(s: Core, op: IrOp)
    requires Sequential(s) && IsBranch(op.kind)
    ensures Arch(s, op).gpr == if IsCall(op) && LinkRegister(op) != 0 then s.gpr[LinkRegister(op) := Wrap(s.pc + 8)] else s.gpr
  {
    hide Branch, Wrap, Taken, OffsetTarget, Region, Link, Execute, BranchTo, BranchLikelyTo;
    FetchedPc(s);
    var f := Fetched(s);
    ExecuteIsBranch(f, op);
    LinkWrites(s, f, 31);
    if IsConditional(op.kind) {
      var taken := Taken(op.kind, Gpr(f, op.rs), Gpr(f, op.rt));
      ConditionalRule(f, op);
      GprStays(f, taken, OffsetTarget(f, op.imm));
      LinkWrites(s, BranchTo(f, taken, OffsetTarget(f, op.imm)), 31);
    } else {
      JumpRule(f, op);
      GprStays(f, true, Gpr(f, op.rs));
      GprStays(f, true, Region(f, op.target));
      GprStays(Link(f, 31), true, Region(f, op.target));
      LinkWrites(s, BranchTo(f, true, Gpr(f, op.rs)), LinkRegister(op));
    }
  }

  lemma ExecuteIsBranch(f: Core, op: IrOp)
    requires IsBranch(op.kind)
    ensures Execute(f, op) == Branch(f, op)
  {
    hide Branch, Memory, HiLo, AluResult;
  }

  lemma JumpRule(f: Core, op: IrOp)
    ensures op.kind.Jr? ==> Branch(f, op) == BranchTo(f, true, Gpr(f, op.rs))
    ensures op.kind.Jalr? ==> Branch(f, op) == Link(BranchTo(f, true, Gpr(f, op.rs)), op.rd)
    ensures op.kind.J? ==> Branch(f, op) == BranchTo(f, true, Region(f, op.target))
    ensures op.kind.Jal? ==> Branch(f, op) == BranchTo(Link(f, 31), true, Region(f, op.target))
  {
    hide BranchTo, BranchLikelyTo, Link, Gpr, Taken, OffsetTarget, Region, IsLikely;
  }

  lemma ConditionalRule(f: Core, op: IrOp)
    requires IsConditional(op.kind)
    ensures var taken := Taken(op.kind, Gpr(f, op.rs), Gpr(f, op.rt));
      Branch(f, op) ==
        if op.kind.Bltzal? || op.kind.Bgezal? then Link(BranchTo(f, taken, OffsetTarget(f, op.imm)), 31)
        else if IsLikely(op.kind) then BranchLikelyTo(f, taken, OffsetTarget(f, op.imm))
        else BranchTo(f, taken, OffsetTarget(f, op.imm))
  {
    hide BranchTo, BranchLikelyTo, Link, Gpr, Taken, OffsetTarget, Region;
  }

  lemma GprStays(s: Core, taken: bool, target: u64)
    ensures BranchTo(s, taken, target).gpr == BranchLikelyTo(s, taken, target).gpr == s.gpr
    ensures BranchTo(s, taken, target).pc == s.pc
  {
    hide Wrap;
  }

  lemma LinkStays(s: Core, r: RegNum)
    ensures var s' := Link(s, r);
      s'.pc == s.pc && s'.nextPc == s.nextPc && s'.delay == s.delay && s'.selfBranches == s.selfBranches
  {
    hide Wrap;
  }

  lemma Destination(s: Core, taken: bool, target: u64)
    ensures BranchTo(s, taken, target).selfBranches == BranchLikelyTo(s, taken, target).selfBranches
      == s.selfBranches + (if taken && target == Wrap(s.pc - 4) then 1 else 0)
    ensures var s' := BranchTo(s, taken, target);
      s'.delay && s'.pc == s.pc && s'.nextPc == if taken then target else s.nextPc
    ensures var s' := BranchLikelyTo(s, taken, target);
      s'.delay && (if taken then s'.pc == s.pc && s'.nextPc == target
                   else s'.pc == Wrap(s.pc + 4) && s'.nextPc == Wrap(Wrap(s.pc + 4) + 4))
  {
    hide Wrap;
  }

  /** Where the program counters stand after a jump or branch at A; one to itself is reported to the idle skipper. */
  predicate Arrives(s: Core, op: IrOp, s': Core) {
    && s'.delay
    && s'.selfBranches == s.selfBranches + (if Goes(s, op) && Target(s, op) == s.pc then 1 else 0)
    && (if Goes(s, op) then s'.pc == Wrap(s.pc + 4) && s'.nextPc == Target(s, op)
        else if IsLikely(op.kind) then s'.pc == Wrap(s.pc + 8) && s'.nextPc == Wrap(s.pc + 12)
        else s'.pc == Wrap(s.pc + 4) && s'.nextPc == Wrap(s.pc + 8))
  }

  /** After a jump or branch at A the delay slot at A + 4 is next and then the target, when it is taken; when it is not,
      the delay slot and A + 8, or for a branch-likely A + 8 without the delay slot. */
  lemma RunsTheSlotThenTheTarget(s: Core, op: IrOp)
    requires Sequential(s) && IsBranch(op.kind)
    ensures Arrives(s, op, Arch(s, op))
  {
    hide Execute, Branch, Arrives;
    ExecuteIsBranch(Fetched(s), op);
    if IsConditional(op.kind) { BranchArrives(s, op); } else { JumpArrives(s, op); }
  }

  lemma JumpArrives(s: Core, op: IrOp)
    requires Sequential(s) && IsBranch(op.kind) && !IsConditional(op.kind)
    ensures Arrives(s, op, Branch(Fetched(s), op))
  {
    hide Fetched, Branch, Wrap, Condition, Region, Link, Gpr, BranchTo, Distance;
    var f := Fetched(s);
    FetchedPc(s);
    JumpRule(f, op);
    SameGpr(s, f, op.rs);
    if op.kind.J? || op.kind.Jal? {
      RegionIsTarget(s, op.target);
      LinkStays(f, 31);
      Destination(f, true, Region(f, op.target));
      Destination(Link(f, 31), true, Region(f, op.target));
    } else {
      Destination(f, true, Gpr(f, op.rs));
      LinkStays(BranchTo(f, true, Gpr(f, op.rs)), op.rd);
    }
  }

  lemma BranchArrives(s: Core, op: IrOp)
    requires Sequential(s) && IsConditional(op.kind)
    ensures Arrives(s, op, Branch(Fetched(s), op))
  {
    hide Fetched, Branch, Wrap, Taken, Condition, OffsetTarget, Link, Gpr, BranchTo, BranchLikelyTo, Distance;
    var f := Fetched(s);
    FetchedPc(s);
    BlockSim.WrapStep(s.pc + 4, 4);
    BlockSim.WrapStep(s.pc + 8, 4);
    ConditionalRule(f, op);
    SameGpr(s, f, op.rs);
    SameGpr(s, f, op.rt);
    ConditionIsTaken(op.kind, Gpr(s, op.rs), Gpr(s, op.rt));
    OffsetIsTarget(s, op.imm);
    var taken := Taken(op.kind, Gpr(f, op.rs), Gpr(f, op.rt));
    Destination(f, taken, OffsetTarget(f, op.imm));
    LinkStays(BranchTo(f, taken, OffsetTarget(f, op.imm)), 31);
  }

  lemma SameGpr(s: Core, f: Core, r: RegNum)
    requires f.gpr == s.gpr
    ensures Gpr(s, r) == Gpr(f, r)
  {}

  // ---- Call and return ------------------------------------------------------------------------------

  /** An instruction that is no branch and takes no exception. */
  predicate Plain(s: Core, op: IrOp) { !IsBranch(op.kind) && !(IsMem(op.kind) && EmitMem.Aborts(Fetched(s), op)) }

  lemma PlainAdvances(s: Core, op: IrOp)
    requires Plain(s, op)
    ensures Arch(s, op).pc == s.nextPc && Arch(s, op).nextPc == Wrap(s.nextPc + 4)
  {
    hide Execute, Wrap, EmitMem.Aborts;
    BlockSim.FallsThrough(Fetched(s), op, true);
  }

  /** A subroutine is entered with the call's delay slot done, and returning from it with JR to the register the call
      linked, delay slot done again, comes back behind the call's delay slot. */
  lemma CallReturns(s: Core, call: IrOp, slot: IrOp, r: Core, ret: IrOp, slot': IrOp)
    requires Sequential(s) && IsCall(call) && Goes(s, call) && LinkRegister(call) != 0 && Plain(Arch(s, call), slot)
    requires Sequential(r) && Gpr(r, LinkRegister(call)) == Gpr(Arch(s, call), LinkRegister(call))
    requires ret.kind.Jr? && ret.rs == LinkRegister(call) && Plain(Arch(r, ret), slot')
    ensures var callee := Arch(Arch(s, call), slot); callee.pc == Target(s, call) && Sequential(callee)
    ensures var back := Arch(Arch(r, ret), slot'); back.pc == Wrap(s.pc + 8) && Sequential(back)
  {
    hide Arch, Plain, Wrap, Target, Goes, Distance;
    LinksPastTheSlot(s, call);
    RunsTheSlotThenTheTarget(s, call);
    PlainAdvances(Arch(s, call), slot);
    RunsTheSlotThenTheTarget(r, ret);
    AlwaysGoes(r, ret);
    PlainAdvances(Arch(r, ret), slot');
  }

  lemma AlwaysGoes(r: Core, ret: IrOp)
    requires ret.kind.Jr?
    ensures Goes(r, ret) && Target(r, ret) == Gpr(r, ret.rs)
  {}
}
