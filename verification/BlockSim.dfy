/** A compiled block is the interpreter, iterated: the same registers, memory, program counters and delay
    flags, and the same COUNT and timer interrupt although COUNT moves only once
    (src/cpu/jit/emit_x64.cpp:131-183, src/cpu/cached_interp.cpp:145-193). */
module BlockSim {
  import opened Bits
  import opened ByteOrder
  import opened Cpu
  import opened Interp
  import opened Timer
  import opened X86
  import opened Emitter
  import opened EmitBranch
  import opened EmitMem
  import opened EmitBlock
  import Tlb
  import SoftTlb

  /** Translation ends a block after a branch and its delay slot. */
  predicate Straight(ops: seq<IrOp>) { forall i :: 0 <= i < |ops| - 2 ==> !IsBranch(ops[i].kind) }

  /** The block holds what the interpreter would fetch from its addresses. */
  ghost predicate Compiled(s: Core, ops: seq<IrOp>, code: nat -> IrOp, p: nat) {
    forall i :: 0 <= i < |ops| ==>
      SoftTlb.Resolve(s.es, s.c.hi, Lo32(Wrap(s.pc + 4 * i)), Tlb.Load) == Tlb.Hit(p + 4 * i) && code(p + 4 * i) == ops[i]
  }

  /** No interrupt becomes deliverable while the block runs. */
  ghost predicate Quiet(s: Core, t: Timer, ops: seq<IrOp>) {
    forall i :: 0 <= i < |ops| ==> QuietAt(s, t, ops, i)
  }

  ghost predicate QuietAt(s: Core, t: Timer, ops: seq<IrOp>, i: nat)
    requires i < |ops|
  {
    var p := Block(s, ops, i);
    !p.exited ==> !ShouldService(p.core, AddCount(t, i))
  }

  // ---- Program counters inside a block --------------------------------------------------------------

  lemma TransferKeepsPc(s: Core, op: IrOp, p: nat)
    ensures Transfer(s, op, p).pc == s.pc && Transfer(s, op, p).nextPc == s.nextPc
  {
    hide MergeLoad, MergeStore, Extend, Address, Write, Read;
  }

  lemma MemoryKeepsPc(s: Core, op: IrOp)
    requires IsMem(op.kind) && !Aborts(s, op)
    ensures var s' := Memory(s, op); s'.pc == s.pc && s'.nextPc == s.nextPc && SameMmu(s, s')
  {
    hide Transfer, SoftTlb.Resolve, Address, AccessOf;
    var p := SoftTlb.Resolve(s.es, s.c.hi, Address(s, op), AccessOf(op.kind)).paddr;
    TransferKeepsPc(s, op, p);
    TransferKeepsMmu(s, op);
  }

  lemma HiLoKeepsPc(s: Core, op: IrOp)
    ensures HiLo(s, op).pc == s.pc && HiLo(s, op).nextPc == s.nextPc
  {
    hide Quotient, Remainder, Sext32, Wrap;
  }

  /** An operation that takes no exit and is no branch falls through. */
  lemma FallsThrough(s: Core, op: IrOp, last: bool)
    requires !IsBranch(op.kind) && !Exits(s, op, last)
    ensures var s' := Execute(s, op); s'.pc == s.pc && s'.nextPc == s.nextPc && SameMmu(s, s')
  {
    hide AluResult, Memory, HiLo, Aborts, Annulled;
    if IsMem(op.kind) { MemoryKeepsPc(s, op); }
    HiLoKeepsPc(s, op);
    HiLoKeepsMmu(s, op);
  }

  lemma PiecesKeepPc(s: Core, b: bool, t: u64, r: RegNum)
    ensures BranchTo(s, b, t).pc == s.pc && Link(s, r).pc == s.pc
    ensures b ==> BranchLikelyTo(s, b, t).pc == s.pc
  {
    hide Wrap;
  }

  lemma BranchKeepsPc(s: Core, op: IrOp)
    requires IsBranch(op.kind) && !Exits(s, op, false)
    ensures Branch(s, op).pc == s.pc && SameMmu(s, Branch(s, op))
  {
    hide Taken, OffsetTarget, Region, BranchTo, BranchLikelyTo, Link, Gpr, Aborts;
    BranchKeepsMmu(s, op);
    var taken := Taken(op.kind, Gpr(s, op.rs), Gpr(s, op.rt));
    PiecesKeepPc(s, true, Gpr(s, op.rs), 31);
    PiecesKeepPc(s, true, Region(s, op.target), 31);
    PiecesKeepPc(s, taken, OffsetTarget(s, op.imm), 31);
    match op.kind
    case Jal => PiecesKeepPc(Link(s, 31), true, Region(s, op.target), 31);
    case Jalr => PiecesKeepPc(BranchTo(s, true, Gpr(s, op.rs)), true, 0, op.rd);
    case Bltzal | Bgezal => PiecesKeepPc(BranchTo(s, taken, OffsetTarget(s, op.imm)), true, 0, 31);
    case _ =>
  }

  lemma WrapStep(a: int, b: int)
    ensures Wrap(Wrap(a) + b) == Wrap(a + b)
  {
    var q := a / DOUBLE;
    assert a + b == Wrap(a) + b + q * DOUBLE;
  }

  /** Before its last operation a block that has not exited runs at consecutive addresses, and its address
      space is the one it was entered with. */
  lemma {:induction false} PcAt(s: Core, ops: seq<IrOp>, i: nat)
    requires i < |ops| && Straight(ops) && s.nextPc == Wrap(s.pc + 4)
    ensures var p := Block(s, ops, i);
      !p.exited ==>
        && p.count == i && p.core.pc == Wrap(s.pc + 4 * i) && SameMmu(s, p.core)
        && (i + 1 < |ops| ==> p.core.nextPc == Wrap(s.pc + 4 * (i + 1)))
  {
    hide Execute, Branch, Exits, Wrap;
    var p := Block(s, ops, i);
    if i == 0 {
      WrapSmall(s.pc);
    } else if !p.exited {
      PcAt(s, ops, i - 1);
      var q := Block(s, ops, i - 1);
      var op := ops[i - 1];
      if IsBranch(op.kind) {
        assert i == |ops| - 1;
        BranchKeepsPc(Fetched(q.core), op);
        ExecuteBranch(Fetched(q.core), op);
      } else {
        FallsThrough(Fetched(q.core), op, i == |ops|);
        WrapStep(s.pc + 4 * i, 4);
      }
    }
  }

  lemma WrapSmall(x: u64)
    ensures Wrap(x + 4 * 0) == x
  {}

  lemma ExecuteBranch(s: Core, op: IrOp)
    requires IsBranch(op.kind)
    ensures Execute(s, op) == Branch(s, op)
  {
    hide Branch, AluResult, Memory, HiLo;
  }

  // ---- The simulation -------------------------------------------------------------------------------

  /** The interpreter's machine after as many steps as the block has counted. */
  ghost predicate Matches(x: System, code: nat -> IrOp, p: Progress) {
    var y := Iterate(x, code, p.count);
    && y.core == p.core && Coherent(y.core, y.tables)
    && y.timer == AddCount(x.timer, p.count)
  }

  lemma {:induction false} IterateMatches(x: System, code: nat -> IrOp, p: nat, ops: seq<IrOp>, n: nat)
    requires n <= |ops| && Straight(ops) && x.core.nextPc == Wrap(x.core.pc + 4)
    requires Coherent(x.core, x.tables) && x.timer.Valid()
    requires Compiled(x.core, ops, code, p) && Quiet(x.core, x.timer, ops)
    ensures Matches(x, code, Block(x.core, ops, n))
  {
    hide Interp.Step, Arch, SoftTlb.Coherent, SoftTlb.Resolve, Wrap, Lo32, ShouldService, Exits, AddCount;
    if n == 0 {
      AddNothing(x.timer);
    } else {
      IterateMatches(x, code, p, ops, n - 1);
      var q := Block(x.core, ops, n - 1);
      if !q.exited {
        PcAt(x.core, ops, n - 1);
        assert QuietAt(x.core, x.timer, ops, n - 1);
        var y := Iterate(x, code, n - 1);
        StepIsArch(y, code, p + 4 * (n - 1));
        AddCountAdd(x.timer, n - 1, 1);
      }
    }
  }

  lemma AddNothing(t: Timer)
    ensures AddCount(t, 0) == t
  {}

  /** What the emitted code and the interpreter have in common at the end of a block. */
  ghost predicate SameSystem(m: Machine, y: System) {
    m.core == y.core && m.timer == y.timer && Coherent(m.core, m.tables) && Coherent(y.core, y.tables)
  }

  /** The compiled block, entered as the dispatcher enters it, leaves the machine the interpreter reaches in
      exactly the number of steps it reports: through aborted memory accesses, annulled delay slots, and all
      three paths of every load and store. */
  lemma BlockIsInterpreter(x: System, m: Machine, code: nat -> IrOp, p: nat, ops: seq<IrOp>)
    requires |ops| < WORD && Straight(ops) && x.core.nextPc == Wrap(x.core.pc + 4)
    requires Coherent(x.core, x.tables) && x.timer.Valid()
    requires Compiled(x.core, ops, code, p) && Quiet(x.core, x.timer, ops) && ShiftsExact(x.core, ops)
    requires m.core == x.core && m.tables == x.tables && m.timer == x.timer && !m.aborted && !m.annul
    ensures var c := Run(BlockCode(ops), Running(m));
      c.Running? && c.m.rax.Num? && SameSystem(c.m, Iterate(x, code, c.m.rax.n))
  {
    hide Run, BlockCode, Block, Iterate, SoftTlb.Coherent, Compiled, Quiet, ShiftsExact, Wrap, AddCount;
    BlockRuns(ops, m);
    IterateMatches(x, code, p, ops, |ops|);
  }

  // ---- The preconditions in simpler terms -----------------------------------------------------------

  lemma FetchInPage(es: Tlb.Entries, hi: nat, va: Tlb.u32, k: nat, p: nat)
    requires va % 0x1000 + k < 0x1000 && SoftTlb.Resolve(es, hi, va, Tlb.Load) == Tlb.Hit(p)
    ensures va + k < WORD && SoftTlb.Resolve(es, hi, va + k, Tlb.Load) == Tlb.Hit(p + k)
  {
    hide SoftTlb.Resolve;
    assert va + k < WORD && (va + k) / 0x1000 == va / 0x1000;
    SoftTlb.ResolveByPage(es, hi, va, va + k, Tlb.Load);
  }

  /** Within one 4 KiB page it is enough that the first address translates. */
  lemma CompiledInPage(s: Core, ops: seq<IrOp>, code: nat -> IrOp, p: nat)
    requires Lo32(s.pc) % 0x1000 + 4 * |ops| <= 0x1000
    requires SoftTlb.Resolve(s.es, s.c.hi, Lo32(s.pc), Tlb.Load) == Tlb.Hit(p)
    requires forall i :: 0 <= i < |ops| ==> code(p + 4 * i) == ops[i]
    ensures Compiled(s, ops, code, p)
  {
    hide SoftTlb.Resolve, Wrap;
    forall i | 0 <= i < |ops|
      ensures SoftTlb.Resolve(s.es, s.c.hi, Lo32(Wrap(s.pc + 4 * i)), Tlb.Load) == Tlb.Hit(p + 4 * i)
    {
      FetchInPage(s.es, s.c.hi, Lo32(s.pc), 4 * i, p);
      LowOfPc(s.pc, 4 * i);
    }
  }

  lemma LowOfPc(pc: u64, k: nat)
    requires pc % WORD + k < WORD
    ensures Lo32(Wrap(pc + k)) == Lo32(pc) + k
  {}

  /** With interrupts masked at entry, no block is ever interrupted. */
  lemma {:induction false} MaskedIsQuiet(s: Core, t: Timer, ops: seq<IrOp>)
    requires !s.ex.ie || s.ex.exl || s.ex.erl
    ensures Quiet(s, t, ops)
  {
    forall i | 0 <= i < |ops| ensures QuietAt(s, t, ops, i) {
      StaysMasked(s, ops, i);
    }
  }

  lemma {:induction false} StaysMasked(s: Core, ops: seq<IrOp>, i: nat)
    requires i <= |ops| && (!s.ex.ie || s.ex.exl || s.ex.erl)
    ensures var e := Block(s, ops, i).core.ex; !e.ie || e.exl || e.erl
  {
    hide Execute, Exits;
    if i > 0 {
      StaysMasked(s, ops, i - 1);
      ExecuteKeepsMask(Fetched(Block(s, ops, i - 1).core), ops[i - 1]);
    }
  }

  lemma ExecuteKeepsMask(s: Core, op: IrOp)
    requires !s.ex.ie || s.ex.exl || s.ex.erl
    ensures var e := Execute(s, op).ex; !e.ie || e.exl || e.erl
  {
    hide AluResult, Memory, HiLo, Branch;
    MemoryKeepsMask(s, op);
    HiLoKeepsMask(s, op);
    BranchKeepsMask(s, op);
  }

  lemma MemoryKeepsMask(s: Core, op: IrOp)
    requires !s.ex.ie || s.ex.exl || s.ex.erl
    ensures var e := Memory(s, op).ex; !e.ie || e.exl || e.erl
  {
    hide SoftTlb.Resolve, Address, AccessOf, MergeLoad, MergeStore, Extend, Write, Read, Tlb.OnException, Vector, Wrap, Sext32;
  }

  lemma HiLoKeepsMask(s: Core, op: IrOp)
    ensures HiLo(s, op).ex == s.ex
  {
    hide Quotient, Remainder, Sext32, Wrap;
  }

  lemma PiecesKeepMask(s: Core, b: bool, t: u64, r: RegNum)
    ensures BranchTo(s, b, t).ex == s.ex && BranchLikelyTo(s, b, t).ex == s.ex && Link(s, r).ex == s.ex
  {
    hide Wrap;
  }

  lemma BranchKeepsMask(s: Core, op: IrOp)
    ensures Branch(s, op).ex == s.ex
  {
    hide Taken, OffsetTarget, Region, BranchTo, BranchLikelyTo, Link, Gpr;
    var taken := Taken(op.kind, Gpr(s, op.rs), Gpr(s, op.rt));
    PiecesKeepMask(s, true, Gpr(s, op.rs), 31);
    PiecesKeepMask(s, true, Region(s, op.target), 31);
    PiecesKeepMask(s, taken, OffsetTarget(s, op.imm), 31);
    match op.kind
    case Jal => PiecesKeepMask(Link(s, 31), true, Region(s, op.target), 31);
    case Jalr => PiecesKeepMask(BranchTo(s, true, Gpr(s, op.rs)), true, 0, op.rd);
    case Bltzal | Bgezal => PiecesKeepMask(BranchTo(s, taken, OffsetTarget(s, op.imm)), true, 0, 31);
    case _ =>
  }

  // ---- Blocks with interrupts enabled ---------------------------------------------------------------

  /** The interrupt sources and their masks; bus accesses only add to what the devices have seen. */
  ghost predicate SameSources(s: Core, s': Core) {
    && s'.ex.other == s.ex.other && s'.ex.maskMi == s.ex.maskMi && s'.ex.maskTimer == s.ex.maskTimer
    && s'.dev.line == s.dev.line && s.dev.seen <= s'.dev.seen
  }

  /** With interrupts enabled, no block is interrupted that ends before COUNT reaches COMPARE and whose bus accesses
      do not raise the devices' line. */
  lemma EnabledIsQuiet(s: Core, t: Timer, ops: seq<IrOp>)
    requires !s.ex.other
    requires s.ex.maskTimer ==> !t.ip7 && |ops| <= t.Distance()
    requires s.ex.maskMi ==> forall more: seq<BusAccess> :: !s.dev.line(s.dev.seen + more)
    ensures Quiet(s, t, ops)
  {
    hide Block;
    forall i | 0 <= i < |ops| ensures QuietAt(s, t, ops, i) {
      SourcesStay(s, ops, i);
      var s' := Block(s, ops, i).core;
      assert s'.dev.seen == s.dev.seen + s'.dev.seen[|s.dev.seen|..];
    }
  }

  lemma {:induction false} SourcesStay(s: Core, ops: seq<IrOp>, i: nat)
    requires i <= |ops|
    ensures SameSources(s, Block(s, ops, i).core)
  {
    hide Execute, Exits;
    if i > 0 {
      SourcesStay(s, ops, i - 1);
      ExecuteKeepsSources(Fetched(Block(s, ops, i - 1).core), ops[i - 1]);
    }
  }

  lemma ExecuteKeepsSources(s: Core, op: IrOp)
    ensures SameSources(s, Execute(s, op))
  {
    hide AluResult, Memory, HiLo, Branch;
    MemoryKeepsSources(s, op);
    HiLoKeepsMask(s, op);
    HiLoKeepsDevices(s, op);
    BranchKeepsMask(s, op);
    BranchKeepsDevices(s, op);
  }

  lemma MemoryKeepsSources(s: Core, op: IrOp)
    ensures SameSources(s, Memory(s, op))
  {
    hide SoftTlb.Resolve, Address, AccessOf, MergeLoad, MergeStore, Extend, Write, Read, Tlb.OnException, Vector, Wrap, Sext32;
  }

  lemma HiLoKeepsDevices(s: Core, op: IrOp)
    ensures HiLo(s, op).dev == s.dev
  {
    hide Quotient, Remainder, Sext32, Wrap;
  }

  lemma PiecesKeepDevices(s: Core, b: bool, t: u64, r: RegNum)
    ensures BranchTo(s, b, t).dev == s.dev && BranchLikelyTo(s, b, t).dev == s.dev && Link(s, r).dev == s.dev
  {
    hide Wrap;
  }

  lemma BranchKeepsDevices(s: Core, op: IrOp)
    ensures Branch(s, op).dev == s.dev
  {
    hide Taken, OffsetTarget, Region, BranchTo, BranchLikelyTo, Link, Gpr;
    var taken := Taken(op.kind, Gpr(s, op.rs), Gpr(s, op.rt));
    PiecesKeepDevices(s, true, Gpr(s, op.rs), 31);
    PiecesKeepDevices(s, true, Region(s, op.target), 31);
    PiecesKeepDevices(s, taken, OffsetTarget(s, op.imm), 31);
    match op.kind
    case Jal => PiecesKeepDevices(Link(s, 31), true, Region(s, op.target), 31);
    case Jalr => PiecesKeepDevices(BranchTo(s, true, Gpr(s, op.rs)), true, 0, op.rd);
    case Bltzal | Bgezal => PiecesKeepDevices(BranchTo(s, taken, OffsetTarget(s, op.imm)), true, 0, 31);
    case _ =>
  }
}
