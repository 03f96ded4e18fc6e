/** The R4300 as the object the emulator updates in place: the functions of src/cpu/cpu.cpp, the instruction
    implementations of src/cpu/cpu_instruction_impl.cpp, and the interpreter's step
    (src/cpu/cached_interp.cpp:145-193). */
module CpuDevice {
  import opened Bits
  import opened Common
  import opened ByteOrder
  import opened Cpu
  import I = Interp
  import T = Timer
  import Tlb
  import SoftTlb
  import U = MmuUnit

  class R4300 {
    const gpr: array<u64>
    const rdram: array<byte>
    const mmu: U.MmuUnit
    var hi: u64
    var lo: u64
    var delay: bool
    var prevDelay: bool
    var prevPc: u64
    var pc: u64
    var nextPc: u64
    var ex: Exceptions
    var dev: Devices
    var selfBranches: nat
    var timer: T.Timer

    ghost predicate Valid() {
      && gpr.Length == 32 && rdram.Length == SoftTlb.RDRAM_SIZE && mmu.Valid()
      && (gpr as object) != mmu.load && (gpr as object) != mmu.store && (gpr as object) != mmu.entries && (gpr as object) != rdram
      && (rdram as object) != mmu.load && (rdram as object) != mmu.store && (rdram as object) != mmu.entries
    }

    constructor (mmu: U.MmuUnit, ex: Exceptions, dev: Devices)
      requires mmu.Valid()
      ensures Valid() && fresh(gpr) && fresh(rdram) && this.mmu == mmu
    {
      gpr := new u64[32](_ => 0);
      rdram := new byte[SoftTlb.RDRAM_SIZE](_ => 0);
      this.mmu := mmu;
      hi, lo, delay, prevDelay, prevPc, pc, nextPc := 0, 0, false, false, 0, 0, 4;
      this.ex, this.dev, selfBranches := ex, dev, 0;
      timer := T.Timer(0, 0, false);
    }

    ghost function State(): Core
      reads this, gpr, rdram, mmu, mmu.entries
      requires Valid()
    {
      Core(gpr[..], hi, lo, delay, prevDelay, prevPc, pc, nextPc, ex, mmu.entries[..], mmu.c, rdram[..], dev, selfBranches)
    }

    ghost function TablesOf(): I.Tables
      reads this, mmu, mmu.load, mmu.store
      requires Valid()
    {
      I.Tables(mmu.load[..], mmu.store[..])
    }

    // ---- Registers and program counters -------------------------------------------------------------

    method WriteGpr(r: RegNum, v: u64)
      requires Valid()
      modifies gpr
      ensures State() == SetGpr(old(State()), r, v)
    {
      if r != 0 { gpr[r] := v; }
    }

    method ReadGpr(r: RegNum) returns (v: u64)
      requires Valid()
      ensures v == Gpr(State(), r)
    {
      v := if r == 0 then 0 else gpr[r];
    }

    method Retire()
      requires Valid()
      modifies this`prevDelay, this`delay
      ensures State() == RetireDelaySlot(old(State()))
    {
      prevDelay := delay;
      delay := false;
    }

    method Advance()
      requires Valid()
      modifies this`prevPc, this`pc, this`nextPc
      ensures State() == NextInstruction(old(State()))
    {
      hide Wrap;
      prevPc := pc;
      pc := nextPc;
      nextPc := Wrap(nextPc + 4);
    }

    method SetPc64(v: u64)
      requires Valid()
      modifies this`prevPc, this`pc, this`nextPc
      ensures State() == SetPc(old(State()), v)
    {
      hide Wrap;
      prevPc := pc;
      pc := v;
      nextPc := Wrap(v + 4);
    }

    method AddCount(n: nat)
      modifies this`timer
      ensures timer == T.AddCount(old(timer), n)
    {
      if n == 0 { return; }
      var dist := timer.Distance();
      timer := timer.(count := (timer.count + n) % T.WRAP);
      if dist <= n { timer := timer.(ip7 := true); }
    }

    // ---- Exceptions ---------------------------------------------------------------------------------

    /** EPC and the branch-delay bit are set only when no exception is being handled already. */
    method SaveContext(usePrevPc: bool)
      requires Valid()
      modifies this`ex
      ensures var s := old(State());
        var epc := if usePrevPc then s.prevPc else s.pc;
        State() == s.(ex := if s.ex.exl then s.ex
                            else s.ex.(exl := true, branchDelay := s.prevDelay, epc := Wrap(if s.prevDelay then epc - 4 else epc)))
    {
      hide Wrap;
      var at := if usePrevPc then prevPc else pc;
      if !ex.exl { ex := ex.(exl := true, branchDelay := prevDelay, epc := Wrap(if prevDelay then at - 4 else at)); }
    }

    method RaiseException(code: nat, usePrevPc: bool, error: Tlb.Error)
      requires Valid()
      modifies this`ex, this`prevPc, this`pc, this`nextPc
      ensures State() == HandleException(old(State()), code, usePrevPc, error)
    {
      hide Wrap, Sext32;
      var vector := VectorFor(code, error);
      SaveContext(usePrevPc);
      ex := ex.(code := code, copError := 0);
      SetPc64(Sext32(vector));
    }

    method VectorFor(code: nat, error: Tlb.Error) returns (v: nat)
      requires Valid()
      ensures v == Vector(State(), code, error) && v < WORD
    {
      if code != TLB_MISS_LOAD && code != TLB_MISS_STORE { return 0x8000_0180; }
      if ex.exl || error.Invalid? { return 0x8000_0180; }
      var region := mmu.c.badVaddr / 0x4000_0000_0000_0000;
      var wide := if region == 0 then ex.ux else if region == 1 then ex.sx else ex.kx;
      v := if wide then 0x8000_0080 else 0x8000_0000;
    }

    // ---- Branches -----------------------------------------------------------------------------------

    method BranchAddress(taken: bool, target: u64)
      requires Valid()
      modifies this`delay, this`nextPc, this`selfBranches
      ensures State() == BranchTo(old(State()), taken, target)
    {
      hide Wrap;
      delay := true;
      if taken {
        nextPc := target;
        if target == Wrap(pc - 4) { selfBranches := selfBranches + 1; }
      }
    }

    method BranchLikely(taken: bool, target: u64)
      requires Valid()
      modifies this`delay, this`prevPc, this`pc, this`nextPc, this`selfBranches
      ensures State() == BranchLikelyTo(old(State()), taken, target)
    {
      hide Wrap;
      if taken {
        BranchAddress(true, target);
      } else {
        delay := true;
        SetPc64(Wrap(pc + 4));
      }
    }

    method LinkTo(r: RegNum)
      requires Valid()
      modifies gpr
      ensures State() == Link(old(State()), r)
    {
      hide Wrap, SetGpr;
      WriteGpr(r, Wrap(pc + 4));
    }

    // ---- Memory -------------------------------------------------------------------------------------

    method ReadBus(w: Width, p: nat) returns (v: u64)
      requires Valid()
      modifies this`dev
      ensures (v, State()) == Load(old(State()), w, p)
    {
      hide Read, Limit;
      if SoftTlb.InRdram(p, w.Size()) { return Read(rdram[..], w, p); }
      dev := dev.(seen := dev.seen + [BusRead(w, p)]);
      v := dev.reply(dev.seen) % Limit(w);
    }

    method WriteBus(w: Width, p: nat, v: u64)
      requires Valid()
      modifies this`dev, rdram
      ensures State() == Store(old(State()), w, p, v)
    {
      hide Write, Limit;
      if SoftTlb.InRdram(p, w.Size()) {
        WriteArray(rdram, w, p, v % Limit(w));
      } else {
        dev := dev.(seen := dev.seen + [BusWrite(w, p, v % Limit(w))]);
      }
    }

    method TransferAt(op: IrOp, p: nat)
      requires Valid()
      modifies this`dev, rdram, gpr
      ensures State() == Transfer(old(State()), op, p)
    {
      hide Load, Store, Extend, MergeLoad, MergeStore, Address, SetGpr, Gpr;
      var rt := ReadGpr(op.rt);
      if IsPlainLoad(op.kind) {
        var v := ReadBus(WidthOf(op.kind), p);
        WriteGpr(op.rt, Extend(op.kind, v));
      } else if IsPlainStore(op.kind) {
        WriteBus(WidthOf(op.kind), p, rt);
      } else {
        var va := AddressOf(op);
        var data := ReadBus(W32, AlignedWord(p));
        if op.kind.Lwl? || op.kind.Lwr? {
          WriteGpr(op.rt, MergeLoad(op.kind, va, rt, data));
        } else {
          WriteBus(W32, AlignedWord(p), MergeStore(op.kind, va, data, rt) % WORD);
        }
      }
    }

    method AddressOf(op: IrOp) returns (va: SoftTlb.Tlb.u32)
      requires Valid()
      ensures va == Address(State(), op)
    {
      var base := ReadGpr(op.rs);
      va := Lo32(base + Sext16(op.imm));
    }

    /** A load or store instruction, through the software TLB. */
    method AccessMemory(op: IrOp)
      requires Valid()
      modifies this, gpr, rdram, mmu`c, mmu.load, mmu.store
      ensures (State(), TablesOf()) == I.MemoryCached(old(State()), old(TablesOf()), op)
      ensures timer == old(timer)
    {
      hide SoftTlb.Resolve, Transfer, HandleException, Address, AccessOf, SoftTlb.SoftLookup, SoftTlb.ResolveAndNote;
      var va := AddressOf(op);
      ghost var s, t := State(), TablesOf();
      assert mmu.View() == I.MmuOf(s, t);
      var r := mmu.ResolveCached(va, I.AccessSize(op.kind), AccessOf(op.kind));
      assert mmu.View() == SoftTlb.ResolveCached(I.MmuOf(s, t), va, I.AccessSize(op.kind), AccessOf(op.kind)).0;
      ResolveKeeps(I.MmuOf(s, t), va, I.AccessSize(op.kind), AccessOf(op.kind));
      match r {
        case Hit(p) => TransferAt(op, p);
        case Fail(e) => RaiseException(TlbExceptionCode(e, AccessOf(op.kind)), true, e);
      }
    }

    // ---- Instructions -------------------------------------------------------------------------------

    method Jump(op: IrOp)
      requires Valid() && (op.kind.Jr? || op.kind.Jalr? || op.kind.J? || op.kind.Jal?)
      modifies this`delay, this`nextPc, this`selfBranches, gpr
      ensures State() == Branch(old(State()), op)
    {
      hide BranchTo, BranchLikelyTo, Link, Gpr, Taken, OffsetTarget, Region;
      if op.kind.J? || op.kind.Jal? {
        var region := JumpTarget(op.target);
        if op.kind.Jal? { LinkTo(31); }
        BranchAddress(true, region);
      } else {
        var rs := ReadGpr(op.rs);
        BranchAddress(true, rs);
        if op.kind.Jalr? { LinkTo(op.rd); }
      }
    }

    method RelativeTarget(imm: nat) returns (t: u64)
      requires Valid()
      ensures t == OffsetTarget(State(), imm)
    {
      t := Wrap(pc + Signed16(imm) * 4);
    }

    method Conditional(op: IrOp)
      requires Valid() && IsConditional(op.kind)
      modifies this`delay, this`prevPc, this`pc, this`nextPc, this`selfBranches, gpr
      ensures State() == Branch(old(State()), op)
    {
      hide BranchTo, BranchLikelyTo, Link, Gpr, Taken, OffsetTarget, Region;
      var rs := ReadGpr(op.rs);
      var rt := ReadGpr(op.rt);
      var target := RelativeTarget(op.imm);
      if IsLikely(op.kind) {
        BranchLikely(Taken(op.kind, rs, rt), target);
      } else {
        BranchAddress(Taken(op.kind, rs, rt), target);
        if op.kind.Bltzal? || op.kind.Bgezal? { LinkTo(31); }
      }
    }

    method TakeBranch(op: IrOp)
      requires Valid() && IsBranch(op.kind)
      modifies this`delay, this`prevPc, this`pc, this`nextPc, this`selfBranches, gpr
      ensures State() == Branch(old(State()), op)
    {
      hide Branch;
      if IsConditional(op.kind) { Conditional(op); } else { Jump(op); }
    }

    method JumpTarget(target: nat) returns (t: u64)
      requires Valid()
      ensures t == Region(State(), target)
    {
      var branch := Wrap(pc - 4);
      t := branch - branch % 0x1000_0000 + target % 0x400_0000 * 4;
    }

    method MoveHiLo(op: IrOp)
      requires Valid() && (op.kind.Mfhi? || op.kind.Mflo? || op.kind.Mthi? || op.kind.Mtlo?)
      modifies this`hi, this`lo, gpr
      ensures State() == HiLo(old(State()), op)
    {
      hide SetGpr, Gpr, Signed32, SignedDivision, UnsignedDivision, Sext32, Wrap, Lo32, Product;
      var rs := ReadGpr(op.rs);
      if op.kind.Mfhi? { WriteGpr(op.rd, hi); }
      else if op.kind.Mflo? { WriteGpr(op.rd, lo); }
      else if op.kind.Mthi? { hi := rs; }
      else { lo := rs; }
    }

    method Multiply(op: IrOp)
      requires Valid() && (op.kind.Mult? || op.kind.Multu?)
      modifies this`hi, this`lo
      ensures State() == HiLo(old(State()), op)
    {
      hide SetGpr, Gpr, Signed32, SignedDivision, UnsignedDivision, Sext32, Wrap, Lo32, Product;
      var rs := ReadGpr(op.rs);
      var rt := ReadGpr(op.rt);
      SetProduct(if op.kind.Mult? then Signed32(rs) * Signed32(rt) else Lo32(rs) * Lo32(rt));
    }

    method Divide(op: IrOp)
      requires Valid() && (op.kind.Div? || op.kind.Divu?)
      modifies this`hi, this`lo
      ensures State() == HiLo(old(State()), op)
    {
      hide SetGpr, Gpr, SignedDivision, UnsignedDivision, Product;
      var rs := ReadGpr(op.rs);
      var rt := ReadGpr(op.rt);
      if op.kind.Div? { DivideSigned(rs, rt); } else { DivideUnsigned(rs, rt); }
    }

    method DivideUnsigned(rs: u64, rt: u64)
      requires Valid()
      modifies this`hi, this`lo
      ensures State() == UnsignedDivision(old(State()), rs, rt)
    {
      hide Sext32;
      if Lo32(rt) == 0 {
        hi, lo := Sext32(rs), DOUBLE - 1;
      } else {
        lo, hi := Sext32(Lo32(rs) / Lo32(rt)), Sext32(Lo32(rs) % Lo32(rt));
      }
    }

    method DivideSigned(rs: u64, rt: u64)
      requires Valid()
      modifies this`hi, this`lo
      ensures State() == SignedDivision(old(State()), rs, rt)
    {
      hide Quotient, Remainder, Sext32, Wrap;
      if Lo32(rt) == 0 {
        hi, lo := Sext32(rs), if Signed32(rs) >= 0 then DOUBLE - 1 else 1;
      } else {
        lo := Sext32(Wrap(Quotient(Signed32(rs), Signed32(rt))));
        hi := Sext32(Wrap(Remainder(Signed32(rs), Signed32(rt))));
      }
    }

    method SetProduct(p: int)
      requires Valid()
      modifies this`hi, this`lo
      ensures State() == Product(old(State()), p)
    {
      hide Sext32, Wrap;
      lo := Sext32(Wrap(p));
      hi := Sext32(Wrap(p / WORD));
    }

    method ExecuteInstruction(op: IrOp)
      requires Valid()
      modifies this, gpr, rdram, mmu`c, mmu.load, mmu.store
      ensures (State(), TablesOf()) == I.ExecuteCached(old(State()), old(TablesOf()), op) && timer == old(timer)
    {
      hide Branch, HiLo, AluResult, I.MemoryCached, SetGpr, Gpr;
      if IsMem(op.kind) {
        AccessMemory(op);
      } else if IsAlu(op.kind) {
        var rs := ReadGpr(op.rs);
        var rt := ReadGpr(op.rt);
        WriteGpr(if IsImmediate(op.kind) then op.rt else op.rd, AluResult(op, rs, rt));
      } else if IsBranch(op.kind) {
        TakeBranch(op);
      } else if op.kind.Mult? || op.kind.Multu? {
        Multiply(op);
      } else if op.kind.Div? || op.kind.Divu? {
        Divide(op);
      } else if !op.kind.Nop? {
        MoveHiLo(op);
      }
    }

    method InterruptDue() returns (b: bool)
      requires Valid()
      ensures b == I.ShouldService(State(), timer)
    {
      b := ex.ie && !ex.exl && !ex.erl
        && (ex.other || (ex.maskMi && dev.line(dev.seen)) || (ex.maskTimer && timer.ip7));
    }

    method Translate() returns (r: Tlb.Result)
      requires Valid()
      modifies mmu`c, mmu.load, mmu.store
      ensures var s, t := old(State()), old(TablesOf());
        var direct := SoftTlb.DirectMap(Lo32(s.pc));
        var (m, q) := if direct.Some? then (I.MmuOf(s, t), Tlb.Hit(direct.value))
                      else SoftTlb.ResolveCached(I.MmuOf(s, t), Lo32(s.pc), 4, Tlb.Load);
        r == q && State() == s.(c := m.c) && TablesOf() == I.Tables(m.load, m.store)
    {
      hide SoftTlb.Resolve, SoftTlb.SoftLookup, SoftTlb.ResolveCached;
      var va := Lo32(pc);
      var direct := SoftTlb.DirectMap(va);
      if direct.Some? { return Tlb.Hit(direct.value); }
      ghost var s, t := State(), TablesOf();
      assert mmu.View() == I.MmuOf(s, t);
      ResolveKeeps(I.MmuOf(s, t), va, 4, Tlb.Load);
      r := mmu.ResolveCached(va, 4, Tlb.Load);
    }

    /** step_one_core. */
    method StepOne(code: nat -> IrOp)
      requires Valid()
      modifies this, gpr, rdram, mmu`c, mmu.load, mmu.store
      ensures I.System(State(), TablesOf(), timer) == I.Step(I.System(old(State()), old(TablesOf()), old(timer)), code)
    {
      hide HandleException, I.ExecuteCached, SoftTlb.ResolveCached, I.ShouldService, Lo32,
        NextInstruction, RetireDelaySlot, T.AddCount;
      Retire();
      var due := InterruptDue();
      if due { RaiseException(INTERRUPT, false, Tlb.Miss); }
      var r := Translate();
      match r {
        case Fail(e) => RaiseException(TlbExceptionCode(e, Tlb.Load), false, e);
        case Hit(p) =>
          Advance();
          ExecuteInstruction(code(p));
          AddCount(1);
      }
    }
  }

  lemma ResolveKeeps(m: SoftTlb.Mmu, va: Tlb.u32, size: nat, a: Tlb.Access)
    ensures var (m', r) := SoftTlb.ResolveCached(m, va, size, a); m'.es == m.es && (r.Hit? ==> m'.c == m.c)
  {
    hide SoftTlb.Resolve, SoftTlb.SoftLookup, Tlb.OnException, SoftTlb.Note;
  }
}
