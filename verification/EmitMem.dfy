/** The emitted code for loads and stores: the inlined KSEG and software-TLB paths straight into RDRAM, and
    the helper call they fall back to. */
module EmitMem {
  import opened Bits
  import Common
  import opened ByteOrder
  import opened Cpu
  import opened Timer
  import opened Interp
  import opened X86
  import opened Emitter
  import opened EmitAlu
  import opened EmitBranch
  import Tlb
  import SoftTlb

  // ---- Masks and shifts -----------------------------------------------------------------------------

  lemma RightWords(x: u64)
    ensures Right(x, 12) == x / 0x1000 && Right(x, 29) == x / 0x2000_0000 && Right(x, 32) == x / WORD
  {
    hide Right, Low, Shl;
    ShlValues(1); ShlWords(1);
    SplitAt(x, 12); ShlValues(Right(x, 12));
    SplitAt(x, 29); ShlWords(Right(x, 29));
    SplitAt(x, 32); ShlWords(Right(x, 32));
  }

  lemma MaskWords(x: u64)
    ensures And(x, 0xFFF) == x % 0x1000 && And(x, 0x1FFF_FFFF) == x % 0x2000_0000
  {
    hide Zip, Shl;
    ShlValues(1); ShlWords(1);
    ShlValues(x / 0x1000); ShlWords(x / 0x2000_0000);
    AndLow(x / 0x1000, x % 0x1000, 12);
    AndLow(x / 0x2000_0000, x % 0x2000_0000, 29);
  }

  lemma PageAndOffset(page: SoftTlb.Page, x: u64)
    requires x < 0x1000
    ensures Or(page, x) == page + x < WORD
  {
    hide Zip, Shl;
    ShlValues(1); ShlValues(page / 0x1000);
    OrHighLow(page / 0x1000, x, 12);
  }

  lemma XorFits(p: u64, x: u64)
    requires p < WORD && x < WORD
    ensures Value(XorA, false, p, x) == Xor(p, x)
  {
    hide Zip, Shl;
    ShlWords(1);
    ZipBound(XOR, p, x, 32);
  }

  lemma JoinWords(hi: u64, lo: u64)
    requires hi < WORD && lo < WORD
    ensures Value(OrA, true, lo, Value(ShlA, true, hi, 32)) == hi * WORD + lo
  {
    hide Zip, Shl;
    ShlWords(hi); ShlWords(1);
    OrHighLow(hi, lo, 32);
  }

  // ---- The address ----------------------------------------------------------------------------------

  /** Equal in all but rax, rdx, r12 and the flags. */
  ghost predicate Same(m': Machine, m: Machine) {
    && m'.core == m.core && m'.tables == m.tables && m'.timer == m.timer
    && m'.aborted == m.aborted && m'.annul == m.annul && m'.rbx == m.rbx && m'.rcx == m.rcx
  }

  lemma AddressBits(g: u64, imm: nat)
    ensures Value(AddA, false, g, Sext16(imm)) == Lo32(g + Sext16(imm))
    ensures imm % 0x1_0000 == 0 ==> Lo32(g) == Lo32(g + Sext16(imm))
    ensures Lo32(Lo32(g + Sext16(imm))) == Lo32(g + Sext16(imm))
  {}

  lemma AddressRuns(op: IrOp, m: Machine)
    ensures var c := Run(AddressCode(op), Running(m));
      c.Running? && Same(c.m, m.(rcx := Num(Address(m.core, op)))) && c.m.rax.Num? && Lo32(c.m.rax.n) == Address(m.core, op)
  {
    hide Run, ExecRunning, Value, Lo32, Sext16, GprToRax, Gpr;
    var g := Gpr(m.core, op.rs);
    AddressBits(g, op.imm);
    LoadGpr(m, op.rs);
    MoveRules(); ArithRules();
    var add := if op.imm % 0x1_0000 != 0 then [Alu(AddA, false, Rax, I(Sext16(op.imm)))] else [];
    RunCat(GprToRax(op.rs) + add, [Mov32(Rcx, Rax)], Running(m));
    RunCat(GprToRax(op.rs), add, Running(m));
    var c := Run(GprToRax(op.rs), Running(m));
    if op.imm % 0x1_0000 != 0 {
      Run1(Alu(AddA, false, Rax, I(Sext16(op.imm))), c);
    } else {
      assert Run([], c) == c by { RunEmpty(c); }
    }
    Run1(Mov32(Rcx, Rax), Run(add, c));
  }

  lemma RunEmpty(c: Config)
    ensures Run([], c) == c
  {}

  // ---- The tests ------------------------------------------------------------------------------------

  predicate IsDirect(va: nat) { va / 0x2000_0000 == 4 || va / 0x2000_0000 == 5 }

  lemma SegmentBits(va: nat)
    requires va < WORD
    ensures Value(ShrA, false, va, 29) == va / 0x2000_0000 < 8
  {
    hide Right;
    RightWords(va);
  }

  lemma SegmentShift(m: Machine, x: u64, va: u64, i: nat)
    requires m.rax == Num(x) && Lo32(x) == va < WORD
    ensures var c := Run([Alu(ShrA, false, Rax, I(29)), Cmp8Imm(Rax, 4), Jcc(E, Local(i, SegOk)), Cmp8Imm(Rax, 5)], Running(m));
      var seg := va / 0x2000_0000;
      if seg == 4 then c.Seeking? && c.l == Local(i, SegOk) && Same(c.m, m)
      else c.Running? && Same(c.m, m) && c.m.flags.Compared? && c.m.flags.zero == (seg == 5)
  {
    hide Run, ExecRunning, Value, Signed, Sext8;
    ArithRules(); Test32Rules(); JumpRules();
    assert Value(ShrA, false, x, 29) == va / 0x2000_0000 by { SegmentBits(va); ShiftOfLow(x); }
    hide Lo32;
    Run4(Alu(ShrA, false, Rax, I(29)), Cmp8Imm(Rax, 4), Jcc(E, Local(i, SegOk)), Cmp8Imm(Rax, 5), Running(m));
    var m1 := m.(rax := Num(va / 0x2000_0000), flags := Undefined);
    assert Exec(Alu(ShrA, false, Rax, I(29)), Running(m)) == Running(m1);
    var c2 := Exec(Cmp8Imm(Rax, 4), Running(m1));
    assert c2.Running? && c2.m.flags.zero == (va / 0x2000_0000 == 4);
  }

  lemma ShiftOfLow(x: u64)
    ensures Value(ShrA, false, x, 29) == Value(ShrA, false, Lo32(x), 29)
  {
    hide Right;
    SextLow(x);
  }

  lemma SegmentRuns(m: Machine, x: u64, va: u64, i: nat)
    requires m.rax == Num(x) && Lo32(x) == va < WORD
    ensures var c := Run(SegmentTest(i), Running(m));
      && !c.Fault? && Same(c.m, m)
      && (if IsDirect(va) then c.Running? else c == Seeking(Local(i, TrySoft), c.m))
  {
    hide Run, ExecRunning, Lo32;
    var shift := [Alu(ShrA, false, Rax, I(29)), Cmp8Imm(Rax, 4), Jcc(E, Local(i, SegOk)), Cmp8Imm(Rax, 5)];
    var jump := [Jcc(NE, Local(i, TrySoft)), Lbl(Local(i, SegOk))];
    RunCat(shift, jump, Running(m));
    SegmentShift(m, x, va, i);
    var c := Run(shift, Running(m));
    Run2(Jcc(NE, Local(i, TrySoft)), Lbl(Local(i, SegOk)), c);
    JumpRules();
  }

  lemma FoldedAddress(va: u64)
    requires va < WORD
    ensures Value(AndA, false, va, 0x1FFF_FFFF) == va % 0x2000_0000 < WORD
    ensures Value(AndA, false, va, 0xFFF) == va % 0x1000
  {
    hide Zip;
    MaskWords(va);
  }

  lemma AboveMeans(a: u64, n: u64)
    requires a < WORD && n < WORD
    ensures Holds(A, Compared(Lo32(a) < Lo32(n), Lo32(a) == Lo32(n), Signed32(a) < Signed32(n))) == (a > n)
  {}

  /** A limit test: jump to the slow path when the address in a register is above the limit. */
  lemma LimitRuns(m: Machine, a: u64, n: u64, to: Label)
    requires m.rax == Num(a) && a < WORD && n < WORD
    ensures var c := Run([Cmp32Imm(Rax, n), Jcc(A, to)], Running(m));
      && !c.Fault? && Same(c.m, m) && c.m.rax == m.rax && c.m.rdx == m.rdx && c.m.r12 == m.r12
      && c == if a > n then Seeking(to, c.m) else Running(c.m)
  {
    hide Run, ExecRunning, Signed32, Lo32, Holds;
    Test32Rules(); JumpRules();
    AboveMeans(a, n);
    Run2(Cmp32Imm(Rax, n), Jcc(A, to), Running(m));
  }

  lemma MaskAddress(m: Machine, va: u64, mask: u64)
    requires m.rcx == Num(va) && va < WORD && (mask == 0xFFF || mask == 0x1FFF_FFFF)
    ensures Run([Mov32(Rax, Rcx), Alu(AndA, false, Rax, I(mask))], Running(m)) ==
      Running(m.(rax := Num(va % (mask + 1)), flags := Undefined))
  {
    hide Run, ExecRunning, Value;
    MoveRules(); ArithRules();
    FoldedAddress(va);
    SmallLow(va);
    Run2(Mov32(Rax, Rcx), Alu(AndA, false, Rax, I(mask)), Running(m));
  }

  lemma DirectTestRuns(op: IrOp, m: Machine, va: u64, i: nat)
    requires m.rcx == Num(va) && va < WORD
    ensures var c := Run(DirectTest(op, i), Running(m));
      var p := va % 0x2000_0000;
      && !c.Fault? && Same(c.m, m)
      && (if p > MaxPaddr(op.kind) then c == Seeking(Local(i, Slow), c.m)
          else c.Running? && c.m.rax == Num(p) && c.m.rdx == Ptr(RdramBase))
  {
    hide Run, ExecRunning;
    MoveRules();
    var mask := [Mov32(Rax, Rcx), Alu(AndA, false, Rax, I(0x1FFF_FFFF))];
    var limit := [Cmp32Imm(Rax, MaxPaddr(op.kind)), Jcc(A, Local(i, Slow))];
    assert [Mov32(Rax, Rcx), Alu(AndA, false, Rax, I(0x1FFF_FFFF)), Cmp32Imm(Rax, MaxPaddr(op.kind)), Jcc(A, Local(i, Slow))]
      == mask + limit;
    RunCat(mask + limit, [MovPtr(Rdx, RdramBase)], Running(m));
    RunCat(mask, limit, Running(m));
    MaskAddress(m, va, 0x1FFF_FFFF);
    var c := Run(mask, Running(m));
    LimitRuns(c.m, va % 0x2000_0000, MaxPaddr(op.kind), Local(i, Slow));
    Run1(MovPtr(Rdx, RdramBase), Run(limit, c));
  }

  lemma PageTestRuns(op: IrOp, m: Machine, va: u64, i: nat)
    requires m.rcx == Num(va) && va < WORD
    ensures var c := Run(PageTest(op, i), Running(m));
      && !c.Fault? && Same(c.m, m)
      && c == if va % 0x1000 + WidthOf(op.kind).Size() > 0x1000 then Seeking(Local(i, Slow), c.m) else Running(c.m)
  {
    hide Run, ExecRunning;
    var mask := [Mov32(Rax, Rcx), Alu(AndA, false, Rax, I(0xFFF))];
    var limit := [Cmp32Imm(Rax, 0x1000 - WidthOf(op.kind).Size()), Jcc(A, Local(i, Slow))];
    assert PageTest(op, i) == mask + limit;
    RunCat(mask, limit, Running(m));
    MaskAddress(m, va, 0xFFF);
    LimitRuns(Run(mask, Running(m)).m, va % 0x1000, 0x1000 - WidthOf(op.kind).Size(), Local(i, Slow));
  }

  function SlotOf(m: Machine, op: IrOp, va: nat): SoftTlb.Slot {
    (if IsPlainStore(op.kind) then m.tables.store else m.tables.load)[va / 0x1000 % SoftTlb.SLOTS]
  }

  lemma IndexBits(va: u64)
    requires va < WORD
    ensures Value(ShrA, false, va, 12) == va / 0x1000 && Lo32(va) == va && Lo32(va / 0x1000) == va / 0x1000
    ensures Value(AndA, false, va / 0x1000, 0xFFF) == va / 0x1000 % 0x1000
  {
    hide Right, And;
    RightWords(va);
    MaskWords(va / 0x1000);
  }

  lemma SlotIndexRuns(m: Machine, va: u64)
    requires m.rcx == Num(va) && va < WORD
    ensures Run([Mov32(Rax, Rcx), Alu(ShrA, false, Rax, I(12)), Mov32(R12, Rax), Alu(AndA, false, Rax, I(0xFFF))], Running(m)) ==
      Running(m.(rax := Num(va / 0x1000 % 0x1000), r12 := Num(va / 0x1000), flags := Undefined))
  {
    hide Run, ExecRunning, Value;
    MoveRules(); ArithRules();
    IndexBits(va);
    hide Lo32;
    Run4(Mov32(Rax, Rcx), Alu(ShrA, false, Rax, I(12)), Mov32(R12, Rax), Alu(AndA, false, Rax, I(0xFFF)), Running(m));
    assert Exec(Alu(ShrA, false, Rax, I(12)), Exec(Mov32(Rax, Rcx), Running(m)))
      == Running(m.(rax := Num(va / 0x1000), flags := Undefined));
  }

  lemma SlotTestRuns(op: IrOp, m: Machine, va: u64, i: nat)
    requires m.rcx == Num(va) && va < WORD
    ensures var c := Run(SlotTest(op, i), Running(m));
      && !c.Fault? && Same(c.m, m)
      && (if SlotOf(m, op, va).vpn != va / 0x1000 then c == Seeking(Local(i, Slow), c.m)
          else (c.Running? && c.m.rax == Num(va / 0x1000 % 0x1000)
                && c.m.rdx == Ptr(if IsPlainStore(op.kind) then SoftStoreBase else SoftLoadBase)))
  {
    hide Run, ExecRunning, Signed32;
    var base := if IsPlainStore(op.kind) then SoftStoreBase else SoftLoadBase;
    var index := [Mov32(Rax, Rcx), Alu(ShrA, false, Rax, I(12)), Mov32(R12, Rax), Alu(AndA, false, Rax, I(0xFFF))];
    RunCat(index, [MovPtr(Rdx, base), CmpSlotVpn(Rdx, Rax, R12), Jcc(NE, Local(i, Slow))], Running(m));
    SlotIndexRuns(m, va);
    var c := Run(index, Running(m));
    SmallLow(va / 0x1000);
    SmallLow(SlotOf(m, op, va).vpn);
    hide Lo32;
    MoveRules(); SlotRules(); JumpRules();
    Run3(MovPtr(Rdx, base), CmpSlotVpn(Rdx, Rax, R12), Jcc(NE, Local(i, Slow)), c);
  }

  lemma RangeTestRuns(op: IrOp, m: Machine, va: u64, i: nat)
    requires m.rcx == Num(va) && va < WORD && m.rax == Num(va / 0x1000 % 0x1000)
    requires m.rdx == Ptr(if IsPlainStore(op.kind) then SoftStoreBase else SoftLoadBase)
    ensures var c := Run(RangeTest(op, i), Running(m));
      var p := SlotOf(m, op, va).page + va % 0x1000;
      && !c.Fault? && Same(c.m, m)
      && (if p > MaxPaddr(op.kind) then c == Seeking(Local(i, Slow), c.m)
          else c.Running? && c.m.rax == Num(p) && c.m.rdx == Ptr(RdramBase))
  {
    hide Run, ExecRunning, Value;
    var page, p := SlotOf(m, op, va).page, SlotOf(m, op, va).page + va % 0x1000;
    var load := [LoadSlotPage(Rax, Rdx, Rax), Mov32(Rdx, Rcx), Alu(AndA, false, Rdx, I(0xFFF)), Alu(OrA, false, Rax, R(Rdx))];
    var limit := [Cmp32Imm(Rax, MaxPaddr(op.kind)), Jcc(A, Local(i, Slow))];
    assert [Cmp32Imm(Rax, MaxPaddr(op.kind)), Jcc(A, Local(i, Slow)), MovPtr(Rdx, RdramBase)] == limit + [MovPtr(Rdx, RdramBase)];
    RunCat(load, limit + [MovPtr(Rdx, RdramBase)], Running(m));
    SlotLoadRuns(op, m, va);
    var c := Run(load, Running(m));
    RunCat(limit, [MovPtr(Rdx, RdramBase)], c);
    PageAndOffset(page, va % 0x1000);
    LimitRuns(c.m, p, MaxPaddr(op.kind), Local(i, Slow));
    Run1(MovPtr(Rdx, RdramBase), Run(limit, c));
    MoveRules();
  }

  lemma SlotLoadRuns(op: IrOp, m: Machine, va: u64)
    requires m.rcx == Num(va) && va < WORD && m.rax == Num(va / 0x1000 % 0x1000)
    requires m.rdx == Ptr(if IsPlainStore(op.kind) then SoftStoreBase else SoftLoadBase)
    ensures Run([LoadSlotPage(Rax, Rdx, Rax), Mov32(Rdx, Rcx), Alu(AndA, false, Rdx, I(0xFFF)),
                 Alu(OrA, false, Rax, R(Rdx))], Running(m)) ==
      Running(m.(rax := Num(SlotOf(m, op, va).page + va % 0x1000), rdx := Num(va % 0x1000), flags := Undefined))
  {
    hide Run, ExecRunning, Value, And, Or;
    var page := SlotOf(m, op, va).page;
    FoldedAddress(va);
    SmallLow(va); SmallLow(page); SmallLow(va % 0x1000);
    assert Value(OrA, false, page, va % 0x1000) == page + va % 0x1000 by {
      PageAndOffset(page, va % 0x1000);
      OrOfWords(page, va % 0x1000);
    }
    hide Lo32;
    MoveRules(); SlotRules(); ArithRules();
    Run4(LoadSlotPage(Rax, Rdx, Rax), Mov32(Rdx, Rcx), Alu(AndA, false, Rdx, I(0xFFF)), Alu(OrA, false, Rax, R(Rdx)), Running(m));
    var c := Exec(Mov32(Rdx, Rcx), Exec(LoadSlotPage(Rax, Rdx, Rax), Running(m)));
    assert c == Running(m.(rax := Num(page), rdx := Num(va)));
  }

  lemma OrOfWords(a: nat, b: nat)
    requires a < WORD && b < WORD && Or(a, b) < WORD
    ensures Value(OrA, false, a, b) == Or(a, b)
  {
    hide Zip;
  }

  // ---- The access -----------------------------------------------------------------------------------

  /** The physical address is in eax and the RDRAM base in rdx. */
  predicate Ready(m: Machine, op: IrOp, p: u64) {
    m.rax == Num(p) && m.rdx == Ptr(RdramBase) && p + WidthOf(op.kind).Size() <= SoftTlb.RDRAM_SIZE
  }

  lemma SwizzledLoad(m: Machine, w: Width, signed: bool, p: u64, x: u64)
    requires m.rax == Num(p) && m.rdx == Ptr(RdramBase) && p < WORD && x < WORD
    ensures var c := Run([Alu(XorA, false, Rax, I(x)), LoadMem(Rax, w, signed, Rdx, Rax, 0)], Running(m));
      var v := HostRead(m.core.rdram, w, Xor(p, x));
      After(c, m, m.core) && c.m.rax == Num(if signed then X86.SignExtend(w, v) else v)
  {
    hide Run, ExecRunning, Value, HostRead, X86.SignExtend;
    ArithRules();
    XorFits(p, x);
    hide Xor;
    Run2(Alu(XorA, false, Rax, I(x)), LoadMem(Rax, w, signed, Rdx, Rax, 0), Running(m));
    var m1 := m.(rax := Num(Xor(p, x)), flags := Undefined);
    assert Exec(Alu(XorA, false, Rax, I(x)), Running(m)) == Running(m1);
    LoadMemRule(m1, Rax, w, signed, Rdx, Rax, 0);
  }

  lemma FinishLoad(code: seq<Instr>, op: IrOp, m: Machine, p: u64)
    requires IsPlainLoad(op.kind) && Ready(m, op, p) && AccessCode(op) == code + RaxToGpr(op.rt)
    requires var c := Run(code, Running(m));
      After(c, m, m.core) && c.m.rax == Num(Extend(op.kind, Read(m.core.rdram, WidthOf(op.kind), p)))
    ensures After(Run(AccessCode(op), Running(m)), m, Transfer(m.core, op, p))
  {
    hide Run, AccessCode, RaxToGpr, Extend, Read, SetGpr;
    var v := Extend(op.kind, Read(m.core.rdram, WidthOf(op.kind), p));
    RunCat(code, RaxToGpr(op.rt), Running(m));
    StoreResult(Run(code, Running(m)), m, op.rt, v);
  }

  lemma NarrowLoadRuns(op: IrOp, m: Machine, p: u64)
    requires (op.kind.Lb? || op.kind.Lbu? || op.kind.Lh? || op.kind.Lhu?) && Ready(m, op, p)
    ensures After(Run(AccessCode(op), Running(m)), m, Transfer(m.core, op, p))
  {
    hide Run, RaxToGpr, Transfer, Xor, Sext8, Sext16, At, Host16;
    var w, signed := WidthOf(op.kind), op.kind.Lb? || op.kind.Lh?;
    var x := if w.W8? then 3 else 2;
    SwizzledLoad(m, w, signed, p, x);
    FinishLoad([Alu(XorA, false, Rax, I(x)), LoadMem(Rax, w, signed, Rdx, Rax, 0)], op, m, p);
  }

  lemma WordLoadRuns(op: IrOp, m: Machine, p: u64)
    requires (op.kind.Lw? || op.kind.Lwu?) && Ready(m, op, p)
    ensures After(Run(AccessCode(op), Running(m)), m, Transfer(m.core, op, p))
  {
    hide Run, ExecRunning, RaxToGpr, Transfer, Sext32, Host32, SetGpr;
    var load := LoadMem(Rax, W32, false, Rdx, Rax, 0);
    LoadMemRule(m, Rax, W32, false, Rdx, Rax, 0);
    if op.kind.Lw? {
      ArithRules();
      Run2(load, Cdqe, Running(m));
      FinishLoad([load, Cdqe], op, m, p);
    } else {
      Run1(load, Running(m));
      FinishLoad([load], op, m, p);
    }
  }

  lemma DoubleLoads(m: Machine, p: u64)
    requires m.rax == Num(p) && m.rdx == Ptr(RdramBase)
    ensures Run([LoadMem(R12, W32, false, Rdx, Rax, 0), LoadMem(Rcx, W32, false, Rdx, Rax, 4)], Running(m)) ==
      Running(m.(r12 := Num(Host32(m.core.rdram, p)), rcx := Num(Host32(m.core.rdram, p + 4))))
  {
    hide Run, ExecRunning, Host32;
    Run2(LoadMem(R12, W32, false, Rdx, Rax, 0), LoadMem(Rcx, W32, false, Rdx, Rax, 4), Running(m));
    LoadMemRule(m, R12, W32, false, Rdx, Rax, 0);
    LoadMemRule(m.(r12 := Num(Host32(m.core.rdram, p))), Rcx, W32, false, Rdx, Rax, 4);
  }

  lemma JoinRuns(m: Machine, hi: u64, lo: u64)
    requires m.r12 == Num(hi) && m.rcx == Num(lo) && hi < WORD && lo < WORD
    ensures var c := Run([Alu(ShlA, true, R12, I(32)), Mov32(Rax, Rcx), Alu(OrA, true, Rax, R(R12))], Running(m));
      After(c, m, m.core) && c.m.rax == Num(hi * WORD + lo)
  {
    hide Run, ExecRunning, Value;
    JoinWords(hi, lo);
    SmallLow(lo);
    MoveRules(); ArithRules();
    Run3(Alu(ShlA, true, R12, I(32)), Mov32(Rax, Rcx), Alu(OrA, true, Rax, R(R12)), Running(m));
    assert Exec(Alu(ShlA, true, R12, I(32)), Running(m)) == Running(m.(r12 := Num(Value(ShlA, true, hi, 32)), flags := Undefined));
  }

  lemma DoubleLoadRuns(op: IrOp, m: Machine, p: u64)
    requires op.kind.Ld? && Ready(m, op, p)
    ensures After(Run(AccessCode(op), Running(m)), m, Transfer(m.core, op, p))
  {
    hide Run, Exec, RaxToGpr, Transfer, Host32;
    var loads := [LoadMem(R12, W32, false, Rdx, Rax, 0), LoadMem(Rcx, W32, false, Rdx, Rax, 4)];
    var join := [Alu(ShlA, true, R12, I(32)), Mov32(Rax, Rcx), Alu(OrA, true, Rax, R(R12))];
    DoubleLoads(m, p);
    RunCat(loads, join, Running(m));
    JoinRuns(Run(loads, Running(m)).m, Host32(m.core.rdram, p), Host32(m.core.rdram, p + 4));
    FinishLoad(loads + join, op, m, p);
  }

  /** Stores first keep the address in r12d and fetch rt. */
  lemma FetchRuns(m: Machine, p: u64, r: RegNum)
    requires m.rax == Num(p) && p < WORD
    ensures var c := Run([Mov32(R12, Rax)] + GprToRax(r), Running(m));
      && After(c, m, m.core) && c.m.rax == Num(Gpr(m.core, r)) && c.m.r12 == Num(p) && c.m.rdx == m.rdx
  {
    hide Run, ExecRunning, GprToRax, Gpr;
    MoveRules();
    SmallLow(p);
    RunCat([Mov32(R12, Rax)], GprToRax(r), Running(m));
    Run1(Mov32(R12, Rax), Running(m));
    LoadGpr(m.(r12 := Num(p)), r);
  }

  lemma SwizzledStore(m: Machine, w: Width, p: u64, x: nat, v: u64)
    requires m.r12 == Num(p) && m.rax == Num(v) && m.rdx == Ptr(RdramBase) && p < WORD && x < WORD
    ensures After(Run([Mov32(Rcx, Rax), Mov32(Rax, R12), Alu(XorA, false, Rax, I(x)), StoreMem(w, Rdx, Rax, 0, Rcx)], Running(m)), m,
                  m.core.(rdram := HostWrite(m.core.rdram, w, Xor(p, x), Lo32(v))))
  {
    hide Run, ExecRunning, Value, HostWrite;
    MoveRules(); ArithRules();
    XorFits(p, x);
    SmallLow(p);
    hide Xor, Lo32;
    Run4(Mov32(Rcx, Rax), Mov32(Rax, R12), Alu(XorA, false, Rax, I(x)), StoreMem(w, Rdx, Rax, 0, Rcx), Running(m));
    var m2 := m.(rcx := Num(Lo32(v)), rax := Num(p));
    assert Exec(Mov32(Rax, R12), Exec(Mov32(Rcx, Rax), Running(m))) == Running(m2);
    var m3 := m2.(rax := Num(Xor(p, x)), flags := Undefined);
    assert Exec(Alu(XorA, false, Rax, I(x)), Running(m2)) == Running(m3);
    StoreMemRule(m3, w, Rdx, Rax, 0, Rcx);
  }

  lemma LowParts(v: nat)
    ensures Lo32(v) % 0x100 == v % 0x100 && Lo32(v) % 0x1_0000 == v % 0x1_0000
  {
    var q, low := v / WORD, Lo32(v);
    Common.Euclid(v, 0x100, 0x100_0000 * q + low / 0x100, low % 0x100);
    Common.Euclid(v, 0x1_0000, 0x1_0000 * q + low / 0x1_0000, low % 0x1_0000);
  }

  lemma WordStored(s: Core, op: IrOp, p: u64)
    requires op.kind.Sw? && p + 4 <= SoftTlb.RDRAM_SIZE
    ensures Transfer(s, op, p) == s.(rdram := PutHost32(s.rdram, p, Lo32(Gpr(s, op.rt))))
  {
    hide PutHost32, Gpr;
  }

  lemma DoubleStored(s: Core, op: IrOp, p: u64)
    requires op.kind.Sd? && p + 8 <= SoftTlb.RDRAM_SIZE
    ensures var v := Gpr(s, op.rt);
      Transfer(s, op, p) == s.(rdram := PutHost32(PutHost32(s.rdram, p, v / WORD), p + 4, v % WORD))
  {
    hide PutHost32, Gpr;
  }

  lemma NarrowStored(s: Core, op: IrOp, p: u64)
    requires (op.kind.Sb? || op.kind.Sh?) && p + WidthOf(op.kind).Size() <= SoftTlb.RDRAM_SIZE
    ensures var w := WidthOf(op.kind);
      Transfer(s, op, p) == s.(rdram := HostWrite(s.rdram, w, Xor(p, if w.W8? then 3 else 2), Lo32(Gpr(s, op.rt))))
  {
    hide Gpr, Put, PutHost16, Xor;
    LowParts(Gpr(s, op.rt));
  }

  lemma NarrowStoreRuns(op: IrOp, m: Machine, p: u64)
    requires (op.kind.Sb? || op.kind.Sh?) && Ready(m, op, p)
    ensures After(Run(AccessCode(op), Running(m)), m, Transfer(m.core, op, p))
  {
    hide Run, ExecRunning, GprToRax, Gpr, Put, PutHost16, Xor, Transfer, HostWrite;
    NarrowStored(m.core, op, p);
    var w := WidthOf(op.kind);
    var x := if w.W8? then 3 else 2;
    var v := Gpr(m.core, op.rt);
    FetchRuns(m, p, op.rt);
    RunCat([Mov32(R12, Rax)] + GprToRax(op.rt),
           [Mov32(Rcx, Rax), Mov32(Rax, R12), Alu(XorA, false, Rax, I(x)), StoreMem(w, Rdx, Rax, 0, Rcx)], Running(m));
    SwizzledStore(Run([Mov32(R12, Rax)] + GprToRax(op.rt), Running(m)).m, w, p, x, v);
  }

  lemma WordStoreRuns(op: IrOp, m: Machine, p: u64)
    requires op.kind.Sw? && Ready(m, op, p)
    ensures After(Run(AccessCode(op), Running(m)), m, Transfer(m.core, op, p))
  {
    hide Run, Exec, GprToRax, Gpr, PutHost32, Transfer;
    WordStored(m.core, op, p);
    FetchRuns(m, p, op.rt);
    RunCat([Mov32(R12, Rax)] + GprToRax(op.rt), [StoreMem(W32, Rdx, R12, 0, Rax)], Running(m));
    var c := Run([Mov32(R12, Rax)] + GprToRax(op.rt), Running(m));
    Run1(StoreMem(W32, Rdx, R12, 0, Rax), c);
    StoreMemRule(c.m, W32, Rdx, R12, 0, Rax);
  }

  lemma DoubleStores(m: Machine, p: u64, v: u64)
    requires m.r12 == Num(p) && m.rax == Num(v) && m.rdx == Ptr(RdramBase) && p < WORD
    ensures After(Run([Mov32(Rcx, Rax), Alu(ShrA, true, Rax, I(32)), StoreMem(W32, Rdx, R12, 0, Rax),
                       StoreMem(W32, Rdx, R12, 4, Rcx)], Running(m)), m,
                  m.core.(rdram := PutHost32(PutHost32(m.core.rdram, p, v / WORD), p + 4, v % WORD)))
  {
    hide Run, ExecRunning, PutHost32, Right;
    MoveRules(); ArithRules();
    RightWords(v);
    Run4(Mov32(Rcx, Rax), Alu(ShrA, true, Rax, I(32)), StoreMem(W32, Rdx, R12, 0, Rax), StoreMem(W32, Rdx, R12, 4, Rcx), Running(m));
    var m2 := m.(rcx := Num(v % WORD), rax := Num(v / WORD), flags := Undefined);
    assert Exec(Alu(ShrA, true, Rax, I(32)), Exec(Mov32(Rcx, Rax), Running(m))) == Running(m2);
    StoreMemRule(m2, W32, Rdx, R12, 0, Rax);
    var m3 := m2.(core := m.core.(rdram := PutHost32(m.core.rdram, p, v / WORD)));
    assert Exec(StoreMem(W32, Rdx, R12, 0, Rax), Running(m2)) == Running(m3);
    StoreMemRule(m3, W32, Rdx, R12, 4, Rcx);
  }

  lemma DoubleStoreRuns(op: IrOp, m: Machine, p: u64)
    requires op.kind.Sd? && Ready(m, op, p)
    ensures After(Run(AccessCode(op), Running(m)), m, Transfer(m.core, op, p))
  {
    hide Run, ExecRunning, GprToRax, Gpr, PutHost32, Transfer;
    DoubleStored(m.core, op, p);
    FetchRuns(m, p, op.rt);
    RunCat([Mov32(R12, Rax)] + GprToRax(op.rt),
           [Mov32(Rcx, Rax), Alu(ShrA, true, Rax, I(32)), StoreMem(W32, Rdx, R12, 0, Rax),
            StoreMem(W32, Rdx, R12, 4, Rcx)], Running(m));
    DoubleStores(Run([Mov32(R12, Rax)] + GprToRax(op.rt), Running(m)).m, p, Gpr(m.core, op.rt));
  }

  lemma AccessRuns(op: IrOp, m: Machine, p: u64)
    requires (IsPlainLoad(op.kind) || IsPlainStore(op.kind)) && Ready(m, op, p)
    ensures After(Run(AccessCode(op), Running(m)), m, Transfer(m.core, op, p))
  {
    hide Run, AccessCode, Transfer, After;
    match op.kind
    case Lb | Lbu | Lh | Lhu => NarrowLoadRuns(op, m, p);
    case Lw | Lwu => WordLoadRuns(op, m, p);
    case Ld => DoubleLoadRuns(op, m, p);
    case Sb | Sh => NarrowStoreRuns(op, m, p);
    case Sw => WordStoreRuns(op, m, p);
    case Sd => DoubleStoreRuns(op, m, p);
  }

  // ---- The helper -----------------------------------------------------------------------------------

  ghost predicate Performed(c: Config, m: Machine, op: IrOp) {
    && c.Running?
    && c.m.core == Memory(m.core, op) && Coherent(c.m.core, c.m.tables)
    && c.m.annul == m.annul && c.m.rbx == m.rbx && c.m.timer == m.timer
    && c.m.aborted == (m.aborted || Aborts(m.core, op))
  }

  predicate Aborts(s: Core, op: IrOp) {
    SoftTlb.Resolve(s.es, s.c.hi, Address(s, op), AccessOf(op.kind)).Fail?
  }

  lemma MemoryByFields(s: Core, op: IrOp, op': IrOp)
    requires op'.kind == op.kind && op'.rs == op.rs && op'.rt == op.rt && op'.imm % 0x1_0000 == op.imm % 0x1_0000
    ensures Address(s, op) == Address(s, op')
    ensures forall p :: Transfer(s, op, p) == Transfer(s, op', p)
  {
    hide Load, Store, SetGpr, Extend, Gpr, MergeLoad, MergeStore;
    assert Signed16(op.imm) == Signed16(op'.imm);
  }

  lemma HelperIsMemory(m: Machine, op: IrOp, imm: nat)
    requires IsMem(op.kind) && Coherent(m.core, m.tables) && imm % 0x1_0000 == op.imm % 0x1_0000
    ensures Performed(Running(HelperMemory(m, op.kind, op.rt, op.rs, imm)), m, op)
  {
    hide HelperMemory, Performed, Transfer, Address, Coherent;
    var op' := IrOp(op.kind, 0, op.rs, op.rt, 0, imm, 0);
    MemoryByFields(m.core, op, op');
    if IsUnaligned(op.kind) { UnalignedHelper(m, op, op', imm); } else { AlignedHelper(m, op, op', imm); }
  }

  lemma UnalignedHelper(m: Machine, op: IrOp, op': IrOp, imm: nat)
    requires IsUnaligned(op.kind) && Coherent(m.core, m.tables) && op' == IrOp(op.kind, 0, op.rs, op.rt, 0, imm, 0)
    requires Address(m.core, op) == Address(m.core, op') && forall p :: Transfer(m.core, op, p) == Transfer(m.core, op', p)
    ensures Performed(Running(HelperMemory(m, op.kind, op.rt, op.rs, imm)), m, op)
  {
    hide Transfer, SoftTlb.Resolve, HandleException, Address, SoftTlb.Coherent, Tlb.OnException, AccessOf;
    TransferKeepsMmu(m.core, op);
    UnalignedCoherent(MmuOf(m.core, m.tables), Address(m.core, op), AccessOf(op.kind));
  }

  lemma AlignedHelper(m: Machine, op: IrOp, op': IrOp, imm: nat)
    requires !IsUnaligned(op.kind) && Coherent(m.core, m.tables) && op' == IrOp(op.kind, 0, op.rs, op.rt, 0, imm, 0)
    requires Address(m.core, op) == Address(m.core, op') && forall p :: Transfer(m.core, op, p) == Transfer(m.core, op', p)
    ensures Performed(Running(HelperMemory(m, op.kind, op.rt, op.rs, imm)), m, op)
  {
    hide Transfer, SoftTlb.Resolve, HandleException, Address, SoftTlb.Coherent, SoftTlb.ResolveHelper, Tlb.OnException, AccessOf;
    TransferKeepsMmu(m.core, op);
    SoftTlb.TranslateCoherent(MmuOf(m.core, m.tables), Address(m.core, op), WidthOf(op.kind).Size(), AccessOf(op.kind), true);
  }

  lemma UnalignedCoherent(mmu: SoftTlb.Mmu, va: SoftTlb.Tlb.u32, a: Tlb.Access)
    requires SoftTlb.Coherent(mmu)
    ensures SoftTlb.Coherent(SoftTlb.Missed(mmu, va))
  {
    hide Tlb.OnException, SoftTlb.Coherent;
    SoftTlb.ExceptionKeepsAsid(mmu.c, Tlb.SignExtend(va));
    SoftTlb.SameAsidCoherent(mmu, Tlb.OnException(mmu.c, Tlb.SignExtend(va)));
  }

  lemma HelperCallRuns(op: IrOp, m: Machine)
    requires IsMem(op.kind) && Coherent(m.core, m.tables)
    ensures Performed(Run(HelperCall(op), Running(m)), m, op)
  {
    hide Run, ExecRunning, CallHelper, HelperMemory, Memory, Interp.Coherent, Aborts, Imm32;
    var o, call := Imm32(op.imm), [Call(DoMem(op.kind))];
    assert HelperCall(op) == [MovImm(Rdi, op.rt)] + ([MovImm(Rsi, op.rs)] + ([MovImm(Rdx, o)] + call));
    ArgumentRuns(Rdi, op.rt, [MovImm(Rsi, op.rs)] + ([MovImm(Rdx, o)] + call), m);
    var m1 := Set(m, Rdi, Num(op.rt));
    ArgumentRuns(Rsi, op.rs, [MovImm(Rdx, o)] + call, m1);
    var m2 := Set(m1, Rsi, Num(op.rs));
    ArgumentRuns(Rdx, o, call, m2);
    var m3 := Set(m2, Rdx, Num(o));
    JumpRules();
    Run1(Call(DoMem(op.kind)), Running(m3));
    MemRule(m3, op, o);
    OffsetBits(op.imm);
    HelperIsMemory(m3, op, o % 0x1_0000);
  }

  lemma MemRule(m: Machine, op: IrOp, imm: u64)
    requires IsMem(op.kind) && m.rdi == Num(op.rt) && m.rsi == Num(op.rs) && m.rdx == Num(imm)
    ensures CallHelper(DoMem(op.kind), m) == Return(HelperMemory(m, op.kind, op.rt, op.rs, imm % 0x1_0000))
  {
    hide BranchTo, OffsetTarget, Truth, HelperMemory, HiLo, BranchLikelyTo, Link, Region, ReturnCore, Return, AddCount;
  }

  // ---- The two inlined paths ------------------------------------------------------------------------

  ghost predicate Finished(c: Config, m: Machine, op: IrOp, p: u64, i: nat) {
    c.Seeking? && c.l == Local(i, Done) && After(Running(c.m), m, Transfer(m.core, op, p))
  }

  ghost predicate GaveUp(c: Config, m: Machine, i: nat) { c.Seeking? && c.l == Local(i, Slow) && Same(c.m, m) }

  lemma AccessFree(op: IrOp, i: nat, l: Label)
    ensures Free(AccessCode(op) + [Jmp(Local(i, Done))], l)
  {}

  lemma FreeCat(a: seq<Instr>, b: seq<Instr>, l: Label)
    requires Free(a, l) && Free(b, l)
    ensures Free(a + b, l)
  {}

  /** After the tests: the access and the jump to the end, or nothing at all. */
  lemma TailRuns(op: IrOp, c: Config, m: Machine, p: u64, i: nat)
    requires IsPlainLoad(op.kind) || IsPlainStore(op.kind)
    requires !c.Fault? && Same(c.m, m)
    requires if p > MaxPaddr(op.kind) then c == Seeking(Local(i, Slow), c.m)
             else c.Running? && c.m.rax == Num(p) && c.m.rdx == Ptr(RdramBase)
    ensures var c' := Run(AccessCode(op) + [Jmp(Local(i, Done))], c);
      if p > MaxPaddr(op.kind) then GaveUp(c', m, i) else Finished(c', m, op, p, i)
  {
    hide Run, ExecRunning, AccessCode, Transfer;
    if p > MaxPaddr(op.kind) {
      AccessFree(op, i, Local(i, Slow));
      Skip(AccessCode(op) + [Jmp(Local(i, Done))], Local(i, Slow), c.m);
    } else {
      AccessRuns(op, c.m, p);
      RunCat(AccessCode(op), [Jmp(Local(i, Done))], c);
      Run1(Jmp(Local(i, Done)), Run(AccessCode(op), c));
      JumpRules();
    }
  }

  lemma DirectPathRuns(op: IrOp, m: Machine, va: u64, i: nat)
    requires (IsPlainLoad(op.kind) || IsPlainStore(op.kind)) && m.rcx == Num(va) && va < WORD
    ensures var c := Run(DirectPath(op, i), Running(m));
      if va % 0x2000_0000 > MaxPaddr(op.kind) then GaveUp(c, m, i) else Finished(c, m, op, va % 0x2000_0000, i)
  {
    hide Run, AccessCode, DirectTest, MaxPaddr, GaveUp, Finished;
    DirectTestRuns(op, m, va, i);
    assert DirectPath(op, i) == DirectTest(op, i) + (AccessCode(op) + [Jmp(Local(i, Done))]);
    RunCat(DirectTest(op, i), AccessCode(op) + [Jmp(Local(i, Done))], Running(m));
    TailRuns(op, Run(DirectTest(op, i), Running(m)), m, va % 0x2000_0000, i);
  }

  predicate SoftHit(m: Machine, op: IrOp, va: nat) {
    && va % 0x1000 + WidthOf(op.kind).Size() <= 0x1000
    && SlotOf(m, op, va).vpn == va / 0x1000
    && SlotOf(m, op, va).page + va % 0x1000 <= MaxPaddr(op.kind)
  }

  lemma TestsFree(op: IrOp, i: nat, l: Label)
    ensures Free(SlotTest(op, i), l) && Free(RangeTest(op, i), l)
  {}

  lemma SoftTestsRun(op: IrOp, m: Machine, va: u64, i: nat)
    requires m.rcx == Num(va) && va < WORD
    ensures var c := Run(PageTest(op, i) + SlotTest(op, i) + RangeTest(op, i), Running(m));
      && !c.Fault? && Same(c.m, m)
      && (if SoftHit(m, op, va)
          then (c.Running? && c.m.rax == Num(SlotOf(m, op, va).page + va % 0x1000) && c.m.rdx == Ptr(RdramBase))
          else c == Seeking(Local(i, Slow), c.m))
  {
    hide Run, PageTest, SlotTest, RangeTest, SlotOf, MaxPaddr, Free;
    RunCat(PageTest(op, i) + SlotTest(op, i), RangeTest(op, i), Running(m));
    RunCat(PageTest(op, i), SlotTest(op, i), Running(m));
    TestsFree(op, i, Local(i, Slow));
    PageTestRuns(op, m, va, i);
    var c1 := Run(PageTest(op, i), Running(m));
    if c1.Running? { SlotTestRuns(op, c1.m, va, i); } else { Skip(SlotTest(op, i), Local(i, Slow), c1.m); }
    SlotOfSame(c1.m, m, op, va);
    var c2 := Run(SlotTest(op, i), c1);
    if c2.Running? { RangeTestRuns(op, c2.m, va, i); } else { Skip(RangeTest(op, i), Local(i, Slow), c2.m); }
    SlotOfSame(c2.m, m, op, va);
  }

  lemma SlotOfSame(m': Machine, m: Machine, op: IrOp, va: nat)
    requires Same(m', m)
    ensures SlotOf(m', op, va) == SlotOf(m, op, va)
  {}

  lemma SoftPathRuns(op: IrOp, m: Machine, va: u64, i: nat)
    requires (IsPlainLoad(op.kind) || IsPlainStore(op.kind)) && m.rcx == Num(va) && va < WORD
    ensures var c := Run(SoftPath(op, i), Running(m));
      if SoftHit(m, op, va) then Finished(c, m, op, SlotOf(m, op, va).page + va % 0x1000, i) else GaveUp(c, m, i)
  {
    hide Run, AccessCode, PageTest, SlotTest, RangeTest, SlotOf, MaxPaddr, GaveUp, Finished, SoftHit;
    var tests := PageTest(op, i) + SlotTest(op, i) + RangeTest(op, i);
    var tail := AccessCode(op) + [Jmp(Local(i, Done))];
    SoftTestsRun(op, m, va, i);
    assert SoftPath(op, i) == tests + tail;
    RunCat(tests, tail, Running(m));
    var p: u64 := if SoftHit(m, op, va) then SlotOf(m, op, va).page + va % 0x1000 else WORD;
    HitBound(m, op, va);
    TailRuns(op, Run(tests, Running(m)), m, p, i);
  }

  lemma HitBound(m: Machine, op: IrOp, va: nat)
    ensures MaxPaddr(op.kind) < WORD
    ensures SoftHit(m, op, va) ==> SlotOf(m, op, va).page + va % 0x1000 <= MaxPaddr(op.kind)
  {}

  // ---- The whole operation --------------------------------------------------------------------------

  lemma DirectFree(op: IrOp, i: nat)
    ensures Free(DirectPath(op, i), Local(i, TrySoft))
  {
    hide AccessCode, MaxPaddr;
    AccessFree(op, i, Local(i, TrySoft));
    assert DirectPath(op, i) == DirectTest(op, i) + (AccessCode(op) + [Jmp(Local(i, Done))]);
  }

  function SoftPart(op: IrOp, i: nat): seq<Instr> { [Lbl(Local(i, TrySoft))] + SoftPath(op, i) }
  function EndPart(op: IrOp, i: nat): seq<Instr> { [Lbl(Local(i, Slow))] + HelperCall(op) + [Lbl(Local(i, Done))] }

  lemma SoftFree(op: IrOp, i: nat, l: Label)
    requires l == Local(i, Slow) || l == Local(i, Done)
    ensures Free(SoftPart(op, i), l)
  {
    AccessFree(op, i, l);
    TestsFree(op, i, l);
    hide AccessCode, MaxPaddr, SlotTest, RangeTest;
    var tests := PageTest(op, i) + SlotTest(op, i) + RangeTest(op, i);
    assert SoftPath(op, i) == tests + (AccessCode(op) + [Jmp(Local(i, Done))]);
  }

  lemma HitIsTranslation(op: IrOp, m: Machine, va: SoftTlb.Tlb.u32)
    requires (IsPlainLoad(op.kind) || IsPlainStore(op.kind)) && Coherent(m.core, m.tables)
    requires !IsDirect(va) && SoftHit(m, op, va)
    ensures SoftTlb.Resolve(m.core.es, m.core.c.hi, va, AccessOf(op.kind)) == Tlb.Hit(SlotOf(m, op, va).page + va % 0x1000)
  {
    hide SoftTlb.Resolve;
    assert SoftTlb.Agrees(MmuOf(m.core, m.tables), va, AccessOf(op.kind));
  }

  lemma FinishedPerforms(c: Config, m: Machine, op: IrOp, p: u64, i: nat)
    requires Finished(c, m, op, p, i) && Coherent(m.core, m.tables)
    requires SoftTlb.Resolve(m.core.es, m.core.c.hi, Address(m.core, op), AccessOf(op.kind)) == Tlb.Hit(p)
    ensures Performed(Running(c.m), m, op)
  {
    hide SoftTlb.Resolve, Transfer, Address, SoftTlb.Coherent;
    TransferKeepsMmu(m.core, op);
  }

  lemma EndRuns(op: IrOp, c: Config, m: Machine, i: nat)
    requires IsMem(op.kind) && Coherent(m.core, m.tables)
    requires GaveUp(c, m, i) || (c.Seeking? && c.l == Local(i, Done) && Performed(Running(c.m), m, op))
    ensures Performed(Run(EndPart(op, i), c), m, op)
  {
    hide Run, ExecRunning, Performed, HelperCall, Interp.Coherent;
    RunCat([Lbl(Local(i, Slow))] + HelperCall(op), [Lbl(Local(i, Done))], c);
    RunCat([Lbl(Local(i, Slow))], HelperCall(op), c);
    Run1(Lbl(Local(i, Slow)), c);
    JumpRules();
    if c.l == Local(i, Slow) {
      SamePerforms(c.m, m, op);
      HelperCallRuns(op, c.m);
    } else {
      HelperFree(op, i);
      Skip(HelperCall(op), Local(i, Done), c.m);
    }
    var c' := Run(HelperCall(op), Exec(Lbl(Local(i, Slow)), c));
    Run1(Lbl(Local(i, Done)), c');
    PerformedRuns(c', m, op);
  }

  lemma PerformedRuns(c: Config, m: Machine, op: IrOp)
    ensures Performed(c, m, op) ==> c.Running?
  {}

  lemma HelperFree(op: IrOp, i: nat)
    ensures Free(HelperCall(op), Local(i, Done))
  {
    hide Imm32;
  }

  lemma SamePerforms(m': Machine, m: Machine, op: IrOp)
    requires Same(m', m)
    ensures Coherent(m'.core, m'.tables) == Coherent(m.core, m.tables)
    ensures forall c :: Performed(c, m', op) == Performed(c, m, op)
  {
    hide Memory, Aborts, Interp.Coherent;
  }

  /** A pass that looks for the software-TLB path takes it; one that is past it is left alone. */
  lemma SoftPartRuns(op: IrOp, c: Config, m: Machine, va: u64, i: nat)
    requires (IsPlainLoad(op.kind) || IsPlainStore(op.kind)) && Coherent(m.core, m.tables)
    requires m.rcx == Num(va) && va == Address(m.core, op) && !IsDirect(va)
    requires c.Seeking? && c.l == Local(i, TrySoft) && Same(c.m, m)
    ensures var c' := Run(SoftPart(op, i), c);
      GaveUp(c', m, i) || (c'.Seeking? && c'.l == Local(i, Done) && Performed(Running(c'.m), m, op))
  {
    hide Run, ExecRunning, SoftPath, Performed, Interp.Coherent, Address, Transfer, SoftHit, SlotOf, SoftTlb.Resolve;
    RunCat([Lbl(Local(i, TrySoft))], SoftPath(op, i), c);
    Run1(Lbl(Local(i, TrySoft)), c);
    JumpRules();
    SoftPathRuns(op, c.m, va, i);
    SamePerforms(c.m, m, op);
    SlotOfSame(c.m, m, op, va);
    if SoftHit(c.m, op, va) {
      HitIsTranslation(op, c.m, va);
      FinishedPerforms(Run(SoftPath(op, i), Running(c.m)), c.m, op, SlotOf(m, op, va).page + va % 0x1000, i);
    }
  }

  lemma DirectPartRuns(op: IrOp, m: Machine, va: u64, i: nat)
    requires (IsPlainLoad(op.kind) || IsPlainStore(op.kind)) && Coherent(m.core, m.tables)
    requires m.rcx == Num(va) && va == Address(m.core, op) && IsDirect(va)
    ensures var c' := Run(DirectPath(op, i), Running(m));
      GaveUp(c', m, i) || (c'.Seeking? && c'.l == Local(i, Done) && Performed(Running(c'.m), m, op))
  {
    hide Run, DirectPath, Performed, Interp.Coherent, Address, Transfer, GaveUp, Finished;
    DirectPathRuns(op, m, va, i);
    if va % 0x2000_0000 <= MaxPaddr(op.kind) {
      FinishedPerforms(Run(DirectPath(op, i), Running(m)), m, op, va % 0x2000_0000, i);
    }
    DoneSeeks(Run(DirectPath(op, i), Running(m)), m, op, va % 0x2000_0000, i);
  }

  lemma DoneSeeks(c: Config, m: Machine, op: IrOp, p: u64, i: nat)
    ensures Finished(c, m, op, p, i) ==> c.Seeking? && c.l == Local(i, Done)
  {}

  /** From the address on. */
  lemma PathsRun(op: IrOp, m: Machine, va: u64, i: nat, c: Config)
    requires (IsPlainLoad(op.kind) || IsPlainStore(op.kind)) && Coherent(m.core, m.tables)
    requires m.rcx == Num(va) && va == Address(m.core, op) && !c.Fault? && Same(c.m, m)
    requires if IsDirect(va) then c.Running? else c == Seeking(Local(i, TrySoft), c.m)
    ensures Performed(Run(DirectPath(op, i) + SoftPart(op, i) + EndPart(op, i), c), m, op)
  {
    hide Run, DirectPath, SoftPart, EndPart, Performed, Interp.Coherent, Address, Transfer, Free;
    RunCat(DirectPath(op, i) + SoftPart(op, i), EndPart(op, i), c);
    RunCat(DirectPath(op, i), SoftPart(op, i), c);
    SamePerforms(c.m, m, op);
    if IsDirect(va) {
      DirectPartRuns(op, c.m, va, i);
      var c' := Run(DirectPath(op, i), c);
      SoftFree(op, i, c'.l);
      Skip(SoftPart(op, i), c'.l, c'.m);
    } else {
      DirectFree(op, i);
      Skip(DirectPath(op, i), Local(i, TrySoft), c.m);
      SoftPartRuns(op, c, m, va, i);
    }
    EndRuns(op, Run(SoftPart(op, i), Run(DirectPath(op, i), c)), m, i);
  }

  lemma PlainMemRuns(op: IrOp, m: Machine, i: nat)
    requires (IsPlainLoad(op.kind) || IsPlainStore(op.kind)) && Coherent(m.core, m.tables)
    ensures Performed(Run(MemCode(op, i), Running(m)), m, op)
  {
    hide Run, DirectPath, Performed, Interp.Coherent, Address, AddressCode, SegmentTest, HelperCall, SoftPath;
    var va := Address(m.core, op);
    var paths := DirectPath(op, i) + SoftPart(op, i) + EndPart(op, i);
    assert MemCode(op, i) == AddressCode(op) + SegmentTest(i) + paths;
    RunCat(AddressCode(op) + SegmentTest(i), paths, Running(m));
    RunCat(AddressCode(op), SegmentTest(i), Running(m));
    AddressRuns(op, m);
    var m1 := Run(AddressCode(op), Running(m)).m;
    SegmentRuns(m1, m1.rax.n, va, i);
    SamePerforms(m1, m.(rcx := Num(va)), op);
    RcxPerforms(m, va, op);
    PathsRun(op, m1, va, i, Run(SegmentTest(i), Running(m1)));
  }

  lemma RcxPerforms(m: Machine, va: u64, op: IrOp)
    ensures forall c :: Performed(c, m.(rcx := Num(va)), op) == Performed(c, m, op)
  {
    hide Memory, Aborts, Interp.Coherent;
  }

  /** Every load's and store's code leaves the interpreter's state, and keeps the software TLB coherent. */
  lemma MemRuns(op: IrOp, m: Machine, i: nat)
    requires IsMem(op.kind) && Coherent(m.core, m.tables)
    ensures Performed(Run(MemCode(op, i), Running(m)), m, op)
  {
    hide Run, Performed, Interp.Coherent, DirectPath, AddressCode, SegmentTest, HelperCall, SoftPath;
    if IsUnaligned(op.kind) { HelperCallRuns(op, m); } else { PlainMemRuns(op, m, i); }
  }
}
