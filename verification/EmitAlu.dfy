/** The emitted straight-line code does what the interpreter's instruction does: register moves, arithmetic,
    shifts, immediates, HI and LO. */
module EmitAlu {
  import opened Bits
  import opened ByteOrder
  import opened Cpu
  import opened Timer
  import opened X86
  import opened Emitter
  import opened Sra

  /** A pass that ends normally with this core, and with everything else a block relies on as it was. */
  ghost predicate After(c: Config, m: Machine, s: Core) {
    && c.Running?
    && c.m.core == s && c.m.tables == m.tables && c.m.timer == m.timer
    && c.m.aborted == m.aborted && c.m.annul == m.annul && c.m.rbx == m.rbx
  }

  /** Passing an immediate argument, and returning from a call. */
  lemma ArgumentRuns(r: Reg, n: u64, code: seq<Instr>, m: Machine)
    ensures Run([MovImm(r, n)] + code, Running(m)) == Run(code, Running(Set(m, r, Num(n))))
  {
    hide Run, ExecRunning, Set;
    MoveRules();
    RunCat([MovImm(r, n)], code, Running(m));
    Run1(MovImm(r, n), Running(m));
  }

  lemma CallRuns(f: Helper, m: Machine, s: Core)
    requires CallHelper(f, m) == ReturnCore(m, s)
    ensures After(Run([Call(f)], Running(m)), m, s)
  {
    hide Run, ExecRunning, CallHelper;
    JumpRules();
    Run1(Call(f), Running(m));
  }

  lemma LoadGpr(m: Machine, r: RegNum)
    ensures Run(GprToRax(r), Running(m)) ==
      Running(m.(rax := Num(Gpr(m.core, r)), flags := if r == 0 then Undefined else m.flags))
  {
    hide Run, ExecRunning;
    MoveRules(); ArithRules(); CellRules();
    if r == 0 {
      Run1(Zero(Rax), Running(m));
    } else {
      var c := Exec(MovPtr(Rax, GprCell(r)), Running(m));
      assert c == Running(m.(rax := Ptr(GprCell(r))));
      Run2(MovPtr(Rax, GprCell(r)), LoadQ(Rax, Rax), Running(m));
    }
  }

  lemma StoreGpr(m: Machine, r: RegNum, v: u64)
    requires m.rax == Num(v)
    ensures After(Run(RaxToGpr(r), Running(m)), m, SetGpr(m.core, r, v))
  {
    if r != 0 {
      hide Run, ExecRunning;
      MoveRules(); CellRules();
      Run2(MovPtr(Rdx, GprCell(r)), StoreQ(Rdx, Rax), Running(m));
    }
  }

  lemma LoadBoth(m: Machine, rs: RegNum, rt: RegNum)
    ensures var c := Run(LoadTwo(rs, rt), Running(m));
      After(c, m, m.core) && c.m.r12 == Num(Gpr(m.core, rs)) && c.m.rax == Num(Gpr(m.core, rt))
  {
    hide Run, ExecRunning, GprToRax;
    MoveRules();
    LoadGpr(m, rs);
    var c := Run(GprToRax(rs), Running(m));
    RunCat(GprToRax(rs) + [Mov64(R12, Rax)], GprToRax(rt), Running(m));
    RunCat(GprToRax(rs), [Mov64(R12, Rax)], Running(m));
    Run1(Mov64(R12, Rax), c);
    LoadGpr(Exec(Mov64(R12, Rax), c).m, rt);
  }

  // ---- Words ----------------------------------------------------------------------------------------

  lemma SextLow(x: nat)
    ensures Sext32(Lo32(x)) == Sext32(x) && Lo32(Lo32(x)) == Lo32(x)
  {
    assert Lo32(Lo32(x)) == Lo32(x);
  }

  lemma SmallLow(x: nat)
    requires x < WORD
    ensures Lo32(x) == x
  {}

  lemma SextTruth(b: bool, n: nat)
    requires n % 0x100 == 0
    ensures Sext32((n + Odd(b)) % 0x100) == Odd(b)
  {}

  /** What each emitted sequence leaves in rax. */
  function RegisterValue(k: Kind, rs: u64, rt: u64): u64 {
    match k
    case Add | Addu => Sext32(Value(AddA, false, Lo32(rs), Lo32(rt)))
    case Sub | Subu => Sext32(Value(SubA, false, Lo32(rs), Lo32(rt)))
    case AndOp => Value(AndA, true, rt, rs)
    case OrOp => Value(OrA, true, rt, rs)
    case XorOp => Value(XorA, true, rt, rs)
    case Nor => Value(NotA, true, Value(OrA, true, rt, rs), 0)
    case Slt => Odd(Signed(rs) < Signed(rt))
    case Sltu => Odd(rs < rt)
    case Daddu => Value(AddA, true, rt, rs)
    case _ => Value(SubA, true, rs, rt)
  }

  lemma Sum32Runs(op: AluOp, m: Machine, rs: u64, rt: u64)
    requires m.r12 == Num(rs) && m.rax == Num(rt)
    ensures var c := Run([Mov32(Rcx, Rax), Mov32(Rax, R12), Alu(op, false, Rax, R(Rcx)), Cdqe], Running(m));
      After(c, m, m.core) && c.m.rax == Num(Sext32(Value(op, false, Lo32(rs), Lo32(rt))))
  {
    hide Run, ExecRunning, Value, Sext32, Lo32;
    MoveRules(); ArithRules();
    Run4(Mov32(Rcx, Rax), Mov32(Rax, R12), Alu(op, false, Rax, R(Rcx)), Cdqe, Running(m));
    var c := Exec(Mov32(Rax, R12), Exec(Mov32(Rcx, Rax), Running(m)));
    assert c == Running(m.(rcx := Num(Lo32(rt)), rax := Num(Lo32(rs))));
  }

  lemma OrderRuns(cc: Cond, m: Machine, rs: u64, rt: u64)
    requires m.r12 == Num(rs) && m.rax == Num(rt)
    ensures var c := Run([Cmp64(R12, Rax), SetCc(cc, Rax), Movzx8(Rax, Rax), Cdqe], Running(m));
      After(c, m, m.core)
      && c.m.rax == Num(Odd(Holds(cc, Compared(rs < rt, rs == rt, Signed(rs) < Signed(rt)))))
  {
    hide Run, ExecRunning, Signed, Holds, Sext32, Odd;
    TestRules(); SetRules(); ArithRules();
    Run4(Cmp64(R12, Rax), SetCc(cc, Rax), Movzx8(Rax, Rax), Cdqe, Running(m));
    var f := Compared(rs < rt, rs == rt, Signed(rs) < Signed(rt));
    var c1 := Exec(Cmp64(R12, Rax), Running(m));
    assert c1 == Running(m.(flags := f));
    var b := Holds(cc, f);
    SextTruth(b, rt - rt % 0x100);
    var c2 := Exec(SetCc(cc, Rax), c1);
    assert c2 == Running(c1.m.(rax := Num(rt - rt % 0x100 + Odd(b))));
    var c3 := Exec(Movzx8(Rax, Rax), c2);
    assert c3 == Running(c2.m.(rax := Num((rt - rt % 0x100 + Odd(b)) % 0x100)));
  }

  lemma WideRuns(op: AluOp, m: Machine, rs: u64, rt: u64)
    requires m.r12 == Num(rs) && m.rax == Num(rt)
    ensures var c := Run([Alu(op, true, Rax, R(R12))], Running(m));
      After(c, m, m.core) && c.m.rax == Num(Value(op, true, rt, rs)) && c.m.r12 == m.r12
  {
    hide Run, ExecRunning, Value;
    ArithRules();
    Run1(Alu(op, true, Rax, R(R12)), Running(m));
  }

  lemma NorRuns(m: Machine, rs: u64, rt: u64)
    requires m.r12 == Num(rs) && m.rax == Num(rt)
    ensures var c := Run(RegisterCore(Nor), Running(m));
      After(c, m, m.core) && c.m.rax == Num(RegisterValue(Nor, rs, rt))
  {
    hide Run, ExecRunning, Value;
    ArithRules();
    Run2(Alu(OrA, true, Rax, R(R12)), Alu(NotA, true, Rax, I(0)), Running(m));
  }

  lemma DsubuRuns(m: Machine, rs: u64, rt: u64)
    requires m.r12 == Num(rs) && m.rax == Num(rt)
    ensures var c := Run(RegisterCore(Dsubu), Running(m));
      After(c, m, m.core) && c.m.rax == Num(Value(SubA, true, rs, rt))
  {
    hide Run, ExecRunning, Value;
    ArithRules(); MoveRules();
    Run3(Mov64(Rcx, Rax), Mov64(Rax, R12), Alu(SubA, true, Rax, R(Rcx)), Running(m));
    var c := Exec(Mov64(Rax, R12), Exec(Mov64(Rcx, Rax), Running(m)));
    assert c == Running(m.(rcx := Num(rt), rax := Num(rs)));
  }

  lemma RegisterCoreRuns(k: Kind, m: Machine, rs: u64, rt: u64)
    requires IsRegister(k) && m.r12 == Num(rs) && m.rax == Num(rt)
    ensures var c := Run(RegisterCore(k), Running(m));
      After(c, m, m.core) && c.m.rax == Num(RegisterValue(k, rs, rt))
  {
    hide Run, After, RegisterCore, RegisterValue;
    match k
    case Add | Addu | Sub | Subu => Sum32CoreRuns(k, m, rs, rt);
    case AndOp | OrOp | XorOp | Nor => LogicCoreRuns(k, m, rs, rt);
    case _ => OtherCoreRuns(k, m, rs, rt);
  }

  lemma Sum32CoreRuns(k: Kind, m: Machine, rs: u64, rt: u64)
    requires k.Add? || k.Addu? || k.Sub? || k.Subu?
    requires m.r12 == Num(rs) && m.rax == Num(rt)
    ensures var c := Run(RegisterCore(k), Running(m));
      After(c, m, m.core) && c.m.rax == Num(RegisterValue(k, rs, rt))
  {
    hide Run, After, Value, Sext32, Lo32;
    Sum32Runs(if k.Add? || k.Addu? then AddA else SubA, m, rs, rt);
  }

  lemma LogicCoreRuns(k: Kind, m: Machine, rs: u64, rt: u64)
    requires k.AndOp? || k.OrOp? || k.XorOp? || k.Nor?
    requires m.r12 == Num(rs) && m.rax == Num(rt)
    ensures var c := Run(RegisterCore(k), Running(m));
      After(c, m, m.core) && c.m.rax == Num(RegisterValue(k, rs, rt))
  {
    hide Run, After, Value;
    if k.Nor? { NorRuns(m, rs, rt); } else { WideRuns(if k.AndOp? then AndA else if k.OrOp? then OrA else XorA, m, rs, rt); }
  }

  lemma OtherCoreRuns(k: Kind, m: Machine, rs: u64, rt: u64)
    requires k.Slt? || k.Sltu? || k.Daddu? || k.Dsubu?
    requires m.r12 == Num(rs) && m.rax == Num(rt)
    ensures var c := Run(RegisterCore(k), Running(m));
      After(c, m, m.core) && c.m.rax == Num(RegisterValue(k, rs, rt))
  {
    hide Run, After, Value, Signed;
    match k
    case Slt => OrderRuns(L, m, rs, rt);
    case Sltu => OrderRuns(B, m, rs, rt);
    case Daddu => WideRuns(AddA, m, rs, rt);
    case _ => DsubuRuns(m, rs, rt);
  }

  lemma RegisterValueIsResult(k: Kind, rs: u64, rt: u64)
    requires IsRegister(k)
    ensures RegisterValue(k, rs, rt) == RegisterResult(k, rs, rt)
  {
    hide RegisterValue, RegisterResult;
    match k
    case Add | Addu | Sub | Subu => SumIsResult(k, rs, rt);
    case AndOp | OrOp | XorOp | Nor => LogicIsResult(k, rs, rt);
    case _ => OtherIsResult(k, rs, rt);
  }

  lemma SumIsResult(k: Kind, rs: u64, rt: u64)
    requires k.Add? || k.Addu? || k.Sub? || k.Subu?
    ensures RegisterValue(k, rs, rt) == RegisterResult(k, rs, rt)
  {
    hide Zip, Sext32;
    SextLow(Lo32(rs) + Lo32(rt));
  }

  lemma LogicIsResult(k: Kind, rs: u64, rt: u64)
    requires k.AndOp? || k.OrOp? || k.XorOp? || k.Nor?
    ensures RegisterValue(k, rs, rt) == RegisterResult(k, rs, rt)
  {
    hide Zip;
    match k
    case AndOp => ZipSwap(AND, rs, rt);
    case OrOp => ZipSwap(OR, rs, rt);
    case XorOp => ZipSwap(XOR, rs, rt);
    case _ => ZipSwap(OR, rs, rt); OrFits(rt, rs);
  }

  lemma OtherIsResult(k: Kind, rs: u64, rt: u64)
    requires k.Slt? || k.Sltu? || k.Daddu? || k.Dsubu?
    ensures RegisterValue(k, rs, rt) == RegisterResult(k, rs, rt)
  {
    hide Zip, Signed;
  }

  lemma OrFits(a: u64, b: u64)
    ensures Or(a, b) < DOUBLE
  {
    hide Zip, Shl;
    ShlWords(1);
    ZipBound(OR, a, b, 64);
  }

  // ---- Shifts ---------------------------------------------------------------------------------------

  /** What the emitted shift leaves in rax, with the amount in cl. */
  function ShiftValue(k: Kind, n: u64, rt: u64): u64 {
    if Is64Shift(k) then Value(ShiftOp(k), true, rt, n) else Sext32(Value(ShiftOp(k), false, rt, n))
  }

  lemma ShiftByClRuns(k: Kind, m: Machine, n: u64, rt: u64)
    requires IsShift(k) && m.rcx == Num(n) && m.rax == Num(rt)
    ensures var c := Run(ShiftByCl(k), Running(m)); After(c, m, m.core) && c.m.rax == Num(ShiftValue(k, n, rt))
  {
    hide Run, ExecRunning, Value, Sext32, ShiftOp;
    ArithRules();
    if Is64Shift(k) {
      Run1(Alu(ShiftOp(k), true, Rax, R(Rcx)), Running(m));
    } else {
      Run2(Alu(ShiftOp(k), false, Rax, R(Rcx)), Cdqe, Running(m));
    }
  }

  function ConstantAmount(op: IrOp): u64 {
    if op.kind.Dsll32? || op.kind.Dsrl32? || op.kind.Dsra32? then op.sa + 32 else op.sa
  }

  lemma ShiftAmountRuns(op: IrOp, m: Machine)
    ensures Run(ShiftAmount(op), Running(m)) == Running(m.(rcx := Num(ConstantAmount(op))))
  {
    hide Run, ExecRunning;
    MoveRules();
    if op.kind.Dsll32? || op.kind.Dsrl32? || op.kind.Dsra32? {
      Run2(MovImm(Rcx, op.sa), MovImm(Rcx, op.sa + 32), Running(m));
    } else {
      Run1(MovImm(Rcx, op.sa), Running(m));
    }
  }

  lemma LowFive(x: nat)
    ensures Lo32(And(Lo32(x), 31)) == x % 32
  {
    hide Zip;
    var y := Lo32(x);
    assert Shl(1, 5) == 32 by { ShlStep(1, 4); ShlValues(1); }
    assert Shl(y / 32, 5) == y / 32 * 32 by { ShlStep(y / 32, 4); ShlValues(y / 32); }
    hide Shl;
    AndLow(y / 32, y % 32, 5);
    assert y % 32 == x % 32;
  }

  lemma VariableAmountRuns(m: Machine, rs: u64)
    requires m.rax == Num(rs)
    ensures var c := Run([Mov32(Rcx, Rax), Alu(AndA, false, Rcx, I(31))], Running(m));
      After(c, m, m.core) && c.m.rcx == Num(rs % 32)
  {
    hide Run, ExecRunning, Lo32, And;
    MoveRules(); ArithRules();
    Run2(Mov32(Rcx, Rax), Alu(AndA, false, Rcx, I(31)), Running(m));
    LowFive(rs);
    SextLow(rs);
    SmallLow(31);
  }

  function AmountOf(op: IrOp, rs: u64): u64 { if IsVariableShift(op.kind) then rs % 32 else ConstantAmount(op) }

  lemma ShiftCodeRuns(op: IrOp, m: Machine)
    requires IsShift(op.kind)
    ensures var c := Run(ShiftCode(op), Running(m));
      && After(c, m, m.core)
      && c.m.rax == Num(ShiftValue(op.kind, AmountOf(op, Gpr(m.core, op.rs)), Gpr(m.core, op.rt)))
  {
    hide Run, ShiftValue, GprToRax, ShiftByCl, ShiftAmount, ConstantAmount, Gpr;
    if IsVariableShift(op.kind) {
      var amount := [Mov32(Rcx, Rax), Alu(AndA, false, Rcx, I(31))];
      RunCat(GprToRax(op.rs) + amount + GprToRax(op.rt), ShiftByCl(op.kind), Running(m));
      RunCat(GprToRax(op.rs) + amount, GprToRax(op.rt), Running(m));
      RunCat(GprToRax(op.rs), amount, Running(m));
      LoadGpr(m, op.rs);
      var m1 := Run(GprToRax(op.rs), Running(m)).m;
      VariableAmountRuns(m1, Gpr(m.core, op.rs));
      var m2 := Run(amount, Running(m1)).m;
      LoadGpr(m2, op.rt);
      ShiftByClRuns(op.kind, Run(GprToRax(op.rt), Running(m2)).m, Gpr(m.core, op.rs) % 32, Gpr(m.core, op.rt));
    } else {
      RunCat(GprToRax(op.rt) + ShiftAmount(op), ShiftByCl(op.kind), Running(m));
      RunCat(GprToRax(op.rt), ShiftAmount(op), Running(m));
      LoadGpr(m, op.rt);
      var m1 := Run(GprToRax(op.rt), Running(m)).m;
      ShiftAmountRuns(op, m1);
      ShiftByClRuns(op.kind, Run(ShiftAmount(op), Running(m1)).m, ConstantAmount(op), Gpr(m.core, op.rt));
    }
  }

  /** SRA and SRAV need an operand whose sign fills the bits shifted in. */
  ghost predicate ShiftExact(op: IrOp, rs: u64, rt: u64) {
    && (op.kind.Sra? ==> SignFills(rt, op.sa))
    && (op.kind.Srav? ==> SignFills(rt, rs % 32))
  }

  lemma LeftShiftValue(rt: u64, n: nat)
    ensures Sext32(Lo32(Shl(Lo32(rt), n))) == Sext32(Wrap(Shl(rt, n)))
    ensures Sext32(Lo32(Shl(Lo32(rt), n))) == Sext32(Shl(Lo32(rt), n))
  {
    hide Shl, Sext32, Wrap, Lo32;
    var a, b := Shl(rt, n), Shl(Lo32(rt), n);
    assert Lo32(a) == Lo32(b) by { ShlLow32(rt, n); LowIsRest(rt); LowIsRest(a); LowIsRest(b); }
    SextLow(a); SextLow(b);
    assert Lo32(Wrap(a)) == Lo32(a) by { WrapLow(a); LowIsRest(a); LowIsRest(Wrap(a)); }
    SextLow(Wrap(a));
  }

  lemma LowIsRest(x: nat)
    ensures Lo32(x) == x % WORD
  {}

  lemma ShiftValueIsResult(op: IrOp, rs: u64, rt: u64)
    requires IsShift(op.kind)
    ensures ShiftValue(op.kind, AmountOf(op, rs), rt) == ShiftResult(op.kind, op.sa, rs, rt)
      <==> ShiftExact(op, rs, rt)
  {
    hide Shl, Right, Sext32, Signed, Signed32, SignFills, Lo32, Wrap;
    var n := AmountOf(op, rs);
    match op.kind
    case Sll | Sllv => LeftShiftValue(rt, n);
    case Srl | Srlv => SextLow(Right(Lo32(rt), n));
    case Sra | Srav => SraAgreesIff(rt, n);
    case _ =>
  }

  // ---- Immediates -----------------------------------------------------------------------------------

  function ImmediateValue(k: Kind, imm: nat, rs: u64): u64 {
    match k
    case Addiu => Sext32(Value(AddA, false, rs, Sext16(imm)))
    case Andi => Value(AndA, true, rs, imm % 0x1_0000)
    case Ori => Value(OrA, true, rs, imm % 0x1_0000)
    case Xori => Value(XorA, true, rs, imm % 0x1_0000)
    case Lui => Sext32(imm % 0x1_0000 * 0x1_0000)
    case Slti => Odd(Signed(rs) < Signed(Sext16(imm)))
    case Sltiu => Odd(rs < Sext16(imm))
    case _ => Value(AddA, true, rs, Sext16(imm))
  }

  lemma ImmediateOrderRuns(cc: Cond, m: Machine, rs: u64, n: u64)
    requires m.rax == Num(rs)
    ensures var c := Run([MovImm(Rcx, n)] + [Cmp64(Rax, Rcx), SetCc(cc, Rax), Movzx8(Rax, Rax), Cdqe], Running(m));
      && After(c, m, m.core)
      && c.m.rax == Num(Odd(Holds(cc, Compared(rs < n, rs == n, Signed(rs) < Signed(n)))))
  {
    hide Run, ExecRunning, Signed, Holds, Sext32, Odd;
    MoveRules(); TestRules(); SetRules(); ArithRules();
    var tail := [Cmp64(Rax, Rcx), SetCc(cc, Rax), Movzx8(Rax, Rax), Cdqe];
    RunCat([MovImm(Rcx, n)], tail, Running(m));
    Run1(MovImm(Rcx, n), Running(m));
    var m0 := m.(rcx := Num(n));
    Run4(Cmp64(Rax, Rcx), SetCc(cc, Rax), Movzx8(Rax, Rax), Cdqe, Running(m0));
    var f := Compared(rs < n, rs == n, Signed(rs) < Signed(n));
    var c1 := Exec(Cmp64(Rax, Rcx), Running(m0));
    assert c1 == Running(m0.(flags := f));
    var b := Holds(cc, f);
    SextTruth(b, rs - rs % 0x100);
    var c2 := Exec(SetCc(cc, Rax), c1);
    assert c2 == Running(c1.m.(rax := Num(rs - rs % 0x100 + Odd(b))));
    var c3 := Exec(Movzx8(Rax, Rax), c2);
    assert c3 == Running(c2.m.(rax := Num((rs - rs % 0x100 + Odd(b)) % 0x100)));
  }

  lemma MaskRuns(op: AluOp, m: Machine, rs: u64, n: u64)
    requires m.rax == Num(rs)
    ensures var c := Run([Alu(op, true, Rax, I(n))], Running(m));
      After(c, m, m.core) && c.m.rax == Num(Value(op, true, rs, n))
  {
    hide Run, ExecRunning, Value;
    ArithRules();
    Run1(Alu(op, true, Rax, I(n)), Running(m));
  }

  lemma AddiuRuns(m: Machine, rs: u64, n: u64)
    requires m.rax == Num(rs)
    ensures var c := Run([Alu(AddA, false, Rax, I(n)), Cdqe], Running(m));
      After(c, m, m.core) && c.m.rax == Num(Sext32(Value(AddA, false, rs, n)))
  {
    hide Run, ExecRunning, Value, Sext32;
    ArithRules();
    Run2(Alu(AddA, false, Rax, I(n)), Cdqe, Running(m));
  }

  lemma LuiRuns(m: Machine, n: u64)
    ensures var c := Run([MovImm(Rax, n), Cdqe], Running(m)); After(c, m, m.core) && c.m.rax == Num(Sext32(n))
  {
    hide Run, ExecRunning, Sext32;
    ArithRules(); MoveRules();
    Run2(MovImm(Rax, n), Cdqe, Running(m));
  }

  lemma DaddiuRuns(m: Machine, rs: u64, n: u64)
    requires m.rax == Num(rs)
    ensures var c := Run([MovImm(Rcx, n), Alu(AddA, true, Rax, R(Rcx))], Running(m));
      After(c, m, m.core) && c.m.rax == Num(Value(AddA, true, rs, n))
  {
    hide Run, ExecRunning, Value;
    ArithRules(); MoveRules();
    Run2(MovImm(Rcx, n), Alu(AddA, true, Rax, R(Rcx)), Running(m));
  }

  lemma MaskImmediateRuns(k: Kind, imm: nat, m: Machine, rs: u64)
    requires (k.Andi? || k.Ori? || k.Xori?) && m.rax == Num(rs)
    ensures var c := Run(ImmediateCore(k, imm), Running(m));
      After(c, m, m.core) && c.m.rax == Num(ImmediateValue(k, imm, rs))
  {
    hide Run, Exec, Value;
    MaskRuns(if k.Andi? then AndA else if k.Ori? then OrA else XorA, m, rs, imm % 0x1_0000);
  }

  lemma OrderImmediateRuns(k: Kind, imm: nat, m: Machine, rs: u64)
    requires (k.Slti? || k.Sltiu?) && m.rax == Num(rs)
    ensures var c := Run(ImmediateCore(k, imm), Running(m));
      After(c, m, m.core) && c.m.rax == Num(ImmediateValue(k, imm, rs))
  {
    hide Run, Exec, Sext16, Signed, Odd;
    ImmediateOrderRuns(if k.Slti? then L else B, m, rs, Sext16(imm));
  }

  lemma SumImmediateRuns(k: Kind, imm: nat, m: Machine, rs: u64)
    requires (k.Addiu? || k.Daddiu?) && m.rax == Num(rs)
    ensures var c := Run(ImmediateCore(k, imm), Running(m));
      After(c, m, m.core) && c.m.rax == Num(ImmediateValue(k, imm, rs))
  {
    hide Run, Exec, Value, Sext32, Sext16;
    if k.Addiu? { AddiuRuns(m, rs, Sext16(imm)); } else { DaddiuRuns(m, rs, Sext16(imm)); }
  }

  lemma UpperImmediateRuns(imm: nat, m: Machine, rs: u64)
    requires m.rax == Num(rs)
    ensures var c := Run(ImmediateCore(Lui, imm), Running(m));
      After(c, m, m.core) && c.m.rax == Num(ImmediateValue(Lui, imm, rs))
  {
    hide Run, Exec, Sext32;
    LuiRuns(m, imm % 0x1_0000 * 0x1_0000);
  }

  lemma ImmediateCoreRuns(k: Kind, imm: nat, m: Machine, rs: u64)
    requires IsImmediate(k) && m.rax == Num(rs)
    ensures var c := Run(ImmediateCore(k, imm), Running(m));
      After(c, m, m.core) && c.m.rax == Num(ImmediateValue(k, imm, rs))
  {
    hide Run, Exec, ImmediateCore, ImmediateValue, After;
    match k
    case Addiu | Daddiu => SumImmediateRuns(k, imm, m, rs);
    case Andi | Ori | Xori => MaskImmediateRuns(k, imm, m, rs);
    case Lui => UpperImmediateRuns(imm, m, rs);
    case Slti | Sltiu => OrderImmediateRuns(k, imm, m, rs);
  }

  lemma LowSum(a: nat, b: nat)
    ensures Lo32(Lo32(a) + Lo32(b)) == Lo32(a + b) == Lo32(a + Lo32(b))
  {
    var p, q := a / WORD, b / WORD;
    assert a + b == Lo32(a) + Lo32(b) + (p + q) * WORD;
    assert a + Lo32(b) == Lo32(a) + Lo32(b) + p * WORD;
  }

  lemma ImmediateValueIsResult(k: Kind, imm: nat, rs: u64)
    requires IsImmediate(k)
    ensures ImmediateValue(k, imm, rs) == ImmediateResult(k, imm, rs)
  {
    hide ImmediateValue, ImmediateResult;
    if k.Addiu? || k.Lui? || k.Slti? { SextImmediateIsResult(k, imm, rs); } else { WideImmediateIsResult(k, imm, rs); }
  }

  lemma SextImmediateIsResult(k: Kind, imm: nat, rs: u64)
    requires k.Addiu? || k.Lui? || k.Slti?
    ensures ImmediateValue(k, imm, rs) == ImmediateResult(k, imm, rs)
  {
    hide Zip, Signed, Sext32, Sext16, Lo32, Signed16, Wrap, Value;
    match k
    case Addiu => AddiuValue(rs, Sext16(imm));
    case Lui => LuiValue(imm);
    case _ => SignedImmediate(imm);
  }

  lemma WideImmediateIsResult(k: Kind, imm: nat, rs: u64)
    requires IsImmediate(k) && !k.Addiu? && !k.Lui? && !k.Slti?
    ensures ImmediateValue(k, imm, rs) == ImmediateResult(k, imm, rs)
  {
    hide Zip, Signed, Sext32, Sext16, Lo32, Signed16;
  }

  lemma AddiuValue(rs: u64, n: u64)
    ensures Sext32(Value(AddA, false, rs, n)) == Sext32(Lo32(rs) + Lo32(n))
  {
    hide Sext32, Lo32;
    LowSum(rs, n);
    SextLow(rs + n);
    SextLow(Lo32(rs) + Lo32(n));
  }

  lemma SignedImmediate(imm: nat)
    ensures Signed(Sext16(imm)) == Signed16(imm)
  {}

  lemma LuiValue(imm: nat)
    ensures Sext32(imm % 0x1_0000 * 0x1_0000) == Wrap(Signed16(imm) * 0x1_0000)
  {}

  // ---- Register operations --------------------------------------------------------------------------

  lemma StoreResult(c: Config, m: Machine, r: RegNum, v: u64)
    requires After(c, m, m.core) && c.m.rax == Num(v)
    ensures After(Run(RaxToGpr(r), c), m, SetGpr(m.core, r, v))
  {
    hide Run, RaxToGpr;
    StoreGpr(c.m, r, v);
  }

  lemma RegisterRuns(op: IrOp, m: Machine)
    requires IsRegister(op.kind)
    ensures var c := Run(LoadTwo(op.rs, op.rt) + RegisterCore(op.kind), Running(m));
      After(c, m, m.core) && c.m.rax == Num(AluResult(op, Gpr(m.core, op.rs), Gpr(m.core, op.rt)))
  {
    hide Run, LoadTwo, RegisterCore, RegisterValue, RegisterResult;
    LoadBoth(m, op.rs, op.rt);
    RunCat(LoadTwo(op.rs, op.rt), RegisterCore(op.kind), Running(m));
    var rs, rt := Gpr(m.core, op.rs), Gpr(m.core, op.rt);
    RegisterCoreRuns(op.kind, Run(LoadTwo(op.rs, op.rt), Running(m)).m, rs, rt);
    RegisterValueIsResult(op.kind, rs, rt);
  }

  lemma ShiftRuns(op: IrOp, m: Machine)
    requires IsShift(op.kind) && ShiftExact(op, Gpr(m.core, op.rs), Gpr(m.core, op.rt))
    ensures var c := Run(ShiftCode(op), Running(m));
      After(c, m, m.core) && c.m.rax == Num(AluResult(op, Gpr(m.core, op.rs), Gpr(m.core, op.rt)))
  {
    hide Run, ShiftCode, ShiftValue, ShiftResult, ShiftExact;
    ShiftCodeRuns(op, m);
    ShiftValueIsResult(op, Gpr(m.core, op.rs), Gpr(m.core, op.rt));
  }

  lemma ImmediateRuns(op: IrOp, m: Machine)
    requires IsImmediate(op.kind)
    ensures var c := Run(GprToRax(op.rs) + ImmediateCore(op.kind, op.imm), Running(m));
      After(c, m, m.core) && c.m.rax == Num(AluResult(op, Gpr(m.core, op.rs), Gpr(m.core, op.rt)))
  {
    hide Run, GprToRax, ImmediateCore, ImmediateValue, ImmediateResult;
    LoadGpr(m, op.rs);
    RunCat(GprToRax(op.rs), ImmediateCore(op.kind, op.imm), Running(m));
    ImmediateCoreRuns(op.kind, op.imm, Run(GprToRax(op.rs), Running(m)).m, Gpr(m.core, op.rs));
    ImmediateValueIsResult(op.kind, op.imm, Gpr(m.core, op.rs));
  }

  lemma AluRuns(op: IrOp, m: Machine)
    requires IsAlu(op.kind) && ShiftExact(op, Gpr(m.core, op.rs), Gpr(m.core, op.rt))
    ensures After(Run(AluCode(op), Running(m)), m, Execute(m.core, op))
  {
    hide Run, RaxToGpr, After, AluResult, ShiftCode, ImmediateCore, RegisterCore, LoadTwo, GprToRax, ShiftExact,
         Branch, HiLo, Memory, SetGpr, Gpr;
    var v := AluResult(op, Gpr(m.core, op.rs), Gpr(m.core, op.rt));
    if IsRegister(op.kind) {
      RegisterRuns(op, m);
      RunCat(LoadTwo(op.rs, op.rt) + RegisterCore(op.kind), RaxToGpr(op.rd), Running(m));
      StoreResult(Run(LoadTwo(op.rs, op.rt) + RegisterCore(op.kind), Running(m)), m, op.rd, v);
    } else if IsShift(op.kind) {
      ShiftRuns(op, m);
      RunCat(ShiftCode(op), RaxToGpr(op.rd), Running(m));
      StoreResult(Run(ShiftCode(op), Running(m)), m, op.rd, v);
    } else {
      ImmediateRuns(op, m);
      RunCat(GprToRax(op.rs) + ImmediateCore(op.kind, op.imm), RaxToGpr(op.rt), Running(m));
      StoreResult(Run(GprToRax(op.rs) + ImmediateCore(op.kind, op.imm), Running(m)), m, op.rt, v);
    }
  }

  /** The emitted shift agrees with the interpreter's exactly on the operands whose sign fills. */
  lemma ShiftAgreesIff(op: IrOp, m: Machine)
    requires IsShift(op.kind) && op.rd != 0
    ensures After(Run(AluCode(op), Running(m)), m, Execute(m.core, op))
      <==> ShiftExact(op, Gpr(m.core, op.rs), Gpr(m.core, op.rt))
  {
    hide Run, Exec, RaxToGpr, ShiftCode, ShiftExact, Gpr, ShiftValue, ShiftResult, Execute, SetGpr, AmountOf;
    ExecuteShift(m.core, op);
    var rs, rt := Gpr(m.core, op.rs), Gpr(m.core, op.rt);
    var v := ShiftValue(op.kind, AmountOf(op, rs), rt);
    ShiftCodeRuns(op, m);
    RunCat(ShiftCode(op), RaxToGpr(op.rd), Running(m));
    StoreResult(Run(ShiftCode(op), Running(m)), m, op.rd, v);
    ShiftValueIsResult(op, rs, rt);
    DifferentResults(m.core, op.rd, v, ShiftResult(op.kind, op.sa, rs, rt));
  }

  lemma ExecuteShift(s: Core, op: IrOp)
    requires IsShift(op.kind)
    ensures Execute(s, op) == SetGpr(s, op.rd, ShiftResult(op.kind, op.sa, Gpr(s, op.rs), Gpr(s, op.rt)))
  {
    hide ShiftResult, SetGpr, Gpr, Branch, HiLo, Memory;
  }

  lemma DifferentResults(s: Core, r: RegNum, v: u64, w: u64)
    requires r != 0
    ensures SetGpr(s, r, v) == SetGpr(s, r, w) <==> v == w
  {
    assert SetGpr(s, r, v).gpr[r] == v && SetGpr(s, r, w).gpr[r] == w;
  }

  // ---- HI and LO ------------------------------------------------------------------------------------

  predicate IsHiLo(k: Kind) {
    k.Mfhi? || k.Mflo? || k.Mthi? || k.Mtlo? || k.Mult? || k.Multu? || k.Div? || k.Divu?
  }

  lemma FromHiLo(cell: Cell, m: Machine, r: RegNum)
    requires cell.HiCell? || cell.LoCell?
    ensures After(Run([MovPtr(Rax, cell), LoadQ(Rax, Rax)] + RaxToGpr(r), Running(m)), m,
                  SetGpr(m.core, r, if cell.HiCell? then m.core.hi else m.core.lo))
  {
    hide Run, ExecRunning, RaxToGpr, SetGpr;
    MoveRules(); CellRules();
    RunCat([MovPtr(Rax, cell), LoadQ(Rax, Rax)], RaxToGpr(r), Running(m));
    Run2(MovPtr(Rax, cell), LoadQ(Rax, Rax), Running(m));
    var c := Exec(LoadQ(Rax, Rax), Exec(MovPtr(Rax, cell), Running(m)));
    StoreGpr(c.m, r, if cell.HiCell? then m.core.hi else m.core.lo);
  }

  lemma ToHiLo(cell: Cell, m: Machine, r: RegNum)
    requires cell.HiCell? || cell.LoCell?
    ensures After(Run(GprToRax(r) + [MovPtr(Rdx, cell), StoreQ(Rdx, Rax)], Running(m)), m,
                  if cell.HiCell? then m.core.(hi := Gpr(m.core, r)) else m.core.(lo := Gpr(m.core, r)))
  {
    hide Run, ExecRunning, GprToRax, Gpr;
    MoveRules(); CellRules();
    RunCat(GprToRax(r), [MovPtr(Rdx, cell), StoreQ(Rdx, Rax)], Running(m));
    LoadGpr(m, r);
    Run2(MovPtr(Rdx, cell), StoreQ(Rdx, Rax), Run(GprToRax(r), Running(m)));
  }

  lemma HiLoByOperands(s: Core, op: IrOp)
    requires op.kind.Mult? || op.kind.Multu? || op.kind.Div? || op.kind.Divu?
    ensures HiLo(s, IrOp(op.kind, 0, op.rs, op.rt, 0, 0, 0)) == HiLo(s, op)
  {
    hide SignedDivision, UnsignedDivision, Sext32, Wrap, Signed32, Product;
  }

  lemma HiLoRule(m: Machine, op: IrOp)
    requires m.rdi == Num(op.rs) && m.rsi == Num(op.rt)
    ensures CallHelper(DoHiLo(op.kind), m) == ReturnCore(m, HiLo(m.core, IrOp(op.kind, 0, op.rs, op.rt, 0, 0, 0)))
  {
    hide HiLo, HelperMemory, BranchTo, BranchLikelyTo, Link, Region, OffsetTarget, ReturnCore, Return, AddCount;
  }

  lemma HiLoCallRuns(op: IrOp, m: Machine)
    requires op.kind.Mult? || op.kind.Multu? || op.kind.Div? || op.kind.Divu?
    ensures After(Run([MovImm(Rdi, op.rs), MovImm(Rsi, op.rt), Call(DoHiLo(op.kind))], Running(m)), m, HiLo(m.core, op))
  {
    hide Run, CallHelper, HiLo;
    var call := [Call(DoHiLo(op.kind))];
    assert [MovImm(Rdi, op.rs), MovImm(Rsi, op.rt), Call(DoHiLo(op.kind))] == [MovImm(Rdi, op.rs)] + ([MovImm(Rsi, op.rt)] + call);
    var m1 := Set(m, Rdi, Num(op.rs));
    var m2 := Set(m1, Rsi, Num(op.rt));
    ArgumentRuns(Rdi, op.rs, [MovImm(Rsi, op.rt)] + call, m);
    ArgumentRuns(Rsi, op.rt, call, m1);
    HiLoRule(m2, op);
    HiLoByOperands(m.core, op);
    CallRuns(DoHiLo(op.kind), m2, HiLo(m.core, op));
  }

  lemma HiLoRuns(op: IrOp, m: Machine)
    requires IsHiLo(op.kind)
    ensures After(Run(HiLoCode(op), Running(m)), m, HiLo(m.core, op))
  {
    hide Run, RaxToGpr, GprToRax, After, SetGpr, Gpr, Product, Sext32, Wrap, SignedDivision, UnsignedDivision;
    match op.kind
    case Mfhi => FromHiLo(HiCell, m, op.rd);
    case Mflo => FromHiLo(LoCell, m, op.rd);
    case Mthi => ToHiLo(HiCell, m, op.rs);
    case Mtlo => ToHiLo(LoCell, m, op.rs);
    case _ => HiLoCallRuns(op, m);
  }
}
