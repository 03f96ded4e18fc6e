/** What arithmetic and logic instructions leave, by the values and the bits of their operands
    (src/cpu/cpu_instruction_impl.cpp:14-113, 246-375, 772-798, 1040-1139). */
module AluResults {
  import opened Common
  import opened Bits
  import opened ByteOrder
  import opened Cpu
  import MulDiv
  import Sra

  // ---- Bits -----------------------------------------------------------------------------------------

  /** The operators work bit by bit. */
  lemma {:induction false} BitOfZip(op: Op, a: nat, b: nat, i: nat)
    ensures BitAt(Zip(op, a, b), i) == Bit(op, BitAt(a, i), BitAt(b, i))
    decreases i
  {
    hide Zip;
    ZipStep(op, a, b);
    var odd := Odd(Bit(op, a % 2 == 1, b % 2 == 1));
    Euclid(Zip(op, a, b), 2, Zip(op, a / 2, b / 2), odd);
    if i > 0 {
      BitOfZip(op, a / 2, b / 2, i - 1);
      RightHalf(Zip(op, a, b), i - 1);
      RightHalf(a, i - 1);
      RightHalf(b, i - 1);
    }
  }

  lemma OperatorBits(a: nat, b: nat, i: nat)
    ensures BitAt(And(a, b), i) <==> BitAt(a, i) && BitAt(b, i)
    ensures BitAt(Or(a, b), i) <==> BitAt(a, i) || BitAt(b, i)
    ensures BitAt(Xor(a, b), i) <==> BitAt(a, i) != BitAt(b, i)
    ensures BitAt(AndNot(a, b), i) <==> BitAt(a, i) && !BitAt(b, i)
  {
    hide Zip, BitAt;
    BitOfZip(AND, a, b, i);
    BitOfZip(OR, a, b, i);
    BitOfZip(XOR, a, b, i);
    BitOfZip(ANDNOT, a, b, i);
  }

  lemma Registers(a: u64, b: u64)
    ensures And(a, b) < DOUBLE && Or(a, b) < DOUBLE && Xor(a, b) < DOUBLE
  {
    hide Zip, Shl;
    ShlWords(1);
    ZipBound(AND, a, b, 64);
    ZipBound(OR, a, b, 64);
    ZipBound(XOR, a, b, 64);
  }

  lemma {:induction false} BitOfComplement(x: u64, i: nat)
    requires i < 64
    ensures BitAt(DOUBLE - 1 - x, i) == !BitAt(x, i)
  {
    Ones();
    Flipped(x, 64, i);
  }

  lemma Ones()
    ensures Shl(1, 64) == DOUBLE
  {
    ShlWords(1);
  }

  lemma {:induction false} Flipped(x: nat, k: nat, i: nat)
    requires i < k && x < Shl(1, k)
    ensures Shl(1, k) - 1 - x >= 0 && BitAt(Shl(1, k) - 1 - x, i) == !BitAt(x, i)
    decreases i
  {
    var y := Shl(1, k) - 1 - x;
    ShlStep(1, k - 1);
    hide Shl;
    var q, r := x / 2, x % 2;
    Euclid(y, 2, Shl(1, k - 1) - 1 - q, 1 - r);
    if i > 0 {
      Flipped(q, k - 1, i - 1);
      RightHalf(y, i - 1);
      RightHalf(x, i - 1);
    }
  }

  function Second(s: Core, op: IrOp): u64 { if IsImmediate(op.kind) then op.imm % 0x1_0000 else Gpr(s, op.rt) }

  function ResultRegister(op: IrOp): RegNum { if IsImmediate(op.kind) then op.rt else op.rd }

  predicate LogicBit(k: Kind, x: bool, y: bool) {
    match k
    case AndOp | Andi => x && y
    case OrOp | Ori => x || y
    case XorOp | Xori => x != y
    case _ => !x && !y
  }

  predicate IsLogic(k: Kind) { k.AndOp? || k.OrOp? || k.XorOp? || k.Nor? || k.Andi? || k.Ori? || k.Xori? }

  /** AND, OR, XOR, NOR and the immediate forms, bit by bit; immediates are zero-extended. */
  lemma LogicExact(s: Core, op: IrOp, i: nat)
    requires IsLogic(op.kind) && i < 64 && ResultRegister(op) != 0
    ensures var s' := Execute(s, op);
      && s' == s.(gpr := s'.gpr)
      && BitAt(Gpr(s', ResultRegister(op)), i) == LogicBit(op.kind, BitAt(Gpr(s, op.rs), i), BitAt(Second(s, op), i))
  {
    var a, b := Gpr(s, op.rs), Second(s, op);
    AluIs(s, op);
    LogicResult(op, a, Gpr(s, op.rt));
    OperatorBits(a, b, i);
    Registers(a, b);
    BitOfComplement(Or(a, b), i);
    hide Zip, BitAt, AluResult, Execute;
  }

  lemma AluIs(s: Core, op: IrOp)
    requires IsAlu(op.kind)
    ensures Execute(s, op) == SetGpr(s, ResultRegister(op), AluResult(op, Gpr(s, op.rs), Gpr(s, op.rt)))
  {
    hide AluResult, SetGpr, Gpr, Branch, Memory, HiLo;
  }

  lemma LogicResult(op: IrOp, a: u64, t: u64)
    requires IsLogic(op.kind)
    ensures var b := if IsImmediate(op.kind) then op.imm % 0x1_0000 else t;
      AluResult(op, a, t) == if op.kind.AndOp? || op.kind.Andi? then And(a, b) else if op.kind.OrOp? || op.kind.Ori? then Or(a, b)
                             else if op.kind.XorOp? || op.kind.Xori? then Xor(a, b) else DOUBLE - 1 - Or(a, b)
  {
    var b := if IsImmediate(op.kind) then op.imm % 0x1_0000 else t;
    Registers(a, b);
    Whole(And(a, b)); Whole(Or(a, b)); Whole(Xor(a, b)); Whole(DOUBLE - 1 - Or(a, b));
    hide Zip, Wrap;
  }

  lemma Whole(x: u64)
    ensures Wrap(x) == x
  {
    Euclid(x, DOUBLE, 0, x);
  }

  // ---- Sums -----------------------------------------------------------------------------------------

  /** A register that holds a word, sign-extended. */
  predicate IsWord(x: u64) { x == Sext32(Lo32(x)) }

  /** The value of an immediate field. */
  function Immediate(imm: nat): int { var x := imm % 0x1_0000; if x >= 0x8000 then x - 0x1_0000 else x }

  /** 32-bit sums and differences, modulo 2^32 and sign-extended; none traps on overflow. */
  lemma WordSumExact(s: Core, op: IrOp)
    requires (op.kind.Add? || op.kind.Addu? || op.kind.Sub? || op.kind.Subu? || op.kind.Addiu?) && ResultRegister(op) != 0
    ensures var r := Gpr(Execute(s, op), ResultRegister(op));
      IsWord(r)
      && r % WORD == (if op.kind.Addiu? then Gpr(s, op.rs) + Immediate(op.imm)
                      else if op.kind.Add? || op.kind.Addu? then Gpr(s, op.rs) + Gpr(s, op.rt)
                      else Gpr(s, op.rs) - Gpr(s, op.rt)) % WORD
  {
    AluIs(s, op);
    var a, b := Gpr(s, op.rs), Gpr(s, op.rt);
    hide Execute, Gpr, SetGpr;
    ReadBack(s, ResultRegister(op), AluResult(op, a, b));
    hide AluResult;
    if op.kind.Addiu? {
      AddiuForm(op, a, b);
      SextSum(a, Sext16(op.imm));
      SextOfImmediate(op.imm);
      Modulo(a, Sext16(op.imm), Immediate(op.imm));
    } else {
      SumForm(op, a, b);
      SextSum(a, b);
      SextDifference(a, b);
    }
  }

  lemma ReadBack(s: Core, r: RegNum, v: u64)
    requires r != 0
    ensures Gpr(SetGpr(s, r, v), r) == v
  {}

  lemma AddiuForm(op: IrOp, a: u64, b: u64)
    requires op.kind.Addiu?
    ensures AluResult(op, a, b) == Sext32(Lo32(a) + Lo32(Sext16(op.imm)))
  {
    hide Sext32, Lo32, Sext16;
  }

  lemma SumForm(op: IrOp, a: u64, b: u64)
    requires op.kind.Add? || op.kind.Addu? || op.kind.Sub? || op.kind.Subu?
    ensures AluResult(op, a, b) ==
      if op.kind.Add? || op.kind.Addu? then Sext32(Lo32(a) + Lo32(b)) else Sext32((Lo32(a) - Lo32(b)) % WORD)
  {
    hide Sext32, Lo32;
  }

  lemma SextSum(a: nat, b: nat)
    ensures IsWord(Sext32(Lo32(a) + Lo32(b))) && Sext32(Lo32(a) + Lo32(b)) % WORD == (a + b) % WORD
  {
    MulDiv.WordParts(Lo32(a) + Lo32(b));
    Modular(a, b);
    hide Sext32;
  }

  lemma SextDifference(a: nat, b: nat)
    ensures var d := (Lo32(a) - Lo32(b)) % WORD; IsWord(Sext32(d)) && Sext32(d) % WORD == (a - b) % WORD
  {
    var d := (Lo32(a) - Lo32(b)) % WORD;
    MulDiv.WordParts(d);
    Euclid(d, WORD, 0, d);
    var q := (Lo32(a) - Lo32(b)) / WORD;
    Euclid(a - b, WORD, a / WORD - b / WORD + q, d);
    hide Sext32;
  }

  lemma Modular(a: nat, b: nat)
    ensures (a % WORD + b % WORD) % WORD == (a + b) % WORD
  {
    var x := a % WORD + b % WORD;
    Euclid(a + b, WORD, a / WORD + b / WORD + x / WORD, x % WORD);
  }

  lemma SextOfImmediate(imm: nat)
    ensures Sext16(imm) == Immediate(imm) + if Immediate(imm) < 0 then DOUBLE else 0
  {
    var x := Immediate(imm);
    if x < 0 { Euclid(x, DOUBLE, -1, x + DOUBLE); } else { Euclid(x, DOUBLE, 0, x); }
  }

  lemma Modulo(a: nat, b: nat, c: int)
    requires b == c || b == c + DOUBLE
    ensures (a + b) % WORD == (a + c) % WORD
  {
    var q, r := (a + c) / WORD, (a + c) % WORD;
    Euclid(a + b, WORD, if b == c then q else q + WORD, r);
  }

  /** 64-bit sums and differences, modulo 2^64. */
  lemma DoubleSumExact(s: Core, op: IrOp)
    requires (op.kind.Daddu? || op.kind.Dsubu? || op.kind.Daddiu?) && ResultRegister(op) != 0
    ensures Gpr(Execute(s, op), ResultRegister(op)) ==
      (if op.kind.Daddiu? then Gpr(s, op.rs) + Immediate(op.imm)
       else if op.kind.Daddu? then Gpr(s, op.rs) + Gpr(s, op.rt) else Gpr(s, op.rs) - Gpr(s, op.rt)) % DOUBLE
  {
    AluIs(s, op);
    SextOfImmediate(op.imm);
    var a, x := Gpr(s, op.rs), Immediate(op.imm);
    Euclid(a + x + DOUBLE, DOUBLE, (a + x) / DOUBLE + 1, (a + x) % DOUBLE);
    hide Execute, Gpr, SetGpr, Sext16, Immediate;
    ReadBack(s, ResultRegister(op), AluResult(op, a, Gpr(s, op.rt)));
  }

  /** Whether one two's complement register is less than another. */
  predicate Less(a: u64, b: u64) {
    var half_ := 0x8000_0000_0000_0000;
    if a >= half_ && b < half_ then true else if a < half_ && b >= half_ then false else a < b
  }

  /** SLT, SLTU, SLTI and SLTIU; immediates are sign-extended even when the comparison is unsigned. */
  lemma LessExact(s: Core, op: IrOp)
    requires (op.kind.Slt? || op.kind.Sltu? || op.kind.Slti? || op.kind.Sltiu?) && ResultRegister(op) != 0
    ensures var a := Gpr(s, op.rs);
      var b := if IsImmediate(op.kind) then (Immediate(op.imm) + DOUBLE) % DOUBLE else Gpr(s, op.rt);
      Gpr(Execute(s, op), ResultRegister(op)) ==
        if (if op.kind.Slt? || op.kind.Slti? then Less(a, b) else a < b) then 1 else 0
  {
    AluIs(s, op);
    SextOfImmediate(op.imm);
    var x := Immediate(op.imm);
    if x < 0 { Euclid(x + DOUBLE, DOUBLE, 0, x + DOUBLE); } else { Euclid(x + DOUBLE, DOUBLE, 1, x); }
    hide Execute, Gpr, SetGpr;
    ReadBack(s, ResultRegister(op), AluResult(op, Gpr(s, op.rs), Gpr(s, op.rt)));
    hide Sext16;
  }

  /** LUI: the field in the upper half of a word. */
  lemma LuiExact(s: Core, op: IrOp)
    requires op.kind.Lui? && op.rt != 0
    ensures var r := Gpr(Execute(s, op), op.rt); r == (Immediate(op.imm) * 0x1_0000) % DOUBLE
  {
    AluIs(s, op);
    hide Execute, Gpr, SetGpr;
    ReadBack(s, op.rt, AluResult(op, Gpr(s, op.rs), Gpr(s, op.rt)));
  }

  // ---- Shifts ---------------------------------------------------------------------------------------

  lemma {:induction false} BitOfLeft(x: int, n: nat, j: nat)
    ensures BitAt(Shl(x, n), j) == (j >= n && BitAt(x, j - n))
    decreases n
  {
    if n > 0 {
      var y := Shl(x, n - 1);
      Euclid(2 * y, 2, y, 0);
      if j > 0 {
        BitOfLeft(x, n - 1, j - 1);
        RightHalf(2 * y, j - 1);
      }
    }
  }

  lemma BitInWord(x: int, j: nat)
    requires j < 32
    ensures BitAt(x % WORD, j) == BitAt(x, j)
  {
    hide BitAt, Shl;
    var q := x / WORD;
    ShlWords(q);
    LowBitsKept(x % WORD, q, 32, j);
  }

  lemma BitInDouble(x: int, j: nat)
    requires j < 64
    ensures BitAt(Wrap(x), j) == BitAt(x, j)
  {
    hide BitAt, Shl;
    var q := x / DOUBLE;
    ShlWords(q);
    LowBitsKept(Wrap(x), q, 64, j);
  }

  lemma BitOfSext(x: nat, j: nat)
    requires j < 32
    ensures BitAt(Sext32(x), j) == BitAt(x, j)
  {
    hide BitAt;
    BitInDouble(Signed32(x), j);
    SignedWordBits(x, j);
  }

  lemma SignedWordBits(x: nat, j: nat)
    requires j < 32
    ensures BitAt(Signed32(x), j) == BitAt(x, j)
  {
    hide BitAt, Shl;
    BitInWord(x, j);
    ShlWords(-1);
    LowBitsKept(Lo32(x), -1, 32, j);
  }

  /** Nothing is above a number's own bits. */
  lemma {:induction false} NoBit(x: nat, k: nat, j: nat)
    requires x < Shl(1, k) && j >= k
    ensures !BitAt(x, j)
    decreases j
  {
    if j > 0 {
      RightHalf(x, j - 1);
      if k > 0 {
        ShlStep(1, k - 1);
        hide Shl;
        NoBit(x / 2, k - 1, j - 1);
      } else {
        NoBit(x / 2, 0, j - 1);
      }
    }
  }

  /** How far a shift goes. */
  function Amount(op: IrOp, rs: u64): nat {
    match op.kind
    case Sllv | Srlv | Srav => rs % 32
    case Dsll32 | Dsrl32 | Dsra32 => op.sa + 32
    case _ => op.sa
  }

  predicate IsLeft(k: Kind) { k.Sll? || k.Sllv? || k.Dsll? || k.Dsll32? }
  predicate IsArithmeticShift(k: Kind) { k.Sra? || k.Srav? || k.Dsra? || k.Dsra32? }
  predicate IsWordShift(k: Kind) { k.Sll? || k.Sllv? || k.Srl? || k.Srlv? || k.Sra? || k.Srav? }

  /** Bit j of a shifted operand. Arithmetic shifts repeat the operand's top bit; those of words take bits of the whole
      register all the same, as the interpreter does. */
  predicate ShiftedBit(k: Kind, rt: u64, n: nat, j: nat) {
    var width := if IsWordShift(k) then 32 else 64;
    if IsLeft(k) then j >= n && BitAt(rt, j - n)
    else if IsArithmeticShift(k) then BitAt(rt, if j + n < 64 then j + n else 63)
    else j + n < width && BitAt(rt, j + n)
  }

  /** Every shift, bit by bit; the word shifts leave a sign-extended word. */
  lemma ShiftExact(s: Core, op: IrOp, j: nat)
    requires IsShift(op.kind) && op.rd != 0 && j < if IsWordShift(op.kind) then 32 else 64
    ensures var r := Gpr(Execute(s, op), op.rd);
      && BitAt(r, j) == ShiftedBit(op.kind, Gpr(s, op.rt), Amount(op, Gpr(s, op.rs)), j)
      && (IsWordShift(op.kind) ==> IsWord(r))
  {
    hide Execute, Gpr, SetGpr, BitAt, AluResult, ShiftedBit, IsWord;
    AluIs(s, op);
    var rs, rt := Gpr(s, op.rs), Gpr(s, op.rt);
    ReadBack(s, op.rd, AluResult(op, rs, rt));
    if IsWordShift(op.kind) { WordShift(op, rs, rt, j); } else { DoubleShift(op, rs, rt, j); }
  }

  lemma ShiftIs(op: IrOp, rs: u64, rt: u64)
    requires IsShift(op.kind)
    ensures AluResult(op, rs, rt) == ShiftResult(op.kind, op.sa, rs, rt)
  {
    hide ShiftResult;
  }

  lemma WordShift(op: IrOp, rs: u64, rt: u64, j: nat)
    requires IsWordShift(op.kind) && j < 32
    ensures var r := AluResult(op, rs, rt); BitAt(r, j) == ShiftedBit(op.kind, rt, Amount(op, rs), j) && IsWord(r)
  {
    hide AluResult, ShiftResult, BitAt;
    var n := Amount(op, rs);
    ShiftIs(op, rs, rt);
    if IsLeft(op.kind) { LeftWord(op, rs, rt, n, j); }
    else if IsArithmeticShift(op.kind) { ArithmeticWord(op, rs, rt, n, j); }
    else { RightWord(op, rs, rt, n, j); }
  }

  lemma LeftWord(op: IrOp, rs: u64, rt: u64, n: nat, j: nat)
    requires IsWordShift(op.kind) && IsLeft(op.kind) && j < 32 && n == Amount(op, rs)
    ensures var r := ShiftResult(op.kind, op.sa, rs, rt); BitAt(r, j) == (j >= n && BitAt(rt, j - n)) && IsWord(r)
  {
    hide BitAt, Shl, Sext32, Lo32;
    var x := if op.kind.Sll? then Wrap(Shl(rt, n)) else Shl(Lo32(rt), n);
    BitOfSext(x, j);
    MulDiv.WordParts(x);
    BitInDouble(Shl(rt, n), j);
    BitOfLeft(rt, n, j);
    BitOfLeft(Lo32(rt), n, j);
    if j >= n { LoBit(rt, j - n); }
  }

  lemma LoBit(x: nat, j: nat)
    requires j < 32
    ensures BitAt(Lo32(x), j) == BitAt(x, j)
  {
    hide BitAt;
    BitInWord(x, j);
  }

  lemma RightWord(op: IrOp, rs: u64, rt: u64, n: nat, j: nat)
    requires (op.kind.Srl? || op.kind.Srlv?) && j < 32 && n == Amount(op, rs)
    ensures var r := ShiftResult(op.kind, op.sa, rs, rt); BitAt(r, j) == (j + n < 32 && BitAt(rt, j + n)) && IsWord(r)
  {
    hide BitAt, Right, Shl, Sext32;
    var x := Right(Lo32(rt), n);
    BitOfSext(x, j);
    MulDiv.WordParts(x);
    Sra.BitOfShift(Lo32(rt), n, j);
    if j + n < 32 { LoBit(rt, j + n); } else { ShlWords(1); NoBit(Lo32(rt), 32, j + n); }
  }

  lemma ArithmeticWord(op: IrOp, rs: u64, rt: u64, n: nat, j: nat)
    requires (op.kind.Sra? || op.kind.Srav?) && j < 32 && n == Amount(op, rs)
    ensures var r := ShiftResult(op.kind, op.sa, rs, rt); BitAt(r, j) == BitAt(rt, j + n) && j + n < 64 && IsWord(r)
  {
    hide BitAt, Right, Sext32, Signed;
    var x := Wrap(Right(Signed(rt), n));
    BitOfSext(x, j);
    MulDiv.WordParts(x);
    BitInDouble(Right(Signed(rt), n), j);
    Sra.BitOfShift(Signed(rt), n, j);
    Sra.SignedBits(rt, j + n);
  }

  lemma DoubleShift(op: IrOp, rs: u64, rt: u64, j: nat)
    requires IsShift(op.kind) && !IsWordShift(op.kind) && j < 64
    ensures BitAt(AluResult(op, rs, rt), j) == ShiftedBit(op.kind, rt, Amount(op, rs), j)
  {
    hide AluResult, BitAt, Right, Shl, Signed;
    var n := Amount(op, rs);
    ShiftIs(op, rs, rt);
    if IsLeft(op.kind) {
      BitInDouble(Shl(rt, n), j);
      BitOfLeft(rt, n, j);
    } else if IsArithmeticShift(op.kind) {
      BitInDouble(Right(Signed(rt), n), j);
      Sra.BitOfShift(Signed(rt), n, j);
      SignBits(rt, n + j);
    } else {
      BitInDouble(Right(rt, n), j);
      Sra.BitOfShift(rt, n, j);
      if j + n >= 64 { ShlWords(1); NoBit(rt, 64, j + n); }
    }
  }

  /** Above bit 63 a signed register repeats it. */
  lemma SignBits(x: u64, i: nat)
    ensures BitAt(Signed(x), i) == BitAt(x, if i < 64 then i else 63)
  {
    if i < 64 {
      Sra.SignedBits(x, i);
    } else {
      Sra.SignedBits(x, 63);
      ShlWords(1);
      ShlStep(1, 63);
      var n := Signed(x);
      assert -Shl(1, 63) <= n < Shl(1, 63);
      hide Signed, BitAt, Shl;
      RepeatedAbove(n, 63, i);
      RepeatedAbove(n, 63, 63);
    }
  }

  lemma {:induction false} RepeatedAbove(x: int, k: nat, i: nat)
    requires -Shl(1, k) <= x < Shl(1, k) && i >= k
    ensures BitAt(x, i) == (x < 0)
    decreases i
  {
    if i > 0 {
      RightHalf(x, i - 1);
      if k > 0 {
        ShlStep(1, k - 1);
        RepeatedAbove(x / 2, k - 1, i - 1);
      } else {
        RepeatedAbove(x / 2, 0, i - 1);
      }
    }
  }
}
