/** Arithmetic right shifts of 32-bit operands. The interpreter shifts the whole register, the emitted code
    only its low word (src/cpu/cpu_instruction_impl.cpp:268-284, src/cpu/jit/emit_x64.cpp:316-319, 361-364). */
module Sra {
  import opened Bits
  import opened ByteOrder
  import opened Cpu

  /** The bits the interpreter shifts in above bit 31 are copies of bit 31, as in any sign-extended word. */
  predicate SignFills(rt: u64, n: nat) { forall i :: 32 <= i < 32 + n ==> BitAt(rt, i) == BitAt(rt, 31) }

  lemma LowWord(x: int)
    ensures Low(x, 32) == x % WORD
  {
    hide Low, Right;
    SplitAt(x, 32);
    ShlWords(Right(x, 32));
    ShlWords(1);
  }

  /** Below bit 64, a register and its signed value have the same bits. */
  lemma SignedBits(x: u64, i: nat)
    requires i < 64
    ensures BitAt(Signed(x), i) == BitAt(x, i)
  {
    hide BitAt, Shl;
    ShlWords(-1);
    LowBitsKept(x, -1, 64, i);
  }

  lemma WordBits(x: u64, i: nat)
    requires i < 32
    ensures BitAt(Signed32(x), i) == BitAt(x, i)
  {
    hide BitAt, Shl;
    var q := x / WORD;
    assert x == Lo32(x) + q * WORD;
    ShlWords(q);
    LowBitsKept(Lo32(x), q, 32, i);
    ShlWords(-1);
    LowBitsKept(Lo32(x), -1, 32, i);
  }

  lemma TopBit(x: nat)
    requires x < WORD
    ensures BitAt(x, 31) == (x >= 0x8000_0000)
  {
    hide Right, Shl, Low;
    SplitAt(x, 31);
    ShlWords(Right(x, 31)); ShlWords(1);
    ShlStep(Right(x, 31), 31); ShlStep(1, 31);
    var r := Right(x, 31);
    assert 2 * Shl(r, 31) == WORD * r;
    assert r == 0 || r == 1;
  }

  lemma BitAbove(x: int, i: nat)
    requires -0x8000_0000 <= x < 0x8000_0000 && i >= 32
    ensures BitAt(x, i) == (x < 0)
  {
    hide Low, Shl;
    RightAdd(x, 32, i - 32);
    SplitAt(x, 32);
    ShlWords(Right(x, 32)); ShlWords(1);
    hide Right;
    RightOfSign(i - 32);
    assert Right(x, 32) == if x < 0 then -1 else 0;
  }

  lemma BitOfShift(x: int, n: nat, j: nat)
    ensures BitAt(Right(x, n), j) == BitAt(x, n + j)
  {
    RightAdd(x, n, j);
    hide Right;
  }

  lemma ShiftedBits(rt: u64, n: nat, j: nat)
    requires n < 32 && j < 32
    ensures BitAt(Right(Signed(rt), n), j) == BitAt(rt, n + j)
    ensures BitAt(Right(Signed32(rt), n), j) == BitAt(rt, if n + j < 32 then n + j else 31)
  {
    hide BitAt, Right, Signed;
    BitOfShift(Signed(rt), n, j);
    BitOfShift(Signed32(rt), n, j);
    SignedBits(rt, n + j);
    if n + j < 32 {
      WordBits(rt, n + j);
    } else {
      BitAbove(Signed32(rt), n + j);
      WordBits(rt, 31);
      WordBits(Lo32(rt), 31);
      TopBit(Lo32(rt));
    }
  }

  lemma SameShiftIff(rt: u64, n: nat)
    requires n < 32
    ensures SameBits(Right(Signed(rt), n), Right(Signed32(rt), n), 32) <==> SignFills(rt, n)
  {
    var a, b := Right(Signed(rt), n), Right(Signed32(rt), n);
    forall j | 0 <= j < 32
      ensures BitAt(a, j) == BitAt(rt, n + j) && BitAt(b, j) == BitAt(rt, if n + j < 32 then n + j else 31)
    {
      ShiftedBits(rt, n, j);
    }
    hide BitAt, Right;
    if SameBits(a, b, 32) {
      forall i | 32 <= i < 32 + n ensures BitAt(rt, i) == BitAt(rt, 31) {
        assert BitAt(a, i - n) == BitAt(b, i - n);
      }
    }
  }

  /** SRA and SRAV in emitted code give the interpreter's result exactly when the sign fills. */
  lemma SraAgreesIff(rt: u64, n: nat)
    requires n < 32
    ensures Sext32(Lo32(Wrap(Right(Signed32(rt), n)))) == Sext32(Wrap(Right(Signed(rt), n))) <==> SignFills(rt, n)
  {
    hide BitAt, Right, Signed, Low, Sext32, Signed32, Wrap, SameBits, SignFills;
    SameShiftIff(rt, n);
    var a, b := Right(Signed(rt), n), Right(Signed32(rt), n);
    LowByBits(a, b, 32);
    LowWord(a); LowWord(b);
    WrapLow(a); WrapLow(b);
    SextInjective(Wrap(a), Wrap(b)); SextInjective(Wrap(b), Wrap(a));
  }

  lemma WrapLow(x: int)
    ensures Wrap(x) % WORD == x % WORD
  {
    var q := x / DOUBLE;
    assert x == q * DOUBLE + x % DOUBLE;
    assert x == (q * WORD) * WORD + x % DOUBLE;
  }

  lemma SextInjective(x: nat, y: nat)
    ensures Sext32(x) == Sext32(y) <==> Lo32(x) == Lo32(y)
    ensures Sext32(Lo32(x)) == Sext32(x)
  {}

  /** In particular on every sign-extended word. */
  lemma SignExtendedFills(x: nat, n: nat)
    requires n < 32
    ensures SignFills(Sext32(x), n)
  {
    hide BitAt;
    forall i | 32 <= i < 32 + n ensures BitAt(Sext32(x), i) == BitAt(Sext32(x), 31) {
      var y := Sext32(x);
      assert Signed(y) == Signed32(x);
      SignedBits(y, i);
      SignedBits(y, 31);
      BitAbove(Signed32(x), i);
      WordBits(Lo32(x), 31);
      TopBit(Lo32(x));
      assert Signed32(Lo32(x)) == Signed32(x);
    }
  }
}
