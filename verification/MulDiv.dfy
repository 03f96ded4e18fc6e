/** What multiplication and division leave in HI and LO (src/cpu/cpu_instruction_impl.cpp:115-145, 169-207), in
    terms of the operands' values. */
module MulDiv {
  import opened Common
  import opened ByteOrder
  import opened Cpu

  const LEAST: int := -0x8000_0000

  // ---- Truncated division ---------------------------------------------------------------------------

  function Abs(x: int): nat { if x < 0 then -x else x }

  predicate SameSign(r: int, a: int) { r == 0 || (r > 0 && a > 0) || (r < 0 && a < 0) }

  /** A quotient rounded towards zero, and a remainder with the sign of the dividend. */
  predicate Truncated(a: int, b: int, q: int, r: int) {
    q * b + r == a && Abs(r) < Abs(b) && SameSign(r, a)
  }

  lemma QuotientTruncates(a: int, b: int)
    requires b != 0
    ensures Truncated(a, b, Quotient(a, b), Remainder(a, b))
  {
    hide Truncated;
    if a >= 0 {
      assert a == (a / b) * b + a % b;
      FromRest(a, b, a / b, a % b);
    } else {
      var q, r := (-a) / b, (-a) % b;
      assert -a == q * b + r;
      FromRest(-a, b, q, r);
      Negated(-a, b, q, r);
    }
  }

  lemma FromRest(a: nat, b: int, q: int, r: nat)
    requires a == q * b + r && r < Abs(b)
    ensures Truncated(a, b, q, r) && r == a - q * b
  {
    if a == 0 { SmallMultiple(q, b); }
  }

  lemma Negated(a: int, b: int, q: int, r: int)
    requires Truncated(a, b, q, r)
    ensures Truncated(-a, b, -q, -r) && -r == -a - (-q) * b
  {
    Distributes(0, q, b);
  }

  lemma Distributes(x: int, y: int, b: int)
    ensures (x - y) * b == x * b - y * b
  {}

  /** Nothing else does. */
  lemma TruncatedIsUnique(a: int, b: int, q: int, r: int)
    requires b != 0 && Truncated(a, b, q, r)
    ensures q == Quotient(a, b) && r == Remainder(a, b)
  {
    hide Quotient, Remainder;
    QuotientTruncates(a, b);
    OneTruncation(a, b, q, r, Quotient(a, b), Remainder(a, b));
  }

  lemma OneTruncation(a: int, b: int, q: int, r: int, q': int, r': int)
    requires b != 0 && Truncated(a, b, q, r) && Truncated(a, b, q', r')
    ensures q == q' && r == r'
  {
    var k, x, y := q - q', q * b, q' * b;
    Distributes(q, q', b);
    SidesDiffer(a, r, r', x, y, b);
    SmallMultiple(k, b);
  }

  lemma SidesDiffer(a: int, r: int, r': int, x: int, y: int, b: int)
    requires x + r == a == y + r' && Abs(r) < Abs(b) && Abs(r') < Abs(b)
    requires SameSign(r, a) && SameSign(r', a)
    ensures Abs(x - y) < Abs(b)
  {}

  lemma SmallMultiple(k: int, b: int)
    requires Abs(k * b) < Abs(b)
    ensures k == 0
  {
    if k > 0 { Gap(k, Abs(b)); }
    if k < 0 { Gap(-k, Abs(b)); }
    assert Abs(k * b) == Abs(k) * Abs(b) by { AbsOfProduct(k, b); }
  }

  lemma AbsOfProduct(k: int, b: int)
    ensures Abs(k * b) == Abs(k) * Abs(b)
  {
    if k >= 0 && b >= 0 {} else if k >= 0 {} else if b >= 0 {} else {}
  }

  /** Only the least word divided by -1 has a quotient that is no word. */
  lemma WordQuotient(a: int, b: int, q: int, r: int)
    requires LEAST <= a < -LEAST && LEAST <= b < -LEAST && b != 0 && Truncated(a, b, q, r)
    ensures a == LEAST && b == -1 ==> q == -LEAST && r == 0
    ensures !(a == LEAST && b == -1) ==> LEAST <= q < -LEAST
    ensures LEAST <= r < -LEAST
  {
    AbsOfProduct(q, b);
    if Abs(b) > 1 && q != 0 {
      TwiceIsMore(Abs(q), Abs(b));
      assert Abs(q * b) <= Abs(a) + Abs(r);
    }
    SmallRest(a, b, q, r);
  }

  lemma TwiceIsMore(q: nat, b: nat)
    requires b > 1
    ensures q * b >= 2 * q
  {}

  /** The quotient is no larger than the dividend. */
  lemma SmallRest(a: int, b: int, q: int, r: int)
    requires b != 0 && Truncated(a, b, q, r)
    ensures Abs(q) <= Abs(a) && (Abs(b) > 1 ==> 2 * Abs(q) <= Abs(a))
  {
    AbsOfProduct(q, b);
    if Abs(b) > 1 { TwiceIsMore(Abs(q), Abs(b)); }
    SameSide(a, b, q, r);
  }

  /** The product and the remainder lie on the dividend's side of zero. */
  lemma SameSide(a: int, b: int, q: int, r: int)
    requires b != 0 && Truncated(a, b, q, r)
    ensures Abs(q * b) + Abs(r) == Abs(a)
  {
    if q * b > 0 && a <= 0 { Multiple(q, b); }
    if q * b < 0 && a >= 0 { Multiple(-q, b); }
  }

  lemma Multiple(q: int, b: int)
    requires q * b > 0
    ensures q * b >= Abs(b)
  {
    AbsOfProduct(q, b);
    Gap(Abs(q), Abs(b));
  }

  // ---- HI and LO ------------------------------------------------------------------------------------

  lemma SignedWord(x: int)
    requires LEAST <= x < -LEAST
    ensures Signed32(Wrap(x)) == x && Signed(Sext32(Wrap(x))) == x
  {
    if x >= 0 {
      Euclid(x, DOUBLE, 0, x);
      Euclid(x, WORD, 0, x);
    } else {
      Euclid(x, DOUBLE, -1, x + DOUBLE);
      Euclid(x + DOUBLE, WORD, WORD - 1, x + WORD);
    }
  }

  lemma UnsignedWord(x: nat)
    requires x < WORD
    ensures Lo32(Sext32(x)) == x && Lo32(x) == x
  {
    Euclid(x, WORD, 0, x);
    var y := Signed32(x);
    if y >= 0 {
      Euclid(y, DOUBLE, 0, y);
    } else {
      Euclid(y, DOUBLE, -1, y + DOUBLE);
      Euclid(y + DOUBLE, WORD, WORD - 1, x);
    }
  }

  lemma SignedRange(x: nat)
    ensures LEAST <= Signed32(x) < -LEAST && (Signed32(x) == 0 <==> Lo32(x) == 0)
    ensures Signed(Sext32(x)) == Signed32(x)
  {
    var y := Signed32(x);
    if y >= 0 { Euclid(y, DOUBLE, 0, y); } else { Euclid(y, DOUBLE, -1, y + DOUBLE); }
  }

  lemma ExecuteIs(s: Core, op: IrOp)
    ensures var rs, rt := Gpr(s, op.rs), Gpr(s, op.rt);
      && (op.kind.Div? ==> Execute(s, op) == SignedDivision(s, rs, rt))
      && (op.kind.Divu? ==> Execute(s, op) == UnsignedDivision(s, rs, rt))
      && (op.kind.Mult? ==> Execute(s, op) == Product(s, Signed32(rs) * Signed32(rt)))
      && (op.kind.Multu? ==> Execute(s, op) == Product(s, Lo32(rs) * Lo32(rt)))
  {
    hide Gpr, SignedDivision, UnsignedDivision, Product, Signed32, Lo32, Branch, Memory, AluResult, SetGpr;
  }

  /** DIV leaves the truncated quotient and remainder; dividing the least word by -1 gives it back, and dividing by
      zero leaves the dividend and -1 or 1. */
  lemma DivExact(s: Core, op: IrOp)
    requires op.kind.Div?
    ensures var a, b := Signed32(Gpr(s, op.rs)), Signed32(Gpr(s, op.rt));
      var s' := Execute(s, op);
      var q, r := Signed(s'.lo), Signed(s'.hi);
      && s' == s.(hi := s'.hi, lo := s'.lo)
      && (b == 0 ==> r == a && q == if a >= 0 then -1 else 1)
      && (b != 0 && !(a == LEAST && b == -1) ==> Truncated(a, b, q, r))
      && (a == LEAST && b == -1 ==> q == a && r == 0)
  {
    hide Execute, Gpr, Quotient, Remainder, Signed32, Sext32, Signed, Wrap, Truncated, Lo32;
    ExecuteIs(s, op);
    DivisionExact(s, Gpr(s, op.rs), Gpr(s, op.rt));
  }

  lemma DivisionExact(s: Core, rs: u64, rt: u64)
    ensures var a, b := Signed32(rs), Signed32(rt);
      var s' := SignedDivision(s, rs, rt);
      var q, r := Signed(s'.lo), Signed(s'.hi);
      && s' == s.(hi := s'.hi, lo := s'.lo)
      && (b == 0 ==> r == a && q == if a >= 0 then -1 else 1)
      && (b != 0 && !(a == LEAST && b == -1) ==> Truncated(a, b, q, r))
      && (a == LEAST && b == -1 ==> q == a && r == 0)
  {
    var a, b := Signed32(rs), Signed32(rt);
    SignedRange(rs);
    SignedRange(rt);
    LeastAndOnes();
    hide Quotient, Remainder, Signed32, Sext32, Signed, Wrap, Truncated, Lo32;
    if b != 0 {
      var q, r := Quotient(a, b), Remainder(a, b);
      QuotientTruncates(a, b);
      WordQuotient(a, b, q, r);
      SignedWord(r);
      if a != LEAST || b != -1 { SignedWord(q); }
    }
  }

  lemma LeastAndOnes()
    ensures Signed(DOUBLE - 1) == -1 && Signed(1) == 1 && Signed(Sext32(Wrap(-LEAST))) == LEAST
  {}

  /** DIVU, on the operands read without a sign. */
  lemma DivuExact(s: Core, op: IrOp)
    requires op.kind.Divu?
    ensures var a, b := Lo32(Gpr(s, op.rs)), Lo32(Gpr(s, op.rt));
      var s' := Execute(s, op);
      && s' == s.(hi := s'.hi, lo := s'.lo)
      && s'.hi == Sext32(Lo32(s'.hi)) && s'.lo == Sext32(Lo32(s'.lo))
      && (b == 0 ==> Lo32(s'.hi) == a && Lo32(s'.lo) == WORD - 1)
      && (b != 0 ==> Lo32(s'.lo) * b + Lo32(s'.hi) == a && Lo32(s'.hi) < b)
  {
    hide Execute, Gpr, Sext32, Lo32;
    ExecuteIs(s, op);
    UnsignedDivisionExact(s, Gpr(s, op.rs), Gpr(s, op.rt));
  }

  lemma UnsignedDivisionExact(s: Core, rs: u64, rt: u64)
    ensures var a, b := Lo32(rs), Lo32(rt);
      var s' := UnsignedDivision(s, rs, rt);
      && s' == s.(hi := s'.hi, lo := s'.lo)
      && s'.hi == Sext32(Lo32(s'.hi)) && s'.lo == Sext32(Lo32(s'.lo))
      && (b == 0 ==> Lo32(s'.hi) == a && Lo32(s'.lo) == WORD - 1)
      && (b != 0 ==> Lo32(s'.lo) * b + Lo32(s'.hi) == a && Lo32(s'.hi) < b)
  {
    hide Sext32, Lo32;
    var a, b := Lo32(rs), Lo32(rt);
    LowRange(rs);
    LowRange(rt);
    UnsignedOnes(rs);
    UnsignedWord(a);
    if b != 0 {
      var q, r := a / b, a % b;
      assert a == q * b + r && 0 <= r < b;
      AtMost(q, b);
      UnsignedWord(q);
      UnsignedWord(r);
    }
  }

  lemma UnsignedOnes(x: u64)
    ensures Sext32(WORD - 1) == DOUBLE - 1 && Lo32(DOUBLE - 1) == WORD - 1 && Sext32(x) == Sext32(Lo32(x))
  {
    Euclid(Lo32(x), WORD, 0, Lo32(x));
  }

  lemma AtMost(q: nat, b: nat)
    requires b > 0
    ensures q <= q * b
  {}

  /** MULT and MULTU leave the whole 64-bit product, its high word in HI and its low word in LO. */
  lemma ProductExact(s: Core, op: IrOp)
    requires op.kind.Mult? || op.kind.Multu?
    ensures var rs, rt := Gpr(s, op.rs), Gpr(s, op.rt);
      var s' := Execute(s, op);
      && s' == s.(hi := s'.hi, lo := s'.lo)
      && s'.hi == Sext32(Lo32(s'.hi)) && s'.lo == Sext32(Lo32(s'.lo))
      && (op.kind.Mult? ==> Signed32(s'.hi) * WORD + Lo32(s'.lo) == Signed32(rs) * Signed32(rt))
      && (op.kind.Multu? ==> Lo32(s'.hi) * WORD + Lo32(s'.lo) == Lo32(rs) * Lo32(rt))
  {
    hide Execute, Gpr, Signed32, Lo32, Sext32, Product;
    ExecuteIs(s, op);
    var rs, rt := Gpr(s, op.rs), Gpr(s, op.rt);
    if op.kind.Mult? {
      SignedRange(rs);
      SignedRange(rt);
      SignedProduct(Signed32(rs), Signed32(rt));
      ProductWords(s, Signed32(rs) * Signed32(rt));
    } else {
      LowRange(rs);
      LowRange(rt);
      UnsignedProduct(Lo32(rs), Lo32(rt));
      ProductWords(s, Lo32(rs) * Lo32(rt));
    }
  }

  lemma LowRange(x: nat)
    ensures Lo32(x) < WORD
  {}

  lemma SignedProduct(a: int, b: int)
    requires LEAST <= a < -LEAST && LEAST <= b < -LEAST
    ensures LEAST * WORD <= a * b < -LEAST * WORD
  {
    AbsOfProduct(a, b);
    MulOrder(Abs(a), Abs(b), -LEAST);
    MulOrder(-LEAST, Abs(a), -LEAST);
  }

  lemma UnsignedProduct(a: nat, b: nat)
    requires a < WORD && b < WORD
    ensures a * b < DOUBLE
  {
    MulOrder(a, b, WORD - 1);
    MulOrder(WORD - 1, a, WORD - 1);
  }

  lemma ProductWords(s: Core, p: int)
    requires LEAST * WORD <= p < DOUBLE
    ensures var s' := Product(s, p);
      && s' == s.(hi := s'.hi, lo := s'.lo)
      && s'.hi == Sext32(Lo32(s'.hi)) && s'.lo == Sext32(Lo32(s'.lo))
      && (p < -LEAST * WORD ==> Signed32(s'.hi) * WORD + Lo32(s'.lo) == p)
      && (p >= 0 ==> Lo32(s'.hi) * WORD + Lo32(s'.lo) == p)
  {
    var h, l := p / WORD, p % WORD;
    LowOfWrap(p, h, l);
    hide Sext32, Signed32, Wrap, Lo32;
    WordParts(Wrap(p));
    WordParts(Wrap(h));
    if p < -LEAST * WORD {
      SignedWord(h);
      SameSigned(Wrap(h));
    }
    if p >= 0 { SmallWrap(h); }
  }

  /** Sign-extending a word keeps its low half, and it is determined by that half. */
  lemma WordParts(x: nat)
    ensures Lo32(Sext32(x)) == Lo32(x) && Sext32(x) == Sext32(Lo32(x))
  {
    UnsignedWord(Lo32(x));
    UnsignedOnes(x % DOUBLE);
    Euclid(Lo32(x), WORD, 0, Lo32(x));
  }

  lemma SameSigned(x: nat)
    ensures Signed32(Sext32(x)) == Signed32(x)
  {
    WordParts(x);
  }

  lemma SmallWrap(h: nat)
    requires h < WORD
    ensures Lo32(Wrap(h)) == h
  {
    Euclid(h, DOUBLE, 0, h);
    Euclid(h, WORD, 0, h);
  }

  lemma LowOfWrap(p: int, h: int, l: nat)
    requires p == h * WORD + l && l < WORD
    ensures Lo32(Wrap(p)) == l
  {
    var q := p / DOUBLE;
    Euclid(Wrap(p), WORD, h - q * WORD, l);
  }
}
