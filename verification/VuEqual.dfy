/** The limb arithmetic of the vectorised path is the 48-bit arithmetic of the scalar path, for all operands,
    accumulators and flags. */
module VuEqual {
  import opened Common
  import opened VuLane
  import opened VuSimd

  // ---- Products -------------------------------------------------------------------------------------

  lemma Shift(x: int, k: int)
    ensures H(x + 0x1_0000 * k) == H(x) && (x + 0x1_0000 * k) / 0x1_0000 == x / 0x1_0000 + k
  {
    Euclid(x + 0x1_0000 * k, 0x1_0000, x / 0x1_0000 + k, x % 0x1_0000);
  }

  /** The square of -32768 is the one product that needs 31 bits. */
  lemma Products(s: half, t: half)
    ensures -0x4000_0000 < S(s) * S(t) <= 0x4000_0000
    ensures S(s) * S(t) == 0x4000_0000 <==> s == t == 0x8000
    ensures S(s) * S(t) != 0x4000_0000 ==> S(s) * S(t) <= 0x3FFF_8000
    ensures s == t ==> S(s) * S(t) >= 0
    ensures -0x8000 * 0xFFFF <= S(s) * t <= 0x7FFF * 0xFFFF
    ensures 0 <= s * t <= 0xFFFF * 0xFFFF
  {
    var a, b := S(s), S(t);
    Bound(a, b);
    if a == -0x8000 && b == -0x8000 { assert a * b == 0x4000_0000; } else { Smaller(a, b); }
    if s == t { assert a * a >= 0; }
    Between(a, t);
    Between(s, t);
  }

  lemma Bound(a: int, b: int)
    requires -0x8000 <= a < 0x8000 && -0x8000 <= b < 0x8000
    ensures -0x4000_0000 < a * b
  {
    if a >= 0 {
      MulOrder(a, -0x8000, b);
    } else {
      MulOrder(-a, b, 0x7FFF);
      assert -a * b == -(a * b);
    }
  }

  lemma Smaller(a: int, b: int)
    requires -0x8000 <= a < 0x8000 && -0x8000 <= b < 0x8000 && !(a == -0x8000 && b == -0x8000)
    ensures a * b <= 0x3FFF_8000
  {
    if a >= 0 {
      MulOrder(a, b, 0x7FFF);
    } else {
      MulOrder(-a, -b, if a == -0x8000 then 0x7FFF else 0x8000);
      assert -a * -b == a * b;
    }
  }

  lemma Between(a: int, t: half)
    requires -0x8000 <= a <= 0xFFFF
    ensures (if a < 0 then -0x8000 * 0xFFFF else 0) <= a * t <= (if a < 0x8000 then 0x7FFF * 0xFFFF else 0xFFFF * 0xFFFF)
  {
    if a >= 0 {
      assert a * t <= a * 0xFFFF;
    } else {
      assert a * t >= -0x8000 * t;
    }
  }

  /** The multiply instructions give the low and the high half of the product. */
  lemma SignedHalves(s: half, t: half)
    ensures Mullo(s, t) == H(S(s) * S(t)) && MulhiS(s, t) == H(S(s) * S(t) / 0x1_0000)
  {
    var i, j := if s < 0x8000 then 0 else 1, if t < 0x8000 then 0 else 1;
    assert S(s) == s - 0x1_0000 * i && S(t) == t - 0x1_0000 * j;
    assert S(s) * S(t) == s * t + 0x1_0000 * (0x1_0000 * i * j - s * j - t * i);
    Shift(s * t, 0x1_0000 * i * j - s * j - t * i);
  }

  lemma MaskedOperand(s: half, t: half)
    ensures S(s) * t == s * t - 0x1_0000 * BitAnd(t, Sra15(s))
  {
    hide B.Zip, BitAnd;
    Masks(t);
    if s >= 0x8000 { assert (s - 0x1_0000) * t == s * t - 0x1_0000 * t; }
  }

  lemma MixedHalves(s: half, t: half)
    ensures MixedLow(s, t) == H(S(s) * t) && MixedHigh(s, t) == H(S(s) * t / 0x1_0000)
  {
    hide BitAnd, S, Sra15;
    var k: int := BitAnd(t, Sra15(s));
    MaskedOperand(s, t);
    var p := s * t;
    Shift(p, -k);
    HDifference(p / 0x1_0000, k);
  }

  lemma HDifference(x: int, y: int)
    ensures H(H(x) - y) == H(x - y)
  {
    Shift(x - y, -(x / 0x1_0000));
  }

  // ---- The accumulator ------------------------------------------------------------------------------

  lemma CarryIs(a: half, b: half)
    ensures CarryMask(a, b) == Mask(a + b >= 0x1_0000)
  {}

  /** A number in three slices, the top one any integer. */
  function Limbs(h: int, m: int, l: int): int { h * 0x1_0000_0000 + m * 0x1_0000 + l }

  lemma SetLimbs(c: Lane, h: int, m: half, l: half)
    ensures SetAcc(c, Limbs(h, m, l)) == c.(h := H(h), m := m, l := l)
  {
    var v := Limbs(h, m, l);
    Euclid(v, 0x1_0000, h * 0x1_0000 + m, l);
    Euclid(h * 0x1_0000 + m, 0x1_0000, h, m);
    Euclid(v, 0x1_0000_0000, h, m * 0x1_0000 + l);
  }

  lemma SetModulo(c: Lane, v: int, k: int)
    ensures SetAcc(c, v + ACC * k) == SetAcc(c, v)
  {
    var h, m, l := v / 0x1_0000_0000, H(v / 0x1_0000), H(v);
    assert v == Limbs(h, m, l);
    SetLimbs(c, h, m, l);
    SetLimbs(c, h + 0x1_0000 * k, m, l);
    Shift(h, k);
  }

  lemma Cut(x: int)
    ensures x == x / 0x1_0000 * 0x1_0000 + H(x)
  {}

  /** The slices read without a sign. */
  lemma Unsigned(c: Lane) returns (k: int)
    ensures Acc(c) == Limbs(c.h, c.m, c.l) - ACC * k
  {
    k := if Limbs(c.h, c.m, c.l) < 0x8000_0000_0000 then 0 else 1;
  }

  /** Adding slice by slice, given the carries. */
  lemma AddSlices(c: Lane, h: int, m: half, l: half, cl: int, cm: int, m': half, l': half)
    requires c.l + l == cl * 0x1_0000 + l' && c.m + m + cl == cm * 0x1_0000 + m'
    ensures SetAcc(c, Acc(c) + Limbs(h, m, l)) == c.(h := H(c.h + h + cm), m := m', l := l')
  {
    hide Acc, SetAcc, H;
    var k := Unsigned(c);
    var sum := Limbs(c.h, c.m, c.l) + Limbs(h, m, l);
    SetModulo(c, sum, -k);
    assert sum == Limbs(c.h + h + cm, m', l');
    SetLimbs(c, c.h + h + cm, m', l');
  }

  lemma AddLimbs(c: Lane, h: int, m: half, l: half)
    ensures var l1, m1 := c.l + l, c.m + m + (c.l + l) / 0x1_0000;
      SetAcc(c, Acc(c) + Limbs(h, m, l)) == c.(h := H(c.h + h + m1 / 0x1_0000), m := H(m1), l := H(l1))
  {
    hide Acc, SetAcc, H, Limbs;
    var l1, m1 := c.l + l, c.m + m + (c.l + l) / 0x1_0000;
    Cut(l1);
    Cut(m1);
    AddSlices(c, h, m, l, l1 / 0x1_0000, m1 / 0x1_0000, H(m1), H(l1));
  }

  /** The two upper slices as a signed word. */
  lemma UpperWord(c: Lane)
    ensures Acc(c) / 0x1_0000 == S(c.h) * 0x1_0000 + c.m
    ensures H(Acc(c)) == c.l && H(Acc(c) / 0x1_0000) == c.m && H(Acc(c) / 0x1_0000_0000) == c.h
  {
    var w := S(c.h) * 0x1_0000 + c.m;
    assert Acc(c) == w * 0x1_0000 + c.l;
    var k := if c.h < 0x8000 then 0 else -1;
    Euclid(Acc(c), 0x1_0000, w, c.l);
    Euclid(w, 0x1_0000, S(c.h), c.m);
    Euclid(Acc(c), 0x1_0000_0000, S(c.h), c.m * 0x1_0000 + c.l);
    Euclid(S(c.h), 0x1_0000, k, c.h);
  }

  lemma SignedPack(c: Lane)
    ensures ClampSigned(Acc(c) / 0x1_0000) == Packs(c.m, c.h)
  {
    UpperWord(c);
  }

  lemma LowClamp(c: Lane)
    ensures ClampAccLow(Acc(c)) == ClampLow(c.l, c.m, c.h)
  {
    UpperWord(c);
    hide Acc, BitAnd, B.Zip;
    Masks(CmpEq(Sra15(c.h), Sra15(c.m)));
    Masks(CmpEq(Sra15(c.h), c.h));
    assert S(c.h) == 0 <==> c.h == 0;
    assert S(c.h) == -1 <==> c.h == 0xFFFF;
  }

  // ---- Multiplication -------------------------------------------------------------------------------

  lemma HSum(x: int, y: int)
    ensures H(H(x) + H(y)) == H(x + y) && H(H(x) + y) == H(x + y)
  {
    Shift(x + y, -(x / 0x1_0000) - y / 0x1_0000);
    Shift(x + y, -(x / 0x1_0000));
  }

  lemma SetParts(c: Lane, w: int, l: half)
    ensures SetAcc(c, w * 0x1_0000 + l) == c.(h := H(w / 0x1_0000), m := H(w), l := l)
  {
    assert w * 0x1_0000 + l == Limbs(w / 0x1_0000, H(w), l);
    SetLimbs(c, w / 0x1_0000, H(w), l);
  }

  /** Twice a number, cut as the vectorised code cuts it: the bits shifted out of the low half go up. */
  lemma Doubled(q: int, r: half)
    requires -0x4000 <= q <= 0x4000
    ensures var b, r2 := Shr15(r), Add16(r, r);
      2 * (q * 0x1_0000 + r) == (2 * q + b) * 0x1_0000 + r2
      && Add16(H(q), H(q)) == H(2 * q) && H(2 * q) % 2 == 0 && Sra15(H(q)) == Mask(q < 0)
  {
    HSum(q, q);
  }

  lemma AddHalf(x: half)
    ensures x + 0x8000 == Shr15(x) * 0x1_0000 + Add16(0x8000, x) && Shr15(x) < 2
  {}

  /** VMULF and VMULU: the product doubled, with half added, and nothing to accumulate. */
  lemma RoundedLimbs(c: Lane, q: int, r: half)
    requires -0x4000 <= q <= 0x4000
    ensures var r2 := Add16(r, r);
      var w := 2 * q + Shr15(r) + Shr15(r2);
      && Add16(Add16(H(q), H(q)), Add16(Shr15(r), Shr15(r2))) == H(w)
      && 2 * (q * 0x1_0000 + r) + 0x8000 == w * 0x1_0000 + Add16(0x8000, r2)
      && SetAcc(c, 2 * (q * 0x1_0000 + r) + 0x8000) == c.(l := Add16(0x8000, r2), m := H(w), h := H(w / 0x1_0000))
  {
    hide H, SetAcc, Shr15, Add16, Sra15;
    Doubled(q, r);
    var b, r2 := Shr15(r), Add16(r, r);
    AddHalf(r);
    AddHalf(r2);
    var b2, l := Shr15(r2), Add16(0x8000, r2);
    var w := 2 * q + b + b2;
    assert 2 * (q * 0x1_0000 + r) + 0x8000 == w * 0x1_0000 + l;
    SetParts(c, w, l);
    SumOfSlices(2 * q, b, b2);
  }

  lemma SumOfSlices(x: int, a: half, b: half)
    requires a < 2 && b < 2
    ensures Add16(H(x), Add16(a, b)) == H(x + a + b)
  {
    SmallSum(a, b);
    HSum(x, a + b);
    hide H;
  }

  lemma SmallSum(a: half, b: half)
    requires a < 2 && b < 2
    ensures H(a + b) == a + b
  {}

  lemma SmallShift(x: half)
    ensures Shr15(x) < 2
  {}

  lemma MulfEqual(unsigned: bool, s: half, t: half, c: Lane)
    ensures MulfMulu(unsigned, s, t, c) ==
      if unsigned then WithHighUnsigned(c, 2 * (S(s) * S(t)) + 0x8000) else WithHigh(c, 2 * (S(s) * S(t)) + 0x8000)
  {
    hide B.Zip, BitAnd, BitOr, Mullo, MulhiS, H, Acc, SetAcc, Shr15, Sra15, Add16;
    SignedHalves(s, t);
    Products(s, t);
    var p := S(s) * S(t);
    var q, r := p / 0x1_0000, H(p);
    Cut(p);
    RoundedLimbs(c, q, r);
    var c' := SetAcc(c, 2 * p + 0x8000);
    UpperWord(c');
    MulfResult(CmpEq(s, t), 2 * q + Shr15(r) + Shr15(Add16(r, r)), p);
  }

  /** The equality mask singles out the square of -32768. */
  lemma MulfResult(eq: half, w: int, p: int)
    requires eq == 0 || eq == 0xFFFF
    requires w == (2 * p + 0x8000) / 0x1_0000 && -0x4000_0000 < p && (p <= 0x3FFF_8000 || p == 0x4000_0000)
    requires (eq == 0xFFFF ==> p >= 0) && (p == 0x4000_0000 ==> eq == 0xFFFF)
    ensures var neg := Sra15(H(w));
      var h := BitAnd(Not(eq), neg);
      && h == H(w / 0x1_0000)
      && Add16(H(w), BitAnd(eq, neg)) == ClampSigned(S(h) * 0x1_0000 + H(w))
      && BitAnd(Not(h), BitOr(H(w), neg)) == ClampUnsigned(S(h) * 0x1_0000 + H(w))
  {
    hide B.Zip, BitAnd, BitOr;
    assert -0x8000 <= w <= 0x8000 && (w == 0x8000 <==> p == 0x4000_0000);
    var neg := Sra15(H(w));
    Masks(neg);
    Masks(H(w));
    Masks(BitOr(H(w), neg));
  }

  /** VMACF and VMACU: the carry out of the low slice may turn a middle slice of all ones into zero, and then
      has to be carried into the high one. */
  lemma MacfLimbs(c: Lane, q: int, r: half)
    requires -0x4000 <= q <= 0x4000
    ensures var lo2, md := Add16(r, r), H(2 * q + Shr15(r));
      var ov := Mask(c.l + lo2 >= 0x1_0000);
      var md2 := Sub16(md, ov);
      var top2 := Sub16(Mask(q < 0), Mask(md2 == 0 && ov == 0xFFFF));
      var ov2 := Mask(c.m + md2 >= 0x1_0000);
      SetAcc(c, Acc(c) + 2 * (q * 0x1_0000 + r)) ==
        c.(l := Add16(c.l, lo2), m := Add16(c.m, md2), h := Sub16(Add16(c.h, top2), ov2))
  {
    hide Acc, SetAcc, Shr15, H, Sra15, Add16, Sub16, Mask;
    Doubled(q, r);
    var w, lo2 := 2 * q + Shr15(r), Add16(r, r);
    SmallShift(r);
    var top := if q < 0 then -1 else 0;
    SignSlice(w, top);
    LowSum(c.l, lo2);
    AddLimbs(c, top, H(w), lo2);
    assert Limbs(top, H(w), lo2) == 2 * (q * 0x1_0000 + r);
    Carries(c.h, c.m, c.l, top, H(w), lo2);
  }

  lemma LowSum(a: half, b: half)
    ensures Add16(a, b) == H(a + b)
  {}

  lemma SignSlice(w: int, top: int)
    requires -0x8000 <= w <= 0x8001 && top == if w < 0 then -1 else 0
    ensures w == top * 0x1_0000 + H(w) && H(top) == Mask(w < 0) && (top == 0 ==> H(w) < 0xFFFF)
  {}

  /** Subtracting a carry mask adds the carry. */
  lemma SubMask(x: half, b: bool)
    ensures Sub16(x, Mask(b)) == H(x + B.Odd(b))
  {}

  lemma CarryOf(x: half, y: half)
    ensures B.Odd(x + y >= 0x1_0000) == (x + y) / 0x1_0000
  {}

  lemma TopCarry(h: half, top: int, m: half, x: half)
    ensures Sub16(Add16(h, H(top)), Mask(m + x >= 0x1_0000)) == H(h + top + (m + x) / 0x1_0000)
  {
    hide H;
    SubMask(Add16(h, H(top)), m + x >= 0x1_0000);
    CarryOf(m, x);
    HSum(top, h);
    HSum(top + h, (m + x) / 0x1_0000);
  }

  lemma Carries(h: half, m: half, l: half, top: int, md: half, lo: half)
    requires top == 0 || top == -1
    requires top == 0 ==> md < 0xFFFF
    ensures var ov := Mask(l + lo >= 0x1_0000);
      var md2 := Sub16(md, ov);
      var top2 := Sub16(H(top), Mask(md2 == 0 && ov == 0xFFFF));
      var ov2 := Mask(m + md2 >= 0x1_0000);
      var m1 := m + md + (l + lo) / 0x1_0000;
      && Add16(m, md2) == H(m1)
      && Sub16(Add16(h, top2), ov2) == H(h + top + m1 / 0x1_0000)
  {
    var carry := l + lo >= 0x1_0000;
    CarryOf(l, lo);
    SubMask(md, carry);
    if carry && md == 0xFFFF {
      assert Sub16(md, Mask(carry)) == 0 && Sub16(H(top), 0xFFFF) == 0;
      assert (m + md + 1) / 0x1_0000 == 1;
    } else {
      var x := md + B.Odd(carry);
      assert Sub16(md, Mask(carry)) == x && !(x == 0 && carry);
      assert Sub16(H(top), 0) == H(top);
      TopCarry(h, top, m, x);
    }
  }

  lemma UnsignedResult(c: Lane)
    ensures BitOr(Mask(S(c.h) > 0), BitAnd(Not(Sra15(c.h)), BitOr(Sra15(c.m), c.m))) == ClampUnsigned(Acc(c) / 0x1_0000)
  {
    UpperWord(c);
    hide B.Zip, BitAnd, BitOr, Acc;
    Masks(c.m);
    Masks(BitOr(Sra15(c.m), c.m));
    Masks(BitAnd(Not(Sra15(c.h)), BitOr(Sra15(c.m), c.m)));
  }

  /** The middle slice of the doubled product, and its sign, as the vectorised code builds them. */
  lemma MacfSlices(s: half, t: half)
    ensures var lo, hi := Mullo(s, t), MulhiS(s, t);
      var q, r := S(s) * S(t) / 0x1_0000, H(S(s) * S(t));
      && -0x4000 <= q <= 0x4000 && S(s) * S(t) == q * 0x1_0000 + r
      && lo == r && Sra15(hi) == Mask(q < 0)
      && BitOr(Add16(hi, hi), Shr15(lo)) == H(2 * q + Shr15(r))
  {
    hide B.Zip, BitOr, Mullo, MulhiS, S, H, Shr15, Add16, Sra15;
    SignedHalves(s, t);
    Products(s, t);
    var p := S(s) * S(t);
    Cut(p);
    Middle(p / 0x1_0000, H(p));
  }

  lemma Middle(q: int, r: half)
    requires -0x4000 <= q <= 0x4000
    ensures BitOr(Add16(H(q), H(q)), Shr15(r)) == H(2 * q + Shr15(r)) && Sra15(H(q)) == Mask(q < 0)
  {
    hide B.Zip, BitOr, H, Shr15, Add16, Sra15;
    Doubled(q, r);
    SmallShift(r);
    OrEven(H(2 * q), Shr15(r));
    HSum(2 * q, Shr15(r));
    EvenBelow(H(2 * q), Shr15(r));
  }

  lemma EvenBelow(x: half, b: half)
    requires x % 2 == 0 && b < 2
    ensures x + b < 0x1_0000 && H(x + b) == x + b
  {}

  lemma MacfEqual(unsigned: bool, s: half, t: half, c: Lane)
    ensures MacfMacu(unsigned, s, t, c) ==
      if unsigned then WithHighUnsigned(c, Acc(c) + 2 * (S(s) * S(t))) else WithHigh(c, Acc(c) + 2 * (S(s) * S(t)))
  {
    hide B.Zip, BitAnd, BitOr, Mullo, MulhiS, CarryMask, Packs, ClampSigned, ClampUnsigned, Acc, SetAcc, H, Shr15, Sra15;
    MacfSlices(s, t);
    var q, r := S(s) * S(t) / 0x1_0000, H(S(s) * S(t));
    MacfLimbs(c, q, r);
    var c' := SetAcc(c, Acc(c) + 2 * (S(s) * S(t)));
    UnsignedResult(c');
    SignedPack(c');
    CarryIs(c.l, Add16(r, r));
    CarryIs(c.m, Sub16(H(2 * q + Shr15(r)), CarryMask(c.l, Add16(r, r))));
  }

  lemma SetZero(c: Lane, l: half)
    ensures SetAcc(c, l) == c.(h := 0, m := 0, l := l)
  {
    SetLimbs(c, 0, 0, l);
  }

  lemma UnsignedHigh(s: half, t: half)
    ensures MulhiU(s, t) == s * t / 0x1_0000
  {
    Products(s, t);
  }

  lemma AddLow(c: Lane, l: half)
    ensures var ov := CarryMask(c.l, l);
      var carry := Sub16(0, ov);
      SetAcc(c, l + Acc(c)) ==
        c.(l := Add16(c.l, l), m := Add16(c.m, carry), h := Sub16(c.h, CarryMask(c.m, carry)))
  {
    hide Acc, SetAcc, CarryMask, H, Sub16, Add16, Mask;
    var up := B.Odd(c.l + l >= 0x1_0000);
    CarryIs(c.l, l);
    CarryOut(c.l, l);
    OneOrNone(c.l + l >= 0x1_0000);
    CarryIs(c.m, up);
    CarryOut(c.m, up);
    var top := B.Odd(c.m + up >= 0x1_0000);
    SubMask(c.h, c.m + up >= 0x1_0000);
    AddSlices(c, 0, 0, l, up, top, Add16(c.m, up), Add16(c.l, l));
  }

  lemma CarryOut(a: half, b: half)
    ensures a + b == B.Odd(a + b >= 0x1_0000) * 0x1_0000 + Add16(a, b)
  {
    var k := B.Odd(a + b >= 0x1_0000);
    Euclid(a + b, 0x1_0000, k, a + b - k * 0x1_0000);
  }

  lemma OneOrNone(b: bool)
    ensures Sub16(0, Mask(b)) == B.Odd(b)
  {}

  lemma MudlEqual(accumulate: bool, s: half, t: half, c: Lane)
    ensures MudlMadl(accumulate, s, t, c) ==
      WithLow(c, if accumulate then s * t / 0x1_0000 + Acc(c) else s * t / 0x1_0000)
  {
    hide Acc, SetAcc, CarryMask, MulhiU, ClampAccLow, ClampLow, H;
    UnsignedHigh(s, t);
    var hi := MulhiU(s, t);
    SetZero(c, hi);
    AddLow(c, hi);
    LowClamp(SetAcc(c, if accumulate then hi + Acc(c) else hi));
    SmallClamp(hi);
  }

  lemma SmallClamp(l: half)
    ensures ClampLow(l, 0, 0) == l
  {
    hide B.Zip, BitAnd;
    Masks(0xFFFF);
  }

  /** Adding a signed 32-bit product in two halves. */
  lemma MixedLimbs(c: Lane, q: int, lo: half)
    requires -0x8000 <= q < 0x7FFF
    ensures SetAcc(c, q * 0x1_0000 + lo + Acc(c)).(d := c.d) == AddMixed(lo, H(q), c).(d := c.d)
  {
    hide Acc, SetAcc, CarryMask, H, Sra15;
    var top := if q < 0 then -1 else 0;
    SignSlice(q, top);
    AddLimbs(c, top, H(q), lo);
    assert Limbs(top, H(q), lo) == q * 0x1_0000 + lo;
    CarryIs(c.l, lo);
    CarryOf(c.l, lo);
    var q' := q + B.Odd(c.l + lo >= 0x1_0000);
    SubMask(H(q), c.l + lo >= 0x1_0000);
    HSum(q, B.Odd(c.l + lo >= 0x1_0000));
    CarryIs(c.m, H(q'));
    SignOfHalf(q');
    MixedTop(c, q, q', lo);
  }

  lemma SignOfHalf(q: int)
    requires -0x8000 <= q <= 0x7FFF
    ensures Sra15(H(q)) == H(if q < 0 then -1 else 0)
  {}

  lemma MixedTop(c: Lane, q: int, q': int, lo: half)
    requires -0x8000 <= q < 0x7FFF && q' == q + (c.l + lo) / 0x1_0000
    ensures var top, top' := if q < 0 then -1 else 0, if q' < 0 then -1 else 0;
      var m1 := c.m + H(q) + (c.l + lo) / 0x1_0000;
      && Add16(c.m, H(q')) == H(m1)
      && Sub16(Add16(c.h, H(top')), Mask(c.m + H(q') >= 0x1_0000)) == H(c.h + top + m1 / 0x1_0000)
  {
    var top, top' := if q < 0 then -1 else 0, if q' < 0 then -1 else 0;
    TopCarry(c.h, top', c.m, H(q'));
    if q == -1 && q' == 0 {
      assert c.m + H(q) + 1 == c.m + 0x1_0000;
    } else {
      assert H(q') == H(q) + (c.l + lo) / 0x1_0000;
    }
  }

  lemma MixedProduct(s: half, t: half)
    ensures var q, lo := S(s) * t / 0x1_0000, H(S(s) * t);
      && -0x8000 <= q < 0x7FFF && S(s) * t == q * 0x1_0000 + lo
      && MixedLow(s, t) == lo && MixedHigh(s, t) == H(q)
  {
    hide MixedLow, MixedHigh;
    Products(s, t);
    MixedHalves(s, t);
  }

  lemma SetMixed(c: Lane, q: int, lo: half)
    requires -0x8000 <= q < 0x7FFF
    ensures SetAcc(c, q * 0x1_0000 + lo) == c.(l := lo, m := H(q), h := Sra15(H(q)))
    ensures ClampSigned(q) == H(q) && ClampLow(lo, H(q), Sra15(H(q))) == lo && Packs(H(q), Sra15(H(q))) == H(q)
  {
    SetParts(c, q, lo);
    hide SetAcc, B.Zip, BitAnd;
    Masks(0xFFFF);
  }

  lemma MudmEqual(accumulate: bool, s: half, t: half, c: Lane)
    ensures MudmMadm(accumulate, s, t, c) == WithHigh(c, if accumulate then S(s) * t + Acc(c) else S(s) * t)
  {
    hide Acc, SetAcc, MixedLow, MixedHigh, AddMixed, Packs, ClampSigned, Sra15, H, S;
    MixedProduct(s, t);
    var q, lo := S(s) * t / 0x1_0000, H(S(s) * t);
    SetMixed(c, q, lo);
    MixedLimbs(c, q, lo);
    SignedPack(SetAcc(c, if accumulate then S(s) * t + Acc(c) else S(s) * t));
  }

  lemma MudnEqual(accumulate: bool, s: half, t: half, c: Lane)
    ensures MudnMadn(accumulate, s, t, c) == WithLow(c, if accumulate then s * S(t) + Acc(c) else s * S(t))
  {
    hide Acc, SetAcc, MixedLow, MixedHigh, AddMixed, ClampLow, ClampAccLow, Sra15, H, S;
    MixedProduct(t, s);
    assert S(t) * s == s * S(t);
    var q, lo := S(t) * s / 0x1_0000, H(S(t) * s);
    SetMixed(c, q, lo);
    MixedLimbs(c, q, lo);
    LowClamp(SetAcc(c, if accumulate then s * S(t) + Acc(c) else s * S(t)));
  }

  lemma MudhEqual(accumulate: bool, s: half, t: half, c: Lane)
    ensures MudhMadh(accumulate, s, t, c) ==
      WithHigh(c, if accumulate then S(s) * S(t) * 0x1_0000 + Acc(c) else S(s) * S(t) * 0x1_0000)
  {
    hide Acc, SetAcc, Mullo, MulhiS, Packs, ClampSigned, H, S, CarryMask;
    SignedHalves(s, t);
    var p := S(s) * S(t);
    var q, lo := p / 0x1_0000, H(p);
    Cut(p);
    assert p * 0x1_0000 == Limbs(q, lo, 0);
    SetLimbs(c, q, lo, 0);
    AddHigh(c, q, lo);
    SignedPack(SetAcc(c, if accumulate then p * 0x1_0000 + Acc(c) else p * 0x1_0000));
  }

  lemma AddHigh(c: Lane, q: int, lo: half)
    ensures var ov := CarryMask(c.m, lo);
      SetAcc(c, Limbs(q, lo, 0) + Acc(c)) == c.(m := Add16(c.m, lo), h := Add16(c.h, Sub16(H(q), ov)))
  {
    hide Acc, SetAcc, CarryMask, H, Mask;
    AddLimbs(c, q, lo, 0);
    CarryIs(c.m, lo);
    CarryOf(c.m, lo);
    SubMask(H(q), c.m + lo >= 0x1_0000);
    HSum(q, B.Odd(c.m + lo >= 0x1_0000));
    HSum(q + B.Odd(c.m + lo >= 0x1_0000), c.h);
    SmallLow(c.l);
  }

  lemma SmallLow(x: half)
    ensures H(x) == x
  {}

  lemma MultiplyEqual(f: Funct, s: half, t: half, c: Lane)
    requires IsMultiply(f)
    ensures MultiplySimd(f, s, t, c) == Multiply(f, s, t, c)
  {
    hide Acc, S, WithHigh, WithHighUnsigned, WithLow, MulfMulu, MacfMacu, MudlMadl, MudmMadm, MudnMadn, MudhMadh;
    match f
    case Mulf => MulfEqual(false, s, t, c);
    case Mulu => MulfEqual(true, s, t, c);
    case Macf => MacfEqual(false, s, t, c);
    case Macu => MacfEqual(true, s, t, c);
    case Mudl => MudlEqual(false, s, t, c);
    case Madl => MudlEqual(true, s, t, c);
    case Mudm => MudmEqual(false, s, t, c);
    case Madm => MudmEqual(true, s, t, c);
    case Mudn => MudnEqual(false, s, t, c);
    case Madn => MudnEqual(true, s, t, c);
    case Mudh => MudhEqual(false, s, t, c);
    case Madh => MudhEqual(true, s, t, c);
  }

  // ---- The rest -------------------------------------------------------------------------------------

  lemma SameHalf(s: half, t: half)
    ensures S(s) == S(t) <==> s == t
  {}

  lemma ClipHighEqual(s: half, t: half, c: Lane)
    ensures ClipHighSimd(s, t, c) == ClipHigh(s, t, c)
  {
    hide B.Zip, BitXor;
    XorSign(s, t);
    Masks(t);
    ClipDifference(s, t);
  }

  lemma InRange(x: int)
    requires -0x8000 <= x < 0x8000
    ensures S(H(x)) == x
  {}

  lemma HOfSigned(s: half)
    ensures H(S(s)) == s && H(s) == s
  {}

  lemma HMinus(x: int, y: int)
    ensures H(H(x) - H(y)) == H(x - y)
  {
    Shift(x - y, y / 0x1_0000 - x / 0x1_0000);
  }

  lemma Complement(t: half)
    ensures Sub16(Not(t), 0xFFFF) == H(-S(t)) == Sub16(0, t) && Sub16(t, 0) == t && S(Not(t)) == -1 - S(t)
  {}

  /** No difference of the clip overflows: the signs are made equal first. */
  lemma ClipDifference(s: half, t: half)
    ensures var negT := H(-S(t));
      (S(s) < 0) != (S(t) < 0) ==>
        S(Sub16(s, negT)) == S(s) + S(t) == S(H(S(s) + S(t))) && Sub16(Not(t), 0xFFFF) == negT
    ensures (S(s) < 0) == (S(t) < 0) ==> S(Sub16(s, t)) == S(s) - S(t) == S(H(S(s) - S(t))) && Sub16(t, 0) == t
    ensures s == Not(t) <==> S(s) + S(t) == -1
  {
    Complement(t);
    SameHalf(s, Not(t));
    HOfSigned(s); HOfSigned(t);
    HMinus(S(s), -S(t));
    HMinus(S(s), S(t));
    SRange(s); SRange(t);
    hide H, S;
    if (S(s) < 0) != (S(t) < 0) { InRange(S(s) + S(t)); } else { InRange(S(s) - S(t)); }
  }

  lemma SRange(s: half)
    ensures -0x8000 <= S(s) < 0x8000
  {}

  lemma ArithmeticEqual(f: Funct, s: half, t: half, c: Lane)
    requires IsArithmetic(f)
    ensures ArithmeticSimd(f, s, t, c) == Finish(f, Arithmetic(f, s, t, c))
  {
    hide S, H, ClampSigned, B.Odd;
    SameHalf(s, 0);
    Complement(t);
    ZeroSign();
  }

  lemma ZeroSign()
    ensures S(0) == 0
  {}

  lemma CompareEqual(f: Funct, s: half, t: half, c: Lane)
    requires IsCompare(f)
    ensures CompareSimd(f, s, t, c) == Finish(f, Compare(f, s, t, c))
  {
    hide S;
    SameHalf(s, t);
  }

  lemma LogicEqual(f: Funct, s: half, t: half)
    requires IsLogic(f)
    ensures LogicSimd(f, s, t) == Logic(f, s, t)
  {
    hide B.And, B.Or, B.Xor, H, Not;
  }

  lemma FinishNothing(f: Funct, c: Lane)
    requires IsMultiply(f) || IsLogic(f)
    ensures Finish(f, c) == c
  {}

  predicate IsOther(f: Funct) { f.Mrg? || f.Ch? || f.Sar? || f.Mov? || IsReciprocal(f) }

  lemma OtherEqual(f: Funct, element: nat, odd: bool, s: half, t: half, c: Lane)
    requires IsOther(f)
    ensures Simd(f, element, s, t, c) == Finish(f, Scalar(f, element, odd, s, t, c))
  {
    hide Multiply, MultiplySimd, Mpeg, ClipHigh, ClipHighSimd, ArithmeticSimd, Arithmetic, CompareSimd, Compare,
         LogicSimd, Logic, ClipLow, ClipCrimp, H, IsMultiply, IsArithmetic, IsLogic, IsCompare, IsMpeg;
    OtherClasses(f);
    ClipHighEqual(s, t, c);
  }

  lemma OtherClasses(f: Funct)
    requires IsOther(f)
    ensures !IsMultiply(f) && !IsArithmetic(f) && !IsLogic(f) && !IsCompare(f) && !IsMpeg(f)
  {}

  lemma NotMpeg(f: Funct)
    requires Vectorised(f)
    ensures !IsMpeg(f)
  {}

  /** One lane of every instruction that the vectorised path takes. */
  lemma LaneEqual(f: Funct, element: nat, odd: bool, s: half, t: half, c: Lane)
    requires Vectorised(f)
    ensures Simd(f, element, s, t, c) == Finish(f, Scalar(f, element, odd, s, t, c))
  {
    hide MultiplySimd, Multiply, ArithmeticSimd, Arithmetic, CompareSimd, Compare, LogicSimd, Logic, Finish, H, S,
         Mpeg, ClipLow, ClipCrimp, ClipHigh, ClipHighSimd, IsMultiply, IsArithmetic, IsLogic, IsCompare, IsMpeg, IsReciprocal;
    NotMpeg(f);
    if IsMultiply(f) {
      MultiplyEqual(f, s, t, c);
      FinishNothing(f, Multiply(f, s, t, c));
    } else if IsArithmetic(f) {
      ArithmeticEqual(f, s, t, c);
    } else if IsLogic(f) {
      LogicEqual(f, s, t);
      FinishNothing(f, Both(c, Logic(f, s, t)));
    } else if IsCompare(f) {
      CompareEqual(f, s, t, c);
    } else {
      OtherEqual(f, element, odd, s, t, c);
    }
  }
}
