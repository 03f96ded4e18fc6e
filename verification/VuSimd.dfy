/** The vectorised path of the RSP vector unit, lane by lane, over 16-bit limbs: the accumulator is never put
    together (src/rcp/rsp_vector_simd.cpp:30-504, include/rcp/rsp_simd.h). */
module VuSimd {
  import opened VuLane
  import B = Bits

  // ---- The vector instructions, per lane ------------------------------------------------------------

  function Add16(a: half, b: half): half { H(a + b) }
  function Sub16(a: half, b: half): half { H(a - b) }
  function Shr15(a: half): half { a / 0x8000 }
  function Mask(b: bool): half { if b then 0xFFFF else 0 }
  function Sra15(a: half): half { Mask(a >= 0x8000) }
  function CmpEq(a: half, b: half): half { Mask(a == b) }
  function AddsU(a: half, b: half): half { if a + b > 0xFFFF then 0xFFFF else a + b }
  function BitAnd(a: half, b: half): half { H(B.And(a, b)) }
  function BitOr(a: half, b: half): half { H(B.Or(a, b)) }
  function BitXor(a: half, b: half): half { H(B.Xor(a, b)) }
  function Mullo(a: half, b: half): half { H(a * b) }
  function MulhiS(a: half, b: half): half { H(S(a) * S(b) / 0x1_0000) }
  function MulhiU(a: half, b: half): half { H(a * b / 0x1_0000) }

  /** packs_epi32 of a low and a high half. */
  function Packs(lo: half, hi: half): half { ClampSigned(S(hi) * 0x1_0000 + lo) }

  /** blendv_epi8: each byte comes from b when the mask byte's top bit is set. */
  function Blend(a: half, b: half, mask: half): half {
    (if mask >= 0x8000 then b / 0x100 else a / 0x100) * 0x100 + (if mask % 0x100 >= 0x80 then b % 0x100 else a % 0x100)
  }

  /** All ones when the unsigned sum overflows: the saturated sum differs from the wrapped one. */
  function CarryMask(a: half, b: half): half { CmpEq(CmpEq(AddsU(a, b), Add16(a, b)), 0) }

  function ClampLow(lo: half, md: half, hi: half): half {
    var nhi, nmd := Sra15(hi), Sra15(md);
    var cmask := BitAnd(CmpEq(nhi, nmd), CmpEq(nhi, hi));
    Blend(CmpEq(nhi, 0), lo, cmask)
  }

  // ---- Multiplication -------------------------------------------------------------------------------

  function MulfMulu(unsigned: bool, s: half, t: half, c: Lane): Lane {
    var lo, hi := Mullo(s, t), MulhiS(s, t);
    var lo2 := Add16(lo, lo);
    var signs := Add16(Shr15(lo), Shr15(lo2));
    var eq := CmpEq(s, t);
    var m := Add16(Add16(hi, hi), signs);
    var neg := Sra15(m);
    var h := BitAnd(Not(eq), neg);
    var out := if unsigned then BitAnd(Not(h), BitOr(m, neg)) else Add16(m, BitAnd(eq, neg));
    c.(l := Add16(0x8000, lo2), m := m, h := h, d := out)
  }

  function MacfMacu(unsigned: bool, s: half, t: half, c: Lane): Lane {
    var lo, hi := Mullo(s, t), MulhiS(s, t);
    var md := BitOr(Add16(hi, hi), Shr15(lo));
    var top := Sra15(hi);
    var lo2 := Add16(lo, lo);
    var ov := CarryMask(c.l, lo2);
    var l := Add16(c.l, lo2);
    var md2 := Sub16(md, ov);
    var carry := Mask(md2 == 0 && ov == 0xFFFF);
    var top2 := Sub16(top, carry);
    var ov2 := CarryMask(c.m, md2);
    var m := Add16(c.m, md2);
    var h := Sub16(Add16(c.h, top2), ov2);
    var out :=
      if unsigned then BitOr(Mask(S(h) > 0), BitAnd(Not(Sra15(h)), BitOr(Sra15(m), m))) else Packs(m, h);
    c.(l := l, m := m, h := h, d := out)
  }

  function MudlMadl(accumulate: bool, s: half, t: half, c: Lane): Lane {
    var hi := MulhiU(s, t);
    if !accumulate then c.(l := hi, m := 0, h := 0, d := hi)
    else
      var ov := CarryMask(c.l, hi);
      var l := Add16(c.l, hi);
      var carry := Sub16(0, ov);
      var ov2 := CarryMask(c.m, carry);
      var m := Add16(c.m, carry);
      var h := Sub16(c.h, ov2);
      c.(l := l, m := m, h := h, d := ClampLow(l, m, h))
  }

  /** VMUDM, VMADM, VMUDN and VMADN: a signed operand times an unsigned one, low and high half. */
  function MixedLow(signed: half, unsigned: half): half { Mullo(signed, unsigned) }
  function MixedHigh(signed: half, unsigned: half): half {
    Sub16(MulhiU(signed, unsigned), BitAnd(unsigned, Sra15(signed)))
  }

  function AddMixed(lo: half, hi: half, c: Lane): Lane {
    var ov := CarryMask(c.l, lo);
    var hi2 := Sub16(hi, ov);
    var ov2 := CarryMask(c.m, hi2);
    c.(l := Add16(c.l, lo), m := Add16(c.m, hi2), h := Sub16(Add16(c.h, Sra15(hi2)), ov2))
  }

  function MudmMadm(accumulate: bool, s: half, t: half, c: Lane): Lane {
    var lo, hi := MixedLow(s, t), MixedHigh(s, t);
    if !accumulate then c.(l := lo, m := hi, h := Sra15(hi), d := hi)
    else
      var c' := AddMixed(lo, hi, c);
      c'.(d := Packs(c'.m, c'.h))
  }

  function MudnMadn(accumulate: bool, s: half, t: half, c: Lane): Lane {
    var lo, hi := MixedLow(t, s), MixedHigh(t, s);
    if !accumulate then c.(l := lo, m := hi, h := Sra15(hi), d := lo)
    else
      var c' := AddMixed(lo, hi, c);
      c'.(d := ClampLow(c'.l, c'.m, c'.h))
  }

  function MudhMadh(accumulate: bool, s: half, t: half, c: Lane): Lane {
    var lo, hi := Mullo(s, t), MulhiS(s, t);
    if !accumulate then c.(l := 0, m := lo, h := hi, d := Packs(lo, hi))
    else
      var ov := CarryMask(c.m, lo);
      var m, h := Add16(c.m, lo), Add16(c.h, Sub16(hi, ov));
      c.(m := m, h := h, d := Packs(m, h))
  }

  function MultiplySimd(f: Funct, s: half, t: half, c: Lane): Lane {
    match f
    case Mulf => MulfMulu(false, s, t, c)
    case Mulu => MulfMulu(true, s, t, c)
    case Macf => MacfMacu(false, s, t, c)
    case Macu => MacfMacu(true, s, t, c)
    case Mudl => MudlMadl(false, s, t, c)
    case Madl => MudlMadl(true, s, t, c)
    case Mudm => MudmMadm(false, s, t, c)
    case Madm => MudmMadm(true, s, t, c)
    case Mudn => MudnMadn(false, s, t, c)
    case Madn => MudnMadn(true, s, t, c)
    case Mudh => MudhMadh(false, s, t, c)
    case _ => MudhMadh(true, s, t, c)
  }

  // ---- The rest -------------------------------------------------------------------------------------

  function Select(b: bool, x: half, y: half): half { if b then x else y }

  function ArithmeticSimd(f: Funct, s: half, t: half, c: Lane): Lane {
    match f
    case Add =>
      var r := S(s) + S(t) + B.Odd(c.coLo);
      c.(l := H(r), d := ClampSigned(r), coLo := false, coHi := false)
    case Sub =>
      var r := S(s) - S(t) - B.Odd(c.coLo);
      c.(l := H(r), d := ClampSigned(r), coLo := false, coHi := false)
    case Abs =>
      var neg, zero, min := S(s) < 0, S(s) == 0, t == 0x8000;
      var negT := Sub16(0, t);
      c.(d := Select(neg, Select(min, 0x7FFF, negT), Select(zero, 0, t)),
         l := Select(neg, Select(min, 0x8000, negT), Select(zero, 0, t)))
    case Addc => var sum := s + t; Both(c, H(sum)).(coLo := sum / 0x1_0000 != 0, coHi := false)
    case _ => Both(c, H(s - t)).(coLo := s < t, coHi := s != t)
  }

  function LogicSimd(f: Funct, s: half, t: half): half {
    match f
    case And => BitAnd(s, t) case Nand => Not(BitAnd(s, t))
    case Or => BitOr(s, t) case Nor => Not(BitOr(s, t))
    case Xor => BitXor(s, t) case _ => Not(BitXor(s, t))
  }

  function CompareSimd(f: Funct, s: half, t: half, c: Lane): Lane {
    var cond :=
      match f
      case Lt => S(s) < S(t) || (S(s) == S(t) && c.coLo && c.coHi)
      case Eq => S(s) == S(t) && !c.coHi
      case Ne => S(s) != S(t) || c.coHi
      case _ => S(s) > S(t) || (S(s) == S(t) && (!c.coLo || !c.coHi));
    Both(c, Select(cond, s, t)).(ccLo := cond, ccHi := false, coLo := false, coHi := false)
  }

  /** VCH negates vt where the signs differ and then subtracts. */
  function ClipHighSimd(s: half, t: half, c: Lane): Lane {
    var sign := S(BitXor(s, t)) < 0;
    var mask := Mask(sign);
    var negT := Sub16(BitXor(t, mask), mask);
    var diff := S(Sub16(s, negT));
    var ge := if sign then S(t) < 0 else diff > 0 || diff == 0;
    var le := if sign then !(diff > 0) else S(t) < 0;
    var ce := sign && diff == -1;
    Both(c, Select(if sign then le else ge, negT, s))
    .(ccLo := le, ccHi := ge, coLo := sign, coHi := !(diff == 0 || ce), ce := ce)
  }

  /** The functions the vectorised path takes; the others fall back to the scalar path. */
  predicate Vectorised(f: Funct) {
    IsMultiply(f) || IsArithmetic(f) || IsLogic(f) || IsCompare(f) || f.Mrg? || f.Ch? || f.Sar?
    || f.Mov? || IsReciprocal(f)
  }

  predicate IsReciprocal(f: Funct) { f.Rcp? || f.Rcpl? || f.Rcph? || f.Rsq? || f.Rsql? || f.Rsqh? }

  function Simd(f: Funct, element: nat, s: half, t: half, c: Lane): Lane {
    if IsMultiply(f) then MultiplySimd(f, s, t, c)
    else if IsArithmetic(f) then ArithmeticSimd(f, s, t, c)
    else if IsLogic(f) then Both(c, LogicSimd(f, s, t))
    else if IsCompare(f) then CompareSimd(f, s, t, c)
    else match f
      case Mrg => Both(c, Select(Mask(c.ccLo) != 0, s, t)).(coLo := false, coHi := false)
      case Ch => ClipHighSimd(s, t, c)
      case Sar => c.(d := if element == 8 then c.h else if element == 9 then c.m else if element == 10 then c.l else 0)
      case _ => c.(l := t)
  }

  // ---- Words ----------------------------------------------------------------------------------------

  lemma Masks(x: half)
    ensures BitAnd(x, 0) == 0 == BitAnd(0, x) && BitAnd(x, 0xFFFF) == x == BitAnd(0xFFFF, x)
    ensures BitOr(x, 0) == x == BitOr(0, x) && BitOr(x, 0xFFFF) == 0xFFFF == BitOr(0xFFFF, x)
    ensures BitXor(x, 0) == x && BitXor(x, 0xFFFF) == Not(x)
  {
    hide B.Zip, B.Shl;
    B.ShlValues(1);
    B.ZipZero(x);
    B.ZipOnes(x, 16);
    B.ZipSwap(B.AND, x, 0xFFFF);
    B.ZipSwap(B.OR, x, 0xFFFF);
    XorOnes(x, 16);
  }

  lemma {:induction false} XorOnes(x: nat, k: nat)
    requires x < B.Shl(1, k)
    ensures B.Xor(x, B.Shl(1, k) - 1) == B.Shl(1, k) - 1 - x
  {
    if k > 0 {
      hide B.Zip, B.Shl;
      XorOnes(x / 2, k - 1);
      B.ShlStep(1, k - 1);
      B.ZipStep(B.XOR, x, B.Shl(1, k) - 1);
    } else {
      B.ZipZero(0);
    }
  }

  lemma OrEven(x: half, b: half)
    requires x % 2 == 0 && b < 2
    ensures BitOr(x, b) == x + b
  {
    hide B.Zip;
    B.ZipStep(B.OR, x, b);
    B.ZipZero(x / 2);
  }

  /** Bit 15 of an exclusive or says whether the signs differ. */
  lemma XorSign(s: half, t: half)
    ensures S(BitXor(s, t)) < 0 <==> (S(s) < 0) != (S(t) < 0)
  {
    hide B.Zip, B.Shl;
    B.ShlValues(1);
    B.ShlStep(1, 14); B.ShlStep(1, 15);
    B.ShlStep(s / 0x8000, 14); B.ShlStep(t / 0x8000, 14);
    var k := B.Shl(1, 15);
    assert k == 0x8000;
    TopHalf(s / 0x8000); TopHalf(t / 0x8000);
    B.ZipSplit(B.XOR, s / 0x8000, s % 0x8000, t / 0x8000, t % 0x8000, 15);
    B.ZipBound(B.XOR, s % 0x8000, t % 0x8000, 15);
    var q := B.Xor(s / 0x8000, t / 0x8000);
    XorBit(s / 0x8000, t / 0x8000);
    TopHalf(q);
  }

  lemma TopHalf(a: int)
    ensures B.Shl(a, 15) == 0x8000 * a
  {
    hide B.Shl;
    B.ShlValues(a);
    B.ShlStep(a, 15);
  }

  lemma XorBit(a: nat, b: nat)
    requires a < 2 && b < 2
    ensures B.Xor(a, b) == if a == b then 0 else 1
  {
    hide B.Zip;
    B.ZipSelf(a);
    B.ZipZero(1);
  }
}
