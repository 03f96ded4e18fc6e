/** What vector instructions compute, in terms of the numbers their lanes stand for: saturation, broadcasts, whole words
    built from two halves, quantisation, and the reciprocals' two-part operands and results
    (src/rcp/rsp_vector.cpp:19-27, 68-98, 113-161, 525-1035). */
module VuResults {
  import opened Common
  import opened VuLane
  import opened VuUnit
  import opened VuIdioms
  import VuSimd
  import VuEqual
  import MulDiv

  // ---- Saturation -----------------------------------------------------------------------------------

  const LEAST: int := -0x8000
  const MOST: int := 0x7FFF

  function Nearest(x: int, least: int, most: int): int { if x < least then least else if x > most then most else x }

  /** The signed clamp is the nearest signed half. */
  lemma SignedClamp(x: int)
    ensures S(ClampSigned(x)) == Nearest(x, LEAST, MOST)
  {
    if 0 <= x <= MOST { Euclid(x, 0x1_0000, 0, x); }
    if LEAST <= x < 0 { Euclid(x, 0x1_0000, -1, x + 0x1_0000); }
  }

  /** The unsigned clamp saturates at 0 and, above the signed range, at all ones. */
  lemma UnsignedClamp(x: int)
    ensures ClampUnsigned(x) == if x < 0 then 0 else if x > MOST then 0xFFFF else x
  {}

  /** The low clamp keeps the low half of an accumulator that is a signed word, and saturates at 0 or all ones. */
  lemma LowClamp(acc: int)
    requires -0x8000_0000_0000 <= acc < 0x8000_0000_0000
    ensures ClampAccLow(acc) ==
      if acc < -0x8000_0000 then 0 else if acc >= 0x8000_0000 then 0xFFFF else acc % 0x1_0000
  {
    var h, rest := acc / 0x1_0000_0000, acc % 0x1_0000_0000;
    Euclid(acc, 0x1_0000, h * 0x1_0000 + rest / 0x1_0000, rest % 0x1_0000);
    Euclid(h * 0x1_0000 + rest / 0x1_0000, 0x1_0000, h, rest / 0x1_0000);
    if h >= 0 { Euclid(h, 0x1_0000, 0, h); } else { Euclid(h, 0x1_0000, -1, h + 0x1_0000); }
  }

  // ---- Broadcasts -----------------------------------------------------------------------------------

  /** Which lane of vt each lane reads, by element: the whole vector, one lane of each pair, one of each half, or one
      lane for all. */
  function LanesRead(element: nat): seq<nat> {
    match element
    case 0 => [0, 1, 2, 3, 4, 5, 6, 7] case 1 => [0, 1, 2, 3, 4, 5, 6, 7]
    case 2 => [0, 0, 2, 2, 4, 4, 6, 6] case 3 => [1, 1, 3, 3, 5, 5, 7, 7]
    case 4 => [0, 0, 0, 0, 4, 4, 4, 4] case 5 => [1, 1, 1, 1, 5, 5, 5, 5]
    case 6 => [2, 2, 2, 2, 6, 6, 6, 6] case 7 => [3, 3, 3, 3, 7, 7, 7, 7]
    case _ => seq(LANES, _ => element - 8)
  }

  lemma BroadcastIsTable(element: nat, i: nat)
    requires element < 16 && i < LANES
    ensures |LanesRead(element)| == LANES && BroadcastLane(element, i) == LanesRead(element)[i]
  {
    if element < 8 { TableRow(element, i); }
  }

  lemma TableRow(element: nat, i: nat)
    requires element < 8 && i < LANES
    ensures |LanesRead(element)| == LANES && BroadcastLane(element, i) == LanesRead(element)[i]
  {
    var pair, half_ := i / 2 * 2, i / 4 * 4;
    if i < 4 { LowerLane(i); } else { UpperLane(i); }
    hide BroadcastLane;
    RowForm(element, i);
    if element < 2 {} else if element < 4 {} else {}
  }

  lemma LowerLane(i: nat)
    requires i < 4
    ensures i / 4 == 0 && i / 2 == if i < 2 then 0 else 1
  {}

  lemma UpperLane(i: nat)
    requires 4 <= i < 8
    ensures i / 4 == 1 && i / 2 == if i < 6 then 2 else 3
  {}

  lemma RowForm(element: nat, i: nat)
    requires element < 8 && i < LANES
    ensures BroadcastLane(element, i) ==
      if element < 2 then i else if element < 4 then i / 2 * 2 + (element - 2) else i / 4 * 4 + (element - 4)
  {}

  /** VMOV reads the lane its destination lane would be broadcast. */
  lemma MovIsBroadcast(element: nat, vs: nat)
    requires element < 16
    ensures |LanesRead(element)| == LANES && MovSource(element, vs) == LanesRead(element)[vs % 8]
  {
    BroadcastIsTable(element, vs % 8);
    hide LanesRead;
  }

  // ---- One instruction on a lane --------------------------------------------------------------------

  /** A lane after one instruction with a result in every lane. */
  function After(f: Funct, e: nat, odd: bool, s: half, t: half, c: Lane): Lane { Finish(f, Scalar(f, e, odd, s, t, c)) }

  lemma StepLane(rom: Rom, v: Vu, inst: Inst, i: nat)
    requires i < LANES && !inst.f.Mov? && !VuSimd.IsReciprocal(inst.f)
    ensures var v' := Compute(rom, v, inst);
      && LaneOf(v', inst.vd, i) ==
           After(inst.f, inst.element, inst.vs % 2 == 1, v.regs[inst.vs][i],
                 v.regs[inst.vt][BroadcastLane(inst.element, i)], LaneOf(v, inst.vd, i))
      && SameElsewhere(v', v, inst.vd)
  {
    hide Scalar, Finish, FinishAll, Loop, BroadcastLane;
    LoopReads(v, inst, LANES);
    FinishReads(Loop(v, inst, LANES), inst.f, inst.vd, i);
  }

  lemma Classes(f: Funct)
    ensures IsArithmetic(f) ==> !IsMultiply(f) && !IsMpeg(f)
    ensures IsCompare(f) ==> !IsMultiply(f) && !IsMpeg(f) && !IsArithmetic(f) && !IsLogic(f)
  {}

  lemma ClassForms(f: Funct, e: nat, odd: bool, s: half, t: half, c: Lane)
    ensures IsArithmetic(f) ==> Scalar(f, e, odd, s, t, c) == Arithmetic(f, s, t, c)
    ensures IsCompare(f) ==> Scalar(f, e, odd, s, t, c) == Compare(f, s, t, c)
  {
    Classes(f);
    hide IsMultiply, IsMpeg, IsArithmetic, IsLogic, IsCompare;
    hide Multiply, Arithmetic, Logic, Compare, Mpeg, Both, Slice, ClipHigh, ClipLow, ClipCrimp;
  }

  lemma OtherForms(e: nat, odd: bool, s: half, t: half, c: Lane)
    ensures Scalar(Mrg, e, odd, s, t, c) == Both(c, if c.ccLo then s else t)
    ensures Scalar(Cr, e, odd, s, t, c) == ClipCrimp(s, t, c)
    ensures Scalar(Mulq, e, odd, s, t, c) == WithHalved(c, RoundedUp(S(s) * S(t)), 0)
  {
    hide ClipCrimp, WithHalved, S, RoundedUp, Both;
  }

  lemma FinishForms(f: Funct, c: Lane)
    ensures f.Add? || f.Sub? || f.Mrg? ==> Finish(f, c) == c.(coLo := false, coHi := false)
    ensures f.Addc? || f.Subc? || f.Abs? || f.Mulq? ==> Finish(f, c) == c
    ensures IsCompare(f) ==> Finish(f, c) == c.(ccHi := false, coLo := false, coHi := false)
    ensures f.Cr? ==> Finish(f, c) == c.(coLo := false, coHi := false, ce := false)
  {}

  lemma AfterForms(f: Funct, e: nat, odd: bool, s: half, t: half, c: Lane)
    ensures f.Add? || f.Sub? ==> After(f, e, odd, s, t, c) == Arithmetic(f, s, t, c).(coLo := false, coHi := false)
    ensures f.Addc? || f.Subc? || f.Abs? ==> After(f, e, odd, s, t, c) == Arithmetic(f, s, t, c)
    ensures IsCompare(f) ==> After(f, e, odd, s, t, c) == Compare(f, s, t, c).(ccHi := false, coLo := false, coHi := false)
  {
    hide Scalar, Finish, Arithmetic, Compare;
    ClassForms(f, e, odd, s, t, c);
    FinishForms(f, Scalar(f, e, odd, s, t, c));
  }

  lemma AfterOthers(e: nat, odd: bool, s: half, t: half, c: Lane)
    ensures After(Mrg, e, odd, s, t, c) == Both(c, if c.ccLo then s else t).(coLo := false, coHi := false)
    ensures After(Cr, e, odd, s, t, c) == ClipCrimp(s, t, c).(coLo := false, coHi := false, ce := false)
    ensures After(Mulq, e, odd, s, t, c) == WithHalved(c, RoundedUp(S(s) * S(t)), 0)
  {
    hide Scalar, Finish, Both, ClipCrimp, WithHalved, S, RoundedUp;
    OtherForms(e, odd, s, t, c);
    FinishForms(Mrg, Scalar(Mrg, e, odd, s, t, c));
    FinishForms(Cr, Scalar(Cr, e, odd, s, t, c));
    FinishForms(Mulq, Scalar(Mulq, e, odd, s, t, c));
  }

  // ---- Words from two halves ------------------------------------------------------------------------

  /** VADDC on the low halves and VADD on the high ones add words, the high half saturating. */
  lemma AddLane(sh: half, sl: half, th: half, tl: half, c: Lane, d: half, e: nat, odd: bool)
    ensures var c1 := After(Addc, e, odd, sl, tl, c); var c2 := After(Add, e, odd, sh, th, c1.(d := d));
      var sum := Word(sh, sl) + Word(th, tl);
      c1.d == sum % 0x1_0000 && S(c2.d) == Nearest(sum / 0x1_0000, LEAST, MOST) && !c2.coLo && !c2.coHi
  {
    var sum, low := Word(sh, sl) + Word(th, tl), sl + tl;
    AfterForms(Addc, e, odd, sl, tl, c);
    AfterForms(Add, e, odd, sh, th, After(Addc, e, odd, sl, tl, c).(d := d));
    hide After;
    var carry := if low >= 0x1_0000 then 1 else 0;
    Euclid(sum, 0x1_0000, S(sh) + S(th) + carry, low - 0x1_0000 * carry);
    Euclid(low, 0x1_0000, carry, low - 0x1_0000 * carry);
    SignedClamp(S(sh) + S(th) + carry);
    hide ClampSigned;
  }

  /** VSUBC and VSUB subtract them. */
  lemma SubLane(sh: half, sl: half, th: half, tl: half, c: Lane, d: half, e: nat, odd: bool)
    ensures var c1 := After(Subc, e, odd, sl, tl, c); var c2 := After(Sub, e, odd, sh, th, c1.(d := d));
      var difference := Word(sh, sl) - Word(th, tl);
      c1.d == difference % 0x1_0000 && S(c2.d) == Nearest(difference / 0x1_0000, LEAST, MOST) && !c2.coLo && !c2.coHi
  {
    var difference, low := Word(sh, sl) - Word(th, tl), sl - tl;
    AfterForms(Subc, e, odd, sl, tl, c);
    AfterForms(Sub, e, odd, sh, th, After(Subc, e, odd, sl, tl, c).(d := d));
    hide After;
    var borrow := if low < 0 then 1 else 0;
    Euclid(difference, 0x1_0000, S(sh) - S(th) - borrow, low + 0x1_0000 * borrow);
    Euclid(low, 0x1_0000, -borrow, low + 0x1_0000 * borrow);
    SignedClamp(S(sh) - S(th) - borrow);
    hide ClampSigned;
  }

  /** The order of words. */
  predicate Compares(f: Funct, s: int, t: int) {
    match f case Lt => s < t case Eq => s == t case Ne => s != t case _ => s >= t
  }

  /** VSUBC on the low halves and then a comparison of the high ones compare words. */
  lemma CompareLane(f: Funct, sh: half, sl: half, th: half, tl: half, c: Lane, d: half, e: nat, odd: bool, odd': bool)
    requires IsCompare(f)
    ensures var c1 := After(Subc, e, odd, sl, tl, c); var c2 := After(f, e, odd', sh, th, c1.(d := d));
      var holds := Compares(f, Word(sh, sl), Word(th, tl));
      && c2.ccLo == holds && c2.d == c2.l == (if holds then sh else th)
      && !c2.ccHi && !c2.coLo && !c2.coHi && c2.ce == c.ce
  {
    hide After;
    AfterForms(Subc, e, odd, sl, tl, c);
    AfterForms(f, e, odd', sh, th, After(Subc, e, odd, sl, tl, c).(d := d));
    SameHalves(sh, th);
    WordOrder(sh, sl, th, tl);
    hide Word, S;
  }

  lemma SameHalves(s: half, t: half)
    ensures S(s) == S(t) <==> s == t
  {}

  lemma WordOrder(sh: half, sl: half, th: half, tl: half)
    ensures Word(sh, sl) < Word(th, tl) <==> S(sh) < S(th) || (S(sh) == S(th) && sl < tl)
    ensures Word(sh, sl) == Word(th, tl) <==> S(sh) == S(th) && sl == tl
  {}

  /** VMRG then merges the low halves by the same decision and keeps it. */
  lemma MergeLane(s: half, t: half, c: Lane, e: nat, odd: bool)
    ensures var c' := After(Mrg, e, odd, s, t, c);
      c'.d == c'.l == (if c.ccLo then s else t) && c'.ccLo == c.ccLo && c'.ccHi == c.ccHi && !c'.coLo && !c'.coHi
  {
    hide After;
    AfterOthers(e, odd, s, t, c);
  }

  /** VSUBC, VLT or VGE and VMRG leave the smaller or the larger of two words, on both paths. */
  lemma WordExtremum(rom: Rom, v: Vu, simd: bool, f: Funct, e: nat, sh: RegNum, sl: RegNum, th: RegNum, tl: RegNum,
                     d: RegNum, dh: RegNum, dl: RegNum, i: nat)
    requires i < LANES && (f.Lt? || f.Ge?) && d !in {sh, sl, th, tl} && dh !in {sl, tl} && dh != dl
    ensures var v' := Run(rom, v, [Inst(Subc, e, tl, sl, d), Inst(f, e, th, sh, dh), Inst(Mrg, e, tl, sl, dl)], simd);
      var b := BroadcastLane(e, i);
      var s, t := Word(v.regs[sh][i], v.regs[sl][i]), Word(v.regs[th][b], v.regs[tl][b]);
      Word(v'.regs[dh][i], v'.regs[dl][i]) == if f.Lt? then (if s < t then s else t) else (if s >= t then s else t)
  {
    hide Compute, ComputeSimd, BroadcastLane, Word, Run;
    var i1, i2, i3 := Inst(Subc, e, tl, sl, d), Inst(f, e, th, sh, dh), Inst(Mrg, e, tl, sl, dl);
    PathsEqual(rom, v, [i1, i2, i3]);
    assert [i1, i2, i3] == [i1] + [i2, i3];
    RunOne(rom, v, i1, [i2, i3]);
    RunPair(rom, Compute(rom, v, i1), i2, i3);
    ComparesThenMerges(rom, v, f, e, sh, sl, th, tl, d, dh, dl, i);
  }

  lemma ComparesThenMerges(rom: Rom, v: Vu, f: Funct, e: nat, sh: RegNum, sl: RegNum, th: RegNum, tl: RegNum,
                           d: RegNum, dh: RegNum, dl: RegNum, i: nat)
    requires i < LANES && (f.Lt? || f.Ge?) && d !in {sh, sl, th, tl} && dh !in {sl, tl} && dh != dl
    ensures var v1 := Compute(rom, v, Inst(Subc, e, tl, sl, d));
      var v2 := Compute(rom, v1, Inst(f, e, th, sh, dh));
      var v3 := Compute(rom, v2, Inst(Mrg, e, tl, sl, dl));
      var b := BroadcastLane(e, i);
      var holds := Compares(f, Word(v.regs[sh][i], v.regs[sl][i]), Word(v.regs[th][b], v.regs[tl][b]));
      && v3.regs[dh][i] == (if holds then v.regs[sh][i] else v.regs[th][b])
      && v3.regs[dl][i] == (if holds then v.regs[sl][i] else v.regs[tl][b])
  {
    hide Compute, BroadcastLane, Word, After, Compares;
    var i1, i2, i3 := Inst(Subc, e, tl, sl, d), Inst(f, e, th, sh, dh), Inst(Mrg, e, tl, sl, dl);
    var v1 := Compute(rom, v, i1);
    var v2 := Compute(rom, v1, i2);
    StepLane(rom, v, i1, i);
    StepLane(rom, v1, i2, i);
    StepLane(rom, v2, i3, i);
    OtherDestination(v1, d, dh, i);
    OtherDestination(v2, dh, dl, i);
    var b := BroadcastLane(e, i);
    CompareLane(f, v.regs[sh][i], v.regs[sl][i], v.regs[th][b], v.regs[tl][b], LaneOf(v, d, i), v1.regs[dh][i], e,
                sl % 2 == 1, sh % 2 == 1);
    MergeLane(v.regs[sl][i], v.regs[tl][b], LaneOf(v2, dl, i), e, sl % 2 == 1);
  }

  // ---- Other instructions ---------------------------------------------------------------------------

  function Sign(x: int): int { if x < 0 then -1 else if x == 0 then 0 else 1 }

  /** VABS gives vt the sign of vs, saturating. */
  lemma AbsLane(s: half, t: half, c: Lane, e: nat, odd: bool)
    ensures S(After(Abs, e, odd, s, t, c).d) == Nearest(Sign(S(s)) * S(t), LEAST, MOST)
  {
    hide After;
    AfterForms(Abs, e, odd, s, t, c);
    Negation(t);
  }

  lemma Negation(t: half)
    ensures t != 0x8000 ==> S(H(-S(t))) == -S(t)
  {
    if 0 < t < 0x8000 { Euclid(0 - t, 0x1_0000, -1, 0x1_0000 - t); }
    if t > 0x8000 { Euclid(0x1_0000 - t, 0x1_0000, 0, 0x1_0000 - t); }
  }

  /** VCR clips in one's complement: where the signs differ the bound is the complement of vt. */
  lemma CrimpLane(s: half, t: half, c: Lane, e: nat, odd: bool)
    ensures var c' := After(Cr, e, odd, s, t, c);
      var differ := (S(s) < 0) != (S(t) < 0);
      && (differ ==> c'.ccLo == (S(s) <= -1 - S(t)) && c'.ccHi == (S(t) < 0)
                     && S(c'.d) == (if S(s) <= -1 - S(t) then -1 - S(t) else S(s)))
      && (!differ ==> c'.ccHi == (S(s) >= S(t)) && c'.ccLo == (S(t) < 0)
                      && S(c'.d) == (if S(s) >= S(t) then S(t) else S(s)))
      && c'.l == c'.d && !c'.coLo && !c'.coHi && !c'.ce
  {
    hide After;
    AfterOthers(e, odd, s, t, c);
    TopBit(s + t);
    TopBit(t);
  }

  lemma TopBit(x: nat)
    requires x < 0x2_0000
    ensures x / 0x8000 % 2 == 1 <==> 0x8000 <= x < 0x1_0000 || x >= 0x1_8000
  {
    var q := if x < 0x8000 then 0 else if x < 0x1_0000 then 1 else if x < 0x1_8000 then 2 else 3;
    Euclid(x, 0x8000, q, x - 0x8000 * q);
  }

  /** VMULQ quantises: the product divided by 32, rounded towards zero, times 16, saturated at the multiples of 16. */
  lemma QuantiseLane(s: half, t: half, c: Lane, e: nat, odd: bool)
    ensures S(After(Mulq, e, odd, s, t, c).d) == Nearest(16 * MulDiv.Cpu.Quotient(S(s) * S(t), 32), LEAST, 0x7FF0)
  {
    hide After, S, ClampSigned, ClearLow4, SetAcc, MulDiv.Cpu.Quotient;
    AfterOthers(e, odd, s, t, c);
    Quantised(RoundedUp(S(s) * S(t)));
    Thirtyseconds(S(s) * S(t));
  }

  lemma Thirtyseconds(p: int)
    ensures RoundedUp(p) / 32 == MulDiv.Cpu.Quotient(p, 32)
  {
    if p < 0 {
      var q, r := (-p) / 32, (-p) % 32;
      Euclid(p + 31, 32, -q, 31 - r);
    }
  }

  lemma Quantised(r: int)
    ensures S(ClearLow4(ClampSigned(r / 2))) == Nearest(16 * (r / 32), LEAST, 0x7FF0)
  {
    var h := r / 2;
    var q, low := h / 16, h % 16;
    Euclid(r, 32, q, 2 * low + r % 2);
    SignedClamp(h);
    SixteenOf(ClampSigned(h));
    hide ClampSigned, ClearLow4;
    if LEAST <= h <= MOST { Euclid(h, 16, q, low); }
  }

  lemma SixteenOf(x: half)
    ensures S(ClearLow4(x)) == S(x) / 16 * 16
  {
    var q, r := x / 16, x % 16;
    if x < 0x8000 { Euclid(S(x), 16, q, r); } else { Euclid(S(x), 16, q - 0x1000, r); }
  }

  /** A level of quantisation VMACQ leaves alone: an odd one, or zero. */
  predicate Settled(p: int) { p / 32 % 2 == 1 || 0 <= p < 32 }

  /** VMACQ moves the accumulated coefficient one level towards zero unless its level is settled, and then it is. */
  lemma OddifyLane(s: half, t: half, c: Lane, e: nat, odd: bool)
    ensures var c' := After(Macq, e, odd, s, t, c);
      var p, p' := Acc(c) / 0x1_0000, Acc(c') / 0x1_0000;
      && Settled(p') && p' == (if Settled(p) then p else if p < 0 then p + 32 else p - 32) && c'.l == c.l
      && S(c'.d) == Nearest(16 * (p' / 32), LEAST, 0x7FF0)
  {
    var p := Acc(c) / 0x1_0000;
    var r := TowardsZero(p);
    MacqForm(e, odd, s, t, c);
    Upper(c);
    LevelsMove(p);
    Quantised(r);
    hide After, S, Acc, SetAcc, TowardsZero, ClampSigned, ClearLow4, Settled;
    Replaced(c, r, ClearLow4(ClampSigned(r / 2)));
  }

  lemma MacqForm(e: nat, odd: bool, s: half, t: half, c: Lane)
    ensures After(Macq, e, odd, s, t, c) == WithHalved(c, TowardsZero(Acc(c) / 0x1_0000), c.l)
  {
    hide WithHalved, TowardsZero, Acc;
  }

  lemma Upper(c: Lane)
    ensures -0x8000_0000 <= Acc(c) / 0x1_0000 < 0x8000_0000
  {
    VuEqual.UpperWord(c);
    hide Acc;
  }

  lemma Replaced(c: Lane, r: int, d: half)
    requires -0x8000_0000 <= r < 0x8000_0000
    ensures var c' := SetAcc(c, r * 0x1_0000 + c.l).(d := d); Acc(c') / 0x1_0000 == r && c'.l == c.l
  {
    var v := r * 0x1_0000 + c.l;
    Euclid(v, 0x1_0000, r, c.l);
    AccOfSet(c, v);
    SameAcc(SetAcc(c, v), d);
    hide Acc;
  }

  lemma SameAcc(c: Lane, d: half)
    ensures Acc(c.(d := d)) == Acc(c)
  {}

  lemma LevelsMove(p: int)
    requires -0x8000_0000 <= p < 0x8000_0000
    ensures var r := TowardsZero(p);
      && Settled(r) && r == (if Settled(p) then p else if p < 0 then p + 32 else p - 32) && -0x8000_0000 <= r < 0x8000_0000
  {
    var q, low := p / 32, p % 32;
    Euclid(p + 32, 32, q + 1, low);
    Euclid(p - 32, 32, q - 1, low);
    Neighbours(q);
  }

  lemma Neighbours(q: int)
    ensures q % 2 == 0 ==> (q + 1) % 2 == 1 && (q - 1) % 2 == 1
  {
    if q % 2 == 0 {
      Euclid(q + 1, 2, q / 2, 1);
      Euclid(q - 1, 2, q / 2 - 1, 1);
    }
  }

  /** VRNDP adds vt (moved up 16 bits for an odd vs field) to an accumulator that is not negative, VRNDN to a negative
      one. */
  function Rounded(f: Funct, acc: int, t: half, odd: bool): int {
    acc + if f.Rndp? == (acc >= 0) then S(t) * (if odd then 0x1_0000 else 1) else 0
  }

  /** The result saturates. */
  lemma RoundLane(f: Funct, s: half, t: half, c: Lane, e: nat, odd: bool)
    requires f.Rndp? || f.Rndn?
    ensures var c', sum := After(f, e, odd, s, t, c), Rounded(f, Acc(c), t, odd);
      -0x8000_0000_0000 <= sum < 0x8000_0000_0000 ==> Acc(c') == sum && S(c'.d) == Nearest(sum / 0x1_0000, LEAST, MOST)
  {
    RoundForm(f, s, t, c, e, odd);
    hide After, Rounded, WithHigh, Acc, S;
    var sum := Rounded(f, Acc(c), t, odd);
    if -0x8000_0000_0000 <= sum < 0x8000_0000_0000 { HighResult(c, sum); }
  }

  lemma RoundForm(f: Funct, s: half, t: half, c: Lane, e: nat, odd: bool)
    requires f.Rndp? || f.Rndn?
    ensures After(f, e, odd, s, t, c) == WithHigh(c, Rounded(f, Acc(c), t, odd))
  {
    hide WithHigh, Acc, S;
  }

  lemma HighResult(c: Lane, v: int)
    requires -0x8000_0000_0000 <= v < 0x8000_0000_0000
    ensures Acc(WithHigh(c, v)) == v && S(WithHigh(c, v).d) == Nearest(v / 0x1_0000, LEAST, MOST)
  {
    AccOfSet(c, v);
    SignedClamp(v / 0x1_0000);
    SameAcc(SetAcc(c, v), WithHigh(c, v).d);
    hide Acc, SetAcc, S, ClampSigned;
  }

  /** VMULF rounds the product of two fractions of 15 bits to the nearest and saturates; only the square of the least
      one does. */
  lemma FractionLane(s: half, t: half, c: Lane, e: nat, odd: bool)
    ensures var c' := After(Mulf, e, odd, s, t, c); var p := S(s) * S(t);
      Acc(c') == 2 * p + 0x8000 && S(c'.d) == Nearest((2 * p + 0x8000) / 0x1_0000, LEAST, MOST)
  {
    VuEqual.Products(s, t);
    MulfForm(s, t, c, e, odd);
    hide S, After, WithHigh, Acc;
    HighResult(c, 2 * (S(s) * S(t)) + 0x8000);
  }

  lemma MulfForm(s: half, t: half, c: Lane, e: nat, odd: bool)
    ensures After(Mulf, e, odd, s, t, c) == WithHigh(c, 2 * (S(s) * S(t)) + 0x8000)
  {
    hide WithHigh, S;
  }

  /** VSAR reads the accumulator, a third at a time, and changes nothing else. */
  lemma SarLane(element: nat, s: half, t: half, c: Lane, odd: bool)
    ensures var c' := After(Sar, element, odd, s, t, c);
      c' == c.(d := if element == 8 then c.h else if element == 9 then c.m else if element == 10 then c.l else 0)
  {}

  // ---- Reciprocals ----------------------------------------------------------------------------------

  /** Half of a result or operand: which lane of vt an instruction takes and which of vd it sets. */
  function Taken(v: Vu, inst: Inst): half { v.regs[inst.vt][inst.element % 8] }
  function Set(v: Vu, inst: Inst): half { v.regs[inst.vd][inst.vs % 8] }

  function Table(rom: Rom, f: Funct, x: int): nat {
    if f.Rsq? || f.Rsql? then rom.rsq(x % 0x1_0000_0000) else rom.rcp(x)
  }

  /** The latch instructions read the last result's high half and latch the operand's; the others look up the operand
      they have, one half or two, and leave the low half of the result. Only one lane of vd changes. */
  lemma ReciprocalStep(rom: Rom, v: Vu, inst: Inst)
    requires VuSimd.IsReciprocal(inst.f)
    ensures var v' := Compute(rom, v, inst);
      && SameElsewhere(v', v, inst.vd)
      && (forall i :: 0 <= i < LANES && i != inst.vs % 8 ==> v'.regs[inst.vd][i] == v.regs[inst.vd][i])
      && if inst.f.Rcph? || inst.f.Rsqh? then
           Set(v', inst) == v.divout && v'.divin == Taken(v, inst) && v'.loaded && v'.divout == v.divout
         else
           var x := if v.loaded && (inst.f.Rcpl? || inst.f.Rsql?) then Word(v.divin, Taken(v, inst)) else S(Taken(v, inst));
           var r := Table(rom, inst.f, x);
           Set(v', inst) == r % 0x1_0000 && v'.divout == r / 0x1_0000 % 0x1_0000 && !v'.loaded
  {
    hide Scalar, FinishAll, Loop, BroadcastLane;
    var u := Loop(v, inst, LANES);
    LoopReads(v, inst, LANES);
    FinishReads(u, inst.f, inst.vd, 0);
    forall i | 0 <= i < LANES ensures u.regs[inst.vd][i] == v.regs[inst.vd][i] {
      DestinationKept(inst.f, inst.element, inst.vs % 2 == 1, v.regs[inst.vs][i],
                      v.regs[inst.vt][BroadcastLane(inst.element, i)], LaneOf(v, inst.vd, i));
      assert LaneOf(u, inst.vd, i) == Wanted(v, inst, i);
    }
  }

  lemma DestinationKept(f: Funct, e: nat, odd: bool, s: half, t: half, c: Lane)
    requires VuSimd.IsReciprocal(f)
    ensures Scalar(f, e, odd, s, t, c).d == c.d
  {
    hide Multiply, Arithmetic, Logic, Compare, Mpeg, ClipHigh, ClipLow, ClipCrimp;
  }

  predicate IsHigh(f: Funct) { f.Rcph? || f.Rsqh? }
  predicate IsLow(f: Funct) { f.Rcpl? || f.Rsql? }

  /** The high half first, then the low one: the looked-up operand is the whole word; the low half of the result comes
      with the second instruction and the high one with a third, on both paths. */
  lemma TwoPartReciprocal(rom: Rom, v: Vu, simd: bool, high: Inst, low: Inst, next: Inst)
    requires IsHigh(high.f) && IsLow(low.f) && IsHigh(next.f) && high.vd != low.vt && next.vd != low.vd
    ensures var v2 := Run(rom, v, [high, low], simd); var v3 := Run(rom, v, [high, low, next], simd);
      var r := Table(rom, low.f, Word(Taken(v, high), Taken(v, low)));
      && Set(v2, low) == r % 0x1_0000 && !v2.loaded
      && Set(v3, next) == r / 0x1_0000 % 0x1_0000 && Set(v3, low) == r % 0x1_0000 && v3.loaded
  {
    hide Compute, ComputeSimd, Run, Table, Word;
    PathsEqual(rom, v, [high, low]);
    PathsEqual(rom, v, [high, low, next]);
    var v1 := Compute(rom, v, high);
    var v2 := Compute(rom, v1, low);
    RunPair(rom, v, high, low);
    assert [high, low, next] == [high] + [low, next];
    RunOne(rom, v, high, [low, next]);
    RunPair(rom, v1, low, next);
    ReciprocalStep(rom, v, high);
    ReciprocalStep(rom, v1, low);
    ReciprocalStep(rom, v2, next);
  }

  /** VRCP and VRSQ, and VRCPL and VRSQL with nothing latched, look up one signed half. */
  lemma OnePartReciprocal(rom: Rom, v: Vu, simd: bool, inst: Inst)
    requires inst.f.Rcp? || inst.f.Rsq? || (IsLow(inst.f) && !v.loaded)
    ensures var v' := Run(rom, v, [inst], simd); var r := Table(rom, inst.f, S(Taken(v, inst)));
      Set(v', inst) == r % 0x1_0000 && v'.divout == r / 0x1_0000 % 0x1_0000 && !v'.loaded
  {
    hide Compute, ComputeSimd, Run, Table, S;
    PathsEqual(rom, v, [inst]);
    assert [inst] == [inst] + [];
    RunOne(rom, v, inst, []);
    NothingToRun(rom, Compute(rom, v, inst));
    ReciprocalStep(rom, v, inst);
  }

  lemma NothingToRun(rom: Rom, v: Vu)
    ensures Run(rom, v, [], false) == v
  {}

  // ---- Fields ---------------------------------------------------------------------------------------

  /** A compute instruction's word: its five fields below the operation code. */
  lemma FieldsBack(high: nat, element: nat, vt: RegNum, vs: RegNum, vd: RegNum, code: nat)
    requires element < 16 && code < 64
    ensures InstOf((((((high * 0x10 + element) * 0x20 + vt) * 0x20 + vs) * 0x20 + vd) * 0x40) + code)
         == Inst(FunctOf(code), element, vt, vs, vd)
  {
    var a := high * 0x10 + element;
    var b := a * 0x20 + vt;
    var c := b * 0x20 + vs;
    var d := c * 0x20 + vd;
    var w := d * 0x40 + code;
    Euclid(w, 0x40, d, code);
    Euclid(d, 0x20, c, vd);
    Euclid(w, 0x800, c, vd * 0x40 + code);
    Euclid(c, 0x20, b, vs);
    Euclid(w, 0x1_0000, b, vs * 0x800 + vd * 0x40 + code);
    Euclid(b, 0x20, a, vt);
    Euclid(w, 0x20_0000, a, vt * 0x1_0000 + vs * 0x800 + vd * 0x40 + code);
    Euclid(a, 0x10, high, element);
  }
}
