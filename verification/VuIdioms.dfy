/** Multi-word idioms of vector microcode: sequences of instructions whose combined effect is exact arithmetic
    on 32-bit lanes held as two registers, one of high and one of low halves
    (src/rcp/rsp_vector.cpp:624-676, 809-887). */
module VuIdioms {
  import opened Common
  import opened VuLane
  import opened VuEqual
  import opened VuUnit
  import VuSimd

  /** The signed 32-bit number with these halves. */
  function Word(high: half, low: half): int { S(high) * 0x1_0000 + low }

  // ---- Clipping -------------------------------------------------------------------------------------

  predicate SignsDiffer(s: half, t: half) { (S(s) < 0) != (S(t) < 0) }

  /** A value clipped against a bound: kept inside the range the bound and its negation span on the bound's
      far side, with the sign test made on the high halves. */
  function Clipped(differ: bool, s: int, t: int): int {
    if differ then (if s + t <= 0 then -t else s) else if s >= t then t else s
  }

  /** Where the high halves alone do not decide, VCO and VCE tell VCL so. */
  lemma HighHalves(sh: half, th: half, c: Lane)
    ensures var h := ClipHigh(sh, th, c);
      && h.coLo == SignsDiffer(sh, th)
      && (SignsDiffer(sh, th) ==>
            && h.ccHi == (S(th) < 0) && h.ccLo == (S(sh) + S(th) <= 0)
            && h.coHi == (S(sh) + S(th) != 0 && S(sh) + S(th) != -1) && h.ce == (S(sh) + S(th) == -1))
      && (!SignsDiffer(sh, th) ==>
            h.ccLo == (S(th) < 0) && h.ccHi == (S(sh) >= S(th)) && h.coHi == (sh != th))
  {
    ClipDifference(sh, th);
    SameHalf(sh, th);
    hide S, H, Not;
  }

  /** VCH on the high halves and then VCL on the low halves compare the whole words. */
  lemma ClipLane(sh: half, sl: half, th: half, tl: half, c: Lane, d: half)
    ensures var s, t := Word(sh, sl), Word(th, tl);
      var differ := SignsDiffer(sh, th);
      var r := Finish(Cl, ClipLow(sl, tl, ClipHigh(sh, th, c).(d := d)));
      && (differ ==> r.ccLo == (s + t <= 0) && r.ccHi == (t < 0))
      && (!differ ==> r.ccHi == (s >= t) && r.ccLo == (t < 0))
      && !r.coLo && !r.coHi && !r.ce
      && r.d == r.l == H(Clipped(differ, s, t))
  {
    HighHalves(sh, th, c);
    var s, t := Word(sh, sl), Word(th, tl);
    SameHalf(sh, th);
    LowOfWord(sh, sl);
    LowOfWord(th, tl);
    hide S;
  }

  lemma LowOfWord(high: half, low: half)
    ensures H(Word(high, low)) == low && H(-Word(high, low)) == H(0 - low)
    ensures Word(high, low) < 0 <==> S(high) < 0
  {
    Shift(low, S(high));
    Shift(0 - low, -S(high));
  }

  // ---- Multiplication -------------------------------------------------------------------------------

  lemma AccOfSet(c: Lane, v: int)
    requires -0x8000_0000_0000 <= v < 0x8000_0000_0000
    ensures Acc(SetAcc(c, v)) == v
  {
    var h, m, l := v / 0x1_0000_0000, H(v / 0x1_0000), H(v);
    assert v == Limbs(h, m, l);
    hide SetAcc;
    SetLimbs(c, h, m, l);
  }

  /** The four partial products, added up with their weights, are the whole product cut after 16 bits. */
  lemma PartialProducts(ah: int, al: half, bh: int, bl: half)
    ensures al * bl / 0x1_0000 + ah * bl + al * bh + ah * bh * 0x1_0000 ==
      (ah * 0x1_0000 + al) * (bh * 0x1_0000 + bl) / 0x1_0000
  {
    var whole := (ah * 0x1_0000 + al) * (bh * 0x1_0000 + bl);
    var upper := ah * bl + al * bh + ah * bh * 0x1_0000;
    assert whole == al * bl + 0x1_0000 * upper;
    Shift(al * bl, upper);
  }

  lemma ProductFits(a: int, b: int)
    requires -0x8000_0000 <= a < 0x8000_0000 && -0x8000_0000 <= b < 0x8000_0000
    ensures -0x4000_0000_0000_0000 <= a * b <= 0x4000_0000_0000_0000
  {
    if a >= 0 {
      MulOrder(a, b, 0x8000_0000);
      MulOrder(a, -0x8000_0000, b);
    } else {
      MulOrder(-a, b, 0x8000_0000);
      MulOrder(-a, -0x8000_0000, b);
      assert -a * b == -(a * b);
    }
  }

  /** The lane after VMUDL, VMADM, VMADN and VMADH on the four pairs of halves. */
  function MultiplyLane(ah: half, al: half, bh: half, bl: half, c: Lane, d1: half, d2: half, d3: half): Lane {
    var c1 := Multiply(Mudl, al, bl, c).(d := d1);
    var c2 := Multiply(Madm, ah, bl, c1).(d := d2);
    var c3 := Multiply(Madn, al, bh, c2).(d := d3);
    Multiply(Madh, ah, bh, c3)
  }

  lemma WordRange(high: half, low: half)
    ensures -0x8000_0000 <= Word(high, low) < 0x8000_0000
  {}

  lemma MixedRange(s: half, t: half)
    ensures -0x8000_0000 <= S(s) * t < 0x8000_0000 && S(s) * t == t * S(s)
    ensures 0 <= s * t / 0x1_0000 < 0x1_0000
  {
    Products(s, t);
  }

  lemma WholeRange(a: int, b: int)
    requires -0x8000_0000 <= a < 0x8000_0000 && -0x8000_0000 <= b < 0x8000_0000
    ensures -0x8000_0000_0000 <= a * b / 0x1_0000 < 0x8000_0000_0000
  {
    ProductFits(a, b);
  }

  lemma MultiplyForms(s: half, t: half, c: Lane)
    ensures Multiply(Mudl, s, t, c) == WithLow(c, s * t / 0x1_0000)
    ensures Multiply(Madm, s, t, c) == WithHigh(c, S(s) * t + Acc(c))
    ensures Multiply(Madn, s, t, c) == WithLow(c, s * S(t) + Acc(c))
    ensures Multiply(Madh, s, t, c) == WithHigh(c, S(s) * S(t) * 0x1_0000 + Acc(c))
  {
    hide Acc, S, WithLow, WithHigh;
  }

  /** The accumulator holds the exact product of the words, without its last 16 bits; nothing wraps. */
  lemma MultiplyExact(ah: half, al: half, bh: half, bl: half, c: Lane, d1: half, d2: half, d3: half)
    ensures Acc(MultiplyLane(ah, al, bh, bl, c, d1, d2, d3)) == Word(ah, al) * Word(bh, bl) / 0x1_0000
  {
    hide Acc, S, Multiply, WithLow, WithHigh;
    var v1, v2, v3, v4 := al * bl / 0x1_0000, S(ah) * bl, al * S(bh), S(ah) * S(bh) * 0x1_0000;
    MixedRange(ah, bl);
    MixedRange(bh, al);
    MixedRange(al, bl);
    WordRange(ah, al);
    WordRange(bh, bl);
    WholeRange(Word(ah, al), Word(bh, bl));
    PartialProducts(S(ah), al, S(bh), bl);
    MultiplyForms(al, bl, c);
    var c1 := WithLow(c, v1).(d := d1);
    MultiplyForms(ah, bl, c1);
    var c2 := WithHigh(c1, v2 + Acc(c1)).(d := d2);
    MultiplyForms(al, bh, c2);
    var c3 := WithLow(c2, v3 + Acc(c2)).(d := d3);
    MultiplyForms(ah, bh, c3);
    AccumulateFour(c, v1, v2, v3, v4, d1, d2, d3);
  }

  lemma DestinationIgnored()
    ensures forall c: Lane, d {:trigger Acc(c.(d := d))} :: Acc(c.(d := d)) == Acc(c)
  {}

  lemma AccumulateFour(c: Lane, v1: int, v2: int, v3: int, v4: int, d1: half, d2: half, d3: half)
    requires 0 <= v1 < 0x1_0000 && -0x8000_0000 <= v2 < 0x8000_0000 && -0x8000_0000 <= v3 < 0x8000_0000
    requires -0x8000_0000_0000 <= v1 + v2 + v3 + v4 < 0x8000_0000_0000
    ensures var c1 := WithLow(c, v1).(d := d1);
      var c2 := WithHigh(c1, v2 + Acc(c1)).(d := d2);
      var c3 := WithLow(c2, v3 + Acc(c2)).(d := d3);
      Acc(WithHigh(c3, v4 + Acc(c3))) == v1 + v2 + v3 + v4
  {
    hide Acc, SetAcc, ClampSigned, ClampAccLow;
    DestinationIgnored();
    AccOfSet(c, v1);
    var c1 := WithLow(c, v1).(d := d1);
    AccOfSet(c1, v2 + v1);
    var c2 := WithHigh(c1, v2 + Acc(c1)).(d := d2);
    AccOfSet(c2, v3 + v2 + v1);
    var c3 := WithLow(c2, v3 + Acc(c2)).(d := d3);
    AccOfSet(c3, v4 + v3 + v2 + v1);
  }

  // ---- On the whole unit ----------------------------------------------------------------------------

  /** What an instruction with no destination lane of its own does to lane i. */
  lemma StepReads(rom: Rom, v: Vu, inst: Inst, i: nat)
    requires i < LANES && (IsMultiply(inst.f) || inst.f.Ch? || inst.f.Cl?)
    ensures var v' := Compute(rom, v, inst);
      && LaneOf(v', inst.vd, i) == Finish(inst.f, Wanted(v, inst, i))
      && SameElsewhere(v', v, inst.vd)
  {
    hide Scalar, Finish, FinishAll, Loop, BroadcastLane, IsMultiply;
    LoopReads(v, inst, LANES);
    FinishReads(Loop(v, inst, LANES), inst.f, inst.vd, i);
    NotSingle(inst.f);
  }

  lemma NotSingle(f: Funct)
    requires IsMultiply(f) || f.Ch? || f.Cl?
    ensures !f.Mov? && !VuSimd.IsReciprocal(f)
  {}

  lemma RunOne(rom: Rom, v: Vu, inst: Inst, rest: seq<Inst>)
    ensures Run(rom, v, [inst] + rest, false) == Run(rom, Compute(rom, v, inst), rest, false)
  {
    hide Compute, ComputeSimd;
    assert ([inst] + rest)[1..] == rest;
  }

  lemma OtherDestination(v: Vu, vd: RegNum, vd': RegNum, i: nat)
    requires i < LANES
    ensures LaneOf(v, vd', i) == LaneOf(v, vd, i).(d := v.regs[vd'][i])
  {}

  /** VCH high, VCL low, on any registers and any broadcast: VCC.lo is S + T <= 0 where the signs differ, VCC.hi
      is S >= T where they agree, and VCO and VCE are clear. The first result must not overwrite the second's
      operands. Both execution paths. */
  lemma ClipWords(rom: Rom, v: Vu, simd: bool, e: nat, sh: RegNum, sl: RegNum, th: RegNum, tl: RegNum, d1: RegNum, d2: RegNum, i: nat)
    requires i < LANES && d1 != sl && d1 != tl
    ensures var v' := Run(rom, v, [Inst(Ch, e, th, sh, d1), Inst(Cl, e, tl, sl, d2)], simd);
      var b := BroadcastLane(e, i);
      var s, t := Word(v.regs[sh][i], v.regs[sl][i]), Word(v.regs[th][b], v.regs[tl][b]);
      var differ := SignsDiffer(v.regs[sh][i], v.regs[th][b]);
      && (differ ==> v'.ccLo[i] == (s + t <= 0) && v'.ccHi[i] == (t < 0))
      && (!differ ==> v'.ccHi[i] == (s >= t) && v'.ccLo[i] == (t < 0))
      && !v'.coLo[i] && !v'.coHi[i] && !v'.ce[i]
      && v'.regs[d2][i] == v'.l[i] == H(Clipped(differ, s, t))
  {
    hide Compute, ComputeSimd, BroadcastLane, ClipHigh, ClipLow, Word, Clipped, SignsDiffer, IsCompare, IsMultiply;
    var high, low := Inst(Ch, e, th, sh, d1), Inst(Cl, e, tl, sl, d2);
    PathsEqual(rom, v, [high, low]);
    RunPair(rom, v, high, low);
    StepReads(rom, v, high, i);
    var v1 := Compute(rom, v, high);
    StepReads(rom, v1, low, i);
    var b := BroadcastLane(e, i);
    var c := LaneOf(v, d1, i);
    ClipForms(e, sh % 2 == 1, v.regs[sh][i], v.regs[th][b], c);
    OtherDestination(v1, d1, d2, i);
    ClipForms(e, sl % 2 == 1, v.regs[sl][i], v.regs[tl][b], LaneOf(v1, d2, i));
    ClipLane(v.regs[sh][i], v.regs[sl][i], v.regs[th][b], v.regs[tl][b], c, v1.regs[d2][i]);
    hide Scalar, Finish;
    assert LaneOf(Compute(rom, v1, low), d2, i) ==
      Finish(Cl, ClipLow(v.regs[sl][i], v.regs[tl][b], ClipHigh(v.regs[sh][i], v.regs[th][b], c).(d := v1.regs[d2][i])));
  }

  lemma RunPair(rom: Rom, v: Vu, a: Inst, b: Inst)
    ensures Run(rom, v, [a, b], false) == Compute(rom, Compute(rom, v, a), b)
  {
    hide Compute, ComputeSimd;
    assert [a, b] == [a] + ([b] + []);
    RunOne(rom, v, a, [b] + []);
    RunOne(rom, Compute(rom, v, a), b, []);
  }

  lemma ClipForms(e: nat, odd: bool, s: half, t: half, c: Lane)
    ensures Finish(Ch, Scalar(Ch, e, odd, s, t, c)) == ClipHigh(s, t, c)
    ensures Scalar(Cl, e, odd, s, t, c) == ClipLow(s, t, c)
  {
    hide ClipHigh, ClipLow;
  }

  lemma MultiplyStep(rom: Rom, v: Vu, inst: Inst, i: nat)
    requires i < LANES && IsMultiply(inst.f)
    ensures var v' := Compute(rom, v, inst);
      && LaneOf(v', inst.vd, i) ==
           Multiply(inst.f, v.regs[inst.vs][i], v.regs[inst.vt][BroadcastLane(inst.element, i)], LaneOf(v, inst.vd, i))
      && SameElsewhere(v', v, inst.vd)
  {
    hide Compute, Multiply, BroadcastLane, Finish;
    StepReads(rom, v, inst, i);
    FinishNothing(inst.f, Wanted(v, inst, i));
  }

  /** VMUDL, VMADM, VMADN and VMADH on the halves of two vectors of signed words leave in every lane's
      accumulator exactly the product divided by 2^16, rounded down. A result must not overwrite
      an operand that a later instruction reads. Both execution paths. */
  lemma MultiplyWords(rom: Rom, v: Vu, simd: bool, e: nat, ah: RegNum, al: RegNum, bh: RegNum, bl: RegNum,
                      d1: RegNum, d2: RegNum, d3: RegNum, d4: RegNum, i: nat)
    requires i < LANES
    requires d1 !in {ah, al, bh, bl} && d2 !in {ah, al, bh} && d3 !in {ah, bh}
    ensures var v' := Run(rom, v, [Inst(Mudl, e, bl, al, d1), Inst(Madm, e, bl, ah, d2),
                                   Inst(Madn, e, bh, al, d3), Inst(Madh, e, bh, ah, d4)], simd);
      var b := BroadcastLane(e, i);
      Acc(LaneOf(v', d4, i)) == Word(v.regs[ah][i], v.regs[al][i]) * Word(v.regs[bh][b], v.regs[bl][b]) / 0x1_0000
  {
    hide Compute, ComputeSimd, BroadcastLane, Multiply, Word, Acc, Run;
    var i1, i2, i3, i4 := Inst(Mudl, e, bl, al, d1), Inst(Madm, e, bl, ah, d2), Inst(Madn, e, bh, al, d3), Inst(Madh, e, bh, ah, d4);
    PathsEqual(rom, v, [i1, i2, i3, i4]);
    var v1 := Compute(rom, v, i1);
    var v2 := Compute(rom, v1, i2);
    var v3 := Compute(rom, v2, i3);
    assert [i1, i2, i3, i4] == [i1] + ([i2] + [i3, i4]);
    RunOne(rom, v, i1, [i2] + [i3, i4]);
    RunOne(rom, v1, i2, [i3, i4]);
    RunPair(rom, v2, i3, i4);
    MultiplyStep(rom, v, i1, i);
    MultiplyStep(rom, v1, i2, i);
    MultiplyStep(rom, v2, i3, i);
    MultiplyStep(rom, v3, i4, i);
    OtherDestination(v1, d1, d2, i);
    OtherDestination(v2, d2, d3, i);
    OtherDestination(v3, d3, d4, i);
    var b := BroadcastLane(e, i);
    MultiplyExact(v.regs[ah][i], v.regs[al][i], v.regs[bh][b], v.regs[bl][b], LaneOf(v, d1, i),
                  v1.regs[d2][i], v2.regs[d3][i], v3.regs[d4][i]);
  }
}
