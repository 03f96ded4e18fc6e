/** The whole vector unit: the scalar path's loop over the lanes, the vectorised path, and every run of
    instructions on either (src/rcp/rsp_vector.cpp:525-1035, src/rcp/rsp_vector_simd.cpp:169-504). */
module VuUnit {
  import opened VuLane
  import opened VuSimd
  import opened VuEqual

  const LANES: nat := 8

  type Vec = v: seq<half> | |v| == LANES witness [0, 0, 0, 0, 0, 0, 0, 0]
  type Flags = v: seq<bool> | |v| == LANES witness [false, false, false, false, false, false, false, false]
  const BLANK: Vec := [0, 0, 0, 0, 0, 0, 0, 0]

  type RegNum = r: nat | r < 32
  type File = r: seq<Vec> | |r| == 32 witness seq<Vec>(32, _ => BLANK)

  /** VCC and VCO are split into their low and high eight bits. */
  datatype Vu = Vu(regs: File, h: Vec, m: Vec, l: Vec, ccLo: Flags, ccHi: Flags, coLo: Flags, coHi: Flags, ce: Flags,
                   divin: half, divout: half, loaded: bool)

  datatype Inst = Inst(f: Funct, element: nat, vt: RegNum, vs: RegNum, vd: RegNum)

  /** The fields of a compute instruction. */
  function InstOf(word: nat): Inst {
    Inst(FunctOf(word % 0x40), word / 0x20_0000 % 0x10, word / 0x1_0000 % 0x20, word / 0x800 % 0x20, word / 0x40 % 0x20)
  }

  /** The reciprocal tables, as any functions. */
  datatype Rom = Rom(rcp: int -> nat, rsq: nat -> nat)

  function BroadcastLane(element: nat, lane: nat): (r: nat)
    requires lane < LANES
    ensures r < LANES
  {
    if element < 2 then lane
    else if element < 4 then lane / 2 * 2 + element % 2
    else if element < 8 then lane / 4 * 4 + element % 4
    else element % 8
  }

  function LaneOf(v: Vu, vd: RegNum, i: nat): Lane
    requires i < LANES
  {
    Lane(v.regs[vd][i], v.h[i], v.m[i], v.l[i], v.ccLo[i], v.ccHi[i], v.coLo[i], v.coHi[i], v.ce[i])
  }

  function PutLane(v: Vu, vd: RegNum, i: nat, c: Lane): Vu
    requires i < LANES
  {
    v.(regs := v.regs[vd := v.regs[vd][i := c.d]], h := v.h[i := c.h], m := v.m[i := c.m], l := v.l[i := c.l],
       ccLo := v.ccLo[i := c.ccLo], ccHi := v.ccHi[i := c.ccHi], coLo := v.coLo[i := c.coLo],
       coHi := v.coHi[i := c.coHi], ce := v.ce[i := c.ce])
  }

  // ---- The scalar path ------------------------------------------------------------------------------

  /** One turn of the loop. The operands were copied before it, in v0; everything else is as the earlier turns
      left it. */
  function Turn(v0: Vu, v: Vu, inst: Inst, i: nat): Vu
    requires i < LANES
  {
    PutLane(v, inst.vd, i,
            Scalar(inst.f, inst.element, inst.vs % 2 == 1, v0.regs[inst.vs][i],
                   v0.regs[inst.vt][BroadcastLane(inst.element, i)], LaneOf(v, inst.vd, i)))
  }

  function Loop(v0: Vu, inst: Inst, n: nat): Vu
    requires n <= LANES
  {
    if n == 0 then v0 else Turn(v0, Loop(v0, inst, n - 1), inst, n - 1)
  }

  const NONE: Flags := [false, false, false, false, false, false, false, false]

  function FinishAll(v: Vu, f: Funct): Vu {
    var v := if IsCompare(f) then v.(ccHi := NONE) else v;
    var v := if ClearsVco(f) then v.(coLo := NONE, coHi := NONE) else v;
    if ClearsVce(f) then v.(ce := NONE) else v
  }

  function MovSource(element: nat, vs: nat): (r: nat)
    ensures r < LANES
  {
    if element <= 1 then vs % 8
    else if element <= 3 then element % 2 + vs % 8 / 2 * 2
    else if element <= 7 then element % 4 + vs % 8 / 4 * 4
    else element % 8
  }

  function Signed32(x: nat): int { if x % 0x1_0000_0000 < 0x8000_0000 then x % 0x1_0000_0000 else x % 0x1_0000_0000 - 0x1_0000_0000 }

  /** The operand of a reciprocal: one half, or two with the high one latched. */
  function DivideInput(v: Vu, f: Funct, low: half): int {
    if v.loaded && (f.Rcpl? || f.Rsql?) then S(v.divin) * 0x1_0000 + low else S(low)
  }

  /** The single destination lane of VMOV and of the reciprocals, and the divide latches. */
  function Single(rom: Rom, v0: Vu, v: Vu, inst: Inst): Vu {
    var t, dest, lane := v0.regs[inst.vt], v.regs[inst.vd], inst.vs % 8;
    if inst.f.Mov? then v.(regs := v.regs[inst.vd := dest[lane := t[MovSource(inst.element, inst.vs)]]])
    else if inst.f.Rcph? || inst.f.Rsqh? then
      v.(regs := v.regs[inst.vd := dest[lane := v.divout]], divin := t[inst.element % 8], loaded := true)
    else if IsReciprocal(inst.f) then
      var input := DivideInput(v0, inst.f, t[inst.element % 8]);
      var result := if inst.f.Rsq? || inst.f.Rsql? then rom.rsq(input % 0x1_0000_0000) else rom.rcp(input);
      v.(regs := v.regs[inst.vd := dest[lane := H(result)]], divout := H(result / 0x1_0000), divin := 0, loaded := false)
    else v
  }

  function Compute(rom: Rom, v: Vu, inst: Inst): Vu {
    Single(rom, v, FinishAll(Loop(v, inst, LANES), inst.f), inst)
  }

  // ---- The vectorised path --------------------------------------------------------------------------

  /** A register as the 16 bytes of a host vector, and the byte shuffle that broadcasts its elements. */
  function Bytes(v: Vec): seq<nat> { seq(16, k requires 0 <= k < 16 => if k % 2 == 0 then v[k / 2] % 0x100 else v[k / 2] / 0x100) }

  function FromBytes(b: seq<nat>): Vec
    requires |b| == 16
  {
    seq(LANES, i requires 0 <= i < LANES => H(b[2 * i] + 0x100 * b[2 * i + 1]))
  }

  function Pshufb(b: seq<nat>, control: seq<nat>): (r: seq<nat>)
    requires |b| == |control| == 16
    ensures |r| == 16
  {
    seq(16, k requires 0 <= k < 16 => if control[k] >= 0x80 then 0 else b[control[k] % 16])
  }

  function Control(element: nat): (r: seq<nat>)
    ensures |r| == 16
  {
    seq(16, k requires 0 <= k < 16 => 2 * BroadcastLane(element, k / 2) + k % 2)
  }

  function Broadcast(t: Vec, element: nat): Vec { FromBytes(Pshufb(Bytes(t), Control(element))) }

  /** Each control byte picks the byte of the lane that broadcasts there. */
  lemma ShuffledByte(t: Vec, element: nat, i: nat, odd: nat)
    requires i < LANES && odd < 2
    ensures Pshufb(Bytes(t), Control(element))[2 * i + odd] == Bytes(t)[2 * BroadcastLane(element, i) + odd]
  {
    hide BroadcastLane;
    var k := 2 * i + odd;
    assert k / 2 == i && k % 2 == odd;
    assert Control(element)[k] == 2 * BroadcastLane(element, i) + odd;
  }

  lemma LaneBytes(t: Vec, i: nat)
    requires i < LANES
    ensures H(Bytes(t)[2 * i] + 0x100 * Bytes(t)[2 * i + 1]) == t[i]
  {
    var k := 2 * i + 1;
    assert 2 * i / 2 == i && 2 * i % 2 == 0 && k / 2 == i && k % 2 == 1;
    assert Bytes(t)[2 * i] == t[i] % 0x100 && Bytes(t)[k] == t[i] / 0x100;
  }

  lemma ShuffleBroadcasts(t: Vec, element: nat, i: nat)
    requires i < LANES
    ensures Broadcast(t, element)[i] == t[BroadcastLane(element, i)]
  {
    hide BroadcastLane, Bytes, Pshufb, Control, H;
    ShuffledByte(t, element, i, 0);
    ShuffledByte(t, element, i, 1);
    LaneBytes(t, BroadcastLane(element, i));
  }

  function SimdLane(v: Vu, inst: Inst, t: Vec, i: nat): Lane
    requires i < LANES
  {
    Simd(inst.f, inst.element, v.regs[inst.vs][i], t[i], LaneOf(v, inst.vd, i))
  }

  function SimdLanes(v: Vu, inst: Inst): (r: seq<Lane>)
    ensures |r| == LANES
  {
    var t := Broadcast(v.regs[inst.vt], inst.element);
    seq(LANES, i requires 0 <= i < LANES => SimdLane(v, inst, t, i))
  }

  function Destinations(c: seq<Lane>): Vec requires |c| == LANES { seq(LANES, i requires 0 <= i < LANES => c[i].d) }
  function Highs(c: seq<Lane>): Vec requires |c| == LANES { seq(LANES, i requires 0 <= i < LANES => c[i].h) }
  function Middles(c: seq<Lane>): Vec requires |c| == LANES { seq(LANES, i requires 0 <= i < LANES => c[i].m) }
  function Lows(c: seq<Lane>): Vec requires |c| == LANES { seq(LANES, i requires 0 <= i < LANES => c[i].l) }
  function CcLows(c: seq<Lane>): Flags requires |c| == LANES { seq(LANES, i requires 0 <= i < LANES => c[i].ccLo) }
  function CcHighs(c: seq<Lane>): Flags requires |c| == LANES { seq(LANES, i requires 0 <= i < LANES => c[i].ccHi) }
  function CoLows(c: seq<Lane>): Flags requires |c| == LANES { seq(LANES, i requires 0 <= i < LANES => c[i].coLo) }
  function CoHighs(c: seq<Lane>): Flags requires |c| == LANES { seq(LANES, i requires 0 <= i < LANES => c[i].coHi) }
  function Extensions(c: seq<Lane>): Flags requires |c| == LANES { seq(LANES, i requires 0 <= i < LANES => c[i].ce) }

  /** All lanes stored at once. */
  function PutLanes(v: Vu, vd: RegNum, c: seq<Lane>): Vu
    requires |c| == LANES
  {
    v.(regs := v.regs[vd := Destinations(c)], h := Highs(c), m := Middles(c), l := Lows(c),
       ccLo := CcLows(c), ccHi := CcHighs(c), coLo := CoLows(c), coHi := CoHighs(c), ce := Extensions(c))
  }

  function ComputeSimd(rom: Rom, v: Vu, inst: Inst): Vu {
    if Vectorised(inst.f) then Single(rom, v, PutLanes(v, inst.vd, SimdLanes(v, inst)), inst)
    else Compute(rom, v, inst)
  }

  // ---- Equality -------------------------------------------------------------------------------------

  predicate SameLatches(v: Vu, w: Vu) { v.divin == w.divin && v.divout == w.divout && v.loaded == w.loaded }

  predicate SameElsewhere(v: Vu, w: Vu, vd: RegNum) { forall r :: 0 <= r < 32 && r != vd ==> v.regs[r] == w.regs[r] }

  lemma PutLaneReads(v: Vu, vd: RegNum, i: nat, c: Lane)
    requires i < LANES
    ensures var v' := PutLane(v, vd, i, c);
      && LaneOf(v', vd, i) == c && SameLatches(v', v) && SameElsewhere(v', v, vd)
      && forall k :: 0 <= k < LANES && k != i ==> LaneOf(v', vd, k) == LaneOf(v, vd, k)
  {}

  /** The lane the scalar loop should leave at index i. */
  function Wanted(v0: Vu, inst: Inst, i: nat): Lane
    requires i < LANES
  {
    Scalar(inst.f, inst.element, inst.vs % 2 == 1, v0.regs[inst.vs][i],
           v0.regs[inst.vt][BroadcastLane(inst.element, i)], LaneOf(v0, inst.vd, i))
  }

  /** The loop treats the lanes independently: the copies of the operands make the turns' order and any
      aliasing of source and destination immaterial. */
  lemma {:induction false} LoopReads(v0: Vu, inst: Inst, n: nat)
    requires n <= LANES
    ensures var v := Loop(v0, inst, n);
      && SameLatches(v, v0) && SameElsewhere(v, v0, inst.vd)
      && forall i :: 0 <= i < LANES ==> LaneOf(v, inst.vd, i) == if i < n then Wanted(v0, inst, i) else LaneOf(v0, inst.vd, i)
  {
    hide Scalar, PutLane, BroadcastLane;
    if n > 0 {
      LoopReads(v0, inst, n - 1);
      var v := Loop(v0, inst, n - 1);
      PutLaneReads(v, inst.vd, n - 1, Wanted(v0, inst, n - 1));
    }
  }

  lemma FinishReads(v: Vu, f: Funct, vd: RegNum, i: nat)
    requires i < LANES
    ensures LaneOf(FinishAll(v, f), vd, i) == Finish(f, LaneOf(v, vd, i))
    ensures SameLatches(FinishAll(v, f), v) && FinishAll(v, f).regs == v.regs
  {
    hide IsCompare, ClearsVco, ClearsVce;
    CompareClears(f);
  }

  lemma CompareClears(f: Funct)
    ensures IsCompare(f) ==> ClearsVco(f)
  {}

  lemma PutLanesReads(v: Vu, vd: RegNum, c: seq<Lane>)
    requires |c| == LANES
    ensures var v' := PutLanes(v, vd, c);
      && SameLatches(v', v) && SameElsewhere(v', v, vd)
      && forall i :: 0 <= i < LANES ==> LaneOf(v', vd, i) == c[i]
  {}

  /** Two states that agree lane by lane, on the other registers and on the latches are the same. */
  lemma SameByLanes(v: Vu, w: Vu, vd: RegNum)
    requires SameLatches(v, w) && SameElsewhere(v, w, vd)
    requires forall i :: 0 <= i < LANES ==> LaneOf(v, vd, i) == LaneOf(w, vd, i)
    ensures v == w
  {
    forall i | 0 <= i < LANES
      ensures v.regs[vd][i] == w.regs[vd][i] && v.h[i] == w.h[i] && v.m[i] == w.m[i] && v.l[i] == w.l[i]
      ensures v.ccLo[i] == w.ccLo[i] && v.ccHi[i] == w.ccHi[i] && v.coLo[i] == w.coLo[i] && v.coHi[i] == w.coHi[i]
      ensures v.ce[i] == w.ce[i]
    {
      assert LaneOf(v, vd, i) == LaneOf(w, vd, i);
    }
    assert v.regs[vd] == w.regs[vd];
    assert v.regs == w.regs;
    assert v.h == w.h && v.m == w.m && v.l == w.l;
    assert v.ccLo == w.ccLo && v.ccHi == w.ccHi && v.coLo == w.coLo && v.coHi == w.coHi && v.ce == w.ce;
  }

  /** One instruction on the vectorised path is the instruction on the scalar path. */
  lemma StepEqual(rom: Rom, v: Vu, inst: Inst)
    ensures ComputeSimd(rom, v, inst) == Compute(rom, v, inst)
  {
    hide Single, Scalar, Simd, BroadcastLane, PutLanes, Loop, FinishAll, Finish, Broadcast, Vectorised;
    if Vectorised(inst.f) {
      var lanes := SimdLanes(v, inst);
      var w := PutLanes(v, inst.vd, lanes);
      var u := Loop(v, inst, LANES);
      PutLanesReads(v, inst.vd, lanes);
      LoopReads(v, inst, LANES);
      forall i | 0 <= i < LANES ensures LaneOf(w, inst.vd, i) == LaneOf(FinishAll(u, inst.f), inst.vd, i) {
        ShuffleBroadcasts(v.regs[inst.vt], inst.element, i);
        LaneEqual(inst.f, inst.element, inst.vs % 2 == 1, v.regs[inst.vs][i],
                  v.regs[inst.vt][BroadcastLane(inst.element, i)], LaneOf(v, inst.vd, i));
        FinishReads(u, inst.f, inst.vd, i);
      }
      FinishReads(u, inst.f, inst.vd, 0);
      SameByLanes(w, FinishAll(u, inst.f), inst.vd);
    }
  }

  function Run(rom: Rom, v: Vu, insts: seq<Inst>, simd: bool): Vu
    decreases |insts|
  {
    if insts == [] then v
    else Run(rom, if simd then ComputeSimd(rom, v, insts[0]) else Compute(rom, v, insts[0]), insts[1..], simd)
  }

  /** The function codes for which the vectorised path returns false. */
  const FALLBACK: set<nat> := {0x02, 0x03, 0x0A, 0x0B, 0x12, 0x16, 0x17, 0x18, 0x19, 0x1A, 0x1B, 0x1C, 0x1E, 0x1F,
                               0x24, 0x26, 0x2E, 0x2F, 0x37, 0x38, 0x39, 0x3A, 0x3B, 0x3C, 0x3D, 0x3E, 0x3F}

  /** The vectorised path takes every other code. */
  lemma Dispatch(code: nat)
    requires code < 0x40
    ensures Vectorised(FunctOf(code)) <==> code !in FALLBACK
  {}

  /** Any program of vector instructions ends in the same state on both paths. */
  lemma {:induction false} PathsEqual(rom: Rom, v: Vu, insts: seq<Inst>)
    ensures Run(rom, v, insts, true) == Run(rom, v, insts, false)
    decreases |insts|
  {
    hide ComputeSimd, Compute;
    if insts != [] {
      StepEqual(rom, v, insts[0]);
      PathsEqual(rom, Compute(rom, v, insts[0]), insts[1..]);
    }
  }
}
