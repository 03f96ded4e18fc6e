/** The vector unit as the object both paths update in place (include/rcp/rsp.h, src/rcp/rsp_vector.cpp,
    src/rcp/rsp_vector_simd.cpp). */
module VuDevice {
  import opened VuLane
  import opened VuSimd
  import opened VuUnit

  /** ve_shuffle_table. */
  method ShuffleTable() returns (table: array<seq<nat>>)
    ensures fresh(table) && table.Length == 16
    ensures forall ve :: 0 <= ve < 16 ==> table[ve] == Control(ve)
  {
    table := new seq<nat>[16](_ => []);
    for ve := 0 to 16
      invariant forall k :: 0 <= k < ve ==> table[k] == Control(k)
    {
      var control := Shuffle(ve);
      table[ve] := control;
    }
  }

  /** One byte shuffle, filled in lane by lane. */
  method Shuffle(ve: nat) returns (control: seq<nat>)
    ensures control == Control(ve)
  {
    hide Control, BroadcastLane;
    control := [];
    for dest := 0 to LANES
      invariant |control| == 2 * dest && control == Control(ve)[..2 * dest]
    {
      var src := BroadcastLane(ve, dest);
      ControlStep(ve, dest);
      control := control + [2 * src, 2 * src + 1];
    }
    assert control == Control(ve)[..16] == Control(ve);
  }

  lemma ControlStep(ve: nat, dest: nat)
    requires dest < LANES
    ensures var src := BroadcastLane(ve, dest);
      Control(ve)[..2 * dest] + [2 * src, 2 * src + 1] == Control(ve)[..2 * (dest + 1)]
  {
    hide BroadcastLane;
    var src, k := BroadcastLane(ve, dest), 2 * dest + 1;
    assert 2 * dest / 2 == dest && 2 * dest % 2 == 0 && k / 2 == dest && k % 2 == 1;
    assert Control(ve)[2 * dest] == 2 * src && Control(ve)[k] == 2 * src + 1;
  }

  class Rsp {
    const regs: array<Vec>
    var h: Vec
    var m: Vec
    var l: Vec
    var ccLo: Flags
    var ccHi: Flags
    var coLo: Flags
    var coHi: Flags
    var ce: Flags
    var divin: half
    var divout: half
    var loaded: bool

    ghost predicate Valid() { regs.Length == 32 }

    ghost function View(): Vu
      reads this, regs
      requires Valid()
    {
      Vu(regs[..], h, m, l, ccLo, ccHi, coLo, coHi, ce, divin, divout, loaded)
    }

    constructor ()
      ensures Valid() && fresh(regs)
    {
      regs := new Vec[32](_ => BLANK);
      h, m, l := BLANK, BLANK, BLANK;
      ccLo, ccHi, coLo, coHi, ce := NONE, NONE, NONE, NONE, NONE;
      divin, divout, loaded := 0, 0, false;
    }

    method ReadLane(vd: RegNum, i: nat) returns (c: Lane)
      requires Valid() && i < LANES
      ensures c == LaneOf(View(), vd, i)
    {
      c := Lane(regs[vd][i], h[i], m[i], l[i], ccLo[i], ccHi[i], coLo[i], coHi[i], ce[i]);
    }

    method WriteSlices(i: nat, c: Lane)
      requires Valid() && i < LANES
      modifies this`h, this`m, this`l
      ensures h == old(h)[i := c.h] && m == old(m)[i := c.m] && l == old(l)[i := c.l]
    {
      h := h[i := c.h];
      m := m[i := c.m];
      l := l[i := c.l];
    }

    method WriteFlags(i: nat, c: Lane)
      requires Valid() && i < LANES
      modifies this`ccLo, this`ccHi, this`coLo, this`coHi, this`ce
      ensures ccLo == old(ccLo)[i := c.ccLo] && ccHi == old(ccHi)[i := c.ccHi]
      ensures coLo == old(coLo)[i := c.coLo] && coHi == old(coHi)[i := c.coHi] && ce == old(ce)[i := c.ce]
    {
      ccLo := ccLo[i := c.ccLo];
      ccHi := ccHi[i := c.ccHi];
      coLo := coLo[i := c.coLo];
      coHi := coHi[i := c.coHi];
      ce := ce[i := c.ce];
    }

    method WriteLane(vd: RegNum, i: nat, c: Lane)
      requires Valid() && i < LANES
      modifies this, regs
      ensures View() == PutLane(old(View()), vd, i, c)
    {
      ghost var v := View();
      regs[vd] := regs[vd][i := c.d];
      assert regs[..] == v.regs[vd := v.regs[vd][i := c.d]];
      WriteSlices(i, c);
      WriteFlags(i, c);
    }

    /** The vector stores of the vectorised path. */
    method WriteLanes(vd: RegNum, c: seq<Lane>)
      requires Valid() && |c| == LANES
      modifies this, regs
      ensures View() == PutLanes(old(View()), vd, c)
    {
      hide Destinations, Highs, Middles, Lows, CcLows, CcHighs, CoLows, CoHighs, Extensions;
      ghost var v := View();
      regs[vd] := Destinations(c);
      assert regs[..] == v.regs[vd := Destinations(c)];
      h, m, l := Highs(c), Middles(c), Lows(c);
      ccLo, ccHi, coLo, coHi, ce := CcLows(c), CcHighs(c), CoLows(c), CoHighs(c), Extensions(c);
    }

    method ClearFlags(f: Funct)
      requires Valid()
      modifies this`ccHi, this`coLo, this`coHi, this`ce
      ensures View() == FinishAll(old(View()), f)
    {
      hide NONE, IsCompare, ClearsVco, ClearsVce;
      if IsCompare(f) { ccHi := NONE; }
      if ClearsVco(f) { coLo, coHi := NONE, NONE; }
      if ClearsVce(f) { ce := NONE; }
    }

    method WriteHalf(vd: RegNum, lane: nat, v: half)
      requires Valid() && lane < LANES
      modifies regs
      ensures View() == old(View()).(regs := old(View()).regs[vd := old(View()).regs[vd][lane := v]])
    {
      regs[vd] := regs[vd][lane := v];
      assert regs[..] == old(regs[..])[vd := regs[vd]];
    }

    /** The divide latches; the result's low half goes to a lane. */
    method Divide(rom: Rom, f: Funct, low: half) returns (r: half)
      requires Valid() && IsReciprocal(f)
      modifies this`divin, this`divout, this`loaded
      ensures if f.Rcph? || f.Rsqh? then divin == low && loaded && divout == old(divout) && r == divout
        else
          var input := DivideInput(old(View()), f, low);
          var result := if f.Rsq? || f.Rsql? then rom.rsq(input % 0x1_0000_0000) else rom.rcp(input);
          divout == H(result / 0x1_0000) && divin == 0 && !loaded && r == H(result)
    {
      hide H, S, IsReciprocal;
      if f.Rcph? || f.Rsqh? {
        divin, loaded := low, true;
        r := divout;
      } else {
        var input := if loaded && (f.Rcpl? || f.Rsql?) then S(divin) * 0x1_0000 + low else S(low);
        var result := if f.Rsq? || f.Rsql? then rom.rsq(input % 0x1_0000_0000) else rom.rcp(input);
        divout, divin, loaded := H(result / 0x1_0000), 0, false;
        r := H(result);
      }
    }

    /** VMOV and the reciprocals, after the accumulator has been written. */
    method WriteSingle(rom: Rom, t: Vec, inst: Inst)
      requires Valid()
      modifies this`divin, this`divout, this`loaded, regs
      ensures forall v0: Vu :: v0.regs[inst.vt] == t && SameLatches(v0, old(View())) ==> View() == Single(rom, v0, old(View()), inst)
    {
      hide H, DivideInput, MovSource;
      DivideByLatches(inst.f, t[inst.element % 8]);
      if inst.f.Mov? {
        WriteHalf(inst.vd, inst.vs % 8, t[MovSource(inst.element, inst.vs)]);
      } else if IsReciprocal(inst.f) {
        var r := Divide(rom, inst.f, t[inst.element % 8]);
        WriteHalf(inst.vd, inst.vs % 8, r);
      }
    }

    /** vu_execute_compute_scalar. */
    method ExecuteScalar(rom: Rom, inst: Inst)
      requires Valid()
      modifies this, regs
      ensures View() == Compute(rom, old(View()), inst)
    {
      hide Scalar, BroadcastLane, PutLane, FinishAll, Single;
      var s, t := regs[inst.vs], regs[inst.vt];
      ghost var v0 := View();
      for i := 0 to LANES
        invariant View() == Loop(v0, inst, i)
      {
        var c := ReadLane(inst.vd, i);
        WriteLane(inst.vd, i, Scalar(inst.f, inst.element, inst.vs % 2 == 1, s[i], t[BroadcastLane(inst.element, i)], c));
      }
      LoopReads(v0, inst, LANES);
      ClearFlags(inst.f);
      FinishReads(Loop(v0, inst, LANES), inst.f, inst.vd, 0);
      WriteSingle(rom, t, inst);
    }

    /** try_execute_simd, and the fallback. */
    method ExecuteSimd(rom: Rom, inst: Inst, table: array<seq<nat>>)
      requires Valid() && table.Length == 16 && inst.element < 16
      requires forall ve :: 0 <= ve < 16 ==> table[ve] == Control(ve)
      modifies this, regs
      ensures View() == ComputeSimd(rom, old(View()), inst)
    {
      hide Compute, Simd, FromBytes, Pshufb, Control, Single, Vectorised;
      if !Vectorised(inst.f) {
        ExecuteScalar(rom, inst);
        return;
      }
      ghost var v0 := View();
      var source := regs[inst.vt];
      var c := LanesAfter(inst, FromBytes(Pshufb(Bytes(source), table[inst.element])));
      assert c == SimdLanes(v0, inst);
      WriteLanes(inst.vd, c);
      PutLanesReads(v0, inst.vd, c);
      WriteSingle(rom, source, inst);
    }

    /** vu_execute_compute: one of the two paths, as the build chooses; which one cannot be told from the unit. */
    method ExecuteCompute(rom: Rom, word: nat, simd: bool, table: array<seq<nat>>)
      requires Valid() && table.Length == 16
      requires forall ve :: 0 <= ve < 16 ==> table[ve] == Control(ve)
      modifies this, regs
      ensures View() == Compute(rom, old(View()), InstOf(word))
    {
      hide Compute, ComputeSimd, FunctOf, Control;
      if simd {
        StepEqual(rom, View(), InstOf(word));
        ExecuteSimd(rom, InstOf(word), table);
      } else {
        ExecuteScalar(rom, InstOf(word));
      }
    }

    method LanesAfter(inst: Inst, t: Vec) returns (c: seq<Lane>)
      requires Valid()
      ensures |c| == LANES && forall i :: 0 <= i < LANES ==> c[i] == SimdLane(View(), inst, t, i)
    {
      hide Simd;
      c := [];
      var s := regs[inst.vs];
      for i := 0 to LANES
        invariant |c| == i && forall k :: 0 <= k < i ==> c[k] == SimdLane(View(), inst, t, k)
      {
        var lane := ReadLane(inst.vd, i);
        c := c + [Simd(inst.f, inst.element, s[i], t[i], lane)];
      }
    }
  }

  lemma DivideByLatches(f: Funct, low: half)
    ensures forall v: Vu, w: Vu {:trigger DivideInput(v, f, low), DivideInput(w, f, low)} ::
      SameLatches(v, w) ==> DivideInput(v, f, low) == DivideInput(w, f, low)
  {}
}
