/** The R4300's fully associative TLB and the COP0 registers it works with
    (src/mmu/tlb.cpp, include/mmu/tlb.h, src/cpu/cop0.cpp). */
module Tlb {
  import opened Bits
  import opened Common

  const ENTRIES: nat := 32
  const WORD: nat := 0x1_0000_0000

  type u32 = x: nat | x < WORD

  datatype Access = Load | Store

  datatype Error = Miss | Invalid | Modification

  datatype Result = Hit(paddr: nat) | Fail(error: Error)

  datatype Entry = Entry(valid: bool, global: bool, lo0: nat, lo1: nat, hi: nat, mask: nat)

  const EMPTY := Entry(false, false, 0, 0, 0, 0)

  datatype Cop0 = Cop0(index: nat, random: nat, wired: nat, lo0: nat, lo1: nat, pageMask: nat, hi: nat,
                       badVaddr: nat, context: nat, xcontext: nat)

  type Entries = es: seq<Entry> | |es| == ENTRIES witness seq(ENTRIES, _ => EMPTY)

  function Asid(hi: nat): nat { hi % 0x100 }

  function SignExtend(vaddr: u32): nat {
    if vaddr < 0x8000_0000 then vaddr else vaddr + 0xFFFF_FFFF_0000_0000
  }

  // ---- Matching and translation -------------------------------------------------------------

  /** Address bits 39..0, with the two region bits 63..62 moved down next to them. */
  function SpaceAndOffset(vaddr: nat): nat {
    vaddr % 0x100_0000_0000 + vaddr / 0x4000_0000_0000_0000 * 0x100_0000_0000
  }

  function Vpn(vaddr: nat, pageMask: nat): nat {
    AndNot(SpaceAndOffset(vaddr), Or(pageMask, 0x1FFF))
  }

  predicate Matches(e: Entry, vaddr: nat, hi: nat) {
    && e.valid
    && Vpn(vaddr, e.mask) == Vpn(e.hi, e.mask)
    && (e.global || Asid(hi) == Asid(e.hi))
  }

  /** The lowest matching index at or above `from`. */
  function Lookup(es: Entries, vaddr: nat, hi: nat, from: nat := 0): (r: Option<nat>)
    requires from <= ENTRIES
    ensures r.Some? ==> from <= r.value < ENTRIES && Matches(es[r.value], vaddr, hi)
    ensures r.Some? ==> forall i :: from <= i < r.value ==> !Matches(es[i], vaddr, hi)
    ensures r.None? ==> forall i :: from <= i < ENTRIES ==> !Matches(es[i], vaddr, hi)
    decreases ENTRIES - from
  {
    if from == ENTRIES then None
    else if Matches(es[from], vaddr, hi) then Some(from)
    else Lookup(es, vaddr, hi, from + 1)
  }

  function OffsetMask(pageMask: nat): nat { pageMask / 0x2000 * 0x1000 + 0xFFF }

  predicate Bit1(lo: nat) { lo / 2 % 2 == 1 }
  predicate Bit2(lo: nat) { lo / 4 % 2 == 1 }
  function Pfn(lo: nat): nat { lo / 64 % 0x10_0000 }

  /** What one matching entry makes of an access. */
  function Translate(e: Entry, vaddr: u32, access: Access): Result {
    var mask := OffsetMask(e.mask);
    var lo := if And(vaddr, mask + 1) != 0 then e.lo1 else e.lo0;
    if !Bit1(lo) then Fail(Invalid)
    else if access.Store? && !Bit2(lo) then Fail(Modification)
    else Hit(Or(Pfn(lo) * 0x1000, And(vaddr, mask)))
  }

  function Probe(es: Entries, hi: nat, vaddr: u32, access: Access): Result {
    match Lookup(es, SignExtend(vaddr), hi)
    case None => Fail(Miss)
    case Some(i) => Translate(es[i], vaddr, access)
  }

  predicate SamePage(va: u32, vb: u32) { va / 0x1000 == vb / 0x1000 }

  /** With the low 13 bits masked off, only the bits above them decide. */
  lemma VpnAbovePage(v: nat, pageMask: nat)
    ensures AndNot(v, Or(pageMask, 0x1FFF)) == AndNot(v / 0x1000, Or(pageMask / 0x1000, 1)) * 0x1000
  {
    hide Zip;
    var m := Or(pageMask, 0x1FFF);
    ZipPage(OR, pageMask, 0x1FFF);
    PageOnes(pageMask % 0x1000);
    ZipPage(ANDNOT, v, m);
    PageOnes(v % 0x1000);
  }

  lemma SpaceOf(va: u32)
    ensures SpaceAndOffset(SignExtend(va)) == if va < 0x8000_0000 then va else va + 0x3FF_0000_0000
  {
    if va >= 0x8000_0000 {
      var v := SignExtend(va);
      assert v == 3 * 0x4000_0000_0000_0000 + 0x3FFF_FFFF_0000_0000 + va;
      assert v / 0x4000_0000_0000_0000 == 3;
      assert v == 0xFF_FFFF * 0x100_0000_0000 + 0xFF_0000_0000 + va;
      assert v % 0x100_0000_0000 == 0xFF_0000_0000 + va;
    }
  }

  lemma SamePageSameVpn(va: u32, vb: u32, pageMask: nat)
    requires SamePage(va, vb)
    ensures Vpn(SignExtend(va), pageMask) == Vpn(SignExtend(vb), pageMask)
  {
    hide Zip;
    hide SpaceAndOffset, SignExtend;
    SpaceOf(va);
    SpaceOf(vb);
    VpnAbovePage(SpaceAndOffset(SignExtend(va)), pageMask);
    VpnAbovePage(SpaceAndOffset(SignExtend(vb)), pageMask);
  }

  lemma {:induction false} SamePageSameLookup(es: Entries, hi: nat, va: u32, vb: u32, from: nat)
    requires from <= ENTRIES && SamePage(va, vb)
    ensures Lookup(es, SignExtend(va), hi, from) == Lookup(es, SignExtend(vb), hi, from)
    decreases ENTRIES - from
  {
    if from < ENTRIES {
      SamePageSameVpn(va, vb, es[from].mask);
      SamePageSameLookup(es, hi, va, vb, from + 1);
    }
  }

  /** The bits a page mask and a frame number decide lie above the 4 KiB offset. */
  lemma MaskedByPage(va: u32, pfn: nat, k: nat)
    ensures And(va, k * 0x1000 + 0xFFF) == And(va / 0x1000, k) * 0x1000 + va % 0x1000
    ensures And(va, (k + 1) * 0x1000) == And(va / 0x1000, k + 1) * 0x1000
    ensures Or(pfn * 0x1000, And(va, k * 0x1000 + 0xFFF)) == Or(pfn, And(va / 0x1000, k)) * 0x1000 + va % 0x1000
  {
    hide Zip;
    ZipPage(AND, va, k * 0x1000 + 0xFFF);
    PageOnes(va % 0x1000);
    ZipPage(AND, va, (k + 1) * 0x1000);
    ZipZero(va % 0x1000);
    ZipPage(OR, pfn * 0x1000, And(va, k * 0x1000 + 0xFFF));
  }

  predicate SamePageResult(r: Result, s: Result, va: u32, vb: u32) {
    match r
    case Hit(p) => p % 0x1000 == va % 0x1000 && s == Hit(p / 0x1000 * 0x1000 + vb % 0x1000)
    case Fail(_) => s == r
  }

  lemma SamePageTranslate(e: Entry, va: u32, vb: u32, access: Access)
    requires SamePage(va, vb)
    ensures SamePageResult(Translate(e, va, access), Translate(e, vb, access), va, vb)
  {
    hide Zip;
    var k := e.mask / 0x2000;
    var lo := if And(va / 0x1000, k + 1) * 0x1000 != 0 then e.lo1 else e.lo0;
    MaskedByPage(va, Pfn(lo), k);
    MaskedByPage(vb, Pfn(lo), k);
  }

  /** Translation works on 4 KiB pages whatever the page mask, and keeps the offset in the page. */
  lemma ProbeByPage(es: Entries, hi: nat, va: u32, vb: u32, access: Access)
    requires SamePage(va, vb)
    ensures SamePageResult(Probe(es, hi, va, access), Probe(es, hi, vb, access), va, vb)
  {
    hide Zip;
    SamePageSameLookup(es, hi, va, vb, 0);
    match Lookup(es, SignExtend(va), hi)
    case None =>
    case Some(i) => SamePageTranslate(es[i], va, vb, access);
  }

  // ---- TLB instructions and TLB exceptions --------------------------------------------------

  function RandomLow(c: Cop0): nat { if c.wired % 0x40 > 31 then 0 else c.wired % 0x40 }
  function RandomHigh(c: Cop0): nat { if c.wired % 0x40 > 31 then 63 else 31 }

  /** Random after advance_random: one step round Low..High. */
  function NextRandom(c: Cop0): nat {
    if c.random < RandomLow(c) || c.random >= RandomHigh(c) then RandomLow(c) else c.random + 1
  }

  function ClampedRandom(c: Cop0): nat {
    if c.random < RandomLow(c) || c.random > RandomHigh(c) then RandomLow(c) else c.random
  }

  /** The page mask field as the hardware keeps it: each pair of bits takes its top bit twice. */
  function PairMask(field: nat): nat {
    var top := And(field, 0xAAA);
    Or(top, top / 2)
  }

  function MaskField(pageMask: nat): nat { PairMask(pageMask / 0x2000 % 0x1000) }

  function Global(lo: nat): bool { lo % 2 == 1 }

  /** EntryLo without its G bit and without the bits above the frame number. */
  function LoCopy(lo: nat): nat { lo % 0x400_0000 - lo % 2 }

  function EntryOf(c: Cop0): Entry {
    var m := MaskField(c.pageMask);
    Entry(true, Global(c.lo0) && Global(c.lo1), LoCopy(c.lo0), LoCopy(c.lo1), AndNot(c.hi, m * 0x2000), m * 0x2000)
  }

  function WriteIndex(c: Cop0, random: bool): (i: nat)
    ensures i < ENTRIES
  {
    if random then ClampedRandom(c) % 0x20 else c.index % 0x20
  }

  function AfterWrite(c: Cop0, random: bool): Cop0 {
    if random then c.(random := NextRandom(c.(random := ClampedRandom(c)))) else c
  }

  function WithG(lo: nat, g: bool): nat { lo - lo % 2 + Odd(g) }

  /** TLBR: the entry that Index selects, copied to the COP0 registers. */
  function ReadEntry(es: Entries, c: Cop0): Cop0 {
    var e := es[c.index % 0x20];
    c.(pageMask := e.mask, hi := e.hi, lo0 := WithG(e.lo0, e.global), lo1 := WithG(e.lo1, e.global))
  }

  function ProbeIndex(es: Entries, c: Cop0): Cop0 {
    c.(index := match Lookup(es, c.hi, c.hi) case Some(i) => i case None => 0x8000_0000)
  }

  /** The registers a TLB exception leaves for its handler; EntryHi keeps its ASID. */
  function OnException(c: Cop0, vaddr: nat): Cop0 {
    var vpn2 := vaddr / 0x2000 % 0x8_0000;
    var xvpn2 := vaddr / 0x2000 % 0x800_0000;
    var r := vaddr / 0x4000_0000_0000_0000 % 4;
    c.(badVaddr := vaddr,
       context := c.context - c.context % 0x80_0000 + vpn2 * 0x10,
       xcontext := c.xcontext - c.xcontext % 0x2_0000_0000 + xvpn2 * 0x10 + r * 0x8000_0000,
       hi := c.hi % 0x100 + xvpn2 * 0x2000 + r * 0x4000_0000_0000_0000)
  }

  // ---- Wired and Random ---------------------------------------------------------------------

  /** TLBWR never replaces a wired entry. */
  lemma WiredEntriesStay(c: Cop0)
    requires c.wired <= 31
    ensures c.wired <= WriteIndex(c, true) < ENTRIES
  {}

  /** The indices that n consecutive TLBWRs write. */
  function RandomIndices(c: Cop0, n: nat): (ixs: seq<nat>)
    ensures |ixs| == n
    decreases n
  {
    if n == 0 then [] else [WriteIndex(c, true)] + RandomIndices(AfterWrite(c, true), n - 1)
  }

  /** k places after `first` on the circle Wired..31. */
  function Around(wired: nat, first: nat, k: nat): int {
    if first + k < ENTRIES then first + k else first + k - ENTRIES + wired
  }

  lemma NextIndex(c: Cop0)
    requires c.wired <= 31
    ensures var c' := AfterWrite(c, true);
      c'.wired == c.wired && WriteIndex(c', true) == Around(c.wired, WriteIndex(c, true), 1)
    ensures c.wired <= WriteIndex(c, true)
  {}

  lemma {:induction false} RandomIndexAt(c: Cop0, n: nat, k: nat)
    requires c.wired <= 31 && k < n <= ENTRIES - c.wired
    ensures RandomIndices(c, n)[k] == Around(c.wired, WriteIndex(c, true), k)
    decreases n
  {
    hide WriteIndex, AfterWrite;
    if k > 0 {
      NextIndex(c);
      RandomIndexAt(AfterWrite(c, true), n - 1, k - 1);
    }
  }

  /** Any 32 - Wired consecutive TLBWRs write each unwired entry, and each exactly once. */
  lemma RandomCoversUnwired(c: Cop0)
    requires c.wired <= 31
    ensures var ixs := RandomIndices(c, ENTRIES - c.wired);
      && (forall j, k :: 0 <= j < k < |ixs| ==> ixs[j] != ixs[k])
      && (forall i :: c.wired <= i < ENTRIES ==> i in ixs)
  {
    var span := ENTRIES - c.wired;
    var ixs := RandomIndices(c, span);
    var first := WriteIndex(c, true);
    forall j, k | 0 <= j < k < span ensures ixs[j] != ixs[k] {
      RandomIndexAt(c, span, j); RandomIndexAt(c, span, k);
    }
    forall i | c.wired <= i < ENTRIES ensures i in ixs {
      var k := if i >= first then i - first else i - first + span;
      RandomIndexAt(c, span, k);
      assert ixs[k] == i;
    }
  }

  // ---- TLBR undone by TLBWI -----------------------------------------------------------------

  ghost predicate Written(e: Entry) {
    exists c: Cop0 :: e == EntryOf(c)
  }

  lemma PairMaskTwice(field: nat)
    requires field < 0x1000
    ensures PairMask(PairMask(field)) == PairMask(field) < 0x1000
  {
    hide Zip;
    assert Alternate(6) == 0xAAA by { assert Alternate(3) == 0x2A; assert Alternate(4) == 0xAA; }
    ShlValues(1);
    PairMaskBits(field, 6);
    PairMaskBits(Pairs(field, 6), 6);
    PairsTwice(field, 6);
  }

  function Alternate(pairs: nat): nat { if pairs == 0 then 0 else 4 * Alternate(pairs - 1) + 2 }

  /** The documented rule, pair by pair: 00 and 01 become 00, 10 and 11 become 11. */
  function Pairs(field: nat, pairs: nat): nat {
    if pairs == 0 then 0 else 4 * Pairs(field / 4, pairs - 1) + (if field % 4 >= 2 then 3 else 0)
  }

  function Tops(field: nat, pairs: nat): nat {
    if pairs == 0 then 0 else 4 * Tops(field / 4, pairs - 1) + (if field % 4 >= 2 then 2 else 0)
  }

  lemma {:induction false} TopBits(field: nat, pairs: nat)
    ensures And(field, Alternate(pairs)) == Tops(field, pairs)
  {
    hide Zip;
    if pairs == 0 {
      ZipZero(field);
    } else {
      TopBits(field / 4, pairs - 1);
      ZipStep(AND, field, Alternate(pairs));
      ZipStep(AND, field / 2, Alternate(pairs) / 2);
    }
  }

  lemma {:induction false} SpreadTops(field: nat, pairs: nat)
    ensures var t := Tops(field, pairs); Or(t, t / 2) == Pairs(field, pairs)
  {
    hide Zip;
    if pairs == 0 {
      ZipZero(0);
    } else {
      SpreadTops(field / 4, pairs - 1);
      var t := Tops(field, pairs);
      ZipStep(OR, t, t / 2);
      ZipStep(OR, t / 2, t / 4);
    }
  }

  lemma {:induction false} PairMaskBits(field: nat, pairs: nat)
    ensures var top := And(field, Alternate(pairs)); Or(top, top / 2) == Pairs(field, pairs)
    ensures Pairs(field, pairs) < Shl(1, 2 * pairs)
  {
    hide Zip;
    TopBits(field, pairs);
    SpreadTops(field, pairs);
    PairsBound(field, pairs);
  }

  lemma {:induction false} PairsBound(field: nat, pairs: nat)
    ensures Pairs(field, pairs) < Shl(1, 2 * pairs)
  {
    if pairs > 0 {
      PairsBound(field / 4, pairs - 1);
      assert Shl(1, 2 * pairs) == 2 * Shl(1, 2 * pairs - 1);
    }
  }

  lemma {:induction false} PairsTwice(field: nat, pairs: nat)
    ensures Pairs(Pairs(field, pairs), pairs) == Pairs(field, pairs)
  {
    if pairs > 0 { PairsTwice(field / 4, pairs - 1); }
  }

  lemma WithGInvisible(lo: nat, g: bool)
    ensures LoCopy(WithG(LoCopy(lo), g)) == LoCopy(lo) && Global(WithG(LoCopy(lo), g)) == g
  {}

  /** Reading an entry that was ever written and writing it back at the same index restores it bit for bit. */
  lemma ReadThenWriteRestores(es: Entries, c: Cop0)
    requires Written(es[c.index % 0x20])
    ensures var c' := ReadEntry(es, c);
      WriteIndex(c', false) == c.index % 0x20 && EntryOf(c') == es[c.index % 0x20]
  {
    hide Zip;
    var e := es[c.index % 0x20];
    var w: Cop0 :| e == EntryOf(w);
    var m := MaskField(w.pageMask);
    PairMaskTwice(w.pageMask / 0x2000 % 0x1000);
    assert MaskField(e.mask) == m;
    AndNotTwice(w.hi, m * 0x2000);
    WithGInvisible(w.lo0, e.global);
    WithGInvisible(w.lo1, e.global);
  }
}
