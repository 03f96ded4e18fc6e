/** What the TLB does, by arithmetic on addresses: which addresses an entry covers, and what its two pages answer
    (src/mmu/tlb.cpp:77-120, 145-216, src/cpu/cop0.cpp:121-138). */
module TlbPages {
  import opened Common
  import opened Bits
  import opened Tlb
  import SoftTlb

  // ---- Page sizes -----------------------------------------------------------------------------------

  function Four(k: nat): (r: nat)
    ensures r > 0
  {
    if k == 0 then 1 else 4 * Four(k - 1)
  }

  /** The sizes run from 4 KiB to 16 MiB; an entry covers two pages. */
  function Size(k: nat): (r: nat)
    ensures r > 0
  {
    0x1000 * Four(k)
  }

  function Mask(k: nat): nat { (Four(k) - 1) * 0x2000 }

  lemma FourValues(k: nat)
    requires k <= 6
    ensures Four(k) == (if k == 0 then 1 else if k == 1 then 4 else if k == 2 then 16 else if k == 3 then 64
                        else if k == 4 then 0x100 else if k == 5 then 0x400 else 0x1000)
    ensures Four(k) * Four(6 - k) == 0x1000
  {
    assert Four(3) == 64;
    assert Four(6) == 64 * Four(3);
    if k == 0 {} else if k == 1 {} else if k == 2 {} else if k == 3 {} else if k == 4 {} else if k == 5 {} else {}
  }

  lemma {:induction false} ShlFour(a: int, k: nat)
    ensures Shl(a, 2 * k) == a * Four(k)
    decreases k
  {
    if k > 0 {
      ShlFour(a, k - 1);
      ShlStep(a, 2 * k - 2);
      ShlStep(a, 2 * k - 1);
      assert a * Four(k) == 4 * (a * Four(k - 1));
    }
  }

  lemma ShlSize(a: int, k: nat)
    ensures Shl(a, 12 + 2 * k) == a * Size(k) && Shl(a, 13 + 2 * k) == a * (2 * Size(k))
  {
    ShlValues(a);
    ShlAdd(a, 12, 2 * k);
    ShlFour(0x1000 * a, k);
    ShlStep(a, 12 + 2 * k);
    hide Shl;
    Regroup(a, 0x1000, Four(k));
  }

  lemma Regroup(a: int, b: int, c: int)
    ensures b * a * c == a * (b * c) && a * (2 * (b * c)) == 2 * (a * (b * c))
  {}

  /** A contiguous mask is kept as it is. */
  lemma MaskIsKept(c: Cop0, k: nat)
    requires k <= 6 && c.pageMask == Mask(k)
    ensures EntryOf(c).mask == Mask(k)
  {
    hide Zip;
    FourValues(k);
    var field := Four(k) - 1;
    Euclid(c.pageMask, 0x2000, field, 0);
    Euclid(field, 0x1000, 0, field);
    assert Alternate(6) == 0xAAA by { assert Alternate(3) == 0x2A; assert Alternate(4) == 0xAA; }
    PairMaskBits(field, 6);
    PairsOfOnes(k, 6);
  }

  lemma {:induction false} PairsOfOnes(k: nat, pairs: nat)
    requires k <= pairs
    ensures Pairs(Four(k) - 1, pairs) == Four(k) - 1
    decreases pairs
  {
    if k > 0 {
      PairsOfOnes(k - 1, pairs - 1);
      Euclid(Four(k) - 1, 4, Four(k - 1) - 1, 3);
    } else if pairs > 0 {
      PairsOfOnes(0, pairs - 1);
    }
  }

  // ---- The two pages of an entry --------------------------------------------------------------------

  lemma ShlOne(k: nat)
    ensures Shl(1, 12 + 2 * k) == Size(k) && Shl(1, 13 + 2 * k) == 2 * Size(k)
  {
    ShlSize(1, k);
    hide Shl;
  }

  lemma Parts(va: nat, k: nat)
    ensures va == va / Size(k) * Size(k) + va % Size(k) && va % Size(k) < Size(k)
  {
    hide Size;
  }

  lemma OneBit(va: nat, k: nat)
    ensures And(va, Size(k)) == va / Size(k) % 2 * Size(k)
  {
    hide Zip, Shl, Size;
    Parts(va, k);
    OneBitOf(va / Size(k), va % Size(k), k);
  }

  lemma OneBitOf(a: nat, x: nat, k: nat)
    requires x < Size(k)
    ensures And(a * Size(k) + x, Size(k)) == a % 2 * Size(k)
  {
    hide Zip, Shl, Size;
    ShlSize(a, k);
    ShlOne(k);
    ShlSize(a % 2, k);
    ZipSplit(AND, a, x, 1, 0, 12 + 2 * k);
    ZipZero(x);
    LowBit(a);
  }

  lemma LowBit(a: nat)
    ensures And(a, 1) == a % 2
  {
    ZipStep(AND, a, 1);
    ZipZero(a / 2);
    hide Zip;
  }

  lemma Offset(va: nat, k: nat)
    ensures And(va, Size(k) - 1) == va % Size(k)
  {
    hide Zip, Shl, Size;
    Parts(va, k);
    OffsetOf(va / Size(k), va % Size(k), k);
  }

  lemma OffsetOf(a: nat, x: nat, k: nat)
    requires x < Size(k)
    ensures And(a * Size(k) + x, Size(k) - 1) == x
  {
    hide Zip, Shl, Size;
    ShlSize(a, k);
    ShlOne(k);
    AndLow(a, x, 12 + 2 * k);
  }

  lemma FrameAndOffset(f: nat, k: nat, x: nat)
    requires x < Size(k)
    ensures Or(f * Size(k), x) == f * Size(k) + x
  {
    hide Zip, Shl, Size;
    ShlSize(f, k);
    ShlOne(k);
    OrHighLow(f, x, 12 + 2 * k);
  }

  /** What a page's EntryLo answers: V is bit 1, D bit 2, and the frame bits 25..6. */
  predicate Answers(lo: nat, k: nat, va: u32, a: Access, r: Result) {
    if lo / 2 % 2 == 0 then r == Fail(Invalid)
    else if a.Store? && lo / 4 % 2 == 0 then r == Fail(Modification)
    else lo / 64 % 0x10_0000 % Four(k) == 0 ==> r == Hit(lo / 64 % 0x10_0000 * 0x1000 + va % Size(k))
  }

  /** An EntryLo as TLBWI keeps it still has its flags and its frame. */
  lemma KeptFields(lo: nat)
    ensures LoCopy(lo) / 2 % 2 == lo / 2 % 2 && LoCopy(lo) / 4 % 2 == lo / 4 % 2
    ensures LoCopy(lo) / 64 % 0x10_0000 == lo / 64 % 0x10_0000
  {
    var high, low := lo / 0x400_0000, lo % 0x400_0000;
    var g, v, d, rest := lo % 2, lo / 2 % 2, lo / 4 % 2, lo / 64 % 0x10_0000;
    var x := LoCopy(lo);
    Euclid(lo / 2, 0x200_0000, high, low / 2);
    Euclid(low, 2, low / 2, g);
    Euclid(x, 2, low / 2, 0);
    Halves(low / 2, x / 2);
    Euclid(lo, 4, 0x100_0000 * high + low / 4, low % 4);
    Euclid(lo, 2, 0x200_0000 * high + low / 2, low % 2);
    Euclid(lo / 2, 2, 0x100_0000 * high + low / 2 / 2, low / 2 % 2);
    Euclid(low, 4, low / 2 / 2, 2 * (low / 2 % 2) + low % 2);
    Euclid(x, 4, low / 2 / 2, 2 * (low / 2 % 2));
    Euclid(lo / 4, 2, 0x80_0000 * high + low / 4 / 2, low / 4 % 2);
    Euclid(lo, 64, 0x10_0000 * high + low / 64, low % 64);
    Euclid(0x10_0000 * high + low / 64, 0x10_0000, high, low / 64);
    Euclid(x, 64, low / 64, low % 64 - g);
    Euclid(low / 64, 0x10_0000, 0, low / 64);
  }

  lemma Halves(x: nat, y: nat)
    requires x == y
    ensures x % 2 == y % 2
  {}

  /** The even page of a written entry answers by EntryLo0, the odd one by EntryLo1. */
  lemma EntryAnswers(c: Cop0, k: nat, va: u32, a: Access)
    requires k <= 6 && c.pageMask == Mask(k)
    ensures Answers(if va / Size(k) % 2 == 0 then c.lo0 else c.lo1, k, va, a, Translate(EntryOf(c), va, a))
  {
    hide Zip, MaskField, Size, LoCopy, Translate, AndNot, Answers, Mask;
    MaskIsKept(c, k);
    var lo := if va / Size(k) % 2 == 0 then c.lo0 else c.lo1;
    PageSelected(EntryOf(c), k, va);
    PageAnswers(EntryOf(c), lo, k, va, a);
  }

  function Selected(e: Entry, k: nat, va: u32): nat { if va / Size(k) % 2 == 0 then e.lo0 else e.lo1 }

  lemma MaskOffset(k: nat)
    ensures OffsetMask(Mask(k)) == Size(k) - 1
  {
    Euclid(Mask(k), 0x2000, Four(k) - 1, 0);
  }

  lemma PageSelected(e: Entry, k: nat, va: u32)
    requires e.mask == Mask(k)
    ensures (if And(va, OffsetMask(e.mask) + 1) != 0 then e.lo1 else e.lo0) == Selected(e, k, va)
  {
    hide Zip, Size, Mask, OffsetMask;
    MaskOffset(k);
    OneBit(va, k);
    var bit := va / Size(k) % 2;
    assert bit == 0 || bit == 1;
  }

  lemma PageAnswers(e: Entry, lo: nat, k: nat, va: u32, a: Access)
    requires e.mask == Mask(k) && Selected(e, k, va) == LoCopy(lo)
    ensures Answers(lo, k, va, a, Translate(e, va, a))
  {
    hide Zip, Size, Mask, OffsetMask, LoCopy, Selected, Four;
    MaskOffset(k);
    PageSelected(e, k, va);
    Offset(va, k);
    KeptFields(lo);
    var pfn := lo / 64 % 0x10_0000;
    if pfn % Four(k) == 0 { FramePlaced(pfn, k, va); }
  }

  lemma FramePlaced(pfn: nat, k: nat, va: nat)
    requires pfn % Four(k) == 0
    ensures Or(pfn * 0x1000, va % Size(k)) == pfn * 0x1000 + va % Size(k)
  {
    hide Zip, Size;
    AlignedFrame(pfn, k);
    Parts(va, k);
    FrameAndOffset(pfn / Four(k), k, va % Size(k));
  }

  lemma AlignedFrame(pfn: nat, k: nat)
    requires pfn % Four(k) == 0
    ensures pfn * 0x1000 == pfn / Four(k) * Size(k)
  {
    var q := pfn / Four(k);
    assert pfn == q * Four(k);
    Regroup(q, 0x1000, Four(k));
  }

  // ---- The addresses an entry covers ----------------------------------------------------------------

  /** Both pages. */
  function Span(k: nat): (r: nat)
    ensures r > 0
  {
    2 * Size(k)
  }

  lemma VpnIs(x: nat, k: nat)
    ensures AndNot(x, Or(Mask(k), 0x1FFF)) == x / Span(k) * Span(k)
  {
    hide Zip, Span, Mask;
    MaskOnes(k);
    var q, r := x / Span(k), x % Span(k);
    SpanParts(x, k);
    Cleared(q, r, k);
    var y := q * Span(k) + r;
    assert y == x;
  }

  lemma MaskOnes(k: nat)
    ensures Or(Mask(k), 0x1FFF) == Span(k) - 1 && Mask(k) < Span(k)
  {
    hide Zip, Shl, Four;
    var f := Four(k) - 1;
    ShlValues(f);
    ShlStep(f, 12);
    ShlValues(1);
    ShlStep(1, 12);
    OrHighLow(f, 0x1FFF, 13);
  }

  lemma SpanParts(x: nat, k: nat)
    ensures x == x / Span(k) * Span(k) + x % Span(k) && x % Span(k) < Span(k)
  {
    hide Span;
  }

  lemma Cleared(a: nat, x: nat, k: nat)
    requires x < Span(k)
    ensures AndNot(a * Span(k) + x, Span(k) - 1) == a * Span(k)
  {
    hide Zip, Shl, Size;
    ShlSize(a, k);
    ShlOne(k);
    ShlZero(13 + 2 * k);
    ZipSplit(ANDNOT, a, x, 0, Span(k) - 1, 13 + 2 * k);
    ZipZero(a);
    ZipOnes(x, 13 + 2 * k);
  }

  /** Clearing the masked bits of EntryHi does not change the pair of pages. */
  lemma StoredSpan(h: nat, k: nat)
    ensures AndNot(h, Mask(k)) / Span(k) == h / Span(k)
  {
    hide Zip, Shl, Size, Mask, Span;
    SpanParts(h, k);
    ClearedBelow(h / Span(k), h % Span(k), k);
  }

  lemma ClearedBelow(a: nat, x: nat, k: nat)
    requires x < Span(k)
    ensures AndNot(a * Span(k) + x, Mask(k)) / Span(k) == a
  {
    hide Zip, Shl, Size, Mask;
    MaskOnes(k);
    ShlSize(a, k);
    ShlOne(k);
    ShlZero(13 + 2 * k);
    ZipSplit(ANDNOT, a, x, 0, Mask(k), 13 + 2 * k);
    ZipZero(a);
    ZipBound(ANDNOT, x, Mask(k), 13 + 2 * k);
    Euclid(AndNot(a * Span(k) + x, Mask(k)), Span(k), a, AndNot(x, Mask(k)));
  }

  /** How many pairs of pages 32 MiB hold. */
  function PerBlock(k: nat): nat
    requires k <= 6
  {
    Four(6 - k)
  }

  lemma Blocks(k: nat)
    requires k <= 6
    ensures Span(k) * PerBlock(k) == 0x200_0000 && PerBlock(k) > 0
  {
    FourValues(k);
    hide Four;
    assert 0x2000 * Four(k) * Four(6 - k) == 0x2000 * (Four(k) * Four(6 - k));
  }

  /** The space and offset of an address, pair of pages by pair of pages. */
  lemma SpaceSpan(h: nat, k: nat)
    requires k <= 6
    ensures var m := PerBlock(k) * 0x8000; var q := h / Span(k);
      m > 0 && SpaceAndOffset(h) / Span(k) == q % m + q / (m * 0x40_0000) * m
  {
    hide Span, PerBlock, SpaceAndOffset;
    Blocks(k);
    var p, m := Span(k), PerBlock(k) * 0x8000;
    Whole(p, PerBlock(k));
    SpanParts(h, k);
    var q, x := h / p, h % p;
    var u, w := q / m, q % m;
    FourParts(q, m);
    SpaceParts(h, p, m, u, w, x, u / 0x40_0000, u % 0x40_0000);
  }

  lemma Whole(p: nat, n: nat)
    requires p * n == 0x200_0000
    ensures p * (n * 0x8000) == 0x100_0000_0000
  {
    assert p * (n * 0x8000) == p * n * 0x8000;
  }

  lemma SpaceParts(h: nat, p: nat, m: nat, u: nat, w: nat, x: nat, y: nat, z: nat)
    requires p * m == 0x100_0000_0000 && w < m && x < p && z < 0x40_0000 && u == y * 0x40_0000 + z
    requires h == (u * m + w) * p + x
    ensures p > 0 && m > 0 && SpaceAndOffset(h) / p == w + y * m && (u * m + w) / (m * 0x40_0000) == y
  {
    Within(w, m, x, p);
    Spread(u, m, w, p);
    Euclid(h, 0x100_0000_0000, u, w * p + x);
    Euclid(h, 0x4000_0000_0000_0000, y, z * 0x100_0000_0000 + (w * p + x));
    Spread(y, m, w, p);
    Euclid(w * p + x + y * 0x100_0000_0000, p, w + y * m, x);
    Within(z, 0x40_0000, w, m);
    Scaled(y, z, m);
    Euclid(u * m + w, m * 0x40_0000, y, z * m + w);
  }

  lemma Within(w: nat, m: nat, x: nat, p: nat)
    requires w < m && x < p
    ensures w * p + x < m * p
  {
    MulOrder(p, w, m - 1);
  }

  lemma Spread(u: nat, m: nat, w: nat, p: nat)
    ensures (u * m + w) * p == u * (p * m) + w * p && (w + u * m) * p == u * (p * m) + w * p
  {}

  lemma Scaled(y: nat, z: nat, m: nat)
    ensures (y * 0x40_0000 + z) * m == y * (m * 0x40_0000) + z * m && 0x40_0000 * m == m * 0x40_0000
  {}

  lemma VpnBySpan(h: nat, h': nat, k: nat)
    requires k <= 6
    ensures Vpn(h, Mask(k)) == Vpn(h', Mask(k)) <==> SpaceAndOffset(h) / Span(k) == SpaceAndOffset(h') / Span(k)
  {
    hide Zip, SpaceAndOffset, Mask, Span;
    VpnIs(SpaceAndOffset(h), k);
    VpnIs(SpaceAndOffset(h'), k);
    SameProduct(SpaceAndOffset(h) / Span(k), SpaceAndOffset(h') / Span(k), Span(k));
  }

  lemma SameProduct(a: int, b: int, p: nat)
    requires p > 0
    ensures a * p == b * p <==> a == b
  {
    if a < b { MulOrder(p, a + 1, b); } else if a > b { MulOrder(p, b + 1, a); }
  }

  lemma EntrySpan(c: Cop0, k: nat)
    requires k <= 6 && c.pageMask == Mask(k)
    ensures SpaceAndOffset(EntryOf(c).hi) / Span(k) == SpaceAndOffset(c.hi) / Span(k)
  {
    hide Zip, SpaceAndOffset, Mask, Span, PerBlock;
    MaskIsKept(c, k);
    StoredSpan(c.hi, k);
    SpaceSpan(c.hi, k);
    SpaceSpan(EntryOf(c).hi, k);
  }

  // ---- EntryHi --------------------------------------------------------------------------------------

  /** The part of a sign-extended kernel address above its 32 bits: region 3 and eight ones. */
  const KERNEL: nat := 0x3FF_0000_0000

  /** An address with its offset in 8 KiB replaced by the ASID written with it. */
  function Tagged(v: u32): nat { v / 0x2000 * 0x2000 + v % 0x100 }

  function Above(v: u32): nat { if v < 0x8000_0000 then 0 else KERNEL }

  lemma AddressKey(va: u32)
    ensures SpaceAndOffset(SignExtend(va)) == va + Above(va)
  {
    var x := SignExtend(va);
    if va < 0x8000_0000 {
      Euclid(x, 0x100_0000_0000, 0, x);
      Euclid(x, 0x4000_0000_0000_0000, 0, x);
    } else {
      Euclid(x, 0x100_0000_0000, 0xFF_FFFF, va + 0xFF_0000_0000);
      Euclid(x, 0x4000_0000_0000_0000, 3, x - 0xC000_0000_0000_0000);
    }
  }

  /** DMTC0 of a sign-extended address. */
  lemma LongKey(v: u32)
    ensures SpaceAndOffset(SoftTlb.EntryHiWritten(SignExtend(v))) == Tagged(v) + Above(v)
  {
    var t, x := Tagged(v), SignExtend(v);
    if v < 0x8000_0000 {
      Euclid(t, 0x100_0000_0000, 0, t);
      Euclid(t, 0x4000_0000_0000_0000, 0, t);
    } else {
      var q := v / 0x2000;
      Euclid(x, 0x2000, q + 0x7_FFFF_FFF8_0000, v % 0x2000);
      Euclid(q + 0x7_FFFF_FFF8_0000, 0x800_0000, 0xFF_FFFF, q + 0x7F8_0000);
      Euclid(x, 0x4000_0000_0000_0000, 3, x - 0xC000_0000_0000_0000);
      Euclid(x, 0x100, v / 0x100 + 0xFF_FFFF_FF00_0000, v % 0x100);
      var h := 0xC000_0000_0000_0000 + (q + 0x7F8_0000) * 0x2000 + v % 0x100;
      Euclid(h, 0x100_0000_0000, 0xC0_0000, h - 0xC000_0000_0000_0000);
      Euclid(h, 0x4000_0000_0000_0000, 3, h - 0xC000_0000_0000_0000);
    }
  }

  /** MTC0 keeps only 32 bits and the region, not the eight ones below it. */
  lemma ShortKey(v: u32)
    ensures SpaceAndOffset(SoftTlb.EntryHiWritten(v)) == Tagged(v) + if v < 0x8000_0000 then 0 else 0x300_0000_0000
  {
    var t := Tagged(v);
    if v < 0x8000_0000 {
      Euclid(t, 0x100_0000_0000, 0, t);
      Euclid(t, 0x4000_0000_0000_0000, 0, t);
    } else {
      var h := 0xC000_0000_0000_0000 + t;
      Euclid(h, 0x100_0000_0000, 0xC0_0000, t);
      Euclid(h, 0x4000_0000_0000_0000, 3, t);
    }
  }

  lemma TaggedSpan(v: u32, k: nat)
    ensures Tagged(v) / Span(k) == v / Span(k)
  {
    hide Span;
    var q := v / 0x2000;
    SpanOf(q, v % 0x2000, k);
    SpanOf(q, v % 0x100, k);
  }

  lemma SpanOf(q: nat, r: nat, k: nat)
    requires r < 0x2000
    ensures (q * 0x2000 + r) / Span(k) == q / Four(k)
  {
    hide Span, Four;
    FourParts(q, Four(k));
    SpanSplit(q / Four(k), q % Four(k), r, k);
  }

  lemma FourParts(q: nat, f: nat)
    requires f > 0
    ensures q == q / f * f + q % f && q % f < f
  {}

  lemma SpanSplit(a: nat, b: nat, r: nat, k: nat)
    requires b < Four(k) && r < 0x2000
    ensures ((a * Four(k) + b) * 0x2000 + r) / Span(k) == a
  {
    var f := Four(k);
    assert (a * f + b) * 0x2000 == a * (0x2000 * f) + b * 0x2000;
    Euclid((a * f + b) * 0x2000 + r, Span(k), a, b * 0x2000 + r);
  }

  lemma ShiftedSpan(x: nat, blocks: nat, k: nat)
    requires k <= 6
    ensures (x + blocks * 0x200_0000) / Span(k) == x / Span(k) + blocks * PerBlock(k)
  {
    hide Span, PerBlock;
    Blocks(k);
    SpanParts(x, k);
    var p, q, n := Span(k), x / Span(k), PerBlock(k);
    MoreBlocks(q, blocks, n, p);
    Euclid(x + blocks * 0x200_0000, p, q + blocks * n, x % p);
  }

  lemma MoreBlocks(q: nat, blocks: nat, n: nat, p: nat)
    requires p * n == 0x200_0000
    ensures (q + blocks * n) * p == q * p + blocks * 0x200_0000
  {
    assert (q + blocks * n) * p == q * p + blocks * (p * n);
  }

  /** Below a number of blocks, and from there on. */
  lemma BlockOf(x: nat, blocks: nat, k: nat)
    requires k <= 6
    ensures x < blocks * 0x200_0000 <==> x / Span(k) < blocks * PerBlock(k)
  {
    hide Span, PerBlock;
    Blocks(k);
    SpanParts(x, k);
    BlocksTimes(blocks, PerBlock(k), Span(k));
    Fewer(x / Span(k), x % Span(k), Span(k), blocks * PerBlock(k));
  }

  lemma BlocksTimes(blocks: nat, n: nat, p: nat)
    requires p * n == 0x200_0000
    ensures blocks * n * p == blocks * 0x200_0000
  {
    assert blocks * n * p == blocks * (p * n);
  }

  lemma Fewer(q: nat, r: nat, p: nat, t: nat)
    requires r < p
    ensures q * p + r < t * p <==> q < t
  {
    if q < t { MulOrder(p, q + 1, t); } else { MulOrder(p, t, q); }
  }

  lemma SameSpanOnly(va: u32, v: u32, k: nat)
    requires k <= 6
    ensures (va + Above(va)) / Span(k) == (Tagged(v) + Above(v)) / Span(k) <==> va / Span(k) == v / Span(k)
  {
    hide Span, PerBlock, Tagged;
    Blocks(k);
    TaggedSpan(v, k);
    ShiftedSpan(va, 0x1FF80, k);
    ShiftedSpan(Tagged(v), 0x1FF80, k);
    BlockOf(va, 0x40, k);
    BlockOf(v, 0x40, k);
  }

  lemma NeverSameSpan(va: u32, v: u32, k: nat)
    requires k <= 6 && v >= 0x8000_0000
    ensures (va + Above(va)) / Span(k) != (Tagged(v) + 0x300_0000_0000) / Span(k)
  {
    hide Span, PerBlock, Tagged;
    Blocks(k);
    TaggedSpan(v, k);
    ShiftedSpan(va, 0x1FF80, k);
    ShiftedSpan(Tagged(v), 0x18000, k);
    BlockOf(va, 0x80, k);
    BlockOf(v, 0x80, k);
  }

  /** Which addresses a written entry covers, when EntryHi was written as a whole (DMTC0, or a TLB exception): those on
      its two pages, with its ASID unless both EntryLos are global. */
  lemma EntryCovers(c: Cop0, k: nat, v: u32, va: u32, hi: nat)
    requires k <= 6 && c.pageMask == Mask(k) && c.hi == SoftTlb.EntryHiWritten(SignExtend(v))
    ensures Matches(EntryOf(c), SignExtend(va), hi) <==>
      va / Span(k) == v / Span(k) && ((c.lo0 % 2 == 1 && c.lo1 % 2 == 1) || hi % 0x100 == v % 0x100)
  {
    hide SpaceAndOffset, Vpn, Mask, Span, SignExtend, SoftTlb.EntryHiWritten, AndNot, Above, Tagged;
    MatchesIs(c, k, SignExtend(va), hi);
    LongKey(v);
    AddressKey(va);
    SameSpanOnly(va, v, k);
    LongAsid(v);
  }

  /** An EntryHi written by MTC0 covers user addresses only: with the top bit set it matches no address at all. */
  lemma ShortEntryCovers(c: Cop0, k: nat, v: u32, va: u32, hi: nat)
    requires k <= 6 && c.pageMask == Mask(k) && c.hi == SoftTlb.EntryHiWritten(v)
    ensures Matches(EntryOf(c), SignExtend(va), hi) <==>
      v < 0x8000_0000 && va / Span(k) == v / Span(k) && ((c.lo0 % 2 == 1 && c.lo1 % 2 == 1) || hi % 0x100 == v % 0x100)
  {
    hide SpaceAndOffset, Vpn, Mask, Span, SoftTlb.EntryHiWritten, AndNot, Above, Tagged;
    if v < 0x8000_0000 {
      EntryCovers(c, k, v, va, hi);
    } else {
      MatchesIs(c, k, SignExtend(va), hi);
      ShortKey(v);
      AddressKey(va);
      NeverSameSpan(va, v, k);
    }
  }

  lemma MatchesIs(c: Cop0, k: nat, x: nat, hi: nat)
    requires k <= 6 && c.pageMask == Mask(k)
    ensures Matches(EntryOf(c), x, hi) <==>
      SpaceAndOffset(x) / Span(k) == SpaceAndOffset(c.hi) / Span(k)
      && ((c.lo0 % 2 == 1 && c.lo1 % 2 == 1) || hi % 0x100 == c.hi % 0x100)
  {
    hide SpaceAndOffset, Vpn, Span, Zip, LoCopy;
    MaskIsKept(c, k);
    EntrySpan(c, k);
    VpnBySpan(x, EntryOf(c).hi, k);
    KeptAsid(c.hi, k);
    hide Mask;
  }

  lemma KeptAsid(h: nat, k: nat)
    ensures AndNot(h, Mask(k)) % 0x100 == h % 0x100
  {
    hide AndNot, Four;
    ClearedAbove(h / 0x100, h % 0x100, 0x20 * (Four(k) - 1));
  }

  lemma ClearedAbove(a: nat, x: nat, f: nat)
    requires x < 0x100
    ensures AndNot(a * 0x100 + x, f * 0x100) % 0x100 == x
  {
    hide Zip, Shl;
    ShlValues(a);
    ShlValues(f);
    ShlValues(1);
    ShlValues(AndNot(a, f));
    ZipSplit(ANDNOT, a, x, f, 0, 8);
    ZipZero(x);
    Euclid(AndNot(a * 0x100 + x, f * 0x100), 0x100, AndNot(a, f), x);
  }

  lemma LongAsid(v: u32)
    ensures SoftTlb.EntryHiWritten(SignExtend(v)) % 0x100 == v % 0x100
  {
    var h, x := SoftTlb.EntryHiWritten(SignExtend(v)), SignExtend(v);
    if v < 0x8000_0000 {
      Euclid(h, 0x100, v / 0x2000 * 0x20, v % 0x100);
    } else {
      Euclid(x, 0x100, v / 0x100 + 0xFF_FFFF_FF00_0000, v % 0x100);
      Euclid(h, 0x100, x / 0x4000_0000_0000_0000 * 0x40_0000_0000_0000 + x / 0x2000 % 0x800_0000 * 0x20, v % 0x100);
    }
  }

  // ---- Writing an entry and using it ----------------------------------------------------------------

  /** The registers written one by one. */
  function Loaded(m: SoftTlb.Mmu, v: u32, k: nat, lo0: u32, lo1: u32, i: nat): SoftTlb.Mmu {
    var m := SoftTlb.Step(m, SoftTlb.SetEntryHi(SignExtend(v))).0;
    var m := SoftTlb.Step(m, SoftTlb.SetPageMask(Mask(k))).0;
    var m := SoftTlb.Step(m, SoftTlb.SetEntryLo(lo0, lo1)).0;
    SoftTlb.Step(m, SoftTlb.SetIndex(i)).0
  }

  function Written(m: SoftTlb.Mmu, v: u32, k: nat, lo0: u32, lo1: u32, i: nat): SoftTlb.Mmu {
    SoftTlb.Step(Loaded(m, v, k, lo0, lo1, i), SoftTlb.Tlbwi).0
  }

  lemma LoadedIs(m: SoftTlb.Mmu, v: u32, k: nat, lo0: u32, lo1: u32, i: nat)
    requires k <= 6
    ensures var m' := Loaded(m, v, k, lo0, lo1, i);
      && m'.es == m.es
      && m'.c == m.c.(hi := SoftTlb.EntryHiWritten(SignExtend(v)), pageMask := Mask(k), lo0 := lo0 % 0x4000_0000,
                      lo1 := lo1 % 0x4000_0000, index := i)
  {
    FourValues(k);
    Euclid(Mask(k), 0x2000, Four(k) - 1, 0);
    Euclid(Four(k) - 1, 0x1000, 0, Four(k) - 1);
    hide Mask, SoftTlb.EntryHiWritten, SignExtend, SoftTlb.Emptied;
  }

  lemma WrittenIs(m: SoftTlb.Mmu, v: u32, k: nat, lo0: u32, lo1: u32, i: nat)
    requires k <= 6 && i < ENTRIES
    ensures var m' := Written(m, v, k, lo0, lo1, i);
      && m'.c == m.c.(hi := SoftTlb.EntryHiWritten(SignExtend(v)), pageMask := Mask(k), lo0 := lo0 % 0x4000_0000,
                      lo1 := lo1 % 0x4000_0000, index := i)
      && m'.es == m.es[i := EntryOf(m'.c.(lo0 := lo0, lo1 := lo1))] && SoftTlb.Coherent(m')
  {
    hide Loaded, SoftTlb.EntryHiWritten, SignExtend, EntryOf, SoftTlb.Invalidate, SoftTlb.Coherent, Mask;
    var m4 := Loaded(m, v, k, lo0, lo1, i);
    LoadedIs(m, v, k, lo0, lo1, i);
    Euclid(i, 0x20, 0, i);
    SameEntry(m4.c, lo0, lo1);
    var m5 := m4.(es := m4.es[i := EntryOf(m4.c)]);
    Kept(m5);
    SoftTlb.InvalidateCoherent(m5);
  }

  lemma Kept(m: SoftTlb.Mmu)
    ensures SoftTlb.Invalidate(m).es == m.es && SoftTlb.Invalidate(m).c == m.c
  {}

  lemma SameEntry(c: Cop0, lo0: nat, lo1: nat)
    requires c.lo0 == lo0 % 0x4000_0000 && c.lo1 == lo1 % 0x4000_0000
    ensures EntryOf(c) == EntryOf(c.(lo0 := lo0, lo1 := lo1))
  {
    hide MaskField, AndNot, LoCopy, Global;
    LowLo(lo0);
    LowLo(lo1);
  }

  lemma LowLo(lo: nat)
    ensures LoCopy(lo % 0x4000_0000) == LoCopy(lo) && Global(lo % 0x4000_0000) == Global(lo)
  {
    var q, x := lo / 0x4000_0000, lo % 0x4000_0000;
    Euclid(lo, 0x400_0000, 0x10 * q + x / 0x400_0000, x % 0x400_0000);
    Euclid(lo, 2, 0x2000_0000 * q + x / 2, x % 2);
  }

  /** The entry covers exactly its two pages, for its address space unless both halves are global. */
  lemma WrittenCovers(m: SoftTlb.Mmu, v: u32, k: nat, lo0: u32, lo1: u32, i: nat, va: u32, hi: nat)
    requires k <= 6 && i < ENTRIES
    ensures Matches(Written(m, v, k, lo0, lo1, i).es[i], SignExtend(va), hi) <==>
      va / Span(k) == v / Span(k) && ((lo0 % 2 == 1 && lo1 % 2 == 1) || hi % 0x100 == v % 0x100)
  {
    hide Written, Matches, SignExtend, SoftTlb.EntryHiWritten, Span, Mask, SoftTlb.Coherent;
    WrittenIs(m, v, k, lo0, lo1, i);
    EntryCovers(Written(m, v, k, lo0, lo1, i).c.(lo0 := lo0, lo1 := lo1), k, v, va, hi);
  }

  /** A mapped access to one of the two pages is answered by that page's EntryLo: the even page by the first, the odd one
      by the second; unless an entry with a lower index covers the address too. Both callers of the page caches. */
  lemma WrittenAnswers(m: SoftTlb.Mmu, v: u32, k: nat, lo0: u32, lo1: u32, i: nat, va: u32, size: nat, a: Access, helper: bool)
    requires k <= 6 && i < ENTRIES && SoftTlb.DirectMap(va).None? && va / Span(k) == v / Span(k)
    requires forall j :: 0 <= j < i ==> !Matches(m.es[j], SignExtend(va), v)
    ensures var r := SoftTlb.Step(Written(m, v, k, lo0, lo1, i), SoftTlb.Op.Translate(va, size, a, helper)).1;
      r.Some? && Answers(if va / Size(k) % 2 == 0 then lo0 else lo1, k, va, a, r.value)
  {
    hide Written, Matches, SignExtend, SoftTlb.EntryHiWritten, Span, Size, Mask, SoftTlb.Coherent, Translate, Answers,
      SoftTlb.ResolveHelper, SoftTlb.ResolveCached;
    var m' := Written(m, v, k, lo0, lo1, i);
    WrittenIs(m, v, k, lo0, lo1, i);
    WrittenCovers(m, v, k, lo0, lo1, i, va, m'.c.hi);
    LongAsid(v);
    FoundFirst(m, m', v, i, va);
    EntryAnswers(m'.c.(lo0 := lo0, lo1 := lo1), k, va, a);
    SoftTlb.StepCoherent(m', SoftTlb.Op.Translate(va, size, a, helper));
  }

  lemma FoundFirst(m: SoftTlb.Mmu, m': SoftTlb.Mmu, v: u32, i: nat, va: u32)
    requires i < ENTRIES && forall j :: 0 <= j < i ==> !Matches(m.es[j], SignExtend(va), v) && m'.es[j] == m.es[j]
    requires Matches(m'.es[i], SignExtend(va), m'.c.hi) && m'.c.hi % 0x100 == v % 0x100
    ensures Lookup(m'.es, SignExtend(va), m'.c.hi) == Some(i)
  {
    hide SignExtend, Vpn;
    forall j | 0 <= j < i ensures !Matches(m'.es[j], SignExtend(va), m'.c.hi) {
      assert !Matches(m.es[j], SignExtend(va), v);
    }
    LookupIs(m'.es, SignExtend(va), m'.c.hi, i);
  }

  lemma LookupIs(es: Entries, x: nat, hi: nat, i: nat)
    requires i < ENTRIES && Matches(es[i], x, hi) && forall j :: 0 <= j < i ==> !Matches(es[j], x, hi)
    ensures Lookup(es, x, hi) == Some(i)
  {
    hide Matches;
  }

  /** A TLB exception leaves the registers for a refill: an entry written with the EntryHi it leaves, of any page size,
      covers the address that missed; BadVAddr is that address, and Context points at its pair in a page table. */
  lemma RefillCovers(c: Cop0, va: u32, k: nat, lo0: nat, lo1: nat)
    requires k <= 6
    ensures var c' := OnException(c, SignExtend(va));
      && c'.badVaddr == SignExtend(va) && c'.hi % 0x100 == c.hi % 0x100
      && c'.context / 0x80_0000 == c.context / 0x80_0000 && c'.context % 0x80_0000 == va / 0x2000 * 0x10
      && Matches(EntryOf(c'.(pageMask := Mask(k), lo0 := lo0, lo1 := lo1)), SignExtend(va), c'.hi)
  {
    var c' := OnException(c, SignExtend(va));
    var t := va / 0x2000 * 0x2000 + c.hi % 0x100;
    ExceptionHi(c, va, t);
    ContextField(c, va);
    hide OnException, SignExtend, SoftTlb.EntryHiWritten, Matches, Mask, Span;
    EntryCovers(c'.(pageMask := Mask(k), lo0 := lo0, lo1 := lo1), k, t, va, c'.hi);
    TaggedOf(va, t, k);
    LongAsid(t);
  }

  lemma TaggedOf(va: u32, t: nat, k: nat)
    requires t / 0x2000 == va / 0x2000
    ensures t / Span(k) == va / Span(k)
  {
    hide Span;
    SpanOf(va / 0x2000, va % 0x2000, k);
    SpanOf(t / 0x2000, t % 0x2000, k);
  }

  lemma ExceptionHi(c: Cop0, va: u32, t: nat)
    requires t == va / 0x2000 * 0x2000 + c.hi % 0x100
    ensures t < WORD && t / 0x2000 == va / 0x2000 && t % 0x100 == c.hi % 0x100
    ensures OnException(c, SignExtend(va)).hi == SoftTlb.EntryHiWritten(SignExtend(t))
  {
    var q, asid := va / 0x2000, c.hi % 0x100;
    var x, y := SignExtend(va), SignExtend(t);
    Euclid(t, 0x2000, q, asid);
    Euclid(t, 0x100, 0x20 * q, asid);
    if va < 0x8000_0000 {
      Euclid(q, 0x800_0000, 0, q);
      Euclid(x, 0x4000_0000_0000_0000, 0, x);
    } else {
      Euclid(x, 0x2000, q + 0x7_FFFF_FFF8_0000, va % 0x2000);
      Euclid(y, 0x2000, q + 0x7_FFFF_FFF8_0000, asid);
      Euclid(q + 0x7_FFFF_FFF8_0000, 0x800_0000, 0xFF_FFFF, q + 0x7F8_0000);
      Euclid(x, 0x4000_0000_0000_0000, 3, x - 0xC000_0000_0000_0000);
      Euclid(y, 0x4000_0000_0000_0000, 3, y - 0xC000_0000_0000_0000);
      Euclid(y, 0x100, 0x20 * q + 0xFF_FFFF_FF00_0000, asid);
    }
  }

  lemma ContextField(c: Cop0, va: u32)
    ensures var c' := OnException(c, SignExtend(va));
      c'.context / 0x80_0000 == c.context / 0x80_0000 && c'.context % 0x80_0000 == va / 0x2000 * 0x10
  {
    var q, x := va / 0x2000, SignExtend(va);
    if va < 0x8000_0000 {
      Euclid(q, 0x8_0000, 0, q);
    } else {
      Euclid(x, 0x2000, q + 0x7_FFFF_FFF8_0000, va % 0x2000);
      Euclid(q + 0x7_FFFF_FFF8_0000, 0x8_0000, 0xFFFF_FFFF, q);
    }
    var c' := OnException(c, x);
    Euclid(c'.context, 0x80_0000, c.context / 0x80_0000, q * 0x10);
  }

  /** TLBP with the EntryHi an entry was written with finds it, unless a lower one covers the address too. */
  lemma ProbeFinds(m: SoftTlb.Mmu, v: u32, k: nat, lo0: u32, lo1: u32, i: nat)
    requires k <= 6 && i < ENTRIES
    ensures var m' := Written(m, v, k, lo0, lo1, i);
      (forall j :: 0 <= j < i ==> !Matches(m.es[j], m'.c.hi, m'.c.hi)) ==> SoftTlb.Step(m', SoftTlb.Tlbp).0.c.index == i
  {
    hide Written, Matches, SoftTlb.EntryHiWritten, SignExtend, Mask, SoftTlb.Coherent, Span;
    var m' := Written(m, v, k, lo0, lo1, i);
    WrittenIs(m, v, k, lo0, lo1, i);
    MatchesIs(m'.c.(lo0 := lo0, lo1 := lo1), k, m'.c.hi, m'.c.hi);
    if forall j :: 0 <= j < i ==> !Matches(m.es[j], m'.c.hi, m'.c.hi) {
      LookupIs(m'.es, m'.c.hi, m'.c.hi, i);
    }
  }
}
