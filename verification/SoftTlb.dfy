/** The software TLB: two direct-mapped caches of page translations, one for loads and one for stores,
    kept in front of direct mapping and the TLB (src/mmu/soft_tlb.cpp, include/mmu/soft_tlb.h,
    include/mmu/mmu.h). */
module SoftTlb {
  import opened Common
  import opened Bits
  import opened Tlb

  const SLOTS: nat := 0x1000
  const NO_VPN: nat := 0xFFFF_FFFF
  const RDRAM_SIZE: nat := 0x80_0000

  type Page = p: u32 | p % 0x1000 == 0

  datatype Slot = Slot(vpn: u32, page: Page)

  type Table = t: seq<Slot> | |t| == SLOTS witness seq(SLOTS, _ => Slot(NO_VPN, 0))

  datatype Mmu = Mmu(es: Entries, c: Cop0, load: Table, store: Table) {
    function TableFor(a: Access): Table { if a.Load? then load else store }
  }

  function InRdram(p: nat, size: nat): bool { p < RDRAM_SIZE && p + size <= RDRAM_SIZE }

  /** A page address has its low 12 bits clear, so or-ing in the offset adds it. */
  function SoftLookup(t: Table, va: u32, size: nat): Option<nat> {
    if size == 0 || va % 0x1000 + size - 1 > 0xFFF then None
    else if t[va / 0x1000 % SLOTS].vpn != va / 0x1000 then None
    else Some(t[va / 0x1000 % SLOTS].page + va % 0x1000)
  }

  function Note(t: Table, va: u32, paddr: u32): Table {
    t[va / 0x1000 % SLOTS := Slot(va / 0x1000, paddr - paddr % 0x1000)]
  }

  function Emptied(t: Table): Table { seq(SLOTS, i requires 0 <= i < SLOTS => t[i].(vpn := NO_VPN)) }

  function Invalidate(m: Mmu): Mmu { m.(load := Emptied(m.load), store := Emptied(m.store)) }

  function DirectMap(va: u32): Option<nat> {
    if va / 0x2000_0000 == 4 || va / 0x2000_0000 == 5 then Some(va % 0x2000_0000) else None
  }

  /** What the hardware makes of an access: KSEG0 and KSEG1 directly, everything else by the TLB. */
  function Resolve(es: Entries, hi: nat, va: u32, a: Access): Result {
    match DirectMap(va)
    case Some(p) => Hit(p)
    case None => Probe(es, hi, va, a)
  }

  function Noted(m: Mmu, va: u32, p: u32, a: Access): Mmu {
    if a.Load? then m.(load := Note(m.load, va, p)) else m.(store := Note(m.store, va, p))
  }

  function Missed(m: Mmu, va: u32): Mmu { m.(c := OnException(m.c, SignExtend(va))) }

  function ResolveAndNote(m: Mmu, va: u32, size: nat, a: Access): (Mmu, Result) {
    match Resolve(m.es, m.c.hi, va, a)
    case Hit(p) => (if InRdram(p, size) then Noted(m, va, p, a) else m, Hit(p))
    case Fail(e) => (Missed(m, va), Fail(e))
  }

  /** resolve_vaddr_cached: what the interpreter's memory operations call. */
  function ResolveCached(m: Mmu, va: u32, size: nat, a: Access): (Mmu, Result) {
    match SoftLookup(m.TableFor(a), va, size)
    case Some(p) => (m, Hit(p))
    case None => ResolveAndNote(m, va, size, a)
  }

  /** The translation part of do_load and do_store: a hit counts only when it lies in RDRAM. */
  function ResolveHelper(m: Mmu, va: u32, size: nat, a: Access): (Mmu, Result) {
    match SoftLookup(m.TableFor(a), va, size)
    case Some(p) => if InRdram(p, size) then (m, Hit(p)) else ResolveAndNote(m, va, size, a)
    case None => ResolveAndNote(m, va, size, a)
  }

  /** MTC0 (a 32-bit value) or DMTC0 to EntryHi. */
  function EntryHiWritten(value: nat): nat {
    if value < WORD
    then (if value >= 0x8000_0000 then 3 * 0x4000_0000_0000_0000 else 0) + value / 0x2000 * 0x2000 + value % 0x100
    else value / 0x4000_0000_0000_0000 * 0x4000_0000_0000_0000 + value / 0x2000 % 0x800_0000 * 0x2000 + value % 0x100
  }

  function WiredWritten(c: Cop0, value: nat): Cop0 {
    var c' := c.(wired := value % 0x40);
    c'.(random := ClampedRandom(c'))
  }

  // ---- Runs -----------------------------------------------------------------------------------

  datatype Op =
    | Translate(va: u32, size: nat, access: Access, helper: bool)
    | Tlbwi | Tlbwr | Tlbr | Tlbp
    | SetEntryHi(value: nat) | SetWired(value: nat) | SetIndex(value: nat)
    | SetPageMask(value: nat) | SetEntryLo(lo0: nat, lo1: nat)
    | Reset

  function ToRegisters(m: Mmu, op: Op): Cop0 {
    match op
    case Tlbr => ReadEntry(m.es, m.c)
    case Tlbp => ProbeIndex(m.es, m.c)
    case SetEntryHi(v) => m.c.(hi := EntryHiWritten(v))
    case SetWired(v) => WiredWritten(m.c, v)
    case SetIndex(v) => m.c.(index := v)
    case SetPageMask(v) => m.c.(pageMask := v / 0x2000 % 0x1000 * 0x2000)
    case SetEntryLo(lo0, lo1) => m.c.(lo0 := lo0 % 0x4000_0000, lo1 := lo1 % 0x4000_0000)
    case _ => m.c
  }

  function WriteEntry(m: Mmu, random: bool): Mmu {
    Invalidate(m.(es := m.es[WriteIndex(m.c, random) := EntryOf(m.c)], c := AfterWrite(m.c, random)))
  }

  /** The MMU and the answer, if the operation asks for a translation. */
  function Step(m: Mmu, op: Op): (Mmu, Option<Result>) {
    match op
    case Translate(va, size, a, helper) =>
      var r := if helper then ResolveHelper(m, va, size, a) else ResolveCached(m, va, size, a);
      (r.0, Some(r.1))
    case Tlbwi => (WriteEntry(m, false), None)
    case Tlbwr => (WriteEntry(m, true), None)
    case SetEntryHi(_) =>
      var m' := m.(c := ToRegisters(m, op));
      (if Asid(m'.c.hi) != Asid(m.c.hi) then Invalidate(m') else m', None)
    case Reset => (Invalidate(m.(es := seq(ENTRIES, _ => EMPTY))), None)
    case _ => (m.(c := ToRegisters(m, op)), None)
  }

  /** The same operation on a machine that has no software TLB. */
  function PlainStep(m: Mmu, op: Op): (Mmu, Option<Result>) {
    match op
    case Translate(va, size, a, _) =>
      (match Resolve(m.es, m.c.hi, va, a)
       case Hit(p) => (m, Some(Hit(p)))
       case Fail(e) => (Missed(m, va), Some(Fail(e))))
    case Tlbwi => (m.(es := m.es[WriteIndex(m.c, false) := EntryOf(m.c)]), None)
    case Tlbwr => (m.(es := m.es[WriteIndex(m.c, true) := EntryOf(m.c)], c := AfterWrite(m.c, true)), None)
    case Reset => (m.(es := seq(ENTRIES, _ => EMPTY)), None)
    case _ => (m.(c := ToRegisters(m, op)), None)
  }

  /** TLBR copies an ASID into EntryHi and flushes nothing, so it may only read back the current ASID. */
  predicate KeepsAsid(m: Mmu, op: Op) { op.Tlbr? ==> Asid(m.es[m.c.index % 0x20].hi) == Asid(m.c.hi) }

  predicate Allowed(m: Mmu, ops: seq<Op>)
    decreases |ops|
  {
    ops != [] ==> KeepsAsid(m, ops[0]) && Allowed(PlainStep(m, ops[0]).0, ops[1..])
  }

  function Answers(m: Mmu, ops: seq<Op>, cached: bool): seq<Option<Result>>
    decreases |ops|
  {
    if ops == [] then []
    else
      var r := if cached then Step(m, ops[0]) else PlainStep(m, ops[0]);
      [r.1] + Answers(r.0, ops[1..], cached)
  }

  // ---- Coherence ------------------------------------------------------------------------------

  predicate Agrees(m: Mmu, va: u32, a: Access) {
    var e := m.TableFor(a)[va / 0x1000 % SLOTS];
    e.vpn == va / 0x1000 ==> Resolve(m.es, m.c.hi, va, a) == Hit(e.page + va % 0x1000)
  }

  /** Every cached page translates as direct mapping or the TLB would, for its own kind of access. */
  ghost predicate Coherent(m: Mmu) {
    forall va: u32, a: Access :: Agrees(m, va, a)
  }

  lemma ResolveByPage(es: Entries, hi: nat, va: u32, vb: u32, a: Access)
    requires SamePage(va, vb)
    ensures SamePageResult(Resolve(es, hi, va, a), Resolve(es, hi, vb, a), va, vb)
  {
    hide Probe;
    if DirectMap(va).None? { ProbeByPage(es, hi, va, vb, a); }
  }

  lemma {:induction false} LookupByAsid(es: Entries, va: nat, hi: nat, hi': nat, from: nat)
    requires from <= ENTRIES && Asid(hi) == Asid(hi')
    ensures Lookup(es, va, hi, from) == Lookup(es, va, hi', from)
    decreases ENTRIES - from
  {
    hide Vpn;
    if from < ENTRIES { LookupByAsid(es, va, hi, hi', from + 1); }
  }

  lemma ResolveByAsid(es: Entries, hi: nat, hi': nat, va: u32, a: Access)
    requires Asid(hi) == Asid(hi')
    ensures Resolve(es, hi, va, a) == Resolve(es, hi', va, a)
  {
    LookupByAsid(es, SignExtend(va), hi, hi', 0);
    hide Lookup, Tlb.Translate;
  }

  lemma InvalidateCoherent(m: Mmu)
    ensures Coherent(Invalidate(m))
  {
    hide Resolve;
  }

  lemma SameAsidCoherent(m: Mmu, c: Cop0)
    requires Coherent(m) && Asid(c.hi) == Asid(m.c.hi)
    ensures Coherent(m.(c := c))
  {
    forall va: u32, a: Access ensures Agrees(m.(c := c), va, a) {
      ResolveByAsid(m.es, m.c.hi, c.hi, va, a);
      assert Agrees(m, va, a);
      hide Resolve;
    }
  }

  lemma NotedCoherent(m: Mmu, va: u32, p: u32, a: Access)
    requires Coherent(m) && Resolve(m.es, m.c.hi, va, a) == Hit(p)
    ensures Coherent(Noted(m, va, p, a))
  {
    var m' := Noted(m, va, p, a);
    forall vb: u32, b: Access ensures Agrees(m', vb, b) {
      assert Agrees(m, vb, b);
      if SamePage(va, vb) { ResolveByPage(m.es, m.c.hi, va, vb, a); }
      hide Resolve;
    }
  }

  /** A cached answer is the hardware's answer, and asking keeps the caches coherent. */
  lemma TranslateCoherent(m: Mmu, va: u32, size: nat, a: Access, helper: bool)
    requires Coherent(m)
    ensures var op := Op.Translate(va, size, a, helper);
      && Step(m, op).1 == PlainStep(m, op).1
      && Step(m, op).0.c == PlainStep(m, op).0.c && Step(m, op).0.es == m.es
      && Coherent(Step(m, op).0)
  {
    hide Resolve, OnException;
    assert Agrees(m, va, a);
    match Resolve(m.es, m.c.hi, va, a)
    case Hit(p) => if p < WORD { NotedCoherent(m, va, p, a); }
    case Fail(_) => ExceptionKeepsAsid(m.c, SignExtend(va)); SameAsidCoherent(m, OnException(m.c, SignExtend(va)));
  }

  lemma ExceptionKeepsAsid(c: Cop0, vaddr: nat)
    ensures Asid(OnException(c, vaddr).hi) == Asid(c.hi)
  {}

  lemma InvalidatedStep(m: Mmu, m': Mmu, op: Op)
    requires !op.Translate? && m' == Invalidate(PlainStep(m, op).0)
    ensures Coherent(m') && m'.es == PlainStep(m, op).0.es && m'.c == PlainStep(m, op).0.c
  {
    hide Resolve, EntryOf, WriteIndex, AfterWrite;
    InvalidateCoherent(PlainStep(m, op).0);
  }

  lemma KeptStep(m: Mmu, op: Op)
    requires Coherent(m) && KeepsAsid(m, op)
    requires !op.Translate? && !op.Tlbwi? && !op.Tlbwr? && !op.Reset?
    requires op.SetEntryHi? ==> Asid(EntryHiWritten(op.value)) == Asid(m.c.hi)
    ensures Coherent(m.(c := ToRegisters(m, op)))
  {
    hide EntryHiWritten, Lookup, Asid;
    SameAsidCoherent(m, ToRegisters(m, op));
  }

  lemma StepCoherent(m: Mmu, op: Op)
    requires Coherent(m) && KeepsAsid(m, op)
    ensures Coherent(Step(m, op).0)
    ensures Step(m, op).1 == PlainStep(m, op).1
    ensures Step(m, op).0.es == PlainStep(m, op).0.es && Step(m, op).0.c == PlainStep(m, op).0.c
  {
    match op
    case Translate(va, size, a, helper) => TranslateCoherent(m, va, size, a, helper);
    case Tlbwi | Tlbwr | Reset => InvalidatedStep(m, Step(m, op).0, op);
    case SetEntryHi(v) =>
      if Asid(EntryHiWritten(v)) != Asid(m.c.hi) { InvalidatedStep(m, Step(m, op).0, op); } else { KeptStep(m, op); }
    case _ => KeptStep(m, op);
  }

  /** In every run, an MMU with the software TLB answers every translation exactly as one without it,
      and leaves the same TLB and registers. */
  lemma {:induction false} CacheIsTransparent(m: Mmu, plain: Mmu, ops: seq<Op>)
    requires Coherent(m) && m.es == plain.es && m.c == plain.c && Allowed(plain, ops)
    ensures Answers(m, ops, true) == Answers(plain, ops, false)
    decreases |ops|
  {
    if ops != [] {
      StepCoherent(m, ops[0]);
      PlainIgnoresTables(m, plain, ops[0]);
      CacheIsTransparent(Step(m, ops[0]).0, PlainStep(plain, ops[0]).0, ops[1..]);
    }
  }

  lemma PlainIgnoresTables(m: Mmu, plain: Mmu, op: Op)
    requires m.es == plain.es && m.c == plain.c
    ensures PlainStep(m, op).1 == PlainStep(plain, op).1
    ensures PlainStep(m, op).0.es == PlainStep(plain, op).0.es && PlainStep(m, op).0.c == PlainStep(plain, op).0.c
    ensures KeepsAsid(m, op) == KeepsAsid(plain, op)
  {
    hide Resolve, EntryOf, WriteIndex, AfterWrite, EntryHiWritten, ProbeIndex, WiredWritten;
  }

  // ---- TLBR ------------------------------------------------------------------------------------

  predicate ReadsAsid(m: Mmu, current: nat, stored: nat) {
    Asid(m.c.hi) == current && Asid(m.es[m.c.index % 0x20].hi) == stored
  }

  /** Entry 1, of address space `current`, maps page 0 onto itself; nothing else is valid, and entry 0 is
      tagged `stored`. */
  predicate StaleEntries(es: Entries, current: nat, stored: nat) {
    && (forall i :: 0 <= i < ENTRIES ==> es[i].valid == (i == 1))
    && es[0].hi == stored
    && es[1] == Entry(true, false, 2, 2, current, 0)
  }

  lemma ZeroPageVpn(v: nat)
    requires v < 0x100
    ensures Vpn(v, 0) == 0
  {
    hide Zip;
    VpnAbovePage(v, 0);
    ZipZero(Or(0, 1));
  }

  lemma {:induction false} NoMatchFrom(es: Entries, va: nat, hi: nat, from: nat)
    requires from <= ENTRIES && forall i :: from <= i < ENTRIES ==> !Matches(es[i], va, hi)
    ensures Lookup(es, va, hi, from) == None
    decreases ENTRIES - from
  {
    hide Matches;
    if from < ENTRIES { NoMatchFrom(es, va, hi, from + 1); }
  }

  lemma StaleLookup(es: Entries, current: nat, stored: nat, hi: nat)
    requires current < 0x100 && stored < 0x100 && hi < 0x100
    requires StaleEntries(es, current, stored)
    ensures Lookup(es, 0, hi) == if hi == current then Some(1) else None
  {
    hide Vpn, Lookup;
    ZeroPageVpn(0);
    ZeroPageVpn(current);
    if hi == current {
      assert Matches(es[1], 0, hi) && !Matches(es[0], 0, hi);
    } else {
      NoMatchFrom(es, 0, hi, 0);
    }
  }

  lemma FirstPage(hi: nat)
    ensures Tlb.Translate(Entry(true, false, 2, 2, hi, 0), 0, Load) == Hit(0)
  {
    hide Zip;
    ZipZero(0x1000);
    ZipZero(0xFFF);
    ZipZero(0);
  }

  lemma StaleBase(es: Entries, current: nat, stored: nat, hi: nat)
    requires current < 0x100 && stored < 0x100 && hi < 0x100
    requires StaleEntries(es, current, stored)
    ensures Resolve(es, hi, 0, Load) == if hi == current then Hit(0) else Fail(Miss)
  {
    hide Lookup, Tlb.Translate;
    StaleLookup(es, current, stored, hi);
    FirstPage(current);
  }

  lemma StaleTranslation(es: Entries, current: nat, stored: nat, hi: nat, va: u32)
    requires current < 0x100 && stored < 0x100 && va < 0x1000 && hi < 0x100
    requires StaleEntries(es, current, stored)
    ensures Resolve(es, hi, va, Load) == if hi == current then Hit(va) else Fail(Miss)
  {
    hide Resolve, StaleEntries;
    StaleBase(es, current, stored, hi);
    ResolveByPage(es, hi, 0, va, Load);
  }

  /** TLBR keeps the caches coherent for every MMU with these two ASIDs exactly when they are equal. */
  lemma TlbrCoherentIffAsidKept(current: nat, stored: nat)
    requires current < 0x100 && stored < 0x100
    ensures (forall m: Mmu :: Coherent(m) && ReadsAsid(m, current, stored) ==> Coherent(Step(m, Tlbr).0))
        <==> current == stored
  {
    hide Resolve, Lookup;
    if current == stored {
      forall m: Mmu | Coherent(m) && ReadsAsid(m, current, stored) ensures Coherent(Step(m, Tlbr).0) {
        StepCoherent(m, Tlbr);
      }
    } else {
      var m := StaleMmu(current, stored);
      StaleCoherent(m, current, stored);
      StaleTranslation(m.es, current, stored, stored, 0);
      hide Resolve, Tlb.Translate, Lookup;
      assert !Agrees(Step(m, Tlbr).0, 0, Load);
    }
  }

  lemma StaleMmu(current: nat, stored: nat) returns (m: Mmu)
    ensures StaleEntries(m.es, current, stored) && m.c.hi == current && m.c.index == 0
    ensures forall i :: 0 <= i < SLOTS ==> m.load[i] == (if i == 0 then Slot(0, 0) else Slot(NO_VPN, 0))
    ensures forall i :: 0 <= i < SLOTS ==> m.store[i] == Slot(NO_VPN, 0)
  {
    var es := seq(ENTRIES, i requires 0 <= i < ENTRIES =>
      if i == 0 then EMPTY.(hi := stored) else if i == 1 then Entry(true, false, 2, 2, current, 0) else EMPTY);
    var load := seq(SLOTS, i requires 0 <= i < SLOTS => if i == 0 then Slot(0, 0) else Slot(NO_VPN, 0));
    m := Mmu(es, Cop0(0, 31, 0, 0, 0, 0, current, 0, 0, 0), load, seq(SLOTS, _ => Slot(NO_VPN, 0)));
  }

  lemma StaleCoherent(m: Mmu, current: nat, stored: nat)
    requires current < 0x100 && stored < 0x100 && StaleEntries(m.es, current, stored) && m.c.hi == current
    requires forall i :: 0 <= i < SLOTS ==> m.load[i] == (if i == 0 then Slot(0, 0) else Slot(NO_VPN, 0))
    requires forall i :: 0 <= i < SLOTS ==> m.store[i] == Slot(NO_VPN, 0)
    ensures Coherent(m)
  {
    forall va: u32, a: Access ensures Agrees(m, va, a) {
      if va < 0x1000 && a.Load? { StaleTranslation(m.es, current, stored, current, va); }
      hide Resolve;
    }
  }
}
