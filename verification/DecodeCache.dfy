/** The interpreter's cache of decoded instructions, and the writers of RDRAM that have to invalidate it
    (src/cpu/cached_interp.cpp:43-137, src/memory/bus.cpp:331-349, src/mmio/pi.cpp:125-178, src/rcp/rsp.cpp:786-818). */
module DecodeCache {
  import opened Bits
  import opened ByteOrder
  import opened Common
  import D = SpDma
  import CC = CodeCache

  const SIZE: nat := D.SIZE

  /** An entry is filled when it has a handler; `Handler` names the one the decoder selects for a word. */
  datatype Entry = Empty | Filled(word: nat, handler: nat)

  type Page = p: seq<Entry> | |p| == WORDS witness seq(WORDS, _ => Empty)

  /** The hint is a page, and the address last looked up in it. */
  datatype Cache = Cache(pages: map<nat, Page>, hintPage: Option<nat>, hintPaddr: nat)

  datatype Decoder = Decoder(handler: nat -> nat)

  function Blank(): Page { seq(WORDS, _ => Empty) }

  function Word(p: nat): (w: nat)
    ensures w < WORDS
  {
    p % PAGE / 4
  }

  function Slot(c: Cache, p: nat): Entry { if p / PAGE in c.pages then c.pages[p / PAGE][Word(p)] else Empty }

  predicate InRange(page: nat, paddr: nat, length: nat) {
    length > 0 && paddr / PAGE <= page <= LastByte(paddr, length) / PAGE
  }

  /** A page is in range when some byte of the range lies on it. */
  lemma InRangeIsAByte(page: nat, paddr: nat, length: nat)
    requires paddr < SPACE
    ensures InRange(page, paddr, length) <==>
      exists a :: paddr <= a < paddr + length && a < SPACE && CC.OnPage(a, page)
  {
    if length > 0 { CC.ByteOfPage(page, paddr, LastByte(paddr, length)); }
  }

  function InvalidatePage(c: Cache, page: nat): Cache {
    if page !in c.pages then c
    else Cache(c.pages[page := Blank()], if c.hintPage == Some(page) then None else c.hintPage, c.hintPaddr)
  }

  /** Page by page, from the first. */
  function InvalidateFrom(c: Cache, page: nat, last: nat): Cache
    decreases last + 1 - page
  {
    if page > last then c else InvalidateFrom(InvalidatePage(c, page), page + 1, last)
  }

  function InvalidateRange(c: Cache, paddr: nat, length: nat): Cache {
    if length == 0 then c else InvalidateFrom(c, paddr / PAGE, LastByte(paddr, length) / PAGE)
  }

  function TryHit(c: Cache, p: nat): (Cache, Entry) {
    if c.hintPage.Some? && c.hintPaddr == p && c.hintPage.value in c.pages && c.pages[c.hintPage.value][Word(p)].Filled? then
      (c, c.pages[c.hintPage.value][Word(p)])
    else if Slot(c, p).Filled? then (c.(hintPage := Some(p / PAGE), hintPaddr := p), Slot(c, p))
    else (c, Empty)
  }

  function Fill(c: Cache, p: nat, e: Entry): Cache {
    var page := if p / PAGE in c.pages then c.pages[p / PAGE] else Blank();
    Cache(c.pages[p / PAGE := page[Word(p) := e]], Some(p / PAGE), p)
  }

  function Decoded(d: Decoder, word: nat): Entry { Filled(word, d.handler(word)) }

  /** What the bus reads: RDRAM, or whatever the device at the address answers. */
  function WordAt(rdram: D.Rdram, p: nat, elsewhere: nat): nat { if p < SIZE then Host32(rdram, p) else elsewhere }

  /** The fetch of one instruction: a hit, or a decode and a fill with the word read. */
  function Fetch(d: Decoder, word: nat, c: Cache, p: nat): (Cache, Entry) {
    var (c', e) := TryHit(c, p);
    if e.Filled? then (c', e) else (Fill(c', p, Decoded(d, word)), Decoded(d, word))
  }

  // ---- Coherence ------------------------------------------------------------------------------------

  predicate Right(d: Decoder, rdram: D.Rdram, p: nat, e: Entry) {
    e.Filled? ==> e == Decoded(d, Host32(rdram, p))
  }

  /** Every filled entry of an aligned RDRAM address holds its word and that word's handler, and the hint is the
      page of its address. */
  ghost predicate Coherent(d: Decoder, rdram: D.Rdram, c: Cache) {
    && (forall p: nat :: p % 4 == 0 && p + 4 <= SIZE ==> Right(d, rdram, p, Slot(c, p)))
    && (c.hintPage.Some? ==> c.hintPage.value in c.pages && c.hintPage.value == c.hintPaddr / PAGE)
  }

  lemma {:induction false} InvalidatedSlots(c: Cache, page: nat, last: nat, p: nat)
    ensures Slot(InvalidateFrom(c, page, last), p) == if page <= p / PAGE <= last then Empty else Slot(c, p)
    decreases last + 1 - page
  {
    hide Word;
    if page <= last { InvalidatedSlots(InvalidatePage(c, page), page + 1, last, p); }
  }

  ghost predicate HintOk(c: Cache) { c.hintPage.Some? ==> c.hintPage.value in c.pages && c.hintPage.value == c.hintPaddr / PAGE }

  lemma {:induction false} InvalidatedHint(c: Cache, page: nat, last: nat)
    requires HintOk(c)
    ensures HintOk(InvalidateFrom(c, page, last))
    decreases last + 1 - page
  {
    if page <= last { InvalidatedHint(InvalidatePage(c, page), page + 1, last); }
  }

  /** Bytes change only on the pages of a range. */
  ghost predicate ChangedIn(rdram: D.Rdram, rdram': D.Rdram, paddr: nat, length: nat) {
    forall i :: 0 <= i < SIZE && !InRange(i / PAGE, paddr, length) ==> rdram'[i] == rdram[i]
  }

  /** A writer that invalidates the pages it changes keeps the cache right. */
  lemma InvalidationKeeps(d: Decoder, rdram: D.Rdram, rdram': D.Rdram, c: Cache, paddr: nat, length: nat)
    requires Coherent(d, rdram, c) && ChangedIn(rdram, rdram', paddr, length)
    ensures Coherent(d, rdram', InvalidateRange(c, paddr, length))
  {
    hide Slot, Host32, InvalidateFrom;
    var c' := InvalidateRange(c, paddr, length);
    if length > 0 { InvalidatedHint(c, paddr / PAGE, LastByte(paddr, length) / PAGE); }
    forall p: nat | p % 4 == 0 && p + 4 <= SIZE ensures Right(d, rdram', p, Slot(c', p)) {
      assert Right(d, rdram, p, Slot(c, p));
      if length > 0 { InvalidatedSlots(c, paddr / PAGE, LastByte(paddr, length) / PAGE, p); }
      if !InRange(p / PAGE, paddr, length) { SameWord(rdram, rdram', p, paddr, length); }
    }
  }

  lemma SameWord(rdram: D.Rdram, rdram': D.Rdram, p: nat, paddr: nat, length: nat)
    requires ChangedIn(rdram, rdram', paddr, length) && p % 4 == 0 && p + 4 <= SIZE && !InRange(p / PAGE, paddr, length)
    ensures Host32(rdram', p) == Host32(rdram, p)
  {
    hide InRange;
    PageOfWord(p, 0); PageOfWord(p, 1); PageOfWord(p, 2); PageOfWord(p, 3);
  }

  /** The bytes of an aligned word lie on its page. */
  lemma PageOfWord(p: nat, j: nat)
    requires p % 4 == 0 && j < 4
    ensures (p + j) / PAGE == p / PAGE
  {
    var w := p / 4;
    Euclid(p + j, PAGE, w / 0x400, 4 * (w % 0x400) + j);
    Euclid(p, PAGE, w / 0x400, 4 * (w % 0x400));
  }

  /** A fetch at any aligned address, in RDRAM or not, keeps the cache right, and in RDRAM it gets the current word. */
  lemma FetchKeeps(d: Decoder, rdram: D.Rdram, c: Cache, p: nat, elsewhere: nat)
    requires Coherent(d, rdram, c) && p % 4 == 0
    ensures var (c', e) := Fetch(d, WordAt(rdram, p, elsewhere), c, p);
      Coherent(d, rdram, c') && (p < SIZE ==> e == Decoded(d, Host32(rdram, p)))
  {
    hide Host32, Decoded;
    var (c', e) := Fetch(d, WordAt(rdram, p, elsewhere), c, p);
    if p < SIZE {
      LastWord(p);
      assert Right(d, rdram, p, Slot(c, p));
    }
    forall q: nat | q % 4 == 0 && q + 4 <= SIZE ensures Right(d, rdram, q, Slot(c', q)) {
      assert Right(d, rdram, q, Slot(c, q));
      SameSlot(p, q);
    }
  }

  lemma LastWord(p: nat)
    requires p % 4 == 0 && p < SIZE
    ensures p + 4 <= SIZE
  {}

  lemma SameSlot(p: nat, q: nat)
    requires p % 4 == 0 && q % 4 == 0
    ensures p / PAGE == q / PAGE && Word(p) == Word(q) <==> p == q
  {
    SplitAddress(p);
    SplitAddress(q);
    hide Word;
  }

  lemma SplitAddress(p: nat)
    requires p % 4 == 0
    ensures p == p / PAGE * PAGE + 4 * Word(p)
  {
    var w := p / 4;
    Euclid(p, PAGE, w / WORDS, 4 * (w % WORDS));
    Euclid(4 * (w % WORDS), 4, w % WORDS, 0);
  }

  // ---- The writers ----------------------------------------------------------------------------------

  predicate Aligned(w: Width, p: nat) { p % w.Size() == 0 && p + w.Size() <= SIZE }

  lemma StoreChanges(rdram: D.Rdram, w: Width, p: nat, v: u64)
    requires Aligned(w, p)
    ensures ChangedIn(rdram, Write(rdram, w, p, v), p, w.Size())
  {
    hide Write, InRange;
    if w.W16? { EvenPlace(p); }
    forall i | 0 <= i < SIZE && !InRange(i / PAGE, p, w.Size()) ensures Write(rdram, w, p, v)[i] == rdram[i] {
      OutsideWord(i, p, w.Size());
      ElsewhereKept(rdram, w, p, v, i);
    }
  }

  lemma ElsewhereKept(rdram: D.Rdram, w: Width, p: nat, v: u64, i: nat)
    requires w.W16? ==> p % 4 == 0 || p % 4 == 2
    requires i < SIZE && (i < p / 4 * 4 || i >= p / 4 * 4 + 4) && (i < p || i >= p + w.Size())
    ensures Write(rdram, w, p, v)[i] == rdram[i]
  {
    hide ByteAddress, HalfAddress;
    match w
    case W8 => Mirror(p);
    case W16 => Mirror(p);
    case W32 =>
    case W64 =>
  }

  lemma EvenPlace(p: nat)
    requires p % 2 == 0
    ensures p % 4 == 0 || p % 4 == 2
  {
    var q, r := p / 4, p % 4;
    Euclid(p, 2, 2 * q + r / 2, r % 2);
  }

  /** A byte off the pages of an aligned access is in none of its words. */
  lemma OutsideWord(i: nat, p: nat, n: nat)
    requires n == 1 || n == 2 || n == 4 || n == 8
    requires p % n == 0 && p + n <= SIZE && !InRange(i / PAGE, p, n)
    ensures i < p / 4 * 4 || i >= p / 4 * 4 + 4
    ensures i < p || i >= p + n
  {
    hide InRange;
    PageOf(i, p, n);
    FirstPage(p, n);
  }

  lemma FirstPage(p: nat, n: nat)
    requires n > 0
    ensures p < SIZE ==> InRange(p / PAGE, p, n)
  {}

  lemma PageOf(i: nat, p: nat, n: nat)
    requires n == 1 || n == 2 || n == 4 || n == 8
    requires p % n == 0
    ensures p / 4 * 4 <= i < p / 4 * 4 + 4 ==> i / PAGE == p / PAGE
    ensures p <= i < p + n ==> i / PAGE == p / PAGE
  {
    var w := 4 * (p / 4);
    Euclid(w, 4, p / 4, 0);
    PageOfWord(w, p - w);
    if w <= i < w + 4 { PageOfWord(w, i - w); }
    if p <= i < p + n && i >= w + 4 {
      Aligned8(p, n);
      var d := p / 8;
      Euclid(p, PAGE, d / 0x200, 8 * (d % 0x200));
      Euclid(i, PAGE, d / 0x200, 8 * (d % 0x200) + (i - p));
    }
  }

  /** Only a doubleword reaches past the word its address lies in. */
  lemma Aligned8(p: nat, n: nat)
    requires (n == 1 || n == 2 || n == 4 || n == 8) && p % n == 0
    ensures p + n > p / 4 * 4 + 4 ==> n == 8 && p % 8 == 0
  {
    var q, r := p / 4, p % 4;
    if n == 2 { Euclid(p, 2, 2 * q + r / 2, r % 2); }
  }

  /** Cartridge bytes go to mirrored positions, modulo the size of RDRAM. */
  function PiBytes(rdram: D.Rdram, data: seq<byte>, dram: nat, n: nat): D.Rdram
    requires n <= |data|
  {
    if n == 0 then rdram
    else
      var rest := PiBytes(rdram, data, dram, n - 1);
      Mirror((dram + (n - 1)) % SIZE);
      rest[ByteAddress((dram + (n - 1)) % SIZE) := data[n - 1]]
  }

  /** The copy loop of PI DMA. */
  method CopyFromCartridge(rdram: array<byte>, data: seq<byte>, dram: nat)
    requires rdram.Length == SIZE
    modifies rdram
    ensures rdram[..] == PiBytes(old(rdram[..]), data, dram, |data|)
  {
    hide ByteAddress;
    for i := 0 to |data|
      invariant rdram[..] == PiBytes(old(rdram[..]), data, dram, i)
    {
      Mirror((dram + i) % SIZE);
      rdram[ByteAddress((dram + i) % SIZE)] := data[i];
    }
  }

  lemma {:induction false} PiChanges(rdram: D.Rdram, data: seq<byte>, dram: nat, n: nat, length: nat)
    requires n <= |data| && n <= length && dram + length <= SIZE
    ensures ChangedIn(rdram, PiBytes(rdram, data, dram, n), dram, length)
  {
    hide ByteAddress, InRange;
    if n > 0 {
      var p := dram + (n - 1);
      PiChanges(rdram, data, dram, n - 1, length);
      Euclid(p, SIZE, 0, p);
      Mirror(p);
      SamePage(p, ByteAddress(p), dram, length);
    }
  }

  lemma SamePage(p: nat, i: nat, dram: nat, length: nat)
    requires dram <= p < dram + length <= SIZE && i / 4 == p / 4
    ensures InRange(i / PAGE, dram, length)
  {
    var w := 4 * (p / 4);
    Euclid(w, 4, p / 4, 0);
    PageOfWord(w, p - w);
    PageOfWord(w, i - w);
    DivOrder(dram, p, PAGE);
    DivOrder(p, LastByte(dram, length), PAGE);
  }

  /** The length the DMA reports to the caches. */
  function Extent(t: D.Transfer): nat { t.rows * (t.length + t.skip) }

  /** A strided DMA writes inside the range it reports, as long as that does not wrap. */
  lemma {:induction false} RowsChange(rdram: D.Rdram, mem: D.Local, t: D.Transfer, from: nat, to: nat)
    requires t.Valid() && from <= t.d && t.d + Extent(t) <= to && to <= 0x100_0000
    ensures forall i :: 0 <= i < SIZE && !(from <= i < to) ==> D.WriteRows(rdram, mem, t)[i] == rdram[i]
    decreases t.rows
  {
    if t.rows > 0 {
      hide D.WriteRow, D.NextDram, Extent, D.Transfer.Next;
      NextExtent(t);
      var row := D.WriteRow(rdram, mem, t.imem, t.d, t.m, t.length);
      forall i | 0 <= i < SIZE && !(from <= i < to) ensures row[i] == rdram[i] {
        D.WriteRowAt(rdram, mem, t.imem, t.d, t.m, t.length, i);
      }
      if t.rows > 1 {
        NextPlace(t);
        RowsChange(row, mem, t.Next(), from, to);
      }
    }
  }

  lemma NextExtent(t: D.Transfer)
    requires t.Valid() && t.rows > 0
    ensures Extent(t) == t.length + t.skip + Extent(t.Next()) && (t.rows > 1 ==> Extent(t.Next()) >= t.length + t.skip)
  {
    Strides(t.rows, t.length + t.skip);
  }

  lemma NextPlace(t: D.Transfer)
    requires t.Valid() && t.rows > 0 && t.d + t.length + t.skip < 0x100_0000
    ensures t.d <= t.Next().d <= t.d + t.length + t.skip && t.Next().rows == t.rows - 1
  {
    NoWrap(t.d + t.length + t.skip);
  }

  lemma Strides(rows: nat, stride: nat)
    requires rows > 0
    ensures rows * stride == stride + (rows - 1) * stride && (rows - 1) * stride >= 0
    ensures rows > 1 ==> (rows - 1) * stride >= stride
  {}

  lemma NoWrap(x: nat)
    requires x < 0x100_0000
    ensures x - 8 < x / 8 % 0x20_0000 * 8 <= x
  {
    Euclid(x / 8, 0x20_0000, 0, x / 8);
  }

  lemma BytesInRange(i: nat, paddr: nat, length: nat)
    requires paddr <= i < paddr + length <= SPACE
    ensures InRange(i / PAGE, paddr, length)
  {
    DivOrder(paddr, i, PAGE);
    DivOrder(i, LastByte(paddr, length), PAGE);
  }

  lemma SpDmaChanges(rdram: D.Rdram, mem: D.Local, t: D.Transfer)
    requires t.Valid() && t.d + Extent(t) <= 0x100_0000
    ensures ChangedIn(rdram, D.WriteRows(rdram, mem, t), t.d, Extent(t))
  {
    hide D.WriteRows, InRange;
    var n := Extent(t);
    RowsChange(rdram, mem, t, t.d, t.d + n);
    forall i | 0 <= i < SIZE && !InRange(i / PAGE, t.d, n) ensures D.WriteRows(rdram, mem, t)[i] == rdram[i] {
      if t.d <= i < t.d + n { BytesInRange(i, t.d, n); }
    }
  }

  // ---- Every run ------------------------------------------------------------------------------------

  datatype Op =
    | Store(w: Width, p: nat, v: u64)
    | PiDma(dram: nat, data: seq<byte>)
    | SpDma(mem: D.Local, t: D.Transfer)
    | Execute(p: nat, elsewhere: nat)
    | Clear

  /** Naturally aligned stores and fetches, and DMA that does not wrap. */
  predicate Proper(op: Op) {
    match op
    case Store(w, p, _) => Aligned(w, p)
    case PiDma(dram, data) => dram + |data| <= SIZE
    case SpDma(_, t) => t.Valid() && t.d + Extent(t) <= 0x100_0000
    case Execute(p, _) => p % 4 == 0
    case Clear => true
  }

  datatype System = System(rdram: D.Rdram, cache: Cache)

  function PiWrite(s: System, dram: nat, data: seq<byte>): System {
    System(PiBytes(s.rdram, data, dram, |data|), InvalidateRange(s.cache, dram, |data|))
  }

  function Step(d: Decoder, s: System, op: Op): System
    requires op.SpDma? ==> op.t.Valid()
  {
    match op
    case Store(w, p, v) => System(Write(s.rdram, w, p, v), InvalidateRange(s.cache, p, w.Size()))
    case PiDma(dram, data) => PiWrite(s, dram, data)
    case SpDma(mem, t) => System(D.WriteRows(s.rdram, mem, t), InvalidateRange(s.cache, t.d, Extent(t)))
    case Execute(p, elsewhere) => s.(cache := Fetch(d, WordAt(s.rdram, p, elsewhere), s.cache, p).0)
    case Clear => s.(cache := Cache(map[], None, SPACE - 1))
  }

  lemma StoreKeeps(d: Decoder, s: System, w: Width, p: nat, v: u64)
    requires Coherent(d, s.rdram, s.cache) && Aligned(w, p)
    ensures Coherent(d, Write(s.rdram, w, p, v), InvalidateRange(s.cache, p, w.Size()))
  {
    hide Coherent, ChangedIn, InvalidateRange, Write;
    StoreChanges(s.rdram, w, p, v);
    InvalidationKeeps(d, s.rdram, Write(s.rdram, w, p, v), s.cache, p, w.Size());
  }

  lemma PiDmaKeeps(d: Decoder, s: System, dram: nat, data: seq<byte>)
    requires Coherent(d, s.rdram, s.cache) && dram + |data| <= SIZE
    ensures Coherent(d, PiWrite(s, dram, data).rdram, PiWrite(s, dram, data).cache)
  {
    hide Coherent, ChangedIn, InvalidateRange, PiBytes;
    PiChanges(s.rdram, data, dram, |data|, |data|);
    InvalidationKeeps(d, s.rdram, PiBytes(s.rdram, data, dram, |data|), s.cache, dram, |data|);
  }

  lemma SpDmaKeeps(d: Decoder, s: System, mem: D.Local, t: D.Transfer)
    requires Coherent(d, s.rdram, s.cache) && t.Valid() && t.d + Extent(t) <= 0x100_0000
    ensures Coherent(d, D.WriteRows(s.rdram, mem, t), InvalidateRange(s.cache, t.d, Extent(t)))
  {
    hide Coherent, ChangedIn, InvalidateRange, D.WriteRows, Extent;
    SpDmaChanges(s.rdram, mem, t);
    InvalidationKeeps(d, s.rdram, D.WriteRows(s.rdram, mem, t), s.cache, t.d, Extent(t));
  }

  lemma StepKeeps(d: Decoder, s: System, op: Op)
    requires Coherent(d, s.rdram, s.cache) && Proper(op)
    ensures Coherent(d, Step(d, s, op).rdram, Step(d, s, op).cache)
  {
    hide Coherent, InvalidateRange, Write, PiWrite, Fetch, WordAt, D.WriteRows, Aligned, Extent;
    match op
    case Store(w, p, v) => StoreKeeps(d, s, w, p, v);
    case PiDma(dram, data) => PiDmaKeeps(d, s, dram, data);
    case SpDma(mem, t) => SpDmaKeeps(d, s, mem, t);
    case Execute(p, elsewhere) => FetchKeeps(d, s.rdram, s.cache, p, elsewhere);
    case Clear => ClearedIsCoherent(d, s.rdram);
  }

  lemma ClearedIsCoherent(d: Decoder, rdram: D.Rdram)
    ensures Coherent(d, rdram, Cache(map[], None, SPACE - 1))
  {}

  function Run(d: Decoder, s: System, ops: seq<Op>): System
    requires forall i :: 0 <= i < |ops| ==> Proper(ops[i])
    decreases |ops|
  {
    if ops == [] then s
    else
      assert Proper(ops[0]);
      Run(d, Step(d, s, ops[0]), ops[1..])
  }

  /** After any run of stores, DMA and cached execution in RDRAM and elsewhere, what the cache hands out for an RDRAM
      address is the word held there now, decoded. */
  lemma {:induction false} FetchIsCurrent(d: Decoder, s: System, ops: seq<Op>, p: nat)
    requires Coherent(d, s.rdram, s.cache) && forall i :: 0 <= i < |ops| ==> Proper(ops[i])
    requires p % 4 == 0 && p + 4 <= SIZE
    ensures var s' := Run(d, s, ops);
      Fetch(d, Host32(s'.rdram, p), s'.cache, p).1 == Decoded(d, Host32(s'.rdram, p))
    decreases |ops|
  {
    hide Coherent, Step, Fetch, Host32, Decoded;
    if ops == [] {
      FetchKeeps(d, s.rdram, s.cache, p, 0);
    } else {
      assert Proper(ops[0]);
      StepKeeps(d, s, ops[0]);
      FetchIsCurrent(d, Step(d, s, ops[0]), ops[1..], p);
    }
  }

  // ---- PI DMA past the end of RDRAM -----------------------------------------------------------------

  /** PI DMA invalidates without wrapping. When the copy wraps, the pages at the start are missed, unless the copy
      began on the first page. */
  lemma PiDmaCoherentIff(d: Decoder, dram: nat, n: nat)
    requires dram < SIZE && n <= 0x100_0000
    ensures (forall s: System, data: seq<byte> :: |data| == n && Coherent(d, s.rdram, s.cache) ==>
               Coherent(d, PiWrite(s, dram, data).rdram, PiWrite(s, dram, data).cache))
      <==> (dram + n <= SIZE || dram < PAGE)
  {
    hide Coherent, InvalidateRange, PiBytes;
    if dram + n <= SIZE || dram < PAGE {
      forall s: System, data: seq<byte> | |data| == n && Coherent(d, s.rdram, s.cache)
        ensures Coherent(d, PiWrite(s, dram, data).rdram, PiWrite(s, dram, data).cache)
      {
        if dram + n <= SIZE {
          PiChanges(s.rdram, data, dram, n, n);
        } else {
          AllPagesInRange(s.rdram, PiBytes(s.rdram, data, dram, n), dram, n);
        }
        InvalidationKeeps(d, s.rdram, PiBytes(s.rdram, data, dram, n), s.cache, dram, n);
      }
    } else {
      var s, data := WrapWitness(d, n);
      MissedPage(d, s, data, dram);
    }
  }

  lemma AllPagesInRange(rdram: D.Rdram, rdram': D.Rdram, dram: nat, n: nat)
    requires dram < PAGE && dram + n > SIZE
    ensures ChangedIn(rdram, rdram', dram, n)
  {}

  /** Empty RDRAM, with the first word executed, and a cartridge of ones. */
  lemma WrapWitness(d: Decoder, n: nat) returns (s: System, data: seq<byte>)
    ensures |data| == n && (forall i :: 0 <= i < n ==> data[i] == 1)
    ensures Coherent(d, s.rdram, s.cache) && Slot(s.cache, 0) == Decoded(d, 0)
  {
    data := seq(n, _ => 1);
    var rdram := seq(SIZE, _ => 0);
    var empty := Cache(map[], None, SPACE - 1);
    s := System(rdram, Fetch(d, WordAt(rdram, 0, 0), empty, 0).0);
    hide Coherent;
    ClearedIsCoherent(d, rdram);
    FetchKeeps(d, rdram, empty, 0, 0);
    assert Host32(rdram, 0) == 0;
  }

  lemma {:induction false} OnesStay(rdram: D.Rdram, data: seq<byte>, dram: nat, n: nat, k: nat)
    requires k < n <= |data| && forall i :: 0 <= i < |data| ==> data[i] == 1
    ensures ByteAddress((dram + k) % SIZE) < SIZE && PiBytes(rdram, data, dram, n)[ByteAddress((dram + k) % SIZE)] == 1
  {
    hide ByteAddress;
    Mirror((dram + k) % SIZE);
    Mirror((dram + (n - 1)) % SIZE);
    if k < n - 1 { OnesStay(rdram, data, dram, n - 1, k); }
  }

  lemma MissedPage(d: Decoder, s: System, data: seq<byte>, dram: nat)
    requires PAGE <= dram < SIZE && dram + |data| > SIZE && |data| <= 0x100_0000
    requires forall i :: 0 <= i < |data| ==> data[i] == 1
    requires Slot(s.cache, 0) == Decoded(d, 0)
    ensures !Coherent(d, PiWrite(s, dram, data).rdram, PiWrite(s, dram, data).cache)
  {
    hide PiBytes, InvalidateFrom, ByteAddress, Slot;
    var n := |data|;
    var rdram' := PiBytes(s.rdram, data, dram, n);
    OnesStay(s.rdram, data, dram, n, SIZE - dram);
    Mirror(0);
    assert rdram'[3] == 1;
    assert Host32(rdram', 0) != 0 by { TopByte(rdram'); }
    InvalidatedSlots(s.cache, dram / PAGE, LastByte(dram, n) / PAGE, 0);
    assert !Right(d, rdram', 0, Slot(PiWrite(s, dram, data).cache, 0));
  }

  lemma TopByte(rdram: D.Rdram)
    requires rdram[3] == 1
    ensures Host32(rdram, 0) >= 0x100_0000
  {}

  // ---- Misaligned fetches ---------------------------------------------------------------------------

  /** A fetch keeps the cache right for all contents exactly at aligned addresses: a misaligned one leaves its own
      bytes in the slot of the aligned word. */
  lemma FetchKeepsIffAligned(d: Decoder, p: nat)
    requires p + 4 <= SIZE
    ensures (forall s: System :: Coherent(d, s.rdram, s.cache) ==>
               Coherent(d, s.rdram, Fetch(d, Host32(s.rdram, p), s.cache, p).0))
      <==> p % 4 == 0
  {
    hide Coherent, Fetch;
    if p % 4 == 0 {
      forall s: System | Coherent(d, s.rdram, s.cache)
        ensures Coherent(d, s.rdram, Fetch(d, Host32(s.rdram, p), s.cache, p).0)
      {
        FetchKeeps(d, s.rdram, s.cache, p, 0);
      }
    } else {
      var s := System(seq(SIZE, i => if i == p + 3 then 1 else 0), Cache(map[], None, SPACE - 1));
      ClearedIsCoherent(d, s.rdram);
      Misfilled(d, s.rdram, p);
    }
  }

  lemma Misfilled(d: Decoder, rdram: D.Rdram, p: nat)
    requires p + 4 <= SIZE && p % 4 != 0 && rdram[p + 3] == 1
    requires forall i :: p - p % 4 <= i < p + 3 ==> rdram[i] == 0
    ensures !Coherent(d, rdram, Fetch(d, Host32(rdram, p), Cache(map[], None, SPACE - 1), p).0)
  {
    var q := p - p % 4;
    SlotOfWord(p);
    assert Host32(rdram, q) == 0 && Host32(rdram, p) == 0x100_0000;
    var c := Fetch(d, Host32(rdram, p), Cache(map[], None, SPACE - 1), p).0;
    assert Slot(c, q) == Decoded(d, 0x100_0000);
    assert !Right(d, rdram, q, Slot(c, q));
  }

  /** The slot of a word is that of each of its bytes. */
  lemma SlotOfWord(p: nat)
    ensures var q := p - p % 4; q / PAGE == p / PAGE && Word(q) == Word(p) && q % 4 == 0 && q <= p
  {
    var w, r := p / 4, p % 4;
    Euclid(p - r, 4, w, 0);
    Euclid(p, PAGE, w / WORDS, 4 * (w % WORDS) + r);
    Euclid(p - r, PAGE, w / WORDS, 4 * (w % WORDS));
    Euclid(4 * (w % WORDS) + r, 4, w % WORDS, r);
    Euclid(4 * (w % WORDS), 4, w % WORDS, 0);
  }

  // ---- The cache object -----------------------------------------------------------------------------

  class DecodeCache {
    var pages: map<nat, Page>
    var hintPage: Option<nat>
    var hintPaddr: nat

    function View(): Cache
      reads this
    {
      Cache(pages, hintPage, hintPaddr)
    }

    constructor ()
      ensures View() == Cache(map[], None, SPACE - 1)
    {
      pages, hintPage, hintPaddr := map[], None, SPACE - 1;
    }

    method Clear()
      modifies this
      ensures View() == Cache(map[], None, SPACE - 1)
    {
      hintPage, hintPaddr, pages := None, SPACE - 1, map[];
    }

    method InvalidatePageOf(paddr: nat)
      modifies this`pages, this`hintPage
      ensures View() == InvalidatePage(old(View()), paddr / PAGE)
    {
      var i := paddr / PAGE;
      if i !in pages { return; }
      if hintPage == Some(i) { hintPage := None; }
      pages := pages[i := Blank()];
    }

    method Invalidate(paddr: nat, length: nat)
      requires paddr < SPACE
      modifies this`pages, this`hintPage
      ensures View() == InvalidateRange(old(View()), paddr, length)
    {
      hide InvalidatePage;
      if length == 0 { return; }
      var p, end := paddr / PAGE * PAGE, LastByte(paddr, length);
      while p <= end
        invariant p % PAGE == 0 && paddr / PAGE <= p / PAGE
        invariant InvalidateFrom(View(), p / PAGE, end / PAGE) == InvalidateFrom(old(View()), paddr / PAGE, end / PAGE)
        decreases end + PAGE - p
      {
        InvalidatePageOf(p);
        p := p + PAGE;
      }
    }

    method Hit(p: nat) returns (e: Entry)
      modifies this`hintPage, this`hintPaddr
      ensures (View(), e) == TryHit(old(View()), p)
    {
      if hintPage.Some? && hintPaddr == p && hintPage.value in pages && pages[hintPage.value][Word(p)].Filled? {
        return pages[hintPage.value][Word(p)];
      }
      if p / PAGE !in pages { return Empty; }
      e := pages[p / PAGE][Word(p)];
      if e.Filled? { hintPage, hintPaddr := Some(p / PAGE), p; }
    }

    method Put(p: nat, e: Entry)
      modifies this
      ensures View() == Fill(old(View()), p, e)
    {
      var page := if p / PAGE in pages then pages[p / PAGE] else Blank();
      hintPage, hintPaddr := Some(p / PAGE), p;
      pages := pages[p / PAGE := page[Word(p) := e]];
    }

    /** The fetch in step_one_core. */
    method FetchDecoded(d: Decoder, rdram: D.Rdram, p: nat, elsewhere: nat) returns (e: Entry)
      modifies this
      ensures (View(), e) == Fetch(d, WordAt(rdram, p, elsewhere), old(View()), p)
    {
      hide WordAt;
      e := Hit(p);
      if e.Empty? {
        var word := WordAt(rdram, p, elsewhere);
        e := Filled(word, d.handler(word));
        Put(p, e);
      }
    }
  }
}
