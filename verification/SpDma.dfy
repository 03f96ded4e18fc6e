/** DMA between RDRAM and the RSP's memories (src/rcp/rsp.cpp:753-823). RDRAM and IMEM hold words in host order,
    DMEM holds bytes in logical order; the transfer works on host positions. */
module SpDma {
  import opened Common
  import opened Bits
  import opened ByteOrder
  import SoftTlb

  const SIZE: nat := SoftTlb.RDRAM_SIZE
  const MEM: nat := 0x1000

  /** A 4 KiB memory of the RSP. */
  type Local = m: seq<byte> | |m| == MEM witness seq(MEM, _ => 0)
  type Rdram = m: seq<byte> | |m| == SIZE witness seq(SIZE, _ => 0)

  // ---- The transfer ---------------------------------------------------------------------------------

  /** Where in the host array a local address lives. */
  function Index(imem: bool, addr: nat): nat { if imem then addr else ByteAddress(addr) }

  lemma IndexBound(imem: bool, addr: nat)
    requires addr < MEM
    ensures Index(imem, addr) < MEM
  {
    Mirror(addr);
  }

  function Source(rdram: Rdram, i: nat): byte { if i < SIZE then rdram[i] else 0 }

  /** The first n bytes of a row read from RDRAM. */
  function ReadRow(mem: Local, rdram: Rdram, imem: bool, d: nat, m: nat, n: nat): Local {
    if n == 0 then mem
    else
      var rest := ReadRow(mem, rdram, imem, d, m, n - 1);
      var addr := (m + (n - 1)) % MEM;
      IndexBound(imem, addr);
      rest[Index(imem, addr) := Source(rdram, d + (n - 1))]
  }

  /** The first n bytes of a row written to RDRAM; past its end they are dropped. */
  function WriteRow(rdram: Rdram, mem: Local, imem: bool, d: nat, m: nat, n: nat): Rdram {
    if n == 0 then rdram
    else
      var rest := WriteRow(rdram, mem, imem, d, m, n - 1);
      var addr := (m + (n - 1)) % MEM;
      IndexBound(imem, addr);
      if d + (n - 1) < SIZE then rest[d + (n - 1) := mem[Index(imem, addr)]] else rest
  }

  /** Both address registers are multiples of 8 and wrap. */
  function NextDram(d: nat, length: nat, skip: nat): (r: nat)
    ensures r % 8 == 0
  {
    (d + length + skip) / 8 % 0x20_0000 * 8
  }

  function NextLocal(m: nat, length: nat): (r: nat)
    ensures r % 8 == 0 && r < MEM
  {
    (m + length) / 8 % 0x200 * 8
  }

  /** Registers as a write to SP_RD_LEN or SP_WR_LEN finds them. */
  datatype Transfer = Transfer(imem: bool, d: nat, m: nat, length: nat, skip: nat, rows: nat) {
    predicate Valid() { d % 8 == 0 && m % 8 == 0 && m < MEM && length % 8 == 0 && 0 < length <= MEM }

    function Next(): (t: Transfer)
      requires Valid() && rows > 0
      ensures t.Valid()
    {
      Transfer(imem, NextDram(d, length, skip), NextLocal(m, length), length, skip, rows - 1)
    }
  }

  /** The length register holds one less than the bytes of a row, rounded up to 8; the count register one less
      than the rows. */
  function FromRegisters(memAddr: nat, dramAddr: nat, dma: nat): (t: Transfer)
    ensures t.Valid() && 0 < t.rows <= 0x100
  {
    Transfer(memAddr / 0x1000 % 2 == 1, dramAddr / 8 % 0x20_0000 * 8, memAddr / 8 % 0x200 * 8,
             (dma % 0x1000 + 8) / 8 * 8, dma / 0x10_0000, dma / 0x1000 % 0x100 + 1)
  }

  function ReadRows(mem: Local, rdram: Rdram, t: Transfer): Local
    requires t.Valid()
    decreases t.rows
  {
    if t.rows == 0 then mem else ReadRows(ReadRow(mem, rdram, t.imem, t.d, t.m, t.length), rdram, t.Next())
  }

  function WriteRows(rdram: Rdram, mem: Local, t: Transfer): Rdram
    requires t.Valid()
    decreases t.rows
  {
    if t.rows == 0 then rdram else WriteRows(WriteRow(rdram, mem, t.imem, t.d, t.m, t.length), mem, t.Next())
  }

  // ---- Logical bytes --------------------------------------------------------------------------------

  /** How far a local address lies behind the start of a row. */
  function Behind(a: nat, m: nat): nat
    requires a < MEM && m < MEM
  {
    (a + MEM - m) % MEM
  }

  /** A plain copy of one row. */
  function PlainRow(mem: seq<byte>, rdram: seq<byte>, d: nat, m: nat, length: nat): (r: seq<byte>)
    requires |mem| == MEM && m < MEM
    ensures |r| == MEM
  {
    seq(MEM, a requires 0 <= a < MEM => if Behind(a, m) < length then At(rdram, d + Behind(a, m)) else mem[a])
  }

  function PlainRows(mem: seq<byte>, rdram: seq<byte>, t: Transfer): (r: seq<byte>)
    requires |mem| == MEM && t.Valid()
    ensures |r| == MEM
    decreases t.rows
  {
    if t.rows == 0 then mem else PlainRows(PlainRow(mem, rdram, t.d, t.m, t.length), rdram, t.Next())
  }

  /** What a row leaves at a host position. */
  lemma {:induction false} ReadRowAt(mem: Local, rdram: Rdram, imem: bool, d: nat, m: nat, n: nat, a: nat)
    requires m < MEM && n <= MEM && a < MEM
    ensures Index(imem, a) < MEM
    ensures ReadRow(mem, rdram, imem, d, m, n)[Index(imem, a)] ==
      if Behind(a, m) < n then Source(rdram, d + Behind(a, m)) else mem[Index(imem, a)]
  {
    hide Index, Source, ByteAddress;
    IndexBound(imem, a);
    if n > 0 {
      var addr := (m + (n - 1)) % MEM;
      ReadRowAt(mem, rdram, imem, d, m, n - 1, a);
      IndexBound(imem, addr);
      IndexInjective(imem, a, addr);
      BehindIs(m, n - 1, a);
    }
  }

  lemma BehindIs(m: nat, k: nat, a: nat)
    requires m < MEM && k < MEM && a < MEM
    ensures a == (m + k) % MEM <==> Behind(a, m) == k
  {
    BehindValue(a, m);
    SumValue(m, k);
    hide Behind;
  }

  lemma BehindValue(a: nat, m: nat)
    requires a < MEM && m < MEM
    ensures Behind(a, m) == if a >= m then a - m else a + MEM - m
  {
    if a >= m { Euclid(a + MEM - m, MEM, 1, a - m); } else { Euclid(a + MEM - m, MEM, 0, a + MEM - m); }
  }

  lemma SumValue(m: nat, k: nat)
    requires m < MEM && k <= MEM
    ensures (m + k) % MEM == if m + k < MEM then m + k else m + k - MEM
  {
    if m + k < MEM { Euclid(m + k, MEM, 0, m + k); } else { Euclid(m + k, MEM, 1, m + k - MEM); }
  }

  lemma IndexInjective(imem: bool, a: nat, b: nat)
    ensures Index(imem, a) == Index(imem, b) <==> a == b
  {
    Mirror(a);
    Mirror(b);
  }

  lemma BehindWords(q: nat, r: nat, w: nat)
    requires q < MEM / 4 && r < 4 && w < MEM / 4
    ensures Behind(4 * q + r, 4 * w) == 4 * ((q + MEM / 4 - w) % (MEM / 4)) + r
  {
    var x := q + 0x400 - w;
    var c, b := x / 0x400, x % 0x400;
    Euclid(4 * q + r + MEM - 4 * w, MEM, c, 4 * b + r);
  }

  /** Mirroring within words commutes with copying whole words. */
  lemma MirrorBehind(a: nat, m: nat)
    requires a < MEM && m < MEM && m % 4 == 0
    ensures ByteAddress(a) < MEM && Behind(ByteAddress(a), m) == ByteAddress(Behind(a, m))
    ensures Behind(a, m) / 4 == ByteAddress(Behind(a, m)) / 4
  {
    hide ByteAddress, Behind;
    Mirror(a);
    var q, r, w := a / 4, a % 4, m / 4;
    BehindWords(q, r, w);
    BehindWords(q, 3 - r, w);
    var b := (q + 0x400 - w) % 0x400;
    Euclid(4 * b + r, 4, b, r);
    Mirror(4 * b + r);
  }

  lemma MirrorOffset(d: nat, k: nat)
    requires d % 4 == 0
    ensures ByteAddress(d + k) == d + ByteAddress(k)
  {
    hide ByteAddress;
    Euclid(d + k, 4, d / 4 + k / 4, k % 4);
    Mirror(d + k);
    Mirror(k);
  }

  /** In logical bytes, one row is a plain copy, and zeros past the end of RDRAM. */
  lemma RowIsPlain(mem: Local, rdram: Rdram, imem: bool, d: nat, m: nat, length: nat)
    requires d % 8 == 0 && m % 8 == 0 && m < MEM && length % 8 == 0 && length <= MEM
    ensures Logical(ReadRow(mem, rdram, imem, d, m, length), imem)
      == PlainRow(Logical(mem, imem), Logical(rdram, true), d, m, length)
  {
    var l := Logical(ReadRow(mem, rdram, imem, d, m, length), imem);
    var r := PlainRow(Logical(mem, imem), Logical(rdram, true), d, m, length);
    forall a | 0 <= a < MEM ensures l[a] == r[a] {
      LogicalRowAt(mem, rdram, imem, d, m, length, a);
    }
  }

  lemma LogicalRam(rdram: Rdram, d: nat, k: nat)
    requires d % 4 == 0
    ensures At(Logical(rdram, true), d + k) == Source(rdram, d + ByteAddress(k))
  {
    hide ByteAddress, Logical, At;
    MirrorOffset(d, k);
    MirrorInside(d + k);
    if d + k < SIZE {
      LogicalAt(rdram, true, d + k);
      AtInside(Logical(rdram, true), d + k);
      AtInside(rdram, ByteAddress(d + k));
    } else {
      AtOutside(Logical(rdram, true), d + k);
    }
  }

  lemma AtOutside(mem: seq<byte>, j: nat)
    requires j >= |mem|
    ensures At(mem, j) == 0
  {}

  lemma MirrorInside(i: nat)
    ensures i < SIZE <==> ByteAddress(i) < SIZE
  {
    hide ByteAddress;
    Mirror(i);
  }

  lemma LogicalLocal(mem: Local, imem: bool, a: nat)
    requires a < MEM
    ensures ByteAddress(a) < MEM && Index(imem, ByteAddress(a)) < MEM
    ensures Logical(mem, imem)[a] == mem[Index(imem, ByteAddress(a))]
  {
    MirrorTwice(a);
    Mirror(a);
    hide ByteAddress;
  }

  lemma LogicalRowIn(mem: Local, rdram: Rdram, imem: bool, d: nat, m: nat, length: nat, a: nat)
    requires m < MEM && length <= MEM && a < MEM && ByteAddress(a) < MEM
    requires Behind(ByteAddress(a), m) == ByteAddress(Behind(a, m)) && (Behind(a, m) < length <==> ByteAddress(Behind(a, m)) < length)
    requires At(Logical(rdram, true), d + Behind(a, m)) == Source(rdram, d + ByteAddress(Behind(a, m)))
    ensures Logical(ReadRow(mem, rdram, imem, d, m, length), imem)[a]
      == PlainRow(Logical(mem, imem), Logical(rdram, true), d, m, length)[a]
  {
    hide ReadRow, ByteAddress, Logical, Source, Index, Behind, At, PlainRow;
    PlainRowAt(Logical(mem, imem), Logical(rdram, true), d, m, length, a);
    LogicalLocal(mem, imem, a);
    LogicalLocal(ReadRow(mem, rdram, imem, d, m, length), imem, a);
    ReadRowAt(mem, rdram, imem, d, m, length, ByteAddress(a));
  }

  lemma LogicalRowAt(mem: Local, rdram: Rdram, imem: bool, d: nat, m: nat, length: nat, a: nat)
    requires d % 8 == 0 && m % 8 == 0 && m < MEM && length % 8 == 0 && length <= MEM && a < MEM
    ensures Logical(ReadRow(mem, rdram, imem, d, m, length), imem)[a]
      == PlainRow(Logical(mem, imem), Logical(rdram, true), d, m, length)[a]
  {
    hide ReadRow, ByteAddress, Logical, Source, Behind, At, PlainRow;
    Euclid(d, 4, 2 * (d / 8), 0);
    Euclid(m, 4, 2 * (m / 8), 0);
    Euclid(length, 4, 2 * (length / 8), 0);
    MirrorBehind(a, m);
    LogicalRam(rdram, d, Behind(a, m));
    MirrorWithin(Behind(a, m), length);
    LogicalRowIn(mem, rdram, imem, d, m, length, a);
  }

  lemma PlainRowAt(mem: seq<byte>, rdram: seq<byte>, d: nat, m: nat, length: nat, a: nat)
    requires |mem| == MEM && m < MEM && a < MEM
    ensures PlainRow(mem, rdram, d, m, length)[a] == if Behind(a, m) < length then At(rdram, d + Behind(a, m)) else mem[a]
  {}

  lemma WholeWords(k: nat, j: nat, length: nat)
    requires k / 4 == j / 4 && length % 4 == 0
    ensures k < length <==> j < length
  {}

  /** The whole strided transfer copies logical bytes, row by row. */
  lemma {:induction false} DmaIsPlain(mem: Local, rdram: Rdram, t: Transfer)
    requires t.Valid()
    ensures Logical(ReadRows(mem, rdram, t), t.imem) == PlainRows(Logical(mem, t.imem), Logical(rdram, true), t)
    decreases t.rows
  {
    hide ReadRow, PlainRow, Logical;
    if t.rows > 0 {
      RowIsPlain(mem, rdram, t.imem, t.d, t.m, t.length);
      DmaIsPlain(ReadRow(mem, rdram, t.imem, t.d, t.m, t.length), rdram, t.Next());
    }
  }

  // ---- Writing back ---------------------------------------------------------------------------------

  /** The local address some bytes behind the start of a row. */
  function Ahead(m: nat, k: nat): (a: nat)
    ensures a < MEM
  {
    (m + k) % MEM
  }

  /** A plain copy of one row to RDRAM, dropped past its end. */
  function PlainWriteRow(rdram: seq<byte>, mem: seq<byte>, d: nat, m: nat, length: nat): (r: seq<byte>)
    requires |mem| == MEM
    ensures |r| == |rdram|
  {
    seq(|rdram|, i requires 0 <= i < |rdram| => if d <= i < d + length then mem[Ahead(m, i - d)] else rdram[i])
  }

  function PlainWriteRows(rdram: seq<byte>, mem: seq<byte>, t: Transfer): (r: seq<byte>)
    requires |mem| == MEM && t.Valid()
    ensures |r| == |rdram|
    decreases t.rows
  {
    if t.rows == 0 then rdram else PlainWriteRows(PlainWriteRow(rdram, mem, t.d, t.m, t.length), mem, t.Next())
  }

  lemma {:induction false} WriteRowAt(rdram: Rdram, mem: Local, imem: bool, d: nat, m: nat, n: nat, i: nat)
    requires m < MEM && n <= MEM && i < SIZE
    ensures d <= i < d + n ==> Index(imem, Ahead(m, i - d)) < MEM
    ensures WriteRow(rdram, mem, imem, d, m, n)[i] ==
      if d <= i < d + n then mem[Index(imem, Ahead(m, i - d))] else rdram[i]
  {
    hide Index, ByteAddress;
    if n > 0 {
      WriteRowAt(rdram, mem, imem, d, m, n - 1, i);
      IndexBound(imem, (m + (n - 1)) % MEM);
    }
  }

  /** The local address next to a mirrored offset is the mirrored local address. */
  lemma MirrorAhead(m: nat, k: nat)
    requires m < MEM && m % 4 == 0
    ensures ByteAddress(Ahead(m, k)) == Ahead(m, ByteAddress(k))
  {
    hide ByteAddress;
    var q, r, w := k / 4, k % 4, m / 4;
    var x := (w + q) % (MEM / 4);
    AheadWords(w, q, r);
    AheadWords(w, q, 3 - r);
    Euclid(4 * x + r, 4, x, r);
    Mirror(4 * x + r);
    Mirror(k);
  }

  lemma AheadWords(w: nat, q: nat, r: nat)
    requires w < MEM / 4 && r < 4
    ensures (4 * w + (4 * q + r)) % MEM == 4 * ((w + q) % (MEM / 4)) + r
  {
    var x := w + q;
    Euclid(4 * w + (4 * q + r), MEM, x / 0x400, 4 * (x % 0x400) + r);
  }

  /** What a written row leaves at a logical byte, in terms of the host position it is stored at. */
  lemma LogicalWritten(rdram: Rdram, mem: Local, imem: bool, d: nat, m: nat, length: nat, i: nat)
    requires m < MEM && length <= MEM && i < SIZE
    ensures ByteAddress(i) < SIZE && At(Logical(rdram, true), i) == rdram[ByteAddress(i)]
    ensures var j := ByteAddress(i);
      At(Logical(WriteRow(rdram, mem, imem, d, m, length), true), i) == WriteRow(rdram, mem, imem, d, m, length)[j]
  {
    hide WriteRow, ByteAddress, Logical, At;
    var written := WriteRow(rdram, mem, imem, d, m, length);
    Mirror(i);
    LogicalAt(written, true, i);
    LogicalAt(rdram, true, i);
    AtInside(written, ByteAddress(i));
    AtInside(rdram, ByteAddress(i));
    AtInside(Logical(written, true), i);
    AtInside(Logical(rdram, true), i);
  }

  lemma LogicalWriteIn(rdram: Rdram, mem: Local, imem: bool, d: nat, m: nat, length: nat, k: nat)
    requires m < MEM && length <= MEM && d + k < SIZE
    requires ByteAddress(d + k) == d + ByteAddress(k) && (k < length <==> ByteAddress(k) < length)
    requires ByteAddress(Ahead(m, k)) == Ahead(m, ByteAddress(k))
    ensures At(Logical(WriteRow(rdram, mem, imem, d, m, length), true), d + k)
      == At(PlainWriteRow(Logical(rdram, true), Logical(mem, imem), d, m, length), d + k)
  {
    hide WriteRow, ByteAddress, Logical, Index, At, PlainWriteRow, Ahead;
    LogicalWritten(rdram, mem, imem, d, m, length, d + k);
    PlainWriteAt(Logical(rdram, true), Logical(mem, imem), d, m, length, d + k);
    WriteRowAt(rdram, mem, imem, d, m, length, d + ByteAddress(k));
    LogicalLocal(mem, imem, Ahead(m, k));
  }

  lemma LogicalWriteBefore(rdram: Rdram, mem: Local, imem: bool, d: nat, m: nat, length: nat, i: nat)
    requires m < MEM && length <= MEM && i < SIZE && i < d && ByteAddress(i) < d
    ensures At(Logical(WriteRow(rdram, mem, imem, d, m, length), true), i)
      == At(PlainWriteRow(Logical(rdram, true), Logical(mem, imem), d, m, length), i)
  {
    hide WriteRow, ByteAddress, Logical, Index, At, PlainWriteRow, Ahead;
    LogicalWritten(rdram, mem, imem, d, m, length, i);
    PlainWriteAt(Logical(rdram, true), Logical(mem, imem), d, m, length, i);
    WriteRowAt(rdram, mem, imem, d, m, length, ByteAddress(i));
  }

  lemma LogicalWriteAt(rdram: Rdram, mem: Local, imem: bool, d: nat, m: nat, length: nat, i: nat)
    requires d % 8 == 0 && m % 8 == 0 && m < MEM && length % 8 == 0 && length <= MEM && i < SIZE
    ensures At(Logical(WriteRow(rdram, mem, imem, d, m, length), true), i)
      == At(PlainWriteRow(Logical(rdram, true), Logical(mem, imem), d, m, length), i)
  {
    hide WriteRow, ByteAddress, Logical, At, PlainWriteRow, Ahead;
    if d <= i {
      RowOffset(d, i - d, m, length);
      LogicalWriteIn(rdram, mem, imem, d, m, length, i - d);
    } else {
      MirrorBefore(i, d);
      LogicalWriteBefore(rdram, mem, imem, d, m, length, i);
    }
  }

  lemma PlainWriteAt(rdram: seq<byte>, mem: seq<byte>, d: nat, m: nat, length: nat, i: nat)
    requires |mem| == MEM && i < |rdram|
    ensures At(PlainWriteRow(rdram, mem, d, m, length), i) == if d <= i < d + length then mem[Ahead(m, i - d)] else At(rdram, i)
  {}

  /** A mirrored byte of a row is the same distance, mirrored, from the row's start on both sides. */
  lemma RowOffset(d: nat, k: nat, m: nat, length: nat)
    requires d % 8 == 0 && m % 8 == 0 && m < MEM && length % 8 == 0
    ensures ByteAddress(d + k) == d + ByteAddress(k) && (k < length <==> ByteAddress(k) < length)
    ensures ByteAddress(Ahead(m, k)) == Ahead(m, ByteAddress(k))
  {
    hide ByteAddress, Ahead;
    Euclid(d, 4, 2 * (d / 8), 0);
    Euclid(m, 4, 2 * (m / 8), 0);
    Euclid(length, 4, 2 * (length / 8), 0);
    MirrorOffset(d, k);
    MirrorWithin(k, length);
    MirrorAhead(m, k);
  }

  lemma MirrorWithin(k: nat, length: nat)
    requires length % 4 == 0
    ensures k < length <==> ByteAddress(k) < length
  {
    hide ByteAddress;
    Mirror(k);
    WholeWords(k, ByteAddress(k), length);
  }

  lemma MirrorBefore(i: nat, d: nat)
    requires d % 8 == 0 && i < d
    ensures ByteAddress(i) < d
  {
    hide ByteAddress;
    Mirror(i);
    Euclid(d, 4, 2 * (d / 8), 0);
    BeforeWord(i / 4, i % 4, d / 4);
  }

  lemma BeforeWord(q: nat, r: nat, w: nat)
    requires r < 4 && 4 * q + r < 4 * w
    ensures 4 * q + 3 < 4 * w
  {}

  lemma WriteRowIsPlain(rdram: Rdram, mem: Local, imem: bool, d: nat, m: nat, length: nat)
    requires d % 8 == 0 && m % 8 == 0 && m < MEM && length % 8 == 0 && length <= MEM
    ensures Logical(WriteRow(rdram, mem, imem, d, m, length), true)
      == PlainWriteRow(Logical(rdram, true), Logical(mem, imem), d, m, length)
  {
    hide WriteRow, Logical, PlainWriteRow, At;
    var l, r := Logical(WriteRow(rdram, mem, imem, d, m, length), true),
                PlainWriteRow(Logical(rdram, true), Logical(mem, imem), d, m, length);
    forall i | 0 <= i < SIZE ensures l[i] == r[i] {
      LogicalWriteAt(rdram, mem, imem, d, m, length, i);
      AtInside(l, i);
      AtInside(r, i);
    }
    assert |l| == SIZE && |r| == SIZE;
  }

  lemma {:induction false} DmaWriteIsPlain(rdram: Rdram, mem: Local, t: Transfer)
    requires t.Valid()
    ensures Logical(WriteRows(rdram, mem, t), true) == PlainWriteRows(Logical(rdram, true), Logical(mem, t.imem), t)
    decreases t.rows
  {
    hide WriteRow, PlainWriteRow, Logical;
    if t.rows > 0 {
      WriteRowIsPlain(rdram, mem, t.imem, t.d, t.m, t.length);
      DmaWriteIsPlain(WriteRow(rdram, mem, t.imem, t.d, t.m, t.length), mem, t.Next());
    }
  }

  // ---- Round trip -----------------------------------------------------------------------------------

  /** A transfer does not reach local addresses behind its last row. */
  lemma {:induction false} Untouched(mem: Local, rdram: Rdram, t: Transfer, a: nat)
    requires t.Valid() && a < MEM && t.rows * t.length <= Behind(a, t.m)
    ensures Index(t.imem, a) < MEM && ReadRows(mem, rdram, t)[Index(t.imem, a)] == mem[Index(t.imem, a)]
    decreases t.rows
  {
    IndexBound(t.imem, a);
    if t.rows > 0 {
      hide Index, ReadRow, Behind, NextLocal, NextDram;
      RowsStep(t.rows, t.length);
      var next := t.Next();
      ReadRowAt(mem, rdram, t.imem, t.d, t.m, t.length, a);
      BehindNext(a, t.m, t.length);
      Untouched(ReadRow(mem, rdram, t.imem, t.d, t.m, t.length), rdram, next, a);
    }
  }

  lemma RowsStep(rows: nat, length: nat)
    requires rows > 0
    ensures rows * length == length + (rows - 1) * length && length <= rows * length
  {}

  lemma BehindNext(a: nat, m: nat, length: nat)
    requires a < MEM && m < MEM && m % 8 == 0 && length % 8 == 0 && length <= Behind(a, m)
    ensures NextLocal(m, length) < MEM && Behind(a, NextLocal(m, length)) == Behind(a, m) - length
  {
    NextIsSum(m, length);
    hide NextLocal, Behind;
    BehindValue(a, m);
    SumValue(m, length);
    BehindValue(a, NextLocal(m, length));
  }

  /** The local memory holds, row by row, what RDRAM has. */
  ghost predicate Copied(mem: Local, rdram: Rdram, t: Transfer)
    requires t.Valid()
    decreases t.rows
  {
    t.rows > 0 ==> RowCopied(mem, rdram, t) && Copied(mem, rdram, t.Next())
  }

  ghost predicate RowCopied(mem: Local, rdram: Rdram, t: Transfer)
    requires t.Valid()
  {
    forall j :: 0 <= j < t.length ==> ByteCopied(mem, rdram, t, j)
  }

  ghost predicate ByteCopied(mem: Local, rdram: Rdram, t: Transfer, j: nat)
    requires t.Valid()
  {
    var i := Index(t.imem, (t.m + j) % MEM);
    i < MEM && mem[i] == Source(rdram, t.d + j)
  }

  lemma {:induction false} ReadCopies(mem: Local, rdram: Rdram, t: Transfer)
    requires t.Valid() && t.rows * t.length <= MEM
    ensures Copied(ReadRows(mem, rdram, t), rdram, t)
    decreases t.rows
  {
    if t.rows > 0 {
      var row := ReadRow(mem, rdram, t.imem, t.d, t.m, t.length);
      var next := t.Next();
      RowsStep(t.rows, t.length);
      ReadCopies(row, rdram, next);
      forall j | 0 <= j < t.length ensures ByteCopied(ReadRows(mem, rdram, t), rdram, t, j) {
        RowSurvives(mem, rdram, t, j);
      }
    }
  }

  lemma RowSurvives(mem: Local, rdram: Rdram, t: Transfer, j: nat)
    requires t.Valid() && t.rows > 0 && t.rows * t.length <= MEM && j < t.length
    ensures ByteCopied(ReadRows(mem, rdram, t), rdram, t, j)
  {
    hide Index, ReadRow, Source;
    var a := (t.m + j) % MEM;
    var row := ReadRow(mem, rdram, t.imem, t.d, t.m, t.length);
    var next := t.Next();
    RowsStep(t.rows, t.length);
    BehindIs(t.m, j, a);
    ReadRowAt(mem, rdram, t.imem, t.d, t.m, t.length, a);
    BehindRow(t.m, t.length, j);
    Untouched(row, rdram, next, a);
  }

  /** Seen from the end of a row, the row's own bytes lie a whole memory further on. */
  lemma BehindRow(m: nat, length: nat, j: nat)
    requires m < MEM && m % 8 == 0 && length % 8 == 0 && j < length <= MEM
    ensures NextLocal(m, length) < MEM && Behind((m + j) % MEM, NextLocal(m, length)) == MEM - length + j
  {
    NextIsSum(m, length);
    hide NextLocal, Behind;
    SumValue(m, length);
    SumValue(m, j);
    BehindValue((m + j) % MEM, NextLocal(m, length));
  }

  lemma NextIsSum(m: nat, length: nat)
    requires m % 8 == 0 && length % 8 == 0
    ensures NextLocal(m, length) == (m + length) % MEM
  {
    var y := (m + length) / 8;
    Euclid(m + length, 8, m / 8 + length / 8, 0);
    Euclid(m + length, MEM, y / 0x200, 8 * (y % 0x200));
  }

  lemma {:induction false} WriteCopied(rdram: Rdram, mem: Local, t: Transfer, n: nat)
    requires t.Valid() && n <= t.length && RowCopied(mem, rdram, t)
    ensures WriteRow(rdram, mem, t.imem, t.d, t.m, n) == rdram
  {
    hide Index;
    if n > 0 {
      WriteCopied(rdram, mem, t, n - 1);
      assert ByteCopied(mem, rdram, t, n - 1);
    }
  }

  lemma {:induction false} WriteBack(rdram: Rdram, mem: Local, t: Transfer)
    requires t.Valid() && Copied(mem, rdram, t)
    ensures WriteRows(rdram, mem, t) == rdram
    decreases t.rows
  {
    hide RowCopied, WriteRow;
    if t.rows > 0 {
      WriteCopied(rdram, mem, t, t.length);
      WriteBack(rdram, mem, t.Next());
    }
  }

  /** Rows read into local memory without overlapping there, and written back with the same registers, leave
      RDRAM as it was. */
  lemma RoundTrip(rdram: Rdram, mem: Local, t: Transfer)
    requires t.Valid() && t.rows * t.length <= MEM
    ensures WriteRows(rdram, ReadRows(mem, rdram, t), t) == rdram
  {
    ReadCopies(mem, rdram, t);
    WriteBack(rdram, ReadRows(mem, rdram, t), t);
  }
}
