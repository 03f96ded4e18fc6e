/** Where the bytes of a strided DMA go: the registers' fields, the place of each row, and every byte of a whole
    transfer (src/rcp/rsp.cpp:542-597, 753-823). */
module SpDmaPlaces {
  import opened Common
  import opened ByteOrder
  import opened SpDma

  const SPACE24: nat := 0x100_0000

  /** What the skip field adds from row to row: its low three bits are lost. */
  function Stride(t: Transfer): nat { t.length + t.skip / 8 * 8 }

  /** A length register of rows * (length, skip) as the hardware documents it, and two address registers. */
  lemma FromFields(imem: bool, local: nat, dram: nat, length: nat, rows: nat, skip: nat)
    requires local % 8 == 0 && local < MEM && dram % 8 == 0 && dram < SPACE24
    requires length % 8 == 0 && 0 < length <= MEM && 0 < rows <= 0x100
    ensures FromRegisters((if imem then MEM else 0) + local, dram, length - 1 + (rows - 1) * 0x1000 + skip * 0x10_0000) ==
      Transfer(imem, dram, local, length, skip, rows)
  {
    var a, x := (if imem then MEM else 0) + local, length - 1 + (rows - 1) * 0x1000 + skip * 0x10_0000;
    Euclid(a, 0x1000, if imem then 1 else 0, local);
    Euclid(a, 8, (if imem then 0x200 else 0) + local / 8, 0);
    Euclid((if imem then 0x200 else 0) + local / 8, 0x200, if imem then 1 else 0, local / 8);
    Euclid(dram / 8, 0x20_0000, 0, dram / 8);
    Euclid(x, 0x1000, rows - 1 + skip * 0x100, length - 1);
    Euclid(length + 7, 8, length / 8, 7);
    Euclid(x, 0x10_0000, skip, length - 1 + (rows - 1) * 0x1000);
    Euclid(rows - 1 + skip * 0x100, 0x100, skip, rows - 1);
  }

  // ---- The place of a row ---------------------------------------------------------------------------

  /** The transfer as it stands before row i. */
  function Row(t: Transfer, i: nat): (r: Transfer)
    requires t.Valid() && i <= t.rows
    ensures r.Valid()
    decreases i
  {
    if i == 0 then t else Row(t.Next(), i - 1)
  }

  lemma NextPlace(t: Transfer)
    requires t.Valid() && t.rows > 0
    ensures var n := t.Next();
      n.m == (t.m + t.length) % MEM && n.d == (t.d + Stride(t)) % SPACE24 && n.d < SPACE24
      && n.length == t.length && n.skip == t.skip && n.rows == t.rows - 1 && n.imem == t.imem
  {
    NextIsSum(t.m, t.length);
    var x, s := t.d + t.length + t.skip, t.d / 8 + t.length / 8 + t.skip / 8;
    Euclid(x, 8, s, t.skip % 8);
    Euclid(t.d + Stride(t), SPACE24, s / 0x20_0000, 8 * (s % 0x20_0000));
    hide NextLocal;
  }

  lemma Modular(a: nat, b: nat, m: nat)
    requires m > 0
    ensures (a % m + b) % m == (a + b) % m
  {
    var q, r := a / m, a % m;
    var u, v := (r + b) / m, (r + b) % m;
    Divided(a, m);
    Divided(r + b, m);
    assert (q + u) * m == q * m + u * m;
    Euclid(a + b, m, q + u, v);
  }

  lemma Divided(a: nat, m: nat)
    requires m > 0
    ensures a == a / m * m + a % m && a % m < m
  {}

  lemma OneMore(i: nat, x: nat)
    requires i > 0
    ensures i * x == x + (i - 1) * x
  {}

  lemma StepOn(base: nat, x: nat, i: nat, m: nat)
    requires i > 0 && m > 0
    ensures ((base + x) % m + (i - 1) * x) % m == (base + i * x) % m
  {
    OneMore(i, x);
    Modular(base + x, (i - 1) * x, m);
  }

  lemma SameStride(t: Transfer)
    requires t.Valid() && t.rows > 0
    ensures Stride(t.Next()) == Stride(t)
  {
    hide NextDram, NextLocal;
  }

  /** Without wrapping, where row i starts in local memory and in RDRAM. */
  function LocalOf(t: Transfer, i: nat): nat { t.m + i * t.length }
  function DramOf(t: Transfer, i: nat): nat { t.d + i * Stride(t) }

  lemma PlacesStep(t: Transfer, i: nat)
    requires t.Valid() && t.rows > 0 && i > 0
    ensures LocalOf(t.Next(), i - 1) % MEM == LocalOf(t, i) % MEM
    ensures DramOf(t.Next(), i - 1) % SPACE24 == DramOf(t, i) % SPACE24
  {
    hide Transfer.Next, Stride;
    NextPlace(t);
    SameStride(t);
    StepOn(t.m, t.length, i, MEM);
    StepOn(t.d, Stride(t), i, SPACE24);
  }

  /** Row i starts i lengths on in local memory, and i strides on in RDRAM, both wrapping. */
  lemma {:induction false} RowPlace(t: Transfer, i: nat)
    requires t.Valid() && i <= t.rows && t.d < SPACE24
    ensures var r := Row(t, i);
      r.m == LocalOf(t, i) % MEM && r.d == DramOf(t, i) % SPACE24
      && r.length == t.length && r.skip == t.skip && r.rows == t.rows - i && r.imem == t.imem
    decreases i
  {
    if i == 0 {
      Euclid(t.m, MEM, 0, t.m);
      Euclid(t.d, SPACE24, 0, t.d);
    } else {
      hide Transfer.Next, LocalOf, DramOf;
      NextPlace(t);
      RowPlace(t.Next(), i - 1);
      PlacesStep(t, i);
    }
  }

  lemma LocalPlace(t: Transfer, i: nat, j: nat)
    requires t.Valid() && i <= t.rows && t.d < SPACE24
    ensures (Row(t, i).m + j) % MEM == (LocalOf(t, i) + j) % MEM
  {
    hide Row, LocalOf, DramOf;
    RowPlace(t, i);
    Modular(LocalOf(t, i), j, MEM);
  }

  lemma DramPlace(t: Transfer, i: nat)
    requires t.Valid() && i < t.rows && t.d < SPACE24 && t.d + t.rows * Stride(t) <= SPACE24
    ensures Row(t, i).d == DramOf(t, i)
  {
    hide Row;
    RowPlace(t, i);
    Fewer(i, t.rows, Stride(t));
    Euclid(DramOf(t, i), SPACE24, 0, DramOf(t, i));
  }

  lemma Fewer(i: nat, rows: nat, x: nat)
    requires i < rows && x > 0
    ensures i * x < rows * x
  {
    MulOrder(x, i + 1, rows);
  }

  // ---- Every byte read ------------------------------------------------------------------------------

  lemma {:induction false} RestUntouched(mem: seq<byte>, rdram: seq<byte>, t: Transfer, a: nat)
    requires |mem| == MEM && t.Valid() && a < MEM && t.rows * t.length <= Behind(a, t.m)
    ensures PlainRows(mem, rdram, t)[a] == mem[a]
    decreases t.rows
  {
    if t.rows > 0 {
      hide Behind, NextLocal, NextDram, PlainRow;
      RowsStep(t.rows, t.length);
      PlainRowAt(mem, rdram, t.d, t.m, t.length, a);
      BehindNext(a, t.m, t.length);
      RestUntouched(PlainRow(mem, rdram, t.d, t.m, t.length), rdram, t.Next(), a);
    }
  }

  lemma {:induction false} PlainByte(mem: seq<byte>, rdram: seq<byte>, t: Transfer, i: nat, j: nat)
    requires |mem| == MEM && t.Valid() && t.rows * t.length <= MEM && i < t.rows && j < t.length
    ensures PlainRows(mem, rdram, t)[(Row(t, i).m + j) % MEM] == At(rdram, Row(t, i).d + j)
    decreases i
  {
    hide Behind, NextLocal, NextDram, PlainRow;
    RowsStep(t.rows, t.length);
    var row := PlainRow(mem, rdram, t.d, t.m, t.length);
    if i == 0 {
      var a := (t.m + j) % MEM;
      BehindIs(t.m, j, a);
      PlainRowAt(mem, rdram, t.d, t.m, t.length, a);
      BehindRow(t.m, t.length, j);
      RestUntouched(row, rdram, t.Next(), a);
    } else {
      PlainByte(row, rdram, t.Next(), i - 1, j);
    }
  }

  /** Every byte of a transfer into local memory whose rows do not overlap there, by logical addresses. */
  lemma EveryByteRead(mem: Local, rdram: Rdram, t: Transfer, i: nat, j: nat)
    requires t.Valid() && t.d < SPACE24 && t.rows * t.length <= MEM && i < t.rows && j < t.length
    ensures Logical(ReadRows(mem, rdram, t), t.imem)[(LocalOf(t, i) + j) % MEM] ==
      At(Logical(rdram, true), DramOf(t, i) % SPACE24 + j)
  {
    hide ReadRows, PlainRows, Logical, Row, LocalOf, DramOf;
    DmaIsPlain(mem, rdram, t);
    PlainByte(Logical(mem, t.imem), Logical(rdram, true), t, i, j);
    DramRow(t, i);
    LocalPlace(t, i, j);
  }

  lemma DramRow(t: Transfer, i: nat)
    requires t.Valid() && i <= t.rows && t.d < SPACE24
    ensures Row(t, i).d == DramOf(t, i) % SPACE24
  {
    hide Row;
    RowPlace(t, i);
  }

  /** And every other byte of it stays. */
  lemma OtherBytesStay(mem: Local, rdram: Rdram, t: Transfer, a: nat)
    requires t.Valid() && a < MEM && t.rows * t.length <= Behind(a, t.m)
    ensures Logical(ReadRows(mem, rdram, t), t.imem)[a] == Logical(mem, t.imem)[a]
  {
    hide ReadRows, PlainRows, Logical;
    DmaIsPlain(mem, rdram, t);
    RestUntouched(Logical(mem, t.imem), Logical(rdram, true), t, a);
  }

  // ---- Every byte written ---------------------------------------------------------------------------

  /** Rows that do not wrap leave RDRAM before them alone. */
  lemma {:induction false} BeforeRows(rdram: seq<byte>, mem: seq<byte>, t: Transfer, k: nat)
    requires |mem| == MEM && t.Valid() && k < |rdram| && k < t.d && t.d + t.rows * Stride(t) <= SPACE24
    ensures PlainWriteRows(rdram, mem, t)[k] == rdram[k]
    decreases t.rows
  {
    if t.rows > 0 {
      hide PlainWriteRow, Transfer.Next, Stride;
      PlainWriteAt(rdram, mem, t.d, t.m, t.length, k);
      NextInside(t);
      if t.rows > 1 { BeforeRows(PlainWriteRow(rdram, mem, t.d, t.m, t.length), mem, t.Next(), k); }
    }
  }

  /** The next row starts a stride on. */
  lemma NextInside(t: Transfer)
    requires t.Valid() && t.rows > 0 && t.d + t.rows * Stride(t) <= SPACE24
    ensures var n := t.Next();
      && n.rows == t.rows - 1 && n.length == t.length && Stride(n) == Stride(t) && Stride(t) >= t.length && n.imem == t.imem
      && (t.rows > 1 ==> n.d == t.d + Stride(t) && n.d + n.rows * Stride(n) <= SPACE24)
  {
    NextPlace(t);
    OneMore(t.rows, Stride(t));
    if t.rows > 1 {
      OneMore(t.rows - 1, Stride(t));
      Euclid(t.d + Stride(t), SPACE24, 0, t.d + Stride(t));
    }
    hide Transfer.Next;
  }

  lemma {:induction false} PlainByteOut(rdram: seq<byte>, mem: seq<byte>, t: Transfer, i: nat, j: nat)
    requires |mem| == MEM && t.Valid() && t.d + t.rows * Stride(t) <= SPACE24 && i < t.rows && j < t.length
    ensures var r := Row(t, i); r.d + j < |rdram| ==> PlainWriteRows(rdram, mem, t)[r.d + j] == mem[(r.m + j) % MEM]
    decreases i
  {
    hide PlainWriteRow, Transfer.Next, Stride;
    NextInside(t);
    var row := PlainWriteRow(rdram, mem, t.d, t.m, t.length);
    if i == 0 {
      if t.d + j < |rdram| {
        PlainWriteAt(rdram, mem, t.d, t.m, t.length, t.d + j);
        if t.rows > 1 { BeforeRows(row, mem, t.Next(), t.d + j); }
      }
    } else {
      PlainByteOut(row, mem, t.Next(), i - 1, j);
    }
  }

  /** Every byte of a transfer out that does not wrap in RDRAM, by logical addresses. */
  lemma EveryByteWritten(rdram: Rdram, mem: Local, t: Transfer, i: nat, j: nat)
    requires t.Valid() && t.d < SPACE24 && t.d + t.rows * Stride(t) <= SPACE24 && i < t.rows && j < t.length
    ensures var k := DramOf(t, i) + j;
      k < SIZE ==> Logical(WriteRows(rdram, mem, t), true)[k] == Logical(mem, t.imem)[(LocalOf(t, i) + j) % MEM]
  {
    hide WriteRows, PlainWriteRows, Logical, Row, LocalOf, DramOf;
    DmaWriteIsPlain(rdram, mem, t);
    PlainByteOut(Logical(rdram, true), Logical(mem, t.imem), t, i, j);
    DramPlace(t, i);
    LocalPlace(t, i, j);
  }
}
