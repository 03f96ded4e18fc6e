/** The RSP's memories and the instructions decoded ahead from IMEM (src/rcp/rsp.cpp:114-145, 753-823,
    src/memory/bus.cpp:374-397). */
module RspMemory {
  import opened Common
  import opened Bits
  import opened ByteOrder
  import opened SpDma

  const ZEROS: Local := seq(MEM, _ => 0)

  /** A decoded instruction: the slot of the dispatch tables it selects, and the word itself. */
  datatype Insn = Insn(handler: nat, opcode: nat)

  /** Opcode 0 selects by function code in a second table. */
  function Decode(opcode: nat): Insn {
    Insn(if opcode / 0x400_0000 % 0x40 == 0 then 0x40 + opcode % 0x40 else opcode / 0x400_0000 % 0x40, opcode)
  }

  /** Every slot holds the decoding of its word. */
  ghost predicate Coherent(insns: seq<Insn>, imem: Local) {
    |insns| == WORDS && forall k :: 0 <= k < WORDS ==> insns[k] == Decode(Host32(imem, 4 * k))
  }

  /** Word k is among those a note of `length` bytes at `offset` refreshes. */
  predicate Noted(k: nat, offset: nat, length: nat)
    requires k < WORDS
  {
    (k + WORDS - offset / 4 % WORDS) % WORDS < (length + 3) / 4
  }

  /** The slots after a note: those of the range decoded anew. */
  function Refreshed(insns: seq<Insn>, imem: Local, offset: nat, length: nat): (r: seq<Insn>)
    requires |insns| == WORDS
    ensures |r| == WORDS
  {
    seq(WORDS, k requires 0 <= k < WORDS => if Noted(k, offset, length) then Decode(Host32(imem, 4 * k)) else insns[k])
  }

  /** Only noted words have changed. */
  ghost predicate ChangedWithin(imem: Local, imem': Local, offset: nat, length: nat) {
    forall k :: 0 <= k < WORDS && !Noted(k, offset, length) ==> Host32(imem', 4 * k) == Host32(imem, 4 * k)
  }

  lemma RefreshKeeps(insns: seq<Insn>, imem: Local, imem': Local, offset: nat, length: nat)
    requires Coherent(insns, imem) && ChangedWithin(imem, imem', offset, length)
    ensures Coherent(Refreshed(insns, imem', offset, length), imem')
  {
    hide Decode, Host32, Noted;
  }

  // ---- What each writer changes ---------------------------------------------------------------------

  lemma OtherWord(mem: seq<byte>, p: nat, v: nat, q: nat)
    requires p % 4 == 0 && q % 4 == 0 && p != q && p + 4 <= |mem|
    ensures Host32(PutHost32(mem, p, v), q) == Host32(mem, q)
  {}

  lemma NotedWord(k: nat, offset: nat)
    requires k < WORDS && offset % 4 == 0 && offset < MEM
    ensures Noted(k, offset, 4) <==> 4 * k == offset
    ensures offset % 8 == 0 ==> (Noted(k, offset, 8) <==> 4 * k == offset || 4 * k == offset + 4)
  {
    var o := offset / 4;
    Euclid(o, WORDS, 0, o);
    Around(k, o);
    if offset % 8 == 0 { Euclid(offset, 8, offset / 8, 0); }
  }

  lemma Around(k: nat, o: nat)
    requires k < WORDS && o < WORDS
    ensures (k + WORDS - o) % WORDS == if k >= o then k - o else k + WORDS - o
  {
    if k >= o { Euclid(k + WORDS - o, WORDS, 1, k - o); } else { Euclid(k + WORDS - o, WORDS, 0, k + WORDS - o); }
  }

  lemma WordChanges(imem: Local, offset: nat, v: nat)
    requires offset % 4 == 0 && offset + 4 <= MEM
    ensures ChangedWithin(imem, PutHost32(imem, offset, v), offset, 4)
  {
    hide Host32, PutHost32, Noted;
    forall k | 0 <= k < WORDS && !Noted(k, offset, 4)
      ensures Host32(PutHost32(imem, offset, v), 4 * k) == Host32(imem, 4 * k)
    {
      NotedWord(k, offset);
      OtherWord(imem, offset, v, 4 * k);
    }
  }

  lemma DoubleChanges(imem: Local, offset: nat, v: u64)
    requires offset % 8 == 0 && offset + 8 <= MEM
    ensures ChangedWithin(imem, Write(imem, W64, offset, v), offset, 8)
  {
    hide Host32, PutHost32, Noted;
    var mid := PutHost32(imem, offset, v / WORD);
    forall k | 0 <= k < WORDS && !Noted(k, offset, 8)
      ensures Host32(Write(imem, W64, offset, v), 4 * k) == Host32(imem, 4 * k)
    {
      NotedWord(k, offset);
      OtherWord(imem, offset, v / WORD, 4 * k);
      OtherWord(mid, offset + 4, v % WORD, 4 * k);
    }
  }

  lemma NotBehind(k: nat, m: nat, length: nat, j: nat)
    requires k < WORDS && m % 8 == 0 && m < MEM && length % 8 == 0 && length <= MEM && j < 4
    requires !Noted(k, m, length)
    ensures 4 * k + j < MEM && Behind(4 * k + j, m) >= length
  {
    hide Behind;
    var o := m / 4;
    Euclid(m, 4, 2 * (m / 8), 0);
    Euclid(o, WORDS, 0, o);
    Euclid(length + 3, 4, 2 * (length / 8), 3);
    BehindWords(k, j, o);
  }

  lemma RowChanges(imem: Local, rdram: Rdram, d: nat, m: nat, length: nat)
    requires m % 8 == 0 && m < MEM && length % 8 == 0 && length <= MEM
    ensures ChangedWithin(imem, ReadRow(imem, rdram, true, d, m, length), m, length)
  {
    hide ReadRow, Source, Noted;
    forall k | 0 <= k < WORDS && !Noted(k, m, length)
      ensures Host32(ReadRow(imem, rdram, true, d, m, length), 4 * k) == Host32(imem, 4 * k)
    {
      NotBehind(k, m, length, 0); NotBehind(k, m, length, 1); NotBehind(k, m, length, 2); NotBehind(k, m, length, 3);
      hide Behind;
      ReadRowAt(imem, rdram, true, d, m, length, 4 * k);
      ReadRowAt(imem, rdram, true, d, m, length, 4 * k + 1);
      ReadRowAt(imem, rdram, true, d, m, length, 4 * k + 2);
      ReadRowAt(imem, rdram, true, d, m, length, 4 * k + 3);
    }
  }

  // ---- Bus writes -----------------------------------------------------------------------------------

  /** A narrow bus write still writes a whole word: the value moved to its place, zeros around it. */
  function BusWord(w: Width, offset: nat, v: nat): nat
    requires !w.W64?
  {
    match w
    case W8 => v % 0x100 * (match offset % 4 case 0 => 0x100_0000 case 1 => 0x1_0000 case 2 => 0x100 case _ => 1)
    case W16 => if offset / 2 % 2 == 0 then v % 0x1_0000 * 0x1_0000 else v % 0x1_0000
    case W32 => v % WORD
  }

  lemma BusWordFits(w: Width, offset: nat, v: nat)
    requires !w.W64?
    ensures BusWord(w, offset, v) < WORD
  {}

  function BusWrite(imem: Local, w: Width, offset: nat, v: u64): Local
    requires offset < MEM
  {
    if w.W64? then Write(imem, W64, offset / 8 * 8, v) else PutHost32(imem, offset / 4 * 4, BusWord(w, offset, v))
  }

  function Span(w: Width): nat { if w.W64? then 8 else 4 }
  function Start(w: Width, offset: nat): nat { if w.W64? then offset / 8 * 8 else offset / 4 * 4 }

  lemma BusChanges(imem: Local, w: Width, offset: nat, v: u64)
    requires offset < MEM
    ensures ChangedWithin(imem, BusWrite(imem, w, offset, v), Start(w, offset), Span(w))
  {
    hide Write, PutHost32, BusWord, ChangedWithin;
    if w.W64? { DoubleChanges(imem, offset / 8 * 8, v); } else { WordChanges(imem, offset / 4 * 4, BusWord(w, offset, v)); }
  }

  // ---- Every run ------------------------------------------------------------------------------------

  datatype Imem = Imem(mem: Local, insns: seq<Insn>)

  /** A row of DMA, then its note. */
  function DmaRows(s: Imem, rdram: Rdram, t: Transfer): Imem
    requires t.Valid() && |s.insns| == WORDS
    decreases t.rows
  {
    if t.rows == 0 then s
    else
      var row := ReadRow(s.mem, rdram, true, t.d, t.m, t.length);
      DmaRows(Imem(row, Refreshed(s.insns, row, t.m, t.length)), rdram, t.Next())
  }

  datatype Op = BusOp(w: Width, offset: nat, v: u64) | DmaOp(rdram: Rdram, t: Transfer) | ResetOp

  predicate Proper(op: Op) { (op.BusOp? ==> op.offset < MEM) && (op.DmaOp? ==> op.t.Valid()) }

  function Step(s: Imem, op: Op): Imem
    requires Proper(op) && |s.insns| == WORDS
  {
    match op
    case BusOp(w, offset, v) =>
      var mem := BusWrite(s.mem, w, offset, v);
      Imem(mem, Refreshed(s.insns, mem, Start(w, offset), Span(w)))
    case DmaOp(rdram, t) => DmaRows(s, rdram, t)
    case ResetOp => Imem(ZEROS, seq(WORDS, _ => Decode(0)))
  }

  lemma {:induction false} DmaKeeps(s: Imem, rdram: Rdram, t: Transfer)
    requires t.Valid() && Coherent(s.insns, s.mem)
    ensures var s' := DmaRows(s, rdram, t); Coherent(s'.insns, s'.mem) && s'.mem == ReadRows(s.mem, rdram, t.(imem := true))
    decreases t.rows
  {
    hide ReadRow, Refreshed, ChangedWithin, Coherent;
    SlotCount(s.insns, s.mem);
    if t.rows > 0 {
      var row := ReadRow(s.mem, rdram, true, t.d, t.m, t.length);
      RowChanges(s.mem, rdram, t.d, t.m, t.length);
      RefreshKeeps(s.insns, s.mem, row, t.m, t.length);
      DmaKeeps(Imem(row, Refreshed(s.insns, row, t.m, t.length)), rdram, t.Next());
    }
  }

  lemma SlotCount(insns: seq<Insn>, imem: Local)
    requires Coherent(insns, imem)
    ensures |insns| == WORDS
  {}

  lemma StepKeeps(s: Imem, op: Op)
    requires Proper(op) && Coherent(s.insns, s.mem)
    ensures Coherent(Step(s, op).insns, Step(s, op).mem)
  {
    match op
    case BusOp(w, offset, v) =>
      hide BusWrite, Refreshed, ChangedWithin, Host32;
      BusChanges(s.mem, w, offset, v);
      RefreshKeeps(s.insns, s.mem, BusWrite(s.mem, w, offset, v), Start(w, offset), Span(w));
    case DmaOp(rdram, t) => DmaKeeps(s, rdram, t);
    case ResetOp =>
  }

  function Run(s: Imem, ops: seq<Op>): Imem
    requires Coherent(s.insns, s.mem) && forall i :: 0 <= i < |ops| ==> Proper(ops[i])
    decreases |ops|
  {
    if ops == [] then s
    else
      StepKeeps(s, ops[0]);
      Run(Step(s, ops[0]), ops[1..])
  }

  /** After any run of bus writes of every width, DMA with wrapping rows and resets, executing from the decoded
      slots is decoding at every fetch. */
  lemma {:induction false} FetchIsDecode(s: Imem, ops: seq<Op>, pc: nat)
    requires Coherent(s.insns, s.mem) && (forall i :: 0 <= i < |ops| ==> Proper(ops[i])) && pc < MEM && pc % 4 == 0
    ensures var s' := Run(s, ops); |s'.insns| == WORDS && s'.insns[pc / 4] == Decode(Host32(s'.mem, pc))
    decreases |ops|
  {
    if ops == [] {
      assert 4 * (pc / 4) == pc;
    } else {
      hide Step, Coherent;
      StepKeeps(s, ops[0]);
      FetchIsDecode(Step(s, ops[0]), ops[1..], pc);
    }
  }

  // ---- The memories ---------------------------------------------------------------------------------

  class Memories {
    const rdram: array<byte>
    const dmem: array<byte>
    const imem: array<byte>
    const insns: array<Insn>

    ghost predicate Allocated() {
      && rdram.Length == SIZE && dmem.Length == MEM && imem.Length == MEM && insns.Length == WORDS
      && rdram != dmem && rdram != imem && dmem != imem
    }

    /** What holds in every reachable state. */
    ghost predicate Valid()
      reads insns, imem
    {
      Allocated() && Coherent(insns[..], imem[..])
    }

    constructor ()
      ensures Valid() && fresh(rdram) && fresh(dmem) && fresh(imem) && fresh(insns)
    {
      rdram := new byte[SIZE](_ => 0);
      dmem := new byte[MEM](_ => 0);
      imem := new byte[MEM](_ => 0);
      insns := new Insn[WORDS](_ => Decode(0));
    }

    method RefreshWord(addr: nat)
      requires Allocated()
      modifies insns
      ensures insns[..] == old(insns[..])[addr / 4 % WORDS := Decode(Host32(imem[..], addr / 4 % WORDS * 4))]
    {
      hide Decode, Host32;
      var a := addr / 4 % WORDS * 4;
      assert a / 4 == addr / 4 % WORDS;
      insns[a / 4] := Decode(Host32(imem[..], a));
    }

    method NoteWritten(offset: nat, length: nat)
      requires Allocated() && offset < MEM && offset % 4 == 0 && length <= MEM
      modifies insns
      ensures insns[..] == Refreshed(old(insns[..]), imem[..], offset, length)
    {
      hide Decode, Host32, Noted;
      ghost var was := insns[..];
      var i := 0;
      NothingNoted(offset);
      while i < length
        invariant i % 4 == 0 && i <= length + 3
        invariant forall k :: 0 <= k < WORDS ==>
          insns[k] == if Noted(k, offset, i) then Decode(Host32(imem[..], 4 * k)) else was[k]
      {
        NotedNext(offset, i);
        RefreshWord((offset + i) % MEM);
        i := i + 4;
      }
      NotedRounded(offset, i, length);
    }

    method Fetch(pc: nat) returns (i: Insn)
      requires Valid() && pc < MEM && pc % 4 == 0
      ensures i == Decode(Host32(imem[..], pc))
    {
      i := insns[pc / 4];
    }

    method StoreImem(w: Width, offset: nat, v: u64)
      requires Allocated() && offset < MEM
      modifies imem
      ensures imem[..] == BusWrite(old(imem[..]), w, offset, v)
    {
      hide Write, PutHost32;
      if w.W64? {
        WriteArray(imem, W64, offset / 8 * 8, v);
      } else {
        BusWordFits(w, offset, v);
        PutWord(imem, offset / 4 * 4, BusWord(w, offset, v));
      }
    }

    method WriteImem(w: Width, offset: nat, v: u64)
      requires Valid() && offset < MEM
      modifies imem, insns
      ensures Valid() && imem[..] == BusWrite(old(imem[..]), w, offset, v)
    {
      hide Host32, BusWrite, Refreshed, Coherent, ChangedWithin;
      ghost var before, insnsBefore := imem[..], insns[..];
      ghost var now := BusWrite(imem[..], w, offset, v);
      StoreImem(w, offset, v);
      assert imem[..] == now && insns[..] == insnsBefore;
      NoteWritten(Start(w, offset), Span(w));
      assert imem[..] == now;
      BusChanges(before, w, offset, v);
      RefreshKeeps(insnsBefore, before, now, Start(w, offset), Span(w));
    }

    method ReadRowInto(mem: array<byte>, imemSide: bool, d: nat, m: nat, length: nat)
      requires Allocated() && mem.Length == MEM && mem != rdram
      modifies mem
      ensures mem[..] == ReadRow(old(mem[..]), rdram[..], imemSide, d, m, length)
    {
      hide Index;
      for j := 0 to length
        invariant mem[..] == ReadRow(old(mem[..]), rdram[..], imemSide, d, m, j)
      {
        var addr := (m + j) % MEM;
        IndexBound(imemSide, addr);
        mem[Index(imemSide, addr)] := if d + j < SIZE then rdram[d + j] else 0;
      }
    }

    method ReadImemRow(t: Transfer)
      requires Valid() && t.Valid() && t.imem
      modifies imem, insns
      ensures Valid() && imem[..] == ReadRow(old(imem[..]), rdram[..], true, t.d, t.m, t.length)
    {
      hide ReadRow, Coherent, ChangedWithin, Refreshed;
      ghost var before, insnsBefore := imem[..], insns[..];
      ReadRowInto(imem, true, t.d, t.m, t.length);
      NoteWritten(t.m, t.length);
      RowChanges(before, rdram[..], t.d, t.m, t.length);
      RefreshKeeps(insnsBefore, before, imem[..], t.m, t.length);
    }

    method ReadImem(t: Transfer)
      requires Valid() && t.Valid() && t.imem
      modifies imem, insns
      ensures Valid() && imem[..] == ReadRows(old(imem[..]), rdram[..], t)
    {
      hide ReadRow, Coherent;
      var left := t;
      while left.rows > 0
        invariant Valid() && left.Valid() && left.imem
        invariant ReadRows(imem[..], rdram[..], left) == ReadRows(old(imem[..]), rdram[..], t)
        decreases left.rows
      {
        ReadImemRow(left);
        left := left.Next();
      }
    }

    method ReadDmem(t: Transfer)
      requires Valid() && t.Valid() && !t.imem
      modifies dmem
      ensures Valid() && dmem[..] == ReadRows(old(dmem[..]), rdram[..], t)
    {
      hide ReadRow, Coherent;
      var left := t;
      while left.rows > 0
        invariant Valid() && left.Valid() && !left.imem
        invariant ReadRows(dmem[..], rdram[..], left) == ReadRows(old(dmem[..]), rdram[..], t)
        decreases left.rows
      {
        ReadRowInto(dmem, false, left.d, left.m, left.length);
        left := left.Next();
      }
    }

    /** dma_read, from RDRAM. */
    method DmaRead(t: Transfer)
      requires Valid() && t.Valid()
      modifies dmem, imem, insns
      ensures Valid()
      ensures t.imem ==> imem[..] == ReadRows(old(imem[..]), rdram[..], t) && dmem[..] == old(dmem[..])
      ensures !t.imem ==> dmem[..] == ReadRows(old(dmem[..]), rdram[..], t) && imem[..] == old(imem[..])
    {
      hide ReadRows, Coherent;
      if t.imem { ReadImem(t); } else { ReadDmem(t); }
    }

    /** dma_write, to RDRAM. */
    method DmaWrite(t: Transfer)
      requires Valid() && t.Valid()
      modifies rdram
      ensures Valid() && rdram[..] == WriteRows(old(rdram[..]), (if t.imem then imem else dmem)[..], t)
    {
      hide Index, Coherent;
      var mem := if t.imem then imem else dmem;
      var left := t;
      while left.rows > 0
        invariant Valid() && left.Valid() && left.imem == t.imem
        invariant WriteRows(rdram[..], mem[..], left) == WriteRows(old(rdram[..]), mem[..], t)
        decreases left.rows
      {
        ghost var before := rdram[..];
        for j := 0 to left.length
          invariant rdram[..] == WriteRow(before, mem[..], left.imem, left.d, left.m, j) && Valid()
        {
          var addr := (left.m + j) % MEM;
          IndexBound(left.imem, addr);
          if left.d + j < SIZE { rdram[left.d + j] := mem[Index(left.imem, addr)]; }
        }
        left := left.Next();
      }
    }

    method Reset()
      requires Allocated()
      modifies dmem, imem, insns
      ensures Valid() && dmem[..] == ZEROS && imem[..] == ZEROS
    {
      hide Decode, Host32;
      forall i | 0 <= i < MEM { dmem[i] := 0; }
      forall i | 0 <= i < MEM { imem[i] := 0; }
      assert dmem[..] == ZEROS && imem[..] == ZEROS;
      for k := 0 to WORDS
        invariant dmem[..] == ZEROS && imem[..] == ZEROS
        invariant forall i :: 0 <= i < k ==> insns[i] == Decode(Host32(imem[..], 4 * i))
      {
        RefreshWord(4 * k);
      }
    }
  }

  lemma NothingNoted(offset: nat)
    ensures forall k :: 0 <= k < WORDS ==> !Noted(k, offset, 0)
  {}

  lemma StepBehind(k: nat, q: nat, j: nat)
    requires k < WORDS && q < WORDS && j < WORDS
    ensures (k + WORDS - q) % WORDS == j <==> k == (q + j) % WORDS
  {
    Around(k, q);
    if q + j < WORDS { Euclid(q + j, WORDS, 0, q + j); } else { Euclid(q + j, WORDS, 1, q + j - WORDS); }
  }

  /** One more word of a range. */
  lemma NotedNext(offset: nat, i: nat)
    requires offset < MEM && offset % 4 == 0 && i % 4 == 0 && i < MEM
    ensures forall k :: 0 <= k < WORDS ==>
      (Noted(k, offset, i + 4) <==> Noted(k, offset, i) || k == (offset + i) % MEM / 4 % WORDS)
  {
    var q, j := offset / 4, i / 4;
    var x := (q + j) % WORDS;
    Euclid(offset + i, MEM, (q + j) / WORDS, 4 * x);
    Euclid(4 * x, 4, x, 0);
    Euclid(x, WORDS, 0, x);
    Euclid(i + 4 + 3, 4, j + 1, 3);
    Euclid(i + 3, 4, j, 3);
    Euclid(q, WORDS, 0, q);
    forall k | 0 <= k < WORDS
      ensures Noted(k, offset, i + 4) <==> Noted(k, offset, i) || k == (offset + i) % MEM / 4 % WORDS
    {
      StepBehind(k, q, j);
    }
  }

  lemma NotedRounded(offset: nat, i: nat, length: nat)
    requires i % 4 == 0 && length <= i <= length + 3
    ensures forall k :: 0 <= k < WORDS ==> (Noted(k, offset, i) <==> Noted(k, offset, length))
  {
    Euclid(i + 3, 4, i / 4, 3);
    Euclid(length + 3, 4, i / 4, length + 3 - i);
  }
}
