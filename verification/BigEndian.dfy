/** Memory as the N64 sees it: bytes in address order, numbers with their high byte first, whatever order the host keeps
    them in (src/utils/byte_array.cpp:7-82, src/cpu/jit/helpers.cpp:156-219, src/memory/bus.cpp:374-397). */
module BigEndian {
  import opened Common
  import opened ByteOrder
  import opened Cpu
  import SoftTlb
  import R = RspMemory
  import C = DecodeCache

  /** The byte at an address. */
  function ByteAt(mem: seq<byte>, k: nat): byte { Read(mem, W8, k) }

  function Pow(n: nat): (r: nat)
    ensures r > 0
  {
    match n case 0 => 1 case 1 => 0x100 case 2 => 0x1_0000 case 3 => 0x100_0000 case 4 => WORD
    case 5 => 0x100 * WORD case 6 => 0x1_0000 * WORD case 7 => 0x100_0000 * WORD case _ => DOUBLE
  }

  /** The number n bytes stand for, high byte first. */
  function Value(mem: seq<byte>, p: nat, n: nat): nat {
    if n == 0 then 0 else Value(mem, p, n - 1) * 0x100 + ByteAt(mem, p + n - 1)
  }

  /** Byte j of a number written with n bytes. */
  function Digit(v: nat, n: nat, j: nat): byte
    requires j < n
  {
    v / Pow(n - 1 - j) % 0x100
  }

  predicate Fits(mem: seq<byte>, w: Width, p: nat) { |mem| % 4 == 0 && p % w.Size() == 0 && p + w.Size() <= |mem| }

  // ---- Bytes in a word ------------------------------------------------------------------------------

  /** Byte j of an aligned word lies 3 - j behind its start in the host's order. */
  lemma ByteOfWord(mem: seq<byte>, q: nat, j: nat)
    requires j < 4
    ensures ByteAddress(4 * q + j) == 4 * q + (3 - j) && HalfAddress(4 * q + j) == 4 * q + (if j < 2 then j + 2 else j - 2)
    ensures ByteAt(mem, 4 * q + j) == At(mem, 4 * q + (3 - j))
  {
    Mirror(4 * q + j);
    Euclid(4 * q + j, 4, q, j);
    hide ByteAddress, HalfAddress;
  }

  lemma WordAligned(mem: seq<byte>, k: nat)
    requires |mem| % 4 == 0 && k < |mem|
    ensures k / 4 * 4 + 4 <= |mem|
  {}

  /** A halfword sits in one half of its word. */
  lemma HalfPlace(p: nat)
    requires p % 2 == 0
    ensures p % 4 == 0 || p % 4 == 2
  {
    Euclid(p, 2, 2 * (p / 4) + p % 4 / 2, p % 4 % 2);
  }

  // ---- Reading --------------------------------------------------------------------------------------

  lemma ReadsWord(mem: seq<byte>, q: nat)
    ensures Host32(mem, 4 * q) == Value(mem, 4 * q, 4)
  {
    ByteOfWord(mem, q, 0); ByteOfWord(mem, q, 1); ByteOfWord(mem, q, 2); ByteOfWord(mem, q, 3);
    hide ByteAt;
    var p := 4 * q;
    assert Value(mem, p, 1) == ByteAt(mem, p);
    assert Value(mem, p, 2) == Value(mem, p, 1) * 0x100 + ByteAt(mem, p + 1);
    assert Value(mem, p, 3) == Value(mem, p, 2) * 0x100 + ByteAt(mem, p + 2);
  }

  lemma ReadsHalf(mem: seq<byte>, q: nat, j: nat)
    requires j == 0 || j == 2
    ensures Read(mem, W16, 4 * q + j) == Value(mem, 4 * q + j, 2)
  {
    ByteOfWord(mem, q, j); ByteOfWord(mem, q, j + 1);
    hide ByteAt, HalfAddress;
    var p := 4 * q + j;
    assert Value(mem, p, 1) == ByteAt(mem, p);
  }

  lemma {:induction false} ValueCat(mem: seq<byte>, p: nat, m: nat, n: nat)
    requires n <= 4
    ensures Value(mem, p, m + n) == Value(mem, p, m) * Pow(n) + Value(mem, p + m, n)
    decreases n
  {
    hide ByteAt;
    if n > 0 {
      ValueCat(mem, p, m, n - 1);
      assert Pow(n) == 0x100 * Pow(n - 1);
      assert Value(mem, p, m) * Pow(n - 1) * 0x100 == Value(mem, p, m) * Pow(n);
    }
  }

  /** An aligned read of any width is the number its bytes stand for. */
  lemma ReadIsValue(mem: seq<byte>, w: Width, p: nat)
    requires Fits(mem, w, p)
    ensures Read(mem, w, p) == Value(mem, p, w.Size())
  {
    hide ByteAt, Host32, HalfAddress;
    match w
    case W8 => OneByte(mem, p);
    case W16 => HalfPlace(p); ReadsHalf(mem, p / 4, p % 4);
    case W32 => ReadsWord(mem, p / 4);
    case W64 =>
      Euclid(p, 4, 2 * (p / 8), 0);
      ReadsWord(mem, 2 * (p / 8));
      ReadsWord(mem, 2 * (p / 8) + 1);
      ValueCat(mem, p, 4, 4);
  }

  lemma OneByte(mem: seq<byte>, p: nat)
    ensures Value(mem, p, 1) == ByteAt(mem, p) == Read(mem, W8, p)
  {}

  // ---- Writing --------------------------------------------------------------------------------------

  lemma Halves(mem: seq<byte>, i: nat, v: nat, k: nat)
    requires i + 2 <= |mem|
    ensures At(PutHost16(mem, i, v), k) == if k == i then v % 0x100 else if k == i + 1 then v / 0x100 % 0x100 else At(mem, k)
  {}

  lemma Words(mem: seq<byte>, i: nat, v: nat, k: nat)
    requires i + 4 <= |mem|
    ensures At(PutHost32(mem, i, v), k) ==
      if k == i then v % 0x100 else if k == i + 1 then v / 0x100 % 0x100
      else if k == i + 2 then v / 0x1_0000 % 0x100 else if k == i + 3 then v / 0x100_0000 % 0x100 else At(mem, k)
  {
    hide PutHost16, At;
    Halves(mem, i, v % 0x1_0000, k);
    Halves(PutHost16(mem, i, v % 0x1_0000), i + 2, v / 0x1_0000 % 0x1_0000, k);
    DigitsOf(v);
  }

  lemma DigitsOf(v: nat)
    ensures v % 0x1_0000 % 0x100 == v % 0x100 && v % 0x1_0000 / 0x100 % 0x100 == v / 0x100 % 0x100
    ensures v / 0x1_0000 % 0x1_0000 % 0x100 == v / 0x1_0000 % 0x100
    ensures v / 0x1_0000 % 0x1_0000 / 0x100 % 0x100 == v / 0x100_0000 % 0x100
  {
    LowHalf(v);
    LowHalf(v / 0x1_0000);
    Euclid(v, 0x100_0000, v / 0x1_0000 / 0x100, v / 0x1_0000 % 0x100 * 0x1_0000 + v % 0x1_0000);
  }

  lemma LowHalf(v: nat)
    ensures v % 0x1_0000 % 0x100 == v % 0x100 && v % 0x1_0000 / 0x100 % 0x100 == v / 0x100 % 0x100
  {
    var q, x := v / 0x1_0000, v % 0x1_0000;
    Euclid(v, 0x100, 0x100 * q + x / 0x100, x % 0x100);
    Euclid(0x100 * q + x / 0x100, 0x100, q, x / 0x100);
    Euclid(x / 0x100, 0x100, 0, x / 0x100);
  }

  /** A written word holds the number's bytes in order, and no other byte changes. */
  lemma WritesWord(mem: seq<byte>, q: nat, v: nat, k: nat)
    requires |mem| % 4 == 0 && 4 * q + 4 <= |mem| && k < |mem|
    ensures ByteAt(PutHost32(mem, 4 * q, v), k) ==
      if 4 * q <= k < 4 * q + 4 then Digit(v, 4, k - 4 * q) else ByteAt(mem, k)
  {
    hide PutHost32, At, ByteAddress;
    var r, j := k / 4, k % 4;
    ByteOfWord(mem, r, j);
    ByteOfWord(PutHost32(mem, 4 * q, v), r, j);
    Words(mem, 4 * q, v, 4 * r + (3 - j));
    hide ByteAt;
  }

  lemma WritesHalf(mem: seq<byte>, q: nat, j: nat, v: nat, k: nat)
    requires |mem| % 4 == 0 && 4 * q + 4 <= |mem| && k < |mem| && (j == 0 || j == 2)
    ensures ByteAt(PutHost16(mem, HalfAddress(4 * q + j), v), k) ==
      if 4 * q + j <= k < 4 * q + j + 2 then Digit(v, 2, k - (4 * q + j)) else ByteAt(mem, k)
  {
    hide PutHost16, At, ByteAddress, HalfAddress;
    var r, i := k / 4, k % 4;
    ByteOfWord(mem, q, j);
    ByteOfWord(mem, r, i);
    ByteOfWord(PutHost16(mem, HalfAddress(4 * q + j), v), r, i);
    Halves(mem, HalfAddress(4 * q + j), v, 4 * r + (3 - i));
    hide ByteAt;
  }

  lemma WritesByte(mem: seq<byte>, p: nat, v: nat, k: nat)
    requires |mem| % 4 == 0 && p < |mem| && k < |mem|
    ensures ByteAt(Put(mem, ByteAddress(p), v % 0x100), k) == if k == p then v % 0x100 else ByteAt(mem, k)
  {
    Mirror(p);
    MirrorTwice(p);
    MirrorTwice(k);
    Mirror(k);
    hide ByteAddress;
  }

  /** An aligned write of any width puts the value's bytes there, high byte first, and changes no other byte. */
  lemma WriteIsBytes(mem: seq<byte>, w: Width, p: nat, v: u64, k: nat)
    requires Fits(mem, w, p) && k < |mem|
    ensures ByteAt(Write(mem, w, p, v), k) == if p <= k < p + w.Size() then Digit(v, w.Size(), k - p) else ByteAt(mem, k)
  {
    hide PutHost32, PutHost16, Put, ByteAt, HalfAddress, ByteAddress;
    match w
    case W8 => WritesByte(mem, p, v, k);
    case W16 =>
      HalfPlace(p);
      WordAligned(mem, p);
      WritesHalf(mem, p / 4, p % 4, v % 0x1_0000, k);
      LowHalf(v);
      Euclid(v % 0x1_0000 / 0x100, 0x100, 0, v % 0x1_0000 / 0x100);
    case W32 =>
      WritesWord(mem, p / 4, v % WORD, k);
      if p <= k < p + 4 { LowWord(v, k - p); }
    case W64 =>
      Euclid(p, 4, 2 * (p / 8), 0);
      var mem' := PutHost32(mem, p, v / WORD);
      WritesWord(mem, 2 * (p / 8), v / WORD, k);
      WritesWord(mem', 2 * (p / 8) + 1, v % WORD, k);
      if p <= k < p + 4 { HighWord(v, k - p); }
      if p + 4 <= k < p + 8 { LowWordOfDouble(v, k - p - 4); }
  }

  lemma LowWord(v: nat, j: nat)
    requires j < 4
    ensures Digit(v % WORD, 4, j) == Digit(v, 4, j)
  {
    var q, x := v / WORD, v % WORD;
    if j == 3 { Euclid(v, 0x100, 0x100_0000 * q + x / 0x100, x % 0x100); }
    else if j == 2 { Shifted(v, 0x100, 0x100_0000); }
    else if j == 1 { Shifted(v, 0x1_0000, 0x1_0000); }
    else { Shifted(v, 0x100_0000, 0x100); }
  }

  /** Bytes above a word do not matter to those in it. */
  lemma Shifted(v: nat, low: nat, high: nat)
    requires (low, high) == (0x100, 0x100_0000) || (low, high) == (0x1_0000, 0x1_0000) || (low, high) == (0x100_0000, 0x100)
    ensures v % WORD / low % 0x100 == v / low % 0x100
  {
    var q, x := v / WORD, v % WORD;
    var y, z := x / low, x % low;
    Euclid(v, low, high * q + y, z);
    var h := high / 0x100;
    Euclid(high * q + y, 0x100, h * q + y / 0x100, y % 0x100);
  }

  lemma HighWord(v: nat, j: nat)
    requires j < 4
    ensures Digit(v / WORD, 4, j) == Digit(v, 8, j)
  {
    var h := v / WORD;
    if j == 3 {}
    else if j == 2 { Nested(v, 0x100); }
    else if j == 1 { Nested(v, 0x1_0000); }
    else { Nested(v, 0x100_0000); }
  }

  lemma Nested(v: nat, low: nat)
    requires low == 0x100 || low == 0x1_0000 || low == 0x100_0000
    ensures v / WORD / low == v / (low * WORD)
  {
    var h, x := v / WORD, v % WORD;
    Euclid(v, low * WORD, h / low, h % low * WORD + x);
  }

  lemma LowWordOfDouble(v: nat, j: nat)
    requires j < 4
    ensures Digit(v % WORD, 4, j) == Digit(v, 8, j + 4)
  {
    LowWord(v, j);
  }

  // ---- Loads and stores -----------------------------------------------------------------------------

  predicate IsSigned(k: Kind) { k.Lb? || k.Lh? || k.Lw? }

  /** A register holding an n-byte number, sign-extended or not. */
  function Extended(k: Kind, x: nat, n: nat): int {
    if IsSigned(k) && 2 * x >= Pow(n) then x - Pow(n) + DOUBLE else x
  }

  /** A direct-mapped, aligned address in RDRAM. */
  predicate Direct(s: Core, op: IrOp) {
    var va := Address(s, op); SoftTlb.DirectMap(va).Some? && Fits(s.rdram, WidthOf(op.kind), va % 0x2000_0000)
  }

  lemma DirectTransfer(s: Core, op: IrOp)
    requires IsMem(op.kind) && SoftTlb.DirectMap(Address(s, op)).Some?
    ensures Memory(s, op) == Transfer(s, op, Address(s, op) % 0x2000_0000)
  {
    hide Transfer, Address, AccessOf;
  }

  lemma ExtendIs(k: Kind, x: nat)
    requires IsPlainLoad(k) && x < Pow(WidthOf(k).Size())
    ensures 0 <= Extended(k, x, WidthOf(k).Size()) < DOUBLE && Extend(k, x) == Extended(k, x, WidthOf(k).Size())
  {
    match k
    case Lb => Euclid(x, 0x100, 0, x); Wrapped(if x < 0x80 then x else x - 0x100);
    case Lh => Euclid(x, 0x1_0000, 0, x); Wrapped(if x < 0x8000 then x else x - 0x1_0000);
    case Lw => Euclid(x, WORD, 0, x); Wrapped(if x < 0x8000_0000 then x else x - WORD);
    case _ =>
  }

  lemma Wrapped(x: int)
    requires -0x8000_0000 <= x < 0x8000_0000
    ensures Wrap(x) == if x < 0 then x + DOUBLE else x
  {
    if x < 0 { Euclid(x, DOUBLE, -1, x + DOUBLE); } else { Euclid(x, DOUBLE, 0, x); }
  }

  lemma ReadBound(mem: seq<byte>, w: Width, p: nat)
    ensures Read(mem, w, p) < Pow(w.Size())
  {}

  /** A load leaves in rt the number at the address, extended as its kind says. */
  lemma LoadsTheNumber(s: Core, op: IrOp)
    requires IsPlainLoad(op.kind) && Direct(s, op)
    ensures var n := WidthOf(op.kind).Size(); var x := Value(s.rdram, Address(s, op) % 0x2000_0000, n);
      && 0 <= Extended(op.kind, x, n) < DOUBLE
      && Memory(s, op) == SetGpr(s, op.rt, Extended(op.kind, x, n))
  {
    hide Value, Read, SetGpr, Address, Extended, Memory, Extend;
    var w, p := WidthOf(op.kind), Address(s, op) % 0x2000_0000;
    DirectTransfer(s, op);
    ReadIsValue(s.rdram, w, p);
    ReadBound(s.rdram, w, p);
    ExtendIs(op.kind, Value(s.rdram, p, w.Size()));
    EmitInRdram(s, op, p);
  }

  lemma EmitInRdram(s: Core, op: IrOp, p: nat)
    requires IsPlainLoad(op.kind) && Fits(s.rdram, WidthOf(op.kind), p)
    ensures Transfer(s, op, p) == SetGpr(s, op.rt, Extend(op.kind, Read(s.rdram, WidthOf(op.kind), p)))
  {
    hide Read, SetGpr, Extend;
  }

  lemma SameDigits(v: u64, w: Width, j: nat)
    requires j < w.Size()
    ensures Limit(w) == Pow(w.Size()) && Digit(v % Limit(w), w.Size(), j) == Digit(v, w.Size(), j)
  {
    match w
    case W8 => Euclid(v % 0x100, 0x100, 0, v % 0x100);
    case W16 => LowHalf(v);
    case W32 => LowWord(v, j);
    case W64 => SmallDouble(v);
  }

  /** A store puts the bytes of rt at the address, and changes nothing else. */
  lemma StoresTheBytes(s: Core, op: IrOp, k: nat)
    requires IsPlainStore(op.kind) && Direct(s, op) && k < |s.rdram|
    ensures var n, p := WidthOf(op.kind).Size(), Address(s, op) % 0x2000_0000; var s' := Memory(s, op);
      && s' == s.(rdram := s'.rdram)
      && ByteAt(s'.rdram, k) == if p <= k < p + n then Digit(Gpr(s, op.rt), n, k - p) else ByteAt(s.rdram, k)
  {
    hide ByteAt, Write, Address, Digit, Memory, Gpr;
    var w, p := WidthOf(op.kind), Address(s, op) % 0x2000_0000;
    var v := Gpr(s, op.rt);
    DirectTransfer(s, op);
    StoreWrites(s, op, p);
    WriteIsBytes(s.rdram, w, p, v % Limit(w), k);
    if p <= k < p + w.Size() { SameDigits(v, w, k - p); }
  }

  lemma SmallDouble(v: u64)
    ensures v % Limit(W64) == v
  {
    Euclid(v, DOUBLE, 0, v);
  }

  lemma StoreWrites(s: Core, op: IrOp, p: nat)
    requires IsPlainStore(op.kind) && Fits(s.rdram, WidthOf(op.kind), p)
    ensures var w := WidthOf(op.kind);
      Transfer(s, op, p) == s.(rdram := Write(s.rdram, w, p, Gpr(s, op.rt) % Limit(w)))
  {
    hide Write, Gpr, Limit;
  }

  // ---- Writes of the CPU to the RSP's instruction memory --------------------------------------------

  /** A narrow write still writes the whole word around it: its bytes in their place, and zeros. A doubleword goes to
      its aligned place. */
  lemma BusWriteIsBytes(imem: R.SpDma.Local, w: Width, offset: nat, v: u64, k: nat)
    requires offset < 0x1000 && k < 0x1000
    ensures var n := if w.W64? then 8 else 4; var base := offset / n * n; var at := offset / w.Size() * w.Size();
      ByteAt(R.BusWrite(imem, w, offset, v), k) ==
        if !(base <= k < base + n) then ByteAt(imem, k)
        else if at <= k < at + w.Size() then Digit(v, w.Size(), k - at)
        else 0
  {
    hide ByteAt, PutHost32, Write;
    if w.W64? {
      Euclid(offset / 8 * 8, 8, offset / 8, 0);
      WriteIsBytes(imem, W64, offset / 8 * 8, v, k);
    } else {
      var q := offset / 4;
      WritesWord(imem, q, R.BusWord(w, offset, v), k);
      if 4 * q <= k < 4 * q + 4 { BusDigits(w, offset, v, k - 4 * q); }
    }
  }

  lemma BusDigits(w: Width, offset: nat, v: u64, j: nat)
    requires !w.W64? && j < 4
    ensures var at := offset % 4 / w.Size() * w.Size();
      offset / w.Size() * w.Size() == offset / 4 * 4 + at
      && Digit(R.BusWord(w, offset, v), 4, j) == if at <= j < at + w.Size() then Digit(v, w.Size(), j - at) else 0
  {
    var q, r := offset / 4, offset % 4;
    match w
    case W8 => Euclid(offset, 1, offset, 0); Euclid(r, 1, r, 0); PlacedByte(v % 0x100, r, j); Euclid(v, 1, v, 0);
    case W16 =>
      Euclid(offset, 2, 2 * q + r / 2, r % 2);
      Euclid(2 * q + r / 2, 2, q, r / 2);
      PlacedHalf(v % 0x1_0000, r / 2, j);
      LowHalf(v);
      Euclid(v, 1, v, 0);
    case W32 => LowWord(v, j);
  }

  lemma PlacedByte(b: nat, r: nat, j: nat)
    requires b < 0x100 && r < 4 && j < 4
    ensures Digit(b * (match r case 0 => 0x100_0000 case 1 => 0x1_0000 case 2 => 0x100 case _ => 1), 4, j) == if j == r then b else 0
  {
    FourDigits(if r == 0 then b else 0, if r == 1 then b else 0, if r == 2 then b else 0, if r == 3 then b else 0, j);
  }

  lemma PlacedHalf(h: nat, half_: nat, j: nat)
    requires h < 0x1_0000 && half_ < 2 && j < 4
    ensures Digit(if half_ == 0 then h * 0x1_0000 else h, 4, j) ==
      if j / 2 != half_ then 0 else if j % 2 == 0 then h / 0x100 % 0x100 else h % 0x100
  {
    var x, y := h / 0x100, h % 0x100;
    Euclid(x, 0x100, 0, x);
    if half_ == 0 { FourDigits(x, y, 0, 0, j); } else { FourDigits(0, 0, x, y, j); }
  }

  lemma FourDigits(a: nat, b: nat, c: nat, d: nat, j: nat)
    requires a < 0x100 && b < 0x100 && c < 0x100 && d < 0x100 && j < 4
    ensures Digit(a * 0x100_0000 + b * 0x1_0000 + c * 0x100 + d, 4, j) == if j == 0 then a else if j == 1 then b else if j == 2 then c else d
  {
    var v := a * 0x100_0000 + b * 0x1_0000 + c * 0x100 + d;
    Euclid(v, 0x100_0000, a, b * 0x1_0000 + c * 0x100 + d);
    Euclid(v, 0x1_0000, a * 0x100 + b, c * 0x100 + d);
    Euclid(v, 0x100, a * 0x1_0000 + b * 0x100 + c, d);
    Euclid(a, 0x100, 0, a);
    Euclid(a * 0x100 + b, 0x100, a, b);
    Euclid(a * 0x1_0000 + b * 0x100 + c, 0x100, a * 0x100 + b, c);
    Euclid(v, 1, v, 0);
  }

  // ---- PI DMA ---------------------------------------------------------------------------------------

  /** A cartridge DMA that does not wrap puts the bytes at consecutive addresses. */
  lemma {:induction false} CartridgeBytes(rdram: C.D.Rdram, data: seq<byte>, dram: nat, n: nat, k: nat)
    requires n <= |data| && dram + n <= C.SIZE && k < C.SIZE
    ensures ByteAt(C.PiBytes(rdram, data, dram, n), k) == if dram <= k < dram + n then data[k - dram] else ByteAt(rdram, k)
  {
    hide ByteAddress;
    Mirror(k);
    if n > 0 {
      var p := dram + (n - 1);
      CartridgeBytes(rdram, data, dram, n - 1, k);
      Euclid(p, C.SIZE, 0, p);
      Mirror(p);
      MirrorTwice(p);
      MirrorTwice(k);
    }
  }
}
