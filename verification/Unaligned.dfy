/** Unaligned loads and stores: LWL, LWR, SWL, SWR and LDL, LDR, SDL, SDR on logical bytes of RDRAM
    (src/cpu/cpu_instruction_impl.cpp:726-770, 800-832, 909-971, 990-1024). */
module Unaligned {
  import opened Common
  import opened Bits
  import opened ByteOrder
  import opened Cpu
  import D = SpDma
  import SoftTlb
  import Tlb

  // ---- Big-endian numerals --------------------------------------------------------------------------

  function Pow(k: nat): (r: nat)
    ensures r > 0
  {
    if k == 0 then 1 else 0x100 * Pow(k - 1)
  }

  /** The number big-endian bytes stand for. */
  function Num(b: seq<byte>): (r: nat)
    ensures r < Pow(|b|)
    decreases |b|
  {
    if b == [] then 0 else 0x100 * Num(b[..|b| - 1]) + b[|b| - 1]
  }

  /** The low n bytes of a number. */
  function BytesOf(x: nat, n: nat): (b: seq<byte>)
    ensures |b| == n
    decreases n
  {
    if n == 0 then [] else BytesOf(x / 0x100, n - 1) + [x % 0x100]
  }

  lemma {:induction false} NumOfBytes(x: nat, n: nat)
    requires x < Pow(n)
    ensures Num(BytesOf(x, n)) == x
    decreases n
  {
    if n > 0 {
      NumOfBytes(x / 0x100, n - 1);
      var b := BytesOf(x, n);
      assert b[..n - 1] == BytesOf(x / 0x100, n - 1) && b[n - 1] == x % 0x100;
    }
  }

  lemma {:induction false} PowAdd(j: nat, k: nat)
    ensures Pow(j + k) == Pow(j) * Pow(k)
  {
    if j > 0 {
      PowAdd(j - 1, k);
      assert j + k - 1 == (j - 1) + k;
      assert 0x100 * (Pow(j - 1) * Pow(k)) == 0x100 * Pow(j - 1) * Pow(k);
    }
  }

  lemma Scale(x: nat, p: nat)
    ensures x * (0x100 * p) == 0x100 * (x * p)
  {}

  lemma NumStep(b: seq<byte>)
    requires b != []
    ensures Num(b) == 0x100 * Num(b[..|b| - 1]) + b[|b| - 1] && Pow(|b|) == 0x100 * Pow(|b| - 1)
  {}

  lemma {:induction false} NumCat(a: seq<byte>, b: seq<byte>)
    ensures Num(a + b) == Num(a) * Pow(|b|) + Num(b)
    decreases |b|
  {
    if b == [] {
      assert a + b == a && Pow(0) == 1 && Num(b) == 0;
    } else {
      hide Num, Pow;
      var b' := b[..|b| - 1];
      NumCat(a, b');
      NumStep(b);
      NumStep(a + b);
      assert (a + b)[..|a + b| - 1] == a + b' && (a + b)[|a + b| - 1] == b[|b| - 1];
      Scale(Num(a), Pow(|b'|));
    }
  }

  /** The same, with the length of the back as a number. */
  lemma Joined(a: seq<byte>, b: seq<byte>, k: nat)
    requires |b| == k
    ensures Num(a + b) == Num(a) * Pow(k) + Num(b)
  {
    NumCat(a, b);
  }

  // ---- Merging --------------------------------------------------------------------------------------

  /** The first n bytes of x, then the first N - n bytes of y. */
  function KeepFirst(x: nat, y: nat, n: nat, size: nat): int
    requires n <= size
  {
    x / Pow(size - n) * Pow(size - n) + y / Pow(n)
  }

  /** The last N - n bytes of y, then the last n bytes of x. */
  function KeepLast(x: nat, y: nat, n: nat, size: nat): int
    requires n <= size
  {
    x % Pow(n) + y * Pow(n) % Pow(size)
  }

  /** A numeral cut in two. */
  lemma Cut(x: seq<byte>, n: nat, k: nat)
    requires n + k == |x|
    ensures Num(x) == Num(x[..n]) * Pow(k) + Num(x[n..]) && Num(x[n..]) < Pow(k)
  {
    hide Num, Pow;
    assert x == x[..n] + x[n..];
    Joined(x[..n], x[n..], k);
  }

  /** Dividing keeps the front, the remainder the back. */
  lemma FrontAndBack(x: seq<byte>, n: nat, k: nat)
    requires n + k == |x|
    ensures Num(x) / Pow(k) == Num(x[..n]) && Num(x) % Pow(k) == Num(x[n..])
  {
    hide Num, Pow;
    Cut(x, n, k);
    Euclid(Num(x), Pow(k), Num(x[..n]), Num(x[n..]));
  }

  lemma KeepFirstBytes(x: seq<byte>, y: seq<byte>, n: nat)
    requires |x| == |y| && n <= |x|
    ensures KeepFirst(Num(x), Num(y), n, |x|) == Num(x[..n] + y[..|x| - n])
  {
    hide Num, Pow;
    var m := |x| - n;
    FrontAndBack(x, n, m);
    FrontAndBack(y, m, n);
    Joined(x[..n], y[..m], m);
  }

  lemma KeepLastBytes(x: seq<byte>, y: seq<byte>, n: nat)
    requires |x| == |y| && n <= |x|
    ensures KeepLast(Num(x), Num(y), n, |x|) == Num(y[n..] + x[|x| - n..])
  {
    hide Num, Pow;
    var m := |x| - n;
    FrontAndBack(x, m, n);
    ShiftedOut(y, n, m);
    Joined(y[n..], x[m..], n);
  }

  lemma ShiftedOut(y: seq<byte>, n: nat, m: nat)
    requires n + m == |y|
    ensures Num(y) * Pow(n) % Pow(|y|) == Num(y[n..]) * Pow(n)
  {
    hide Num, Pow;
    Cut(y, n, m);
    ShiftOut(Num(y[..n]), Num(y[n..]), m, n);
    assert m + n == |y|;
  }

  /** Shifting n bytes up drops the top n. */
  lemma ShiftOut(high: nat, low: nat, m: nat, n: nat)
    requires low < Pow(m)
    ensures (high * Pow(m) + low) * Pow(n) % Pow(m + n) == low * Pow(n)
  {
    PowAdd(m, n);
    hide Pow;
    var p, q := Pow(m), Pow(n);
    Spread(high, p, low, q);
    Below(low, p, q);
    Euclid((high * p + low) * q, p * q, high, low * q);
  }

  lemma Spread(high: nat, p: nat, low: nat, q: nat)
    ensures (high * p + low) * q == high * (p * q) + low * q
  {}

  lemma Below(x: nat, p: nat, q: nat)
    requires x < p && q > 0
    ensures 0 <= x * q < p * q
  {}

  // ---- Memory as logical bytes ----------------------------------------------------------------------

  function Bytes(mem: D.Rdram): (b: seq<byte>)
    ensures |b| == D.SIZE
  {
    Logical(mem, true)
  }

  /** Memory with some bytes replaced. */
  function Spliced(b: seq<byte>, at: nat, new_: seq<byte>): (r: seq<byte>)
    requires at + |new_| <= |b|
    ensures |r| == |b|
  {
    b[..at] + new_ + b[at + |new_|..]
  }

  lemma ByteOf(mem: D.Rdram, k: nat)
    requires k < D.SIZE
    ensures ByteAddress(k) < D.SIZE && Bytes(mem)[k] == mem[ByteAddress(k)]
  {
    Mirror(k);
    hide ByteAddress, Logical;
    LogicalAt(mem, true, k);
  }

  /** The four logical bytes of an aligned word. */
  lemma WordBytes(mem: D.Rdram, w: nat)
    requires w % 4 == 0 && w + 4 <= D.SIZE
    ensures Bytes(mem)[w] == mem[w + 3] && Bytes(mem)[w + 1] == mem[w + 2]
    ensures Bytes(mem)[w + 2] == mem[w + 1] && Bytes(mem)[w + 3] == mem[w]
  {
    hide ByteAddress, Bytes;
    ByteOf(mem, w); ByteOf(mem, w + 1); ByteOf(mem, w + 2); ByteOf(mem, w + 3);
    Mirror(w); Mirror(w + 1); Mirror(w + 2); Mirror(w + 3);
  }

  lemma NumOfFour(b: seq<byte>)
    requires |b| == 4
    ensures Num(b) == 0x100_0000 * b[0] as int + 0x1_0000 * b[1] as int + 0x100 * b[2] as int + b[3]
  {
    var b3, b2, b1 := b[..3], b[..2], b[..1];
    assert b3[..2] == b2 && b2[..1] == b1 && b1[..0] == [];
    assert Num(b1) == b[0];
    assert Num(b2) == 0x100 * Num(b1) + b[1];
    assert Num(b3) == 0x100 * Num(b2) + b[2];
  }

  lemma ReadWord(mem: D.Rdram, w: nat)
    requires w % 4 == 0 && w + 4 <= D.SIZE
    ensures Host32(mem, w) == Num(Bytes(mem)[w..w + 4])
  {
    hide Bytes, Num;
    WordBytes(mem, w);
    NumOfFour(Bytes(mem)[w..w + 4]);
  }

  lemma PutBytes(mem: D.Rdram, w: nat, v: nat, i: nat)
    requires w + 4 <= D.SIZE && v < WORD && i < D.SIZE
    ensures PutHost32(mem, w, v)[i] ==
      if i == w then v % 0x100 else if i == w + 1 then v / 0x100 % 0x100
      else if i == w + 2 then v / 0x1_0000 % 0x100 else if i == w + 3 then v / 0x100_0000 else mem[i]
  {
    PartsOf(v);
    var low := v % 0x1_0000;
    var high := v / 0x1_0000 % 0x1_0000;
    assert PutHost32(mem, w, v) == PutHost16(PutHost16(mem, w, low), w + 2, high);
    PutTwo(mem, w, low, i);
    PutTwo(PutHost16(mem, w, low), w + 2, high, i);
  }

  lemma PutTwo(mem: D.Rdram, w: nat, v: nat, i: nat)
    requires w + 2 <= D.SIZE && i < D.SIZE
    ensures PutHost16(mem, w, v)[i] == if i == w then v % 0x100 else if i == w + 1 then v / 0x100 % 0x100 else mem[i]
  {}

  /** The low bytes of the halves of a word. */
  lemma PartsOf(v: nat)
    requires v < WORD
    ensures v % 0x1_0000 % 0x100 == v % 0x100 && v % 0x1_0000 / 0x100 % 0x100 == v / 0x100 % 0x100
    ensures v / 0x1_0000 % 0x1_0000 % 0x100 == v / 0x1_0000 % 0x100
    ensures v / 0x1_0000 % 0x1_0000 / 0x100 % 0x100 == v / 0x100_0000
  {
    var q0, q1, q2 := v / 0x100, v / 0x100 / 0x100, v / 0x100 / 0x100 / 0x100;
    DigitsOf(v, q2, q1 % 0x100, q0 % 0x100, v % 0x100);
  }

  lemma DigitsOf(v: nat, a: nat, b: nat, c: nat, d: nat)
    requires v == 0x100_0000 * a + 0x1_0000 * b + 0x100 * c + d && a < 0x100 && b < 0x100 && c < 0x100 && d < 0x100
    ensures v / 0x100_0000 == a && v / 0x1_0000 % 0x100 == b && v / 0x100 % 0x100 == c && v % 0x100 == d
    ensures v % 0x1_0000 % 0x100 == d && v % 0x1_0000 / 0x100 % 0x100 == c
    ensures v / 0x1_0000 % 0x1_0000 % 0x100 == b && v / 0x1_0000 % 0x1_0000 / 0x100 % 0x100 == a
  {
    var low, high := 0x100 * c + d, 0x100 * a + b;
    Euclid(v, 0x100_0000, a, 0x1_0000 * b + low);
    Euclid(v, 0x1_0000, high, low);
    Euclid(v, 0x100, 0x100 * high + c, d);
    Euclid(0x100 * high + c, 0x100, high, c);
    Euclid(low, 0x100, c, d);
    Euclid(c, 0x100, 0, c);
    Euclid(high, 0x1_0000, 0, high);
    Euclid(high, 0x100, a, b);
    Euclid(a, 0x100, 0, a);
  }

  lemma FourParts(b: seq<byte>)
    requires |b| == 4
    ensures Num(b) < WORD && Num(b) % 0x100 == b[3] && Num(b) / 0x100 % 0x100 == b[2]
    ensures Num(b) / 0x1_0000 % 0x100 == b[1] && Num(b) / 0x100_0000 == b[0]
  {
    hide Num;
    NumOfFour(b);
    DigitsOf(Num(b), b[0], b[1], b[2], b[3]);
  }

  lemma WriteWord(mem: D.Rdram, w: nat, b: seq<byte>)
    requires w % 4 == 0 && w + 4 <= D.SIZE && |b| == 4
    ensures Num(b) < WORD && Bytes(PutHost32(mem, w, Num(b))) == Spliced(Bytes(mem), w, b)
  {
    hide Num, PutHost32, Bytes, ByteAddress;
    FourParts(b);
    var mem' := PutHost32(mem, w, Num(b));
    var l, r := Bytes(mem'), Spliced(Bytes(mem), w, b);
    WordBytes(mem', w);
    PutBytes(mem, w, Num(b), w); PutBytes(mem, w, Num(b), w + 1); PutBytes(mem, w, Num(b), w + 2); PutBytes(mem, w, Num(b), w + 3);
    forall k | 0 <= k < D.SIZE ensures l[k] == r[k] {
      if k < w || k >= w + 4 {
        ByteOf(mem, k);
        ByteOf(mem', k);
        Mirror(k);
        PutBytes(mem, w, Num(b), ByteAddress(k));
      }
    }
  }

  // ---- The operations -------------------------------------------------------------------------------

  /** The start of the unit around an address, and the address's place in it. */
  function Base(p: nat, size: nat): nat
    requires size > 0
  {
    if size == 4 then p / 4 * 4 else if size == 8 then p / 8 * 8 else p
  }

  function Off(p: nat, size: nat): nat
    requires size > 0
  {
    if size == 4 then p % 4 else if size == 8 then p % 8 else 0
  }

  lemma Located(p: nat, size: nat)
    requires size == 4 || size == 8
    ensures p == Base(p, size) + Off(p, size) && Off(p, size) < size
  {}

  /** A word or a doubleword. */
  function ReadUnit(mem: D.Rdram, w: nat, size: nat): nat { if size == 4 then Host32(mem, w) else Read(mem, W64, w) }

  function WriteUnit(mem: D.Rdram, w: nat, size: nat, v: int): D.Rdram {
    if size == 4 then PutHost32(mem, w, v % WORD) else Write(mem, W64, w, v % DOUBLE)
  }

  predicate Unit(w: nat, size: nat) { (size == 4 || size == 8) && Off(w, size) == 0 && w + size <= D.SIZE }

  function StoreLeft(mem: D.Rdram, size: nat, p: nat, reg: nat): D.Rdram
    requires size == 4 || size == 8
  {
    var w := Base(p, size);
    WriteUnit(mem, w, size, KeepFirst(ReadUnit(mem, w, size), reg, Off(p, size), size))
  }

  function StoreRight(mem: D.Rdram, size: nat, p: nat, reg: nat): D.Rdram
    requires size == 4 || size == 8
  {
    var w := Base(p, size);
    WriteUnit(mem, w, size, KeepLast(ReadUnit(mem, w, size), reg, size - 1 - Off(p, size), size))
  }

  function LoadLeft(mem: D.Rdram, size: nat, p: nat, reg: nat): int
    requires size == 4 || size == 8
  {
    KeepLast(reg, ReadUnit(mem, Base(p, size), size), Off(p, size), size)
  }

  function LoadRight(mem: D.Rdram, size: nat, p: nat, reg: nat): int
    requires size == 4 || size == 8
  {
    KeepFirst(reg, ReadUnit(mem, Base(p, size), size), size - 1 - Off(p, size), size)
  }

  lemma PowValues()
    ensures Pow(0) == 1 && Pow(1) == 0x100 && Pow(2) == 0x1_0000 && Pow(3) == 0x100_0000 && Pow(4) == WORD && Pow(8) == DOUBLE
  {
    PowAdd(2, 2);
    PowAdd(4, 4);
  }

  lemma ReadUnitBytes(mem: D.Rdram, w: nat, size: nat)
    requires Unit(w, size)
    ensures ReadUnit(mem, w, size) == Num(Bytes(mem)[w..w + size])
  {
    hide Bytes, Num, Host32, Pow;
    if size == 4 {
      ReadWord(mem, w);
    } else {
      ReadTwoWords(mem, w);
    }
  }

  lemma ReadTwoWords(mem: D.Rdram, w: nat)
    requires w % 8 == 0 && w + 8 <= D.SIZE
    ensures Read(mem, W64, w) == Num(Bytes(mem)[w..w + 8])
  {
    hide Bytes, Num, Host32, Pow;
    var high, low := Bytes(mem)[w..w + 4], Bytes(mem)[w + 4..w + 8];
    Euclid(w, 4, 2 * (w / 8), 0);
    Euclid(w + 4, 4, 2 * (w / 8) + 1, 0);
    ReadWord(mem, w);
    ReadWord(mem, w + 4);
    Joined(high, low, 4);
    PowValues();
    assert Bytes(mem)[w..w + 8] == high + low;
  }

  lemma WriteUnitBytes(mem: D.Rdram, w: nat, b: seq<byte>)
    requires Unit(w, |b|)
    ensures Bytes(WriteUnit(mem, w, |b|, Num(b))) == Spliced(Bytes(mem), w, b)
  {
    hide Bytes, Num, PutHost32, Pow, Spliced, WriteUnit;
    if |b| == 4 {
      WriteWord(mem, w, b);
      WriteFour(mem, w, Num(b));
    } else {
      assert b[..4] + b[4..] == b;
      Euclid(w, 4, 2 * (w / 8), 0);
      NumOfEight(b[..4], b[4..]);
      WriteEight(mem, w, Num(b));
      WriteTwoWords(mem, w, b[..4], b[4..]);
    }
  }

  lemma WriteTwoWords(mem: D.Rdram, w: nat, high: seq<byte>, low: seq<byte>)
    requires w % 4 == 0 && w + 8 <= D.SIZE && |high| == |low| == 4
    ensures Bytes(PutHost32(PutHost32(mem, w, Num(high)), w + 4, Num(low))) == Spliced(Bytes(mem), w, high + low)
  {
    hide Bytes, Num, PutHost32, Pow, Spliced;
    Euclid(w + 4, 4, w / 4 + 1, 0);
    WriteWord(mem, w, high);
    WriteWord(PutHost32(mem, w, Num(high)), w + 4, low);
    SplicedTwice(Bytes(mem), w, high, low);
  }

  lemma WriteFour(mem: D.Rdram, w: nat, v: nat)
    requires v < WORD
    ensures WriteUnit(mem, w, 4, v) == PutHost32(mem, w, v)
  {
    hide PutHost32;
  }

  lemma WriteEight(mem: D.Rdram, w: nat, v: nat)
    requires v < DOUBLE
    ensures WriteUnit(mem, w, 8, v) == PutHost32(PutHost32(mem, w, v / WORD), w + 4, v % WORD)
  {
    hide PutHost32;
  }

  lemma NumOfEight(high: seq<byte>, low: seq<byte>)
    requires |high| == |low| == 4
    ensures Num(high + low) < DOUBLE && Num(high + low) / WORD == Num(high) && Num(high + low) % WORD == Num(low)
  {
    hide Num, Pow;
    PowValues();
    Joined(high, low, 4);
    Euclid(Num(high + low), WORD, Num(high), Num(low));
  }

  lemma SplicedTwice(b: seq<byte>, at: nat, x: seq<byte>, y: seq<byte>)
    requires at + |x| + |y| <= |b|
    ensures Spliced(Spliced(b, at, x), at + |x|, y) == Spliced(b, at, x + y)
  {}

  /** SWL and SDL write the register's first bytes from the address to the end of its unit. */
  lemma StoreLeftBytes(mem: D.Rdram, p: nat, r: seq<byte>)
    requires (|r| == 4 || |r| == 8) && Unit(Base(p, |r|), |r|)
    ensures var k := |r| - Off(p, |r|);
      p + k <= D.SIZE && Bytes(StoreLeft(mem, |r|, p, Num(r))) == Spliced(Bytes(mem), p, r[..k])
  {
    hide Bytes, Num, WriteUnit, ReadUnit, KeepFirst, Base, Off, Spliced;
    var size, n := |r|, Off(p, |r|);
    var w := Base(p, size);
    Located(p, size);
    var unit := Bytes(mem)[w..w + size];
    ReadUnitBytes(mem, w, size);
    KeepFirstBytes(unit, r, n);
    WriteUnitBytes(mem, w, unit[..n] + r[..size - n]);
    KeptFront(Bytes(mem), w, n, r[..size - n]);
  }

  lemma KeptFront(b: seq<byte>, w: nat, n: nat, x: seq<byte>)
    requires w + n + |x| <= |b|
    ensures Spliced(b, w, b[w..w + n + |x|][..n] + x) == Spliced(b, w + n, x)
  {}

  /** SWR and SDR write the register's last bytes from the start of the unit to the address. */
  lemma StoreRightBytes(mem: D.Rdram, p: nat, r: seq<byte>)
    requires (|r| == 4 || |r| == 8) && Unit(Base(p, |r|), |r|)
    ensures Bytes(StoreRight(mem, |r|, p, Num(r))) == Spliced(Bytes(mem), Base(p, |r|), r[|r| - 1 - Off(p, |r|)..])
  {
    hide Bytes, Num, WriteUnit, ReadUnit, KeepLast, Base, Off, Spliced;
    Located(p, |r|);
    var size, n := |r|, |r| - 1 - Off(p, |r|);
    var w := Base(p, size);
    var unit := Bytes(mem)[w..w + size];
    ReadUnitBytes(mem, w, size);
    KeepLastBytes(unit, r, n);
    WriteUnitBytes(mem, w, r[n..] + unit[size - n..]);
    KeptBack(Bytes(mem), w, r[n..], n);
  }

  lemma KeptBack(b: seq<byte>, w: nat, x: seq<byte>, n: nat)
    requires w + |x| + n <= |b|
    ensures Spliced(b, w, x + b[w..w + |x| + n][|x|..]) == Spliced(b, w, x)
  {}

  lemma Places(p: nat, size: nat, q: nat, o: nat)
    requires (size == 4 || size == 8) && o < size && p == q * size + o
    ensures Base(p, size) == q * size && Off(p, size) == o
  {
    if size == 4 { Euclid(p, 4, q, o); } else { Euclid(p, 8, q, o); }
  }

  lemma PlaceOf(p: nat, size: nat) returns (q: nat, o: nat)
    requires size == 4 || size == 8
    ensures o < size && p == q * size + o
  {
    if size == 4 { q, o := p / 4, p % 4; } else { q, o := p / 8, p % 8; }
  }

  /** Where a unit's worth of bytes at any address ends. */
  lemma EndUnit(a: nat, size: nat)
    requires size == 4 || size == 8
    ensures var e := a + size - 1;
      if Off(a, size) == 0 then Base(e, size) == a && Off(e, size) == size - 1
      else Base(e, size) == Base(a, size) + size && Off(e, size) == Off(a, size) - 1
  {
    hide Base, Off;
    var q, o := PlaceOf(a, size);
    Places(a, size, q, o);
    if o == 0 { Places(a + size - 1, size, q, size - 1); } else { Places(a + size - 1, size, q + 1, o - 1); }
  }

  lemma UnitFits(a: nat, size: nat)
    requires (size == 4 || size == 8) && a + size <= D.SIZE
    ensures Unit(Base(a, size), size) && Unit(Base(a + size - 1, size), size)
  {
    hide Base, Off;
    UnitAt(a, size);
    UnitAt(a + size - 1, size);
  }

  lemma UnitAt(p: nat, size: nat)
    requires (size == 4 || size == 8) && p < D.SIZE
    ensures Unit(Base(p, size), size)
  {
    hide Base, Off;
    var q, o := PlaceOf(p, size);
    Places(p, size, q, o);
    Places(q * size, size, q, 0);
  }

  /** The pair of stores writes exactly the register's bytes, in order, at any address, and no other byte. */
  lemma StorePair(mem: D.Rdram, a: nat, r: seq<byte>)
    requires (|r| == 4 || |r| == 8) && a + |r| <= D.SIZE
    ensures Bytes(StoreRight(StoreLeft(mem, |r|, a, Num(r)), |r|, a + |r| - 1, Num(r))) == Spliced(Bytes(mem), a, r)
  {
    hide Bytes, Num, StoreLeft, StoreRight, Base, Off, Spliced;
    var size := |r|;
    Located(a, size);
    UnitFits(a, size);
    EndUnit(a, size);
    var mid := StoreLeft(mem, size, a, Num(r));
    StoreLeftBytes(mem, a, r);
    StoreRightBytes(mid, a + size - 1, r);
    var k := size - Off(a, size);
    if Off(a, size) == 0 {
      SplicedOver(Bytes(mem), a, r[..k], r);
    } else {
      SplicedTwice(Bytes(mem), a, r[..k], r[k..]);
      assert r[..k] + r[k..] == r;
    }
  }

  lemma SplicedOver(b: seq<byte>, at: nat, x: seq<byte>, y: seq<byte>)
    requires |x| == |y| && at + |x| <= |b|
    ensures Spliced(Spliced(b, at, x), at, y) == Spliced(b, at, y)
  {}

  /** The register after the left load: memory from the address to the end of its unit, then its own last bytes. */
  function LeftLoaded(b: seq<byte>, p: nat, r: seq<byte>): (x: seq<byte>)
    requires (|r| == 4 || |r| == 8) && Base(p, |r|) + |r| <= |b|
    ensures |x| == |r|
  {
    b[Base(p, |r|)..Base(p, |r|) + |r|][Off(p, |r|)..] + r[|r| - Off(p, |r|)..]
  }

  /** The register after the right load: its own first bytes, then memory up to the address. */
  function RightLoaded(b: seq<byte>, p: nat, r: seq<byte>): (x: seq<byte>)
    requires (|r| == 4 || |r| == 8) && Base(p, |r|) + |r| <= |b|
    ensures |x| == |r|
  {
    var n := |r| - 1 - Off(p, |r|);
    r[..n] + b[Base(p, |r|)..Base(p, |r|) + |r|][..|r| - n]
  }

  lemma LoadLeftBytes(mem: D.Rdram, p: nat, r: seq<byte>)
    requires (|r| == 4 || |r| == 8) && Unit(Base(p, |r|), |r|)
    ensures LoadLeft(mem, |r|, p, Num(r)) == Num(LeftLoaded(Bytes(mem), p, r))
  {
    hide Bytes, Num, Pow, ReadUnit, KeepLast, Base, Off;
    Located(p, |r|);
    var w := Base(p, |r|);
    ReadUnitBytes(mem, w, |r|);
    KeepLastBytes(r, Bytes(mem)[w..w + |r|], Off(p, |r|));
  }

  lemma LoadRightBytes(mem: D.Rdram, p: nat, r: seq<byte>)
    requires (|r| == 4 || |r| == 8) && Unit(Base(p, |r|), |r|)
    ensures LoadRight(mem, |r|, p, Num(r)) == Num(RightLoaded(Bytes(mem), p, r))
  {
    hide Bytes, Num, Pow, ReadUnit, KeepFirst, Base, Off, LoadRight;
    Located(p, |r|);
    var w, n := Base(p, |r|), |r| - 1 - Off(p, |r|);
    LoadRightKeeps(mem, |r|, p, Num(r), n);
    ReadUnitBytes(mem, w, |r|);
    KeepFirstBytes(r, Bytes(mem)[w..w + |r|], n);
  }

  lemma LoadRightKeeps(mem: D.Rdram, size: nat, p: nat, reg: nat, n: nat)
    requires (size == 4 || size == 8) && n + 1 + Off(p, size) == size
    ensures LoadRight(mem, size, p, reg) == KeepFirst(reg, ReadUnit(mem, Base(p, size), size), n, size)
  {
    hide KeepFirst, ReadUnit, Base, Off;
  }

  /** The pair of loads reads exactly the bytes at the address, whatever the register held. */
  lemma LoadPair(mem: D.Rdram, a: nat, r: seq<byte>)
    requires (|r| == 4 || |r| == 8) && a + |r| <= D.SIZE
    ensures var x := LoadLeft(mem, |r|, a, Num(r));
      x >= 0 && LoadRight(mem, |r|, a + |r| - 1, x) == Num(Bytes(mem)[a..a + |r|])
  {
    hide Bytes, Num, LoadLeft, LoadRight, Base, Off, LeftLoaded, RightLoaded;
    UnitFits(a, |r|);
    LoadLeftBytes(mem, a, r);
    LoadRightBytes(mem, a + |r| - 1, LeftLoaded(Bytes(mem), a, r));
    LoadedTwice(Bytes(mem), a, r);
  }

  lemma LoadedTwice(b: seq<byte>, a: nat, r: seq<byte>)
    requires (|r| == 4 || |r| == 8) && a + |r| <= |b|
    requires Base(a, |r|) + |r| <= |b| && Base(a + |r| - 1, |r|) + |r| <= |b|
    ensures RightLoaded(b, a + |r| - 1, LeftLoaded(b, a, r)) == b[a..a + |r|]
  {
    hide Base, Off;
    Located(a, |r|);
    EndUnit(a, |r|);
  }

  // ---- The 32-bit instructions ----------------------------------------------------------------------

  /** The shifts and masks of the instructions are these merges. */
  lemma BytePowIsPow(n: nat)
    requires n <= 4
    ensures BytePow(n) == Pow(n)
  {
    PowValues();
    hide Pow;
  }

  lemma MergesAreUnits(va: nat, reg: nat, data: nat)
    requires data < WORD
    ensures var n := va % 4;
      && MergeStore(Swl, va, data, reg) == KeepFirst(data, Lo32(reg), n, 4)
      && MergeStore(Swr, va, data, reg) == KeepLast(data, Lo32(reg), 3 - n, 4)
  {
    var n := va % 4;
    BytePowIsPow(n); BytePowIsPow(4 - n); BytePowIsPow(3 - n);
    PowValues();
    hide Pow, BytePow, Lo32;
  }

  lemma LastMerge(n: nat, reg: nat, data: nat)
    requires n < 4
    ensures KeepLast(Lo32(reg), data, n, 4) == reg % BytePow(n) + data * BytePow(n) % WORD >= 0
  {
    BytePowIsPow(n);
    PowValues();
    LowBytes(reg, n);
    hide Pow, BytePow, Lo32;
  }

  lemma FirstMerge(n: nat, reg: nat, data: nat)
    requires n < 4
    ensures KeepFirst(Lo32(reg), data, n, 4) == Lo32(reg) / BytePow(4 - n) * BytePow(4 - n) + data / BytePow(n) >= 0
  {
    BytePowIsPow(n);
    BytePowIsPow(4 - n);
    hide Pow, BytePow, Lo32;
    NotNegative(Lo32(reg), Pow(4 - n));
  }

  lemma LoadMergesAreUnits(va: nat, reg: nat, data: nat)
    requires data < WORD
    ensures var n := va % 4;
      && KeepLast(Lo32(reg), data, n, 4) >= 0 && MergeLoad(Lwl, va, reg, data) == Sext32(KeepLast(Lo32(reg), data, n, 4))
      && KeepFirst(Lo32(reg), data, 3 - n, 4) >= 0
      && MergeLoad(Lwr, va, reg, data) == Sext32(KeepFirst(Lo32(reg), data, 3 - n, 4))
  {
    hide Pow, BytePow, Lo32, Sext32, KeepLast, KeepFirst;
    var n := va % 4;
    LastMerge(n, reg, data);
    FirstMerge(3 - n, reg, data);
  }

  lemma NotNegative(x: nat, p: nat)
    requires p > 0
    ensures x / p * p >= 0
  {}

  lemma LowBytes(reg: nat, n: nat)
    requires n < 4
    ensures reg % BytePow(n) == Lo32(reg) % BytePow(n)
  {
    var q, r := reg / WORD, Lo32(reg);
    match n
    case 0 =>
    case 1 => Euclid(reg, 0x100, 0x100_0000 * q + r / 0x100, r % 0x100);
    case 2 => Euclid(reg, 0x1_0000, 0x1_0000 * q + r / 0x1_0000, r % 0x1_0000);
    case 3 => Euclid(reg, 0x100_0000, 0x100 * q + r / 0x100_0000, r % 0x100_0000);
  }

  /** A direct-mapped word in RDRAM. */
  predicate DirectRdram(va: SoftTlb.Tlb.u32) {
    SoftTlb.DirectMap(va).Some? && SoftTlb.DirectMap(va).value + 4 <= D.SIZE
  }

  lemma DirectNext(va: SoftTlb.Tlb.u32)
    requires DirectRdram(va)
    ensures va + 3 < WORD && SoftTlb.DirectMap(va + 3) == Some(va % 0x2000_0000 + 3)
    ensures (va % 0x2000_0000) % 4 == va % 4
  {}

  lemma TransferStore(s: Core, op: IrOp, p: nat)
    requires (op.kind.Swl? || op.kind.Swr?) && p + 1 <= D.SIZE && p % 4 == Address(s, op) % 4
    ensures var reg := Lo32(Gpr(s, op.rt));
      Transfer(s, op, p) == s.(rdram := if op.kind.Swl? then StoreLeft(s.rdram, 4, p, reg) else StoreRight(s.rdram, 4, p, reg))
  {
    var w := AlignedWord(p);
    var data := Host32(s.rdram, w);
    hide MergeStore, Address, PutHost32, Host32, KeepFirst, KeepLast, Gpr;
    MergesAreUnits(Address(s, op), Gpr(s, op.rt), data);
  }

  lemma DirectMemory(s: Core, op: IrOp)
    requires SoftTlb.DirectMap(Address(s, op)).Some?
    ensures Memory(s, op) == Transfer(s, op, Address(s, op) % 0x2000_0000)
  {
    hide Transfer, Address, AccessOf;
  }

  /** SWL at an address and SWR three bytes on, with one register, write exactly its four bytes there. */
  lemma StoreWordAnywhere(s: Core, left: IrOp, right: IrOp)
    requires left.kind.Swl? && right.kind.Swr? && left.rt == right.rt
    requires Address(s, right) == Address(s, left) + 3 && DirectRdram(Address(s, left))
    ensures var s' := Memory(Memory(s, left), right); var p := Address(s, left) % 0x2000_0000;
      && s' == s.(rdram := s'.rdram)
      && p + 4 <= D.SIZE && Bytes(s'.rdram) == Spliced(Bytes(s.rdram), p, BytesOf(Lo32(Gpr(s, left.rt)), 4))
  {
    hide Transfer, Address, Bytes, StoreLeft, StoreRight, Num, BytesOf, Spliced, Gpr, Memory;
    var va := Address(s, left);
    var p := va % 0x2000_0000;
    var reg := Lo32(Gpr(s, left.rt));
    DirectNext(va);
    DirectMemory(s, left);
    TransferStore(s, left, p);
    var s1 := Memory(s, left);
    SameRegisters(s, s1, right);
    DirectMemory(s1, right);
    TransferStore(s1, right, p + 3);
    PowValues();
    NumOfBytes(reg, 4);
    StorePair(s.rdram, p, BytesOf(reg, 4));
  }

  lemma SameRegisters(s: Core, s': Core, op: IrOp)
    requires s'.gpr == s.gpr
    ensures Address(s', op) == Address(s, op) && Gpr(s', op.rt) == Gpr(s, op.rt)
  {}

  lemma TransferLoad(s: Core, op: IrOp, p: nat)
    requires (op.kind.Lwl? || op.kind.Lwr?) && p + 1 <= D.SIZE && p % 4 == Address(s, op) % 4
    ensures var reg := Lo32(Gpr(s, op.rt));
      var v := if op.kind.Lwl? then LoadLeft(s.rdram, 4, p, reg) else LoadRight(s.rdram, 4, p, reg);
      v >= 0 && Transfer(s, op, p) == SetGpr(s, op.rt, Sext32(v))
  {
    var w := AlignedWord(p);
    var data := Host32(s.rdram, w);
    hide MergeLoad, Address, Host32, KeepFirst, KeepLast, Gpr, SetGpr, Sext32;
    LoadMergesAreUnits(Address(s, op), Gpr(s, op.rt), data);
  }

  /** LWL at an address and LWR three bytes on read the four bytes there, sign-extended. */
  lemma LoadWordAnywhere(s: Core, left: IrOp, right: IrOp)
    requires left.kind.Lwl? && right.kind.Lwr? && left.rt == right.rt && left.rt != 0 && left.rt != right.rs
    requires Address(s, right) == Address(s, left) + 3 && DirectRdram(Address(s, left))
    ensures var p := Address(s, left) % 0x2000_0000;
      p + 4 <= D.SIZE && Memory(Memory(s, left), right) == SetGpr(s, left.rt, Sext32(Num(Bytes(s.rdram)[p..p + 4])))
  {
    hide Transfer, Address, Bytes, LoadLeft, LoadRight, Num, BytesOf, Memory, Sext32;
    var va := Address(s, left);
    var p := va % 0x2000_0000;
    var reg := Lo32(Gpr(s, left.rt));
    DirectNext(va);
    DirectMemory(s, left);
    TransferLoad(s, left, p);
    var x := LoadLeft(s.rdram, 4, p, reg);
    var s1 := Memory(s, left);
    OtherBase(s, left.rt, Sext32(x), right);
    DirectMemory(s1, right);
    TransferLoad(s1, right, p + 3);
    PowValues();
    NumOfBytes(reg, 4);
    LoadPair(s.rdram, p, BytesOf(reg, 4));
    LoadLeftFits(s.rdram, p, reg);
    LowOfSext(x);
  }

  lemma OtherBase(s: Core, r: RegNum, v: u64, op: IrOp)
    requires r != 0 && op.rs != r && op.rt == r
    ensures Address(SetGpr(s, r, v), op) == Address(s, op) && Gpr(SetGpr(s, r, v), op.rt) == v
    ensures forall w: u64 :: SetGpr(SetGpr(s, r, v), r, w) == SetGpr(s, r, w)
  {
    forall w: u64 ensures SetGpr(SetGpr(s, r, v), r, w) == SetGpr(s, r, w) {
      assert s.gpr[r := v][r := w] == s.gpr[r := w];
    }
  }

  lemma LowOfSext(x: nat)
    requires x < WORD
    ensures Lo32(Sext32(x)) == x
  {}

  lemma LoadLeftFits(mem: D.Rdram, p: nat, reg: nat)
    requires reg < WORD && p + 4 <= D.SIZE
    ensures 0 <= LoadLeft(mem, 4, p, reg) < WORD
  {
    hide Num, Bytes, LoadLeft, BytesOf;
    PowValues();
    NumOfBytes(reg, 4);
    UnitFits(p, 4);
    LoadLeftBytes(mem, p, BytesOf(reg, 4));
  }

  // ---- The 64-bit instructions ----------------------------------------------------------------------

  datatype DoubleKind = Ldl | Ldr | Sdl | Sdr

  datatype DoubleInst = DoubleInst(kind: DoubleKind, rs: RegNum, rt: RegNum, imm: nat) {
    predicate Store() { kind.Sdl? || kind.Sdr? }
  }

  function DoubleAddress(s: Core, i: DoubleInst): SoftTlb.Tlb.u32 { Lo32(Gpr(s, i.rs) + Sext16(i.imm)) }

  /** The shifts and masks, by the address's place in its doubleword; `mem` is the doubleword there. */
  function MergeDouble(k: DoubleKind, va: nat, reg: u64, mem: u64): u64 {
    var n := va % 8;
    var m := 7 - n;
    Wrap(match k
         case Ldl => reg % Pow(n) + mem * Pow(n) % DOUBLE
         case Ldr => reg / Pow(8 - m) * Pow(8 - m) + mem / Pow(m)
         case Sdl => mem / Pow(8 - n) * Pow(8 - n) + reg / Pow(n)
         case Sdr => mem % Pow(m) + reg * Pow(m) % DOUBLE)
  }

  function TransferDouble(s: Core, i: DoubleInst, p: nat): Core {
    var w := p / 8 * 8;
    var (mem, s') := Load(s, W64, w);
    var merged := MergeDouble(i.kind, DoubleAddress(s, i), Gpr(s, i.rt), mem);
    if i.Store() then Store(s', W64, w, merged) else SetGpr(s', i.rt, merged)
  }

  function MemoryDouble(s: Core, i: DoubleInst): Core {
    var va, access := DoubleAddress(s, i), if i.Store() then Tlb.Store else Tlb.Load;
    match SoftTlb.Resolve(s.es, s.c.hi, va, access)
    case Hit(p) => TransferDouble(s, i, p)
    case Fail(e) => Miss(s, va, access, e)
  }

  /** A direct-mapped doubleword in RDRAM, aligned or not. */
  predicate DirectDouble(va: SoftTlb.Tlb.u32) {
    SoftTlb.DirectMap(va).Some? && SoftTlb.DirectMap(va).value + 8 <= D.SIZE
  }

  lemma DirectNextDouble(va: SoftTlb.Tlb.u32)
    requires DirectDouble(va)
    ensures va + 7 < WORD && SoftTlb.DirectMap(va + 7) == Some(va % 0x2000_0000 + 7)
    ensures (va % 0x2000_0000) % 8 == va % 8 && (va % 0x2000_0000 + 7) % 8 == (va + 7) % 8
  {
    var q, r := va / 0x2000_0000, va % 0x2000_0000;
    Euclid(va, 8, 0x400_0000 * q + r / 8, r % 8);
    Euclid(va + 7, 8, 0x400_0000 * q + (r + 7) / 8, (r + 7) % 8);
    Euclid(va + 7, 0x2000_0000, q, r + 7);
  }

  lemma DirectTransfer(s: Core, i: DoubleInst)
    requires SoftTlb.DirectMap(DoubleAddress(s, i)).Some?
    ensures MemoryDouble(s, i) == TransferDouble(s, i, DoubleAddress(s, i) % 0x2000_0000)
  {
    hide TransferDouble, DoubleAddress;
  }

  lemma WholeDouble(p: nat)
    requires p < D.SIZE
    ensures Base(p, 8) == p / 8 * 8 && Base(p, 8) + 8 <= D.SIZE && Off(p, 8) == p % 8
  {}

  /** The merges are those of the units of 8 bytes. */
  lemma DoubleMerges(k: DoubleKind, va: nat, reg: u64, mem: u64)
    ensures var n := va % 8;
      && (k.Sdl? ==> MergeDouble(k, va, reg, mem) == KeepFirst(mem, reg, n, 8) % DOUBLE)
      && (k.Sdr? ==> MergeDouble(k, va, reg, mem) == KeepLast(mem, reg, 7 - n, 8) % DOUBLE)
      && (k.Ldl? ==> MergeDouble(k, va, reg, mem) == Wrap(KeepLast(reg, mem, n, 8)))
      && (k.Ldr? ==> MergeDouble(k, va, reg, mem) == Wrap(KeepFirst(reg, mem, 7 - n, 8)))
  {
    PowValues();
    hide Pow;
  }

  lemma DoubleInRdram(s: Core, w: nat, v: u64)
    requires w + 8 <= D.SIZE
    ensures Store(s, W64, w, v) == s.(rdram := Write(s.rdram, W64, w, v))
    ensures Load(s, W64, w) == (Read(s.rdram, W64, w), s)
  {
    hide Write, Read;
  }

  lemma TransferSd(s: Core, i: DoubleInst, p: nat)
    requires i.Store() && p < D.SIZE && p % 8 == DoubleAddress(s, i) % 8
    ensures var reg := Gpr(s, i.rt);
      TransferDouble(s, i, p) == s.(rdram := if i.kind.Sdl? then StoreLeft(s.rdram, 8, p, reg) else StoreRight(s.rdram, 8, p, reg))
  {
    hide MergeDouble, DoubleAddress, Write, Read, KeepFirst, KeepLast, Gpr, Store, Load, Base, Off;
    WholeDouble(p);
    var w := p / 8 * 8;
    var mem := Read(s.rdram, W64, w);
    DoubleMerges(i.kind, DoubleAddress(s, i), Gpr(s, i.rt), mem);
    DoubleInRdram(s, w, MergeDouble(i.kind, DoubleAddress(s, i), Gpr(s, i.rt), mem));
  }

  lemma TransferLd(s: Core, i: DoubleInst, p: nat)
    requires !i.Store() && p < D.SIZE && p % 8 == DoubleAddress(s, i) % 8
    ensures var reg := Gpr(s, i.rt);
      TransferDouble(s, i, p) ==
        SetGpr(s, i.rt, Wrap(if i.kind.Ldl? then LoadLeft(s.rdram, 8, p, reg) else LoadRight(s.rdram, 8, p, reg)))
  {
    hide MergeDouble, DoubleAddress, Write, Read, KeepFirst, KeepLast, Gpr, SetGpr, Wrap, Load, Base, Off;
    WholeDouble(p);
    var w := p / 8 * 8;
    DoubleMerges(i.kind, DoubleAddress(s, i), Gpr(s, i.rt), Read(s.rdram, W64, w));
    DoubleInRdram(s, w, 0);
  }

  /** SDL at an address and SDR seven bytes on, with one register, write exactly its eight bytes there. */
  lemma StoreDoubleAnywhere(s: Core, left: DoubleInst, right: DoubleInst)
    requires left.kind.Sdl? && right.kind.Sdr? && left.rt == right.rt
    requires DoubleAddress(s, right) == DoubleAddress(s, left) + 7 && DirectDouble(DoubleAddress(s, left))
    ensures var s' := MemoryDouble(MemoryDouble(s, left), right); var p := DoubleAddress(s, left) % 0x2000_0000;
      && s' == s.(rdram := s'.rdram)
      && p + 8 <= D.SIZE && Bytes(s'.rdram) == Spliced(Bytes(s.rdram), p, BytesOf(Gpr(s, left.rt), 8))
  {
    hide TransferDouble, DoubleAddress, Bytes, StoreLeft, StoreRight, Num, BytesOf, Spliced, Gpr, MemoryDouble;
    var va, reg := DoubleAddress(s, left), Gpr(s, left.rt);
    var p := va % 0x2000_0000;
    DirectNextDouble(va);
    DirectTransfer(s, left);
    TransferSd(s, left, p);
    var s1 := MemoryDouble(s, left);
    SameOperands(s, s1, right);
    DirectTransfer(s1, right);
    NextPlace(va, p);
    TransferSd(s1, right, p + 7);
    PowValues();
    NumOfBytes(reg, 8);
    StorePair(s.rdram, p, BytesOf(reg, 8));
  }

  lemma NextPlace(va: SoftTlb.Tlb.u32, p: nat)
    requires DirectDouble(va) && p == va % 0x2000_0000
    ensures p + 8 <= D.SIZE && (va + 7) % 0x2000_0000 == p + 7
  {
    Euclid(va + 7, 0x2000_0000, va / 0x2000_0000, p + 7);
  }

  lemma SameOperands(s: Core, s': Core, i: DoubleInst)
    requires s'.gpr == s.gpr
    ensures DoubleAddress(s', i) == DoubleAddress(s, i) && Gpr(s', i.rt) == Gpr(s, i.rt)
  {}

  /** LDL at an address and LDR seven bytes on read the eight bytes there. */
  lemma LoadDoubleAnywhere(s: Core, left: DoubleInst, right: DoubleInst)
    requires left.kind.Ldl? && right.kind.Ldr? && left.rt == right.rt && left.rt != 0 && left.rt != right.rs
    requires DoubleAddress(s, right) == DoubleAddress(s, left) + 7 && DirectDouble(DoubleAddress(s, left))
    ensures var p := DoubleAddress(s, left) % 0x2000_0000;
      p + 8 <= D.SIZE && Num(Bytes(s.rdram)[p..p + 8]) < DOUBLE
      && MemoryDouble(MemoryDouble(s, left), right) == SetGpr(s, left.rt, Num(Bytes(s.rdram)[p..p + 8]))
  {
    hide TransferDouble, DoubleAddress, Bytes, LoadLeft, LoadRight, Num, BytesOf, MemoryDouble, Wrap;
    var va, reg := DoubleAddress(s, left), Gpr(s, left.rt);
    var p := va % 0x2000_0000;
    DirectNextDouble(va);
    DirectTransfer(s, left);
    TransferLd(s, left, p);
    var x := LoadLeft(s.rdram, 8, p, reg);
    var s1 := MemoryDouble(s, left);
    NextPlace(va, p);
    LoadedFits(s.rdram, p, reg);
    OtherBaseDouble(s, left.rt, x, right);
    DirectTransfer(s1, right);
    TransferLd(s1, right, p + 7);
    PowValues();
    NumOfBytes(reg, 8);
    LoadPair(s.rdram, p, BytesOf(reg, 8));
    EightBytesFit(Bytes(s.rdram)[p..p + 8]);
  }

  lemma EightBytesFit(b: seq<byte>)
    requires |b| == 8
    ensures Num(b) < DOUBLE && Wrap(Num(b)) == Num(b)
  {
    PowValues();
    hide Num, Pow;
    Euclid(Num(b), DOUBLE, 0, Num(b));
  }

  lemma LoadedFits(mem: D.Rdram, p: nat, reg: u64)
    requires p + 8 <= D.SIZE
    ensures 0 <= LoadLeft(mem, 8, p, reg) < DOUBLE && Wrap(LoadLeft(mem, 8, p, reg)) == LoadLeft(mem, 8, p, reg)
  {
    hide Num, Bytes, LoadLeft, BytesOf, LeftLoaded;
    PowValues();
    NumOfBytes(reg, 8);
    UnitFits(p, 8);
    LoadLeftBytes(mem, p, BytesOf(reg, 8));
    Euclid(LoadLeft(mem, 8, p, reg), DOUBLE, 0, LoadLeft(mem, 8, p, reg));
  }

  lemma OtherBaseDouble(s: Core, r: RegNum, v: u64, i: DoubleInst)
    requires r != 0 && i.rs != r && i.rt == r
    ensures DoubleAddress(SetGpr(s, r, v), i) == DoubleAddress(s, i) && Gpr(SetGpr(s, r, v), i.rt) == v
    ensures forall w: u64 :: SetGpr(SetGpr(s, r, v), r, w) == SetGpr(s, r, w)
  {
    forall w: u64 ensures SetGpr(SetGpr(s, r, v), r, w) == SetGpr(s, r, w) {
      assert s.gpr[r := v][r := w] == s.gpr[r := w];
    }
  }
}
