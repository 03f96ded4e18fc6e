/** The ROM checksum: a table-driven CRC, and the shift register it stands for (src/memory/rom.cpp:12-40; the
    polynomial of section 8 of RFC 1952). */
module Crc32 {
  import opened Bits
  import opened ByteOrder

  const POLYNOMIAL: nat := 0xEDB8_8320

  /** One shift of the register. */
  function Shift(x: nat): nat { if x % 2 == 1 then Xor(x / 2, POLYNOMIAL) else x / 2 }

  function Shifts(x: nat, n: nat): nat { if n == 0 then x else Shift(Shifts(x, n - 1)) }

  /** The register fed one message bit. */
  function FeedBit(crc: nat, bit: nat): nat { Shift(Xor(crc, bit)) }

  /** The low n bits of an octet, least significant first. */
  function FeedBits(crc: nat, octet: nat, n: nat): nat
    decreases n
  {
    if n == 0 then crc else FeedBits(FeedBit(crc, octet % 2), octet / 2, n - 1)
  }

  function Feed(crc: nat, message: seq<byte>): nat
    decreases |message|
  {
    if message == [] then crc else Feed(FeedBits(crc, message[0], 8), message[1..])
  }

  /** The table-driven step. */
  function Lookup(crc: nat, octet: byte): nat { Xor(crc / 0x100, Shifts(Xor(crc % 0x100, octet), 8)) }

  // ---- Exclusive or is addition modulo two ----------------------------------------------------------

  lemma {:induction false} XorAssoc(a: nat, b: nat, c: nat)
    ensures Xor(Xor(a, b), c) == Xor(a, Xor(b, c))
    decreases a + b + c
  {
    if a > 0 || b > 0 || c > 0 {
      XorAssoc(a / 2, b / 2, c / 2);
      hide Zip;
      ZipStep(XOR, a, b);
      ZipStep(XOR, b, c);
      ZipStep(XOR, Xor(a, b), c);
      ZipStep(XOR, a, Xor(b, c));
    }
  }

  /** Exchanging the middle two of four. */
  lemma XorExchange(a: nat, b: nat, c: nat, d: nat)
    ensures Xor(Xor(a, b), Xor(c, d)) == Xor(Xor(a, c), Xor(b, d))
  {
    hide Zip;
    XorAssoc(a, b, Xor(c, d));
    XorAssoc(b, c, d);
    ZipSwap(XOR, b, c);
    XorAssoc(c, b, d);
    XorAssoc(a, c, Xor(b, d));
  }

  lemma HalvesOfXor(a: nat, b: nat)
    ensures Xor(a, b) / 2 == Xor(a / 2, b / 2) && (Xor(a, b) % 2 == 1 <==> (a % 2 == 1) != (b % 2 == 1))
  {
    hide Zip;
    ZipStep(XOR, a, b);
  }

  /** The register is linear. */
  lemma ShiftOfXor(a: nat, b: nat)
    ensures Shift(Xor(a, b)) == Xor(Shift(a), Shift(b))
  {
    hide Zip, Xor;
    HalvesOfXor(a, b);
    var p, q := a / 2, b / 2;
    XorExchange(p, POLYNOMIAL, q, POLYNOMIAL);
    XorSelf(POLYNOMIAL);
    XorZero(Xor(p, q));
    XorAssoc(p, q, POLYNOMIAL);
    XorAssoc(p, POLYNOMIAL, q);
    XorCommutes(POLYNOMIAL, q);
  }

  lemma XorSelf(x: nat)
    ensures Xor(x, x) == 0
  {
    ZipSelf(x);
  }

  lemma XorZero(x: nat)
    ensures Xor(x, 0) == x == Xor(0, x)
  {
    ZipZero(x);
  }

  lemma XorCommutes(a: nat, b: nat)
    ensures Xor(a, b) == Xor(b, a)
  {
    ZipSwap(XOR, a, b);
  }

  lemma {:induction false} ShiftsOfXor(a: nat, b: nat, n: nat)
    ensures Shifts(Xor(a, b), n) == Xor(Shifts(a, n), Shifts(b, n))
  {
    hide Shift, Xor;
    if n > 0 {
      ShiftsOfXor(a, b, n - 1);
      ShiftOfXor(Shifts(a, n - 1), Shifts(b, n - 1));
    }
  }

  lemma {:induction false} ShiftsFirst(x: nat, n: nat)
    ensures Shifts(x, n + 1) == Shifts(Shift(x), n)
  {
    hide Shift;
    if n > 0 { ShiftsFirst(x, n - 1); }
  }

  /** Zeros shift out. */
  lemma {:induction false} ZerosShiftOut(h: nat, n: nat)
    ensures Shifts(Shl(h, n), n) == h
  {
    hide Xor;
    if n > 0 {
      ShiftsFirst(Shl(h, n), n - 1);
      assert Shl(h, n) == 2 * Shl(h, n - 1);
      ZerosShiftOut(h, n - 1);
    }
  }

  // ---- The table ------------------------------------------------------------------------------------

  lemma {:induction false} FeedIsShifts(crc: nat, octet: nat, n: nat)
    requires octet < Bits.Shl(1, n)
    ensures FeedBits(crc, octet, n) == Shifts(Xor(crc, octet), n)
    decreases n
  {
    hide Xor, Shift, Shl;
    if n == 0 {
      XorZero(crc);
      ShlOne();
    } else {
      ShlStep(1, n - 1);
      var bit := octet % 2;
      FeedIsShifts(FeedBit(crc, bit), octet / 2, n - 1);
      ShiftsFirst(Xor(crc, octet), n - 1);
      BitThenRest(crc, octet);
    }
  }

  lemma ShlOne()
    ensures Shl(1, 0) == 1
  {}

  /** Feeding an octet's first bit leaves the rest of it for the next shifts. */
  lemma BitThenRest(crc: nat, octet: nat)
    ensures Shift(Xor(crc, octet)) == Xor(FeedBit(crc, octet % 2), octet / 2)
  {
    hide Xor, Shift;
    var bit, rest := octet % 2, octet - octet % 2;
    assert octet == Xor(bit, rest) by { BitAndRest(bit, octet / 2); }
    XorAssoc(crc, bit, rest);
    ShiftOfXor(Xor(crc, bit), rest);
    ShiftEven(rest);
  }

  lemma BitAndRest(bit: nat, half: nat)
    requires bit < 2
    ensures Xor(bit, 2 * half) == 2 * half + bit
  {
    hide Zip;
    ZipStep(XOR, bit, 2 * half);
    ZipZero(half);
  }

  lemma ShiftEven(x: nat)
    requires x % 2 == 0
    ensures Shift(x) == x / 2
  {}

  lemma SplitByte(crc: nat)
    ensures crc == Xor(Shl(crc / 0x100, 8), crc % 0x100)
  {
    hide Zip, Shl;
    ShlValues(1); ShlValues(crc / 0x100); ShlValues(Xor(crc / 0x100, 0)); ShlValues(0);
    ZipSplit(XOR, crc / 0x100, 0, 0, crc % 0x100, 8);
    ZipZero(crc / 0x100);
    ZipZero(crc % 0x100);
  }

  /** One table lookup is eight shifts of the register. */
  lemma LookupIsFeed(crc: nat, octet: byte)
    ensures Lookup(crc, octet) == FeedBits(crc, octet, 8)
  {
    hide Xor, Shift, Shifts, Shl, FeedBits;
    ShlValues(1);
    FeedIsShifts(crc, octet, 8);
    var high, low := crc / 0x100, crc % 0x100;
    SplitByte(crc);
    XorAssoc(Shl(high, 8), low, octet);
    ShiftsOfXor(Shl(high, 8), Xor(low, octet), 8);
    ZerosShiftOut(high, 8);
  }

  function Fold(crc: nat, message: seq<byte>): nat
    decreases |message|
  {
    if message == [] then crc else Fold(Lookup(crc, message[0]), message[1..])
  }

  /** The checksum computed by table is the checksum computed bit by bit. */
  lemma {:induction false} TableIsBitwise(crc: nat, message: seq<byte>)
    ensures Fold(crc, message) == Feed(crc, message)
    decreases |message|
  {
    hide Lookup, FeedBits;
    if message != [] {
      LookupIsFeed(crc, message[0]);
      TableIsBitwise(Lookup(crc, message[0]), message[1..]);
    }
  }

  // ---- The checksum ---------------------------------------------------------------------------------

  function Complement(x: nat): nat { Xor(x, 0xFFFF_FFFF) }

  /** crc32, by the bitwise register. */
  function Checksum(crc: nat, message: seq<byte>): nat { Complement(Feed(Complement(crc), message)) }

  lemma {:induction false} FeedCat(crc: nat, a: seq<byte>, b: seq<byte>)
    ensures Feed(crc, a + b) == Feed(Feed(crc, a), b)
    decreases |a|
  {
    hide FeedBits;
    if a == [] {
      assert a + b == b;
    } else {
      assert (a + b)[1..] == a[1..] + b;
      FeedCat(FeedBits(crc, a[0], 8), a[1..], b);
    }
  }

  /** A checksum can be continued: the complements between the parts cancel. */
  lemma ChecksumContinues(crc: nat, a: seq<byte>, b: seq<byte>)
    ensures Checksum(Checksum(crc, a), b) == Checksum(crc, a + b)
  {
    hide Xor, Feed;
    var x := Feed(Complement(crc), a);
    XorAssoc(x, 0xFFFF_FFFF, 0xFFFF_FFFF);
    XorSelf(0xFFFF_FFFF);
    XorZero(x);
    FeedCat(Complement(crc), a, b);
  }

  /** crc32_table. */
  method Table() returns (table: array<nat>)
    ensures fresh(table) && table.Length == 0x100 && forall i :: 0 <= i < 0x100 ==> table[i] == Shifts(i, 8)
  {
    hide Shift;
    table := new nat[0x100](_ => 0);
    for i := 0 to 0x100
      invariant forall k :: 0 <= k < i ==> table[k] == Shifts(k, 8)
    {
      var rem := i;
      for j := 0 to 8
        invariant rem == Shifts(i, j)
      {
        rem := Shift(rem);
      }
      table[i] := rem;
    }
  }

  /** crc32. */
  method Compute(crc: nat, buffer: seq<byte>, table: array<nat>) returns (r: nat)
    requires table.Length == 0x100 && forall i :: 0 <= i < 0x100 ==> table[i] == Shifts(i, 8)
    ensures r == Checksum(crc, buffer)
  {
    hide Xor, Shifts, FeedBits, Shl;
    var c := Complement(crc);
    for p := 0 to |buffer|
      invariant Feed(c, buffer[p..]) == Feed(Complement(crc), buffer)
    {
      LookupIsFeed(c, buffer[p]);
      IndexFits(c, buffer[p]);
      assert buffer[p..][1..] == buffer[p + 1..];
      c := Xor(c / 0x100, table[Xor(c % 0x100, buffer[p])]);
    }
    r := Complement(c);
  }

  lemma IndexFits(c: nat, octet: byte)
    ensures Xor(c % 0x100, octet) < 0x100
  {
    hide Zip, Shl;
    ShlValues(1);
    ZipBound(XOR, c % 0x100, octet, 8);
  }
}
