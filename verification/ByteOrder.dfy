/** Byte arrays as the emulator stores them (src/utils/byte_array.cpp, include/utils/byte_array.h).
    RDRAM, ROM and IMEM hold each 32-bit word in the little-endian order of the host, so the logical byte k
    sits at k ^ 3 and the logical halfword k at k ^ 2; DMEM holds its bytes in logical, big-endian order. */
module ByteOrder {
  import opened Bits
  import opened Common

  type byte = x: nat | x < 0x100
  type u64 = x: nat | x < 0x1_0000_0000_0000_0000

  const WORD: nat := 0x1_0000_0000

  datatype Width = W8 | W16 | W32 | W64 {
    function Size(): nat { match this case W8 => 1 case W16 => 2 case W32 => 4 case W64 => 8 }
  }

  /** The source asserts that an access lies inside the array; the model lets a byte beyond it read as zero
      and drops a write to it. */
  function At(mem: seq<byte>, i: nat): byte { if i < |mem| then mem[i] else 0 }

  function Put(mem: seq<byte>, i: nat, b: byte): (r: seq<byte>)
    ensures |r| == |mem|
  {
    if i < |mem| then mem[i := b] else mem
  }

  function ByteAddress(p: nat): nat { Xor(p, 3) }
  function HalfAddress(p: nat): nat { Xor(p, 2) }

  function Host16(mem: seq<byte>, i: nat): (v: nat)
    ensures v < 0x1_0000
  {
    At(mem, i) + At(mem, i + 1) * 0x100
  }

  function Host32(mem: seq<byte>, i: nat): (v: nat)
    ensures v < WORD
  {
    Host16(mem, i) + Host16(mem, i + 2) * 0x1_0000
  }

  function PutHost16(mem: seq<byte>, i: nat, v: nat): (r: seq<byte>)
    ensures |r| == |mem|
  {
    Put(Put(mem, i, v % 0x100), i + 1, v / 0x100 % 0x100)
  }

  function PutHost32(mem: seq<byte>, i: nat, v: nat): (r: seq<byte>)
    ensures |r| == |mem|
  {
    PutHost16(PutHost16(mem, i, v % 0x1_0000), i + 2, v / 0x1_0000 % 0x1_0000)
  }

  /** read_from_byte_array8/16/32/64. A doubleword is two words, high word first. */
  function Read(mem: seq<byte>, w: Width, p: nat): u64 {
    match w
    case W8 => At(mem, ByteAddress(p))
    case W16 => Host16(mem, HalfAddress(p))
    case W32 => Host32(mem, p)
    case W64 => Host32(mem, p) * WORD + Host32(mem, p + 4)
  }

  /** write_to_byte_array8/16/32/64; a narrower store keeps the low bits of the value. */
  function Write(mem: seq<byte>, w: Width, p: nat, v: u64): (r: seq<byte>)
    ensures |r| == |mem|
  {
    match w
    case W8 => Put(mem, ByteAddress(p), v % 0x100)
    case W16 => PutHost16(mem, HalfAddress(p), v % 0x1_0000)
    case W32 => PutHost32(mem, p, v % WORD)
    case W64 => PutHost32(PutHost32(mem, p, v / WORD), p + 4, v % WORD)
  }

  // ---- Byte addresses -------------------------------------------------------------------------------

  lemma XorPair(a: nat, b: nat)
    requires a < 4 && b < 4
    ensures Xor(a, b) == 2 * Xor(a / 2, b / 2) + (if a % 2 == b % 2 then 0 else 1)
    ensures Xor(a / 2, b / 2) == if a / 2 == b / 2 then 0 else 1
  {
    hide Zip;
    ZipStep(XOR, a, b);
    ZipStep(XOR, a / 2, b / 2);
    ZipZero(0);
  }

  lemma XorInWord(r: nat)
    requires r < 4
    ensures Xor(r, 3) == 3 - r && Xor(r, 2) == if r < 2 then r + 2 else r - 2
  {
    hide Xor;
    XorPair(r, 3);
    XorPair(r, 2);
    if r == 0 {} else if r == 1 {} else if r == 2 {} else {}
  }

  /** Flipping the low two bits mirrors a byte within its word. */
  lemma Mirror(p: nat)
    ensures ByteAddress(p) == p / 4 * 4 + (3 - p % 4)
    ensures HalfAddress(p) == p / 4 * 4 + (if p % 4 < 2 then p % 4 + 2 else p % 4 - 2)
    ensures ByteAddress(p) / 4 == p / 4 && ByteAddress(p) % 4 == 3 - p % 4
  {
    hide Zip, Shl;
    var q, r := p / 4, p % 4;
    FourTimes(q); FourTimes(0); FourTimes(1);
    ZipZero(q);
    ZipSplit(XOR, q, r, 0, 3, 2);
    ZipSplit(XOR, q, r, 0, 2, 2);
    XorInWord(r);
    Euclid(ByteAddress(p), 4, q, 3 - r);
  }

  lemma FourTimes(a: int)
    ensures Shl(a, 2) == 4 * a
  {
    assert Shl(a, 1) == 2 * a;
  }

  lemma MirrorTwice(a: nat)
    ensures ByteAddress(ByteAddress(a)) == a
  {
    hide ByteAddress;
    Mirror(a);
    Mirror(ByteAddress(a));
  }

  // ---- Logical bytes --------------------------------------------------------------------------------

  /** The bytes in the order the N64 sees them. */
  function Logical(mem: seq<byte>, host: bool): (r: seq<byte>)
    ensures |r| == |mem|
  {
    seq(|mem|, k requires 0 <= k < |mem| => if host then At(mem, ByteAddress(k)) else mem[k])
  }

  lemma LogicalAt(mem: seq<byte>, host: bool, k: nat)
    requires k < |mem|
    ensures Logical(mem, host)[k] == if host then At(mem, ByteAddress(k)) else mem[k]
  {
    hide ByteAddress, At;
  }

  lemma AtInside(mem: seq<byte>, j: nat)
    requires j < |mem|
    ensures At(mem, j) == mem[j]
  {}

  /** byteswap_to_host, as a function: the bytes of every whole word reversed. */
  function Swapped(data: seq<byte>): (r: seq<byte>)
    ensures |r| == |data|
  {
    seq(|data|, k requires 0 <= k < |data| => if k / 4 * 4 + 4 <= |data| then At(data, k / 4 * 4 + (3 - k % 4)) else data[k])
  }

  /** A big-endian image, once swapped, reads back byte for byte through the host-order accessors. */
  lemma SwappedIsLogical(data: seq<byte>, k: nat)
    requires |data| % 4 == 0 && k < |data|
    ensures Read(Swapped(data), W8, k) == data[k] && Logical(Swapped(data), true)[k] == data[k]
  {
    Mirror(k);
    hide ByteAddress;
    var j := ByteAddress(k);
    assert j / 4 == k / 4 && j % 4 == 3 - k % 4 && j < |data|;
    assert Swapped(data)[j] == At(data, j / 4 * 4 + (3 - j % 4));
  }

  lemma SwappedWord(data: seq<byte>, i: nat)
    requires i % 4 == 0 && i + 4 <= |data|
    ensures Swapped(data)[i] == data[i + 3] && Swapped(data)[i + 1] == data[i + 2]
    ensures Swapped(data)[i + 2] == data[i + 1] && Swapped(data)[i + 3] == data[i]
  {}

  lemma SwappedTail(data: seq<byte>, k: nat)
    requires k < |data| && k / 4 * 4 + 4 > |data|
    ensures Swapped(data)[k] == data[k]
  {}

  /** byteswap_to_host, in place. */
  method ByteswapToHost(data: array<byte>)
    modifies data
    ensures data[..] == Swapped(old(data[..]))
  {
    hide Swapped;
    ghost var was := data[..];
    var i := 0;
    while i + 4 <= data.Length
      invariant i % 4 == 0 && i <= data.Length
      invariant forall k :: 0 <= k < i ==> data[k] == Swapped(was)[k]
      invariant forall k :: i <= k < data.Length ==> data[k] == was[k]
    {
      SwappedWord(was, i);
      data[i], data[i + 1], data[i + 2], data[i + 3] := data[i + 3], data[i + 2], data[i + 1], data[i];
      i := i + 4;
    }
    forall k | i <= k < data.Length ensures data[k] == Swapped(was)[k] {
      SwappedTail(was, k);
    }
  }

  /** The in-place writers. */
  method PutByte(mem: array<byte>, i: nat, b: byte)
    modifies mem
    ensures mem[..] == Put(old(mem[..]), i, b)
  {
    if i < mem.Length { mem[i] := b; }
  }

  method PutWord(mem: array<byte>, i: nat, v: nat)
    requires v < WORD
    modifies mem
    ensures mem[..] == PutHost32(old(mem[..]), i, v)
  {
    PutHalf(mem, i, v % 0x1_0000);
    PutHalf(mem, i + 2, v / 0x1_0000 % 0x1_0000);
  }

  method PutHalf(mem: array<byte>, i: nat, v: nat)
    modifies mem
    ensures mem[..] == PutHost16(old(mem[..]), i, v)
  {
    PutByte(mem, i, v % 0x100);
    PutByte(mem, i + 1, v / 0x100 % 0x100);
  }

  method WriteArray(mem: array<byte>, w: Width, p: nat, v: u64)
    modifies mem
    ensures mem[..] == Write(old(mem[..]), w, p, v)
  {
    hide Put, PutHost16, PutHost32, ByteAddress, HalfAddress;
    match w {
      case W8 => PutByte(mem, ByteAddress(p), v % 0x100);
      case W16 => PutHalf(mem, HalfAddress(p), v % 0x1_0000);
      case W32 => PutWord(mem, p, v % WORD);
      case W64 => PutWord(mem, p, v / WORD); PutWord(mem, p + 4, v % WORD);
    }
  }
}
