/** The command stream from the sender's side: what each kind of command consists of, and what the parser makes of a
    stream of whole ones (src/rcp/dpc.cpp:23-28, 155-241). */
module DpcCommands {
  import opened Common
  import opened Dpc

  /** A triangle carries the coefficients its kind asks for; a texture rectangle carries texture coordinates. */
  datatype Primitive =
    | Triangle(first: u32, edge: seq<u32>, shade: Option<seq<u32>>, texture: Option<seq<u32>>, depth: Option<seq<u32>>)
    | TextureRectangle(first: u32, second: u32, coordinates: (u32, u32))
    | Other(first: u32, second: u32)

  /** The code in bits 29..24 of a command's first word. */
  function Code(p: Primitive): nat { p.first / 0x100_0000 % 0x40 }

  predicate Holds(part: Option<seq<u32>>, size: nat) { part.Some? ==> |part.value| == size }

  function Flag(part: Option<seq<u32>>, weight: nat): nat { if part.Some? then weight else 0 }

  predicate WellFormed(p: Primitive) {
    match p
    case Triangle(_, edge, shade, texture, depth) =>
      && |edge| == 7 && Holds(shade, 16) && Holds(texture, 16) && Holds(depth, 4)
      && Code(p) == 8 + Flag(shade, 4) + Flag(texture, 2) + Flag(depth, 1)
    case TextureRectangle(_, _, _) => Code(p) == 0x24 || Code(p) == 0x25
    case Other(_, _) => (Code(p) < 8 || Code(p) >= 16) && Code(p) != 0x24 && Code(p) != 0x25
  }

  function Part(part: Option<seq<u32>>): seq<u32> { if part.Some? then part.value else [] }

  function Encode(p: Primitive): (words: seq<u32>)
    ensures words != [] && words[0] == p.first
  {
    match p
    case Triangle(first, edge, shade, texture, depth) => [first] + edge + Part(shade) + Part(texture) + Part(depth)
    case TextureRectangle(first, second, (st, step)) => [first, second, st, step]
    case Other(first, second) => [first, second]
  }

  function EncodeAll(ps: seq<Primitive>): seq<u32> {
    if ps == [] then [] else Encode(ps[0]) + EncodeAll(ps[1..])
  }

  /** What the renderer and the interrupt line are owed: the commands of code 8 and above, whole and in order, and a
      signal after each full sync. */
  function Owed(ps: seq<Primitive>): seq<Effect> {
    if ps == [] then []
    else
      (if Code(ps[0]) >= 8 then [Enqueue(Encode(ps[0]))] else [])
      + (if Code(ps[0]) == 0x29 then [FullSync] else [])
      + Owed(ps[1..])
  }

  lemma LengthIsEncoded(p: Primitive)
    requires WellFormed(p)
    ensures Length(Command(p.first)) == |Encode(p)|
  {}

  lemma EffectsAreOwed(p: Primitive)
    ensures EffectsOf(Encode(p)) ==
      (if Code(p) >= 8 then [Enqueue(Encode(p))] else []) + (if Code(p) == 0x29 then [FullSync] else [])
  {
    hide Encode;
  }

  /** A stream of whole commands is parsed back into exactly those commands, and nothing is left over. */
  lemma {:induction false} ParsesBack(ps: seq<Primitive>)
    requires forall i :: 0 <= i < |ps| ==> WellFormed(ps[i])
    ensures Parse(EncodeAll(ps)) == Parsed(Owed(ps), [])
    decreases |ps|
  {
    hide Parse, Encode, EffectsOf, Length, Command, Incomplete, WellFormed, Code;
    if ps == [] {
      EmptyParses([]);
    } else {
      var words, front, back := EncodeAll(ps), Encode(ps[0]), EncodeAll(ps[1..]);
      assert WellFormed(ps[0]);
      LengthIsEncoded(ps[0]);
      EffectsAreOwed(ps[0]);
      ShortIsIncomplete(words);
      ParseStep(words);
      assert words[..|front|] == front && words[|front|..] == back;
      ParsesBack(ps[1..]);
    }
  }

  /** Whole commands and the beginning of another one: that is carried, and nothing of it is sent. */
  lemma CarriesTheRest(ps: seq<Primitive>, p: Primitive, n: nat)
    requires (forall i :: 0 <= i < |ps| ==> WellFormed(ps[i])) && WellFormed(p) && n < |Encode(p)|
    ensures Parse(EncodeAll(ps) + Encode(p)[..n]) == Parsed(Owed(ps), Encode(p)[..n])
  {
    hide Parse, Encode, Length, Command, Incomplete;
    var part := Encode(p)[..n];
    ParsesBack(ps);
    ParseInTwo(EncodeAll(ps), part);
    LengthIsEncoded(p);
    PartIsIncomplete(p, part);
    IncompleteStays(part);
    assert [] + part == part && Owed(ps) + [] == Owed(ps);
  }

  lemma PartIsIncomplete(p: Primitive, part: seq<u32>)
    requires |part| < Length(Command(p.first)) && (part != [] ==> part[0] == p.first)
    ensures Incomplete(part)
  {
    hide Length, Command;
  }

  // ---- The words of a submission --------------------------------------------------------------------

  /** An address as the registers hold it: below 16 MiB, a multiple of 8. */
  predicate Address(v: nat) { v % 8 == 0 && v < 0x100_0000 }

  lemma AddressStays(v: u32)
    requires Address(v)
    ensures Mask(v) == v
  {
    Euclid(v, 8, v / 8, 0);
    Euclid(v / 8, 0x20_0000, 0, v / 8);
  }

  /** Written addresses lose their low three bits and the bits above 16 MiB. */
  lemma OtherBitsIgnored(v: u32, high: nat, low: nat)
    requires Address(v) && low < 8 && v + low + 0x100_0000 * high < 0x1_0000_0000
    ensures Mask(v + low + 0x100_0000 * high) == v
  {
    var w := v + low + 0x100_0000 * high;
    Euclid(v, 8, v / 8, 0);
    Euclid(w, 8, v / 8 + 0x20_0000 * high, low);
    Euclid(v / 8 + 0x20_0000 * high, 0x20_0000, high, v / 8);
  }

  /** The word a memory holds at an address: RDRAM, or the RSP's memory, which repeats. */
  function WordAt(m: Memories, xbus: bool, a: nat): u32 { if xbus then m.dmem(a % 0x1000) else m.rdram(a) }

  predicate AreWords(words: seq<u32>, m: Memories, xbus: bool, from: nat, to: nat) {
    4 * |words| == to - from && forall i :: 0 <= i < |words| ==> words[i] == WordAt(m, xbus, from + 4 * i)
  }

  lemma PendingWords(d: State, m: Memories)
    requires Address(d.current) && Address(d.end) && d.current <= d.end
    ensures AreWords(Pending(d, m), m, d.xbus, d.current, d.end)
  {
    hide Mask;
    AddressStays(d.current);
    AddressStays(d.end);
    Multiples(d.current, d.end);
  }

  lemma Multiples(a: nat, b: nat)
    requires a % 8 == 0 && b % 8 == 0 && a <= b
    ensures (b - a) / 4 * 4 == b - a
  {
    Euclid(b - a, 4, 2 * (b / 8) - 2 * (a / 8), 0);
  }

  /** START then END submits the words from one to the other, and a second END those from there on. */
  lemma SubmitsTheList(d: State, a: u32, b: u32, c: u32, m: Memories, m': Memories)
    requires Address(a) && Address(b) && Address(c) && a < b < c
    requires !d.startValid && !d.freeze
    ensures var d1 := Step(d, WriteStart(a), m); var d2 := Step(d1, WriteEnd(b), m);
      && Submitted(d, WriteStart(a), m) == []
      && AreWords(Submitted(d1, WriteEnd(b), m), m, d.xbus, a, b)
      && (|Submitted(d1, WriteEnd(b), m)| + |d.carried| <= CAPACITY ==>
            AreWords(Submitted(d2, WriteEnd(c), m'), m', d.xbus, b, c))
  {
    AddressStays(a); AddressStays(b); AddressStays(c);
    hide Mask, Parse, Pending, AreWords, Address;
    var d1 := Step(d, WriteStart(a), m);
    var l1 := Latched(d1, WriteEnd(b));
    PendingWords(l1, m);
    var d2 := Step(d1, WriteEnd(b), m);
    if |Submitted(d1, WriteEnd(b), m)| + |d.carried| <= CAPACITY {
      Moved(l1, m);
      PendingWords(Latched(d2, WriteEnd(c)), m');
    }
  }

  /** After a list CURRENT stands at its end, and nothing is frozen. */
  lemma Moved(d: State, m: Memories)
    requires !d.freeze && Address(d.current) && Address(d.end) && d.current < d.end && |Pending(d, m)| + |d.carried| <= CAPACITY
    ensures var d' := RunCommandOf(d, m); d'.current == d.end && !d'.freeze && d'.startValid == d.startValid && d'.xbus == d.xbus
  {
    AddressStays(d.current);
    AddressStays(d.end);
    PendingByAddresses(d, m);
    PendingWords(d, m);
    hide Mask, Parse, Pending;
  }

  // ---- Status ---------------------------------------------------------------------------------------

  /** A pair of bits that clears (01), sets (10) or keeps (00 and 11). */
  function Pair(was: bool, bits: nat): bool { if bits == 1 then false else if bits == 2 then true else was }

  /** A STATUS write: three such pairs, then four bits that clear. */
  lemma StatusExact(d: State, v: u32)
    ensures var d' := StatusBits(d, v);
      && d'.xbus == Pair(d.xbus, v % 4) && d'.freeze == Pair(d.freeze, v / 4 % 4) && d'.flush == Pair(d.flush, v / 16 % 4)
      && d'.tmem == (if v / 64 % 2 == 1 then 0 else d.tmem) && d'.pipeBusy == (d.pipeBusy && v / 128 % 2 == 0)
      && d'.cmdBusy == (d.cmdBusy && v / 256 % 2 == 0) && d'.clock == (if v / 512 % 2 == 1 then 0 else d.clock)
  {
    TwoBits(v, 1, 2, 4);
    TwoBits(v, 4, 8, 16);
    TwoBits(v, 16, 32, 64);
  }

  lemma TwoBits(v: nat, low: nat, high: nat, next: nat)
    requires (low, high, next) == (1, 2, 4) || (low, high, next) == (4, 8, 16) || (low, high, next) == (16, 32, 64)
    ensures v / low % 4 == v / low % 2 + 2 * (v / high % 2)
  {
    var x := v / low;
    Euclid(v, high, x / 2, x % 2 * low + v % low);
    Euclid(x, 4, x / 2 / 2, x % 2 + 2 * (x / 2 % 2));
  }
}
