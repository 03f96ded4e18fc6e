/** The display processor's command interface: START, END and STATUS writes, and the parser that carries a
    partial command from one submission to the next (src/rcp/dpc.cpp). */
module Dpc {
  type u32 = x: nat | x < 0x1_0000_0000

  const CAPACITY: nat := 0x10_0000
  const FULL_SYNC: nat := 0x29

  function Command(word: u32): nat { word / 0x100_0000 % 0x40 }

  /** How many words a command takes. */
  function Length(command: nat): (n: nat)
    ensures 2 <= n <= 44
  {
    match command
    case 8 => 8 case 9 => 12 case 10 => 24 case 11 => 28
    case 12 => 24 case 13 => 28 case 14 => 40 case 15 => 44
    case 36 => 4 case 37 => 4
    case _ => 2
  }

  // ---- Parsing a stream of words --------------------------------------------------------------------

  /** What the renderer and the interrupt line see. */
  datatype Effect = Enqueue(words: seq<u32>) | FullSync

  datatype Parsed = Parsed(effects: seq<Effect>, rest: seq<u32>)

  predicate Incomplete(words: seq<u32>) { words == [] || |words| < Length(Command(words[0])) }

  /** Commands below 8 are skipped; a full sync is enqueued and then signalled. */
  function EffectsOf(words: seq<u32>): seq<Effect>
    requires words != []
  {
    (if Command(words[0]) >= 8 then [Enqueue(words)] else []) + (if Command(words[0]) == FULL_SYNC then [FullSync] else [])
  }

  function Parse(words: seq<u32>): Parsed
    decreases |words|
  {
    if Incomplete(words) then Parsed([], words)
    else
      var n := Length(Command(words[0]));
      var p := Parse(words[n..]);
      Parsed(EffectsOf(words[..n]) + p.effects, p.rest)
  }

  lemma ParseStep(words: seq<u32>)
    requires !Incomplete(words)
    ensures var n := Length(Command(words[0])); var p := Parse(words[n..]);
      Parse(words) == Parsed(EffectsOf(words[..n]) + p.effects, p.rest)
  {
    hide EffectsOf, Length, Command;
  }

  /** Parsing in two parts, the second starting with what the first left over, is parsing at once. */
  lemma {:induction false} ParseInTwo(a: seq<u32>, b: seq<u32>)
    ensures var p := Parse(a); var q := Parse(p.rest + b); Parse(a + b) == Parsed(p.effects + q.effects, q.rest)
    decreases |a|
  {
    hide EffectsOf, Parse, Length, Command;
    if Incomplete(a) {
      IncompleteStays(a);
      assert Parse(a).effects + Parse(a + b).effects == Parse(a + b).effects;
    } else {
      var n := Length(Command(a[0]));
      assert (a + b)[0] == a[0] && (a + b)[n..] == a[n..] + b && (a + b)[..n] == a[..n];
      ParseInTwo(a[n..], b);
      ParseStep(a);
      ParseStep(a + b);
      var p := Parse(a[n..]);
      assert Parse(a + b).effects == EffectsOf(a[..n]) + (p.effects + Parse(p.rest + b).effects);
    }
  }

  /** What is carried over is the end of the stream, an incomplete command of fewer than 44 words. */
  lemma {:induction false} RestIsIncompleteSuffix(words: seq<u32>)
    ensures var r := Parse(words).rest;
      |r| <= |words| && r == words[|words| - |r|..] && Incomplete(r) && |r| < 44
    decreases |words|
  {
    if !Incomplete(words) { RestIsIncompleteSuffix(words[Length(Command(words[0]))..]); }
  }

  lemma IncompleteStays(words: seq<u32>)
    requires Incomplete(words)
    ensures Parse(words) == Parsed([], words)
  {}

  function Concat(chunks: seq<seq<u32>>): seq<u32>
    decreases |chunks|
  {
    if chunks == [] then [] else chunks[0] + Concat(chunks[1..])
  }

  /** Parsing chunk by chunk. */
  function ParseChunks(carried: seq<u32>, chunks: seq<seq<u32>>): Parsed
    decreases |chunks|
  {
    if chunks == [] then Parsed([], carried)
    else
      var p := Parse(carried + chunks[0]);
      var q := ParseChunks(p.rest, chunks[1..]);
      Parsed(p.effects + q.effects, q.rest)
  }

  /** However the stream is cut, the commands and full syncs are those of the whole. */
  lemma {:induction false} ChunkingIsImmaterial(carried: seq<u32>, chunks: seq<seq<u32>>)
    requires Incomplete(carried)
    ensures ParseChunks(carried, chunks) == Parse(carried + Concat(chunks))
    decreases |chunks|
  {
    hide Incomplete, Parse;
    if chunks == [] {
      IncompleteStays(carried);
      assert carried + Concat(chunks) == carried;
    } else {
      var p := Parse(carried + chunks[0]);
      RestIsIncompleteSuffix(carried + chunks[0]);
      ChunkingIsImmaterial(p.rest, chunks[1..]);
      ParseInTwo(carried + chunks[0], Concat(chunks[1..]));
      assert carried + Concat(chunks) == carried + chunks[0] + Concat(chunks[1..]);
    }
  }

  // ---- The registers --------------------------------------------------------------------------------

  /** `carried` is the part of the command buffer that waits for the next submission, `out` everything sent on. */
  datatype State = State(start: u32, end: u32, current: u32,
                         xbus: bool, freeze: bool, flush: bool, startGclk: bool, pipeBusy: bool, cmdBusy: bool,
                         cbufReady: bool, startValid: bool, clock: nat, tmem: nat,
                         carried: seq<u32>, out: seq<Effect>)

  /** Memory at the time of a submission: RDRAM words, or DMEM words over the XBUS. */
  datatype Memories = Memories(rdram: nat -> u32, dmem: nat -> u32)

  function Mask(value: u32): u32 { value / 8 % 0x20_0000 * 8 }

  function Words(m: Memories, xbus: bool, from: nat, n: nat): (r: seq<u32>)
    ensures |r| == n
  {
    seq(n, i requires 0 <= i < n => if xbus then m.dmem((from + 4 * i) % 0x1000) else m.rdram(from + 4 * i))
  }

  /** The words the next list adds to the stream. */
  function Pending(d: State, m: Memories): seq<u32> {
    if Mask(d.end) <= Mask(d.current) then [] else Words(m, d.xbus, Mask(d.current), (Mask(d.end) - Mask(d.current)) / 4)
  }

  predicate Overflows(d: State, m: Memories) { |Pending(d, m)| + |d.carried| > CAPACITY }

  predicate Syncs(effects: seq<Effect>) { FullSync in effects }

  function ProcessListOf(d: State, m: Memories): State {
    var words := Pending(d, m);
    if words == [] then d.(freeze := false)
    else if Overflows(d, m) then d.(carried := [], freeze := false)
    else Sent(d, Parse(d.carried + words))
  }

  function Sent(d: State, p: Parsed): State {
    var d := d.(carried := p.rest, out := d.out + p.effects, current := Mask(d.end), end := Mask(d.end), freeze := false);
    if Syncs(p.effects) then d.(pipeBusy := false, startGclk := false, cbufReady := false) else d
  }

  function RunCommandOf(d: State, m: Memories): State {
    if d.freeze then d
    else
      var d := d.(pipeBusy := true, startGclk := true);
      (if d.end > d.current then ProcessListOf(d, m) else d).(cbufReady := true)
  }

  datatype Op = WriteStart(value: u32) | WriteEnd(value: u32) | WriteStatus(value: u32) | Reset

  predicate Bit(value: nat, i: nat)
    requires i < 10
  {
    value / (match i case 0 => 1 case 1 => 2 case 2 => 4 case 3 => 8 case 4 => 0x10 case 5 => 0x20
             case 6 => 0x40 case 7 => 0x80 case 8 => 0x100 case _ => 0x200) % 2 == 1
  }

  function Toggle(was: bool, clear: bool, raise: bool): bool {
    if clear && !raise then false else if raise && !clear then true else was
  }

  function StatusBits(d: State, v: u32): State {
    d.(xbus := Toggle(d.xbus, Bit(v, 0), Bit(v, 1)), freeze := Toggle(d.freeze, Bit(v, 2), Bit(v, 3)),
       flush := Toggle(d.flush, Bit(v, 4), Bit(v, 5)),
       tmem := if Bit(v, 6) then 0 else d.tmem, pipeBusy := d.pipeBusy && !Bit(v, 7),
       cmdBusy := d.cmdBusy && !Bit(v, 8), clock := if Bit(v, 9) then 0 else d.clock)
  }

  /** A write as it sets the registers, before it may run the list. */
  function Latched(d: State, op: Op): State {
    match op
    case WriteStart(v) => d.(start := if d.startValid then d.start else Mask(v), startValid := true)
    case WriteEnd(v) =>
      var d := d.(end := Mask(v));
      if d.startValid then d.(current := d.start, startValid := false) else d
    case WriteStatus(v) => StatusBits(d, v)
    case Reset =>
      d.(start := 0, end := 0, current := 0, xbus := false, freeze := false, flush := false, startGclk := false,
         pipeBusy := false, cmdBusy := false, cbufReady := false, startValid := false, clock := 0, tmem := 0, carried := [])
  }

  /** Writing END runs the list, and so does unfreezing. */
  predicate Runs(op: Op) { op.WriteEnd? || (op.WriteStatus? && Bit(op.value, 2) && !Bit(op.value, 3)) }

  function Step(d: State, op: Op, m: Memories): State { if Runs(op) then RunCommandOf(Latched(d, op), m) else Latched(d, op) }

  /** The words a write submits. */
  function Submitted(d: State, op: Op, m: Memories): seq<u32> {
    var d' := Latched(d, op);
    if Runs(op) && !d'.freeze && d'.end > d'.current then Pending(d', m) else []
  }

  // ---- Runs -----------------------------------------------------------------------------------------

  function After(d: State, ops: seq<(Op, Memories)>): State
    decreases |ops|
  {
    if ops == [] then d else After(Step(d, ops[0].0, ops[0].1), ops[1..])
  }

  function Stream(d: State, ops: seq<(Op, Memories)>): seq<u32>
    decreases |ops|
  {
    if ops == [] then [] else Submitted(d, ops[0].0, ops[0].1) + Stream(Step(d, ops[0].0, ops[0].1), ops[1..])
  }

  /** No submission overflows the buffer and none is thrown away by a reset. */
  predicate Fits(d: State, ops: seq<(Op, Memories)>)
    decreases |ops|
  {
    ops != [] ==>
      && !ops[0].0.Reset?
      && |Submitted(d, ops[0].0, ops[0].1)| + |d.carried| <= CAPACITY
      && Fits(Step(d, ops[0].0, ops[0].1), ops[1..])
  }

  lemma StatusKeeps(d: State, v: u32)
    ensures StatusBits(d, v).carried == d.carried && StatusBits(d, v).out == d.out
  {
    hide Bit, Toggle;
  }

  lemma LatchedKeeps(d: State, op: Op)
    requires !op.Reset?
    ensures Latched(d, op).carried == d.carried && Latched(d, op).out == d.out
  {
    hide Mask, StatusBits;
    if op.WriteStatus? { StatusKeeps(d, op.value); }
  }

  lemma PendingByAddresses(d: State, m: Memories)
    ensures Pending(d.(pipeBusy := true, startGclk := true), m) == Pending(d, m)
  {
    hide Mask, Words;
  }

  lemma RunCommandParses(d: State, m: Memories)
    requires Incomplete(d.carried) && |Pending(d, m)| + |d.carried| <= CAPACITY
    ensures var a := if !d.freeze && d.end > d.current then Pending(d, m) else [];
      var p := Parse(d.carried + a);
      var d' := RunCommandOf(d, m);
      && d'.carried == p.rest && d'.out == d.out + p.effects
      && (a != [] ==> d'.pipeBusy == !Syncs(p.effects) && d'.startGclk == d'.pipeBusy && d'.cbufReady)
  {
    hide Parse, Pending, Mask, Incomplete;
    PendingByAddresses(d, m);
    IncompleteStays(d.carried);
    assert d.carried + [] == d.carried && d.out + [] == d.out;
  }

  lemma StepParses(d: State, op: Op, m: Memories)
    requires Incomplete(d.carried) && !op.Reset? && |Submitted(d, op, m)| + |d.carried| <= CAPACITY
    ensures var p := Parse(d.carried + Submitted(d, op, m)); var d' := Step(d, op, m);
      d'.carried == p.rest && d'.out == d.out + p.effects && Incomplete(d'.carried)
  {
    hide Parse, Pending, Latched, Incomplete, RunCommandOf, Runs;
    LatchedKeeps(d, op);
    IncompleteStays(d.carried);
    assert d.carried + [] == d.carried && d.out + [] == d.out;
    RestIsIncompleteSuffix(d.carried + Submitted(d, op, m));
    if Runs(op) { RunCommandInTurn(Latched(d, op), m); }
  }

  /** As RunCommandParses, without asking that a list that is not run fits. */
  lemma RunCommandInTurn(d: State, m: Memories)
    requires Incomplete(d.carried)
    requires !d.freeze && d.end > d.current ==> |Pending(d, m)| + |d.carried| <= CAPACITY
    ensures var a := if !d.freeze && d.end > d.current then Pending(d, m) else [];
      var p := Parse(d.carried + a);
      RunCommandOf(d, m).carried == p.rest && RunCommandOf(d, m).out == d.out + p.effects
  {
    hide Parse, Pending, ProcessListOf, Incomplete;
    IncompleteStays(d.carried);
    assert d.carried + [] == d.carried && d.out + [] == d.out;
    if !d.freeze && d.end > d.current { RunCommandParses(d, m); }
  }

  /** In every run of register writes, with any starts and ends, freezing and unfreezing between them, the
      renderer gets exactly the commands of the submitted words parsed as one stream. */
  lemma {:induction false} RunIsOneParse(d: State, ops: seq<(Op, Memories)>)
    requires Incomplete(d.carried) && Fits(d, ops)
    ensures var p := Parse(d.carried + Stream(d, ops)); var d' := After(d, ops);
      d'.out == d.out + p.effects && d'.carried == p.rest && |d'.carried| < 44
    decreases |ops|
  {
    hide Parse, Step, Submitted, Incomplete;
    if ops == [] {
      IncompleteStays(d.carried);
      assert d.carried + [] == d.carried && d.out + [] == d.out;
      RestIsIncompleteSuffix(d.carried);
    } else {
      var (op, m) := ops[0];
      var a, d1 := Submitted(d, op, m), Step(d, op, m);
      StepParses(d, op, m);
      RunIsOneParse(d1, ops[1..]);
      ParseInTwo(d.carried + a, Stream(d1, ops[1..]));
      assert d.carried + Stream(d, ops) == d.carried + a + Stream(d1, ops[1..]);
    }
  }

  /** A write that throws words away: a reset the partial command, an overflow that and its own submission. */
  predicate Drops(d: State, op: Op, m: Memories) { op.Reset? || |Submitted(d, op, m)| + |d.carried| > CAPACITY }

  /** The words submitted, cut where words are thrown away. */
  function Stretches(d: State, ops: seq<(Op, Memories)>): (r: seq<seq<u32>>)
    ensures r != []
    decreases |ops|
  {
    if ops == [] then [[]]
    else
      var (op, m) := ops[0];
      var rest := Stretches(Step(d, op, m), ops[1..]);
      if Drops(d, op, m) then [[]] + rest else [Submitted(d, op, m) + rest[0]] + rest[1..]
  }

  /** Each stretch parsed on its own. */
  function ParseEach(streams: seq<seq<u32>>): Parsed
    requires streams != []
    decreases |streams|
  {
    var p := Parse(streams[0]);
    if |streams| == 1 then p
    else
      var q := ParseEach(streams[1..]);
      Parsed(p.effects + q.effects, q.rest)
  }

  lemma StepDrops(d: State, op: Op, m: Memories)
    requires Drops(d, op, m) && |d.carried| < 44
    ensures Step(d, op, m).carried == [] && Step(d, op, m).out == d.out
  {
    hide Pending, Mask, Parse;
    if !op.Reset? {
      LatchedKeeps(d, op);
      PendingByAddresses(Latched(d, op), m);
    }
  }

  /** In every run of register writes, overflows and resets included, the renderer gets exactly the commands of the
      stretches between the words thrown away, each parsed as one stream. */
  lemma {:induction false} RunIsOneParseEach(d: State, ops: seq<(Op, Memories)>)
    requires Incomplete(d.carried)
    ensures var st := Stretches(d, ops); var p := ParseEach([d.carried + st[0]] + st[1..]); var d' := After(d, ops);
      d'.out == d.out + p.effects && d'.carried == p.rest && |d'.carried| < 44
    decreases |ops|
  {
    hide Parse, Step, Submitted, Incomplete, Drops;
    IncompleteStays(d.carried);
    RestIsIncompleteSuffix(d.carried);
    if ops == [] {
      assert d.carried + [] == d.carried && d.out + [] == d.out;
    } else {
      var (op, m) := ops[0];
      var d1 := Step(d, op, m);
      var rest := Stretches(d1, ops[1..]);
      if Drops(d, op, m) {
        StepDrops(d, op, m);
        NothingCarried();
        RunIsOneParseEach(d1, ops[1..]);
        assert d1.carried + rest[0] == rest[0] && [rest[0]] + rest[1..] == rest;
        assert d.carried + [] == d.carried && ([d.carried] + rest)[1..] == rest;
        assert [] + ParseEach(rest).effects == ParseEach(rest).effects;
      } else {
        var a := Submitted(d, op, m);
        DropsNothing(d, op, m);
        StepParses(d, op, m);
        RunIsOneParseEach(d1, ops[1..]);
        FirstInTwo(d.carried + a, rest[0], rest[1..]);
        assert d.carried + (a + rest[0]) == d.carried + a + rest[0];
        assert ([a + rest[0]] + rest[1..])[1..] == rest[1..];
      }
    }
  }

  lemma NothingCarried()
    ensures Incomplete([])
  {}

  lemma DropsNothing(d: State, op: Op, m: Memories)
    requires !Drops(d, op, m)
    ensures !op.Reset? && |Submitted(d, op, m)| + |d.carried| <= CAPACITY
  {}

  /** Parsing the first stream in two. */
  lemma FirstInTwo(a: seq<u32>, b: seq<u32>, rest: seq<seq<u32>>)
    ensures var p := Parse(a); var q := ParseEach([p.rest + b] + rest);
      ParseEach([a + b] + rest) == Parsed(p.effects + q.effects, q.rest)
  {
    hide Parse;
    ParseInTwo(a, b);
    var p := Parse(a);
    var first, second := Parse(p.rest + b), [p.rest + b] + rest;
    assert second[1..] == rest && ([a + b] + rest)[1..] == rest;
    if rest != [] {
      var q := ParseEach(rest);
      assert p.effects + first.effects + q.effects == p.effects + (first.effects + q.effects);
    }
  }

  /** PIPE_BUSY after a submission says that it signalled no full sync. */
  lemma PipeBusyAfter(d: State, op: Op, m: Memories)
    requires Runs(op) && Incomplete(d.carried) && Submitted(d, op, m) != []
    requires |Submitted(d, op, m)| + |d.carried| <= CAPACITY
    ensures var d' := Step(d, op, m);
      d'.pipeBusy == !Syncs(Parse(d.carried + Submitted(d, op, m)).effects) && d'.startGclk == d'.pipeBusy && d'.cbufReady
  {
    hide Parse, Pending, Latched, RunCommandOf;
    LatchedKeeps(d, op);
    RunCommandParses(Latched(d, op), m);
  }

  /** So PIPE_BUSY, unlike the commands, depends on how the stream is cut: with the cut between a and b it ends
      as without the cut exactly when the part after the cut signals a full sync or the part before does not. */
  lemma PipeBusyByChunks(a: seq<u32>, b: seq<u32>)
    ensures var p := Parse(a); var q := Parse(p.rest + b);
      Syncs(q.effects) == Syncs(Parse(a + b).effects) <==> Syncs(q.effects) || !Syncs(p.effects)
  {
    hide Parse;
    ParseInTwo(a, b);
  }

  // ---- The interface object -------------------------------------------------------------------------

  /** The registers and the command buffer; `out` stands for the calls into the renderer and the interrupt. */
  class CommandInterface {
    const buffer: array<u32>
    var leftover: nat
    var start: u32
    var end: u32
    var current: u32
    var xbus: bool
    var freeze: bool
    var flush: bool
    var startGclk: bool
    var pipeBusy: bool
    var cmdBusy: bool
    var cbufReady: bool
    var startValid: bool
    var clock: nat
    var tmem: nat
    var out: seq<Effect>

    ghost predicate Valid()
      reads this
    {
      buffer.Length == CAPACITY && leftover <= CAPACITY
    }

    ghost function View(): State
      reads this, buffer
      requires Valid()
    {
      State(start, end, current, xbus, freeze, flush, startGclk, pipeBusy, cmdBusy, cbufReady, startValid, clock, tmem,
            buffer[..leftover], out)
    }

    constructor ()
      ensures Valid() && fresh(buffer) && leftover == 0 && out == []
    {
      buffer := new u32[CAPACITY](_ => 0);
      leftover, start, end, current := 0, 0, 0, 0;
      xbus, freeze, flush, startGclk := false, false, false, false;
      pipeBusy, cmdBusy, cbufReady, startValid := false, false, false, false;
      clock, tmem, out := 0, 0, [];
    }

    /** Copies a list behind the words carried over. */
    method Fetch(m: Memories, from: nat, n: nat)
      requires Valid() && leftover + n <= CAPACITY
      modifies buffer
      ensures buffer[..leftover + n] == old(buffer[..leftover]) + Words(m, xbus, from, n)
    {
      ghost var carried := buffer[..leftover];
      for i := 0 to n
        invariant buffer[..leftover] == carried
        invariant forall k :: 0 <= k < i ==> buffer[leftover + k] == Words(m, xbus, from, n)[k]
      {
        buffer[leftover + i] := if xbus then m.dmem((from + 4 * i) % 0x1000) else m.rdram(from + 4 * i);
      }
      assert buffer[leftover..leftover + n] == Words(m, xbus, from, n);
      assert buffer[..leftover + n] == buffer[..leftover] + buffer[leftover..leftover + n];
    }

    /** Moves a partial command to the front of the buffer. */
    method Carry(from: nat, length: nat)
      requires Valid() && from <= length <= CAPACITY
      modifies buffer, this`leftover
      ensures Valid() && leftover == length - from && buffer[..leftover] == old(buffer[from..length])
    {
      var temp := buffer[from..length];
      leftover := length - from;
      for i := 0 to leftover
        invariant leftover == |temp| && forall k :: 0 <= k < i ==> buffer[k] == temp[k]
      {
        buffer[i] := temp[i];
      }
      assert buffer[..leftover] == temp;
    }

    method Send(from: nat, n: nat)
      requires Valid() && 0 < n && from + n <= CAPACITY && n == Length(Command(buffer[from]))
      modifies this`out, this`pipeBusy, this`startGclk, this`cbufReady
      ensures out == old(out) + EffectsOf(buffer[from..from + n])
      ensures var sync := Syncs(EffectsOf(buffer[from..from + n]));
        && pipeBusy == (old(pipeBusy) && !sync) && startGclk == (old(startGclk) && !sync)
        && cbufReady == (old(cbufReady) && !sync)
    {
      var command := Command(buffer[from]);
      if command >= 8 { out := out + [Enqueue(buffer[from..from + n])]; }
      if command == FULL_SYNC {
        out := out + [FullSync];
        pipeBusy, startGclk, cbufReady := false, false, false;
      }
    }

    method ParseBuffer(length: nat)
      requires Valid() && length <= CAPACITY
      modifies buffer, this`leftover, this`out, this`pipeBusy, this`startGclk, this`cbufReady
      ensures Valid()
      ensures var p := Parse(old(buffer[..length])); var sync := Syncs(p.effects);
        && buffer[..leftover] == p.rest && out == old(out) + p.effects
        && pipeBusy == (old(pipeBusy) && !sync) && startGclk == (old(startGclk) && !sync)
        && cbufReady == (old(cbufReady) && !sync)
    {
      hide Parse, EffectsOf, Length, Command, Incomplete, Syncs;
      ghost var words := buffer[..length];
      ghost var sent: seq<Effect> := [];
      var at := 0;
      NoSync();
      while at < length
        invariant Valid() && at <= length && buffer[..length] == words
        invariant Sofar(words, at, sent)
        invariant out == old(out) + sent
        invariant pipeBusy == (old(pipeBusy) && !Syncs(sent)) && startGclk == (old(startGclk) && !Syncs(sent))
        invariant cbufReady == (old(cbufReady) && !Syncs(sent))
      {
        hide Sofar;
        var n := Length(Command(buffer[at]));
        assert buffer[at] == words[at] && buffer[at..length] == words[at..];
        if at + n > length {
          LastPart(words, at, sent);
          Carry(at, length);
          return;
        }
        assert buffer[at..at + n] == buffer[..length][at..at + n] == words[at..at + n];
        NextCommand(words, at, sent);
        Send(at, n);
        sent := sent + EffectsOf(words[at..at + n]);
        at := at + n;
      }
      AllSent(words, sent);
      leftover := 0;
    }

    method SendList(m: Memories, from: nat, n: nat, to: u32)
      requires Valid() && n + leftover <= CAPACITY && to == Mask(end)
      modifies this, buffer
      ensures Valid() && View() == Sent(old(View()), Parse(old(View()).carried + Words(m, old(xbus), from, n)))
    {
      hide Parse, Words, Mask, Sent, Syncs;
      ghost var d := View();
      Fetch(m, from, n);
      ParseBuffer(n + leftover);
      current, end, freeze := to, to, false;
      SentFields(d, Parse(d.carried + Words(m, d.xbus, from, n)), View());
    }

    method ProcessList(m: Memories)
      requires Valid()
      modifies this, buffer
      ensures Valid() && View() == ProcessListOf(old(View()), m)
    {
      hide Parse, Words, Mask, Sent, ProcessListOf, Pending;
      ghost var d := View();
      ListCases(d, m);
      freeze := true;
      if Mask(current) < Mask(end) {
        SendOrDrop(m, Mask(current), (Mask(end) - Mask(current)) / 4, Mask(end));
        SentUnfreezes(d, Parse(d.carried + Pending(d, m)));
      } else {
        freeze := false;
      }
    }

    /** A list that does not fit is dropped, and so is what was carried over. */
    method SendOrDrop(m: Memories, from: nat, n: nat, to: u32)
      requires Valid() && to == Mask(end)
      modifies this, buffer
      ensures Valid()
      ensures View() == if n + old(leftover) > CAPACITY then old(View()).(carried := [], freeze := false)
                        else Sent(old(View()), Parse(old(View()).carried + Words(m, old(xbus), from, n)))
    {
      hide Parse, Words, Mask, Sent;
      if n + leftover > CAPACITY {
        leftover, freeze := 0, false;
      } else {
        SendList(m, from, n, to);
      }
    }

    method RunCommand(m: Memories)
      requires Valid()
      modifies this, buffer
      ensures Valid() && View() == RunCommandOf(old(View()), m)
    {
      hide ProcessListOf;
      if !freeze {
        pipeBusy, startGclk := true, true;
        if end > current { ProcessList(m); }
        cbufReady := true;
      }
    }

    method WriteStart(value: u32)
      requires Valid()
      modifies this`start, this`startValid
      ensures Valid() && View() == Latched(old(View()), Op.WriteStart(value))
    {
      if !startValid { start := Mask(value); }
      startValid := true;
    }

    method WriteEnd(value: u32, m: Memories)
      requires Valid()
      modifies this, buffer
      ensures Valid() && View() == Step(old(View()), Op.WriteEnd(value), m)
    {
      hide RunCommandOf, Mask;
      end := Mask(value);
      if startValid { current, startValid := start, false; }
      RunCommand(m);
    }

    method Reset()
      requires Valid()
      modifies this
      ensures Valid() && View() == Latched(old(View()), Op.Reset)
    {
      hide Latched;
      ghost var d := View();
      leftover, start, end, current, clock, tmem := 0, 0, 0, 0, 0, 0;
      ClearStatus();
      ResetFields(d, View());
    }

    method ClearStatus()
      modifies this`xbus, this`freeze, this`flush, this`startGclk, this`pipeBusy, this`cmdBusy, this`cbufReady, this`startValid
      ensures !xbus && !freeze && !flush && !startGclk && !pipeBusy && !cmdBusy && !cbufReady && !startValid
    {
      xbus, freeze, flush, startGclk := false, false, false, false;
      pipeBusy, cmdBusy, cbufReady, startValid := false, false, false, false;
    }

    method SetModes(value: u32)
      modifies this`xbus, this`freeze, this`flush
      ensures xbus == Toggle(old(xbus), Bit(value, 0), Bit(value, 1))
      ensures freeze == Toggle(old(freeze), Bit(value, 2), Bit(value, 3))
      ensures flush == Toggle(old(flush), Bit(value, 4), Bit(value, 5))
    {
      hide Bit, Toggle;
      xbus := Toggle(xbus, Bit(value, 0), Bit(value, 1));
      freeze := Toggle(freeze, Bit(value, 2), Bit(value, 3));
      flush := Toggle(flush, Bit(value, 4), Bit(value, 5));
    }

    method ClearCounters(value: u32)
      modifies this`tmem, this`pipeBusy, this`cmdBusy, this`clock
      ensures tmem == (if Bit(value, 6) then 0 else old(tmem)) && clock == (if Bit(value, 9) then 0 else old(clock))
      ensures pipeBusy == (old(pipeBusy) && !Bit(value, 7)) && cmdBusy == (old(cmdBusy) && !Bit(value, 8))
    {
      hide Bit;
      if Bit(value, 6) { tmem := 0; }
      if Bit(value, 7) { pipeBusy := false; }
      if Bit(value, 8) { cmdBusy := false; }
      if Bit(value, 9) { clock := 0; }
    }

    method SetStatus(value: u32)
      requires Valid()
      modifies this`xbus, this`freeze, this`flush, this`tmem, this`pipeBusy, this`cmdBusy, this`clock
      ensures Valid() && View() == StatusBits(old(View()), value)
    {
      hide Bit, Toggle;
      SetModes(value);
      ClearCounters(value);
    }

    method WriteStatus(value: u32, m: Memories)
      requires Valid()
      modifies this, buffer
      ensures Valid() && View() == Step(old(View()), Op.WriteStatus(value), m)
    {
      hide RunCommandOf, Bit, StatusBits;
      SetStatus(value);
      if Bit(value, 2) && !Bit(value, 3) { RunCommand(m); }
    }
  }

  lemma SentUnfreezes(d: State, p: Parsed)
    ensures Sent(d.(freeze := true), p) == Sent(d, p)
  {
    hide Mask, Syncs;
  }

  /** The three outcomes of a list. */
  lemma ListCases(d: State, m: Memories)
    ensures Mask(d.end) <= Mask(d.current) ==> ProcessListOf(d, m) == d.(freeze := false)
    ensures Mask(d.end) > Mask(d.current) ==>
      var n := (Mask(d.end) - Mask(d.current)) / 4;
      && Pending(d, m) == Words(m, d.xbus, Mask(d.current), n)
      && ProcessListOf(d, m) ==
           if n + |d.carried| > CAPACITY then d.(carried := [], freeze := false) else Sent(d, Parse(d.carried + Pending(d, m)))
  {
    hide Parse, Sent, Mask, Words;
    MaskIsEven(d.end);
    MaskIsEven(d.current);
  }

  lemma SentFields(d: State, p: Parsed, d': State)
    requires d'.carried == p.rest && d'.out == d.out + p.effects && d'.current == d'.end == Mask(d.end) && !d'.freeze
    requires var sync := Syncs(p.effects);
      && d'.pipeBusy == (d.pipeBusy && !sync) && d'.startGclk == (d.startGclk && !sync)
      && d'.cbufReady == (d.cbufReady && !sync)
    requires d'.start == d.start && d'.xbus == d.xbus && d'.flush == d.flush && d'.cmdBusy == d.cmdBusy
    requires d'.startValid == d.startValid && d'.clock == d.clock && d'.tmem == d.tmem
    ensures d' == Sent(d, p)
  {
    hide Mask, Syncs;
  }

  lemma ResetFields(d: State, d': State)
    requires d'.start == d'.end == d'.current == 0 && d'.clock == d'.tmem == 0
    requires !d'.xbus && !d'.freeze && !d'.flush && !d'.startGclk
    requires !d'.pipeBusy && !d'.cmdBusy && !d'.cbufReady && !d'.startValid
    requires d'.carried == [] && d'.out == d.out
    ensures d' == Latched(d, Op.Reset)
  {}

  /** How far a parse has come: the commands before a position are sent. */
  ghost predicate Sofar(words: seq<u32>, at: nat, sent: seq<Effect>)
    requires at <= |words|
  {
    Parse(words) == Parsed(sent + Parse(words[at..]).effects, Parse(words[at..]).rest)
  }

  /** A whole command at the position goes next. */
  lemma NextCommand(words: seq<u32>, at: nat, sent: seq<Effect>)
    requires at < |words| && Sofar(words, at, sent)
    requires at + Length(Command(words[at])) <= |words|
    ensures var n := Length(Command(words[at])); var more := EffectsOf(words[at..at + n]);
      Sofar(words, at + n, sent + more) && Syncs(sent + more) == (Syncs(sent) || Syncs(more))
  {
    hide Parse, EffectsOf, Length, Command, Incomplete;
    var n, part := Length(Command(words[at])), words[at..];
    ShortIsIncomplete(part);
    ParseStep(part);
    assert part[..n] == words[at..at + n] && part[n..] == words[at + n..];
    var more, later := EffectsOf(words[at..at + n]), Parse(words[at + n..]).effects;
    assert sent + (more + later) == sent + more + later;
  }

  /** An incomplete command at the position is the rest. */
  lemma LastPart(words: seq<u32>, at: nat, sent: seq<Effect>)
    requires at < |words| && Sofar(words, at, sent)
    requires at + Length(Command(words[at])) > |words|
    ensures Parse(words) == Parsed(sent, words[at..])
  {
    hide Parse, Length, Command, Incomplete;
    ShortIsIncomplete(words[at..]);
    IncompleteStays(words[at..]);
    assert sent + [] == sent;
  }

  lemma AllSent(words: seq<u32>, sent: seq<Effect>)
    requires Sofar(words, |words|, sent)
    ensures Parse(words) == Parsed(sent, [])
  {
    hide Parse;
    EmptyParses(words[|words|..]);
    assert sent + [] == sent;
  }

  lemma NoSync()
    ensures !Syncs([])
  {}

  lemma ShortIsIncomplete(words: seq<u32>)
    requires words != []
    ensures Incomplete(words) <==> Length(Command(words[0])) > |words|
  {
    hide Length, Command;
  }

  lemma EmptyParses(words: seq<u32>)
    requires words == []
    ensures Parse(words) == Parsed([], [])
  {}

  lemma MaskIsEven(v: u32)
    ensures Mask(v) % 8 == 0
  {}
}
