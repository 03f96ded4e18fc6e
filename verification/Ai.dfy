/** The audio interface: a two-deep DMA FIFO whose completions are scheduler events (src/mmio/ai.cpp). */
module Ai {
  import opened Common
  import S = Scheduler

  const CPU_CLOCK: nat := 93750000
  const DAC_CLOCK: nat := 48681812
  const DEFAULT_DACRATE: nat := 1103

  datatype Buffer = Buffer(addr: nat, length: nat)

  /** A buffer as it went to the DAC, when, and for how long. */
  datatype Started = Started(buffer: Buffer, time: nat, duration: nat)

  /** `accepted` and `started` are the history of the FIFO's two ends; the host hears `started`. */
  datatype Ai = Ai(fifo: seq<Buffer>, nextAddr: nat, enabled: bool, dacrate: nat, bitrate: nat, carry: bool,
                   start: nat, duration: nat, irq: bool, accepted: seq<Buffer>, started: seq<Started>)

  const INITIAL := Ai([], 0, false, DEFAULT_DACRATE, 0, false, 0, 0, false, [], [])

  function CyclesForLength(dacrate: nat, length: nat): nat {
    var rate := if dacrate == 0 then DEFAULT_DACRATE else dacrate;
    if length / 4 == 0 then 1 else length / 4 * CPU_CLOCK * (rate + 1) / DAC_CLOCK
  }

  /** Bytes played after some cycles, in whole stereo samples. */
  function Played(elapsed: nat, length: nat, duration: nat): nat
    requires duration > 0
  {
    elapsed * length / duration / 4 * 4
  }

  /** What is left of the buffer that plays. */
  function BytesRemaining(a: Ai, now: nat): nat {
    if a.fifo == [] || a.duration == 0 then 0
    else if now <= a.start then a.fifo[0].length
    else if now - a.start >= a.duration then 0
    else
      var done := Played(now - a.start, a.fifo[0].length, a.duration);
      if a.fifo[0].length > done then a.fifo[0].length - done else 0
  }

  datatype Event = AiDone | Other(id: nat)

  type Cmds = seq<S.Cmd<Event>>

  function StartNext(a: Ai, now: nat): (Ai, Cmds) {
    if a.fifo == [] then (a, [])
    else
      var first := if a.carry then a.fifo[0].(addr := a.fifo[0].addr + 0x2000) else a.fifo[0];
      var n := CyclesForLength(a.dacrate, first.length);
      (a.(fifo := a.fifo[0 := first], carry := false, duration := n, start := now, irq := true,
          started := a.started + [Started(first, now, n)]),
       [S.SetTimer(n, AiDone)])
  }

  function Enqueue(a: Ai, length: nat, now: nat): (Ai, Cmds) {
    if length == 0 || |a.fifo| >= 2 then (a, [])
    else
      var b := Buffer(a.nextAddr, length);
      var a' := a.(fifo := a.fifo + [b], accepted := a.accepted + [b]);
      if a.fifo == [] then StartNext(a', now) else (a', [])
  }

  /** on_dma_complete. */
  function Complete(a: Ai, now: nat): (Ai, Cmds) {
    if a.fifo == [] then (a, [])
    else
      var a' := a.(carry := (a.fifo[0].addr + a.fifo[0].length) % 0x2000 == 0, fifo := a.fifo[1..]);
      if a'.fifo != [] then StartNext(a', now) else (a'.(duration := 0), [])
  }

  datatype Write = DramAddr(v: nat) | Length(v: nat) | Control(v: nat) | Status | Dacrate(v: nat) | Bitrate(v: nat)

  function WriteRegister(a: Ai, w: Write, now: nat): (Ai, Cmds) {
    match w
    case DramAddr(v) => (a.(nextAddr := v / 8 % 0x20_0000 * 8), [])
    case Length(v) => Enqueue(a, v / 8 % 0x8000 * 8, now)
    case Control(v) => (a.(enabled := v % 2 == 1), [])
    case Status => (a.(irq := false), [])
    case Dacrate(v) => (a.(dacrate := v % 0x4000), [])
    case Bitrate(v) => (a.(bitrate := v % 0x10), [])
  }

  // ---- With the scheduler and the other devices -----------------------------------------------------

  datatype World<R> = World(ai: Ai, rest: R)

  type Sched<R> = S.Sched<World<R>, Event>

  /** The other devices' callbacks leave the audio interface alone. */
  datatype Others<!R> = Others(run: (R, nat, nat) -> (R, Cmds), pick: seq<S.Timed<Event>> -> nat)

  predicate Foreign(c: S.Cmd<Event>) { S.Later(c) && (!c.CancelNamed? ==> c.event != AiDone) }

  ghost predicate Fair<R(!new)>(o: Others<R>) {
    && (forall q: seq<S.Timed<Event>> :: q != [] ==> S.Earliest(q, o.pick(q)))
    && (forall r: R, id, t, i :: 0 <= i < |o.run(r, id, t).1| ==> Foreign(o.run(r, id, t).1[i]))
  }

  function Callback<R>(o: Others<R>, w: World<R>, e: Event, now: nat): (World<R>, Cmds) {
    match e
    case AiDone => var (a, cs) := Complete(w.ai, now); (w.(ai := a), cs)
    case Other(id) => var (r, cs) := o.run(w.rest, id, now); (w.(rest := r), cs)
  }

  function Context<R>(o: Others<R>): S.Context<World<R>, Event> {
    S.Context((w, e, now) => Callback(o, w, e, now), o.pick)
  }

  lemma DurationPositive(dacrate: nat, length: nat)
    ensures CyclesForLength(dacrate, length) > 0
  {
    var rate := if dacrate == 0 then DEFAULT_DACRATE else dacrate;
    if length / 4 > 0 {
      MulOrder(CPU_CLOCK, 1, length / 4);
      MulOrder(length / 4 * CPU_CLOCK, 2, rate + 1);
      assert length / 4 * CPU_CLOCK * (rate + 1) >= CPU_CLOCK * 2;
    }
  }

  /** Every callback of such a context schedules at positive distances: the scheduler's own condition holds. */
  lemma ContextOk<R(!new)>(o: Others<R>)
    requires Fair(o)
    ensures S.Ok(Context(o))
  {
    var x := Context(o);
    forall w: World<R>, e: Event, t: nat, i | 0 <= i < |x.perform(w, e, t).1| ensures S.Later(x.perform(w, e, t).1[i]) {
      match e
      case AiDone => if w.ai.fifo != [] { LaterWhenStarted(w.ai, t); }
      case Other(id) => assert Foreign(o.run(w.rest, id, t).1[i]);
    }
  }

  lemma LaterWhenStarted(a: Ai, now: nat)
    ensures forall i :: 0 <= i < |Complete(a, now).1| ==> S.Later(Complete(a, now).1[i])
  {
    hide CyclesForLength;
    if a.fifo != [] && a.fifo[1..] != [] {
      var next := a.fifo[1];
      DurationPositive(a.dacrate, next.length);
    }
  }

  datatype Op<R> = Access(w: Write) | Elapse(cycles: nat) | Schedule(cmds: Cmds)

  function Step<R(!new)>(o: Others<R>, s: Sched<R>, op: Op<R>): Sched<R>
    requires Fair(o) && s.Valid()
  {
    ContextOk(o);
    match op
    case Access(w) => var (a, cs) := WriteRegister(s.world.ai, w, s.now); S.ApplyAll(s.(world := s.world.(ai := a)), cs)
    case Elapse(n) => S.Ticked(Context(o), s, n).0
    case Schedule(cs) => S.ApplyAll(s, cs)
  }

  predicate Allowed<R>(op: Op<R>) { op.Schedule? ==> forall i :: 0 <= i < |op.cmds| ==> Foreign(op.cmds[i]) }

  // ---- The invariant --------------------------------------------------------------------------------

  function First(t: S.Timed<Event>): seq<nat> { if t.event == AiDone then [t.at] else [] }

  /** The deadlines of the completions in the queue. */
  function Completions(q: seq<S.Timed<Event>>): seq<nat>
    decreases |q|
  {
    if q == [] then [] else First(q[0]) + Completions(q[1..])
  }

  function Playing(a: Ai): seq<nat> { if a.fifo == [] then [] else [a.start + a.duration] }

  /** Buffers start in the order they were accepted, one is playing while the FIFO is not empty, and the page
      carry of each is decided by where the one before it ended. */
  ghost predicate InTurn(a: Ai) {
    && |a.fifo| <= 2 && |a.accepted| == |a.started| + (if |a.fifo| == 2 then 1 else 0)
    && (a.fifo != [] ==> (a.started != [] && a.fifo[0] == a.started[|a.started| - 1].buffer
                          && a.start == a.started[|a.started| - 1].time && a.duration == a.started[|a.started| - 1].duration
                          && a.duration > 0 && !a.carry))
    && (|a.fifo| == 2 ==> a.fifo[1] == a.accepted[|a.accepted| - 1] && a.fifo[1].length > 0)
    && (a.fifo == [] ==> a.duration == 0 && a.carry == EndsPage(a, |a.started|))
    && (forall i :: 0 <= i < |a.started| ==> StartedAt(a, i))
  }

  predicate EndsPage(a: Ai, i: nat)
    requires i <= |a.started|
  {
    i > 0 && (a.started[i - 1].buffer.addr + a.started[i - 1].buffer.length) % 0x2000 == 0
  }

  predicate StartedAt(a: Ai, i: nat)
    requires i < |a.started| <= |a.accepted|
  {
    && a.started[i].buffer == a.accepted[i].(addr := a.accepted[i].addr + if EndsPage(a, i) then 0x2000 else 0)
    && a.accepted[i].length > 0
  }

  ghost predicate Invariant<R(!new)>(s: Sched<R>) {
    && s.Valid() && InTurn(s.world.ai)
    && Completions(s.queue) == Playing(s.world.ai)
    && (forall id :: 0 <= id < S.NAMED && s.named[id].Some? ==> s.named[id].value.event != AiDone)
  }

  lemma {:induction false} CompletionsCat(p: seq<S.Timed<Event>>, q: seq<S.Timed<Event>>)
    ensures Completions(p + q) == Completions(p) + Completions(q)
    decreases |p|
  {
    hide Completions;
    if p == [] {
      assert p + q == q;
      CompletionsNone();
    } else {
      assert (p + q)[1..] == p[1..] + q;
      CompletionsCat(p[1..], q);
      CompletionsStep(p);
      CompletionsStep(p + q);
      assert First(p[0]) + (Completions(p[1..]) + Completions(q)) == First(p[0]) + Completions(p[1..]) + Completions(q);
    }
  }

  lemma CompletionsNone()
    ensures Completions([]) == []
  {}

  lemma CompletionsStep(q: seq<S.Timed<Event>>)
    requires q != []
    ensures Completions(q) == First(q[0]) + Completions(q[1..])
  {}

  lemma CompletionsOne(t: S.Timed<Event>)
    ensures Completions([t]) == if t.event == AiDone then [t.at] else []
  {
    assert [t][1..] == [];
  }

  /** Removing an event removes its completion, if it is one. */
  lemma CompletionsWithout(q: seq<S.Timed<Event>>, i: nat)
    requires i < |q|
    ensures q[i].event != AiDone ==> Completions(S.Without(q, i)) == Completions(q)
    ensures q[i].event == AiDone && |Completions(q)| == 1 ==> Completions(S.Without(q, i)) == [] && Completions(q) == [q[i].at]
    ensures q[i].event == AiDone ==> Completions(q) != []
  {
    hide Completions;
    var l, r := q[..i], q[i + 1..];
    assert q == l + ([q[i]] + r);
    CompletionsCat(l, [q[i]] + r);
    CompletionsCat([q[i]], r);
    CompletionsCat(l, r);
    CompletionsOne(q[i]);
    AroundOne(Completions(l), Completions([q[i]]), Completions(r));
  }

  lemma AroundOne(l: seq<nat>, x: seq<nat>, r: seq<nat>)
    ensures x == [] ==> l + (x + r) == l + r
    ensures x != [] && |l + (x + r)| == 1 ==> l + r == [] && l + (x + r) == x
    ensures x != [] ==> l + (x + r) != []
  {}

  /** Other devices' commands change no completion. */
  lemma {:induction false} ForeignCommands<R(!new)>(s: Sched<R>, cs: Cmds)
    requires Invariant(s) && forall i :: 0 <= i < |cs| ==> Foreign(cs[i])
    ensures Invariant(S.ApplyAll(s, cs)) && S.ApplyAll(s, cs).world == s.world
    decreases |cs|
  {
    hide InTurn;
    if cs != [] {
      assert Foreign(cs[0]);
      if cs[0].SetTimer? {
        var t := S.Timed(s.now + cs[0].cycles, cs[0].event);
        CompletionsCat(s.queue, [t]);
        CompletionsOne(t);
      }
      ForeignCommands(S.Apply(s, cs[0]), cs[1..]);
    }
  }

  /** What has started stays started, and nothing plays twice. */
  predicate Follows(a: Ai, a': Ai) {
    a.started <= a'.started && (a'.started == a.started && a'.fifo != [] ==> a.fifo != [])
  }

  lemma FollowsOn(a: Ai, b: Ai, c: Ai)
    requires Follows(a, b) && Follows(b, c)
    ensures Follows(a, c)
  {}

  lemma EnqueueInTurn(a: Ai, length: nat, now: nat)
    requires InTurn(a)
    ensures var (a', cs) := Enqueue(a, length, now);
      && InTurn(a')
      && (if a.fifo == [] && length > 0 then cs == [S.SetTimer(a'.duration, AiDone)] && Playing(a') == [now + a'.duration]
          else cs == [] && Playing(a') == Playing(a))
      && Follows(a, a')
  {
    hide CyclesForLength;
    DurationPositive(a.dacrate, length);
    var a' := Enqueue(a, length, now).0;
    forall i | 0 <= i < |a'.started| ensures StartedAt(a', i) {
      if i < |a.started| { assert StartedAt(a, i); }
    }
  }

  lemma CompleteInTurn(a: Ai, now: nat)
    requires InTurn(a) && a.fifo != []
    ensures var (a', cs) := Complete(a, now);
      && InTurn(a')
      && (if a'.fifo != [] then cs == [S.SetTimer(a'.duration, AiDone)] && Playing(a') == [now + a'.duration]
          else cs == [] && Playing(a') == [])
      && Follows(a, a')
  {
    hide CyclesForLength;
    if |a.fifo| == 2 { DurationPositive(a.dacrate, a.fifo[1].length); }
    var a' := Complete(a, now).0;
    forall i | 0 <= i < |a'.started| ensures StartedAt(a', i) {
      if i < |a.started| { assert StartedAt(a, i); }
    }
  }

  // ---- Every run ------------------------------------------------------------------------------------

  /** A start sets the one completion. */
  lemma SetCompletion<R(!new)>(s: Sched<R>, n: nat)
    requires s.Valid() && InTurn(s.world.ai) && Completions(s.queue) == [] && Playing(s.world.ai) == [s.now + n]
    requires forall id :: 0 <= id < S.NAMED && s.named[id].Some? ==> s.named[id].value.event != AiDone
    ensures Invariant(S.ApplyAll(s, [S.SetTimer(n, AiDone)])) && S.ApplyAll(s, [S.SetTimer(n, AiDone)]).world == s.world
  {
    hide InTurn, Playing, Completions, S.ApplyAll;
    var t := S.Timed(s.now + n, AiDone);
    CompletionsCat(s.queue, [t]);
    CompletionsOne(t);
    OneCommand(s, S.SetTimer(n, AiDone));
    assert [] + [t.at] == [t.at];
  }

  lemma OneCommand<R>(s: Sched<R>, c: S.Cmd<Event>)
    ensures S.ApplyAll(s, [c]) == S.Apply(s, c)
  {
    var cs: Cmds := [c];
    assert cs[1..] == [];
  }

  lemma NoCommands<R>(s: Sched<R>)
    ensures S.ApplyAll(s, []) == s
  {}

  lemma OtherKeeps<R(!new)>(o: Others<R>, s: Sched<R>, c: S.Choice)
    requires Fair(o) && Invariant(s)
    requires (c.Queue? && c.i < |s.queue|) || (c.Slot? && c.id < S.NAMED && s.named[c.id].Some?)
    requires S.Taken(s, c).event != AiDone
    ensures Invariant(S.Dispatch(Context(o), s, c)) && S.Dispatch(Context(o), s, c).world.ai == s.world.ai
  {
    hide InTurn, Playing, Completions;
    var s1 := S.Remove(s, c);
    if c.Queue? { CompletionsWithout(s.queue, c.i); }
    var id := S.Taken(s, c).event.id;
    var (r, cs) := o.run(s.world.rest, id, s.now);
    assert forall i :: 0 <= i < |o.run(s.world.rest, id, s.now).1| ==> Foreign(o.run(s.world.rest, id, s.now).1[i]);
    ForeignCommands(s1.(world := s.world.(rest := r)), cs);
  }

  lemma CompletionKeeps<R(!new)>(o: Others<R>, s: Sched<R>, i: nat)
    requires Fair(o) && Invariant(s) && i < |s.queue| && s.queue[i].event == AiDone
    ensures var s' := S.Dispatch(Context(o), s, S.Queue(i));
      && Invariant(s') && Follows(s.world.ai, s'.world.ai)
      && s.queue[i].at == s.world.ai.start + s.world.ai.duration
  {
    hide InTurn, Completions, Complete;
    CompletionsWithout(s.queue, i);
    CompleteInTurn(s.world.ai, s.now);
    var (a, cs) := Complete(s.world.ai, s.now);
    var s1 := S.Remove(s, S.Queue(i)).(world := s.world.(ai := a));
    if a.fifo != [] { SetCompletion(s1, a.duration); } else { NoCommands(s1); }
  }

  lemma DispatchKeeps<R(!new)>(o: Others<R>, s: Sched<R>)
    requires Fair(o) && S.Ok(Context(o)) && Invariant(s) && !S.Choose(Context(o), s).Nothing?
    ensures var s' := S.Dispatch(Context(o), s, S.Choose(Context(o), s));
      Invariant(s') && Follows(s.world.ai, s'.world.ai)
  {
    hide InTurn, Completions, Complete, S.Dispatch, Playing;
    var c := S.Choose(Context(o), s);
    if S.Taken(s, c).event == AiDone { CompletionKeeps(o, s, c.i); } else { OtherKeeps(o, s, c); }
  }

  lemma {:induction false} DrainKeeps<R(!new)>(o: Others<R>, s: Sched<R>)
    requires Fair(o) && S.Ok(Context(o)) && Invariant(s)
    ensures var s' := S.Drain(Context(o), s).0; Invariant(s') && Follows(s.world.ai, s'.world.ai)
    decreases S.Due(s)
  {
    hide Invariant, S.Dispatch, S.Choose, Context;
    ValidOf(s);
    var x := Context(o);
    var c := S.Choose(x, s);
    if !c.Nothing? {
      S.DispatchDecreases(x, s);
      DispatchKeeps(o, s);
      var s1 := S.Dispatch(x, s, c);
      DrainKeeps(o, s1);
      FollowsOn(s.world.ai, s1.world.ai, S.Drain(x, s1).0.world.ai);
    }
  }

  lemma ValidOf<R(!new)>(s: Sched<R>)
    requires Invariant(s)
    ensures s.Valid()
  {}

  lemma WriteKeeps<R(!new)>(s: Sched<R>, w: Write)
    requires Invariant(s)
    ensures var (a, cs) := WriteRegister(s.world.ai, w, s.now);
      var s' := S.ApplyAll(s.(world := s.world.(ai := a)), cs);
      Invariant(s') && s'.now == s.now && Follows(s.world.ai, s'.world.ai)
  {
    hide Completions, Enqueue, CyclesForLength;
    var (a, cs) := WriteRegister(s.world.ai, w, s.now);
    var s1 := s.(world := s.world.(ai := a));
    if w.Length? {
      var length := w.v / 8 % 0x8000 * 8;
      EnqueueInTurn(s.world.ai, length, s.now);
      hide InTurn;
      if s.world.ai.fifo == [] && length > 0 { SetCompletion(s1, a.duration); } else { NoCommands(s1); }
    } else {
      RegistersInTurn(s.world.ai, w, s.now);
      NoCommands(s1);
    }
  }

  lemma RegistersInTurn(a: Ai, w: Write, now: nat)
    requires InTurn(a) && !w.Length?
    ensures var (a', cs) := WriteRegister(a, w, now);
      InTurn(a') && Playing(a') == Playing(a) && cs == [] && Follows(a, a')
  {
    var a' := WriteRegister(a, w, now).0;
    forall i | 0 <= i < |a'.started| ensures StartedAt(a', i) {
      assert StartedAt(a, i);
    }
  }

  /** Every access, tick and foreign schedule keeps the invariant and only adds to what has started. */
  lemma StepKeeps<R(!new)>(o: Others<R>, s: Sched<R>, op: Op<R>)
    requires Fair(o) && Invariant(s) && Allowed(op)
    ensures Invariant(Step(o, s, op)) && Follows(s.world.ai, Step(o, s, op).world.ai)
    ensures Step(o, s, op).now >= s.now
  {
    match op
    case Access(w) => WriteKeeps(s, w);
    case Elapse(n) =>
      AdvanceKeeps(s, n);
      ContextOk(o);
      hide Invariant, Context;
      DrainKeeps(o, S.Advance(s, n));
    case Schedule(cs) => ForeignCommands(s, cs);
  }

  lemma AdvanceKeeps<R(!new)>(s: Sched<R>, n: nat)
    requires Invariant(s)
    ensures Invariant(S.Advance(s, n)) && S.Advance(s, n).Valid()
  {
    hide InTurn, Completions, Playing;
  }

  function Run<R(!new)>(o: Others<R>, s: Sched<R>, ops: seq<Op<R>>): (r: Sched<R>)
    requires Fair(o) && s.Valid()
    ensures r.Valid()
    decreases |ops|
  {
    if ops == [] then s else Run(o, Step(o, s, ops[0]), ops[1..])
  }

  /** In every run from reset, at most two buffers are queued; one completion is pending, at the end of the buffer
      that plays, exactly when the FIFO is not empty; and the buffers accepted have started once each, in order,
      all but the one that waits. */
  lemma {:induction false} AlwaysInvariant<R(!new)>(o: Others<R>, s: Sched<R>, ops: seq<Op<R>>)
    requires Fair(o) && Invariant(s) && forall i :: 0 <= i < |ops| ==> Allowed(ops[i])
    ensures Invariant(Run(o, s, ops))
    decreases |ops|
  {
    hide Invariant, Step, Context;
    ValidOf(s);
    if ops != [] {
      StepKeeps(o, s, ops[0]);
      AlwaysInvariant(o, Step(o, s, ops[0]), ops[1..]);
    }
  }

  lemma InitialInvariant<R(!new)>(s: Sched<R>)
    requires s.Valid() && s.world.ai == INITIAL && s.queue == [] && s.named == [None, None]
    ensures Invariant(s)
  {}

  // ---- Progress reads -------------------------------------------------------------------------------

  lemma PlayedGrows(e: nat, f: nat, length: nat, duration: nat)
    requires e <= f && duration > 0
    ensures Played(e, length, duration) <= Played(f, length, duration)
  {
    MulOrder(length, e, f);
    DivOrder(e * length, f * length, duration);
    DivOrder(e * length / duration, f * length / duration, 4);
  }

  lemma RemainingShrinks(a: Ai, t: nat, u: nat)
    requires t <= u
    ensures BytesRemaining(a, u) <= BytesRemaining(a, t)
  {
    hide Played;
    if a.fifo != [] && a.duration > 0 && t > a.start { PlayedGrows(t - a.start, u - a.start, a.fifo[0].length, a.duration); }
  }

  /** Until the next buffer starts, what AI_LENGTH reads never grows. */
  lemma RemainingNeverGrows<R(!new)>(o: Others<R>, s: Sched<R>, op: Op<R>)
    requires Fair(o) && Invariant(s) && Allowed(op)
    requires Step(o, s, op).world.ai.started == s.world.ai.started
    ensures BytesRemaining(Step(o, s, op).world.ai, Step(o, s, op).now) <= BytesRemaining(s.world.ai, s.now)
  {
    hide Step, Completions, BytesRemaining;
    StepKeeps(o, s, op);
    var s' := Step(o, s, op);
    var a, a' := s.world.ai, s'.world.ai;
    if a'.fifo == [] {
      NothingRemains(a', s'.now);
    } else {
      SamePlayed(a, a', s'.now);
      RemainingShrinks(a, s.now, s'.now);
    }
  }

  // ---- What the clock makes of a buffer -------------------------------------------------------------

  /** Writing DRAM_ADDR and then LENGTH queues the buffer they describe: both in units of eight bytes, of 2^24 and 2^18
      bytes. A full FIFO or no length at all queues none. */
  lemma QueuesTheBuffer(a: Ai, addr: nat, length: nat, p: nat, q: nat, x: nat, y: nat, now: nat)
    requires addr % 8 == 0 && addr < 0x100_0000 && length % 8 == 0 && length < 0x4_0000 && x < 8 && y < 8
    ensures var a' := WriteRegister(a, DramAddr(p * 0x100_0000 + addr + x), now).0;
      WriteRegister(a', Length(q * 0x4_0000 + length + y), now).0.accepted ==
        a.accepted + if length > 0 && |a.fifo| < 2 then [Buffer(addr, length)] else []
  {
    hide CyclesForLength;
    Euclid(p * 0x100_0000 + addr + x, 8, p * 0x20_0000 + addr / 8, x);
    Euclid(p * 0x20_0000 + addr / 8, 0x20_0000, p, addr / 8);
    Euclid(q * 0x4_0000 + length + y, 8, q * 0x8000 + length / 8, y);
    Euclid(q * 0x8000 + length / 8, 0x8000, q, length / 8);
  }

  /** A sample of 4 bytes takes dacrate + 1 cycles of the DAC clock: a buffer's duration is that many, in cycles of the
      CPU clock, rounded down. */
  lemma DurationIs(dacrate: nat, length: nat)
    requires length >= 4
    ensures var n := CyclesForLength(dacrate, length);
      var dac := length / 4 * ((if dacrate == 0 then 1103 else dacrate) + 1);
      n * 48681812 <= dac * 93750000 < (n + 1) * 48681812
  {
    var rate := if dacrate == 0 then DEFAULT_DACRATE else dacrate;
    var x := length / 4 * CPU_CLOCK * (rate + 1);
    assert x == length / 4 * (rate + 1) * CPU_CLOCK;
    assert x == x / DAC_CLOCK * DAC_CLOCK + x % DAC_CLOCK;
  }

  /** While a buffer plays, what has been played is whole samples, in proportion to the time gone: before its end less
      than a sample behind, before its start nothing, after its end everything. */
  lemma RemainingIs(a: Ai, now: nat)
    requires a.fifo != [] && a.duration > 0
    ensures var left, length := BytesRemaining(a, now), a.fifo[0].length;
      && left <= length
      && (now <= a.start ==> left == length)
      && (now >= a.start + a.duration ==> left == 0)
      && (a.start < now < a.start + a.duration ==>
            var played := length - left;
            played % 4 == 0 && played * a.duration <= (now - a.start) * length < (played + 4) * a.duration)
  {
    if a.start < now < a.start + a.duration {
      var e, length := now - a.start, a.fifo[0].length;
      var x := e * length;
      MulOrder(length, e, a.duration);
      PlayedIs(x, a.duration, x / a.duration, Played(e, length, a.duration));
      NotMore(Played(e, length, a.duration), a.duration, length);
    }
  }

  lemma PlayedIs(x: nat, d: nat, q: nat, played: nat)
    requires d > 0 && q == x / d && played == q / 4 * 4
    ensures played % 4 == 0 && played * d <= x < (played + 4) * d
  {
    assert x == q * d + x % d;
    MulOrder(d, played, q);
    MulOrder(d, q + 1, played + 4);
  }

  lemma NotMore(played: nat, d: nat, length: nat)
    requires played * d <= d * length && d > 0
    ensures played <= length
  {
    if played > length { MulOrder(d, length + 1, played); }
  }

  lemma NothingRemains(a: Ai, now: nat)
    ensures a.fifo == [] ==> BytesRemaining(a, now) == 0
  {}

  lemma SamePlayed(a: Ai, a': Ai, now: nat)
    requires a.fifo != [] && a'.fifo != [] && a.fifo[0] == a'.fifo[0] && a.start == a'.start && a.duration == a'.duration
    ensures BytesRemaining(a, now) == BytesRemaining(a', now)
  {}

  // ---- The interface object -------------------------------------------------------------------------

  /** The FIFO as the source keeps it, in two address and two length registers. Methods return what they ask of
      the scheduler. */
  class AudioInterface {
    const addr: array<nat>
    const length: array<nat>
    var count: nat
    var nextAddr: nat
    var enabled: bool
    var dacrate: nat
    var bitrate: nat
    var carry: bool
    var start: nat
    var duration: nat
    var irq: bool
    ghost var accepted: seq<Buffer>
    var started: seq<Started>

    ghost predicate Valid()
      reads this
    {
      addr.Length == 2 && length.Length == 2 && count <= 2 && addr != length
    }

    ghost function Fifo(): seq<Buffer>
      reads this, addr, length
      requires Valid()
    {
      seq(count, i requires 0 <= i < count reads addr, length requires Valid() reads this => Buffer(addr[i], length[i]))
    }

    ghost function View(): Ai
      reads this, addr, length
      requires Valid()
    {
      Ai(Fifo(), nextAddr, enabled, dacrate, bitrate, carry, start, duration, irq, accepted, started)
    }

    constructor ()
      ensures Valid() && fresh(addr) && fresh(length) && View() == INITIAL
    {
      addr := new nat[2](_ => 0);
      length := new nat[2](_ => 0);
      count, nextAddr, enabled, dacrate, bitrate := 0, 0, false, DEFAULT_DACRATE, 0;
      carry, start, duration, irq := false, 0, 0, false;
      accepted, started := [], [];
    }

    method StartNextDma(now: nat) returns (cmds: Cmds)
      requires Valid()
      modifies this, addr
      ensures Valid() && (View(), cmds) == StartNext(old(View()), now)
    {
      hide CyclesForLength;
      ghost var a := View();
      assert |Fifo()| == count;
      if count == 0 { return []; }
      ghost var before := Fifo();
      if carry {
        addr[0] := addr[0] + 0x2000;
        carry := false;
      }
      assert Fifo() == before[0 := Buffer(addr[0], length[0])];
      duration := CyclesForLength(dacrate, length[0]);
      start, irq := now, true;
      started := started + [Started(Buffer(addr[0], length[0]), now, duration)];
      cmds := [S.SetTimer(duration, AiDone)];
      assert View().fifo == StartNext(a, now).0.fifo;
    }

    method EnqueueDma(n: nat, now: nat) returns (cmds: Cmds)
      requires Valid()
      modifies this, addr, length
      ensures Valid() && (View(), cmds) == Enqueue(old(View()), n, now)
    {
      hide CyclesForLength, StartNext;
      if n == 0 || count >= 2 { return []; }
      ghost var before := Fifo();
      var wasIdle := count == 0;
      addr[count], length[count] := nextAddr, n;
      count := count + 1;
      accepted := accepted + [Buffer(nextAddr, n)];
      assert Fifo() == before + [Buffer(nextAddr, n)];
      cmds := [];
      if wasIdle { cmds := StartNextDma(now); }
    }

    method OnDmaComplete(now: nat) returns (cmds: Cmds)
      requires Valid()
      modifies this, addr, length
      ensures Valid() && (View(), cmds) == Complete(old(View()), now)
    {
      hide CyclesForLength, StartNext;
      ghost var a := View();
      assert |Fifo()| == count;
      if count == 0 { return []; }
      ghost var before := Fifo();
      carry := (addr[0] + length[0]) % 0x2000 == 0;
      if count == 2 { addr[0], length[0] := addr[1], length[1]; }
      count := count - 1;
      addr[1], length[1] := 0, 0;
      assert Fifo() == before[1..];
      cmds := [];
      if count > 0 {
        cmds := StartNextDma(now);
      } else {
        duration := 0;
        assert View().fifo == Complete(a, now).0.fifo;
      }
    }
  }
}
