/** The event scheduler: a priority queue of timers and two named slots, dispatched when time passes them
    (src/n64_system/scheduler.cpp). Callbacks are any functions that may schedule and cancel more events. */
module Scheduler {
  import opened Common

  /** An event and its deadline. */
  datatype Timed<+E> = Timed(at: nat, event: E)

  datatype Cmd<+E> = SetTimer(cycles: nat, event: E) | ScheduleNamed(id: nat, cycles: nat, event: E) | CancelNamed(id: nat)

  const NAMED: nat := 2

  /** `queue` holds the priority queue's contents in no particular order. */
  datatype Sched<W, E> = Sched(now: nat, queue: seq<Timed<E>>, named: seq<Option<Timed<E>>>, world: W) {
    ghost predicate Valid() { |named| == NAMED }
  }

  /** What the callbacks do, and which of several earliest timers the heap hands out: neither is the
      scheduler's choice. */
  datatype Context<!W, !E> = Context(perform: (W, E, nat) -> (W, seq<Cmd<E>>), pick: seq<Timed<E>> -> nat)

  ghost predicate Earliest<E>(q: seq<Timed<E>>, i: nat) { i < |q| && forall k :: 0 <= k < |q| ==> q[i].at <= q[k].at }

  /** Callbacks schedule at positive distances only. */
  ghost predicate Ok<W(!new), E(!new)>(x: Context<W, E>) {
    && (forall q: seq<Timed<E>> :: q != [] ==> Earliest(q, x.pick(q)))
    && (forall w: W, e: E, t: nat, i :: 0 <= i < |x.perform(w, e, t).1| ==> Later(x.perform(w, e, t).1[i]))
  }

  predicate Later<E>(c: Cmd<E>) { c.CancelNamed? || (c.cycles > 0 && (c.ScheduleNamed? ==> c.id < NAMED)) }

  function Without<T>(q: seq<T>, i: nat): seq<T>
    requires i < |q|
  {
    q[..i] + q[i + 1..]
  }

  // ---- Scheduling -------------------------------------------------------------------------------------

  function Apply<W, E>(s: Sched<W, E>, c: Cmd<E>): (r: Sched<W, E>)
    ensures r.now == s.now && |r.named| == |s.named| && r.world == s.world
  {
    match c
    case SetTimer(n, e) => s.(queue := s.queue + [Timed(s.now + n, e)])
    case ScheduleNamed(id, n, e) => if id < |s.named| then s.(named := s.named[id := Some(Timed(s.now + n, e))]) else s
    case CancelNamed(id) => if id < |s.named| then s.(named := s.named[id := None]) else s
  }

  function ApplyAll<W, E>(s: Sched<W, E>, cs: seq<Cmd<E>>): (r: Sched<W, E>)
    ensures r.now == s.now && |r.named| == |s.named|
    decreases |cs|
  {
    if cs == [] then s else ApplyAll(Apply(s, cs[0]), cs[1..])
  }

  // ---- Dispatching ------------------------------------------------------------------------------------

  datatype Choice = Nothing | Queue(i: nat) | Slot(id: nat)

  /** The lowest slot with the earliest deadline. */
  function BestNamed<W, E>(s: Sched<W, E>): (r: Option<nat>)
    requires s.Valid()
    ensures r.Some? ==> r.value < NAMED && s.named[r.value].Some?
  {
    if s.named[0].None? then (if s.named[1].None? then None else Some(1))
    else if s.named[1].Some? && s.named[1].value.at < s.named[0].value.at then Some(1) else Some(0)
  }

  /** A timer goes before a slot with the same deadline. */
  function Choose<W, E>(x: Context<W, E>, s: Sched<W, E>): (r: Choice)
    requires s.Valid() && (s.queue != [] ==> x.pick(s.queue) < |s.queue|)
    ensures r.Queue? ==> r.i < |s.queue| && s.queue[r.i].at <= s.now
    ensures r.Slot? ==> r.id < NAMED && s.named[r.id].Some? && s.named[r.id].value.at <= s.now
  {
    var best := BestNamed(s);
    if s.queue != [] && (best.None? || s.queue[x.pick(s.queue)].at <= s.named[best.value].value.at) then
      (if s.queue[x.pick(s.queue)].at > s.now then Nothing else Queue(x.pick(s.queue)))
    else if best.Some? then (if s.named[best.value].value.at > s.now then Nothing else Slot(best.value))
    else Nothing
  }

  function Taken<W, E>(s: Sched<W, E>, c: Choice): Timed<E>
    requires (c.Queue? && c.i < |s.queue|) || (c.Slot? && c.id < |s.named| && s.named[c.id].Some?)
  {
    if c.Queue? then s.queue[c.i] else s.named[c.id].value
  }

  /** The event leaves its place before its callback runs. */
  function Remove<W, E>(s: Sched<W, E>, c: Choice): (r: Sched<W, E>)
    requires (c.Queue? && c.i < |s.queue|) || (c.Slot? && c.id < |s.named|)
    ensures r.now == s.now && |r.named| == |s.named|
  {
    if c.Queue? then s.(queue := Without(s.queue, c.i)) else s.(named := s.named[c.id := None])
  }

  function Perform<W, E>(x: Context<W, E>, s: Sched<W, E>, e: E): (r: Sched<W, E>)
    ensures r.now == s.now && |r.named| == |s.named|
  {
    var (w, cs) := x.perform(s.world, e, s.now);
    ApplyAll(s.(world := w), cs)
  }

  function Dispatch<W, E>(x: Context<W, E>, s: Sched<W, E>, c: Choice): (r: Sched<W, E>)
    requires (c.Queue? && c.i < |s.queue|) || (c.Slot? && c.id < |s.named| && s.named[c.id].Some?)
    ensures r.now == s.now && |r.named| == |s.named|
  {
    Perform(x, Remove(s, c), Taken(s, c).event)
  }

  // ---- Termination ------------------------------------------------------------------------------------

  function QueueDue<E>(q: seq<Timed<E>>, now: nat): nat
    decreases |q|
  {
    if q == [] then 0 else (if q[0].at <= now then 1 else 0) + QueueDue(q[1..], now)
  }

  function SlotDue<E>(o: Option<Timed<E>>, now: nat): nat { if o.Some? && o.value.at <= now then 1 else 0 }

  /** How many events are due. */
  function Due<W, E>(s: Sched<W, E>): nat
    requires s.Valid()
  {
    QueueDue(s.queue, s.now) + SlotDue(s.named[0], s.now) + SlotDue(s.named[1], s.now)
  }

  lemma {:induction false} QueueDueCat<E>(p: seq<Timed<E>>, q: seq<Timed<E>>, now: nat)
    ensures QueueDue(p + q, now) == QueueDue(p, now) + QueueDue(q, now)
    decreases |p|
  {
    if p == [] {
      assert p + q == q;
    } else {
      assert (p + q)[1..] == p[1..] + q;
      QueueDueCat(p[1..], q, now);
    }
  }

  lemma QueueDueWithout<E>(q: seq<Timed<E>>, i: nat, now: nat)
    requires i < |q|
    ensures QueueDue(q, now) == QueueDue(Without(q, i), now) + (if q[i].at <= now then 1 else 0)
  {
    assert q == q[..i] + ([q[i]] + q[i + 1..]);
    QueueDueCat(q[..i], [q[i]] + q[i + 1..], now);
    QueueDueCat([q[i]], q[i + 1..], now);
    QueueDueCat(q[..i], q[i + 1..], now);
    assert [q[i]][1..] == [];
  }

  lemma {:induction false} QueueDueNone<E>(q: seq<Timed<E>>, now: nat)
    ensures QueueDue(q, now) == 0 <==> forall k :: 0 <= k < |q| ==> q[k].at > now
    decreases |q|
  {
    if q != [] {
      QueueDueNone(q[1..], now);
      assert forall k :: 0 <= k < |q[1..]| ==> q[1..][k] == q[k + 1];
      assert forall k :: 1 <= k < |q| ==> q[k] == q[1..][k - 1];
    }
  }

  /** The due part of the queue, as a multiset: scheduling at positive distances does not change it. */
  ghost function DueTimers<E>(q: seq<Timed<E>>, now: nat): multiset<Timed<E>>
    decreases |q|
  {
    if q == [] then multiset{} else (if q[0].at <= now then multiset{q[0]} else multiset{}) + DueTimers(q[1..], now)
  }

  lemma {:induction false} DueTimersCat<E>(p: seq<Timed<E>>, q: seq<Timed<E>>, now: nat)
    ensures DueTimers(p + q, now) == DueTimers(p, now) + DueTimers(q, now)
    decreases |p|
  {
    if p == [] {
      assert p + q == q;
    } else {
      assert (p + q)[1..] == p[1..] + q;
      DueTimersCat(p[1..], q, now);
    }
  }

  lemma DueTimersWithout<E>(q: seq<Timed<E>>, i: nat, now: nat)
    requires i < |q| && q[i].at <= now
    ensures DueTimers(q, now) == DueTimers(Without(q, i), now) + multiset{q[i]}
  {
    assert q == q[..i] + ([q[i]] + q[i + 1..]);
    DueTimersCat(q[..i], [q[i]] + q[i + 1..], now);
    DueTimersCat([q[i]], q[i + 1..], now);
    DueTimersCat(q[..i], q[i + 1..], now);
    assert [q[i]][1..] == [];
  }

  lemma {:induction false} DueTimersNone<E>(q: seq<Timed<E>>, now: nat)
    requires QueueDue(q, now) == 0
    ensures DueTimers(q, now) == multiset{}
    decreases |q|
  {
    if q != [] { DueTimersNone(q[1..], now); }
  }

  /** Commands of a callback add nothing that is due, and may take due slots away. */
  lemma {:induction false} CommandsAddNothingDue<W, E>(s: Sched<W, E>, cs: seq<Cmd<E>>)
    requires s.Valid() && forall i :: 0 <= i < |cs| ==> Later(cs[i])
    ensures var r := ApplyAll(s, cs);
      && Due(r) <= Due(s) && DueTimers(r.queue, s.now) == DueTimers(s.queue, s.now)
      && forall id :: 0 <= id < NAMED && r.named[id].Some? && r.named[id].value.at <= s.now ==> r.named[id] == s.named[id]
    decreases |cs|
  {
    if cs != [] {
      var s' := Apply(s, cs[0]);
      assert Later(cs[0]);
      if cs[0].SetTimer? {
        var t := [Timed(s.now + cs[0].cycles, cs[0].event)];
        QueueDueCat(s.queue, t, s.now);
        DueTimersCat(s.queue, t, s.now);
        assert t[1..] == [];
      }
      CommandsAddNothingDue(s', cs[1..]);
    }
  }

  lemma RemoveOneDue<W, E>(s: Sched<W, E>, c: Choice)
    requires s.Valid()
    requires (c.Queue? && c.i < |s.queue|) || (c.Slot? && c.id < NAMED && s.named[c.id].Some?)
    requires Taken(s, c).at <= s.now
    ensures Due(Remove(s, c)) == Due(s) - 1
    ensures DueTimers(s.queue, s.now) ==
      DueTimers(Remove(s, c).queue, s.now) + if c.Queue? then multiset{Taken(s, c)} else multiset{}
  {
    if c.Queue? {
      QueueDueWithout(s.queue, c.i, s.now);
      DueTimersWithout(s.queue, c.i, s.now);
    }
  }

  lemma DispatchDecreases<W(!new), E(!new)>(x: Context<W, E>, s: Sched<W, E>)
    requires Ok(x) && s.Valid() && !Choose(x, s).Nothing?
    ensures var c := Choose(x, s); Due(Dispatch(x, s, c)) < Due(s)
    ensures var c := Choose(x, s);
      DueTimers(s.queue, s.now) ==
        DueTimers(Dispatch(x, s, c).queue, s.now) + (if c.Queue? then multiset{Taken(s, c)} else multiset{})
    ensures forall id :: 0 <= id < NAMED ==> SlotKept(s, Dispatch(x, s, Choose(x, s)), Choose(x, s), id)
  {
    var c := Choose(x, s);
    RemoveOneDue(s, c);
    var s1 := Remove(s, c);
    var r := x.perform(s1.world, Taken(s, c).event, s1.now);
    assert forall i :: 0 <= i < |r.1| ==> Later(r.1[i]);
    CommandsAddNothingDue(s1.(world := r.0), r.1);
  }

  /** A slot that is due after a dispatch was due before it, and is not the one dispatched. */
  ghost predicate SlotKept<W, E>(s: Sched<W, E>, s': Sched<W, E>, c: Choice, id: nat)
    requires id < |s.named| && id < |s'.named|
  {
    SlotDue(s'.named[id], s.now) == 1 ==> s'.named[id] == s.named[id] && c != Slot(id)
  }

  // ---- Ticks ------------------------------------------------------------------------------------------

  /** A dispatched event, where it came from (rank 0 is the queue, rank id + 1 a slot) and what its callback
      commanded. */
  datatype Fired<+E> = Fired(timed: Timed<E>, rank: nat, commands: seq<Cmd<E>>)

  function Rank(c: Choice): nat { if c.Slot? then c.id + 1 else 0 }

  function Record<W, E>(x: Context<W, E>, s: Sched<W, E>, c: Choice): Fired<E>
    requires (c.Queue? && c.i < |s.queue|) || (c.Slot? && c.id < |s.named| && s.named[c.id].Some?)
  {
    Fired(Taken(s, c), Rank(c), x.perform(s.world, Taken(s, c).event, s.now).1)
  }

  function Drain<W(!new), E(!new)>(x: Context<W, E>, s: Sched<W, E>): (r: (Sched<W, E>, seq<Fired<E>>))
    requires Ok(x) && s.Valid()
    ensures r.0.Valid() && r.0.now == s.now
    decreases Due(s)
  {
    var c := Choose(x, s);
    if c.Nothing? then (s, [])
    else
      DispatchDecreases(x, s);
      var (s', log) := Drain(x, Dispatch(x, s, c));
      (s', [Record(x, s, c)] + log)
  }

  function Advance<W, E>(s: Sched<W, E>, cycles: nat): Sched<W, E> { s.(now := s.now + cycles) }

  function Ticked<W(!new), E(!new)>(x: Context<W, E>, s: Sched<W, E>, cycles: nat): (r: (Sched<W, E>, seq<Fired<E>>))
    requires Ok(x) && s.Valid()
    ensures r.0.Valid() && r.0.now == s.now + cycles
  {
    Drain(x, Advance(s, cycles))
  }

  function Remaining(at: nat, now: nat): nat { if at <= now then 0 else at - now }

  function Sooner(a: Option<nat>, b: Option<nat>): Option<nat> {
    if a.None? then b else if b.None? || a.value <= b.value then a else b
  }

  function SlotRemaining<E>(o: Option<Timed<E>>, now: nat): Option<nat> {
    if o.None? then None else Some(Remaining(o.value.at, now))
  }

  /** Nothing stands for the source's largest integer. */
  function CyclesUntilNext<W, E>(x: Context<W, E>, s: Sched<W, E>): Option<nat>
    requires s.Valid() && (s.queue != [] ==> x.pick(s.queue) < |s.queue|)
  {
    var q := if s.queue == [] then None else Some(Remaining(s.queue[x.pick(s.queue)].at, s.now));
    Sooner(Sooner(q, SlotRemaining(s.named[0], s.now)), SlotRemaining(s.named[1], s.now))
  }

  // ---- What a tick does -------------------------------------------------------------------------------

  /** The dispatcher stops exactly when nothing is due. */
  lemma StopsWhenNothingDue<W(!new), E(!new)>(x: Context<W, E>, s: Sched<W, E>)
    requires Ok(x) && s.Valid()
    ensures Choose(x, s).Nothing? <==> Due(s) == 0
  {
    QueueDueNone(s.queue, s.now);
    if s.queue != [] { assert Earliest(s.queue, x.pick(s.queue)); }
  }

  lemma {:induction false} LeavesNothingDue<W(!new), E(!new)>(x: Context<W, E>, s: Sched<W, E>)
    requires Ok(x) && s.Valid()
    ensures Due(Drain(x, s).0) == 0
    decreases Due(s)
  {
    StopsWhenNothingDue(x, s);
    if !Choose(x, s).Nothing? {
      DispatchDecreases(x, s);
      LeavesNothingDue(x, Dispatch(x, s, Choose(x, s)));
    }
  }

  ghost function FiredTimers<E>(log: seq<Fired<E>>): multiset<Timed<E>>
    decreases |log|
  {
    if log == [] then multiset{}
    else (if log[0].rank == 0 then multiset{log[0].timed} else multiset{}) + FiredTimers(log[1..])
  }

  /** Every due timer is dispatched exactly once, and no other. */
  lemma {:induction false} EachDueTimerOnce<W(!new), E(!new)>(x: Context<W, E>, s: Sched<W, E>)
    requires Ok(x) && s.Valid()
    ensures FiredTimers(Drain(x, s).1) == DueTimers(s.queue, s.now)
    decreases Due(s)
  {
    StopsWhenNothingDue(x, s);
    var c := Choose(x, s);
    if c.Nothing? {
      DueTimersNone(s.queue, s.now);
    } else {
      DispatchDecreases(x, s);
      var s' := Dispatch(x, s, c);
      EachDueTimerOnce(x, s');
      assert ([Record(x, s, c)] + Drain(x, s').1)[1..] == Drain(x, s').1;
    }
  }

  /** Deadlines in order, and on a tie the queue first and the lower slot next. */
  predicate InOrder(at: nat, rank: nat, at': nat, rank': nat) { at < at' || (at == at' && rank <= rank') }

  ghost predicate DueFrom<W(!new), E(!new)>(s: Sched<W, E>, at: nat, rank: nat)
    requires s.Valid()
  {
    && (forall t :: t in DueTimers(s.queue, s.now) ==> InOrder(at, rank, t.at, 0))
    && (forall id :: 0 <= id < NAMED && SlotDue(s.named[id], s.now) == 1 ==> InOrder(at, rank, s.named[id].value.at, id + 1))
  }

  lemma {:induction false} DueTimersInQueue<E>(q: seq<Timed<E>>, now: nat, t: Timed<E>)
    requires t in DueTimers(q, now)
    ensures t in q && t.at <= now
    decreases |q|
  {
    if t in DueTimers(q[1..], now) { DueTimersInQueue(q[1..], now, t); }
  }

  /** The event chosen comes before everything due. */
  lemma ChoiceIsFirst<W(!new), E(!new)>(x: Context<W, E>, s: Sched<W, E>)
    requires Ok(x) && s.Valid() && !Choose(x, s).Nothing?
    ensures var c := Choose(x, s);
      && (forall k :: 0 <= k < |s.queue| ==> InOrder(Taken(s, c).at, Rank(c), s.queue[k].at, 0))
      && (forall id :: 0 <= id < NAMED && SlotDue(s.named[id], s.now) == 1 && c != Slot(id) ==>
            InOrder(Taken(s, c).at, Rank(c), s.named[id].value.at, id + 1))
  {
    if s.queue != [] { assert Earliest(s.queue, x.pick(s.queue)); }
  }

  /** Whatever is due after a dispatch comes after the event dispatched. */
  lemma DispatchInOrder<W(!new), E(!new)>(x: Context<W, E>, s: Sched<W, E>)
    requires Ok(x) && s.Valid() && !Choose(x, s).Nothing?
    ensures var c := Choose(x, s); DueFrom(Dispatch(x, s, c), Taken(s, c).at, Rank(c))
  {
    hide Dispatch, DueTimers, Due, Choose, Taken, Rank, InOrder;
    var c := Choose(x, s);
    var s' := Dispatch(x, s, c);
    DispatchDecreases(x, s);
    ChoiceIsFirst(x, s);
    forall t | t in DueTimers(s'.queue, s'.now) ensures InOrder(Taken(s, c).at, Rank(c), t.at, 0) {
      DueTimersInQueue(s.queue, s.now, t);
    }
    forall id | 0 <= id < NAMED && SlotDue(s'.named[id], s'.now) == 1
      ensures InOrder(Taken(s, c).at, Rank(c), s'.named[id].value.at, id + 1)
    {
      assert SlotKept(s, s', c, id);
    }
  }

  ghost predicate SortedFrom<E>(log: seq<Fired<E>>, now: nat, at: nat, rank: nat) {
    && (forall i :: 0 <= i < |log| ==> log[i].timed.at <= now && InOrder(at, rank, log[i].timed.at, log[i].rank))
    && (forall i, j :: 0 <= i < j < |log| ==> InOrder(log[i].timed.at, log[i].rank, log[j].timed.at, log[j].rank))
  }

  lemma SortedCons<E>(f: Fired<E>, log: seq<Fired<E>>, now: nat, at: nat, rank: nat)
    requires SortedFrom(log, now, f.timed.at, f.rank) && f.timed.at <= now && InOrder(at, rank, f.timed.at, f.rank)
    ensures SortedFrom([f] + log, now, at, rank)
  {
    var all := [f] + log;
    forall i | 0 <= i < |all| ensures all[i].timed.at <= now && InOrder(at, rank, all[i].timed.at, all[i].rank) {
      assert i > 0 ==> all[i] == log[i - 1];
    }
    forall i, j | 0 <= i < j < |all| ensures InOrder(all[i].timed.at, all[i].rank, all[j].timed.at, all[j].rank) {
      assert all[j] == log[j - 1];
      assert i > 0 ==> all[i] == log[i - 1];
    }
  }

  /** Events are dispatched in the order of their deadlines. */
  lemma {:induction false} DispatchedInOrder<W(!new), E(!new)>(x: Context<W, E>, s: Sched<W, E>, at: nat, rank: nat)
    requires Ok(x) && s.Valid() && DueFrom(s, at, rank)
    ensures SortedFrom(Drain(x, s).1, s.now, at, rank)
    decreases Due(s)
  {
    hide Dispatch, DueTimers, Due, InOrder, SortedFrom, Choose;
    var c := Choose(x, s);
    if c.Nothing? {
      SortedNil<E>(s.now, at, rank);
    } else {
      DispatchDecreases(x, s);
      DispatchInOrder(x, s);
      var f := Record(x, s, c);
      var s' := Dispatch(x, s, c);
      DispatchedInOrder(x, s', f.timed.at, f.rank);
      if c.Queue? { TakenIsDue(s.queue, c.i, s.now); }
      SortedCons(f, Drain(x, s').1, s.now, at, rank);
    }
  }

  lemma SortedNil<E>(now: nat, at: nat, rank: nat)
    ensures SortedFrom<E>([], now, at, rank)
  {}

  lemma TakenIsDue<E>(q: seq<Timed<E>>, i: nat, now: nat)
    requires i < |q| && q[i].at <= now
    ensures q[i] in DueTimers(q, now)
  {
    DueTimersWithout(q, i, now);
  }

  // ---- The named slots in a tick --------------------------------------------------------------------

  predicate Touches<E>(c: Cmd<E>, id: nat) { (c.ScheduleNamed? || c.CancelNamed?) && c.id == id }

  predicate Touched<E>(cs: seq<Cmd<E>>, id: nat) { exists i :: 0 <= i < |cs| && Touches(cs[i], id) }

  /** Commands leave a slot alone, or leave it with nothing that is due. */
  lemma {:induction false} CommandsOnSlot<W, E>(s: Sched<W, E>, cs: seq<Cmd<E>>, id: nat)
    requires s.Valid() && id < NAMED && forall i :: 0 <= i < |cs| ==> Later(cs[i])
    ensures !Touched(cs, id) ==> ApplyAll(s, cs).named[id] == s.named[id]
    ensures Touched(cs, id) || SlotDue(s.named[id], s.now) == 0 ==> SlotDue(ApplyAll(s, cs).named[id], s.now) == 0
    decreases |cs|
  {
    if cs != [] {
      assert Later(cs[0]);
      CommandsOnSlot(Apply(s, cs[0]), cs[1..], id);
      assert forall i :: 0 <= i < |cs[1..]| ==> cs[1..][i] == cs[i + 1];
      assert forall i :: 1 <= i < |cs| ==> cs[i] == cs[1..][i - 1];
    }
  }

  lemma DispatchOnSlot<W(!new), E(!new)>(x: Context<W, E>, s: Sched<W, E>, id: nat)
    requires Ok(x) && s.Valid() && !Choose(x, s).Nothing? && id < NAMED
    ensures var c := Choose(x, s);
      var o, touched := Dispatch(x, s, c).named[id], Touched(Record(x, s, c).commands, id);
      && (c != Slot(id) && !touched ==> o == s.named[id])
      && (c == Slot(id) || touched ==> SlotDue(o, s.now) == 0)
  {
    var c := Choose(x, s);
    var s1 := Remove(s, c);
    var r := x.perform(s1.world, Taken(s, c).event, s1.now);
    assert forall i :: 0 <= i < |r.1| ==> Later(r.1[i]);
    CommandsOnSlot(s1.(world := r.0), r.1, id);
  }

  /** In the order of dispatching, before a slot's event with this deadline. */
  predicate Before<E>(f: Fired<E>, at: nat, id: nat) { f.timed.at < at || (f.timed.at == at && f.rank <= id) }

  predicate FiresAt<E>(log: seq<Fired<E>>, i: int, id: nat) { 0 <= i < |log| && log[i].rank == id + 1 }

  /** No callback that comes before the slot's event reschedules or cancels it. */
  ghost predicate Undisturbed<E>(log: seq<Fired<E>>, at: nat, id: nat) {
    forall i :: 0 <= i < |log| && Before(log[i], at, id) ==> !Touched(log[i].commands, id)
  }

  /** What a log says of a slot: it fires at most once, with the event it held when the tick began, and it fires
      exactly when that event is due and no callback before it reschedules or cancels the slot. */
  ghost predicate SlotExact<E>(log: seq<Fired<E>>, o: Option<Timed<E>>, now: nat, id: nat) {
    && (forall i :: FiresAt(log, i, id) ==> o == Some(log[i].timed))
    && (forall i, j :: FiresAt(log, i, id) && FiresAt(log, j, id) ==> i == j)
    && ((exists i :: FiresAt(log, i, id)) <==> SlotDue(o, now) == 1 && Undisturbed(log, o.value.at, id))
  }

  /** The slot's own event goes first: after it nothing comes before, and the slot is empty or later. */
  lemma SlotFiresNow<E>(f: Fired<E>, log: seq<Fired<E>>, now: nat, id: nat, o': Option<Timed<E>>)
    requires f.rank == id + 1 && f.timed.at <= now && SortedFrom(log, now, f.timed.at, f.rank)
    requires SlotExact(log, o', now, id) && SlotDue(o', now) == 0
    ensures SlotExact([f] + log, Some(f.timed), now, id)
  {
    var all := [f] + log;
    forall i | FiresAt(all, i, id) ensures i == 0 {
      assert !FiresAt(log, i - 1, id);
    }
    assert FiresAt(all, 0, id);
    assert forall i :: 1 <= i < |all| ==> all[i] == log[i - 1];
  }

  /** Another event goes first. */
  lemma SlotWaits<E>(f: Fired<E>, log: seq<Fired<E>>, now: nat, id: nat, o: Option<Timed<E>>, o': Option<Timed<E>>)
    requires f.rank != id + 1 && SlotExact(log, o', now, id)
    requires if Touched(f.commands, id) then SlotDue(o', now) == 0 else o' == o
    requires SlotDue(o, now) == 1 ==> InOrder(f.timed.at, f.rank, o.value.at, id + 1)
    ensures SlotExact([f] + log, o, now, id)
  {
    var all := [f] + log;
    forall i | FiresAt(all, i, id) ensures i > 0 && FiresAt(log, i - 1, id) {}
    if i :| FiresAt(log, i, id) { assert FiresAt(all, i + 1, id); }
    assert forall i :: 1 <= i < |all| ==> all[i] == log[i - 1];
    assert forall i :: 0 <= i < |log| ==> log[i] == all[i + 1];
    assert all[0] == f;
  }

  /** Every slot's event fires exactly once or is taken away before its turn; no slot fires twice. */
  lemma {:induction false} EachSlotExact<W(!new), E(!new)>(x: Context<W, E>, s: Sched<W, E>, id: nat)
    requires Ok(x) && s.Valid() && id < NAMED
    ensures SlotExact(Drain(x, s).1, s.named[id], s.now, id)
    decreases Due(s)
  {
    hide Dispatch, Due, Touched, SlotExact, SortedFrom, DueTimers;
    StopsWhenNothingDue(x, s);
    var c := Choose(x, s);
    if c.Nothing? {
      NothingFires(s, id);
    } else {
      DispatchDecreases(x, s);
      DispatchOnSlot(x, s, id);
      DispatchInOrder(x, s);
      ChoiceIsFirst(x, s);
      var f, s' := Record(x, s, c), Dispatch(x, s, c);
      EachSlotExact(x, s', id);
      DispatchedInOrder(x, s', f.timed.at, f.rank);
      var log := Drain(x, s').1;
      if c == Slot(id) {
        SlotFiresNow(f, log, s.now, id, s'.named[id]);
      } else {
        SlotWaits(f, log, s.now, id, s.named[id], s'.named[id]);
      }
    }
  }

  lemma NothingFires<W, E>(s: Sched<W, E>, id: nat)
    requires s.Valid() && id < NAMED && Due(s) == 0
    ensures SlotExact([], s.named[id], s.now, id)
  {}

  /** Time that stops short of the next event dispatches nothing, and only such time. */
  lemma QuietIffBeforeNext<W(!new), E(!new)>(x: Context<W, E>, s: Sched<W, E>, a: nat)
    requires Ok(x) && s.Valid()
    ensures Due(Advance(s, a)) == 0 <==> (CyclesUntilNext(x, s).None? || a < CyclesUntilNext(x, s).value)
  {
    QueueDueNone(s.queue, s.now + a);
    if s.queue != [] { assert Earliest(s.queue, x.pick(s.queue)); }
  }

  /** Two ticks are one, when the first stops short of the next event. */
  lemma TicksAdd<W(!new), E(!new)>(x: Context<W, E>, s: Sched<W, E>, a: nat, b: nat)
    requires Ok(x) && s.Valid()
    requires CyclesUntilNext(x, s).None? || a < CyclesUntilNext(x, s).value
    ensures Ticked(x, s, a) == (Advance(s, a), []) && Ticked(x, Ticked(x, s, a).0, b) == Ticked(x, s, a + b)
  {
    QuietIffBeforeNext(x, s, a);
    StopsWhenNothingDue(x, Advance(s, a));
    assert Advance(Advance(s, a), b) == Advance(s, a + b);
  }

  /** A tick leaves nothing due, has dispatched in order, has dispatched every due timer exactly once, and each
      named slot that was due exactly once unless a callback before its turn took it away; nothing else. */
  lemma TickDispatchesDue<W(!new), E(!new)>(x: Context<W, E>, s: Sched<W, E>, cycles: nat)
    requires Ok(x) && s.Valid()
    ensures var (s', log) := Ticked(x, s, cycles);
      && Due(s') == 0 && FiredTimers(log) == DueTimers(s.queue, s.now + cycles) && SortedFrom(log, s.now + cycles, 0, 0)
      && (forall id :: 0 <= id < NAMED ==> SlotExact(log, s.named[id], s.now + cycles, id))
      && (forall i :: 0 <= i < |log| ==> log[i].rank <= NAMED)
  {
    hide Drain, DueTimers, FiredTimers, Due, SortedFrom, SlotExact;
    var s1 := Advance(s, cycles);
    LeavesNothingDue(x, s1);
    EachDueTimerOnce(x, s1);
    DispatchedInOrder(x, s1, 0, 0);
    forall id | 0 <= id < NAMED ensures SlotExact(Drain(x, s1).1, s.named[id], s.now + cycles, id) {
      EachSlotExact(x, s1, id);
    }
    RanksAreSources(x, s1);
  }

  lemma {:induction false} RanksAreSources<W(!new), E(!new)>(x: Context<W, E>, s: Sched<W, E>)
    requires Ok(x) && s.Valid()
    ensures forall i :: 0 <= i < |Drain(x, s).1| ==> Drain(x, s).1[i].rank <= NAMED
    decreases Due(s)
  {
    hide Dispatch, Due;
    if !Choose(x, s).Nothing? {
      DispatchDecreases(x, s);
      RanksAreSources(x, Dispatch(x, s, Choose(x, s)));
    }
  }

  // ---- Deadlines --------------------------------------------------------------------------------------

  /** A timer set for n cycles from now is dispatched by the tick that brings those n cycles, once, with that deadline,
      and by no shorter tick. */
  lemma TimerFiresAfter<W(!new), E(!new)>(x: Context<W, E>, s: Sched<W, E>, n: nat, e: E, cycles: nat)
    requires Ok(x) && s.Valid()
    ensures FiredTimers(Ticked(x, Apply(s, SetTimer(n, e)), cycles).1) ==
      DueTimers(s.queue, s.now + cycles) + if n <= cycles then multiset{Timed(s.now + n, e)} else multiset{}
  {
    hide Drain, FiredTimers;
    var t := Timed(s.now + n, e);
    EachDueTimerOnce(x, Advance(Apply(s, SetTimer(n, e)), cycles));
    DueTimersCat(s.queue, [t], s.now + cycles);
    assert [t][1..] == [];
  }

  /** A named event scheduled for n cycles from now replaces what its slot held: it fires by the tick that brings those
      cycles, unless a callback before its turn takes it away; a cancelled one never fires. */
  lemma NamedFiresAfter<W(!new), E(!new)>(x: Context<W, E>, s: Sched<W, E>, id: nat, n: nat, e: E, cycles: nat)
    requires Ok(x) && s.Valid() && id < NAMED
    ensures SlotExact(Ticked(x, Apply(s, ScheduleNamed(id, n, e)), cycles).1, Some(Timed(s.now + n, e)), s.now + cycles, id)
    ensures SlotExact(Ticked(x, Apply(s, CancelNamed(id)), cycles).1, None, s.now + cycles, id)
  {
    hide Drain, SlotExact;
    EachSlotExact(x, Advance(Apply(s, ScheduleNamed(id, n, e)), cycles), id);
    EachSlotExact(x, Advance(Apply(s, CancelNamed(id)), cycles), id);
  }

  // ---- The scheduler object ---------------------------------------------------------------------------

  class EventScheduler<W(!new), E(!new)> {
    const x: Context<W, E>
    var now: nat
    var queue: seq<Timed<E>>
    var named: seq<Option<Timed<E>>>
    var world: W

    ghost predicate Valid()
      reads this
    {
      |named| == NAMED && Ok(x)
    }

    ghost function View(): Sched<W, E>
      reads this
    {
      Sched(now, queue, named, world)
    }

    constructor (x: Context<W, E>, world: W)
      requires Ok(x)
      ensures Valid() && this.x == x && View() == Sched(0, [], [None, None], world)
    {
      this.x := x;
      now := 0;
      queue := [];
      named := [None, None];
      this.world := world;
    }

    method SetTimer(cycles: nat, event: E)
      modifies this`queue
      ensures View() == Apply(old(View()), Cmd.SetTimer(cycles, event))
    {
      queue := queue + [Timed(now + cycles, event)];
    }

    method ScheduleNamed(id: nat, cycles: nat, event: E)
      requires Valid() && id < NAMED
      modifies this`named
      ensures Valid() && View() == Apply(old(View()), Cmd.ScheduleNamed(id, cycles, event))
    {
      named := named[id := Some(Timed(now + cycles, event))];
    }

    method CancelNamed(id: nat)
      requires Valid() && id < NAMED
      modifies this`named
      ensures Valid() && View() == Apply(old(View()), Cmd.CancelNamed(id))
    {
      named := named[id := None];
    }

    method Obey(cs: seq<Cmd<E>>)
      requires Valid()
      modifies this`queue, this`named
      ensures Valid() && View() == ApplyAll(old(View()), cs)
    {
      ghost var s := View();
      for i := 0 to |cs|
        invariant Valid() && ApplyAll(View(), cs[i..]) == ApplyAll(s, cs)
      {
        match cs[i] {
          case SetTimer(n, e) => SetTimer(n, e);
          case ScheduleNamed(id, n, e) => if id < NAMED { ScheduleNamed(id, n, e); }
          case CancelNamed(id) => if id < NAMED { CancelNamed(id); }
        }
      }
    }

    method DispatchOneDue() returns (dispatched: bool)
      requires Valid()
      modifies this`queue, this`named, this`world
      ensures Valid() && dispatched == !Choose(x, old(View())).Nothing?
      ensures View() == if dispatched then Dispatch(x, old(View()), Choose(x, old(View()))) else old(View())
    {
      var best: Option<nat> := None;
      for i := 0 to NAMED
        invariant best == if i == 0 then None else if i == 1 then (if named[0].Some? then Some(0) else None) else BestNamed(View())
      {
        if named[i].Some? && (best.None? || named[i].value.at < named[best.value].value.at) { best := Some(i); }
      }
      var event: E;
      if queue != [] && (best.None? || queue[x.pick(queue)].at <= named[best.value].value.at) {
        var i := x.pick(queue);
        if queue[i].at > now { return false; }
        event := queue[i].event;
        queue := Without(queue, i);
      } else if best.Some? {
        if named[best.value].value.at > now { return false; }
        event := named[best.value].value.event;
        named := named[best.value := None];
      } else {
        return false;
      }
      var (w, cs) := x.perform(world, event, now);
      world := w;
      Obey(cs);
      dispatched := true;
    }

    method Tick(cycles: nat)
      requires Valid()
      modifies this
      ensures Valid() && View() == Ticked(x, old(View()), cycles).0
    {
      now := now + cycles;
      ghost var s := View();
      var going := true;
      while going
        invariant Valid() && Drain(x, View()).0 == Drain(x, s).0
        invariant !going ==> Choose(x, View()).Nothing?
        decreases Due(View()) + if going then 1 else 0
      {
        hide Due, Dispatch, Choose;
        ghost var before := View();
        if !Choose(x, before).Nothing? { DispatchDecreases(x, before); }
        going := DispatchOneDue();
      }
    }

    method CyclesUntilNextEvent() returns (cycles: Option<nat>)
      requires Valid()
      ensures cycles == CyclesUntilNext(x, View())
    {
      cycles := None;
      if queue != [] { cycles := Some(Remaining(queue[x.pick(queue)].at, now)); }
      for i := 0 to NAMED
        invariant var q := if queue == [] then None else Some(Remaining(queue[x.pick(queue)].at, now));
          cycles == if i == 0 then q else if i == 1 then Sooner(q, SlotRemaining(named[0], now)) else CyclesUntilNext(x, View())
      {
        if named[i].Some? {
          var rem := Remaining(named[i].value.at, now);
          if cycles.None? || rem < cycles.value { cycles := Some(rem); }
        }
      }
    }
  }
}
