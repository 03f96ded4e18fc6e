/** Skipping idle loops: a branch to itself with nothing in its delay slot lets time warp to the next event or
    timer edge (src/cpu/idle_skip.cpp). */
module IdleSkip {
  import opened Common
  import T = Timer
  import opened Scheduler

  /** What the scheduler's callbacks see and change: COUNT and its interrupt, and the rest of the machine. */
  datatype Seen<W> = Seen(timer: T.Timer, rest: W)

  datatype Idle = Idle(left: nat, pending: bool, active: bool)

  const MAX_WARP: nat := 0x10_0000

  function BeginSlice(budget: int): Idle { Idle(if budget > 0 then budget else 0, false, true) }

  function Consume(c: Idle, cycles: int): Idle {
    if !c.active || cycles <= 0 then c else c.(left := if cycles >= c.left then 0 else c.left - cycles)
  }

  function QueueWarp(c: Idle, emptyDelaySlot: bool): Idle {
    if !c.active || c.pending || !emptyDelaySlot then c else c.(pending := true)
  }

  /** On the edge itself the distance does not count. */
  function UntilCompare(t: T.Timer): Option<nat> { if t.Distance() == 0 then None else Some(t.Distance()) }

  function WarpLength(next: Option<nat>, t: T.Timer, left: nat): nat {
    var skip := Sooner(next, UntilCompare(t));
    var skip := if left > 0 && (skip.None? || left < skip.value) then Some(left) else skip;
    if skip.None? || skip.value < 4 then 0 else if skip.value > MAX_WARP then MAX_WARP else skip.value
  }

  function AddTime<W, E>(s: Sched<Seen<W>, E>, n: nat): Sched<Seen<W>, E> {
    s.(world := s.world.(timer := T.AddCount(s.world.timer, n)))
  }

  /** COUNT first, then the scheduler. */
  function Warp<W(!new), E(!new)>(x: Context<Seen<W>, E>, s: Sched<Seen<W>, E>, k: nat): (Sched<Seen<W>, E>, seq<Fired<E>>)
    requires Ok(x) && s.Valid()
  {
    Ticked(x, AddTime(s, k), k)
  }

  function ApplyPending<W(!new), E(!new)>(x: Context<Seen<W>, E>, s: Sched<Seen<W>, E>, c: Idle): (Sched<Seen<W>, E>, Idle, nat)
    requires Ok(x) && s.Valid()
  {
    if !c.active || !c.pending then (s, c, 0)
    else
      var k := WarpLength(CyclesUntilNext(x, s), s.world.timer, c.left);
      var c := c.(pending := false);
      if k == 0 then (s, c, 0) else (Warp(x, s, k).0, Consume(c, k), k)
  }

  // ---- One cycle at a time ----------------------------------------------------------------------------

  /** k times: one cycle of COUNT, one tick. */
  function Units<W(!new), E(!new)>(x: Context<Seen<W>, E>, s: Sched<Seen<W>, E>, k: nat): (r: (Sched<Seen<W>, E>, seq<Fired<E>>))
    requires Ok(x) && s.Valid()
    ensures r.0.Valid()
  {
    if k == 0 then (s, [])
    else
      var (s', log) := Units(x, s, k - 1);
      var (s'', log') := Warp(x, s', 1);
      (s'', log + log')
  }

  predicate Reaches(next: Option<nat>, k: nat) { next.None? || k <= next.value }

  lemma UntilIgnoresWorld<W, E>(x: Context<Seen<W>, E>, s: Sched<Seen<W>, E>, n: nat)
    requires s.Valid() && (s.queue != [] ==> x.pick(s.queue) < |s.queue|)
    ensures CyclesUntilNext(x, AddTime(s, n)) == CyclesUntilNext(x, s)
  {}

  /** Until the next event, units of time only move COUNT and the clock. */
  lemma {:induction false} UnitsBeforeNext<W(!new), E(!new)>(x: Context<Seen<W>, E>, s: Sched<Seen<W>, E>, k: nat)
    requires Ok(x) && s.Valid() && s.world.timer.Valid()
    requires Reaches(CyclesUntilNext(x, s), k + 1)
    ensures Units(x, s, k) == (Advance(AddTime(s, k), k), [])
  {
    hide CyclesUntilNext, T.AddCount, Drain;
    if k == 0 {
      NoTime(s);
    } else {
      UnitsBeforeNext(x, s, k - 1);
      T.AddCountAdd(s.world.timer, k - 1, 1);
      var s' := Advance(AddTime(s, k - 1), k - 1);
      assert AddTime(s', 1) == Advance(AddTime(s, k), k - 1);
      UntilIgnoresWorld(x, s, k);
      QuietIffBeforeNext(x, AddTime(s, k), k);
      StopsWhenNothingDue(x, Advance(AddTime(s, k), k));
      assert Advance(AddTime(s', 1), 1) == Advance(AddTime(s, k), k);
      DrainNothing(x, Advance(AddTime(s, k), k));
      assert Warp(x, s', 1) == (Advance(AddTime(s, k), k), []);
      assert Units(x, s, k - 1).1 + Warp(x, s', 1).1 == [];
    }
  }

  lemma NoTime<W, E>(s: Sched<Seen<W>, E>)
    ensures Advance(AddTime(s, 0), 0) == s
  {}

  lemma DrainNothing<W(!new), E(!new)>(x: Context<W, E>, s: Sched<W, E>)
    requires Ok(x) && s.Valid() && Choose(x, s).Nothing?
    ensures Drain(x, s) == (s, [])
  {}

  /** A warp of k cycles that does not pass the next event is k cycles: the same COUNT and timer interrupt, the
      same clock, the same events dispatched, by callbacks that saw the same machine. */
  lemma WarpIsUnits<W(!new), E(!new)>(x: Context<Seen<W>, E>, s: Sched<Seen<W>, E>, k: nat)
    requires Ok(x) && s.Valid() && s.world.timer.Valid() && k > 0
    requires Reaches(CyclesUntilNext(x, s), k)
    ensures Warp(x, s, k) == Units(x, s, k)
  {
    hide CyclesUntilNext, T.AddCount, Drain;
    UnitsBeforeNext(x, s, k - 1);
    T.AddCountAdd(s.world.timer, k - 1, 1);
    var s' := Advance(AddTime(s, k - 1), k - 1);
    assert Advance(AddTime(s', 1), 1) == Advance(AddTime(s, k), k);
    assert [] + Warp(x, s', 1).1 == Warp(x, s', 1).1;
  }

  /** The idle skipper warps within these limits; with no budget left the budget is no limit. */
  lemma WarpLimits(next: Option<nat>, t: T.Timer, left: nat)
    ensures var k := WarpLength(next, t, left);
      k > 0 ==> 4 <= k <= MAX_WARP && Reaches(next, k) && Reaches(UntilCompare(t), k) && (k > left <==> left == 0)
  {}

  /** A number of cycles that no limit forbids. */
  predicate Permitted(next: Option<nat>, t: T.Timer, left: nat, k: nat) {
    Reaches(next, k) && Reaches(UntilCompare(t), k) && (left > 0 ==> k <= left) && k <= MAX_WARP
  }

  /** The warp is the longest one permitted, as long as something limits it and 4 cycles are permitted. */
  lemma WarpIsLongest(next: Option<nat>, t: T.Timer, left: nat)
    ensures var k := WarpLength(next, t, left); var limited := next.Some? || UntilCompare(t).Some? || left > 0;
      && (k > 0 <==> limited && Permitted(next, t, left, 4))
      && (k > 0 ==> Permitted(next, t, left, k) && forall j: nat :: Permitted(next, t, left, j) ==> j <= k)
  {
    hide UntilCompare;
  }

  /** The distance to COMPARE is the least that brings COUNT there, so a warp of that length ends with IP7 set. */
  lemma WarpToCompare(t: T.Timer, k: nat)
    requires t.Valid() && UntilCompare(t) == Some(k)
    ensures k > 0 && T.AddCount(t, k).count == 2 * t.compare && T.AddCount(t, k).ip7
    ensures forall j :: 0 <= j < k ==> !T.OnEdge(t, j, j)
  {
    hide T.OnEdge;
    T.DistanceCases(t);
    T.Landed(t, k);
    forall j | 0 <= j < k ensures !T.OnEdge(t, j, j) {
      if T.OnEdge(t, j, j) { T.EdgeIsNotBefore(t, j, j); }
    }
  }

  /** Without a distance COUNT is there already. */
  lemma NoDistance(t: T.Timer)
    requires t.Valid()
    ensures UntilCompare(t).None? <==> t.count == 2 * t.compare
  {
    T.DistanceCases(t);
  }

  /** An applied warp is exactly as many idle cycles as it reports. */
  lemma AppliedWarpIsUnits<W(!new), E(!new)>(x: Context<Seen<W>, E>, s: Sched<Seen<W>, E>, c: Idle)
    requires Ok(x) && s.Valid() && s.world.timer.Valid()
    ensures var (s', c', k) := ApplyPending(x, s, c);
      && s' == Units(x, s, k).0 && s'.now == s.now + k && !(c'.active && c'.pending)
      && c'.left == (if c.left >= k then c.left - k else 0) && c'.active == c.active
  {
    hide CyclesUntilNext, Warp, Ticked;
    var k := WarpLength(CyclesUntilNext(x, s), s.world.timer, c.left);
    WarpLimits(CyclesUntilNext(x, s), s.world.timer, c.left);
    if k > 0 {
      WarpIsUnits(x, s, k);
      WarpTime(x, s, k);
    }
  }

  lemma WarpTime<W(!new), E(!new)>(x: Context<Seen<W>, E>, s: Sched<Seen<W>, E>, k: nat)
    requires Ok(x) && s.Valid()
    ensures Warp(x, s, k).0.now == s.now + k && Warp(x, s, k).0.Valid()
  {}

  /** The warp hides no timer interrupt: before its last cycle IP7 has not changed, except when COUNT sat on the
      edge with IP7 clear. */
  lemma NoEdgeInsideIff(t: T.Timer, next: Option<nat>, left: nat)
    requires t.Valid() && WarpLength(next, t, left) > 0
    ensures (forall j :: 0 <= j < WarpLength(next, t, left) ==> T.AddCount(t, j).ip7 == t.ip7)
      <==> (t.Distance() != 0 || t.ip7)
  {
    WarpLimits(next, t, left);
    if t.Distance() == 0 && !t.ip7 { assert T.AddCount(t, 1).ip7 != t.ip7; }
  }
}
