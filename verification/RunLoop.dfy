/** The two run loops, which batch the time they owe the scheduler: the interpreter's
    (src/cpu/cached_interp.cpp:501-543) and the recompiler's (src/cpu/jit/jit.cpp:229-486). */
module RunLoop {
  import opened Common
  import T = Timer
  import opened Scheduler
  import opened IdleSkip

  const ADVANCE_EVERY: nat := 1024

  /** What a stretch of guest code leaves: the machine, the events it scheduled, and whether it queued a warp. */
  datatype Stepped<W, E> = Stepped(seen: Seen<W>, cmds: seq<Cmd<E>>, warp: bool)

  datatype Fetched = Unmapped | Interpreted | Mapped

  /** The processor and its code cache, as any functions of the machine. `step` is one interpreted instruction,
      `block` a run of compiled code with the cycles it reports and whether it aborted. */
  datatype Cpu<!W, !E> = Cpu(
    step: (Seen<W>, nat) -> Stepped<W, E>, stepWithCount: (Seen<W>, nat) -> Stepped<W, E>,
    delaySlot: Seen<W> -> bool, annulled: Seen<W> -> bool, clearAnnul: Seen<W> -> Seen<W>,
    fetch: Seen<W> -> Fetched, retire: Seen<W> -> Seen<W>,
    interrupted: Seen<W> -> bool, deliver: Seen<W> -> Seen<W>,
    cached: Seen<W> -> bool, compile: Seen<W> -> (Seen<W>, bool),
    block: (Seen<W>, nat) -> (Stepped<W, E>, int, bool))

  /** Annulling a delay slot clears its flag. */
  ghost predicate ClearsDelaySlot<W(!new), E>(cpu: Cpu<W, E>) {
    forall w: Seen<W> :: !cpu.delaySlot(cpu.clearAnnul(w))
  }

  class Slice<W(!new), E(!new)> {
    const cpu: Cpu<W, E>
    const sched: EventScheduler<Seen<W>, E>
    var idle: Idle
    var total: nat
    var pending: nat

    ghost predicate Valid()
      reads this, sched
    {
      sched.Valid() && ClearsDelaySlot(cpu)
    }

    constructor (cpu: Cpu<W, E>, sched: EventScheduler<Seen<W>, E>)
      requires sched.Valid() && ClearsDelaySlot(cpu)
      ensures Valid() && this.sched == sched && this.cpu == cpu
    {
      this.cpu := cpu;
      this.sched := sched;
      idle := Idle(0, false, false);
      total, pending := 0, 0;
    }

    /** Time already given to the scheduler and time still owed to it. */
    ghost predicate Conserves(start: nat)
      reads this, sched
    {
      sched.now + pending == start + total
    }

    method Obey(s: Stepped<W, E>)
      requires Valid()
      modifies this`idle, sched`world, sched`queue, sched`named
      ensures Valid() && idle == if s.warp then QueueWarp(old(idle), true) else old(idle)
    {
      sched.world := s.seen;
      sched.Obey(s.cmds);
      if s.warp { idle := QueueWarp(idle, true); }
    }

    method FlushPending()
      requires Valid()
      modifies this`pending, sched
      ensures Valid() && pending == 0 && sched.now == old(sched.now) + old(pending)
      ensures old(pending) > 0 ==> Due(sched.View()) == 0
      ensures old(pending) == 0 ==> sched.View() == old(sched.View())
    {
      if pending < 1 { return; }
      ghost var before := sched.View();
      sched.Tick(pending);
      LeavesNothingDue(sched.x, Advance(before, pending));
      pending := 0;
    }

    /** idle_skip_apply_pending. */
    method ApplyPending() returns (skipped: nat)
      requires Valid()
      modifies this`idle, sched
      ensures Valid() && (sched.View(), idle, skipped) == IdleSkip.ApplyPending(sched.x, old(sched.View()), old(idle))
    {
      hide CyclesUntilNext, Drain;
      if !idle.active || !idle.pending { return 0; }
      idle := idle.(pending := false);
      var next := sched.CyclesUntilNextEvent();
      skipped := WarpLength(next, sched.world.timer, idle.left);
      if skipped == 0 { return 0; }
      ghost var before := sched.View();
      sched.world := sched.world.(timer := T.AddCount(sched.world.timer, skipped));
      assert sched.View() == AddTime(before, skipped);
      sched.Tick(skipped);
      idle := Consume(idle, skipped);
    }

    method ApplyIdleIfPending(ghost start: nat)
      requires Valid() && Conserves(start)
      modifies this`idle, this`total, this`pending, sched
      ensures Valid() && Conserves(start) && total >= old(total) && !(idle.active && idle.pending)
      ensures idle.active == old(idle.active) && total - old(total) <= MAX_WARP
      ensures idle.left == if old(idle.left) >= total - old(total) then old(idle.left) - (total - old(total)) else 0
      ensures old(idle.left) > 0 ==> total - old(total) <= old(idle.left)
      ensures !(old(idle.active) && old(idle.pending)) ==> total == old(total)
    {
      if !(idle.active && idle.pending) { return; }
      FlushPending();
      ghost var s, c := sched.View(), idle;
      var skipped := ApplyPending();
      WarpLimits(CyclesUntilNext(sched.x, s), s.world.timer, c.left);
      if skipped > 0 { WarpTime(sched.x, s, skipped); }
      total := total + skipped;
    }

    /** CachedInterp::run. It returns exactly the time the scheduler has moved, at least the budget; only a warp
        that starts with the budget used up goes past it. */
    method Interpret(budget: int) returns (r: nat)
      requires Valid()
      modifies this, sched
      ensures Valid() && sched.now == old(sched.now) + r
      ensures var limit := if budget < 1 then 1 else budget;
        limit <= r <= limit + MAX_WARP && idle.left == if r <= limit then limit - r else 0
    {
      var limit: nat := if budget < 1 then 1 else budget;
      ghost var start := sched.now;
      total, pending := 0, 0;
      idle := BeginSlice(limit);
      while total < limit
        invariant Valid() && Conserves(start) && idle.active && !idle.pending
        invariant total <= limit + MAX_WARP && idle.left == if total <= limit then limit - total else 0
        decreases limit + MAX_WARP - total
      {
        var s := cpu.step(sched.world, sched.now);
        Obey(s);
        sched.world := sched.world.(timer := T.AddCount(sched.world.timer, 1));
        total, pending := total + 1, pending + 1;
        idle := Consume(idle, 1);
        if pending >= ADVANCE_EVERY { FlushPending(); }
        ApplyIdleIfPending(start);
      }
      ApplyIdleIfPending(start);
      FlushPending();
      r := total;
    }

    // ---- The recompiler's loop ----------------------------------------------------------------------

    method Credit(got: nat, ghost start: nat)
      requires Valid() && Conserves(start)
      modifies this`idle, this`total, this`pending, sched
      ensures Valid() && Conserves(start) && total >= old(total) + got
    {
      total, pending := total + got, pending + got;
      idle := Consume(idle, got);
      if pending >= ADVANCE_EVERY { FlushPending(); }
      ApplyIdleIfPending(start);
    }

    method Fallback(ghost start: nat)
      requires Valid() && Conserves(start)
      modifies this, sched
      ensures Valid() && Conserves(start) && total > old(total)
    {
      Obey(cpu.stepWithCount(sched.world, sched.now));
      Credit(1, start);
    }

    /** Delivers an interrupt if one is due, with the delay-slot flags retired first. */
    method ServiceInterrupt(ghost start: nat) returns (delivered: bool)
      requires Valid() && Conserves(start)
      modifies this, sched
      ensures Valid() && Conserves(start) && (if delivered then total > old(total) else total == old(total))
    {
      sched.world := cpu.retire(sched.world);
      delivered := cpu.interrupted(sched.world);
      if delivered {
        sched.world := cpu.deliver(sched.world);
        Credit(1, start);
        FlushPending();
      }
    }

    /** Compiled blocks, linked one to the next while nothing needs the outer loop. */
    method RunBlocks(limit: nat, ghost start: nat) returns (aborted: bool)
      requires Valid() && Conserves(start) && total < limit
      modifies this, sched
      ensures Valid() && Conserves(start) && total > old(total)
    {
      while true
        invariant Valid() && Conserves(start) && total < limit && total >= old(total)
        decreases limit - total
      {
        var (s, taken, stop) := cpu.block(sched.world, sched.now);
        Obey(s);
        var got: nat := if taken > 0 then taken else 1;
        var before := total;
        Credit(got, start);
        if stop {
          FlushPending();
          return true;
        }
        if total >= limit || total > before + got || cpu.delaySlot(sched.world) { return false; }
        var next := sched.CyclesUntilNextEvent();
        if next.Some? && next.value <= pending { return false; }
        var delivered := ServiceInterrupt(start);
        if delivered || !cpu.fetch(sched.world).Mapped? || !cpu.cached(sched.world) { return false; }
      }
    }

    /** One turn of the outer loop, after the delay-slot and event checks. */
    method RunCode(limit: nat, ghost start: nat) returns (aborted: bool)
      requires Valid() && Conserves(start) && total < limit
      modifies this, sched
      ensures Valid() && Conserves(start) && total > old(total)
    {
      if !cpu.fetch(sched.world).Mapped? {
        Fallback(start);
        return false;
      }
      var delivered := ServiceInterrupt(start);
      if delivered { return false; }
      if !cpu.cached(sched.world) {
        var (w, compiled) := cpu.compile(sched.world);
        sched.world := w;
        if !compiled {
          Fallback(start);
          return false;
        }
      }
      aborted := RunBlocks(limit, start);
    }

    /** Dynarec::run. */
    method Recompile(budget: int) returns (r: nat)
      requires Valid()
      modifies this, sched
      ensures Valid() && sched.now == old(sched.now) + r
    {
      var limit: nat := if budget < 1 then 1 else budget;
      ghost var start := sched.now;
      total, pending := 0, 0;
      idle := BeginSlice(limit);
      var aborted := false;
      while total < limit && !aborted
        invariant Valid() && Conserves(start)
        decreases limit - total, Due(sched.View()), if cpu.delaySlot(sched.world) then 1 else 0
      {
        if cpu.delaySlot(sched.world) {
          if cpu.annulled(sched.world) {
            ghost var before := sched.View();
            sched.world := cpu.clearAnnul(sched.world);
            assert Due(sched.View()) == Due(before);
          } else {
            Fallback(start);
          }
        } else {
          ghost var due := Due(sched.View());
          ghost var owed := pending;
          var next := sched.CyclesUntilNextEvent();
          if next.Some? && next.value <= pending {
            FlushPending();
            next := sched.CyclesUntilNextEvent();
          } else if next.Some? {
            next := Some(next.value - pending);
          }
          if next == Some(0) {
            assert due > 0 && pending == 0 by { OverdueIffZero(sched.x, sched.View()); }
            ghost var before := sched.View();
            sched.Tick(0);
            LeavesNothingDue(sched.x, Advance(before, 0));
            var again := sched.CyclesUntilNextEvent();
            if again == Some(0) { Fallback(start); }
          } else {
            aborted := RunCode(limit, start);
          }
        }
      }
      ApplyIdleIfPending(start);
      FlushPending();
      if total < 1 {
        Obey(cpu.stepWithCount(sched.world, sched.now));
        sched.Tick(1);
        return 1;
      }
      r := total;
    }
  }

  lemma OverdueIffZero<W(!new), E(!new)>(x: Context<W, E>, s: Sched<W, E>)
    requires Ok(x) && s.Valid()
    ensures CyclesUntilNext(x, s) == Some(0) <==> Due(s) > 0
  {
    QuietIffBeforeNext(x, s, 0);
    assert Advance(s, 0) == s;
  }
}
