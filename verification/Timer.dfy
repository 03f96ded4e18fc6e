/** The COUNT/COMPARE timer (src/cpu/cpu.cpp:70-84). */
module Timer {
  const WRAP: nat := 0x2_0000_0000

  /** COUNT runs at the full clock in 33 bits; COMPARE is compared with its upper 32. */
  datatype Timer = Timer(count: nat, compare: nat, ip7: bool) {
    ghost predicate Valid() { count < WRAP && compare < 0x1_0000_0000 }

    /** Cycles until COUNT reaches COMPARE; zero when it is there. */
    function Distance(): nat { (compare * 2 - count) % WRAP }
  }

  function AddCount(t: Timer, n: nat): Timer {
    if n == 0 then t
    else t.(count := (t.count + n) % WRAP, ip7 := t.ip7 || t.Distance() <= n)
  }

  lemma ModAdd(a: nat, b: nat)
    ensures (a % WRAP + b) % WRAP == (a + b) % WRAP
  {
    var q, r := a / WRAP, a % WRAP;
    assert a + b == q * WRAP + (r + b);
  }

  lemma DistanceCases(t: Timer)
    requires t.Valid()
    ensures t.Distance() == if t.count <= t.compare * 2 then t.compare * 2 - t.count
                            else t.compare * 2 + WRAP - t.count
  {}

  lemma Shifted(t: Timer, a: nat)
    requires t.Valid() && 0 < a < t.Distance()
    ensures AddCount(t, a).Distance() == t.Distance() - a
  {
    DistanceCases(t);
    DistanceCases(AddCount(t, a));
  }

  /** COUNT advanced in two parts ends where one advance ends, timer edge included, wherever the edge falls
      and however often the counter wraps. */
  lemma AddCountAdd(t: Timer, a: nat, b: nat)
    requires t.Valid()
    ensures AddCount(AddCount(t, a), b) == AddCount(t, a + b)
    ensures AddCount(t, a).Valid()
  {
    ModAdd(t.count + a, b);
    if 0 < a < t.Distance() { Shifted(t, a); }
  }

  /** COUNT moves by n, and IP7 is set exactly when it was, or when COUNT stands on twice COMPARE at the start, on the
      way or at the end. */
  lemma AddCountExact(t: Timer, n: nat)
    requires t.Valid() && n > 0
    ensures AddCount(t, n).count == (t.count + n) % WRAP && AddCount(t, n).compare == t.compare
    ensures AddCount(t, n).ip7 <==> t.ip7 || exists j :: OnEdge(t, j, n)
  {
    hide OnEdge;
    DistanceCases(t);
    var d := t.Distance();
    Landed(t, d);
    if d <= n { assert OnEdge(t, d, n) by { ItsEdge(t, d, n); } }
    forall j | OnEdge(t, j, n) ensures d <= n {
      EdgeIsNotBefore(t, j, n);
    }
  }

  /** After j of n cycles COUNT stands on twice COMPARE. */
  predicate OnEdge(t: Timer, j: int, n: nat) { 0 <= j <= n && (t.count + j) % WRAP == 2 * t.compare }

  lemma Landed(t: Timer, d: nat)
    requires t.Valid() && d == t.Distance()
    ensures (t.count + d) % WRAP == 2 * t.compare && d < WRAP
  {
    DistanceCases(t);
  }

  lemma ItsEdge(t: Timer, d: nat, n: nat)
    requires (t.count + d) % WRAP == 2 * t.compare && d <= n
    ensures OnEdge(t, d, n)
  {}

  lemma EdgeIsNotBefore(t: Timer, j: int, n: nat)
    requires t.Valid() && OnEdge(t, j, n)
    ensures t.Distance() <= j <= n
  {
    DistanceCases(t);
    if t.count + j < WRAP { Small(t.count + j); }
  }

  lemma Small(x: nat)
    requires x < WRAP
    ensures x % WRAP == x
  {}
}
