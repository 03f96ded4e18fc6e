/** The MMU as the object the emulator updates in place: the 32 TLB entries, the COP0 registers beside them
    and the two software TLB tables. Each method is proved against the functions of Tlb and SoftTlb. */
module MmuUnit {
  import opened Common
  import opened Tlb
  import opened SoftTlb

  class MmuUnit {
    const entries: array<Entry>
    const load: array<Slot>
    const store: array<Slot>
    var c: Cop0

    ghost predicate Valid() {
      entries.Length == ENTRIES && load.Length == SLOTS && store.Length == SLOTS && load != store
    }

    ghost function View(): Mmu
      requires Valid()
      reads this, entries, load, store
    {
      Mmu(entries[..], c, load[..], store[..])
    }

    constructor (c: Cop0)
      ensures Valid() && fresh(entries) && fresh(load) && fresh(store) && this.c == c
      ensures Coherent(View())
    {
      entries := new Entry[ENTRIES](_ => EMPTY);
      load := new Slot[SLOTS](_ => Slot(NO_VPN, 0));
      store := new Slot[SLOTS](_ => Slot(NO_VPN, 0));
      this.c := c;
      new;
      hide SoftTlb.Resolve;
    }

    method InvalidateTable(t: array<Slot>)
      requires t.Length == SLOTS
      modifies t
      ensures t[..] == Emptied(old(t[..]))
    {
      for i := 0 to SLOTS
        invariant forall k :: 0 <= k < i ==> t[k] == old(t[k]).(vpn := NO_VPN)
        invariant forall k :: i <= k < SLOTS ==> t[k] == old(t[k])
      {
        t[i] := t[i].(vpn := NO_VPN);
      }
    }

    method Invalidate()
      requires Valid()
      modifies load, store
      ensures View() == SoftTlb.Invalidate(old(View()))
    {
      InvalidateTable(load);
      InvalidateTable(store);
    }

    method NotePage(va: u32, paddr: u32, a: Access)
      requires Valid()
      modifies load, store
      ensures View() == Noted(old(View()), va, paddr, a)
    {
      var slot := Slot(va / 0x1000, paddr - paddr % 0x1000);
      if a.Load? { load[va / 0x1000 % SLOTS] := slot; } else { store[va / 0x1000 % SLOTS] := slot; }
    }

    method LookupEntry(vaddr: nat) returns (r: Option<nat>)
      requires Valid()
      ensures r == Lookup(entries[..], vaddr, c.hi)
    {
      hide Matches, Lookup;
      for i := 0 to ENTRIES
        invariant forall k :: 0 <= k < i ==> !Matches(entries[k], vaddr, c.hi)
      {
        if Matches(entries[i], vaddr, c.hi) { return Some(i); }
      }
      r := None;
    }

    method ProbeAddress(vaddr: u32, a: Access) returns (r: Result)
      requires Valid()
      ensures r == Probe(entries[..], c.hi, vaddr, a)
    {
      hide Lookup, Tlb.Translate;
      var i := LookupEntry(SignExtend(vaddr));
      r := if i.None? then Fail(Miss) else Tlb.Translate(entries[i.value], vaddr, a);
    }

    /** resolve_vaddr: direct mapping, or the TLB and its exception registers. */
    method ResolveAddress(va: u32, a: Access) returns (r: Result)
      requires Valid()
      modifies this`c
      ensures r == SoftTlb.Resolve(old(View()).es, old(c.hi), va, a)
      ensures View() == if r.Hit? then old(View()) else Missed(old(View()), va)
    {
      hide Probe, OnException;
      match DirectMap(va) {
        case Some(p) => r := Hit(p);
        case None =>
          r := ProbeAddress(va, a);
          if r.Fail? { c := OnException(c, SignExtend(va)); }
      }
    }

    method ResolveCached(va: u32, size: nat, a: Access) returns (r: Result)
      requires Valid()
      modifies this`c, load, store
      ensures (View(), r) == SoftTlb.ResolveCached(old(View()), va, size, a)
    {
      hide SoftTlb.Resolve;
      var hit := SoftLookup(if a.Load? then load[..] else store[..], va, size);
      if hit.Some? { return Hit(hit.value); }
      r := ResolveAddress(va, a);
      if r.Hit? && InRdram(r.paddr, size) { NotePage(va, r.paddr, a); }
    }

    method WriteEntry(random: bool)
      requires Valid()
      modifies this`c, entries, load, store
      ensures View() == SoftTlb.WriteEntry(old(View()), random)
    {
      hide EntryOf, NextRandom;
      if random { c := c.(random := ClampedRandom(c)); }
      var i := if random then c.random % 0x20 else c.index % 0x20;
      if random { AdvanceRandom(); }
      entries[i] := EntryOf(c);
      EntryIgnoresRandom(c, old(c));
      Invalidate();
    }

    lemma EntryIgnoresRandom(c: Cop0, d: Cop0)
      requires c == d.(random := c.random)
      ensures EntryOf(c) == EntryOf(d)
    {}

    method AdvanceRandom()
      modifies this`c
      ensures c == old(c).(random := NextRandom(old(c)))
    {
      var r := c.random;
      if r < RandomLow(c) || r > RandomHigh(c) {
        r := RandomLow(c);
      } else if r >= RandomHigh(c) {
        r := RandomLow(c);
      } else {
        r := r + 1;
      }
      c := c.(random := r);
    }

    method ReadEntry()
      requires Valid()
      modifies this`c
      ensures View() == old(View()).(c := Tlb.ReadEntry(old(View()).es, old(c)))
    {
      var e := entries[c.index % 0x20];
      c := c.(pageMask := e.mask, hi := e.hi);
      c := c.(lo0 := e.lo0, lo1 := e.lo1);
      c := c.(lo0 := WithG(c.lo0, e.global), lo1 := WithG(c.lo1, e.global));
    }

    /** A write to EntryHi flushes the software TLB only when the ASID changes. */
    method WriteEntryHi(value: nat)
      requires Valid()
      modifies this`c, load, store
      ensures View() == Step(old(View()), SetEntryHi(value)).0
    {
      hide EntryHiWritten;
      var old_asid := Asid(c.hi);
      c := c.(hi := EntryHiWritten(value));
      if Asid(c.hi) != old_asid { Invalidate(); }
    }

    method Reset()
      requires Valid()
      modifies entries, load, store
      ensures View() == Step(old(View()), Op.Reset).0
    {
      for i := 0 to ENTRIES
        invariant forall k :: 0 <= k < i ==> entries[k] == EMPTY
        invariant load[..] == old(load[..]) && store[..] == old(store[..])
      {
        entries[i] := EMPTY;
      }
      Invalidate();
    }
  }
}
