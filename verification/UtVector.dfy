/** The vector of src/libut/src/utvector.c over the slot operations of
    src/libut/src/utmm.c. A slot holds the bits of a deep resource, here its
    number; moving bits does not move the resource. */
module UtVector {
  import opened Memory
  import opened Links
  import opened Extrema

  const INITIAL_SIZE := 16

  /** UT_mm: the state of a resource after init, what clear leaves of it, and
      what copy into it makes of it. */
  datatype Mm<!V> = Mm(initial: V, clear: V -> V, copy: (V, V) -> V)

  /** What utvector.h asks of the operations: clear resets a slot for re-use, and
      copying into a reset slot yields the source. */
  ghost predicate Lawful<V(!new)>(mm: Mm<V>) {
    (forall v :: mm.clear(v) == mm.initial) && (forall e :: mm.copy(mm.initial, e) == e)
  }

  /** The life of resources: numbers below `next` have been initialised; each is
      live or finalised, never both; the live ones are those in the slots. */
  ghost predicate Ledger<V>(slots: seq<nat>, live: map<nat, V>, finalised: set<nat>, next: nat) {
    && live.Keys == Elements(slots)
    && live.Keys !! finalised
    && forall id: nat :: id < next <==> id in live.Keys + finalised
  }

  function Values<V>(slots: seq<nat>, live: map<nat, V>): seq<V>
    requires forall i | 0 <= i < |slots| :: slots[i] in live
  {
    seq(|slots|, i requires 0 <= i < |slots| => live[slots[i]])
  }

  class Vector<V(!new)> {
    const mm: Mm<V>
    var i: nat
    var n: nat
    var d: array<nat>
    // the resources
    var live: map<nat, V>
    var next: nat
    ghost var finalised: set<nat>

    /** All n slots hold distinct live resources, and no others are live. */
    ghost predicate Valid()
      reads this, d
    {
      && d.Length == n && i <= n
      && Distinct(d[..])
      && Ledger(d[..], live, finalised, next)
    }

    /** Every resource ever initialised either is live, in exactly one slot, or
        has been finalised. */
    lemma LiveOrFinalised(id: nat)
      requires Valid() && id < next
      ensures id in finalised <==> id !in live
      ensures id in live <==> exists j | 0 <= j < n :: d[j] == id
      ensures forall j, k | 0 <= j < n && 0 <= k < n && d[j] == d[k] == id :: j == k
    {
      assert id in live.Keys + finalised;
      assert id in live <==> id in Elements(d[..]);
      assert forall j | 0 <= j < n :: d[..][j] == d[j];
    }

    ghost function Contents(): (s: seq<V>)
      requires Valid()
      reads this, d
      ensures |s| == i
    {
      InLedger(d[..], live, finalised, next);
      Values(d[..i], live)
    }

    /** utvector_init */
    constructor (mm: Mm<V>)
      ensures Valid() && this.mm == mm && Contents() == [] && n == INITIAL_SIZE && fresh(d)
    {
      this.mm := mm;
      i, n, next := 0, 0, 0;
      d := new nat[0];
      live, finalised := map[], {};
      new;
      Reserve(INITIAL_SIZE);
    }

    /** utmm_init on k slots from position at; whatever bits they held are forgotten. */
    method MmInit(at: nat, k: nat)
      requires at + k <= d.Length
      requires Distinct(d[..at]) && Ledger(d[..at], live, finalised, next)
      modifies this`live, this`next, d
      ensures d[..at] == old(d[..at]) && d[at + k..] == old(d[at + k..])
      ensures Distinct(d[..at + k]) && Ledger(d[..at + k], live, finalised, next)
      ensures forall id | id in old(live) :: id in live && live[id] == old(live[id])
      ensures next == old(next) + k
    {
      for j := 0 to k
        invariant d[..at] == old(d[..at]) && d[at + k..] == old(d[at + k..])
        invariant Distinct(d[..at + j]) && Ledger(d[..at + j], live, finalised, next)
        invariant forall id | id in old(live) :: id in live && live[id] == old(live[id])
        invariant next == old(next) + j
      {
        InitLedger(d[..at + j], live, finalised, next, mm.initial);
        d[at + j] := next;
        live := live[next := mm.initial];
        next := next + 1;
        assert d[..at + j + 1] == d[..at + j] + [d[at + j]];
      }
    }

    /** utmm_fini on k slots from position at. No resource is finalised twice:
        each must be live. */
    method MmFini(at: nat, k: nat)
      requires at + k <= d.Length && Distinct(d[..]) && forall id | id in d[..] :: id in live
      requires live.Keys !! finalised
      modifies this`live, this`finalised
      ensures live == old(live) - Elements(d[at..at + k]) && finalised == old(finalised) + Elements(d[at..at + k])
    {
      for j := 0 to k
        invariant live == old(live) - Elements(d[at..at + j]) && finalised == old(finalised) + Elements(d[at..at + j])
      {
        var id := d[at + j];
        assert d[..][at + j] == id;
        assert id in live by { assert forall p | at <= p < at + j :: d[..][p] != id; }
        assert d[at..at + j + 1] == d[at..at + j] + [id];
        live := live - {id};
        finalised := finalised + {id};
      }
    }

    /** utmm_clear on k slots from position at. */
    method MmClear(at: nat, k: nat)
      requires at + k <= d.Length && Distinct(d[..]) && forall id | id in d[..] :: id in live
      modifies this`live
      ensures live.Keys == old(live).Keys
      ensures forall j | at <= j < at + k :: d[..][j] in live && live[d[..][j]] == mm.clear(old(live)[d[..][j]])
      ensures forall id | id in live && id !in d[at..at + k] :: live[id] == old(live)[id]
    {
      for m := at to at + k
        invariant live.Keys == old(live).Keys
        invariant forall j | at <= j < m :: live[d[..][j]] == mm.clear(old(live)[d[..][j]])
        invariant forall id | id in live && id !in d[at..m] :: live[id] == old(live)[id]
      {
        var id := d[m];
        assert d[..][m] == id && d[at..m + 1] == d[at..m] + [id];
        assert id !in d[at..m] by { assert forall j | at <= j < m :: d[..][j] != id; }
        live := live[id := mm.clear(live[id])];
      }
    }

    /** utmm_copy of the values vs into the slots from position at. */
    method MmCopy(at: nat, vs: seq<V>)
      requires at + |vs| <= d.Length && Distinct(d[..]) && forall id | id in d[..] :: id in live
      modifies this`live
      ensures live.Keys == old(live).Keys
      ensures forall j | 0 <= j < |vs| :: d[..][at + j] in live && live[d[..][at + j]] == mm.copy(old(live)[d[..][at + j]], vs[j])
      ensures forall id | id in live && id !in d[at..at + |vs|] :: live[id] == old(live)[id]
    {
      for m := 0 to |vs|
        invariant live.Keys == old(live).Keys
        invariant forall j | 0 <= j < m :: live[d[..][at + j]] == mm.copy(old(live)[d[..][at + j]], vs[j])
        invariant forall id | id in live && id !in d[at..at + m] :: live[id] == old(live)[id]
      {
        var id := d[at + m];
        assert d[..][at + m] == id && d[at..at + m + 1] == d[at..at + m] + [id];
        assert id !in d[at..at + m] by { assert forall j | at <= j < at + m :: d[..][j] != id; }
        live := live[id := mm.copy(live[id], vs[m])];
      }
    }

    /** utvector_reserve: room for num more elements; a vector that grows at
        least triples. realloc moves the old slots bit by bit. */
    method Reserve(num: nat)
      requires Valid()
      modifies this`n, this`d, this`live, this`next
      ensures Valid() && i == old(i) && Contents() == old(Contents())
      ensures n - i >= num
      ensures n == if old(n - i) >= num then old(n) else old(n) + Max(num - old(n - i), 2 * old(n))
      ensures next == old(next) + n - old(n)
      ensures d == old(d) || fresh(d)
      ensures d[..old(n)] == old(d[..])
    {
      if n - i >= num { return; }
      var grow := num - (n - i);
      if grow < n * 2 { grow := n * 2; }
      ghost var slots, live0 := d[..], live;
      InLedger(slots, live, finalised, next);
      Realloc(grow + n);
      MmInit(n, grow);
      SameValues(slots[..i], live0, live);
      assert d[..i] == d[..n][..i] == slots[..i];
      n := grow + n;
      assert d[..] == d[..n];
    }

    method Realloc(size: nat)
      requires d.Length <= size
      modifies this`d
      ensures fresh(d) && d.Length == size && d[..old(d.Length)] == old(d[..])
    {
      var moved := new nat[size](_ => 0);
      MemCpy(moved, 0, d[..]);
      assert moved[..d.Length] == d[..];
      d := moved;
    }

    /** utvector_fini: no resource is left live. */
    method Fini()
      requires Valid()
      modifies this`i, this`n, this`d, this`live, this`finalised
      ensures Valid() && live == map[] && i == n == 0 && finalised == old(finalised + live.Keys)
      ensures forall id: nat :: id < next <==> id in finalised
    {
      InLedger(d[..], live, finalised, next);
      ghost var all := live.Keys + finalised;
      assert forall id: nat :: id < next <==> id in all;
      MmFini(0, n);
      assert d[0..n] == d[..];
      assert live.Keys == {} && finalised == all;
      d := new nat[0];
      i, n := 0, 0;
    }

    /** utvector_clear */
    method Clear()
      requires Valid()
      modifies this`i
      ensures Valid() && Contents() == []
    {
      i := 0;
    }

    /** utvector_copy. The slots are cleared, then the source's elements copied in. */
    method Copy(src: Vector<V>)
      requires Valid() && src.Valid() && Lawful(mm) && (src != this ==> src.d != d)
      modifies this`i, this`n, this`d, this`live, this`next
      ensures Valid() && Contents() == if src == this then [] else old(src.Contents())
      ensures next == old(next) + n - old(n) && n >= old(n)
      ensures d == old(d) || fresh(d)
    {
      Clear();
      Reserve(src.i);
      i := src.i;
      InLedger(src.d[..], src.live, src.finalised, src.next);
      CopySlots(Values(src.d[..src.i], src.live));
    }

    method CopySlots(vs: seq<V>)
      requires Valid() && i == |vs| && Lawful(mm)
      modifies this`live
      ensures Valid() && Contents() == vs
    {
      InLedger(d[..], live, finalised, next);
      MmClear(0, i);
      MmCopy(0, vs);
      InLedger(d[..], live, finalised, next);
      assert forall j | 0 <= j < |vs| :: d[..][0 + j] == d[..i][j];
      assert Values(d[..i], live) == vs;
    }

    /** utvector_extend: a cleared slot joins the contents. */
    method Extend() returns (b: nat)
      requires Valid() && Lawful(mm)
      modifies this`i, this`n, this`d, this`live, this`next
      ensures Valid() && b == old(i) && i == old(i) + 1 && Contents() == old(Contents()) + [mm.initial]
      ensures next == old(next) + n - old(n) && n >= old(n)
      ensures d == old(d) || fresh(d)
    {
      Reserve(1);
      b := i;
      ClearNext();
    }

    method ClearNext()
      requires Valid() && Lawful(mm) && i < n
      modifies this`i, this`live
      ensures Valid() && i == old(i) + 1 && Contents() == old(Contents()) + [mm.initial]
    {
      ghost var slots, live0 := d[..], live;
      InLedger(slots, live, finalised, next);
      MmClear(i, 1);
      KeptValues(slots, i, live0, live);
      assert live[slots[i]] == mm.initial;
      i := i + 1;
    }

    /** utvector_push */
    method Push(e: V) returns (b: nat)
      requires Valid() && Lawful(mm)
      modifies this`i, this`n, this`d, this`live, this`next
      ensures Valid() && b == i - 1 && Contents() == old(Contents()) + [e]
      ensures next == old(next) + n - old(n) && n >= old(n)
      ensures d == old(d) || fresh(d)
    {
      b := Extend();
      ghost var slots, live0 := d[..], live;
      InLedger(slots, live, finalised, next);
      KeptValues(slots, b, live, live);
      assert Values(slots[..b], live) == Contents()[..b] == old(Contents());
      assert live[slots[b]] == Contents()[b] == mm.initial;
      assert [e][0] == e;
      MmCopy(b, [e]);
      KeptValues(slots, b, live0, live);
      assert slots == d[..] && live[slots[b + 0]] == mm.copy(mm.initial, e);
    }

    /** utvector_pop: the index of the last element, whose resource stays as it
        is until the slot is used again; None when empty. */
    method Pop() returns (popped: bool, b: nat)
      requires Valid()
      modifies this`i
      ensures Valid() && popped == (old(Contents()) != [])
      ensures popped ==> b == i < d.Length && d[b] in live && old(Contents()) == Contents() + [live[d[b]]]
      ensures !popped ==> i == 0
    {
      popped, b := i > 0, 0;
      if popped {
        InLedger(d[..], live, finalised, next);
        i := i - 1;
        b := i;
        assert d[..][b] == d[b] && d[..i + 1] == d[..i] + [d[b]];
      }
    }

    /** utvector_shift: the head is finalised, the other slots move down bit by
        bit, and the last slot, by then a duplicate, is initialised anew. */
    method Shift()
      requires Valid() && i > 0
      modifies this`i, this`live, this`next, this`finalised, d
      ensures Valid() && Contents() == old(Contents())[1..]
      ensures finalised == old(finalised) + {old(d[0])} && next == old(next) + 1
    {
      RemoveSlot(0);
    }

    /** utvector_erase */
    method Erase(k: nat)
      requires Valid() && i > 0
      modifies this`i, this`live, this`next, this`finalised, d
      ensures Valid()
      ensures Contents() == if k < |old(Contents())| then old(Contents())[..k] + old(Contents())[k + 1..] else old(Contents())
      ensures if k < old(i) then finalised == old(finalised) + {old(d[..])[k]} && next == old(next) + 1
              else finalised == old(finalised) && next == old(next)
    {
      if k >= i { return; }
      RemoveSlot(k);
    }

    /** The statements that utvector_shift and utvector_erase share. */
    method RemoveSlot(k: nat)
      requires Valid() && k < i
      modifies this`i, this`live, this`next, this`finalised, d
      ensures Valid() && Contents() == old(Contents())[..k] + old(Contents())[k + 1..]
      ensures finalised == old(finalised) + {old(d[k])} && next == old(next) + 1
    {
      ghost var slots := d[..];
      InLedger(slots, live, finalised, next);
      FiniSlot(k);
      i := i - 1;
      MoveDown(k);
      ghost var kept, live1 := d[..n - 1], live;
      ValuesWithout(slots, k, i, old(live), live1);
      assert kept[..i] == (slots[..k] + slots[k + 1..])[..i];
      InitLast();
      SameValues(kept[..i], live1, live);
    }

    method InitLast()
      requires d.Length == n > i && Distinct(d[..n - 1]) && Ledger(d[..n - 1], live, finalised, next)
      modifies this`live, this`next, d
      ensures Distinct(d[..]) && Ledger(d[..], live, finalised, next)
      ensures d[..i] == old(d[..n - 1])[..i]
      ensures forall id | id in old(live) :: id in live && live[id] == old(live[id])
      ensures next == old(next) + 1
    {
      MmInit(n - 1, 1);
      assert d[..] == d[..n - 1 + 1];
      assert d[..i] == d[..n - 1][..i];
    }

    method FiniSlot(k: nat)
      requires Valid() && k < i
      modifies this`live, this`finalised
      ensures var kept := d[..k] + d[k + 1..];
              Distinct(kept) && Ledger(kept, live, finalised, next)
      ensures finalised == old(finalised) + {d[k]}
      ensures live == old(live) - {d[k]}
    {
      InLedger(d[..], live, finalised, next);
      FiniLedger(d[..], k, live, finalised, next);
      assert d[k..k + 1] == [d[k]] && Elements([d[k]]) == {d[k]} && d[..][k] == d[k];
      assert d[..][..k] == d[..k] && d[..][k + 1..] == d[k + 1..];
      MmFini(k, 1);
    }

    /** memmove of the slots after k. */
    method MoveDown(k: nat)
      requires k < d.Length == n
      modifies d
      ensures d[..n - 1] == old(d[..k]) + old(d[k + 1..])
    {
      MemCpy(d, k, d[k + 1..]);
      assert d[..n - 1] == d[..][..n - 1];
    }
  }

  /** Finalising the resource of slot k and dropping the slot keeps the ledger. */
  lemma FiniLedger<V>(slots: seq<nat>, k: nat, live: map<nat, V>, finalised: set<nat>, next: nat)
    requires k < |slots| && Distinct(slots) && Ledger(slots, live, finalised, next)
    ensures var kept := slots[..k] + slots[k + 1..];
            Distinct(kept) && Ledger(kept, live - {slots[k]}, finalised + {slots[k]}, next)
  {
    InLedger(slots, live, finalised, next);
    var kept := slots[..k] + slots[k + 1..];
    forall id ensures id in Elements(kept) <==> id in Elements(slots) && id != slots[k] {
      if id in Elements(slots) && id != slots[k] {
        var j :| 0 <= j < |slots| && slots[j] == id;
        assert kept[if j < k then j else j - 1] == id;
      }
    }
    assert live.Keys + finalised == (live - {slots[k]}).Keys + (finalised + {slots[k]});
  }

  /** Changing only the resource of slot k leaves the values before it. */
  lemma KeptValues<V>(slots: seq<nat>, k: nat, live: map<nat, V>, live': map<nat, V>)
    requires k < |slots| && Distinct(slots) && live'.Keys == live.Keys
    requires forall j | 0 <= j < |slots| :: slots[j] in live
    requires forall x | x in live && x !in slots[k..k + 1] :: live'[x] == live[x]
    ensures Values(slots[..k + 1], live') == Values(slots[..k], live) + [live'[slots[k]]]
  {
    assert slots[k..k + 1] == [slots[k]];
  }

  lemma ValuesWithout<V>(slots: seq<nat>, k: nat, i: nat, live: map<nat, V>, live': map<nat, V>)
    requires k <= i < |slots|
    requires forall j | 0 <= j < |slots| :: slots[j] in live
    requires forall j | 0 <= j < |slots| && j != k :: slots[j] in live' && live'[slots[j]] == live[slots[j]]
    ensures var values := Values(slots[..i + 1], live);
            var kept := slots[..k] + slots[k + 1..];
            Values(kept[..i], live') == values[..k] + values[k + 1..]
  {
  }

  lemma InLedger<V>(slots: seq<nat>, live: map<nat, V>, finalised: set<nat>, next: nat)
    requires Ledger(slots, live, finalised, next)
    ensures forall k | 0 <= k < |slots| :: slots[k] in live
  {
    assert forall k | 0 <= k < |slots| :: slots[k] in Elements(slots);
  }

  lemma SameValues<V>(slots: seq<nat>, live: map<nat, V>, live': map<nat, V>)
    requires forall k | 0 <= k < |slots| :: slots[k] in live
    requires forall id | id in live :: id in live' && live'[id] == live[id]
    ensures Values(slots, live') == Values(slots, live)
  {
  }

  lemma InitLedger<V>(slots: seq<nat>, live: map<nat, V>, finalised: set<nat>, next: nat, v: V)
    requires Distinct(slots) && Ledger(slots, live, finalised, next)
    ensures Distinct(slots + [next]) && Ledger(slots + [next], live[next := v], finalised, next + 1)
    ensures next !in live
  {
    InLedger(slots, live, finalised, next);
    assert next !in live.Keys + finalised;
    assert Elements(slots + [next]) == Elements(slots) + {next};
    assert live[next := v].Keys == live.Keys + {next};
  }
}
