/** The row that src/lwes-journal-stats.c keeps for an event name, and what its
    numbers mean. */
module Tally {
  import opened Marshal
  import opened Extrema

  type Name = seq<Byte>

  datatype Event = Event(name: Name, size: nat)

  /** total_events, total_bytes, min_bytes and max_bytes of stats_by_event. The
      last two are unsigned shorts. */
  datatype Row = Row(events: nat, bytes: nat, min: nat, max: nat)

  const NO_EVENTS := Row(0, 0, 65535, 0)

  /** What is added to the size of each event. */
  const EXTRA := 59

  /** The largest size whose byte count still fits an unsigned short. */
  const LIMIT := 65476

  function UShort(x: nat): nat { x % 0x1_0000 }

  /** The assignments at the end of upsert_stats. */
  function Include(row: Row, size: nat): Row {
    var bytes := size + EXTRA;
    Row(row.events + 1, row.bytes + bytes,
        if bytes < row.min then UShort(bytes) else row.min,
        if bytes > row.max then UShort(bytes) else row.max)
  }

  /** The row after events of the given sizes. */
  function RowOf(sizes: seq<nat>): Row {
    if sizes == [] then NO_EVENTS else Include(RowOf(sizes[..|sizes| - 1]), sizes[|sizes| - 1])
  }

  // ----- what the row should say

  function ByteSum(sizes: seq<nat>): nat {
    if sizes == [] then 0 else sizes[0] + EXTRA + ByteSum(sizes[1..])
  }

  ghost predicate IsMin(sizes: seq<nat>, m: int) {
    (exists i | 0 <= i < |sizes| :: sizes[i] + EXTRA == m) && forall i | 0 <= i < |sizes| :: m <= sizes[i] + EXTRA
  }

  ghost predicate IsMax(sizes: seq<nat>, m: int) {
    (exists i | 0 <= i < |sizes| :: sizes[i] + EXTRA == m) && forall i | 0 <= i < |sizes| :: m >= sizes[i] + EXTRA
  }

  /** What a row says of events of the given sizes. Number of events and bytes
      are right on every input. The minimum is right if and only if some size is
      within the limit, the maximum if and only if all are. */
  ghost predicate Summarises(row: Row, sizes: seq<nat>) {
    && row.events == |sizes| && row.bytes == ByteSum(sizes)
    && (sizes != [] ==>
          && (IsMin(sizes, row.min) <==> exists i | 0 <= i < |sizes| :: sizes[i] <= LIMIT)
          && (IsMax(sizes, row.max) <==> forall i | 0 <= i < |sizes| :: sizes[i] <= LIMIT))
  }

  lemma RowExact(sizes: seq<nat>)
    ensures Summarises(RowOf(sizes), sizes)
  {
    RowSums(sizes);
    RowBounds(sizes);
    RowMin(sizes);
    if forall i | 0 <= i < |sizes| :: sizes[i] <= LIMIT { RowMax(sizes); }
  }

  lemma RowNextSize(s: seq<nat>, size: nat)
    ensures RowOf(s + [size]) == Include(RowOf(s), size)
  {
    assert (s + [size])[..|s|] == s;
  }

  lemma {:induction false} RowSums(sizes: seq<nat>)
    ensures RowOf(sizes).events == |sizes| && RowOf(sizes).bytes == ByteSum(sizes)
  {
    if sizes != [] {
      var s, size := sizes[..|sizes| - 1], sizes[|sizes| - 1];
      assert sizes == s + [size];
      RowSums(s);
      ByteSumSnoc(s, size);
    }
  }

  lemma {:induction false} RowBounds(sizes: seq<nat>)
    ensures RowOf(sizes).min <= 65535 && RowOf(sizes).max <= 65535
  {
    if sizes != [] { RowBounds(sizes[..|sizes| - 1]); }
  }

  lemma {:induction false} RowMin(sizes: seq<nat>)
    ensures RowOf(sizes).min == 65535 || IsMin(sizes, RowOf(sizes).min)
    ensures forall i | 0 <= i < |sizes| :: RowOf(sizes).min <= sizes[i] + EXTRA
  {
    if sizes != [] {
      var s, size := sizes[..|sizes| - 1], sizes[|sizes| - 1];
      assert forall i | 0 <= i < |s| :: s[i] == sizes[i];
      RowMin(s);
      RowBounds(s);
    }
  }

  lemma {:induction false} RowMax(sizes: seq<nat>)
    requires forall i | 0 <= i < |sizes| :: sizes[i] <= LIMIT
    ensures sizes == [] || IsMax(sizes, RowOf(sizes).max)
  {
    if sizes != [] {
      var s, size := sizes[..|sizes| - 1], sizes[|sizes| - 1];
      assert forall i | 0 <= i < |s| :: s[i] == sizes[i];
      RowMax(s);
    }
  }

  lemma {:induction false} ByteSumSnoc(s: seq<nat>, size: nat)
    ensures ByteSum(s + [size]) == ByteSum(s) + size + EXTRA
  {
    if s != [] {
      assert (s + [size])[1..] == s[1..] + [size];
      ByteSumSnoc(s[1..], size);
    } else {
      assert s + [size] == [size];
    }
  }

  /** The smallest size beyond the limit makes the maximum 0. */
  lemma OverflowLosesMax()
    ensures RowOf([LIMIT + 1]) == Row(1, 65536, 65535, 0)
    ensures !IsMax([LIMIT + 1], RowOf([LIMIT + 1]).max)
  {
    assert [LIMIT + 1][..0] == [];
    assert [LIMIT + 1][1..] == [];
    RowExact([LIMIT + 1]);
  }

  // ----- events by name

  function Sizes(events: seq<Event>): seq<nat> {
    seq(|events|, i requires 0 <= i < |events| => events[i].size)
  }

  /** The sizes of the events of one name, in order. */
  function SizesOf(events: seq<Event>, name: Name): seq<nat> {
    if events == [] then []
    else
      var e, s := events[|events| - 1], SizesOf(events[..|events| - 1], name);
      if e.name == name then s + [e.size] else s
  }

  /** The names in order of their first event. */
  function Names(events: seq<Event>): seq<Name> {
    if events == [] then []
    else
      var e, s := events[|events| - 1], Names(events[..|events| - 1]);
      if e.name in s then s else s + [e.name]
  }

  /** One more event changes the row of its name alone. */
  lemma RowNext(events: seq<Event>, e: Event, name: Name)
    ensures RowOf(SizesOf(events + [e], name)) ==
              if name == e.name then Include(RowOf(SizesOf(events, name)), e.size) else RowOf(SizesOf(events, name))
  {
    assert (events + [e])[..|events|] == events;
    var s := SizesOf(events, name);
    assert (s + [e.size])[..|s|] == s;
  }

  lemma NamesNext(events: seq<Event>, e: Event)
    ensures Names(events + [e]) == if e.name in Names(events) then Names(events) else Names(events) + [e.name]
  {
    assert (events + [e])[..|events|] == events;
  }

  lemma {:induction false} NamesExact(events: seq<Event>, name: Name)
    ensures name in Names(events) <==> exists i | 0 <= i < |events| :: events[i].name == name
    ensures name !in Names(events) ==> SizesOf(events, name) == []
  {
    if events != [] {
      var s, e := events[..|events| - 1], events[|events| - 1];
      assert events == s + [e];
      NamesExact(s, name);
      assert forall i | 0 <= i < |s| :: s[i].name == events[i].name;
      assert events[|s|] == e;
    }
  }

  // ----- the TOTAL row

  /** The assignments in the loop of print_stats. */
  function AddUp(total: Row, row: Row): Row {
    Row(total.events + row.events, total.bytes + row.bytes, Min(row.min, total.min), Max(row.max, total.max))
  }

  /** The TOTAL row over the rows of the given names, in that order. */
  function TotalOf(events: seq<Event>, names: seq<Name>): Row
    decreases names
  {
    if names == [] then NO_EVENTS
    else AddUp(TotalOf(events, names[..|names| - 1]), RowOf(SizesOf(events, names[|names| - 1])))
  }

  lemma TotalTake(events: seq<Event>, names: seq<Name>, k: nat)
    requires k < |names|
    ensures TotalOf(events, names[..k + 1]) == AddUp(TotalOf(events, names[..k]), RowOf(SizesOf(events, names[k])))
  {
    assert names[..k + 1][..k] == names[..k];
  }

  ghost predicate DistinctNames(names: seq<Name>) {
    forall i, j | 0 <= i < j < |names| :: names[i] != names[j]
  }

  /** Names without events of theirs keep the total as it is. */
  lemma {:induction false} TotalKept(events: seq<Event>, e: Event, names: seq<Name>)
    requires e.name !in names
    ensures TotalOf(events + [e], names) == TotalOf(events, names)
  {
    if names != [] {
      TotalKept(events, e, names[..|names| - 1]);
      RowNext(events, e, names[|names| - 1]);
    }
  }

  /** What an event of e's size does to a total. */
  ghost predicate Grows(t: Row, t': Row, size: nat) {
    && t'.events == t.events + 1 && t'.bytes == t.bytes + size + EXTRA
    && t'.min == Min(t.min, size + EXTRA)
    && (size <= LIMIT ==> t'.max == Max(t.max, size + EXTRA))
  }

  lemma GrowsLeft(t: Row, t': Row, row: Row, size: nat)
    requires Grows(t, t', size)
    ensures Grows(AddUp(t, row), AddUp(t', row), size)
  {
  }

  lemma GrowsRight(t: Row, row: Row, row': Row, size: nat)
    requires Grows(row, row', size)
    ensures Grows(AddUp(t, row), AddUp(t, row'), size)
  {
  }

  lemma {:induction false} TotalNext(events: seq<Event>, e: Event, names: seq<Name>)
    requires DistinctNames(names) && e.name in names
    ensures Grows(TotalOf(events, names), TotalOf(events + [e], names), e.size)
  {
    var front, last := names[..|names| - 1], names[|names| - 1];
    var row, row' := RowOf(SizesOf(events, last)), RowOf(SizesOf(events + [e], last));
    var total, total' := TotalOf(events, front), TotalOf(events + [e], front);
    RowNext(events, e, last);
    if last == e.name {
      RowGrows(SizesOf(events, last), e.size);
      TotalKept(events, e, front);
      GrowsRight(total, row, row', e.size);
    } else {
      TotalNext(events, e, front);
      GrowsLeft(total, total', row, e.size);
    }
  }

  lemma RowGrows(s: seq<nat>, size: nat)
    ensures Grows(RowOf(s), Include(RowOf(s), size), size)
  {
    RowBounds(s);
  }

  lemma AddNothing(row: Row)
    requires row.events == row.bytes == 0
    ensures AddUp(row, row) == row
  {
  }

  lemma {:induction false} TotalStart(events: seq<Event>, names: seq<Name>)
    requires events == []
    ensures TotalOf(events, names) == NO_EVENTS
  {
    if names != [] {
      TotalStart(events, names[..|names| - 1]);
      NoSizes(events, names[|names| - 1]);
      AddNothing(TotalOf(events, names[..|names| - 1]));
    }
  }

  lemma NoSizes(events: seq<Event>, name: Name)
    requires events == []
    ensures RowOf(SizesOf(events, name)) == NO_EVENTS
  {
  }

  lemma {:induction false} TotalMaxBound(events: seq<Event>, names: seq<Name>)
    ensures TotalOf(events, names).max <= 65535
  {
    if names != [] {
      TotalMaxBound(events, names[..|names| - 1]);
      RowBounds(SizesOf(events, names[|names| - 1]));
    }
  }

  ghost predicate Covers(names: seq<Name>, events: seq<Event>) {
    DistinctNames(names) && forall i | 0 <= i < |events| :: events[i].name in names
  }

  lemma {:induction false} TotalIsRow(events: seq<Event>, names: seq<Name>)
    requires Covers(names, events)
    ensures var total, row := TotalOf(events, names), RowOf(Sizes(events));
            && total.events == row.events && total.bytes == row.bytes && total.min == row.min
            && ((forall i | 0 <= i < |events| :: events[i].size <= LIMIT) ==> total.max == row.max)
  {
    if events == [] {
      TotalStart(events, names);
    } else {
      var s, e := events[..|events| - 1], events[|events| - 1];
      assert events == s + [e];
      assert forall i | 0 <= i < |s| :: s[i] == events[i];
      TotalIsRow(s, names);
      TotalNext(s, e, names);
      assert e.name == events[|s|].name;
      assert Sizes(events) == Sizes(s) + [e.size];
      RowNextSize(Sizes(s), e.size);
      RowGrows(Sizes(s), e.size);
    }
  }

  /** In whatever order the names come, the TOTAL row summarises the whole stream. */
  lemma TotalExact(events: seq<Event>, names: seq<Name>)
    requires Covers(names, events)
    ensures Summarises(TotalOf(events, names), Sizes(events))
  {
    var sizes := Sizes(events);
    TotalIsRow(events, names);
    TotalMaxBound(events, names);
    RowExact(sizes);
    assert forall i | 0 <= i < |events| :: sizes[i] == events[i].size;
  }

  // ----- strcmp

  function StrCmp(a: Name, b: Name): int {
    if a == [] || b == [] then |a| - |b|
    else if a[0] == b[0] then StrCmp(a[1..], b[1..])
    else a[0] as int - b[0] as int
  }

  /** a comes before b: at the first position where they part, a has ended or has
      the smaller byte. */
  ghost predicate Precedes(a: Name, b: Name) {
    exists k: nat :: PartsAt(a, b, k) && (k == |a| || a[k] < b[k])
  }

  /** Equal up to k, where b has a byte and a has ended or has another one. */
  ghost predicate PartsAt(a: Name, b: Name, k: nat) {
    k <= |a| && k < |b| && a[..k] == b[..k] && (k < |a| ==> a[k] != b[k])
  }

  /** strcmp is negative exactly for names in the order of their bytes. */
  lemma {:induction false} StrCmpIsPrecedes(a: Name, b: Name)
    ensures StrCmp(a, b) < 0 <==> Precedes(a, b)
  {
    if a == [] || b == [] || a[0] != b[0] {
      if StrCmp(a, b) < 0 { assert PartsAt(a, b, 0); }
      forall k: nat | PartsAt(a, b, k) ensures k == 0 {
        if k > 0 { HeadsAgree(a, b, k); }
      }
    } else {
      var s, t := a[1..], b[1..];
      StrCmpIsPrecedes(s, t);
      if Precedes(s, t) {
        var k: nat :| PartsAt(s, t, k) && (k == |s| || s[k] < t[k]);
        PartsBehind(a, b, k);
        assert PartsAt(a, b, k + 1);
      }
      if Precedes(a, b) {
        var k: nat :| PartsAt(a, b, k) && (k == |a| || a[k] < b[k]);
        assert k > 0;
        PartsBehind(a, b, k - 1);
        assert PartsAt(s, t, k - 1);
      }
    }
  }

  lemma HeadsAgree(a: Name, b: Name, k: nat)
    requires k > 0 && PartsAt(a, b, k)
    ensures a != [] && b != [] && a[0] == b[0]
  {
    assert a[..k][0] == b[..k][0];
  }

  lemma PartsBehind(a: Name, b: Name, k: nat)
    requires a != [] && b != [] && a[0] == b[0]
    ensures PartsAt(a, b, k + 1) <==> PartsAt(a[1..], b[1..], k)
  {
    if k + 1 <= |a| && k + 1 <= |b| {
      assert a[..k + 1] == [a[0]] + a[1..][..k] && b[..k + 1] == [b[0]] + b[1..][..k];
      if a[..k + 1] == b[..k + 1] { assert a[1..][..k] == a[..k + 1][1..] == b[..k + 1][1..] == b[1..][..k]; }
    }
  }

  /** strcmp orders names totally, and ties only equal ones. */
  lemma {:induction false} StrCmpOrders(a: Name, b: Name)
    ensures StrCmp(a, b) == -StrCmp(b, a)
    ensures StrCmp(a, b) == 0 <==> a == b
  {
    if a != [] && b != [] {
      StrCmpOrders(a[1..], b[1..]);
      assert a == [a[0]] + a[1..] && b == [b[0]] + b[1..];
    }
  }

  lemma {:induction false} StrCmpTransitive(a: Name, b: Name, c: Name)
    requires StrCmp(a, b) <= 0 && StrCmp(b, c) <= 0
    ensures StrCmp(a, c) <= 0
  {
    if a != [] && b != [] && c != [] && a[0] == b[0] == c[0] {
      StrCmpTransitive(a[1..], b[1..], c[1..]);
    }
  }
}
