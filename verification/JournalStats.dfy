/** src/lwes-journal-stats.c: the hash table of rows, the read loop, the report. */
module JournalStats {
  import opened Tally
  import opened Links
  import opened MergeSpec
  import opened Chains
  import opened HashTable
  import opened Marshal
  import opened Records

  /** unmarshall_SHORT_STRING on a payload: the event name in front, if there is one. */
  datatype Parsed = Named(name: Name) | Unreadable

  /** The events that the loop counts: it ends at the first unreadable name. */
  function EventsOf(recs: seq<Record>, nameOf: seq<Byte> -> Parsed): seq<Event> {
    if recs == [] then []
    else match nameOf(recs[0].payload)
      case Unreadable => []
      case Named(name) => [Event(name, |recs[0].payload|)] + EventsOf(recs[1..], nameOf)
  }

  ghost predicate AllReadable(recs: seq<Record>, nameOf: seq<Byte> -> Parsed) {
    forall i | 0 <= i < |recs| :: nameOf(recs[i].payload).Named?
  }

  /** The loop has counted the events `seen`; the records `rest` are unread. */
  ghost predicate Counting(recs: seq<Record>, nameOf: seq<Byte> -> Parsed, seen: seq<Event>, rest: seq<Record>) {
    && seen + EventsOf(rest, nameOf) == EventsOf(recs, nameOf)
    && (AllReadable(rest, nameOf) <==> AllReadable(recs, nameOf))
  }

  lemma CountingNext(recs: seq<Record>, nameOf: seq<Byte> -> Parsed, seen: seq<Event>, rest: seq<Record>)
    requires Counting(recs, nameOf, seen, rest) && rest != []
    ensures var parsed := nameOf(rest[0].payload);
            if parsed.Unreadable? then seen == EventsOf(recs, nameOf) && !AllReadable(recs, nameOf)
            else Counting(recs, nameOf, seen + [Event(parsed.name, |rest[0].payload|)], rest[1..])
  {
    var parsed := nameOf(rest[0].payload);
    if parsed.Named? {
      var e := Event(parsed.name, |rest[0].payload|);
      assert rest == [rest[0]] + rest[1..];
      assert EventsOf(rest, nameOf) == [e] + EventsOf(rest[1..], nameOf);
      assert seen + ([e] + EventsOf(rest[1..], nameOf)) == seen + [e] + EventsOf(rest[1..], nameOf);
      assert forall i | 0 <= i < |rest| - 1 :: rest[1..][i] == rest[i + 1];
      assert AllReadable(rest, nameOf) <==> AllReadable(rest[1..], nameOf) by {
        forall i | 1 <= i < |rest| ensures rest[i] == rest[1..][i - 1] {}
      }
    }
  }

  type Entry = Node<Name, Row>

  function Keys(s: seq<Entry>): seq<Name> {
    seq(|s|, i requires 0 <= i < |s| => s[i].key)
  }

  lemma KeysIn(s: seq<Entry>, name: Name)
    ensures name in Keys(s) <==> exists n | n in s :: n.key == name
  {
    assert forall i | 0 <= i < |s| :: Keys(s)[i] == s[i].key;
  }

  lemma KeysSnoc(s: seq<Entry>, n: Entry)
    ensures Keys(s + [n]) == Keys(s) + [n.key]
  {
  }

  /** name_sort */
  function NameSort(a: Entry, b: Entry): int { StrCmp(a.key, b.key) }

  datatype Line = Line(name: Name, row: Row)

  ghost predicate Ascending(names: seq<Name>) {
    forall i, j | 0 <= i < j < |names| :: Precedes(names[i], names[j])
  }

  ghost predicate SameNames(a: seq<Name>, b: seq<Name>) {
    forall name :: name in a <==> name in b
  }

  function LineNames(lines: seq<Line>): seq<Name> {
    seq(|lines|, i requires 0 <= i < |lines| => lines[i].name)
  }

  /** The report on the events seen: one line per name, in the order of strcmp. */
  ghost predicate Reports(lines: seq<Line>, total: Row, seen: seq<Event>) {
    && Ascending(LineNames(lines))
    && (forall name :: name in LineNames(lines) <==> exists i | 0 <= i < |seen| :: seen[i].name == name)
    && (forall i | 0 <= i < |lines| :: Summarises(lines[i].row, SizesOf(seen, lines[i].name)))
    && Summarises(total, Sizes(seen))
  }

  /** The lines and the total after the first |lines| of the names in this order. */
  ghost predicate Printed(lines: seq<Line>, total: Row, names: seq<Name>, seen: seq<Event>) {
    && |lines| <= |names| && total == TotalOf(seen, names[..|lines|])
    && forall i | 0 <= i < |lines| :: lines[i] == Line(names[i], RowOf(SizesOf(seen, names[i])))
  }

  lemma PrintedNext(lines: seq<Line>, total: Row, names: seq<Name>, seen: seq<Event>)
    requires Printed(lines, total, names, seen) && |lines| < |names|
    ensures var name := names[|lines|];
            var row := RowOf(SizesOf(seen, name));
            Printed(lines + [Line(name, row)], AddUp(total, row), names, seen)
  {
    var k, name := |lines|, names[|lines|];
    var lines' := lines + [Line(name, RowOf(SizesOf(seen, name)))];
    TotalTake(seen, names, k);
    forall i | 0 <= i < |lines'| ensures lines'[i] == Line(names[i], RowOf(SizesOf(seen, names[i]))) {
      assert i < k ==> lines'[i] == lines[i];
    }
  }

  /** The row of each entry is that of the events seen of its name. */
  ghost predicate Counted(s: seq<Entry>, seen: seq<Event>)
    reads s`val
  {
    forall n | n in s :: n.val == RowOf(SizesOf(seen, n.key))
  }

  lemma CountedWithin(r: seq<Entry>, s: seq<Entry>, seen: seq<Event>)
    requires Counted(s, seen) && forall n | n in r :: n in s
    ensures Counted(r, seen)
  {
  }

  lemma CountedNext(app: seq<Entry>, seen: seq<Event>, e: Event, s: Entry)
    requires Counted(app, seen) && UniqueKeys(app) && s in app && s.key == e.name
    ensures forall n | n in app :: RowOf(SizesOf(seen + [e], n.key)) == if n == s then Include(s.val, e.size) else n.val
  {
    forall n | n in app
      ensures RowOf(SizesOf(seen + [e], n.key)) == if n == s then Include(s.val, e.size) else n.val
    {
      RowNext(seen, e, n.key);
    }
  }

  class EventStats {
    const stats: Table<Name, Row>
    ghost var seen: seq<Event>

    /** Every event seen is counted in the row of its name. */
    ghost predicate Tracked()
      reads this`seen, stats`app, stats.app`val
    {
      Keys(stats.app) == Names(seen) && Counted(stats.app, seen)
    }

    ghost predicate Valid()
      reads this, stats, stats.buckets, stats.app
    {
      stats.Valid() && Tracked()
    }

    constructor (hash: Name -> nat)
      ensures Valid() && seen == [] && fresh(stats) && fresh(stats.buckets) && stats.app == []
    {
      stats := new Table(hash);
      seen := [];
    }

    /** HASH_FIND_STR, and HASH_ADD_STR of an empty row when there is none. */
    method FindOrAdd(name: Name) returns (s: Entry)
      requires Valid()
      modifies stats, stats.buckets, stats.app
      ensures stats.Valid() && s in stats.app && s.key == name
      ensures Keys(stats.app) == if name in Names(seen) then Names(seen) else Names(seen) + [name]
      ensures Counted(stats.app, seen)
      ensures stats.buckets == old(stats.buckets) || fresh(stats.buckets)
      ensures forall n | n in stats.app :: n in old(stats.app) || fresh(n)
    {
      KeysIn(stats.app, name);
      var found := stats.Find(name);
      if found != null {
        s := found;
        return;
      }
      s := AddRow(name);
    }

    method AddRow(name: Name) returns (s: Entry)
      requires Valid() && (forall n | n in stats.app :: n.key != name) && name !in Names(seen)
      modifies stats, stats.buckets, stats.app
      ensures stats.Valid() && s in stats.app && s.key == name
      ensures Keys(stats.app) == Names(seen) + [name]
      ensures Counted(stats.app, seen)
      ensures stats.buckets == old(stats.buckets) || fresh(stats.buckets)
      ensures forall n | n in stats.app :: n in old(stats.app) || fresh(n)
    {
      NamesExact(seen, name);
      ghost var app := stats.app;
      s := AddEmpty(name);
      KeysSnoc(app, s);
    }

    method AddEmpty(name: Name) returns (s: Entry)
      requires stats.Valid() && (forall n | n in stats.app :: n.key != name)
      requires Counted(stats.app, seen) && SizesOf(seen, name) == []
      modifies stats, stats.buckets, stats.app
      ensures stats.Valid() && stats.app == old(stats.app) + [s] && fresh(s) && s.key == name
      ensures Counted(stats.app, seen)
      ensures stats.buckets == old(stats.buckets) || fresh(stats.buckets)
    {
      s := new Node(name, NO_EVENTS);
      Insert(s);
    }

    /** HASH_ADD_STR leaves the rows alone. */
    method Insert(s: Entry)
      requires stats.Valid() && s !in stats.app && (forall n | n in stats.app :: n.key != s.key)
      requires Counted(stats.app, seen) && SizesOf(seen, s.key) == [] && s.val == NO_EVENTS
      modifies stats, stats.buckets, stats.app, s
      ensures stats.Valid() && stats.app == old(stats.app) + [s]
      ensures Counted(stats.app, seen)
      ensures stats.buckets == old(stats.buckets) || fresh(stats.buckets)
    {
      stats.Add(s);
    }

    /** upsert_stats */
    method UpsertStats(name: Name, size: nat)
      requires Valid()
      modifies this`seen, stats, stats.buckets, stats.app
      ensures Valid() && seen == old(seen) + [Event(name, size)]
      ensures stats.buckets == old(stats.buckets) || fresh(stats.buckets)
      ensures forall n | n in stats.app :: n in old(stats.app) || fresh(n)
    {
      var s := FindOrAdd(name);
      Count(s, size);
    }

    method Count(s: Entry, size: nat)
      requires stats.Valid() && s in stats.app
      requires Keys(stats.app) == if s.key in Names(seen) then Names(seen) else Names(seen) + [s.key]
      requires Counted(stats.app, seen)
      modifies this`seen, s`val
      ensures Valid() && seen == old(seen) + [Event(s.key, size)]
    {
      ghost var e := Event(s.key, size);
      NamesNext(seen, e);
      CountedNext(stats.app, seen, e, s);
      SetRow(s, Include(s.val, size));
      seen := seen + [e];
    }

    method SetRow(s: Entry, row: Row)
      requires stats.Valid()
      modifies s`val
      ensures stats.Valid() && s.val == row
    {
      s.val := row;
    }

    /** One round of the read loop of main: it counts an event, or sets ret and ends the loop. */
    method ReadEvent(input: seq<Byte>, pos: nat, nameOf: seq<Byte> -> Parsed,
                     ghost recs: seq<Record>, ghost rest: seq<Record>, ghost end: End)
      returns (more: bool, pos': nat, ret: int)
      requires Valid() && pos <= |input| && ReadAll(input[pos..]) == (rest, end)
      requires Counting(recs, nameOf, seen, rest)
      modifies this`seen, stats, stats.buckets, stats.app
      ensures Valid() && pos' <= |input|
      ensures more ==> rest != [] && ReadAll(input[pos'..]) == (rest[1..], end) && Counting(recs, nameOf, seen, rest[1..])
      ensures !more ==> seen == EventsOf(recs, nameOf) && (ret == 0 <==> end.AtEnd? && AllReadable(recs, nameOf))
      ensures stats.buckets == old(stats.buckets) || fresh(stats.buckets)
      ensures forall n | n in stats.app :: n in old(stats.app) || fresh(n)
    {
      more, ret := false, 0;
      var status, header, payload;
      status, header, payload, pos' := ReadRecord(input, pos);
      if status.NoHeader? {
      } else if status.ShortPayload? {
        ret := 1;
      } else {
        CountingNext(recs, nameOf, seen, rest);
        var parsed := nameOf(payload);
        if parsed.Unreadable? {
          ret := 1;
        } else {
          UpsertStats(parsed.name, |payload|);
          more := true;
        }
      }
    }

    /** The read loop of main. */
    method ReadEvents(input: seq<Byte>, nameOf: seq<Byte> -> Parsed) returns (ret: int)
      requires Valid() && seen == []
      modifies this`seen, stats, stats.buckets, stats.app
      ensures Valid() && seen == EventsOf(ReadAll(input).0, nameOf)
      ensures ret == 0 <==> ReadAll(input).1.AtEnd? && AllReadable(ReadAll(input).0, nameOf)
      ensures stats.buckets == old(stats.buckets) || fresh(stats.buckets)
      ensures forall n | n in stats.app :: n in old(stats.app) || fresh(n)
    {
      ghost var recs, end := ReadAll(input).0, ReadAll(input).1;
      ghost var rest := recs;
      assert input[0..] == input;
      var pos: nat, more := 0, true;
      ret := 0;
      while more
        invariant Valid() && pos <= |input|
        invariant more ==> ReadAll(input[pos..]) == (rest, end) && Counting(recs, nameOf, seen, rest)
        invariant !more ==> seen == EventsOf(recs, nameOf) && (ret == 0 <==> end.AtEnd? && AllReadable(recs, nameOf))
        invariant stats.buckets == old(stats.buckets) || fresh(stats.buckets)
        invariant forall n | n in stats.app :: n in old(stats.app) || fresh(n)
        decreases more, |rest|
      {
        more, pos, ret := ReadEvent(input, pos, nameOf, recs, rest, end);
        rest := if more then rest[1..] else rest;
      }
    }

    /** The rows in the order of strcmp. */
    ghost predicate InOrder()
      reads this`seen, stats`app, stats.app`val
    {
      && Ascending(Keys(stats.app))
      && SameNames(Keys(stats.app), Names(seen))
      && Counted(stats.app, seen)
    }

    /** HASH_SORT by name_sort. */
    method SortByName()
      requires Valid()
      modifies stats`head, stats`tail, stats`app, stats.app
      ensures stats.Valid() && InOrder() && Elements(stats.app) == Elements(old(stats.app))
    {
      ghost var app := stats.app;
      ghost var sorted := SortFrom(NameSort, app, 1);
      SortedByName(app);
      SortRows();
      assert stats.app == sorted;
      CountedWithin(sorted, app, seen);
    }

    method SortRows()
      requires stats.Valid() && Counted(stats.app, seen)
      modifies stats`head, stats`tail, stats`app, stats.app
      ensures stats.Valid() && stats.app == SortFrom(NameSort, old(stats.app), 1)
      ensures Counted(old(stats.app), seen) && Elements(stats.app) == Elements(old(stats.app))
    {
      stats.Sort(NameSort);
    }

    /** The loop of print_stats over the sorted table. */
    method PrintLines() returns (lines: seq<Line>, total: Row)
      requires stats.Valid() && InOrder()
      ensures Reports(lines, total, seen)
    {
      lines, total := [], NO_EVENTS;
      ghost var names := Keys(stats.app);
      var s := stats.head;
      while s != null
        invariant |lines| <= |stats.app| && s == if |lines| < |stats.app| then stats.app[|lines|] else null
        invariant Printed(lines, total, names, seen)
        decreases |stats.app| - |lines|
      {
        ghost var k := |lines|;
        assert s in stats.app && s.key == names[k];
        PrintedNext(lines, total, names, seen);
        lines := lines + [Line(s.key, s.val)];
        total := AddUp(total, s.val);
        s := NextEntry(s, k);
      }
      ReportIs(lines, total, names, seen);
    }

    method NextEntry(s: Entry, ghost k: nat) returns (next: Node?<Name, Row>)
      requires stats.Valid() && k < |stats.app| && s == stats.app[k]
      ensures next == if k + 1 < |stats.app| then stats.app[k + 1] else null
    {
      NeighboursInList(stats.head, stats.app, k);
      next := s.next;
    }

    /** print_stats: the report, after which the table is emptied. */
    method PrintStats() returns (lines: seq<Line>, total: Row)
      requires Valid()
      modifies stats, stats.buckets, stats.app
      ensures Reports(lines, total, seen)
      ensures stats.Valid() && stats.app == [] && stats.head == null
    {
      SortByName();
      lines, total := PrintLines();
      var freed := stats.DeleteAll();
    }
  }

  /** Sorting by name leaves the same entries in strictly ascending order. */
  lemma SortedByName(s: seq<Entry>)
    requires UniqueKeys(s)
    ensures var r := SortFrom(NameSort, s, 1);
            && Ascending(Keys(r))
            && (forall n :: n in r <==> n in s)
            && SameNames(Keys(r), Keys(s))
  {
    var r := SortFrom(NameSort, s, 1);
    NamesPreorder(s);
    SortCorrect(NameSort, s);
    PermutedKeys(s, r);
    assert forall n :: n in r <==> n in Elements(r);
    assert forall n :: n in s <==> n in Elements(s);
    forall i, j | 0 <= i < j < |r| ensures Precedes(r[i].key, r[j].key) {
      assert NameSort(r[i], r[j]) <= 0;
      StrCmpOrders(r[i].key, r[j].key);
      StrCmpIsPrecedes(r[i].key, r[j].key);
    }
    forall name ensures name in Keys(r) <==> name in Keys(s) {
      KeysIn(r, name);
      KeysIn(s, name);
    }
  }

  lemma NamesPreorder(s: seq<Entry>)
    ensures Preorder(NameSort, s)
  {
    forall x, y | x in s && y in s ensures NameSort(x, y) <= 0 || NameSort(y, x) <= 0 {
      StrCmpOrders(x.key, y.key);
    }
    forall x, y, z | x in s && y in s && z in s && NameSort(x, y) <= 0 && NameSort(y, z) <= 0
      ensures NameSort(x, z) <= 0
    {
      StrCmpTransitive(x.key, y.key, z.key);
    }
  }

  /** Printed for all the names, in strictly ascending order, the lines are the report. */
  lemma ReportIs(lines: seq<Line>, total: Row, names: seq<Name>, seen: seq<Event>)
    requires Printed(lines, total, names, seen) && |lines| == |names| && Ascending(names)
    requires SameNames(names, Names(seen))
    ensures Reports(lines, total, seen)
  {
    assert LineNames(lines) == names == names[..|lines|];
    forall name ensures name in Names(seen) <==> exists i | 0 <= i < |seen| :: seen[i].name == name {
      NamesExact(seen, name);
    }
    forall i | 0 <= i < |lines| ensures Summarises(lines[i].row, SizesOf(seen, lines[i].name)) {
      RowExact(SizesOf(seen, lines[i].name));
    }
    forall i, j | 0 <= i < j < |names| ensures names[i] != names[j] {
      StrCmpIsPrecedes(names[i], names[j]);
      StrCmpOrders(names[i], names[j]);
    }
    TotalExact(seen, names);
  }

  /** main, from the open journal on: the loop counts, then the report is printed. */
  method CountJournal(input: seq<Byte>, nameOf: seq<Byte> -> Parsed, hash: Name -> nat)
    returns (lines: seq<Line>, total: Row, ret: int)
    ensures Reports(lines, total, EventsOf(ReadAll(input).0, nameOf))
    ensures ret == 0 <==> ReadAll(input).1.AtEnd? && AllReadable(ReadAll(input).0, nameOf)
  {
    var c := new EventStats(hash);
    ret := c.ReadEvents(input, nameOf);
    lines, total := c.PrintStats();
  }
}
