/** The counters of src/stats.c. */
module Stats {
  import opened Segments
  import opened Extrema

  // ----- enqueuer

  datatype Est = Est(errors: int, bytesTotal: int, bytesSince: int, packetsTotal: int, packetsSince: int, lastRotate: nat)

  class EnqueuerStats {
    var socketErrorsSinceLastRotate: int
    var bytesReceivedTotal: int
    var bytesReceivedSinceLastRotate: int
    var packetsReceivedTotal: int
    var packetsReceivedSinceLastRotate: int
    var lastRotate: nat

    function View(): Est
      reads this
    {
      Est(socketErrorsSinceLastRotate, bytesReceivedTotal, bytesReceivedSinceLastRotate,
          packetsReceivedTotal, packetsReceivedSinceLastRotate, lastRotate)
    }

    constructor (now: nat)
      ensures View() == Est(0, 0, 0, 0, 0, now)
    {
      lastRotate := now;
      socketErrorsSinceLastRotate, bytesReceivedTotal, bytesReceivedSinceLastRotate := 0, 0, 0;
      packetsReceivedTotal, packetsReceivedSinceLastRotate := 0, 0;
    }

    method RecordSocketError()
      modifies this
      ensures View() == old(View()).(errors := old(View()).errors + 1)
    {
      socketErrorsSinceLastRotate := socketErrorsSinceLastRotate + 1;
    }

    method RecordDatagram(bytes: int)
      modifies this
      ensures View() == Received(old(View()), bytes, 1)
    {
      bytesReceivedSinceLastRotate := bytesReceivedSinceLastRotate + bytes;
      bytesReceivedTotal := bytesReceivedTotal + bytes;
      packetsReceivedSinceLastRotate := packetsReceivedSinceLastRotate + 1;
      packetsReceivedTotal := packetsReceivedTotal + 1;
    }

    method EraseDatagram(bytes: int)
      modifies this
      ensures View() == Received(old(View()), -bytes, -1)
    {
      bytesReceivedSinceLastRotate := bytesReceivedSinceLastRotate - bytes;
      bytesReceivedTotal := bytesReceivedTotal - bytes;
      packetsReceivedSinceLastRotate := packetsReceivedSinceLastRotate - 1;
      packetsReceivedTotal := packetsReceivedTotal - 1;
    }

    /** Returns what it reports, then starts a new period. */
    method Rotate(now: nat) returns (report: Est)
      modifies this
      ensures report == old(View())
      ensures View() == Reported(old(View()), now)
    {
      report := View();
      lastRotate := now;
      socketErrorsSinceLastRotate := 0;
      bytesReceivedSinceLastRotate := 0;
      packetsReceivedSinceLastRotate := 0;
    }
  }

  /** A new period: the totals stay. */
  function Reported(e: Est, now: nat): Est { e.(errors := 0, bytesSince := 0, packetsSince := 0, lastRotate := now) }

  function Received(e: Est, bytes: int, packets: int): Est {
    e.(bytesTotal := e.bytesTotal + bytes, bytesSince := e.bytesSince + bytes,
       packetsTotal := e.packetsTotal + packets, packetsSince := e.packetsSince + packets)
  }

  // ----- dequeuer

  datatype Dst = Dst(loss: int, bytesTotal: int, bytesSince: int, packetsTotal: int, packetsSince: int,
                     bytesBurst: int, packetsBurst: int, hiq: int, hiqSince: int,
                     bytesBurstSince: int, packetsBurstSince: int)

  const DST_ZERO := Dst(0, 0, 0, 0, 0, 0, 0, 0, 0, 0, 0)

  /** What can happen to the dequeuer's counters. */
  datatype Event = Record(bytes: int, pending: int, now: nat) | Loss | Command | Rotate(now: nat)

  /** hiq_start, hiq_last, last_rotate, and whether rotation_type says that a
      command asked for the rotation. */
  datatype Clock = Clock(hiqStart: nat, hiqLast: nat, lastRotate: nat, byEvent: bool)

  datatype DstState = DstState(counters: Dst, times: Clock)

  class DequeuerStats {
    var lossSinceLastRotate: int
    var bytesWrittenTotal: int
    var bytesWrittenSinceLastRotate: int
    var packetsWrittenTotal: int
    var packetsWrittenSinceLastRotate: int
    var bytesWrittenInBurst: int
    var packetsWrittenInBurst: int
    var hiq: int
    var hiqSinceLastRotate: int
    var bytesWrittenInBurstSinceLastRotate: int
    var packetsWrittenInBurstSinceLastRotate: int
    var hiqStart: nat
    var hiqLast: nat
    var lastRotate: nat
    var byEvent: bool

    function Times(): Clock
      reads this
    {
      Clock(hiqStart, hiqLast, lastRotate, byEvent)
    }

    function View(): Dst
      reads this
    {
      Dst(lossSinceLastRotate, bytesWrittenTotal, bytesWrittenSinceLastRotate,
          packetsWrittenTotal, packetsWrittenSinceLastRotate, bytesWrittenInBurst, packetsWrittenInBurst,
          hiq, hiqSinceLastRotate, bytesWrittenInBurstSinceLastRotate, packetsWrittenInBurstSinceLastRotate)
    }

    /** All that a report shows. */
    function State(): DstState
      reads this
    {
      DstState(View(), Times())
    }

    constructor (now: nat)
      ensures View() == DST_ZERO && Times() == ClockAt(now)
    {
      hiqStart, hiqLast, lastRotate, byEvent := now, 0, now, false;
      lossSinceLastRotate, bytesWrittenTotal, bytesWrittenSinceLastRotate := 0, 0, 0;
      packetsWrittenTotal, packetsWrittenSinceLastRotate := 0, 0;
      bytesWrittenInBurst, packetsWrittenInBurst, hiq, hiqSinceLastRotate := 0, 0, 0, 0;
      bytesWrittenInBurstSinceLastRotate, packetsWrittenInBurstSinceLastRotate := 0, 0;
    }

    method RecordPacket(bytes: int, pending: int, now: nat)
      modifies this
      ensures View() == After(old(View()), Record(bytes, pending, now))
      ensures Times() == ClockNext(old(Times()), old(View()), Record(bytes, pending, now))
    {
      bytesWrittenSinceLastRotate := bytesWrittenSinceLastRotate + bytes;
      bytesWrittenTotal := bytesWrittenTotal + bytes;
      packetsWrittenSinceLastRotate := packetsWrittenSinceLastRotate + 1;
      packetsWrittenTotal := packetsWrittenTotal + 1;
      TrackBurst(bytes, pending, now);
      if hiq > hiqSinceLastRotate {
        hiqSinceLastRotate := hiq;
      }
    }

    /** The burst part of dequeuer_stats_record. */
    method TrackBurst(bytes: int, pending: int, now: nat)
      modifies this
      ensures View() == Bursted(old(View()), bytes, pending)
      ensures Times() == ClockNext(old(Times()), old(View()), Record(bytes, pending, now))
    {
      if pending == 0 {
        if hiq != 0 {
          bytesWrittenInBurstSinceLastRotate := bytesWrittenInBurst;
          packetsWrittenInBurstSinceLastRotate := packetsWrittenInBurst;
          hiq := 0;
          bytesWrittenInBurst := 0;
          packetsWrittenInBurst := 0;
        }
      } else {
        if hiq == 0 {
          hiqLast := hiqStart;
          hiqStart := now;
        }
        if pending > hiq {
          hiq := pending;
        }
        bytesWrittenInBurst := bytesWrittenInBurst + bytes;
        packetsWrittenInBurst := packetsWrittenInBurst + 1;
      }
    }

    method RecordLoss()
      modifies this
      ensures View() == After(old(View()), Loss) && Times() == old(Times())
    {
      lossSinceLastRotate := lossSinceLastRotate + 1;
    }

    /** The assignment to rotation_type when a rotate command has come. */
    method NoteCommand()
      modifies this
      ensures View() == After(old(View()), Command) && Times() == ClockNext(old(Times()), old(View()), Command)
    {
      byEvent := true;
    }

    /** Returns what it reports, then starts a new period. */
    method RotatePeriod(now: nat) returns (report: DstState)
      modifies this
      ensures report == old(State()) && State() == Stepped(old(State()), Rotate(now))
    {
      report := State();
      lastRotate, byEvent := now, false;
      bytesWrittenSinceLastRotate := 0;
      packetsWrittenSinceLastRotate := 0;
      hiqSinceLastRotate := 0;
      packetsWrittenInBurstSinceLastRotate := 0;
      bytesWrittenInBurstSinceLastRotate := 0;
      lossSinceLastRotate := 0;
    }
  }

  /** The counters after one event. */
  function After(d: Dst, e: Event): Dst {
    match e
    case Loss => d.(loss := d.loss + 1)
    case Command => d
    case Rotate(_) => d.(loss := 0, bytesSince := 0, packetsSince := 0, hiqSince := 0, bytesBurstSince := 0, packetsBurstSince := 0)
    case Record(bytes, pending, _) =>
      var burst := Bursted(Counted(d, bytes), bytes, pending);
      burst.(hiqSince := Max(burst.hiq, d.hiqSince))
  }

  function Counted(d: Dst, bytes: int): Dst {
    d.(bytesTotal := d.bytesTotal + bytes, bytesSince := d.bytesSince + bytes,
       packetsTotal := d.packetsTotal + 1, packetsSince := d.packetsSince + 1)
  }

  function Bursted(d: Dst, bytes: int, pending: int): Dst {
    if pending != 0 then
      d.(hiq := Max(pending, d.hiq), bytesBurst := d.bytesBurst + bytes, packetsBurst := d.packetsBurst + 1)
    else if d.hiq != 0 then
      d.(hiq := 0, bytesBurst := 0, packetsBurst := 0, bytesBurstSince := d.bytesBurst, packetsBurstSince := d.packetsBurst)
    else d
  }

  /** The counters after a whole trace. */
  function Counters(trace: seq<Event>): Dst {
    if trace == [] then DST_ZERO else After(Counters(Init(trace)), Last(trace))
  }

  // ----- what the counters mean

  /** The current burst: the longest suffix of records with something pending;
      losses and rotations in between do not matter. */
  function Burst(trace: seq<Event>): seq<Event> {
    if trace == [] then []
    else if !Last(trace).Record? then Burst(Init(trace))
    else if Last(trace).pending == 0 then [] else Burst(Init(trace)) + [Last(trace)]
  }

  function Peak(records: seq<Event>): int {
    if records == [] then 0 else Max(if Last(records).Record? then Last(records).pending else 0, Peak(Init(records)))
  }

  function BytesOf(records: seq<Event>): int {
    if records == [] then 0 else BytesOf(Init(records)) + if Last(records).Record? then Last(records).bytes else 0
  }

  /** The queue never reports a negative number of pending messages. */
  predicate Counts(trace: seq<Event>) {
    forall i | 0 <= i < |trace| && trace[i].Record? :: trace[i].pending >= 0
  }

  /** The burst that last ended since the last rotation. */
  function Completed(trace: seq<Event>): seq<Event> {
    if trace == [] then []
    else
      match Last(trace)
      case Loss => Completed(Init(trace))
      case Command => Completed(Init(trace))
      case Rotate(_) => []
      case Record(_, pending, _) =>
        if pending == 0 && Burst(Init(trace)) != [] then Burst(Init(trace)) else Completed(Init(trace))
  }

  lemma {:induction false} PeakPositive(trace: seq<Event>)
    requires Counts(trace)
    ensures Peak(Burst(trace)) > 0 <==> Burst(trace) != []
    ensures Peak(Burst(trace)) >= 0
  {
    if trace != [] {
      PeakPositive(Init(trace));
      var b := Burst(Init(trace)) + [Last(trace)];
      assert Init(b) == Burst(Init(trace)) && Last(b) == Last(trace);
    }
  }

  /** hiq, packets and bytes in burst are the running peak, the length and the
      byte sum of the current burst, across rotations; and the burst figures of
      the period are those of the burst that ended last, not of the largest. */
  lemma {:induction false} BurstTracked(trace: seq<Event>)
    requires Counts(trace)
    ensures var d, b, f := Counters(trace), Burst(trace), Completed(trace);
            && d.hiq == Peak(b) && d.packetsBurst == |b| && d.bytesBurst == BytesOf(b)
            && d.packetsBurstSince == |f| && d.bytesBurstSince == BytesOf(f)
  {
    if trace != [] {
      BurstTracked(Init(trace));
      PeakPositive(Init(trace));
      var b := Burst(Init(trace)) + [Last(trace)];
      assert Init(b) == Burst(Init(trace)) && Last(b) == Last(trace);
    }
  }

  /** A negative pending count, which the int parameter allows, breaks this: the
      burst is never closed. */
  lemma NegativePendingBreaks(bytes: int, now: nat, later: nat)
    ensures var trace := [Record(bytes, -1, now), Record(bytes, 0, later)];
            Burst(trace) == [] && Counters(trace).packetsBurst == 1
  {
    var first, second := Record(bytes, -1, now), Record(bytes, 0, later);
    assert Init([first]) == [] && Last([first]) == first;
    assert Init([first, second]) == [first] && Last([first, second]) == second;
    assert Counters([first]) == After(DST_ZERO, first);
    assert Counters([first, second]) == After(Counters([first]), second);
  }

  /** Exactly when the burst counters follow the burst at every moment: every
      burst that is ended has had a positive pending count. */
  ghost predicate BurstsEndable(trace: seq<Event>) {
    forall n | 0 <= n < |trace| && trace[n].Record? && trace[n].pending == 0 :: Endable(trace[..n])
  }

  ghost predicate Endable(prefix: seq<Event>) {
    Burst(prefix) == [] || Peak(Burst(prefix)) > 0
  }

  ghost predicate Follows(trace: seq<Event>) {
    var d, b := Counters(trace), Burst(trace);
    d.packetsBurst == |b| && d.bytesBurst == BytesOf(b)
  }

  lemma {:induction false} HiqIsPeak(trace: seq<Event>)
    ensures Counters(trace).hiq == Peak(Burst(trace)) && Peak(Burst(trace)) >= 0
  {
    if trace != [] {
      HiqIsPeak(Init(trace));
      var b := Burst(Init(trace)) + [Last(trace)];
      assert Init(b) == Burst(Init(trace)) && Last(b) == Last(trace);
    }
  }

  lemma FollowsStep(trace: seq<Event>)
    requires trace != [] && Follows(Init(trace))
    ensures Last(trace).Record? && Last(trace).pending == 0 ==> (Follows(trace) <==> Endable(Init(trace)))
    ensures !(Last(trace).Record? && Last(trace).pending == 0) ==> Follows(trace)
  {
    HiqIsPeak(Init(trace));
    var b := Burst(Init(trace)) + [Last(trace)];
    assert Init(b) == Burst(Init(trace)) && Last(b) == Last(trace);
  }

  lemma {:induction false} FollowsIff(trace: seq<Event>)
    ensures (forall n | 0 <= n <= |trace| :: Follows(trace[..n])) <==> BurstsEndable(trace)
  {
    if trace == [] {
      assert trace[..0] == [];
    } else {
      var init := Init(trace);
      FollowsIff(init);
      assert forall n | 0 <= n <= |init| :: trace[..n] == init[..n];
      assert trace[..|trace|] == trace && trace[..|init|] == init;
      if forall n | 0 <= n <= |init| :: Follows(init[..n]) {
        assert init[..|init|] == init;
        FollowsStep(trace);
      }
    }
  }

  // ----- times

  function ClockAt(start: nat): Clock { Clock(start, 0, start, false) }

  /** The times after one event at the counters d. */
  function ClockNext(t: Clock, d: Dst, e: Event): Clock {
    match e
    case Loss => t
    case Command => t.(byEvent := true)
    case Rotate(now) => t.(lastRotate := now, byEvent := false)
    case Record(_, pending, now) => if pending != 0 && d.hiq == 0 then t.(hiqLast := t.hiqStart, hiqStart := now) else t
  }

  /** Counters and times after one event. */
  function Stepped(x: DstState, e: Event): DstState {
    DstState(After(x.counters, e), ClockNext(x.times, x.counters, e))
  }

  function ClockAfter(start: nat, trace: seq<Event>): Clock {
    if trace == [] then ClockAt(start)
    else ClockNext(ClockAfter(start, Init(trace)), Counters(Init(trace)), Last(trace))
  }

  /** When the bursts of the trace started, the current one last. */
  function BurstStarts(trace: seq<Event>): seq<nat> {
    if trace == [] then []
    else
      var e, starts := Last(trace), BurstStarts(Init(trace));
      if e.Record? && e.pending != 0 && Burst(Init(trace)) == [] then starts + [e.now] else starts
  }

  /** The time of the last rotation, and whether a command came since. */
  function LastRotation(start: nat, trace: seq<Event>): (nat, bool) {
    if trace == [] then (start, false)
    else if Last(trace).Rotate? then (Last(trace).now, false)
    else
      var (t, command) := LastRotation(start, Init(trace));
      (t, command || Last(trace).Command?)
  }

  /** hiq_start is when the latest burst started and hiq_last when the one before
      it did, across rotations. */
  lemma {:induction false} TimesTracked(start: nat, trace: seq<Event>)
    requires Counts(trace)
    ensures var t, starts := ClockAfter(start, trace), [0, start] + BurstStarts(trace);
            && t.hiqStart == starts[|starts| - 1] && t.hiqLast == starts[|starts| - 2]
            && (t.lastRotate, t.byEvent) == LastRotation(start, trace)
  {
    if trace != [] {
      TimesTracked(start, Init(trace));
      HiqIsPeak(Init(trace));
      PeakPositive(Init(trace));
    }
  }

  // ----- periods

  /** The sum of what the rotations of the trace reported. */
  function ReportedBytes(trace: seq<Event>): int {
    if trace == [] then 0
    else ReportedBytes(Init(trace)) + if Last(trace).Rotate? then Counters(Init(trace)).bytesSince else 0
  }

  function ReportedPackets(trace: seq<Event>): int {
    if trace == [] then 0
    else ReportedPackets(Init(trace)) + if Last(trace).Rotate? then Counters(Init(trace)).packetsSince else 0
  }

  function Packets(trace: seq<Event>): int {
    if trace == [] then 0 else Packets(Init(trace)) + if Last(trace).Record? then 1 else 0
  }

  /** The events since the last rotation. */
  function Period(trace: seq<Event>): seq<Event> {
    if trace == [] || Last(trace).Rotate? then [] else Period(Init(trace)) + [Last(trace)]
  }

  function Losses(trace: seq<Event>): int {
    if trace == [] then 0 else Losses(Init(trace)) + if Last(trace).Loss? then 1 else 0
  }

  /** The totals are the sums over the trace, and they are the sum of all rotation
      reports and the current period, whose figures are the sums over the events
      since the last rotation; the high-water mark of the period is the highest
      peak seen by a record since then. */
  lemma {:induction false} TotalsConserved(trace: seq<Event>)
    ensures var d, p := Counters(trace), Period(trace);
            && d.bytesTotal == BytesOf(trace) == ReportedBytes(trace) + d.bytesSince
            && d.packetsTotal == Packets(trace) == ReportedPackets(trace) + d.packetsSince
            && d.bytesSince == BytesOf(p) && d.packetsSince == Packets(p) && d.loss == Losses(p)
            && d.hiqSince == HighWater(trace)
  {
    if trace != [] {
      TotalsConserved(Init(trace));
      HiqIsPeak(trace);
      PeriodSums(Period(Init(trace)), Last(trace));
    }
  }

  lemma PeriodSums(p: seq<Event>, e: Event)
    ensures BytesOf(p + [e]) == BytesOf(p) + if e.Record? then e.bytes else 0
    ensures Packets(p + [e]) == Packets(p) + if e.Record? then 1 else 0
    ensures Losses(p + [e]) == Losses(p) + if e.Loss? then 1 else 0
  {
    assert Init(p + [e]) == p && Last(p + [e]) == e;
  }

  function HighWater(trace: seq<Event>): int {
    if trace == [] then 0
    else
      match Last(trace)
      case Loss => HighWater(Init(trace))
      case Command => HighWater(Init(trace))
      case Rotate(_) => 0
      case Record(_, _, _) => Max(Peak(Burst(trace)), HighWater(Init(trace)))
  }
}
