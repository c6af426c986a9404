/** Whole runs of the counters of src/stats.c, against sums over what happened. */
module StatsRuns {
  import opened Segments
  import opened Stats

  // ----- enqueuer

  /** What can happen to the enqueuer's counters. */
  datatype Arrival = Came(bytes: int) | TakenBack(bytes: int) | SocketError | Reports(now: nat)

  function BytesIn(trace: seq<Arrival>): int {
    if trace == [] then 0
    else
      BytesIn(Init(trace)) + match Last(trace)
                             case Came(bytes) => bytes
                             case TakenBack(bytes) => -bytes
                             case _ => 0
  }

  function PacketsIn(trace: seq<Arrival>): int {
    if trace == [] then 0
    else PacketsIn(Init(trace)) + if Last(trace).Came? then 1 else if Last(trace).TakenBack? then -1 else 0
  }

  function ErrorsIn(trace: seq<Arrival>): int {
    if trace == [] then 0 else ErrorsIn(Init(trace)) + if Last(trace).SocketError? then 1 else 0
  }

  /** What has happened since the last report. */
  function Since(trace: seq<Arrival>): seq<Arrival> {
    if trace == [] || Last(trace).Reports? then [] else Since(Init(trace)) + [Last(trace)]
  }

  /** When the current period began. */
  function PeriodStart(start: nat, trace: seq<Arrival>): nat {
    if trace == [] then start
    else if Last(trace).Reports? then Last(trace).now else PeriodStart(start, Init(trace))
  }

  /** The figures that a report at this point shows. */
  function Figures(start: nat, trace: seq<Arrival>): Est {
    var period := Since(trace);
    Est(ErrorsIn(period), BytesIn(trace), BytesIn(period), PacketsIn(trace), PacketsIn(period), PeriodStart(start, trace))
  }

  function ReportsOf(start: nat, trace: seq<Arrival>): seq<Est> {
    if trace == [] then []
    else ReportsOf(start, Init(trace)) + if Last(trace).Reports? then [Figures(start, Init(trace))] else []
  }

  /** The period figures of all reports, added up. */
  function SumOf(reports: seq<Est>): (int, int, int) {
    if reports == [] then (0, 0, 0)
    else
      var (errors, bytes, packets) := SumOf(Init(reports));
      (errors + Last(reports).errors, bytes + Last(reports).bytesSince, packets + Last(reports).packetsSince)
  }

  lemma SinceNext(period: seq<Arrival>, a: Arrival)
    ensures BytesIn(period + [a]) == BytesIn(period) + BytesIn([a])
    ensures PacketsIn(period + [a]) == PacketsIn(period) + PacketsIn([a])
    ensures ErrorsIn(period + [a]) == ErrorsIn(period) + ErrorsIn([a])
  {
    assert Init(period + [a]) == period && Last(period + [a]) == a;
    assert Init([a]) == [] && Last([a]) == a;
  }

  lemma SumNext(reports: seq<Est>, e: Est)
    ensures var (errors, bytes, packets) := SumOf(reports);
            SumOf(reports + [e]) == (errors + e.errors, bytes + e.bytesSince, packets + e.packetsSince)
  {
    assert Init(reports + [e]) == reports;
  }

  /** All that came, less what was taken back, is in the reports and the current period. */
  lemma {:induction false} ArrivalsConserved(start: nat, trace: seq<Arrival>)
    ensures var (errors, bytes, packets) := SumOf(ReportsOf(start, trace));
            && ErrorsIn(trace) == errors + Figures(start, trace).errors
            && BytesIn(trace) == bytes + Figures(start, trace).bytesSince
            && PacketsIn(trace) == packets + Figures(start, trace).packetsSince
  {
    if trace != [] {
      var init, a := Init(trace), Last(trace);
      ArrivalsConserved(start, init);
      SinceNext(Since(init), a);
      SinceNext(init, a);
      assert trace == init + [a];
      if a.Reports? {
        SumNext(ReportsOf(start, init), Figures(start, init));
      } else {
        assert ReportsOf(start, init) + [] == ReportsOf(start, init);
      }
    }
  }

  /** What one event does to the figures. */
  function Moved(f: Est, a: Arrival): Est {
    match a
    case Came(bytes) => Received(f, bytes, 1)
    case TakenBack(bytes) => Received(f, -bytes, -1)
    case SocketError => f.(errors := f.errors + 1)
    case Reports(now) => Reported(f, now)
  }

  /** One event at the class; returns what it reports. */
  method Move(st: EnqueuerStats, a: Arrival) returns (reports: seq<Est>)
    modifies st
    ensures st.View() == Moved(old(st.View()), a) && reports == if a.Reports? then [old(st.View())] else []
  {
    reports := [];
    match a
    case Came(bytes) => st.RecordDatagram(bytes);
    case TakenBack(bytes) => st.EraseDatagram(bytes);
    case SocketError => st.RecordSocketError();
    case Reports(now) =>
      var report := st.Rotate(now);
      reports := [report];
  }

  /** The figures and reports after one more event. */
  lemma {:induction false} FiguresNext(start: nat, trace: seq<Arrival>, a: Arrival)
    ensures ReportsOf(start, trace + [a]) == ReportsOf(start, trace) + if a.Reports? then [Figures(start, trace)] else []
    ensures Figures(start, trace + [a]) == Moved(Figures(start, trace), a)
  {
    SinceNext(Since(trace), a);
    SinceNext(trace, a);
    assert Init(trace + [a]) == trace && Last(trace + [a]) == a;
    assert Init([a]) == [] && Last([a]) == a;
  }

  /** For every trace the class counts and reports the sums over the trace. */
  method RunEnqueuer(trace: seq<Arrival>, start: nat) returns (st: EnqueuerStats, reports: seq<Est>)
    ensures st.View() == Figures(start, trace) && reports == ReportsOf(start, trace)
  {
    st := new EnqueuerStats(start);
    reports := [];
    for i := 0 to |trace|
      invariant st.View() == Figures(start, trace[..i]) && reports == ReportsOf(start, trace[..i]) && fresh(st)
    {
      assert trace[..i + 1] == trace[..i] + [trace[i]];
      FiguresNext(start, trace[..i], trace[i]);
      var more := Move(st, trace[i]);
      reports := reports + more;
    }
    assert trace[..|trace|] == trace;
  }

  // ----- dequeuer

  /** Counters and times after a trace. */
  function StateAfter(start: nat, trace: seq<Event>): DstState {
    DstState(Counters(trace), ClockAfter(start, trace))
  }

  function DstReportsOf(start: nat, trace: seq<Event>): seq<DstState> {
    if trace == [] then []
    else DstReportsOf(start, Init(trace)) + if Last(trace).Rotate? then [StateAfter(start, Init(trace))] else []
  }

  method Note(st: DequeuerStats, ghost start: nat, ghost trace: seq<Event>, e: Event) returns (reports: seq<DstState>)
    requires st.State() == StateAfter(start, trace)
    modifies st
    ensures st.State() == StateAfter(start, trace + [e])
    ensures DstReportsOf(start, trace + [e]) == DstReportsOf(start, trace) + reports
  {
    assert Init(trace + [e]) == trace && Last(trace + [e]) == e;
    reports := [];
    match e
    case Record(bytes, pending, now) => st.RecordPacket(bytes, pending, now);
    case Loss => st.RecordLoss();
    case Command => st.NoteCommand();
    case Rotate(now) =>
      var report := st.RotatePeriod(now);
      reports := [report];
  }

  /** For every trace the class has the counters and times that the trace determines,
      and has reported those that the trace determined at each rotation. */
  method RunDequeuer(trace: seq<Event>, start: nat) returns (st: DequeuerStats, reports: seq<DstState>)
    ensures st.State() == StateAfter(start, trace) && reports == DstReportsOf(start, trace)
  {
    st := new DequeuerStats(start);
    reports := [];
    for i := 0 to |trace|
      invariant st.State() == StateAfter(start, trace[..i]) && fresh(st)
      invariant reports == DstReportsOf(start, trace[..i])
    {
      assert trace[..i + 1] == trace[..i] + [trace[i]];
      var more := Note(st, start, trace[..i], trace[i]);
      reports := reports + more;
    }
    assert trace[..|trace|] == trace;
  }
}
