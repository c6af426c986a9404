/** The single-threaded journaller of src/serial_model.c. */
module Serial {
  import opened Marshal
  import opened Memory
  import opened Header
  import opened Segments
  import opened Stats
  import opened SerialSpec

  const XPORT_INTR := -2
  const TWO_64 := 0x1_0000_0000_0000_0000

  /** The conversion of an unsigned long long to the int parameter `pending`. */
  function ToInt32(x: nat): int {
    var low := x % TWO_32;
    if low < TWO_32 / 2 then low else low - TWO_32
  }

  /** It keeps the value modulo 2^32, in the range of an int. */
  lemma ToInt32Exact(x: nat, r: int)
    ensures r == ToInt32(x) <==> -0x8000_0000 <= r < 0x8000_0000 && exists k: int :: x == r + k * TWO_32
  {
    var low, q := x % TWO_32, x / TWO_32;
    assert x == low + q * TWO_32;
    if r == ToInt32(x) {
      assert x == r + (if low < TWO_32 / 2 then q else q + 1) * TWO_32;
    }
    if -0x8000_0000 <= r < 0x8000_0000 && exists k: int :: x == r + k * TWO_32 {
      var k: int :| x == r + k * TWO_32;
      assert r - low == (q - k) * TWO_32;
    }
  }

  /** No report or one. */
  type Reports<T> = seq<T>

  // ----- the counters of both sides in a round

  function Read(e: Est, event: SerialSpec.Event): Est {
    match event
    case Datagram(payload, _) => Received(e, HEADER_LENGTH + |payload|, 1)
    case Interrupted => e
    case Failed => e.(errors := e.errors + 1)
  }

  /** One record of n bytes handed to the journal, with that many pending. */
  function Handed(d: DstState, ok: bool, n: nat, pending: nat, now: nat): DstState {
    Stepped(if ok then d else Stepped(d, Loss), Record(n, ToInt32(pending), now))
  }

  function Wrote(d: DstState, inp: Input, pending: nat): DstState {
    if inp.event.Datagram? then Handed(d, inp.writeOk, HEADER_LENGTH + |inp.event.payload|, pending, inp.now) else d
  }

  /** A rotate command leaves its note. */
  function Noticed(d: DstState, inp: Input): DstState {
    if Commands(inp) then Stepped(d, Command) else d
  }

  /** Received and written totals agree. */
  predicate BalancedViews(e: Est, d: DstState) {
    e.bytesTotal == d.counters.bytesTotal && e.packetsTotal == d.counters.packetsTotal
  }

  /** Both sides report the counters e and d and start a new period if the round
      rotates, and do nothing otherwise. */
  predicate Reporting(rotates: bool, e: Est, d: DstState, now: nat, estReport: Reports<Est>, dstReport: Reports<DstState>, e': Est, d': DstState) {
    if rotates then estReport == [e] && dstReport == [d] && e' == Reported(e, now) && d' == Stepped(d, Rotate(now))
    else estReport == [] && dstReport == [] && e' == e && d' == d
  }

  lemma ReportingBalanced(rotates: bool, e: Est, d: DstState, now: nat, estReport: Reports<Est>, dstReport: Reports<DstState>, e': Est, d': DstState)
    requires BalancedViews(e, d) && Reporting(rotates, e, d, now, estReport, dstReport, e', d')
    ensures BalancedViews(e', d')
  {
  }

  /** The counters of the two sides when a round comes to its rotate test, or ends
      before: a depth test is taken back. */
  function EstIn(e: Est, inp: Input, goesOn: bool): Est {
    if goesOn || inp.event.Failed? then Read(e, inp.event) else e
  }

  function DstIn(d: DstState, inp: Input, goesOn: bool, pending: nat): DstState {
    if goesOn then Noticed(Wrote(d, inp, pending), inp) else d
  }

  /** A datagram adds as much to the totals of both sides. */
  lemma StillBalanced(e: Est, d: DstState, inp: Input, goesOn: bool, pending: nat)
    requires BalancedViews(e, d) && (goesOn ==> !inp.event.Failed?)
    ensures BalancedViews(EstIn(e, inp, goesOn), DstIn(d, inp, goesOn, pending))
  {
    if goesOn && inp.event.Datagram? {
      var n := HEADER_LENGTH + |inp.event.payload|;
      var lost := (if inp.writeOk then d else Stepped(d, Loss)).counters;
      assert After(lost, Record(n, ToInt32(pending), inp.now)).bytesTotal == d.counters.bytesTotal + n;
      assert After(lost, Record(n, ToInt32(pending), inp.now)).packetsTotal == d.counters.packetsTotal + 1;
    }
  }

  class Journaller {
    const buf: array<Byte>
    var buflen: nat
    var count: nat
    var pending: nat
    const est: EnqueuerStats
    const dst: DequeuerStats
    // the journal: the segment being written, and the closed ones
    var open: seq<Msg>
    var closed: seq<seq<Msg>>
    // gbl_done, gbl_rotate_enqueue, gbl_rotate_dequeue
    var done: bool
    var rotateEnqueue: bool
    var rotateDequeue: bool

    ghost predicate Valid()
      reads this, est, dst
    {
      buf.Length == BUFLEN && buflen <= BUFLEN && rotateEnqueue == rotateDequeue && Balanced()
    }

    ghost predicate Balanced()
      reads this, est, dst
    {
      BalancedViews(est.View(), dst.State())
    }

    /** The state between two rounds, as the specification knows it. */
    ghost function Now(): Run
      reads this, buf
    {
      Run(buf[..], rotateDequeue, open, closed)
    }

    constructor (now: nat)
      ensures Valid() && fresh(buf) && fresh(est) && fresh(dst)
      ensures Now() == START && !done
    {
      buf := new Byte[BUFLEN](_ => 0);
      buflen, count, pending := 0, 0, 0;
      est := new EnqueuerStats(now);
      dst := new DequeuerStats(now);
      open, closed := [], [];
      done, rotateEnqueue, rotateDequeue := false, false, false;
      new;
      assert buf[..] == Zeros(BUFLEN);
    }

    /** serial_read */
    method SerialRead(event: SerialSpec.Event) returns (ret: int)
      requires buf.Length == BUFLEN && (event.Datagram? ==> HEADER_LENGTH + |event.payload| <= BUFLEN)
      modifies this`buflen, this`count, buf, est
      ensures unchanged(dst)
      ensures ret == match event case Datagram(_, _) => 0 case Interrupted => XPORT_INTR case Failed => -1
      ensures buf[..] == BufNext(old(buf[..]), event) && est.View() == Read(old(est.View()), event)
      ensures buflen == (if event.Datagram? then HEADER_LENGTH + |event.payload| else old(buflen))
      ensures count == old(count) + if event.Datagram? then 1 else 0
    {
      MemCpy(buf, 0, Zeros(CLEARED));
      match event
      case Datagram(payload, receipt) =>
        MemCpy(buf, HEADER_LENGTH, payload);
        buflen := |payload| + HEADER_LENGTH;
        est.RecordDatagram(buflen);
        HeaderAdd(buf, |payload|, receipt);
        count := count + 1;
        ret := 0;
      case Interrupted =>
        ret := XPORT_INTR;
      case Failed =>
        est.RecordSocketError();
        ret := -1;
    }

    /** serial_handle_depth_test */
    method HandleDepthTest(depth: Depth) returns (r: bool)
      requires buf.Length == BUFLEN
      modifies this`pending, est
      ensures unchanged(dst) && unchanged(buf)
      ensures r <==> NameIs(buf[..], SERIAL_DEPTH_COMMAND)
      ensures est.View() == if r then Received(old(est.View()), 0 - buflen, -1) else old(est.View())
      ensures pending == if r && depth.Count? then (count - depth.n - 1) % TWO_64 else old(pending)
    {
      r := ToknamEq(buf, HEADER_LENGTH, SERIAL_DEPTH_COMMAND);
      assert buf[..][HEADER_LENGTH..HEADER_LENGTH + 23] == buf[HEADER_LENGTH..HEADER_LENGTH + 23];
      if r {
        est.EraseDatagram(buflen);
        if depth.Count? {
          pending := (count - depth.n - 1) % TWO_64;
        }
      }
    }

    /** serial_write */
    method SerialWrite(ok: bool, now: nat)
      requires buf.Length == BUFLEN && buflen <= BUFLEN
      modifies this`open, dst
      ensures open == if ok then old(open) + [buf[..buflen]] else old(open)
      ensures dst.State() == Handed(old(dst.State()), ok, buflen, pending, now)
    {
      if ok {
        open := open + [buf[..buflen]];
      } else {
        dst.RecordLoss();
      }
      dst.RecordPacket(buflen, ToInt32(pending), now);
    }

    /** serial_close_journal. A report is made, and a new period started, exactly
        where a flag is up, a rotate command came or the program ends; the flags
        are down afterwards. */
    method CloseJournal(isRotateEvent: bool, now: nat) returns (estReport: Reports<Est>, dstReport: Reports<DstState>)
      modifies this`open, this`closed, this`rotateEnqueue, this`rotateDequeue, est, dst
      ensures closed == old(closed) + [old(open)] && open == []
      ensures !rotateEnqueue && !rotateDequeue
      ensures if done || old(rotateEnqueue) || isRotateEvent
              then estReport == [old(est.View())] && est.View() == Reported(old(est.View()), now)
              else estReport == [] && est.View() == old(est.View())
      ensures if done || old(rotateDequeue) || isRotateEvent
              then dstReport == [old(dst.State())] && dst.State() == Stepped(old(dst.State()), Rotate(now))
              else dstReport == [] && dst.State() == old(dst.State())
    {
      estReport, dstReport := [], [];
      if done || rotateEnqueue || isRotateEvent {
        var report := est.Rotate(now);
        estReport := [report];
        rotateEnqueue := false;
      }
      if done || rotateDequeue || isRotateEvent {
        var report := dst.RotatePeriod(now);
        dstReport := [report];
        rotateDequeue := false;
      }
      closed, open := closed + [open], [];
    }

    /** serial_rotate, when the round calls for it: a rotate command, or a flag. */
    method RotateIfDue(isRotateEvent: bool, now: nat) returns (estReport: Reports<Est>, dstReport: Reports<DstState>)
      requires rotateEnqueue == rotateDequeue
      modifies this`open, this`closed, this`rotateEnqueue, this`rotateDequeue, est, dst
      ensures !rotateEnqueue && !rotateDequeue
      ensures var due := isRotateEvent || old(rotateDequeue);
              && closed == (if due then old(closed) + [old(open)] else old(closed)) && open == (if due then [] else old(open))
              && Reporting(due, old(est.View()), old(dst.State()), now, estReport, dstReport, est.View(), dst.State())
    {
      estReport, dstReport := [], [];
      if isRotateEvent || rotateDequeue || rotateEnqueue {
        estReport, dstReport := CloseJournal(isRotateEvent, now);
      }
    }

    /** The note of a rotate command in the dequeuer's counters. */
    method NoteCommand()
      modifies dst
      ensures dst.State() == Stepped(old(dst.State()), Command)
    {
      dst.NoteCommand();
    }

    /** header_is_rotate on the receive buffer. */
    method TestRotate() returns (r: bool)
      requires buf.Length == BUFLEN
      ensures r <==> IsRotate(buf[..])
    {
      r := ToknamEq(buf, HEADER_LENGTH, ROTATE_COMMAND);
      assert buf[..][HEADER_LENGTH..HEADER_LENGTH + 16] == buf[HEADER_LENGTH..HEADER_LENGTH + 16];
    }

    method WriteUnlessInterrupted(ret: int, inp: Input, ghost b0: Msg)
      requires |b0| == BUFLEN && Fits(inp) && !inp.event.Failed?
      requires ret == if inp.event.Interrupted? then XPORT_INTR else 0
      requires buf.Length == BUFLEN && buf[..] == BufNext(b0, inp.event) && buflen <= BUFLEN
      requires inp.event.Datagram? ==> buflen == HEADER_LENGTH + |inp.event.payload|
      modifies this`open, dst
      ensures open == old(open) + WrittenBy(inp) && dst.State() == Wrote(old(dst.State()), inp, pending)
    {
      if ret != XPORT_INTR {
        SerialWrite(inp.writeOk, inp.now);
        ReceivedFrame(b0, inp.event.payload, inp.event.receipt);
        assert buf[..][..buflen] == buf[..buflen];
      }
      assert old(open) + [] == old(open);
    }

    /** The round behind the depth test: write unless interrupted, then rotate if due. */
    method WriteAndRotate(ret: int, inp: Input, ghost b0: Msg) returns (estReport: Reports<Est>, dstReport: Reports<DstState>)
      requires |b0| == BUFLEN && Fits(inp) && !inp.event.Failed?
      requires ret == if inp.event.Interrupted? then XPORT_INTR else 0
      requires buf.Length == BUFLEN && buf[..] == BufNext(b0, inp.event) && rotateEnqueue == rotateDequeue && buflen <= BUFLEN
      requires inp.event.Datagram? ==> buflen == HEADER_LENGTH + |inp.event.payload|
      modifies this`open, this`closed, this`rotateEnqueue, this`rotateDequeue, est, dst
      ensures rotateEnqueue == rotateDequeue && Now() == Finish(old(Now()), inp)
      ensures Reporting(old(rotateDequeue) || Commands(inp), old(est.View()), Noticed(Wrote(old(dst.State()), inp, pending), inp),
                        inp.now, estReport, dstReport, est.View(), dst.State())
    {
      CommandSeen(b0, inp);
      WriteUnlessInterrupted(ret, inp, b0);
      var isRotateEvent := TestRotate();
      if isRotateEvent { NoteCommand(); }
      estReport, dstReport := RotateIfDue(isRotateEvent, inp.now);
    }

    /** The handlers of src/sig.c, at the moment before the flags are looked at. */
    method Signals(hangup: bool, terminate: bool)
      modifies this`done, this`rotateEnqueue, this`rotateDequeue
      ensures done == (old(done) || terminate)
      ensures rotateEnqueue == (old(rotateEnqueue) || hangup) && rotateDequeue == (old(rotateDequeue) || hangup)
    {
      if terminate {
        done := true;
      }
      if hangup {
        rotateEnqueue, rotateDequeue := true, true;
      }
    }

    /** One round of the loop of serial_model. A round that comes to its rotate test
        with a flag up or a rotate command closes the segment, reports on both
        sides and takes the flags down; any other round does none of this. */
    method Round(inp: Input) returns (estReport: Reports<Est>, dstReport: Reports<DstState>)
      requires Valid() && Fits(inp)
      modifies this, buf, est, dst
      ensures Valid() && Now() == Next(old(Now()), inp)
      ensures done == (old(done) || inp.terminate)
      ensures count == old(count) + (if inp.event.Datagram? then 1 else 0)
      ensures pending == if !GoesOn(old(buf[..]), inp) && !inp.event.Failed? && inp.depthCount.Count?
                         then (count - inp.depthCount.n - 1) % TWO_64 else old(pending)
      ensures var goesOn := GoesOn(old(buf[..]), inp);
              Reporting(goesOn && (old(rotateDequeue) || inp.hangup || Commands(inp)),
                        EstIn(old(est.View()), inp, goesOn), DstIn(old(dst.State()), inp, goesOn, old(pending)),
                        inp.now, estReport, dstReport, est.View(), dst.State())
    {
      ghost var goesOn := GoesOn(buf[..], inp);
      ghost var due := goesOn && (rotateDequeue || inp.hangup || Commands(inp));
      ghost var e, d := EstIn(est.View(), inp, goesOn), DstIn(dst.State(), inp, goesOn, pending);
      StillBalanced(est.View(), dst.State(), inp, goesOn, pending);
      estReport, dstReport := ReadAndHandle(inp);
      ReportingBalanced(due, e, d, inp.now, estReport, dstReport, est.View(), dst.State());
    }

    /** The statements of a round. */
    method ReadAndHandle(inp: Input) returns (estReport: Reports<Est>, dstReport: Reports<DstState>)
      requires buf.Length == BUFLEN && buflen <= BUFLEN && rotateEnqueue == rotateDequeue && Fits(inp)
      modifies this, buf, est, dst
      ensures buflen <= BUFLEN && rotateEnqueue == rotateDequeue && Now() == Next(old(Now()), inp)
      ensures done == (old(done) || inp.terminate)
      ensures count == old(count) + (if inp.event.Datagram? then 1 else 0)
      ensures pending == if !GoesOn(old(buf[..]), inp) && !inp.event.Failed? && inp.depthCount.Count?
                         then (count - inp.depthCount.n - 1) % TWO_64 else old(pending)
      ensures var goesOn := GoesOn(old(buf[..]), inp);
              Reporting(goesOn && (old(rotateDequeue) || inp.hangup || Commands(inp)),
                        EstIn(old(est.View()), inp, goesOn), DstIn(old(dst.State()), inp, goesOn, old(pending)),
                        inp.now, estReport, dstReport, est.View(), dst.State())
    {
      ghost var b0 := buf[..];
      if inp.event.Interrupted? { ClearedHasNoName(b0, SERIAL_DEPTH_COMMAND); }
      var ret := SerialRead(inp.event);
      Signals(inp.hangup, inp.terminate);
      if ret == -1 { return [], []; }
      estReport, dstReport := TestAndWrite(ret, inp, b0);
    }

    /** The round behind a read that did not fail. */
    method TestAndWrite(ret: int, inp: Input, ghost b0: Msg) returns (estReport: Reports<Est>, dstReport: Reports<DstState>)
      requires |b0| == BUFLEN && Fits(inp) && !inp.event.Failed?
      requires ret == if inp.event.Interrupted? then XPORT_INTR else 0
      requires buf.Length == BUFLEN && buf[..] == BufNext(b0, inp.event) && rotateEnqueue == rotateDequeue && buflen <= BUFLEN
      requires inp.event.Datagram? ==> buflen == HEADER_LENGTH + |inp.event.payload|
      modifies this`pending, this`open, this`closed, this`rotateEnqueue, this`rotateDequeue, est, dst
      ensures rotateEnqueue == rotateDequeue
      ensures pending == if !GoesOn(b0, inp) && inp.depthCount.Count? then (count - inp.depthCount.n - 1) % TWO_64 else old(pending)
      ensures Now() == if GoesOn(b0, inp) then Finish(old(Now()), inp) else old(Now())
      ensures var goesOn := GoesOn(b0, inp);
              Reporting(goesOn && (old(rotateDequeue) || Commands(inp)),
                        if goesOn then old(est.View()) else Received(old(est.View()), 0 - buflen, -1),
                        DstIn(old(dst.State()), inp, goesOn, old(pending)),
                        inp.now, estReport, dstReport, est.View(), dst.State())
    {
      var isDepthTest := HandleDepthTest(inp.depthCount);
      if isDepthTest { return [], []; }
      estReport, dstReport := WriteAndRotate(ret, inp, b0);
    }
  }

  /** The rotate test sees a command exactly when the payload starts with it. */
  lemma CommandSeen(b0: Msg, inp: Input)
    requires |b0| == BUFLEN && Fits(inp)
    ensures IsRotate(BufNext(b0, inp.event)) <==> Commands(inp)
  {
    if inp.event.Datagram? {
      RotateExact(b0, inp.event.payload, inp.event.receipt);
    } else {
      ClearedHasNoName(b0, ROTATE_COMMAND);
    }
  }

  /** The loop of serial_model: it runs at least one round. */
  method Rounds(j: Journaller, inputs: seq<Input>) returns (rounds: nat)
    requires j.Valid() && !j.done && j.Now() == START
    requires inputs != [] && Receivable(inputs)
    modifies j, j.buf, j.est, j.dst
    ensures j.Valid() && 0 < rounds <= |inputs| && (rounds < |inputs| ==> inputs[rounds - 1].terminate)
    ensures j.Now() == RunOf(inputs[..rounds])
  {
    rounds := 0;
    while true
      invariant rounds < |inputs| && j.Valid() && !j.done
      invariant j.Now() == RunOf(inputs[..rounds])
      decreases |inputs| - rounds
    {
      RunNext(inputs, rounds);
      var estReport, dstReport := j.Round(inputs[rounds]);
      rounds := rounds + 1;
      if j.done || rounds == |inputs| { break; }
    }
  }

  /** serial_model, over the inputs of its rounds: the closed segments are those that
      the inputs determine, whatever hangups, depth tests and failures they hold. */
  method SerialModel(inputs: seq<Input>, start: nat, end: nat) returns (j: Journaller, rounds: nat)
    requires inputs != [] && Receivable(inputs)
    ensures 0 < rounds <= |inputs| && (rounds < |inputs| ==> inputs[rounds - 1].terminate)
    ensures j.Balanced() && j.open == [] && j.closed == SegmentsOf(RunOf(inputs[..rounds]))
    ensures AllWritten(inputs[..rounds]) ==> Concat(j.closed) == FramesOf(inputs[..rounds])
    ensures AllWritten(inputs[..rounds]) && (forall i | 0 <= i < rounds :: !inputs[i].hangup) ==>
              j.closed == SerialCut(FramesOf(inputs[..rounds]), IsRotate)
  {
    j := new Journaller(start);
    rounds := Rounds(j, inputs);
    var estReport, dstReport := j.CloseJournal(false, end);
    ghost var all := inputs[..rounds];
    if AllWritten(all) {
      EveryFrameWritten(all);
      if forall i | 0 <= i < |all| :: !all[i].hangup { PlainSegments(all); }
    }
  }
}
