/** What a run of src/serial_model.c makes of its inputs: the journal segments, as
    a function of the inputs alone. */
module SerialSpec {
  import opened Marshal
  import opened Header
  import opened Segments

  const BUFLEN := 65535

  /** The outcome of one transport read. */
  datatype Event = Datagram(payload: seq<Byte>, receipt: Receipt) | Interrupted | Failed

  /** What the world supplies to one round of the loop: the read, whether the
      journal write succeeds, the count carried by a depth event (NoCount when it
      cannot be deserialized), the signals that arrive before the flags are looked
      at, and the time in seconds. */
  datatype Input = Input(event: Event, writeOk: bool, depthCount: Depth, hangup: bool, terminate: bool, now: nat)
  datatype Depth = NoCount | Count(n: nat)

  ghost predicate Fits(inp: Input) {
    inp.event.Datagram? ==> HEADER_LENGTH + |inp.event.payload| <= BUFLEN
  }

  ghost predicate Receivable(inputs: seq<Input>) {
    forall i | 0 <= i < |inputs| :: Fits(inputs[i])
  }

  /** The receive buffer after the read of a round. */
  function BufNext(buf: Msg, event: Event): (r: Msg)
    requires |buf| == BUFLEN && (event.Datagram? ==> HEADER_LENGTH + |event.payload| <= BUFLEN)
    ensures |r| == BUFLEN
  {
    if event.Datagram? then ReceiveInto(buf, event.payload, event.receipt) else Clear(buf)
  }

  /** A round that comes to its write and its rotate test: the read did not fail,
      and what it brought is no depth test. */
  predicate GoesOn(buf: Msg, inp: Input)
    requires |buf| == BUFLEN && Fits(inp)
  {
    !inp.event.Failed? && !NameIs(BufNext(buf, inp.event), SERIAL_DEPTH_COMMAND)
  }

  function Frames(inp: Input): seq<Msg> {
    if inp.event.Datagram? then [Frame(inp.event.payload, inp.event.receipt)] else []
  }

  function WrittenBy(inp: Input): seq<Msg> {
    if inp.writeOk then Frames(inp) else []
  }

  predicate Commands(inp: Input) {
    inp.event.Datagram? && ROTATE_COMMAND <= inp.event.payload
  }

  /** The state between two rounds: the receive buffer, whether the rotate flags
      are up, the open segment and the closed ones. */
  datatype Run = Run(buf: Msg, raised: bool, open: seq<Msg>, closed: seq<seq<Msg>>)

  const START := Run(Zeros(BUFLEN), false, [], [])

  function Next(r: Run, inp: Input): (r': Run)
    requires |r.buf| == BUFLEN && Fits(inp)
    ensures |r'.buf| == BUFLEN
  {
    var read := r.(buf := BufNext(r.buf, inp.event), raised := r.raised || inp.hangup);
    if GoesOn(r.buf, inp) then Finish(read, inp) else read
  }

  /** The write and the rotate test. */
  function Finish(r: Run, inp: Input): (r': Run)
    ensures r'.buf == r.buf
  {
    if r.raised || Commands(inp) then Run(r.buf, false, [], r.closed + [r.open + WrittenBy(inp)])
    else Run(r.buf, false, r.open + WrittenBy(inp), r.closed)
  }

  ghost function RunOf(inputs: seq<Input>): (r: Run)
    requires Receivable(inputs)
    ensures |r.buf| == BUFLEN
  {
    if inputs == [] then START else Next(RunOf(Init(inputs)), Last(inputs))
  }

  /** The closed segments and the open one. */
  function SegmentsOf(r: Run): seq<seq<Msg>> { r.closed + [r.open] }

  // ----- where the journal is cut

  ghost predicate GoesOnAt(inputs: seq<Input>, k: nat)
    requires Receivable(inputs) && k < |inputs|
  {
    GoesOn(RunOf(inputs[..k]).buf, inputs[k])
  }

  /** A hangup came in round k, or in an earlier one since when no round has come to
      its rotate test. */
  ghost predicate HungUp(inputs: seq<Input>, k: nat)
    requires Receivable(inputs) && k < |inputs|
  {
    exists i | 0 <= i <= k :: inputs[i].hangup && forall m | i <= m < k :: !GoesOnAt(inputs, m)
  }

  /** The journal is cut behind round k: it comes to its rotate test, and finds a
      rotate command or an unanswered hangup. */
  ghost predicate CutsAt(inputs: seq<Input>, k: nat)
    requires Receivable(inputs) && k < |inputs|
  {
    GoesOnAt(inputs, k) && (Commands(inputs[k]) || HungUp(inputs, k))
  }

  lemma RunNext(inputs: seq<Input>, k: nat)
    requires Receivable(inputs) && k < |inputs|
    ensures RunOf(inputs[..k + 1]) == Next(RunOf(inputs[..k]), inputs[k])
  {
    assert Init(inputs[..k + 1]) == inputs[..k];
  }

  /** A hangup is unanswered if it came in this round, or was unanswered in the
      round before, which did not come to its rotate test. */
  lemma HungUpNext(inputs: seq<Input>, k: nat)
    requires Receivable(inputs) && 0 < k < |inputs|
    ensures HungUp(inputs, k) <==> inputs[k].hangup || (HungUp(inputs, k - 1) && !GoesOnAt(inputs, k - 1))
  {
    if HungUp(inputs, k) && !inputs[k].hangup {
      var i :| 0 <= i <= k && inputs[i].hangup && forall m | i <= m < k :: !GoesOnAt(inputs, m);
      assert !GoesOnAt(inputs, k - 1);
    }
    if HungUp(inputs, k - 1) && !GoesOnAt(inputs, k - 1) {
      var i :| 0 <= i <= k - 1 && inputs[i].hangup && forall m | i <= m < k - 1 :: !GoesOnAt(inputs, m);
      assert forall m | i <= m < k :: !GoesOnAt(inputs, m);
    }
  }

  lemma RaisedNext(r: Run, inp: Input)
    requires |r.buf| == BUFLEN && Fits(inp)
    ensures Next(r, inp).raised <==> !GoesOn(r.buf, inp) && (r.raised || inp.hangup)
  {
  }

  /** The flags are up before round k, or go up in it, exactly when a hangup is unanswered. */
  lemma {:induction false} RaisedIsHungUp(inputs: seq<Input>, k: nat)
    requires Receivable(inputs) && k < |inputs|
    ensures RunOf(inputs[..k]).raised || inputs[k].hangup <==> HungUp(inputs, k)
  {
    if k > 0 {
      RaisedIsHungUp(inputs, k - 1);
      RunNext(inputs, k - 1);
      RaisedNext(RunOf(inputs[..k - 1]), inputs[k - 1]);
      HungUpNext(inputs, k);
    }
  }

  /** Round by round: a cut closes the open segment with what the round wrote, any
      other round leaves the closed segments alone. */
  lemma RoundCuts(inputs: seq<Input>, k: nat)
    requires Receivable(inputs) && k < |inputs|
    ensures var r, r' := RunOf(inputs[..k]), RunOf(inputs[..k + 1]);
            var open := r.open + if GoesOnAt(inputs, k) then WrittenBy(inputs[k]) else [];
            if CutsAt(inputs, k) then r'.closed == r.closed + [open] && r'.open == []
            else r'.closed == r.closed && r'.open == open
  {
    RunNext(inputs, k);
    RaisedIsHungUp(inputs, k);
    assert RunOf(inputs[..k]).open + [] == RunOf(inputs[..k]).open;
  }

  // ----- runs without depth tests

  /** The frames of the datagrams among the inputs. */
  function FramesOf(inputs: seq<Input>): seq<Msg> {
    if inputs == [] then [] else FramesOf(Init(inputs)) + Frames(Last(inputs))
  }

  /** A payload that cannot be taken for a depth test, whatever the buffer held. */
  predicate NoDepthTest(inp: Input) {
    inp.event.Datagram? ==> !(SERIAL_DEPTH_COMMAND[..20] <= inp.event.payload)
  }

  ghost predicate AllWritten(inputs: seq<Input>) {
    forall i | 0 <= i < |inputs| :: NoDepthTest(inputs[i]) && inputs[i].writeOk
  }

  lemma NeverDepthTest(buf: Msg, inp: Input)
    requires |buf| == BUFLEN && Fits(inp) && NoDepthTest(inp)
    ensures GoesOn(buf, inp) <==> !inp.event.Failed?
  {
    if inp.event.Datagram? {
      DepthExact(buf, inp.event.payload, inp.event.receipt);
      if |inp.event.payload| >= 20 { DepthPrefix(inp.event.payload); }
    } else {
      ClearedHasNoName(buf, SERIAL_DEPTH_COMMAND);
    }
  }

  lemma DepthPrefix(p: seq<Byte>)
    requires |p| >= 20
    ensures forall rest: seq<Byte> | p + rest == SERIAL_DEPTH_COMMAND :: SERIAL_DEPTH_COMMAND[..20] <= p
  {
    forall rest: seq<Byte> | p + rest == SERIAL_DEPTH_COMMAND ensures SERIAL_DEPTH_COMMAND[..20] <= p {
      assert p[..20] == (p + rest)[..20];
    }
  }

  lemma NextWritten(r: Run, inp: Input)
    requires |r.buf| == BUFLEN && Fits(inp) && NoDepthTest(inp) && inp.writeOk
    ensures Concat(SegmentsOf(Next(r, inp))) == Concat(SegmentsOf(r)) + Frames(inp)
  {
    NeverDepthTest(r.buf, inp);
    var frames := if GoesOn(r.buf, inp) then Frames(inp) else [];
    var open := r.open + frames;
    assert frames == Frames(inp);
    ConcatSnoc(r.closed, r.open);
    ConcatSnoc(r.closed, open);
    ConcatSnoc(r.closed + [open], []);
    assert Concat(r.closed) + (r.open + frames) == Concat(r.closed) + r.open + frames;
    assert Concat(r.closed) + open + [] == Concat(r.closed) + open;
    assert r.open + [] == r.open;
  }

  /** Without depth tests and failed writes every datagram is in the journal, in
      order, whatever the signals. */
  lemma {:induction false} EveryFrameWritten(inputs: seq<Input>)
    requires Receivable(inputs) && AllWritten(inputs)
    ensures Concat(SegmentsOf(RunOf(inputs))) == FramesOf(inputs)
  {
    if inputs == [] {
      OneEmpty<Msg>();
      assert SegmentsOf(START) == [[]];
    } else {
      EveryFrameWritten(Init(inputs));
      NextWritten(RunOf(Init(inputs)), Last(inputs));
    }
  }

  lemma NextPlain(r: Run, inp: Input, frames: seq<Msg>)
    requires |r.buf| == BUFLEN && Fits(inp) && NoDepthTest(inp) && inp.writeOk && !inp.hangup && !r.raised
    requires SegmentsOf(r) == SerialCut(frames, IsRotate)
    ensures !Next(r, inp).raised && SegmentsOf(Next(r, inp)) == SerialCut(frames + Frames(inp), IsRotate)
  {
    NeverDepthTest(r.buf, inp);
    assert r.open + [] == r.open && frames + [] == frames;
    if inp.event.Datagram? {
      var m := Frame(inp.event.payload, inp.event.receipt);
      FrameName(inp.event.payload, inp.event.receipt, ROTATE_COMMAND);
      assert Init(frames + [m]) == frames;
      assert Init(SegmentsOf(r)) == r.closed && Last(SegmentsOf(r)) == r.open;
      assert Join(SegmentsOf(r), m) == r.closed + [r.open + [m]];
    }
  }

  /** If there are no hangups either, the segments are the serial cut of the frames. */
  lemma {:induction false} PlainSegments(inputs: seq<Input>)
    requires Receivable(inputs) && AllWritten(inputs) && forall i | 0 <= i < |inputs| :: !inputs[i].hangup
    ensures !RunOf(inputs).raised && SegmentsOf(RunOf(inputs)) == SerialCut(FramesOf(inputs), IsRotate)
  {
    if inputs == [] {
      assert SegmentsOf(START) == [[]];
    } else {
      PlainSegments(Init(inputs));
      NextPlain(RunOf(Init(inputs)), Last(inputs), FramesOf(Init(inputs)));
    }
  }
}
