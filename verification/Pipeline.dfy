/** The threaded journaller of src/thread_model.c: the enqueuer of
    src/xport_to_queue.c, the dequeuer of src/queue_to_journal.c and the signal
    thread as one state machine. Every read of a shared flag is a step of its
    own, so that a run is any interleaving of the three threads. */
module Pipeline {
  import opened Marshal
  import opened Memory
  import opened Header
  import opened Segments

  datatype Option<+T> = None | Some(value: T)

  datatype Config = Config(bufsiz: nat, queueMax: int)

  /** gbl_done, gbl_rotate_enqueue and gbl_rotate_dequeue; `raising` while the
      signal thread is between its two CAS_ONs. */
  datatype Flags = Flags(done: bool, rotEnq: bool, rotDeq: bool, raising: bool)

  datatype EnqPc = ELoop | ERecv | ETest | EReport | EClear | EWrite | EDone

  /** got: the payload length of the last read, or None after an interrupted one. */
  datatype Enq = Enq(pc: EnqPc, buf: Msg, got: Option<nat>)

  datatype DeqPc = DLoop | DRead | DTest | DTestDone | DBody | DClear | DWrite | DDrain | DDone

  /** got: the length of the last message, or None after an interrupted read;
      left: the drain's counter. */
  datatype Deq = Deq(pc: DeqPc, buf: Msg, got: Option<nat>, left: int)

  datatype Journal = Journal(open: seq<Msg>, closed: seq<seq<Msg>>)

  /** What has happened so far. received: the datagrams, framed, in receive order;
      sent: whether each queue write succeeded; handed: the records handed to
      journal writes; written: whether each of those succeeded; drained: the
      messages the shutdown drain removed; signals: rotate signals; commands:
      Command::Rotate messages dequeued; acted: the current iteration of the
      dequeuer rotated or saw gbl_done; tests: what each rotate test found; raced:
      the iteration whose test last called for a rotation then saw gbl_done;
      enqTests and reports: the rotate tests of the enqueuer and the reports it made. */
  datatype History = History(received: seq<Msg>, sent: seq<bool>, handed: seq<Msg>, written: seq<bool>, drained: seq<Msg>,
                             signals: nat, commands: nat, rotations: nat, acted: bool, tests: seq<Test>, raced: bool,
                             enqTests: nat, reports: nat)

  /** What the dequeuer has at hand when it tests for a rotation: the message, if
      the read was not interrupted, and whether gbl_rotate_dequeue is up. */
  datatype Test = Test(msg: Option<Msg>, raised: bool)

  predicate Calls(t: Test) {
    t.raised || (t.msg.Some? && IsRotate(t.msg.value))
  }

  datatype State = State(flags: Flags, enq: Enq, queue: seq<Msg>, deq: Deq, jrn: Journal, h: History)

  datatype Step =
    | SigTerm | SigRotate | SigRotateDeq
    | EnqLoop | EnqDatagram(payload: Msg, receipt: Receipt) | EnqInterrupted | EnqError | EnqTest | EnqReport | EnqClear | EnqWrite(ok: bool)
    | DeqLoop | DeqMessage | DeqInterrupted | DeqError | DeqTest | DeqTestDone | DeqBody | DeqClear | DeqWrite(ok: bool)
    | DeqDrain | DeqDrainEnd

  ghost predicate Initial(c: Config, s: State) {
    && c.bufsiz >= CLEARED
    && s.flags == Flags(false, false, false, false)
    && s.enq == Enq(ELoop, Zeros(c.bufsiz), None) && s.deq == Deq(DLoop, Zeros(c.bufsiz), None, 0)
    && s.queue == [] && s.jrn == Journal([], [])
    && s.h == History([], [], [], [], [], 0, 0, 0, false, [], false, 0, 0)
  }

  predicate Enabled(c: Config, s: State, step: Step) {
    match step
    case SigTerm => !s.flags.done && !s.flags.raising
    case SigRotate => !s.flags.done && !s.flags.raising
    case SigRotateDeq => s.flags.raising
    case EnqLoop => s.enq.pc == ELoop && CLEARED <= |s.enq.buf|
    case EnqDatagram(payload, _) =>
      s.enq.pc == ERecv && CLEARED <= |s.enq.buf| && HEADER_LENGTH + |payload| <= |s.enq.buf|
    case EnqInterrupted => s.enq.pc == ERecv
    case EnqError => s.enq.pc == ERecv
    case EnqTest => s.enq.pc == ETest
    case EnqReport => s.enq.pc == EReport
    case EnqClear => s.enq.pc == EClear
    case EnqWrite(_) => s.enq.pc == EWrite && (s.enq.got.Some? ==> HEADER_LENGTH + s.enq.got.value <= |s.enq.buf|)
    case DeqLoop => s.deq.pc == DLoop && CLEARED <= |s.deq.buf|
    case DeqMessage => s.deq.pc == DRead && s.queue != [] && |s.queue[0]| <= |s.deq.buf|
    case DeqInterrupted => s.deq.pc == DRead
    case DeqError => s.deq.pc == DRead
    case DeqTest => s.deq.pc == DTest
    case DeqTestDone => s.deq.pc == DTestDone
    case DeqBody => s.deq.pc == DBody
    case DeqClear => s.deq.pc == DClear
    case DeqWrite(_) => s.deq.pc == DWrite && (s.deq.got.Some? ==> s.deq.got.value <= |s.deq.buf|)
    case DeqDrain => s.deq.pc == DDrain && s.queue != []
    case DeqDrainEnd => s.deq.pc == DDrain
  }

  /** signal_thread, src/thread_model.c:54-72. */
  function DoSignal(s: State, step: Step): State {
    match step
    case SigTerm => s.(flags := s.flags.(done := true))
    case SigRotate => s.(flags := s.flags.(rotEnq := true, raising := true), h := s.h.(signals := s.h.signals + 1))
    case SigRotateDeq => s.(flags := s.flags.(rotDeq := true, raising := false))
    case _ => s
  }

  /** The loop of xport_to_queue, src/xport_to_queue.c:74-147. */
  function DoEnq(c: Config, s: State, step: Step): State
    requires Enabled(c, s, step)
  {
    match step
    case EnqLoop =>
      if s.flags.done then s.(enq := s.enq.(pc := EDone)) else s.(enq := s.enq.(pc := ERecv, buf := Clear(s.enq.buf)))
    case EnqDatagram(payload, receipt) =>
      s.(enq := Enq(ETest, Fill(s.enq.buf, payload, receipt), Some(|payload|)),
         h := s.h.(received := s.h.received + [Frame(payload, receipt)]))
    case EnqInterrupted => s.(enq := s.enq.(pc := ETest, got := None))
    case EnqError => s.(enq := s.enq.(pc := ELoop, got := None))
    case EnqTest =>
      s.(enq := s.enq.(pc := if IsRotate(s.enq.buf) || s.flags.rotEnq || s.flags.done then EReport else EWrite),
         h := s.h.(enqTests := s.h.enqTests + 1))
    case EnqReport =>
      s.(enq := s.enq.(pc := EClear), h := s.h.(reports := s.h.reports + if s.flags.done then 0 else 1))
    case EnqClear => s.(enq := s.enq.(pc := EWrite), flags := s.flags.(rotEnq := false))
    case EnqWrite(ok) =>
      var next := s.enq.(pc := ELoop, got := None);
      if s.enq.got.None? then s.(enq := next)
      else
        s.(enq := next,
           queue := if ok then s.queue + [s.enq.buf[..HEADER_LENGTH + s.enq.got.value]] else s.queue,
           h := s.h.(sent := s.h.sent + [ok]))
    case _ => s
  }

  function AtHand(d: Deq): Option<Msg> {
    if d.got.Some? && d.got.value <= |d.buf| then Some(d.buf[..d.got.value]) else None
  }

  /** The loop of queue_to_journal, its close and its drain, src/queue_to_journal.c:117-225.
      The rotate test is short-circuited: the command and the flag first, then gbl_done. */
  function DoDeq(c: Config, s: State, step: Step): State
    requires Enabled(c, s, step)
  {
    match step
    case DeqLoop =>
      if s.flags.done then
        s.(deq := s.deq.(pc := DDrain, got := None, left := c.queueMax),
           jrn := Journal([], s.jrn.closed + [s.jrn.open]))
      else s.(deq := s.deq.(pc := DRead, buf := Clear(s.deq.buf), got := None), h := s.h.(acted := false))
    case DeqMessage =>
      var m := s.queue[0];
      s.(deq := s.deq.(pc := DTest, buf := Overlay(s.deq.buf, 0, m), got := Some(|m|)),
         queue := s.queue[1..],
         h := s.h.(commands := s.h.commands + if IsRotate(m) then 1 else 0))
    case DeqInterrupted => s.(deq := s.deq.(pc := DTest, got := None))
    case DeqError => s.(deq := s.deq.(pc := DLoop, got := None))
    case DeqTest =>
      s.(deq := s.deq.(pc := if IsRotate(s.deq.buf) || s.flags.rotDeq then DBody else DTestDone),
         h := s.h.(tests := s.h.tests + [Test(AtHand(s.deq), s.flags.rotDeq)]))
    case DeqTestDone => s.(deq := s.deq.(pc := if s.flags.done then DBody else DWrite))
    case DeqBody =>
      if s.flags.done then
        s.(deq := s.deq.(pc := DClear), h := s.h.(acted := true, raced := s.h.tests != [] && Calls(Last(s.h.tests))))
      else
        s.(deq := s.deq.(pc := DClear), jrn := Journal([], s.jrn.closed + [s.jrn.open]),
           h := s.h.(acted := true, rotations := s.h.rotations + 1))
    case DeqClear => s.(deq := s.deq.(pc := DWrite), flags := s.flags.(rotDeq := false))
    case DeqWrite(ok) =>
      var next := s.deq.(pc := DLoop, got := None);
      if s.deq.got.None? then s.(deq := next)
      else
        var m := s.deq.buf[..s.deq.got.value];
        s.(deq := next,
           jrn := if ok then s.jrn.(open := s.jrn.open + [m]) else s.jrn,
           h := s.h.(handed := s.h.handed + [m], written := s.h.written + [ok]))
    case DeqDrain =>
      s.(deq := s.deq.(pc := if s.deq.left == 0 then DDone else DDrain, left := s.deq.left - 1),
         queue := s.queue[1..],
         h := s.h.(drained := s.h.drained + [s.queue[0]]))
    case DeqDrainEnd => s.(deq := s.deq.(pc := DDone))
    case _ => s
  }

  function Do(c: Config, s: State, step: Step): State
    requires Enabled(c, s, step)
  {
    if step.SigTerm? || step.SigRotate? || step.SigRotateDeq? then DoSignal(s, step)
    else if step.EnqLoop? || step.EnqDatagram? || step.EnqInterrupted? || step.EnqError? || step.EnqTest? || step.EnqReport? || step.EnqClear? || step.EnqWrite?
    then DoEnq(c, s, step)
    else DoDeq(c, s, step)
  }

  /** A run is any sequence of enabled steps. */
  ghost predicate Run(c: Config, s: State, steps: seq<Step>)
    decreases |steps|
  {
    steps == [] || (Enabled(c, s, steps[0]) && Run(c, Do(c, s, steps[0]), steps[1..]))
  }

  ghost function After(c: Config, s: State, steps: seq<Step>): State
    requires Run(c, s, steps)
    decreases |steps|
  {
    if steps == [] then s else After(c, Do(c, s, steps[0]), steps[1..])
  }

  // ----- invariants

  /** The elements of xs whose flag is set. */
  ghost function Kept(xs: seq<Msg>, flags: seq<bool>): seq<Msg>
    requires |xs| == |flags|
  {
    if xs == [] then [] else Kept(Init(xs), Init(flags)) + if Last(flags) then [Last(xs)] else []
  }

  lemma KeptSnoc(xs: seq<Msg>, flags: seq<bool>, x: Msg, flag: bool)
    requires |xs| == |flags|
    ensures Kept(xs + [x], flags + [flag]) == Kept(xs, flags) + if flag then [x] else []
  {
    assert Init(xs + [x]) == xs && Init(flags + [flag]) == flags;
  }

  /** Between its read and its write, the enqueuer holds the frame of the last datagram. */
  ghost predicate EnqInv(c: Config, s: State) {
    var e, h := s.enq, s.h;
    && |e.buf| == c.bufsiz >= CLEARED
    && (e.pc == ERecv ==> Clear(e.buf) == e.buf)
    && (e.got.Some? ==>
          && (e.pc == ETest || e.pc == EReport || e.pc == EClear || e.pc == EWrite)
          && |h.sent| + 1 == |h.received|
          && HEADER_LENGTH + e.got.value <= c.bufsiz && e.buf[..HEADER_LENGTH + e.got.value] == Last(h.received))
    && (e.got.None? ==> |h.sent| == |h.received|)
  }

  ghost predicate QueueInv(c: Config, s: State) {
    forall k | 0 <= k < |s.queue| :: HEADER_LENGTH <= |s.queue[k]| <= c.bufsiz
  }

  predicate Holding(d: Deq) {
    d.pc == DTest || d.pc == DTestDone || d.pc == DBody || d.pc == DClear || d.pc == DWrite
  }

  /** The dequeuer's buffer names a rotate command only if the message it holds does. */
  ghost predicate DeqInv(c: Config, s: State) {
    var d := s.deq;
    && |d.buf| == c.bufsiz >= CLEARED
    && (d.pc == DRead ==> Clear(d.buf) == d.buf && d.got.None?)
    && (d.got.Some? ==> Holding(d) && HEADER_LENGTH <= d.got.value <= c.bufsiz)
    && (Holding(d) ==> (IsRotate(d.buf) <==> d.got.Some? && IsRotate(d.buf[..d.got.value])))
  }

  /** The message between dequeuing and writing. */
  function InFlight(s: State): seq<Msg> {
    match AtHand(s.deq)
    case None => []
    case Some(m) => [m]
  }

  /** Conservation: what was received, less failed queue writes, has been handed
      to the journal, is in flight, was drained or is still queued, in this order;
      and the journal segments hold what was handed over, less failed writes. */
  ghost predicate Conserved(s: State) {
    && |s.h.sent| <= |s.h.received| && |s.h.written| == |s.h.handed|
    && Kept(s.h.received[..|s.h.sent|], s.h.sent) == s.h.handed + InFlight(s) + s.h.drained + s.queue
    && Concat(s.jrn.closed) + s.jrn.open == Kept(s.h.handed, s.h.written)
    && (s.deq.pc != DDrain && s.deq.pc != DDone ==> s.h.drained == [])
  }

  ghost predicate Inv(c: Config, s: State) {
    EnqInv(c, s) && QueueInv(c, s) && DeqInv(c, s) && Conserved(s)
  }

  lemma ClearTwice(buf: Msg)
    requires CLEARED <= |buf|
    ensures Clear(Clear(buf)) == Clear(buf)
  {
  }

  lemma InitialInv(c: Config, s: State)
    requires Initial(c, s)
    ensures Inv(c, s)
  {
  }

  lemma SignalInv(c: Config, s: State, step: Step)
    requires Inv(c, s) && Enabled(c, s, step) && Do(c, s, step) == DoSignal(s, step)
    ensures Inv(c, DoSignal(s, step))
  {
  }

  lemma EnqLoopInv(c: Config, s: State)
    requires Inv(c, s) && Enabled(c, s, EnqLoop)
    ensures EnqInv(c, DoEnq(c, s, EnqLoop))
  {
    ClearTwice(s.enq.buf);
  }

  lemma EnqDatagramInv(c: Config, s: State, payload: Msg, receipt: Receipt)
    requires Inv(c, s) && Enabled(c, s, EnqDatagram(payload, receipt))
    ensures EnqInv(c, DoEnq(c, s, EnqDatagram(payload, receipt)))
  {
    ReceivedFrame(s.enq.buf, payload, receipt);
  }

  lemma EnqWriteInv(c: Config, s: State, ok: bool)
    requires Inv(c, s) && Enabled(c, s, EnqWrite(ok))
    ensures EnqInv(c, DoEnq(c, s, EnqWrite(ok))) && QueueInv(c, DoEnq(c, s, EnqWrite(ok)))
  {
  }

  lemma EnqInvStep(c: Config, s: State, step: Step)
    requires Inv(c, s) && Enabled(c, s, step)
    ensures EnqInv(c, DoEnq(c, s, step)) && QueueInv(c, DoEnq(c, s, step)) && DeqInv(c, DoEnq(c, s, step))
  {
    match step
    case EnqLoop => EnqLoopInv(c, s);
    case EnqDatagram(payload, receipt) => EnqDatagramInv(c, s, payload, receipt);
    case EnqWrite(ok) => EnqWriteInv(c, s, ok);
    case _ =>
  }

  lemma EnqWriteConserved(c: Config, s: State, ok: bool)
    requires Inv(c, s) && Enabled(c, s, EnqWrite(ok)) && s.enq.got.Some?
    ensures Conserved(DoEnq(c, s, EnqWrite(ok)))
  {
    var t := DoEnq(c, s, EnqWrite(ok));
    var n, m := |s.h.sent|, Last(s.h.received);
    KeptSnoc(s.h.received[..n], s.h.sent, m, ok);
    assert t.h.received[..n + 1] == s.h.received[..n] + [m];
    var rest := s.h.handed + InFlight(s) + s.h.drained;
    assert rest + s.queue + [m] == rest + (s.queue + [m]);
  }

  lemma EnqConserved(c: Config, s: State, step: Step)
    requires Inv(c, s) && Enabled(c, s, step)
    ensures Conserved(DoEnq(c, s, step))
  {
    match step
    case EnqDatagram(payload, receipt) =>
      assert (s.h.received + [Frame(payload, receipt)])[..|s.h.sent|] == s.h.received[..|s.h.sent|];
    case EnqWrite(ok) =>
      if s.enq.got.Some? { EnqWriteConserved(c, s, ok); }
    case _ =>
  }

  /** Dequeuing a message into a cleared buffer completes no name. */
  lemma MessageName(buf: Msg, m: Msg)
    requires CLEARED <= |buf| && Clear(buf) == buf && HEADER_LENGTH <= |m| <= |buf|
    ensures Overlay(buf, 0, m)[..|m|] == m
    ensures IsRotate(Overlay(buf, 0, m)) <==> IsRotate(m)
  {
    var b, n := Overlay(buf, 0, m), HEADER_LENGTH + |ROTATE_COMMAND|;
    if |m| >= n {
      assert b[HEADER_LENGTH..n] == m[HEADER_LENGTH..n];
    } else {
      assert b[|m|] == buf[|m|] == Clear(buf)[|m|] == 0;
      assert b[HEADER_LENGTH..n][|m| - HEADER_LENGTH] == 0;
    }
  }

  lemma DeqMessageInv(c: Config, s: State)
    requires Inv(c, s) && Enabled(c, s, DeqMessage)
    ensures DeqInv(c, DoDeq(c, s, DeqMessage)) && QueueInv(c, DoDeq(c, s, DeqMessage))
  {
    MessageName(s.deq.buf, s.queue[0]);
  }

  lemma DeqLoopInv(c: Config, s: State)
    requires Inv(c, s) && Enabled(c, s, DeqLoop)
    ensures DeqInv(c, DoDeq(c, s, DeqLoop))
  {
    ClearTwice(s.deq.buf);
  }

  lemma DeqInterruptedInv(c: Config, s: State)
    requires Inv(c, s) && Enabled(c, s, DeqInterrupted)
    ensures DeqInv(c, DoDeq(c, s, DeqInterrupted))
  {
    ClearedHasNoName(s.deq.buf, ROTATE_COMMAND);
  }

  /** The steps that neither clear nor fill the buffer. */
  lemma DeqMovesInv(c: Config, s: State, step: Step)
    requires DeqInv(c, s) && Enabled(c, s, step) && !step.DeqLoop? && !step.DeqMessage? && !step.DeqInterrupted?
    ensures DeqInv(c, DoDeq(c, s, step))
  {
  }

  /** A dequeuer step concerns the enqueuer and its history in nothing, and only
      shortens the queue. */
  lemma DeqKeepsOthers(c: Config, s: State, step: Step)
    requires EnqInv(c, s) && QueueInv(c, s) && Enabled(c, s, step)
    ensures EnqInv(c, DoDeq(c, s, step)) && QueueInv(c, DoDeq(c, s, step))
  {
  }

  lemma DeqInvStep(c: Config, s: State, step: Step)
    requires Inv(c, s) && Enabled(c, s, step)
    ensures EnqInv(c, DoDeq(c, s, step)) && QueueInv(c, DoDeq(c, s, step)) && DeqInv(c, DoDeq(c, s, step))
  {
    DeqKeepsOthers(c, s, step);
    if step.DeqLoop? {
      DeqLoopInv(c, s);
    } else if step.DeqMessage? {
      DeqMessageInv(c, s);
    } else if step.DeqInterrupted? {
      DeqInterruptedInv(c, s);
    } else {
      DeqMovesInv(c, s, step);
    }
  }

  lemma DeqMessageConserved(c: Config, s: State)
    requires Inv(c, s) && Enabled(c, s, DeqMessage)
    ensures Conserved(DoDeq(c, s, DeqMessage))
  {
    var m := s.queue[0];
    MessageName(s.deq.buf, m);
    assert s.h.handed + [] + [] + s.queue == s.h.handed + [m] + [] + s.queue[1..];
  }

  lemma DeqWriteConserved(c: Config, s: State, ok: bool)
    requires Inv(c, s) && Enabled(c, s, DeqWrite(ok)) && s.deq.got.Some?
    ensures Conserved(DoDeq(c, s, DeqWrite(ok)))
  {
    var m := s.deq.buf[..s.deq.got.value];
    KeptSnoc(s.h.handed, s.h.written, m, ok);
    assert s.h.handed + [m] + [] + s.queue == (s.h.handed + [m]) + [] + [] + s.queue;
    assert Concat(s.jrn.closed) + (s.jrn.open + [m]) == Concat(s.jrn.closed) + s.jrn.open + [m];
  }

  lemma DeqDrainConserved(c: Config, s: State)
    requires Inv(c, s) && Enabled(c, s, DeqDrain)
    ensures Conserved(DoDeq(c, s, DeqDrain))
  {
    var m := s.queue[0];
    var before := s.h.handed + InFlight(s);
    assert before + s.h.drained + s.queue == before + (s.h.drained + [m]) + s.queue[1..];
  }

  /** Steps that move no message keep the conservation, whether or not they close the segment. */
  lemma NoMessageMoved(s: State, t: State)
    requires Conserved(s) && InFlight(t) == InFlight(s) && t.queue == s.queue
    requires t.h.received == s.h.received && t.h.sent == s.h.sent && t.h.handed == s.h.handed
    requires t.h.written == s.h.written && t.h.drained == s.h.drained
    requires t.jrn == s.jrn || t.jrn == Journal([], s.jrn.closed + [s.jrn.open])
    requires t.deq.pc != DDrain && t.deq.pc != DDone ==> s.deq.pc != DDrain && s.deq.pc != DDone
    ensures Conserved(t)
  {
    ConcatSnoc(s.jrn.closed, s.jrn.open);
    assert Concat(s.jrn.closed + [s.jrn.open]) + [] == Concat(s.jrn.closed) + s.jrn.open;
  }

  lemma DeqConserved(c: Config, s: State, step: Step)
    requires Inv(c, s) && Enabled(c, s, step)
    ensures Conserved(DoDeq(c, s, step))
  {
    if step.DeqMessage? {
      DeqMessageConserved(c, s);
    } else if step.DeqWrite? && s.deq.got.Some? {
      DeqWriteConserved(c, s, step.ok);
    } else if step.DeqDrain? {
      DeqDrainConserved(c, s);
    } else {
      NoMessageMoved(s, DoDeq(c, s, step));
    }
  }

  lemma InvStep(c: Config, s: State, step: Step)
    requires Inv(c, s) && Enabled(c, s, step)
    ensures Inv(c, Do(c, s, step))
  {
    if Do(c, s, step) == DoSignal(s, step) {
      SignalInv(c, s, step);
    } else if Do(c, s, step) == DoEnq(c, s, step) {
      EnqInvStep(c, s, step);
      EnqConserved(c, s, step);
    } else {
      DeqInvStep(c, s, step);
      DeqConserved(c, s, step);
    }
  }

  /** The invariant holds after every run. */
  lemma {:induction false} InvAlways(c: Config, s: State, steps: seq<Step>)
    requires Inv(c, s) && Run(c, s, steps)
    ensures Inv(c, After(c, s, steps))
    decreases |steps|
  {
    if steps != [] {
      InvStep(c, s, steps[0]);
      InvAlways(c, Do(c, s, steps[0]), steps[1..]);
    }
  }

  // ----- rotations

  function Unit(b: bool): nat { if b then 1 else 0 }

  /** Rotations are paid for by rotate signals and rotate commands: a raised flag,
      a signal still being raised and a command in the buffer are credit. */
  ghost predicate Paid(s: State) {
    var income := s.h.signals + s.h.commands;
    var pending := Unit(s.flags.rotDeq) + Unit(s.flags.raising);
    match s.deq.pc
    case DTest => s.h.rotations + pending + Unit(IsRotate(s.deq.buf)) <= income
    case DTestDone => s.h.rotations + pending <= income && !IsRotate(s.deq.buf)
    case DBody => s.h.rotations + pending + Unit(IsRotate(s.deq.buf)) <= income
                  && (IsRotate(s.deq.buf) || s.flags.rotDeq || s.flags.done)
    case DClear => s.h.rotations + Unit(s.flags.raising) <= income && s.h.acted
    case _ => s.h.rotations + pending <= income
  }

  lemma PaidSignal(s: State, step: Step)
    requires Paid(s) && (step.SigRotateDeq? ==> s.flags.raising) && (step.SigRotate? ==> !s.flags.raising)
    ensures Paid(DoSignal(s, step))
  {
  }

  lemma PaidEnq(c: Config, s: State, step: Step)
    requires Paid(s) && Enabled(c, s, step)
    ensures Paid(DoEnq(c, s, step))
  {
  }

  lemma PaidDeq(c: Config, s: State, step: Step)
    requires Inv(c, s) && Paid(s) && Enabled(c, s, step)
    ensures Paid(DoDeq(c, s, step))
  {
    match step
    case DeqMessage => MessageName(s.deq.buf, s.queue[0]);
    case DeqInterrupted => ClearedHasNoName(s.deq.buf, ROTATE_COMMAND);
    case _ =>
  }

  lemma PaidStep(c: Config, s: State, step: Step)
    requires Inv(c, s) && Paid(s) && Enabled(c, s, step)
    ensures Paid(Do(c, s, step))
  {
    if Do(c, s, step) == DoSignal(s, step) {
      PaidSignal(s, step);
    } else if Do(c, s, step) == DoEnq(c, s, step) {
      PaidEnq(c, s, step);
    } else {
      PaidDeq(c, s, step);
    }
  }

  lemma {:induction false} PaidAlways(c: Config, s: State, steps: seq<Step>)
    requires Inv(c, s) && Paid(s) && Run(c, s, steps)
    ensures Paid(After(c, s, steps))
    decreases |steps|
  {
    if steps != [] {
      InvStep(c, s, steps[0]);
      PaidStep(c, s, steps[0]);
      PaidAlways(c, Do(c, s, steps[0]), steps[1..]);
    }
  }

  /** In every interleaving, journal rotations never exceed rotate signals plus
      Command::Rotate messages dequeued. */
  lemma RotationsBounded(c: Config, s: State, steps: seq<Step>)
    requires Initial(c, s) && Run(c, s, steps)
    ensures var t := After(c, s, steps);
            && t.h.rotations <= t.h.signals + t.h.commands
            && t.h.signals == Steps(steps, (step: Step) => step == SigRotate) && t.h.commands == Count(t.h.handed + InFlight(t), IsRotate)
            && |t.jrn.closed| == t.h.rotations + (if t.deq.pc == DDrain || t.deq.pc == DDone then 1 else 0)
  {
    InitialInv(c, s);
    PaidAlways(c, s, steps);
    CountsAlways(c, s, steps);
  }

  /** A rotation is caused by the message at hand or by a raised flag, never by
      stale buffer bytes or by the mere interruption of a read; and a raised
      dequeue flag is cleared only in an iteration that rotated or saw gbl_done. */
  lemma RotationCause(c: Config, s: State, steps: seq<Step>, step: Step)
    requires Initial(c, s) && Run(c, s, steps) && Enabled(c, After(c, s, steps), step)
    ensures var t := After(c, s, steps);
            && (Do(c, t, step).h.rotations != t.h.rotations ==>
                  t.flags.rotDeq || (t.deq.got.Some? && t.deq.got.value <= |t.deq.buf| && IsRotate(t.deq.buf[..t.deq.got.value])))
            && (t.flags.rotDeq && !Do(c, t, step).flags.rotDeq ==> t.h.acted)
  {
    InitialInv(c, s);
    InvAlways(c, s, steps);
    PaidAlways(c, s, steps);
  }

  // ----- what a raised flag brings about

  /** A run that does not pass the head of the dequeuer's loop before its end. */
  ghost predicate OneRound(c: Config, s: State, steps: seq<Step>)
    requires Run(c, s, steps)
    decreases |steps|
  {
    steps == [] || (s.deq.pc != DLoop && OneRound(c, Do(c, s, steps[0]), steps[1..]))
  }

  lemma {:induction false} DoneStays(c: Config, s: State, steps: seq<Step>)
    requires Run(c, s, steps) && s.flags.done
    ensures After(c, s, steps).flags.done
    decreases |steps|
  {
    if steps != [] { DoneStays(c, Do(c, s, steps[0]), steps[1..]); }
  }

  /** The iteration that started its rotate test at t with the flag up: where it
      stands at s. m is the message at hand, ok whether it has been written. */
  ghost predicate Answering(t: State, s: State) {
    var rotated := t.h.rotations + 1;
    && (s.deq.pc != DLoop ==> AtHand(s.deq) == AtHand(t.deq))
    && match s.deq.pc
       case DTest => s.flags.rotDeq && s.jrn == t.jrn && s.h.rotations == t.h.rotations && s.h.handed == t.h.handed
       case DBody => s.flags.rotDeq && s.jrn == t.jrn && s.h.rotations == t.h.rotations && s.h.handed == t.h.handed
       case DClear =>
         s.jrn == Journal([], t.jrn.closed + [t.jrn.open]) && s.h.rotations == rotated && s.h.handed == t.h.handed
       case DWrite =>
         s.jrn == Journal([], t.jrn.closed + [t.jrn.open]) && s.h.rotations == rotated && s.h.handed == t.h.handed
       case DLoop =>
         && s.jrn.closed == t.jrn.closed + [t.jrn.open] && s.h.rotations == rotated
         && s.h.handed == t.h.handed + InFlight(t) && |s.h.written| == |s.h.handed|
         && s.jrn.open == if AtHand(t.deq).Some? && Last(s.h.written) then InFlight(t) else []
       case _ => false
  }

  lemma AnsweringStep(c: Config, t: State, s: State, step: Step)
    requires Inv(c, s) && Answering(t, s) && s.deq.pc != DLoop && Enabled(c, s, step) && !Do(c, s, step).flags.done
    ensures Answering(t, Do(c, s, step))
  {
    if Do(c, s, step) != DoDeq(c, s, step) {
      OthersLeave(c, s, step);
      OthersLeaveFlag(c, s, step);
    } else if step.DeqWrite? {
      AnsweringWrite(c, t, s, step.ok);
    } else {
      AnsweringMoves(c, t, s, step);
    }
  }

  lemma OthersLeaveFlag(c: Config, s: State, step: Step)
    requires Enabled(c, s, step) && Do(c, s, step) != DoDeq(c, s, step)
    ensures s.flags.rotDeq ==> Do(c, s, step).flags.rotDeq
    ensures s.flags.done ==> Do(c, s, step).flags.done
  {
  }

  lemma AnsweringWrite(c: Config, t: State, s: State, ok: bool)
    requires Inv(c, s) && Answering(t, s) && Enabled(c, s, DeqWrite(ok))
    ensures Answering(t, DoDeq(c, s, DeqWrite(ok)))
  {
    assert InFlight(s) == InFlight(t);
    assert [] + InFlight(t) == InFlight(t) && t.h.handed + [] == t.h.handed;
  }

  lemma AnsweringMoves(c: Config, t: State, s: State, step: Step)
    requires Inv(c, s) && Answering(t, s) && s.deq.pc != DLoop && Enabled(c, s, step) && !s.flags.done
    requires Do(c, s, step) == DoDeq(c, s, step) && !step.DeqWrite?
    ensures Answering(t, DoDeq(c, s, step))
  {
  }

  lemma {:induction false} AnsweringAlways(c: Config, t: State, s: State, steps: seq<Step>)
    requires Inv(c, s) && Answering(t, s) && Run(c, s, steps) && OneRound(c, s, steps)
    requires !After(c, s, steps).flags.done
    ensures Answering(t, After(c, s, steps))
    decreases |steps|
  {
    if steps != [] {
      var next := Do(c, s, steps[0]);
      if next.flags.done { DoneStays(c, next, steps[1..]); }
      InvStep(c, s, steps[0]);
      AnsweringStep(c, t, s, steps[0]);
      AnsweringAlways(c, t, next, steps[1..]);
    }
  }

  /** A rotate test that finds the flag up rotates exactly once: when the dequeuer
      is back at the head of its loop and has not been told to end, the open
      segment is closed, and the message that was at hand, if it was written, is
      all that the new one holds. */
  lemma RaisedFlagRotates(c: Config, s: State, before: seq<Step>, round: seq<Step>)
    requires Initial(c, s) && Run(c, s, before) && Run(c, After(c, s, before), round)
    requires var t := After(c, s, before);
             && t.deq.pc == DTest && t.flags.rotDeq && OneRound(c, t, round)
             && After(c, t, round).deq.pc == DLoop && !After(c, t, round).flags.done
    ensures var t := After(c, s, before);
            var u := After(c, t, round);
            && u.h.rotations == t.h.rotations + 1
            && u.jrn.closed == t.jrn.closed + [t.jrn.open]
            && u.h.handed == t.h.handed + InFlight(t)
            && u.jrn.open == if AtHand(t.deq).Some? && u.h.written != [] && Last(u.h.written) then InFlight(t) else []
  {
    InitialInv(c, s);
    InvAlways(c, s, before);
    AnsweringAlways(c, After(c, s, before), After(c, s, before), round);
  }

  /** The flag of a signal stays up until it has been answered: either it is up and
      no test has been made since, or the journal has rotated or is about to. */
  ghost predicate Pending(t: State, s: State) {
    || s.h.rotations > t.h.rotations
    || (s.h.rotations == t.h.rotations && s.flags.rotDeq && s.h.tests == t.h.tests
        && (s.deq.pc == DLoop || s.deq.pc == DRead || s.deq.pc == DTest))
    || (s.h.rotations == t.h.rotations && s.deq.pc == DBody)
  }

  lemma PendingStep(c: Config, t: State, s: State, step: Step)
    requires Pending(t, s) && Enabled(c, s, step) && !Do(c, s, step).flags.done
    ensures Pending(t, Do(c, s, step))
  {
    if Do(c, s, step) != DoDeq(c, s, step) {
      OthersLeave(c, s, step);
      OthersLeaveFlag(c, s, step);
    } else {
      PendingDeq(c, t, s, step);
    }
  }

  lemma PendingDeq(c: Config, t: State, s: State, step: Step)
    requires Pending(t, s) && Enabled(c, s, step) && !s.flags.done
    ensures Pending(t, DoDeq(c, s, step))
  {
  }

  lemma {:induction false} PendingAlways(c: Config, t: State, s: State, steps: seq<Step>)
    requires Pending(t, s) && Run(c, s, steps) && !After(c, s, steps).flags.done
    ensures Pending(t, After(c, s, steps))
    decreases |steps|
  {
    if steps != [] {
      var next := Do(c, s, steps[0]);
      if next.flags.done { DoneStays(c, next, steps[1..]); }
      PendingStep(c, t, s, steps[0]);
      PendingAlways(c, t, next, steps[1..]);
    }
  }

  /** No signal is lost: once signal_thread has raised the dequeuer's flag between
      two tests, the next iteration that makes a test and is not ended by the
      shutdown has rotated. */
  lemma SignalAnswered(c: Config, s: State, steps: seq<Step>)
    requires Enabled(c, s, SigRotateDeq) && (s.deq.pc == DLoop || s.deq.pc == DRead || s.deq.pc == DTest)
    requires var t := Do(c, s, SigRotateDeq);
             && Run(c, t, steps) && !After(c, t, steps).flags.done
             && After(c, t, steps).deq.pc == DLoop && After(c, t, steps).h.tests != t.h.tests
    ensures After(c, Do(c, s, SigRotateDeq), steps).h.rotations > s.h.rotations
  {
    var t := Do(c, s, SigRotateDeq);
    PendingAlways(c, t, t, steps);
  }

  /** The enqueuer's iteration that started its rotate test at t with its flag up. */
  ghost predicate EnqAnswering(t: State, s: State) {
    match s.enq.pc
    case ETest => s.flags.rotEnq && s.h.reports == t.h.reports
    case EReport => s.h.reports == t.h.reports
    case EClear => s.h.reports == t.h.reports + 1
    case EWrite => !s.flags.rotEnq && s.h.reports == t.h.reports + 1
    case ELoop => !s.flags.rotEnq && s.h.reports == t.h.reports + 1
    case _ => false
  }

  lemma EnqAnsweringStep(c: Config, t: State, s: State, step: Step)
    requires EnqAnswering(t, s) && Enabled(c, s, step) && step != SigRotate && step != EnqLoop && !Do(c, s, step).flags.done
    ensures EnqAnswering(t, Do(c, s, step))
  {
  }

  lemma {:induction false} EnqAnsweringAlways(c: Config, t: State, s: State, steps: seq<Step>)
    requires EnqAnswering(t, s) && Run(c, s, steps) && !After(c, s, steps).flags.done
    requires forall k | 0 <= k < |steps| :: steps[k] != SigRotate && steps[k] != EnqLoop
    ensures EnqAnswering(t, After(c, s, steps))
    decreases |steps|
  {
    if steps != [] {
      var next := Do(c, s, steps[0]);
      if next.flags.done { DoneStays(c, next, steps[1..]); }
      EnqAnsweringStep(c, t, s, steps[0]);
      EnqAnsweringAlways(c, t, next, steps[1..]);
    }
  }

  /** A test of the enqueuer that finds its flag up makes one report and clears the
      flag: unless another signal comes meanwhile, it is down at the head of the loop. */
  lemma RaisedFlagReports(c: Config, t: State, steps: seq<Step>)
    requires t.enq.pc == ETest && t.flags.rotEnq && Run(c, t, steps)
    requires forall k | 0 <= k < |steps| :: steps[k] != SigRotate && steps[k] != EnqLoop
    requires After(c, t, steps).enq.pc == ELoop && !After(c, t, steps).flags.done
    ensures After(c, t, steps).h.reports == t.h.reports + 1 && !After(c, t, steps).flags.rotEnq
  {
    EnqAnsweringAlways(c, t, t, steps);
  }

  /** Likewise for the enqueuer's flag: it is up and has not been tested since, or
      a report has been made or is about to be. */
  ghost predicate EnqPending(t: State, s: State) {
    || s.h.reports > t.h.reports
    || (s.h.reports == t.h.reports && s.flags.rotEnq && s.h.enqTests == t.h.enqTests
        && (s.enq.pc == ELoop || s.enq.pc == ERecv || s.enq.pc == ETest))
    || (s.h.reports == t.h.reports && s.enq.pc == EReport)
  }

  lemma EnqPendingStep(c: Config, t: State, s: State, step: Step)
    requires EnqPending(t, s) && Enabled(c, s, step) && !Do(c, s, step).flags.done
    ensures EnqPending(t, Do(c, s, step))
  {
  }

  lemma {:induction false} EnqPendingAlways(c: Config, t: State, s: State, steps: seq<Step>)
    requires EnqPending(t, s) && Run(c, s, steps) && !After(c, s, steps).flags.done
    ensures EnqPending(t, After(c, s, steps))
    decreases |steps|
  {
    if steps != [] {
      var next := Do(c, s, steps[0]);
      if next.flags.done { DoneStays(c, next, steps[1..]); }
      EnqPendingStep(c, t, s, steps[0]);
      EnqPendingAlways(c, t, next, steps[1..]);
    }
  }

  /** A signal that comes between two tests of the enqueuer has been reported when
      it is back at the head of its loop after its next test. */
  lemma SignalReported(c: Config, s: State, steps: seq<Step>)
    requires Enabled(c, s, SigRotate) && (s.enq.pc == ELoop || s.enq.pc == ERecv || s.enq.pc == ETest)
    requires var t := Do(c, s, SigRotate);
             && Run(c, t, steps) && !After(c, t, steps).flags.done
             && After(c, t, steps).enq.pc == ELoop && After(c, t, steps).h.enqTests != t.h.enqTests
    ensures After(c, Do(c, s, SigRotate), steps).h.reports > s.h.reports
  {
    var t := Do(c, s, SigRotate);
    EnqPendingAlways(c, t, t, steps);
  }

  // ----- what the counts of the history count

  /** Closed segments are those of the rotations and of the end; commands are the
      rotate commands among the messages dequeued. */
  ghost predicate Counted(s: State) {
    && |s.jrn.closed| == s.h.rotations + (if s.deq.pc == DDrain || s.deq.pc == DDone then 1 else 0)
    && s.h.commands == Count(s.h.handed + InFlight(s), IsRotate)
  }

  lemma CountedMessage(c: Config, s: State)
    requires Inv(c, s) && Counted(s) && Enabled(c, s, DeqMessage)
    ensures Counted(DoDeq(c, s, DeqMessage))
  {
    var m := s.queue[0];
    MessageName(s.deq.buf, m);
    assert s.h.handed + [] == s.h.handed;
    assert Init(s.h.handed + [m]) == s.h.handed && Last(s.h.handed + [m]) == m;
  }

  lemma CountedWrite(c: Config, s: State, ok: bool)
    requires Counted(s) && Enabled(c, s, DeqWrite(ok))
    ensures Counted(DoDeq(c, s, DeqWrite(ok)))
  {
    var t := DoDeq(c, s, DeqWrite(ok));
    assert t.h.handed + InFlight(t) == s.h.handed + InFlight(s);
  }

  lemma CountedMoves(c: Config, s: State, step: Step)
    requires Inv(c, s) && Counted(s) && Enabled(c, s, step) && !step.DeqMessage? && !step.DeqWrite?
    ensures Counted(DoDeq(c, s, step))
  {
  }

  lemma CountedStep(c: Config, s: State, step: Step)
    requires Inv(c, s) && Counted(s) && Enabled(c, s, step)
    ensures Counted(Do(c, s, step))
    ensures Do(c, s, step).h.signals == s.h.signals + if step == SigRotate then 1 else 0
  {
    if Do(c, s, step) != DoDeq(c, s, step) {
      OthersLeave(c, s, step);
    } else if step.DeqMessage? {
      CountedMessage(c, s);
    } else if step.DeqWrite? {
      CountedWrite(c, s, step.ok);
    } else {
      CountedMoves(c, s, step);
    }
  }

  lemma {:induction false} CountsAlways(c: Config, s: State, steps: seq<Step>)
    requires Inv(c, s) && Counted(s) && Run(c, s, steps)
    ensures Counted(After(c, s, steps)) && After(c, s, steps).h.signals == s.h.signals + Steps(steps, (step: Step) => step == SigRotate)
    decreases |steps|
  {
    if steps != [] {
      InvStep(c, s, steps[0]);
      CountedStep(c, s, steps[0]);
      CountsAlways(c, Do(c, s, steps[0]), steps[1..]);
    }
  }

  predicate EnqReads(step: Step) { step.EnqDatagram? || step.EnqInterrupted? }
  predicate DeqReads(step: Step) { step.DeqMessage? || step.DeqInterrupted? }

  /** The steps of a run that are of this kind. */
  function Steps(steps: seq<Step>, kind: Step -> bool): nat {
    if steps == [] then 0 else Unit(kind(steps[0])) + Steps(steps[1..], kind)
  }

  function EnqTested(s: State): nat { s.h.enqTests + Unit(s.enq.pc == ETest) }
  function DeqTested(s: State): nat { |s.h.tests| + Unit(s.deq.pc == DTest) }

  lemma TestedStep(c: Config, s: State, step: Step)
    requires Enabled(c, s, step)
    ensures EnqTested(Do(c, s, step)) == EnqTested(s) + Unit(EnqReads(step))
    ensures DeqTested(Do(c, s, step)) == DeqTested(s) + Unit(DeqReads(step))
  {
    if Do(c, s, step) == DoDeq(c, s, step) { TestedDeq(c, s, step); } else { OthersLeave(c, s, step); }
  }

  lemma TestedDeq(c: Config, s: State, step: Step)
    requires Enabled(c, s, step) && Do(c, s, step) == DoDeq(c, s, step)
    ensures EnqTested(DoDeq(c, s, step)) == EnqTested(s) + Unit(EnqReads(step))
    ensures DeqTested(DoDeq(c, s, step)) == DeqTested(s) + Unit(DeqReads(step))
  {
  }

  /** In every run each thread makes one rotate test for every read that did not
      fail, and none for a read that failed. */
  lemma {:induction false} TestsCounted(c: Config, s: State, steps: seq<Step>)
    requires Run(c, s, steps)
    ensures EnqTested(After(c, s, steps)) == EnqTested(s) + Steps(steps, EnqReads)
    ensures DeqTested(After(c, s, steps)) == DeqTested(s) + Steps(steps, DeqReads)
    decreases |steps|
  {
    if steps != [] {
      TestedStep(c, s, steps[0]);
      TestsCounted(c, Do(c, s, steps[0]), steps[1..]);
    }
  }

  // ----- what gbl_done brings about

  /** What the iterations under way may still receive and hand over. */
  ghost function MayReceive(s: State): nat {
    |s.h.received| + if s.enq.pc == ERecv then 1 else 0
  }

  ghost function MayHand(s: State): nat {
    |s.h.handed| + if s.deq.pc == DRead || s.deq.pc == DTest || Tested(s.deq) then 1 else 0
  }

  lemma DoneStep(c: Config, s: State, step: Step)
    requires s.flags.done && Enabled(c, s, step)
    ensures Do(c, s, step).flags.done
    ensures MayReceive(Do(c, s, step)) <= MayReceive(s) && MayHand(Do(c, s, step)) <= MayHand(s)
  {
    if Do(c, s, step) == DoDeq(c, s, step) {
      DoneDeq(c, s, step);
    } else {
      OthersLeave(c, s, step);
      OthersLeaveFlag(c, s, step);
      DoneOthers(c, s, step);
    }
  }

  lemma DoneDeq(c: Config, s: State, step: Step)
    requires s.flags.done && Enabled(c, s, step)
    ensures DoDeq(c, s, step).flags.done && MayHand(DoDeq(c, s, step)) <= MayHand(s)
    ensures MayReceive(DoDeq(c, s, step)) == MayReceive(s)
  {
  }

  lemma DoneOthers(c: Config, s: State, step: Step)
    requires s.flags.done && Enabled(c, s, step) && Do(c, s, step) != DoDeq(c, s, step)
    ensures MayReceive(Do(c, s, step)) <= MayReceive(s)
  {
  }

  /** gbl_done is up exactly when a termination signal has come. */
  lemma {:induction false} DoneIffSignalled(c: Config, s: State, steps: seq<Step>)
    requires Run(c, s, steps)
    ensures After(c, s, steps).flags.done <==> s.flags.done || SigTerm in steps
    decreases |steps|
  {
    if steps != [] {
      assert Do(c, s, steps[0]).flags.done <==> s.flags.done || steps[0] == SigTerm;
      DoneIffSignalled(c, Do(c, s, steps[0]), steps[1..]);
    }
  }

  /** Once gbl_done is up, in every interleaving, at most one more datagram is
      received and at most one more message is handed to the journal. */
  lemma {:induction false} DoneEnds(c: Config, s: State, steps: seq<Step>)
    requires s.flags.done && Run(c, s, steps)
    ensures var t := After(c, s, steps); MayReceive(t) <= MayReceive(s) && MayHand(t) <= MayHand(s)
    ensures |After(c, s, steps).h.received| <= |s.h.received| + 1 && |After(c, s, steps).h.handed| <= |s.h.handed| + 1
    decreases |steps|
  {
    if steps != [] {
      DoneStep(c, s, steps[0]);
      DoneEnds(c, Do(c, s, steps[0]), steps[1..]);
    }
  }

  /** The iteration whose rotate test started at t with gbl_done up: where it stands at s. */
  ghost predicate Ending(t: State, s: State) {
    var d := s.deq;
    && s.flags.done && s.jrn.closed == t.jrn.closed && s.h.rotations == t.h.rotations
    && (s.flags.raising ==> t.flags.raising)
    && (d.pc == DTest || Tested(d) || d.pc == DLoop)
    && (d.pc != DLoop ==> AtHand(d) == AtHand(t.deq) && s.h.handed == t.h.handed)
    && (d.pc == DLoop ==> s.h.handed == t.h.handed + InFlight(t))
    && (d.pc == DClear || d.pc == DWrite || d.pc == DLoop ==> s.h.acted)
    && (d.pc == DWrite || d.pc == DLoop ==> t.flags.raising || !s.flags.rotDeq)
  }

  lemma EndingDeq(c: Config, t: State, s: State, step: Step)
    requires Inv(c, s) && Ending(t, s) && s.deq.pc != DLoop && Enabled(c, s, step)
    ensures Ending(t, DoDeq(c, s, step))
  {
    assert t.h.handed + [] == t.h.handed;
  }

  lemma EndingOthers(c: Config, t: State, s: State, step: Step)
    requires Ending(t, s) && Enabled(c, s, step) && Do(c, s, step) != DoDeq(c, s, step)
    ensures Ending(t, Do(c, s, step))
  {
    OthersLeave(c, s, step);
  }

  lemma {:induction false} EndingAlways(c: Config, t: State, s: State, steps: seq<Step>)
    requires Inv(c, s) && Ending(t, s) && Run(c, s, steps) && OneRound(c, s, steps)
    ensures Ending(t, After(c, s, steps))
    decreases |steps|
  {
    if steps != [] {
      var next := Do(c, s, steps[0]);
      InvStep(c, s, steps[0]);
      if next == DoDeq(c, s, steps[0]) { EndingDeq(c, t, s, steps[0]); } else { EndingOthers(c, t, s, steps[0]); }
      EndingAlways(c, t, next, steps[1..]);
    }
  }

  /** A rotate test that starts with gbl_done up leaves the segments as they are,
      takes the flag down, unless the signal thread is just raising it, and hands
      the message at hand to the open segment. */
  lemma ShutdownTested(c: Config, s: State, before: seq<Step>, round: seq<Step>)
    requires Initial(c, s) && Run(c, s, before) && Run(c, After(c, s, before), round)
    requires var t := After(c, s, before);
             t.deq.pc == DTest && t.flags.done && OneRound(c, t, round) && After(c, t, round).deq.pc == DLoop
    ensures var t := After(c, s, before);
            var u := After(c, t, round);
            && u.h.rotations == t.h.rotations && u.jrn.closed == t.jrn.closed
            && u.h.handed == t.h.handed + InFlight(t)
            && u.h.acted && (t.flags.raising || !u.flags.rotDeq)
  {
    InitialInv(c, s);
    InvAlways(c, s, before);
    EndingAlways(c, After(c, s, before), After(c, s, before), round);
  }

  /** The same of the enqueuer's iteration. */
  ghost predicate EnqEnding(t: State, s: State) {
    && s.flags.done && s.h.reports == t.h.reports
    && match s.enq.pc
       case ETest => true
       case EReport => true
       case EClear => true
       case EWrite => !s.flags.rotEnq
       case ELoop => !s.flags.rotEnq
       case _ => false
  }

  lemma EnqEndingStep(c: Config, t: State, s: State, step: Step)
    requires EnqEnding(t, s) && Enabled(c, s, step) && step != EnqLoop
    ensures EnqEnding(t, Do(c, s, step))
  {
  }

  lemma {:induction false} EnqEndingAlways(c: Config, t: State, s: State, steps: seq<Step>)
    requires EnqEnding(t, s) && Run(c, s, steps) && EnqLoop !in steps
    ensures EnqEnding(t, After(c, s, steps))
    decreases |steps|
  {
    if steps != [] {
      EnqEndingStep(c, t, s, steps[0]);
      EnqEndingAlways(c, t, Do(c, s, steps[0]), steps[1..]);
    }
  }

  /** The enqueuer, with gbl_done up at its test, makes no report but takes its flag down. */
  lemma EnqShutdownTested(c: Config, t: State, steps: seq<Step>)
    requires t.enq.pc == ETest && t.flags.done && Run(c, t, steps) && EnqLoop !in steps
    requires After(c, t, steps).enq.pc == ELoop
    ensures After(c, t, steps).h.reports == t.h.reports && !After(c, t, steps).flags.rotEnq
  {
    EnqEndingAlways(c, t, t, steps);
  }

  // ----- the drain

  /** Signals and the enqueuer leave the dequeuer, the journal and their history alone. */
  lemma OthersLeave(c: Config, s: State, step: Step)
    requires Enabled(c, s, step) && Do(c, s, step) != DoDeq(c, s, step)
    ensures var t := Do(c, s, step);
            && t.deq == s.deq && t.jrn == s.jrn && t.h.drained == s.h.drained && t.h.handed == s.h.handed
            && t.h.raced == s.h.raced && t.h.written == s.h.written && t.h.tests == s.h.tests
            && t.h.rotations == s.h.rotations
  {
  }

  /** Where the drain stands; failed: whether a read has ended it. */
  ghost predicate Draining(c: Config, s: State, failed: bool) {
    var n := |s.h.drained|;
    if s.deq.pc == DDrain then !failed && n + s.deq.left == c.queueMax && (c.queueMax >= 0 ==> s.deq.left >= 0)
    else if s.deq.pc == DDone then c.queueMax >= 0 ==> if failed then n <= c.queueMax else n == c.queueMax + 1
    else !failed && n == 0
  }

  lemma DrainingDeq(c: Config, s: State, step: Step, failed: bool)
    requires Draining(c, s, failed) && (s.deq.pc == DDone && c.queueMax < 0 ==> failed) && Enabled(c, s, step)
    ensures Draining(c, DoDeq(c, s, step), failed || step == DeqDrainEnd)
    ensures DoDeq(c, s, step).deq.pc == DDone && c.queueMax < 0 ==> failed || step == DeqDrainEnd
  {
  }

  lemma {:induction false} DrainingAlways(c: Config, s: State, steps: seq<Step>, failed: bool)
    requires Draining(c, s, failed) && (s.deq.pc == DDone && c.queueMax < 0 ==> failed) && Run(c, s, steps)
    ensures var t, failed' := After(c, s, steps), failed || DeqDrainEnd in steps;
            Draining(c, t, failed') && (t.deq.pc == DDone && c.queueMax < 0 ==> failed')
    decreases |steps|
  {
    if steps != [] {
      if Do(c, s, steps[0]) == DoDeq(c, s, steps[0]) {
        DrainingDeq(c, s, steps[0], failed);
      } else {
        OthersLeave(c, s, steps[0]);
      }
      DrainingAlways(c, Do(c, s, steps[0]), steps[1..], failed || steps[0] == DeqDrainEnd);
    }
  }

  /** The drain ends exactly with a failed read or with the queueMax + 1st message;
      a negative queueMax is no bound. */
  lemma DrainEnds(c: Config, s: State, steps: seq<Step>)
    requires Initial(c, s) && Run(c, s, steps)
    ensures var t := After(c, s, steps);
            var full := c.queueMax >= 0 && |t.h.drained| == c.queueMax + 1;
            && (t.deq.pc == DDone <==> DeqDrainEnd in steps || full)
            && !(DeqDrainEnd in steps && full)
            && (c.queueMax >= 0 ==> |t.h.drained| <= c.queueMax + 1)
  {
    DrainingAlways(c, s, steps, false);
  }

  /** The frames of the datagrams that a run receives. */
  function Arrived(steps: seq<Step>): seq<Msg> {
    if steps == [] then []
    else (if steps[0].EnqDatagram? then [Frame(steps[0].payload, steps[0].receipt)] else []) + Arrived(steps[1..])
  }

  lemma ArrivedStep(c: Config, s: State, step: Step)
    requires Enabled(c, s, step)
    ensures Do(c, s, step).h.received == s.h.received + if step.EnqDatagram? then [Frame(step.payload, step.receipt)] else []
  {
  }

  lemma {:induction false} ArrivedAlways(c: Config, s: State, steps: seq<Step>)
    requires Run(c, s, steps)
    ensures After(c, s, steps).h.received == s.h.received + Arrived(steps)
    decreases |steps|
  {
    if steps != [] {
      ArrivedStep(c, s, steps[0]);
      ArrivedAlways(c, Do(c, s, steps[0]), steps[1..]);
    }
  }

  /** Conservation over whole runs. In every interleaving the received datagrams,
      framed, in receive order and less failed queue writes, are what was handed
      to the journal, then the message in flight, then what the shutdown drain
      removed, then the queue; the drain removes at most queueMax + 1 messages. */
  lemma ConservationAlways(c: Config, s: State, steps: seq<Step>)
    requires Initial(c, s) && Run(c, s, steps)
    ensures var t := After(c, s, steps);
            && t.h.received == Arrived(steps) && |t.h.sent| <= |t.h.received| <= |t.h.sent| + 1
            && |t.h.written| == |t.h.handed|
            && Kept(t.h.received[..|t.h.sent|], t.h.sent) == t.h.handed + InFlight(t) + t.h.drained + t.queue
            && Concat(t.jrn.closed) + t.jrn.open == Kept(t.h.handed, t.h.written)
            && (c.queueMax >= 0 ==> |t.h.drained| <= c.queueMax + 1)
  {
    InitialInv(c, s);
    InvAlways(c, s, steps);
    DrainEnds(c, s, steps);
    ArrivedAlways(c, s, steps);
  }

  // ----- segments

  ghost predicate AllTrue(flags: seq<bool>) {
    forall k | 0 <= k < |flags| :: flags[k]
  }

  /** The messages at hand in the rotate tests. */
  ghost function Messages(tests: seq<Test>): seq<Msg> {
    if tests == [] then []
    else Messages(Init(tests)) + match Last(tests).msg case None => [] case Some(m) => [m]
  }

  ghost function Rotated(segs: seq<seq<Msg>>, rotated: bool): seq<seq<Msg>> {
    if rotated then segs + [[]] else segs
  }

  ghost function With(segs: seq<seq<Msg>>, msg: Option<Msg>): (r: seq<seq<Msg>>)
    requires segs != []
    ensures r != []
  {
    match msg
    case None => segs
    case Some(m) => Join(segs, m)
  }

  /** The intended cut: before the message at hand, wherever that is a rotate
      command or the flag is up. */
  ghost function TestCut(tests: seq<Test>): (segs: seq<seq<Msg>>)
    ensures segs != []
  {
    if tests == [] then [[]]
    else With(Rotated(TestCut(Init(tests)), Calls(Last(tests))), Last(tests).msg)
  }

  /** If the shutdown was seen after the last test had called for a rotation,
      that call did not cut. */
  ghost function CutOf(tests: seq<Test>, raced: bool): seq<seq<Msg>>
    requires raced ==> tests != []
  {
    if raced then With(TestCut(Init(tests)), Last(tests).msg) else TestCut(tests)
  }

  ghost function CallsIn(tests: seq<Test>): nat {
    if tests == [] then 0 else CallsIn(Init(tests)) + if Calls(Last(tests)) then 1 else 0
  }

  /** The cut loses and reorders no message, and makes one segment more than
      there are calls. */
  lemma {:induction false} TestCutExact(tests: seq<Test>)
    ensures Concat(TestCut(tests)) == Messages(tests) && |TestCut(tests)| == 1 + CallsIn(tests)
  {
    if tests == [] {
      OneEmpty<Msg>();
    } else {
      var segs, last := TestCut(Init(tests)), Last(tests);
      TestCutExact(Init(tests));
      ConcatSnoc(segs, []);
      assert Concat(segs) + [] == Concat(segs);
      if last.msg.Some? { ConcatJoin(Rotated(segs, Calls(last)), last.msg.value); }
    }
  }

  predicate Tested(d: Deq) {
    d.pc == DTestDone || d.pc == DBody || d.pc == DClear || d.pc == DWrite
  }

  /** The tests recorded so far, from the one under way to those done with. */
  ghost predicate Noted(s: State) {
    var d, h := s.deq, s.h;
    && (Tested(d) ==> h.tests != [] && Last(h.tests).msg == AtHand(d) && Messages(Init(h.tests)) == h.handed)
    && (!Tested(d) ==> Messages(h.tests) == h.handed)
    && (d.pc == DTestDone ==> !Calls(Last(h.tests)))
    && (d.pc == DBody ==> Calls(Last(h.tests)) || s.flags.done)
  }

  /** A shutdown can be seen after a call for a rotation only once, at the very end. */
  ghost predicate RacedLast(s: State) {
    s.h.raced ==>
      && s.flags.done && s.h.tests != [] && Calls(Last(s.h.tests))
      && (s.deq.pc == DClear || s.deq.pc == DWrite || s.deq.pc == DLoop || s.deq.pc == DDrain || s.deq.pc == DDone)
  }

  /** Without rotate signals no flag is ever up. */
  ghost predicate Quiet(s: State) {
    s.h.signals == 0 ==>
      !s.flags.rotDeq && !s.flags.raising && forall k | 0 <= k < |s.h.tests| :: !s.h.tests[k].raised
  }

  ghost predicate SegInv(s: State) {
    Noted(s) && RacedLast(s) && Quiet(s)
  }

  lemma SegInvTest(c: Config, s: State)
    requires Inv(c, s) && SegInv(s) && Enabled(c, s, DeqTest)
    ensures SegInv(DoDeq(c, s, DeqTest))
  {
    assert Init(DoDeq(c, s, DeqTest).h.tests) == s.h.tests;
  }

  lemma SegInvWrite(c: Config, s: State, ok: bool)
    requires Inv(c, s) && SegInv(s) && Enabled(c, s, DeqWrite(ok))
    ensures SegInv(DoDeq(c, s, DeqWrite(ok)))
  {
  }

  lemma SegInvMoves(c: Config, s: State, step: Step)
    requires Inv(c, s) && SegInv(s) && Enabled(c, s, step) && !step.DeqTest? && !step.DeqWrite?
    ensures SegInv(DoDeq(c, s, step))
  {
  }

  lemma SegInvOthers(c: Config, s: State, step: Step)
    requires SegInv(s) && Enabled(c, s, step) && Do(c, s, step) != DoDeq(c, s, step)
    ensures SegInv(Do(c, s, step))
  {
    OthersLeave(c, s, step);
  }

  lemma SegInvStep(c: Config, s: State, step: Step)
    requires Inv(c, s) && SegInv(s) && Enabled(c, s, step)
    ensures SegInv(Do(c, s, step))
  {
    if Do(c, s, step) != DoDeq(c, s, step) {
      SegInvOthers(c, s, step);
    } else if step.DeqTest? {
      SegInvTest(c, s);
    } else if step.DeqWrite? {
      SegInvWrite(c, s, step.ok);
    } else {
      SegInvMoves(c, s, step);
    }
  }

  /** The journal at every step, as the cut of the tests. */
  ghost predicate Segmented(s: State)
    requires SegInv(s)
  {
    var segs, h := s.jrn.closed + [s.jrn.open], s.h;
    if s.deq.pc == DDrain || s.deq.pc == DDone then s.jrn.closed == CutOf(h.tests, h.raced) && s.jrn.open == []
    else if s.deq.pc == DTestDone || s.deq.pc == DBody then segs == TestCut(Init(h.tests))
    else if s.deq.pc == DClear || s.deq.pc == DWrite then
      segs == Rotated(TestCut(Init(h.tests)), Calls(Last(h.tests)) && !h.raced)
    else segs == CutOf(h.tests, h.raced)
  }

  lemma SegmentedTest(c: Config, s: State)
    requires Inv(c, s) && SegInv(s) && Segmented(s) && Enabled(c, s, DeqTest)
    ensures SegInv(DoDeq(c, s, DeqTest)) && Segmented(DoDeq(c, s, DeqTest))
  {
    SegInvTest(c, s);
    assert Init(DoDeq(c, s, DeqTest).h.tests) == s.h.tests;
  }

  lemma SegmentedWrite(c: Config, s: State)
    requires Inv(c, s) && SegInv(s) && Segmented(s) && Enabled(c, s, DeqWrite(true))
    ensures SegInv(DoDeq(c, s, DeqWrite(true))) && Segmented(DoDeq(c, s, DeqWrite(true)))
  {
    SegInvWrite(c, s, true);
    var t := DoDeq(c, s, DeqWrite(true));
    var segs := s.jrn.closed + [s.jrn.open];
    assert Init(segs) == s.jrn.closed && Last(segs) == s.jrn.open;
    assert t.jrn.closed + [t.jrn.open] == With(segs, AtHand(s.deq));
  }

  /** The steps of the dequeuer that hand over nothing. */
  lemma SegmentedMoves(c: Config, s: State, step: Step)
    requires Inv(c, s) && SegInv(s) && Segmented(s) && Enabled(c, s, step) && !step.DeqTest? && !step.DeqWrite?
    ensures SegInv(DoDeq(c, s, step)) && Segmented(DoDeq(c, s, step))
  {
    SegInvMoves(c, s, step);
  }

  lemma SegmentedOther(c: Config, s: State, step: Step)
    requires SegInv(s) && Segmented(s) && Enabled(c, s, step) && Do(c, s, step) != DoDeq(c, s, step)
    ensures SegInv(Do(c, s, step)) && Segmented(Do(c, s, step))
  {
    SegInvOthers(c, s, step);
    OthersLeave(c, s, step);
  }

  /** While no journal write has failed. */
  ghost predicate Unfailed(s: State) {
    AllTrue(s.h.written)
  }

  lemma UnfailedBefore(c: Config, s: State, step: Step)
    requires Enabled(c, s, step) && Unfailed(Do(c, s, step)) && |s.h.written| == |s.h.handed|
    ensures Unfailed(s) && (step.DeqWrite? && s.deq.got.Some? ==> step.ok)
  {
    var t := Do(c, s, step);
    if step.DeqWrite? && s.deq.got.Some? {
      assert forall k | 0 <= k < |s.h.written| :: t.h.written[k] == s.h.written[k];
      assert t.h.written[|s.h.written|] == step.ok;
    }
  }

  lemma SegmentedStep(c: Config, s: State, step: Step)
    requires Inv(c, s) && SegInv(s) && (Unfailed(s) ==> Segmented(s)) && Enabled(c, s, step)
    ensures SegInv(Do(c, s, step)) && (Unfailed(Do(c, s, step)) ==> Segmented(Do(c, s, step)))
  {
    SegInvStep(c, s, step);
    if Unfailed(Do(c, s, step)) {
      UnfailedBefore(c, s, step);
      if Do(c, s, step) != DoDeq(c, s, step) {
        SegmentedOther(c, s, step);
      } else if step.DeqTest? {
        SegmentedTest(c, s);
      } else if step.DeqWrite? {
        assert DoDeq(c, s, step) == DoDeq(c, s, DeqWrite(true));
        SegmentedWrite(c, s);
      } else {
        SegmentedMoves(c, s, step);
      }
    }
  }

  lemma {:induction false} SegmentedAlways(c: Config, s: State, steps: seq<Step>)
    requires Inv(c, s) && SegInv(s) && (Unfailed(s) ==> Segmented(s)) && Run(c, s, steps)
    ensures SegInv(After(c, s, steps)) && (Unfailed(After(c, s, steps)) ==> Segmented(After(c, s, steps)))
    decreases |steps|
  {
    if steps != [] {
      InvStep(c, s, steps[0]);
      SegmentedStep(c, s, steps[0]);
      SegmentedAlways(c, Do(c, s, steps[0]), steps[1..]);
    }
  }

  lemma {:induction false} KeptAll(xs: seq<Msg>, flags: seq<bool>)
    requires |xs| == |flags| && AllTrue(flags)
    ensures Kept(xs, flags) == xs
  {
    if xs != [] {
      KeptAll(Init(xs), Init(flags));
      assert Init(xs) + [Last(xs)] == xs;
    }
  }

  /** A whole run without failed writes whose dequeuer has shut down, with any
      number of rotate signals: what was handed over are the messages of the
      tests, and the closed segments are those messages cut wherever a rotate
      command was at hand or the flag was seen up. A call met by the shutdown
      closes no segment of its own. */
  lemma SignalledSegments(c: Config, s: State, steps: seq<Step>)
    requires Initial(c, s) && Run(c, s, steps) && Unfailed(After(c, s, steps))
    requires After(c, s, steps).deq.pc == DDrain || After(c, s, steps).deq.pc == DDone
    ensures var t := After(c, s, steps);
            && t.h.handed == Messages(t.h.tests)
            && (t.h.raced ==> t.h.tests != [] && Calls(Last(t.h.tests)))
            && t.jrn.closed == CutOf(t.h.tests, t.h.raced)
  {
    InitialInv(c, s);
    SegmentedAlways(c, s, steps);
  }

  /** While there has been no rotate signal and no failed journal write. */
  ghost predicate Calm(s: State) {
    s.h.signals == 0 && Unfailed(s)
  }

  lemma {:induction false} PlainCut(tests: seq<Test>)
    requires forall k | 0 <= k < |tests| :: !tests[k].raised
    ensures TestCut(tests) == PipelineCut(Messages(tests), IsRotate)
  {
    if tests != [] {
      PlainCut(Init(tests));
      var msgs, msg := Messages(Init(tests)), Last(tests).msg;
      if msg.Some? {
        assert Init(msgs + [msg.value]) == msgs;
        JoinEmpty(PipelineCut(msgs, IsRotate), msg.value);
      } else {
        assert msgs + [] == msgs;
      }
    }
  }

  /** Without rotate signals the cut is that of the rotate commands alone. */
  lemma PipelineSegments(c: Config, s: State, steps: seq<Step>)
    requires Initial(c, s) && Run(c, s, steps) && Calm(After(c, s, steps))
    requires After(c, s, steps).deq.pc == DDrain || After(c, s, steps).deq.pc == DDone
    ensures var t := After(c, s, steps);
            && (t.h.raced ==> t.h.handed != [])
            && t.jrn.closed == if t.h.raced then Join(PipelineCut(Init(t.h.handed), IsRotate), Last(t.h.handed))
                               else PipelineCut(t.h.handed, IsRotate)
  {
    SignalledSegments(c, s, steps);
    InitialInv(c, s);
    SegmentedAlways(c, s, steps);
    PlainCutOf(After(c, s, steps).h.tests, After(c, s, steps).h.raced);
  }

  lemma {:induction false} PlainCutOf(tests: seq<Test>, raced: bool)
    requires forall k | 0 <= k < |tests| :: !tests[k].raised
    requires raced ==> tests != [] && Calls(Last(tests))
    ensures var msgs := Messages(tests);
            && (raced ==> msgs != [])
            && CutOf(tests, raced) == if raced then Join(PipelineCut(Init(msgs), IsRotate), Last(msgs))
                                      else PipelineCut(msgs, IsRotate)
  {
    PlainCut(tests);
    if raced {
      PlainCut(Init(tests));
      assert Last(tests).msg.Some?;
      assert Init(Messages(tests)) == Messages(Init(tests));
    }
  }

  lemma AllHandedOver(received: seq<Msg>, sent: seq<bool>, handed: seq<Msg>)
    requires |received| == |sent| && AllTrue(sent)
    requires Kept(received[..|sent|], sent) == handed + [] + [] + []
    ensures handed == received
  {
    var all := received[..|sent|];
    assert all == received;
    KeptAll(all, sent);
    assert handed + [] + [] + [] == handed;
  }

  lemma NothingLeft(c: Config, t: State)
    requires Inv(c, t) && (t.deq.pc == DDrain || t.deq.pc == DDone)
    requires |t.h.sent| == |t.h.received| && t.queue == [] && t.h.drained == []
    ensures Kept(t.h.received[..|t.h.sent|], t.h.sent) == t.h.handed + [] + [] + []
  {
    assert InFlight(t) == [];
  }

  /** If moreover every queue write succeeded, nothing is left in the queue or was
      drained, and no rotate command met the shutdown, the pipeline's segments and
      those of the serial model for the same datagrams are as many, concatenate to
      the same records, and differ by the side their rotate records fall on. */
  lemma PipelineVersusSerial(c: Config, s: State, steps: seq<Step>)
    requires Initial(c, s) && Run(c, s, steps) && Calm(After(c, s, steps))
    requires var t := After(c, s, steps);
             && (t.deq.pc == DDrain || t.deq.pc == DDone) && !t.h.raced
             && |t.h.sent| == |t.h.received| && AllTrue(t.h.sent) && t.queue == [] && t.h.drained == []
    ensures var t := After(c, s, steps);
            var serial := SerialCut(t.h.received, IsRotate);
            && Leads(t.jrn.closed, IsRotate)
            && |serial| == |t.jrn.closed|
            && Concat(t.jrn.closed) == t.h.received == Concat(serial)
            && forall k | 0 <= k < |serial| :: serial[k] == Shifted(t.jrn.closed, k)
  {
    var t := After(c, s, steps);
    PipelineSegments(c, s, steps);
    InitialInv(c, s);
    InvAlways(c, s, steps);
    NothingLeft(c, t);
    AllHandedOver(t.h.received, t.h.sent, t.h.handed);
    PipelineConcat(t.h.received, IsRotate);
    SerialConcat(t.h.received, IsRotate);
    SerialVersusPipeline(t.h.received, IsRotate);
  }
}
