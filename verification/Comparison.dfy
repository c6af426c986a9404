/** A run of the threaded journaller beside a run of the serial one. */
module Comparison {
  import opened Segments
  import Marshal
  import Header
  import Pipeline
  import Serial
  import SerialSpec

  /** Inputs without depth tests, failed writes and hangups, of which only the
      last may end the program. */
  ghost predicate Plain(inputs: seq<SerialSpec.Input>) {
    && inputs != [] && SerialSpec.Receivable(inputs)
    && forall i | 0 <= i < |inputs| ::
         && SerialSpec.NoDepthTest(inputs[i]) && inputs[i].writeOk && !inputs[i].hangup
         && (i + 1 < |inputs| ==> !inputs[i].terminate)
  }

  /** A run of the pipeline without rotate signals and losses that has shut down. */
  ghost predicate Complete(c: Pipeline.Config, s: Pipeline.State, steps: seq<Pipeline.Step>) {
    && Pipeline.Initial(c, s) && Pipeline.Run(c, s, steps)
    && var t := Pipeline.After(c, s, steps);
       && Pipeline.Calm(t) && (t.deq.pc == Pipeline.DDrain || t.deq.pc == Pipeline.DDone) && !t.h.raced
       && |t.h.sent| == |t.h.received| && Pipeline.AllTrue(t.h.sent) && t.queue == [] && t.h.drained == []
  }

  /** The same records in as many segments: serial segment k is pipeline segment k
      without its leading rotate record, for k > 0, plus the rotate record that
      leads pipeline segment k + 1. */
  ghost predicate SameJournal(serial: seq<seq<Marshal.Msg>>, piped: seq<seq<Marshal.Msg>>) {
    && Leads(piped, Header.IsRotate)
    && |serial| == |piped| && Concat(serial) == Concat(piped)
    && forall k | 0 <= k < |piped| :: serial[k] == Shifted(piped, k)
  }

  lemma CutsCorrespond(c: Pipeline.Config, s: Pipeline.State, steps: seq<Pipeline.Step>)
    requires Complete(c, s, steps)
    ensures var t := Pipeline.After(c, s, steps);
            SameJournal(SerialCut(t.h.received, Header.IsRotate), t.jrn.closed)
  {
    Pipeline.PipelineVersusSerial(c, s, steps);
  }

  method RunSerial(inputs: seq<SerialSpec.Input>, start: nat, end: nat) returns (j: Serial.Journaller)
    requires Plain(inputs)
    ensures j.closed == SerialCut(SerialSpec.FramesOf(inputs), Header.IsRotate)
  {
    var rounds;
    j, rounds := Serial.SerialModel(inputs, start, end);
    assert inputs[..|inputs|] == inputs;
  }

  /** The serial loop, run on the datagrams that a complete run of the pipeline
      received, writes the same journal. */
  method RunBeside(ghost c: Pipeline.Config, ghost s: Pipeline.State, ghost steps: seq<Pipeline.Step>,
                   inputs: seq<SerialSpec.Input>, start: nat, end: nat)
    returns (j: Serial.Journaller)
    requires Complete(c, s, steps) && Plain(inputs)
    requires SerialSpec.FramesOf(inputs) == Pipeline.After(c, s, steps).h.received
    ensures SameJournal(j.closed, Pipeline.After(c, s, steps).jrn.closed)
  {
    CutsCorrespond(c, s, steps);
    j := RunSerial(inputs, start, end);
  }
}
