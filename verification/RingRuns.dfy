/** Whole runs of a byte ring refine a bounded first-in, first-out queue. */
module RingRuns {
  import opened RingBuf

  datatype Op<T> = PutOp(data: seq<T>) | ConsumeOp(len: nat) | ClearOp

  /** One operation on a queue of at most n elements: the queue afterwards, and
      what a put returns. */
  function Fifo<T>(q: seq<T>, n: nat, op: Op<T>): (seq<T>, int)
    requires op.ConsumeOp? ==> op.len <= |q|
  {
    match op
    case PutOp(data) => if |q| + |data| <= n then (q + data, 0) else (q, -1)
    case ConsumeOp(len) => (q[len..], 0)
    case ClearOp => ([], 0)
  }

  /** What ringbuf_mark_consumed asserts: no more is consumed than is pending. */
  predicate Allowed<T>(q: seq<T>, n: nat, ops: seq<Op<T>>)
    decreases |ops|
  {
    ops == [] || ((ops[0].ConsumeOp? ==> ops[0].len <= |q|) && Allowed(Fifo(q, n, ops[0]).0, n, ops[1..]))
  }

  function FifoRun<T>(q: seq<T>, n: nat, ops: seq<Op<T>>): (seq<T>, seq<int>)
    requires Allowed(q, n, ops)
    decreases |ops|
  {
    if ops == [] then (q, [])
    else
      var (q', r) := Fifo(q, n, ops[0]);
      var rest := FifoRun(q', n, ops[1..]);
      (rest.0, [r] + rest.1)
  }

  method Apply<T(0)>(ring: Ring<T>, op: Op<T>) returns (r: int)
    requires ring.Valid() && (op.ConsumeOp? ==> op.len <= |ring.Pending()|)
    modifies ring, ring.d
    ensures ring.Valid() && (ring.Pending(), r) == Fifo(old(ring.Pending()), ring.n, op)
  {
    r := 0;
    match op
    case PutOp(data) => r := ring.Put(data);
    case ConsumeOp(len) => ring.MarkConsumed(len);
    case ClearOp => ring.Clear();
  }

  /** After any run the pending bytes are those of the queue, and so is every
      result on the way. */
  method Replay<T(0)>(ring: Ring<T>, ops: seq<Op<T>>) returns (results: seq<int>)
    requires ring.Valid() && Allowed(ring.Pending(), ring.n, ops)
    modifies ring, ring.d
    ensures ring.Valid() && (ring.Pending(), results) == FifoRun(old(ring.Pending()), ring.n, ops)
  {
    results := [];
    assert ops[0..] == ops;
    ghost var run := FifoRun(ring.Pending(), ring.n, ops);
    for i := 0 to |ops|
      invariant ring.Valid() && Allowed(ring.Pending(), ring.n, ops[i..])
      invariant run.0 == FifoRun(ring.Pending(), ring.n, ops[i..]).0
      invariant run.1 == results + FifoRun(ring.Pending(), ring.n, ops[i..]).1
    {
      assert ops[i..][0] == ops[i] && ops[i..][1..] == ops[i + 1..];
      var r := Apply(ring, ops[i]);
      results := results + [r];
    }
    assert ops[|ops|..] == [] && results + [] == results;
    assert run == (run.0, run.1);
  }
}
