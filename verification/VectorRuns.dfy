/** Whole runs of a vector: any sequence of its operations, then fini. */
module VectorRuns {
  import opened UtVector

  /** CopyOp names the source's contents; its source is another vector or the
      vector itself. */
  datatype Op<!V(!new)> =
    | ReserveOp(num: nat) | ClearOp | ExtendOp | PushOp(e: V) | PopOp | ShiftOp | EraseOp(k: nat)
    | CopyOp(src: Vector<V>, contents: seq<V>) | CopySelfOp

  /** The contents after an operation; initial is what init and clear leave of a resource. */
  function Next<V(!new)>(s: seq<V>, initial: V, op: Op<V>): seq<V> {
    match op
    case ReserveOp(_) => s
    case ClearOp => []
    case ExtendOp => s + [initial]
    case PushOp(e) => s + [e]
    case PopOp => if s == [] then s else s[..|s| - 1]
    case ShiftOp => if s == [] then s else s[1..]
    case EraseOp(k) => if k < |s| then s[..k] + s[k + 1..] else s
    case CopyOp(_, contents) => contents
    case CopySelfOp => []
  }

  function After<V(!new)>(s: seq<V>, initial: V, ops: seq<Op<V>>): seq<V>
    decreases |ops|
  {
    if ops == [] then s else After(Next(s, initial, ops[0]), initial, ops[1..])
  }

  /** What utvector_shift and utvector_erase assert: the vector is not empty. */
  predicate AllAllowed<V(!new)>(s: seq<V>, initial: V, ops: seq<Op<V>>)
    decreases |ops|
  {
    ops == [] || ((ops[0].ShiftOp? || ops[0].EraseOp? ==> s != []) && AllAllowed(Next(s, initial, ops[0]), initial, ops[1..]))
  }

  /** The source of a copy is another initialised vector with those contents. */
  ghost predicate Ready<V(!new)>(v: Vector<V>, op: Op<V>)
    reads v`d, if op.CopyOp? then {op.src, op.src.d} else {}
  {
    op.CopyOp? ==> op.src != v && op.src.d != v.d && op.src.Valid() && op.src.Contents() == op.contents
  }

  /** One operation on a vector. What has been finalised stays so, and at no time
      does a number come back to life. */
  method Apply<V(!new)>(v: Vector<V>, op: Op<V>)
    requires v.Valid() && Lawful(v.mm) && Ready(v, op)
    requires op.ShiftOp? || op.EraseOp? ==> v.Contents() != []
    modifies v, v.d
    ensures v.Valid() && v.Contents() == Next(old(v.Contents()), v.mm.initial, op)
    ensures old(v.finalised) <= v.finalised && old(v.next) <= v.next
    ensures v.d == old(v.d) || fresh(v.d)
  {
    match op
    case ReserveOp(num) => v.Reserve(num);
    case ClearOp => v.Clear();
    case ExtendOp => var b := v.Extend();
    case PushOp(e) => var b := v.Push(e);
    case PopOp => var popped, b := v.Pop();
    case ShiftOp => v.Shift();
    case EraseOp(k) => v.Erase(k);
    case CopyOp(src, _) => v.Copy(src);
    case CopySelfOp => v.Copy(v);
  }

  /** After any run the contents are those of the sequence, all slots hold distinct
      live resources, and every resource ever initialised is live in one slot or
      finalised; what had been finalised before stays finalised. */
  method Replay<V(!new)>(v: Vector<V>, ops: seq<Op<V>>)
    requires v.Valid() && Lawful(v.mm) && AllAllowed(v.Contents(), v.mm.initial, ops)
    requires forall k | 0 <= k < |ops| :: Ready(v, ops[k])
    modifies v, v.d
    ensures v.Valid() && v.Contents() == After(old(v.Contents()), v.mm.initial, ops)
    ensures old(v.finalised) <= v.finalised && old(v.next) <= v.next
    ensures forall id: nat | id < v.next ::
              (id in v.finalised <==> id !in v.live) && (id in v.live <==> exists j | 0 <= j < v.n :: v.d[j] == id)
    ensures v.d == old(v.d) || fresh(v.d)
  {
    assert ops[0..] == ops;
    ghost var goal := After(v.Contents(), v.mm.initial, ops);
    for i := 0 to |ops|
      invariant v.Valid() && old(v.finalised) <= v.finalised && old(v.next) <= v.next && (v.d == old(v.d) || fresh(v.d))
      invariant AllAllowed(v.Contents(), v.mm.initial, ops[i..])
      invariant After(v.Contents(), v.mm.initial, ops[i..]) == goal
      invariant forall k | i <= k < |ops| :: Ready(v, ops[k])
    {
      assert ops[i..][0] == ops[i] && ops[i..][1..] == ops[i + 1..];
      Apply(v, ops[i]);
    }
    forall id: nat | id < v.next
      ensures (id in v.finalised <==> id !in v.live) && (id in v.live <==> exists j | 0 <= j < v.n :: v.d[j] == id)
    {
      v.LiveOrFinalised(id);
    }
  }

  /** A vector from init to fini: every resource that was initialised has been finalised. */
  method Lifetime<V(!new)>(mm: Mm<V>, ops: seq<Op<V>>) returns (v: Vector<V>)
    requires Lawful(mm) && AllAllowed([], mm.initial, ops)
    requires forall k | 0 <= k < |ops| && ops[k].CopyOp? :: ops[k].src.Valid() && ops[k].src.Contents() == ops[k].contents
    ensures v.Valid() && v.live == map[] && forall id: nat :: id < v.next <==> id in v.finalised
  {
    v := new Vector(mm);
    Replay(v, ops);
    v.Fini();
  }
}
