/** How a sequence of records is cut into journal segments: before a rotate
    record by the pipeline, behind it by the serial model. */
module Segments {

  function Last<T>(s: seq<T>): T requires s != [] { s[|s| - 1] }

  function Init<T>(s: seq<T>): seq<T> requires s != [] { s[..|s| - 1] }

  function Concat<T>(ss: seq<seq<T>>): seq<T> {
    if ss == [] then [] else Concat(Init(ss)) + Last(ss)
  }

  /** m joins the last segment. */
  function Join<T>(segs: seq<seq<T>>, m: T): (r: seq<seq<T>>)
    requires segs != []
    ensures |r| == |segs|
    ensures forall k {:trigger r[k]} | 0 <= k < |segs| - 1 :: r[k] == segs[k]
    ensures r[|segs| - 1] == segs[|segs| - 1] + [m]
  {
    Init(segs) + [Last(segs) + [m]]
  }

  /** queue_to_journal rotates before it writes: a rotate record opens a segment. */
  function PipelineCut<T>(recs: seq<T>, rotate: T -> bool): (segs: seq<seq<T>>)
    ensures segs != []
  {
    if recs == [] then [[]]
    else
      var segs := PipelineCut(Init(recs), rotate);
      if rotate(Last(recs)) then segs + [[Last(recs)]] else Join(segs, Last(recs))
  }

  /** serial_model writes before it rotates: a rotate record closes a segment. */
  function SerialCut<T>(recs: seq<T>, rotate: T -> bool): (segs: seq<seq<T>>)
    ensures segs != []
  {
    if recs == [] then [[]]
    else
      var segs := Join(SerialCut(Init(recs), rotate), Last(recs));
      if rotate(Last(recs)) then segs + [[]] else segs
  }

  lemma ConcatJoin<T>(segs: seq<seq<T>>, m: T)
    requires segs != []
    ensures Concat(Join(segs, m)) == Concat(segs) + [m]
  {
    assert Init(Join(segs, m)) == Init(segs);
  }

  lemma ConcatSnoc<T>(segs: seq<seq<T>>, s: seq<T>)
    ensures Concat(segs + [s]) == Concat(segs) + s
  {
    assert Init(segs + [s]) == segs;
  }

  lemma {:induction false} ConcatCons<T>(s: seq<T>, segs: seq<seq<T>>)
    ensures Concat([s] + segs) == s + Concat(segs)
  {
    if segs == [] {
      assert [s] + segs == [] + [s];
      ConcatSnoc([], s);
    } else {
      ConcatCons(s, Init(segs));
      assert Init([s] + segs) == [s] + Init(segs);
    }
  }

  lemma OneEmpty<T>()
    ensures Concat<T>([[]]) == []
  {
    var none: seq<seq<T>> := [];
    ConcatSnoc(none, []);
    assert none + [[]] == [[]];
  }

  lemma JoinEmpty<T>(segs: seq<seq<T>>, m: T)
    ensures Join(segs + [[]], m) == segs + [[m]]
  {
    var more := segs + [[]];
    assert Init(more) == segs && Last(more) == [];
    assert Last(more) + [m] == [m];
  }

  lemma SnocInit<T>(s: seq<T>)
    requires s != []
    ensures Init(s) + [Last(s)] == s
  {
  }

  lemma ConcatCut<T>(segs: seq<seq<T>>, m: T)
    requires segs != []
    ensures Concat(segs + [[m]]) == Concat(Join(segs, m)) == Concat(Join(segs, m) + [[]]) == Concat(segs) + [m]
  {
    ConcatSnoc(segs, [m]);
    ConcatJoin(segs, m);
    ConcatSnoc(Join(segs, m), []);
  }

  /** Neither cut loses or reorders a record. */
  lemma {:induction false} PipelineConcat<T>(recs: seq<T>, rotate: T -> bool)
    ensures Concat(PipelineCut(recs, rotate)) == recs
  {
    if recs == [] {
      OneEmpty<T>();
    } else {
      PipelineConcat(Init(recs), rotate);
      ConcatCut(PipelineCut(Init(recs), rotate), Last(recs));
      SnocInit(recs);
    }
  }

  lemma {:induction false} SerialConcat<T>(recs: seq<T>, rotate: T -> bool)
    ensures Concat(SerialCut(recs, rotate)) == recs
  {
    if recs == [] {
      OneEmpty<T>();
    } else {
      SerialConcat(Init(recs), rotate);
      ConcatCut(SerialCut(Init(recs), rotate), Last(recs));
      SnocInit(recs);
    }
  }

  function Count<T>(recs: seq<T>, rotate: T -> bool): nat {
    if recs == [] then 0 else Count(Init(recs), rotate) + if rotate(Last(recs)) then 1 else 0
  }

  /** Each rotate record makes one more segment. */
  lemma {:induction false} CutsCounted<T>(recs: seq<T>, rotate: T -> bool)
    ensures |PipelineCut(recs, rotate)| == |SerialCut(recs, rotate)| == 1 + Count(recs, rotate)
  {
    if recs != [] { CutsCounted(Init(recs), rotate); }
  }

  /** Every segment but the first starts with a rotate record. */
  ghost predicate Leads<T>(p: seq<seq<T>>, rotate: T -> bool) {
    forall k | 0 < k < |p| :: p[k] != [] && rotate(p[k][0])
  }

  lemma {:induction false} PipelineLeads<T>(recs: seq<T>, rotate: T -> bool)
    ensures Leads(PipelineCut(recs, rotate), rotate)
  {
    if recs != [] {
      PipelineLeads(Init(recs), rotate);
      JoinLeads(PipelineCut(Init(recs), rotate), rotate, Last(recs));
    }
  }

  lemma JoinLeads<T>(p: seq<seq<T>>, rotate: T -> bool, m: T)
    requires p != [] && Leads(p, rotate)
    ensures Leads(Join(p, m), rotate)
  {
    var q := Join(p, m);
    forall k | 0 < k < |q| ensures q[k] != [] && rotate(q[k][0]) {
      assert p[k] != [] && q[k][0] == p[k][0];
    }
  }

  /** Pipeline segment k without its leading record, if k > 0, and the record
      that leads the next one. */
  function Shifted<T>(p: seq<seq<T>>, k: nat): seq<T>
    requires k < |p| && forall j | 0 < j < |p| :: p[j] != []
  {
    (if k > 0 then p[k][1..] else p[0]) + (if k + 1 < |p| then p[k + 1][..1] else [])
  }

  /** The same records, cut by the serial model and by the pipeline: equally many
      segments, and serial segment k is pipeline segment k without its leading
      rotate record, plus the rotate record that leads pipeline segment k + 1. */
  lemma {:induction false} SerialVersusPipeline<T>(recs: seq<T>, rotate: T -> bool)
    ensures var s, p := SerialCut(recs, rotate), PipelineCut(recs, rotate);
            && |s| == |p|
            && Leads(p, rotate)
            && forall k | 0 <= k < |s| :: s[k] == Shifted(p, k)
  {
    PipelineLeads(recs, rotate);
    if recs != [] {
      var m, init := Last(recs), Init(recs);
      SerialVersusPipeline(init, rotate);
      var s0, p0 := SerialCut(init, rotate), PipelineCut(init, rotate);
      var s, p := SerialCut(recs, rotate), PipelineCut(recs, rotate);
      forall k | 0 <= k < |s| ensures s[k] == Shifted(p, k) {
        if k < |p0| {
          assert s0[k] == Shifted(p0, k);
          if rotate(m) { ShiftedCut(p0, m, k); } else { ShiftedJoin(p0, m, k); }
        }
      }
    }
  }

  lemma ShiftedCut<T>(p: seq<seq<T>>, m: T, k: nat)
    requires k < |p| && forall j | 0 < j < |p| :: p[j] != []
    ensures Shifted(p + [[m]], k) == Shifted(p, k) + if k + 1 == |p| then [m] else []
  {
    var q := p + [[m]];
    assert q[k] == p[k];
    if k + 1 < |p| { assert q[k + 1] == p[k + 1]; } else { assert q[k + 1][..1] == [m]; }
  }

  lemma ShiftedJoin<T>(p: seq<seq<T>>, m: T, k: nat)
    requires k < |p| && forall j | 0 < j < |p| :: p[j] != []
    ensures Shifted(Join(p, m), k) == Shifted(p, k) + if k + 1 == |p| then [m] else []
  {
    var q := Join(p, m);
    if k + 1 < |p| {
      assert q[k] == p[k] && q[k + 1][..1] == p[k + 1][..1];
    } else if k > 0 {
      assert q[k][1..] == p[k][1..] + [m];
    }
  }
}
