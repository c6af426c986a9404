/** The bottom-up mergesort that LL_SORT2, DL_SORT2, CDL_SORT2 (utlist.h) and
    HASH_SRT (uthash.h) run in place, as a function on sequences, and what it
    promises about its result. */
module MergeSpec {
  import opened Extrema

  type Cmp<!E> = (E, E) -> int

  /** A tie takes the element of the left run. */
  function Merge<E>(cmp: Cmp<E>, a: seq<E>, b: seq<E>): (r: seq<E>)
    ensures |r| == |a| + |b|
    decreases |a| + |b|
  {
    if a == [] then b
    else if b == [] then a
    else if cmp(a[0], b[0]) <= 0 then [a[0]] + Merge(cmp, a[1..], b)
    else [b[0]] + Merge(cmp, a, b[1..])
  }

  // The runs of w elements that s starts with, cut short by its end, and the rest.
  function Run1<E>(s: seq<E>, w: nat): seq<E> { s[..Min(w, |s|)] }
  function Run2<E>(s: seq<E>, w: nat): seq<E> { s[Min(w, |s|)..Min(2 * w, |s|)] }
  function Behind<E>(s: seq<E>, w: nat): seq<E> { s[Min(2 * w, |s|)..] }

  /** One pass: merge neighbouring runs of w elements. */
  function Pass<E>(cmp: Cmp<E>, s: seq<E>, w: nat): (r: seq<E>)
    requires w > 0
    ensures |r| == |s|
    decreases |s|
  {
    if s == [] then [] else Merge(cmp, Run1(s, w), Run2(s, w)) + Pass(cmp, Behind(s, w), w)
  }

  /** Passes with doubled run length until a pass made a single merge. */
  function SortFrom<E>(cmp: Cmp<E>, s: seq<E>, w: nat): (r: seq<E>)
    requires w > 0
    ensures |r| == |s|
    decreases |s| - w
  {
    if |s| <= 2 * w then Pass(cmp, s, w) else SortFrom(cmp, Pass(cmp, s, w), 2 * w)
  }

  // ----- what the result means

  /** cmp orders the elements of s totally and transitively; different elements may tie. */
  ghost predicate Preorder<E>(cmp: Cmp<E>, s: seq<E>) {
    && (forall x, y | x in s && y in s :: cmp(x, y) <= 0 || cmp(y, x) <= 0)
    && (forall x, y, z | x in s && y in s && z in s && cmp(x, y) <= 0 && cmp(y, z) <= 0 :: cmp(x, z) <= 0)
  }

  ghost predicate Sorted<E>(cmp: Cmp<E>, s: seq<E>) {
    forall i, j | 0 <= i < j < |s| :: cmp(s[i], s[j]) <= 0
  }

  /** Every aligned block of w elements is sorted. */
  ghost predicate RunsSorted<E>(cmp: Cmp<E>, s: seq<E>, w: nat)
    requires w > 0
    decreases |s|
  {
    s != [] ==> Sorted(cmp, s[..Min(w, |s|)]) && RunsSorted(cmp, s[Min(w, |s|)..], w)
  }

  ghost predicate Tie<E>(cmp: Cmp<E>, x: E, y: E) {
    cmp(x, y) <= 0 && cmp(y, x) <= 0
  }

  /** The elements of s that tie with x, in the order of s. */
  ghost function Ties<E>(cmp: Cmp<E>, x: E, s: seq<E>): seq<E> {
    if s == [] then []
    else (if Tie(cmp, x, s[0]) then [s[0]] else []) + Ties(cmp, x, s[1..])
  }

  lemma TiesCons<E>(cmp: Cmp<E>, x: E, e: E, s: seq<E>)
    ensures Ties(cmp, x, [e] + s) == (if Tie(cmp, x, e) then [e] else []) + Ties(cmp, x, s)
  {
    assert ([e] + s)[1..] == s;
  }

  lemma {:induction false} TiesConcat<E>(cmp: Cmp<E>, x: E, a: seq<E>, b: seq<E>)
    ensures Ties(cmp, x, a + b) == Ties(cmp, x, a) + Ties(cmp, x, b)
  {
    if a == [] {
      assert a + b == b;
    } else {
      var e, t := a[0], a[1..];
      assert a + b == [e] + (t + b);
      TiesCons(cmp, x, e, t + b);
      TiesConcat(cmp, x, t, b);
    }
  }

  /** Nothing in a sorted run ties with x when x is strictly below its first element. */
  lemma {:induction false} TiesNone<E>(cmp: Cmp<E>, dom: seq<E>, x: E, y: E, a: seq<E>)
    requires Preorder(cmp, dom) && x in dom && y in dom && forall e | e in a :: e in dom
    requires Tie(cmp, x, y) && forall e | e in a :: cmp(e, y) > 0
    ensures Ties(cmp, x, a) == []
  {
    if a != [] {
      var e := a[0];
      TiesNone(cmp, dom, x, y, a[1..]);
      assert cmp(e, y) > 0;
      assert Tie(cmp, x, e) ==> cmp(e, y) <= 0;
    }
  }

  lemma {:induction false} MergeMultiset<E>(cmp: Cmp<E>, a: seq<E>, b: seq<E>)
    ensures multiset(Merge(cmp, a, b)) == multiset(a) + multiset(b)
    decreases |a| + |b|
  {
    if a != [] && b != [] {
      assert a == [a[0]] + a[1..] && b == [b[0]] + b[1..];
      if cmp(a[0], b[0]) <= 0 {
        MergeMultiset(cmp, a[1..], b);
      } else {
        MergeMultiset(cmp, a, b[1..]);
      }
    }
  }

  lemma MergeMembers<E>(cmp: Cmp<E>, a: seq<E>, b: seq<E>, e: E)
    ensures e in Merge(cmp, a, b) <==> e in a || e in b
  {
    MergeMultiset(cmp, a, b);
    assert e in Merge(cmp, a, b) <==> e in multiset(Merge(cmp, a, b));
    assert e in a <==> e in multiset(a);
    assert e in b <==> e in multiset(b);
  }

  /** A sorted tail stays sorted behind an element that is below all of it. */
  lemma SortedCons<E>(cmp: Cmp<E>, x: E, s: seq<E>)
    requires Sorted(cmp, s) && forall e | e in s :: cmp(x, e) <= 0
    ensures Sorted(cmp, [x] + s)
  {
    var t := [x] + s;
    forall i, j | 0 <= i < j < |t| ensures cmp(t[i], t[j]) <= 0 {
      assert t[j] == s[j - 1];
      if i == 0 { assert s[j - 1] in s; } else { assert t[i] == s[i - 1]; }
    }
  }

  lemma {:induction false} MergeSorted<E>(cmp: Cmp<E>, dom: seq<E>, a: seq<E>, b: seq<E>)
    requires Preorder(cmp, dom)
    requires (forall e | e in a :: e in dom) && (forall e | e in b :: e in dom)
    requires Sorted(cmp, a) && Sorted(cmp, b)
    ensures Sorted(cmp, Merge(cmp, a, b))
    decreases |a| + |b|
  {
    if a == [] || b == [] {
    } else if cmp(a[0], b[0]) <= 0 {
      MergeSorted(cmp, dom, a[1..], b);
      MergeBelow(cmp, dom, a[0], a[1..], b);
      SortedCons(cmp, a[0], Merge(cmp, a[1..], b));
    } else {
      MergeSorted(cmp, dom, a, b[1..]);
      assert a[0] in a && b[0] in b;
      MergeBelow(cmp, dom, b[0], a, b[1..]);
      SortedCons(cmp, b[0], Merge(cmp, a, b[1..]));
    }
  }

  /** x below the heads of two sorted runs is below their merge. */
  lemma MergeBelow<E>(cmp: Cmp<E>, dom: seq<E>, x: E, a: seq<E>, b: seq<E>)
    requires Preorder(cmp, dom) && x in dom
    requires (forall e | e in a :: e in dom) && (forall e | e in b :: e in dom)
    requires Sorted(cmp, a) && Sorted(cmp, b)
    requires a == [] || cmp(x, a[0]) <= 0 || forall e | e in a :: cmp(x, e) <= 0
    requires b == [] || cmp(x, b[0]) <= 0 || forall e | e in b :: cmp(x, e) <= 0
    ensures forall e | e in Merge(cmp, a, b) :: cmp(x, e) <= 0
  {
    forall e | e in Merge(cmp, a, b) ensures cmp(x, e) <= 0 {
      MergeMembers(cmp, a, b, e);
      if e in a { Below(cmp, dom, x, a, e); } else { Below(cmp, dom, x, b, e); }
    }
  }

  lemma Below<E>(cmp: Cmp<E>, dom: seq<E>, x: E, a: seq<E>, e: E)
    requires Preorder(cmp, dom) && x in dom && (forall e | e in a :: e in dom)
    requires Sorted(cmp, a) && e in a
    requires cmp(x, a[0]) <= 0 || forall e | e in a :: cmp(x, e) <= 0
    ensures cmp(x, e) <= 0
  {
    var i :| 0 <= i < |a| && a[i] == e;
    assert a[0] in a && a[0] in dom;
  }

  lemma {:induction false} MergeStable<E>(cmp: Cmp<E>, dom: seq<E>, x: E, a: seq<E>, b: seq<E>)
    requires Preorder(cmp, dom) && x in dom
    requires (forall e | e in a :: e in dom) && (forall e | e in b :: e in dom)
    requires Sorted(cmp, a)
    ensures Ties(cmp, x, Merge(cmp, a, b)) == Ties(cmp, x, a) + Ties(cmp, x, b)
    decreases |a| + |b|
  {
    if a == [] || b == [] {
    } else if cmp(a[0], b[0]) <= 0 {
      MergeStable(cmp, dom, x, a[1..], b);
      StableLeft(cmp, x, a, b);
    } else {
      MergeStable(cmp, dom, x, a, b[1..]);
      if Tie(cmp, x, b[0]) { NoneTies(cmp, dom, x, a, b[0]); }
      StableRight(cmp, x, a, b);
    }
  }

  lemma StableLeft<E>(cmp: Cmp<E>, x: E, a: seq<E>, b: seq<E>)
    requires a != [] && b != [] && cmp(a[0], b[0]) <= 0
    requires Ties(cmp, x, Merge(cmp, a[1..], b)) == Ties(cmp, x, a[1..]) + Ties(cmp, x, b)
    ensures Ties(cmp, x, Merge(cmp, a, b)) == Ties(cmp, x, a) + Ties(cmp, x, b)
  {
    var e, m := a[0], Merge(cmp, a[1..], b);
    var tie := if Tie(cmp, x, e) then [e] else [];
    assert Merge(cmp, a, b) == [e] + m;
    assert Ties(cmp, x, a) == tie + Ties(cmp, x, a[1..]);
    TiesCons(cmp, x, e, m);
    Regroup(tie, Ties(cmp, x, a[1..]), Ties(cmp, x, b));
  }

  lemma Regroup<T>(a: seq<T>, b: seq<T>, c: seq<T>)
    ensures a + (b + c) == (a + b) + c
    ensures a == [] || b == [] ==> a + (b + c) == b + (a + c)
  {
    assert a == [] ==> a + (b + c) == b + c && a + c == c;
    assert b == [] ==> b + c == c && b + (a + c) == a + c;
  }

  lemma StableRight<E>(cmp: Cmp<E>, x: E, a: seq<E>, b: seq<E>)
    requires a != [] && b != [] && cmp(a[0], b[0]) > 0 && (Tie(cmp, x, b[0]) ==> Ties(cmp, x, a) == [])
    requires Ties(cmp, x, Merge(cmp, a, b[1..])) == Ties(cmp, x, a) + Ties(cmp, x, b[1..])
    ensures Ties(cmp, x, Merge(cmp, a, b)) == Ties(cmp, x, a) + Ties(cmp, x, b)
  {
    var e, m := b[0], Merge(cmp, a, b[1..]);
    var tie := if Tie(cmp, x, e) then [e] else [];
    assert Merge(cmp, a, b) == [e] + m;
    assert Ties(cmp, x, b) == tie + Ties(cmp, x, b[1..]);
    TiesCons(cmp, x, e, m);
    Regroup(tie, Ties(cmp, x, a), Ties(cmp, x, b[1..]));
  }

  /** Nothing in a sorted run whose head is above y ties with what ties with y. */
  lemma NoneTies<E>(cmp: Cmp<E>, dom: seq<E>, x: E, a: seq<E>, y: E)
    requires Preorder(cmp, dom) && x in dom && y in dom && Tie(cmp, x, y)
    requires a != [] && Sorted(cmp, a) && cmp(a[0], y) > 0 && forall e | e in a :: e in dom
    ensures Ties(cmp, x, a) == []
  {
    var head := a[0];
    assert head in a;
    forall e | e in a ensures cmp(e, y) > 0 {
      Below(cmp, dom, head, a, e);
    }
    TiesNone(cmp, dom, x, y, a);
  }

  lemma RunsCons<E>(cmp: Cmp<E>, a: seq<E>, b: seq<E>, w: nat)
    requires w > 0 && |a| <= w && (|a| == w || b == [])
    requires Sorted(cmp, a) && RunsSorted(cmp, b, w)
    ensures RunsSorted(cmp, a + b, w)
  {
    if a != [] {
      assert (a + b)[..Min(w, |a + b|)] == a && (a + b)[Min(w, |a + b|)..] == b;
    } else {
      assert a + b == b;
    }
  }

  lemma {:induction false} UnitRuns<E>(cmp: Cmp<E>, s: seq<E>)
    ensures RunsSorted(cmp, s, 1)
  {
    if s != [] { UnitRuns(cmp, s[1..]); }
  }

  lemma SplitRuns<E>(s: seq<E>, w: nat)
    ensures s == Run1(s, w) + Run2(s, w) + Behind(s, w)
  {
  }

  /** A pass permutes its input. */
  lemma {:induction false} PassMultiset<E>(cmp: Cmp<E>, s: seq<E>, w: nat)
    requires w > 0
    ensures multiset(Pass(cmp, s, w)) == multiset(s)
    decreases |s|
  {
    if s != [] {
      var a, b, rest := Run1(s, w), Run2(s, w), Behind(s, w);
      MergeMultiset(cmp, a, b);
      PassMultiset(cmp, rest, w);
      calc {
        multiset(Pass(cmp, s, w));
        multiset(a) + multiset(b) + multiset(rest);
        multiset(a + b + rest);
        { SplitRuns(s, w); }
        multiset(s);
      }
    }
  }

  /** A pass turns sorted runs of w into sorted runs of 2 * w. */
  lemma {:induction false} PassRuns<E>(cmp: Cmp<E>, dom: seq<E>, s: seq<E>, w: nat)
    requires Preorder(cmp, dom) && forall e | e in s :: e in dom
    requires w > 0 && RunsSorted(cmp, s, w)
    ensures RunsSorted(cmp, Pass(cmp, s, w), 2 * w)
    decreases |s|
  {
    if s != [] {
      RunsTail(cmp, s, w);
      MergeSorted(cmp, dom, Run1(s, w), Run2(s, w));
      PassRuns(cmp, dom, Behind(s, w), w);
      RunsCons(cmp, Merge(cmp, Run1(s, w), Run2(s, w)), Pass(cmp, Behind(s, w), w), 2 * w);
    }
  }

  /** A pass over sorted runs reorders no ties. */
  lemma {:induction false} PassStable<E>(cmp: Cmp<E>, dom: seq<E>, s: seq<E>, w: nat, x: E)
    requires Preorder(cmp, dom) && x in dom && forall e | e in s :: e in dom
    requires w > 0 && RunsSorted(cmp, s, w)
    ensures Ties(cmp, x, Pass(cmp, s, w)) == Ties(cmp, x, s)
    decreases |s|
  {
    if s != [] {
      var a, b, rest := Run1(s, w), Run2(s, w), Behind(s, w);
      calc {
        Ties(cmp, x, Pass(cmp, s, w));
        { TiesConcat(cmp, x, Merge(cmp, a, b), Pass(cmp, rest, w)); }
        Ties(cmp, x, Merge(cmp, a, b)) + Ties(cmp, x, Pass(cmp, rest, w));
        { RunsTail(cmp, s, w); PassStable(cmp, dom, rest, w, x); MergeStable(cmp, dom, x, a, b); }
        Ties(cmp, x, a) + Ties(cmp, x, b) + Ties(cmp, x, rest);
        { TiesConcat(cmp, x, a, b); TiesConcat(cmp, x, a + b, rest); }
        Ties(cmp, x, a + b + rest);
        { SplitRuns(s, w); }
        Ties(cmp, x, s);
      }
    }
  }

  /** The first two runs are sorted, and so are those behind them. */
  lemma RunsTail<E>(cmp: Cmp<E>, s: seq<E>, w: nat)
    requires w > 0 && RunsSorted(cmp, s, w) && s != []
    ensures Sorted(cmp, Run1(s, w)) && Sorted(cmp, Run2(s, w)) && RunsSorted(cmp, Behind(s, w), w)
  {
    var t := s[Min(w, |s|)..];
    if t != [] {
      assert Min(2 * w, |s|) == w + Min(w, |t|);
      assert Run2(s, w) == t[..Min(w, |t|)] && Behind(s, w) == t[Min(w, |t|)..];
    }
  }

  lemma {:induction false} SortRuns<E>(cmp: Cmp<E>, dom: seq<E>, s: seq<E>, w: nat, x: E)
    requires Preorder(cmp, dom) && x in dom && forall e | e in s :: e in dom
    requires w > 0 && RunsSorted(cmp, s, w)
    ensures Sorted(cmp, SortFrom(cmp, s, w))
    ensures Ties(cmp, x, SortFrom(cmp, s, w)) == Ties(cmp, x, s)
    decreases |s| - w
  {
    PassRuns(cmp, dom, s, w);
    PassStable(cmp, dom, s, w, x);
    if |s| <= 2 * w {
      var r := Pass(cmp, s, w);
      assert r[..|r|] == r;
    } else {
      PassMultiset(cmp, s, w);
      forall e | e in Pass(cmp, s, w) ensures e in dom {
        assert e in multiset(s);
      }
      SortRuns(cmp, dom, Pass(cmp, s, w), 2 * w, x);
    }
  }

  /** Whatever the comparator, nothing is lost and nothing invented. */
  lemma {:induction false} SortPermutes<E>(cmp: Cmp<E>, s: seq<E>, w: nat)
    requires w > 0
    ensures multiset(SortFrom(cmp, s, w)) == multiset(s)
    decreases |s| - w
  {
    PassMultiset(cmp, s, w);
    if |s| > 2 * w {
      SortPermutes(cmp, Pass(cmp, s, w), 2 * w);
    }
  }

  /** The mergesort yields a sorted, stable permutation under every total preorder. */
  lemma SortCorrect<E>(cmp: Cmp<E>, s: seq<E>)
    requires Preorder(cmp, s)
    ensures multiset(SortFrom(cmp, s, 1)) == multiset(s)
    ensures Sorted(cmp, SortFrom(cmp, s, 1))
    ensures forall x | x in s :: Ties(cmp, x, SortFrom(cmp, s, 1)) == Ties(cmp, x, s)
  {
    SortPermutes(cmp, s, 1);
    UnitRuns(cmp, s);
    if s != [] { SortRuns(cmp, s, s, 1, s[0]); }
    forall x | x in s ensures Ties(cmp, x, SortFrom(cmp, s, 1)) == Ties(cmp, x, s) {
      SortRuns(cmp, s, s, 1, x);
    }
  }
}
