/** LL_SORT2, DL_SORT2 and CDL_SORT2 of src/libut/include/utlist.h and HASH_SRT of
    src/libut/include/uthash.h. The four macros share their text but for the end
    of list test, the prev links and the closing of a pass; here the shape
    selects between those. */
module ListSort {
  import opened Links
  import opened MergeSpec
  import opened Extrema
  import opened Bits

  /** The successor as the sort loops compute it: CDL_SORT2 takes the old head
      for the end of the list. */
  function Follow<K, V>(shape: Shape, oldhead: Node?<K, V>, n: Node<K, V>): Node?<K, V>
    reads n`next
  {
    if shape.Circular? && n.next == oldhead then null else n.next
  }

  /** The elements still to be merged: p and what Follow reaches from it. */
  ghost predicate Ahead<K, V>(shape: Shape, oldhead: Node?<K, V>, p: Node?<K, V>, s: seq<Node<K, V>>)
    reads s`next
  {
    && (p == if s == [] then null else s[0])
    && NextChain(s)
    && (shape.Circular? ==> forall i | 0 < i < |s| :: s[i] != oldhead)
    && (s != [] ==> Follow(shape, oldhead, s[|s| - 1]) == null)
  }

  /** The elements merged so far: linked up to tail, whose next is still open. */
  ghost predicate Built<K, V>(shape: Shape, list: Node?<K, V>, tail: Node?<K, V>, s: seq<Node<K, V>>)
    reads s`next, s`prev
  {
    && (list == if s == [] then null else s[0])
    && (tail == if s == [] then null else s[|s| - 1])
    && NextChain(s)
    && (!shape.Single? && s != [] ==> PrevChain(s) && s[0].prev == null)
  }

  /** The output, the left run and the rest of the input share no element. */
  ghost predicate Parted<T>(out: seq<T>, a: seq<T>, b: seq<T>) {
    Distinct(out) && Distinct(a) && Distinct(b) && Apart(out, a) && Apart(out, b) && Apart(a, b)
  }

  ghost predicate Within<T>(s: seq<T>, nodes: set<T>) {
    forall n | n in s :: n in nodes
  }

  lemma MoveLeft<T>(out: seq<T>, a: seq<T>, b: seq<T>)
    requires Parted(out, a, b) && a != []
    ensures Parted(out + [a[0]], a[1..], b)
  {
  }

  lemma MoveRight<T>(out: seq<T>, a: seq<T>, b: seq<T>)
    requires Parted(out, a, b) && b != []
    ensures Parted(out + [b[0]], a, b[1..])
  {
  }

  /** Append e to the output. */
  method Emit<K, V>(shape: Shape, list: Node?<K, V>, tail: Node?<K, V>, e: Node<K, V>, ghost out: seq<Node<K, V>>)
    returns (list': Node?<K, V>)
    requires Built(shape, list, tail, out) && Distinct(out) && e !in out
    modifies (if tail == null then {} else {tail})`next, e`prev
    ensures Built(shape, list', e, out + [e])
  {
    list' := list;
    if tail != null {
      assert forall i | 0 <= i < |out| - 1 :: out[i] != tail;
      tail.next := e;
    } else {
      list' := e;
    }
    if !shape.Single? {
      e.prev := tail;
    }
    assert forall i | 0 <= i < |out| :: (out + [e])[i] == out[i];
  }

  /** Follow leads from each element to the one behind it, and from the last to null. */
  lemma FollowAhead<K, V>(shape: Shape, oldhead: Node?<K, V>, p: Node?<K, V>, s: seq<Node<K, V>>, k: nat)
    requires Ahead(shape, oldhead, p, s) && k < |s|
    ensures Follow(shape, oldhead, s[k]) == if k + 1 < |s| then s[k + 1] else null
    ensures Ahead(shape, oldhead, Follow(shape, oldhead, s[k]), s[k + 1..])
  {
    if k + 1 < |s| {
      assert s[k].next == s[k + 1] && (shape.Circular? ==> s[k + 1] != oldhead);
      assert s[k + 1..][|s| - k - 2] == s[|s| - 1];
    }
  }

  /** The loop that measures the left run: at most w elements of s, and the
      first element behind them. */
  method SplitRun<K, V>(shape: Shape, oldhead: Node?<K, V>, p: Node<K, V>, w: nat, ghost s: seq<Node<K, V>>)
    returns (psize: nat, q: Node?<K, V>)
    requires w > 0 && s != [] && Ahead(shape, oldhead, p, s)
    ensures psize == Min(w, |s|)
    ensures Ahead(shape, oldhead, q, s[psize..])
  {
    q, psize := p, 0;
    var i := 0;
    while i < w
      invariant 0 <= i == psize <= w && psize < |s|
      invariant q == s[psize] && (psize > 0 ==> Ahead(shape, oldhead, q, s[psize..]))
    {
      FollowAhead(shape, oldhead, p, s, psize);
      psize := psize + 1;
      q := Follow(shape, oldhead, q);
      if q == null { break; }
      i := i + 1;
    }
  }

  /** The left run: its first element is p, its last one's next is open. */
  ghost predicate LeftRun<K, V>(shape: Shape, oldhead: Node?<K, V>, p: Node?<K, V>, psize: nat, a: seq<Node<K, V>>)
    reads a`next
  {
    && psize == |a| && (a != [] ==> p == a[0])
    && NextChain(a)
    && (shape.Circular? ==> forall i | 0 < i < |a| :: a[i] != oldhead)
  }

  /** The part of b that the right run still has. */
  function RightRun<E>(b: seq<E>, qsize: nat): seq<E> { b[..Min(qsize, |b|)] }

  /** The choice of the next element. */
  method Choose<K, V>(shape: Shape, cmp: Cmp<Node<K, V>>, oldhead: Node?<K, V>,
                      p: Node?<K, V>, psize: nat, q: Node?<K, V>, qsize: nat,
                      ghost a: seq<Node<K, V>>, ghost b: seq<Node<K, V>>)
    returns (left: bool, e: Node<K, V>, p': Node?<K, V>, psize': nat, q': Node?<K, V>, qsize': nat)
    requires LeftRun(shape, oldhead, p, psize, a) && Ahead(shape, oldhead, q, b)
    requires psize > 0 || (qsize > 0 && q != null)
    ensures left ==> a != [] && e == a[0] && q' == q && qsize' == qsize
    ensures left ==> LeftRun(shape, oldhead, p', psize', a[1..])
    ensures left ==> Merge(cmp, a, RightRun(b, qsize)) == [e] + Merge(cmp, a[1..], RightRun(b, qsize))
    ensures !left ==> b != [] && e == b[0] && p' == p && psize' == psize && qsize' == qsize - 1
    ensures !left ==> Ahead(shape, oldhead, q', b[1..])
    ensures !left ==> Merge(cmp, a, RightRun(b, qsize)) == [e] + Merge(cmp, a, RightRun(b[1..], qsize'))
  {
    p', psize', q', qsize' := p, psize, q, qsize;
    if psize == 0 {
      left := false;
    } else if qsize == 0 || q == null {
      left := true;
    } else if cmp(p, q) <= 0 {
      left := true;
    } else {
      left := false;
    }
    if left {
      e := p;
      p' := Follow(shape, oldhead, p);
      psize' := psize - 1;
    } else {
      FollowAhead(shape, oldhead, q, b, 0);
      e := q;
      q' := Follow(shape, oldhead, q);
      qsize' := qsize - 1;
      assert RightRun(b, qsize)[1..] == RightRun(b[1..], qsize');
    }
  }

  /** The merge loop's state: out is built, a is the left run at p, b is ahead of q. */
  ghost predicate Merging<K, V>(shape: Shape, oldhead: Node?<K, V>, list: Node?<K, V>, tail: Node?<K, V>,
                                p: Node?<K, V>, psize: nat, q: Node?<K, V>,
                                out: seq<Node<K, V>>, a: seq<Node<K, V>>, b: seq<Node<K, V>>)
    reads out`next, a`next, b`next, out`prev
  {
    && Built(shape, list, tail, out)
    && LeftRun(shape, oldhead, p, psize, a)
    && Ahead(shape, oldhead, q, b)
    && Parted(out, a, b)
  }

  /** Linking the chosen element to the end of the output keeps the state. */
  method Link<K, V>(shape: Shape, oldhead: Node?<K, V>, list: Node?<K, V>, tail: Node?<K, V>,
                    left: bool, e: Node<K, V>, p: Node?<K, V>, psize: nat, q: Node?<K, V>,
                    ghost out: seq<Node<K, V>>, ghost a: seq<Node<K, V>>, ghost b: seq<Node<K, V>>)
    returns (list': Node?<K, V>)
    requires Built(shape, list, tail, out) && Parted(out, a, b)
    requires if left then a != [] && e == a[0] else b != [] && e == b[0]
    requires LeftRun(shape, oldhead, p, psize, if left then a[1..] else a)
    requires Ahead(shape, oldhead, q, if left then b else b[1..])
    modifies (if tail == null then {} else {tail})`next, e`prev
    ensures Merging(shape, oldhead, list', e, p, psize, q, out + [e],
                    if left then a[1..] else a, if left then b else b[1..])
  {
    if left { MoveLeft(out, a, b); } else { MoveRight(out, a, b); }
    assert forall i | 0 <= i < |out| :: out[i] != e;
    list' := Emit(shape, list, tail, e, out);
  }

  /** What choosing e does to the sequences behind the links. */
  lemma ChooseSeqs<E>(cmp: Cmp<E>, left: bool, e: E, out: seq<E>, a: seq<E>, b: seq<E>, qsize: nat, a': seq<E>, b': seq<E>, qsize': nat)
    requires if left then a != [] && a' == a[1..] && b' == b && qsize' == qsize
             else b != [] && a' == a && b' == b[1..] && qsize' == qsize - 1
    requires Merge(cmp, a, RightRun(b, qsize)) == [e] + Merge(cmp, a', RightRun(b', qsize'))
    ensures (out + [e]) + Merge(cmp, a', RightRun(b', qsize')) == out + Merge(cmp, a, RightRun(b, qsize))
    ensures b'[Min(qsize', |b'|)..] == b[Min(qsize, |b|)..]
  {
  }

  /** One round of the merge loop. */
  method MergeStep<K, V>(shape: Shape, cmp: Cmp<Node<K, V>>, oldhead: Node?<K, V>,
                         list: Node?<K, V>, tail: Node?<K, V>,
                         p: Node?<K, V>, psize: nat, q: Node?<K, V>, qsize: nat,
                         ghost out: seq<Node<K, V>>, ghost a: seq<Node<K, V>>, ghost b: seq<Node<K, V>>,
                         ghost nodes: set<Node<K, V>>)
    returns (list': Node?<K, V>, tail': Node?<K, V>, p': Node?<K, V>, psize': nat, q': Node?<K, V>, qsize': nat,
             ghost out': seq<Node<K, V>>, ghost a': seq<Node<K, V>>, ghost b': seq<Node<K, V>>)
    requires Merging(shape, oldhead, list, tail, p, psize, q, out, a, b)
    requires Within(out, nodes) && Within(a, nodes) && Within(b, nodes)
    requires psize > 0 || (qsize > 0 && q != null)
    modifies nodes`next, nodes`prev
    ensures Merging(shape, oldhead, list', tail', p', psize', q', out', a', b')
    ensures Within(out', nodes) && Within(a', nodes) && Within(b', nodes)
    ensures out' + Merge(cmp, a', RightRun(b', qsize')) == out + Merge(cmp, a, RightRun(b, qsize))
    ensures b'[Min(qsize', |b'|)..] == b[Min(qsize, |b|)..]
    ensures |a'| + |b'| < |a| + |b|
  {
    var left, e;
    left, e, p', psize', q', qsize' := Choose(shape, cmp, oldhead, p, psize, q, qsize, a, b);
    a', b', out' := if left then a[1..] else a, if left then b else b[1..], out + [e];
    ChooseSeqs(cmp, left, e, out, a, b, qsize, a', b', qsize');
    list' := Link(shape, oldhead, list, tail, left, e, p', psize', q', out, a, b);
    tail' := e;
  }

  /** The inner while loop: merge the left run a0 with the right run at q0. */
  method MergeRuns<K, V>(shape: Shape, cmp: Cmp<Node<K, V>>, oldhead: Node?<K, V>,
                         list0: Node?<K, V>, tail0: Node?<K, V>,
                         p0: Node?<K, V>, psize0: nat, q0: Node?<K, V>, qsize0: nat,
                         ghost out0: seq<Node<K, V>>, ghost a0: seq<Node<K, V>>, ghost b0: seq<Node<K, V>>,
                         ghost nodes: set<Node<K, V>>)
    returns (list: Node?<K, V>, tail: Node?<K, V>, q: Node?<K, V>, ghost out: seq<Node<K, V>>, ghost b: seq<Node<K, V>>)
    requires Merging(shape, oldhead, list0, tail0, p0, psize0, q0, out0, a0, b0)
    requires Within(out0, nodes) && Within(a0, nodes) && Within(b0, nodes)
    modifies nodes`next, nodes`prev
    ensures out == out0 + Merge(cmp, a0, RightRun(b0, qsize0)) && b == b0[Min(qsize0, |b0|)..]
    ensures Within(out, nodes) && Within(b, nodes)
    ensures Built(shape, list, tail, out) && Ahead(shape, oldhead, q, b) && Parted(out, [], b)
  {
    list, tail, q := list0, tail0, q0;
    var p, psize, qsize := p0, psize0, qsize0;
    out, b := out0, b0;
    ghost var a := a0;
    while psize > 0 || (qsize > 0 && q != null)
      invariant Merging(shape, oldhead, list, tail, p, psize, q, out, a, b)
      invariant Within(out, nodes) && Within(a, nodes) && Within(b, nodes)
      invariant out + Merge(cmp, a, RightRun(b, qsize)) == out0 + Merge(cmp, a0, RightRun(b0, qsize0))
      invariant b[Min(qsize, |b|)..] == b0[Min(qsize0, |b0|)..]
      decreases |a| + |b|
    {
      list, tail, p, psize, q, qsize, out, a, b :=
        MergeStep(shape, cmp, oldhead, list, tail, p, psize, q, qsize, out, a, b, nodes);
    }
    assert a == [] && RightRun(b, qsize) == [];
  }

  /** One round of a pass, on the sequences behind the links. */
  lemma PassStep<E>(cmp: Cmp<E>, out: seq<E>, s: seq<E>, w: nat, a: seq<E>, b: seq<E>)
    requires w > 0 && s != [] && a == s[..Min(w, |s|)] && b == s[Min(w, |s|)..]
    ensures (out + Merge(cmp, a, RightRun(b, w))) + Pass(cmp, b[Min(w, |b|)..], w) == out + Pass(cmp, s, w)
    ensures |b[Min(w, |b|)..]| == |s| - Min(2 * w, |s|)
  {
    RunsOfSplit(s, w, a, b);
    var m, rest := Merge(cmp, a, RightRun(b, w)), Pass(cmp, b[Min(w, |b|)..], w);
    assert Pass(cmp, s, w) == m + rest;
    assert (out + m) + rest == out + (m + rest);
  }

  lemma RunsOfSplit<E>(s: seq<E>, w: nat, a: seq<E>, b: seq<E>)
    requires w > 0 && a == s[..Min(w, |s|)] && b == s[Min(w, |s|)..]
    ensures a == Run1(s, w) && RightRun(b, w) == Run2(s, w) && b[Min(w, |b|)..] == Behind(s, w)
  {
  }

  lemma PartSplit<T>(out: seq<T>, s: seq<T>, k: nat)
    requires Parted(out, [], s) && k <= |s|
    ensures Parted(out, s[..k], s[k..])
  {
  }

  lemma RunStart<K, V>(shape: Shape, oldhead: Node?<K, V>, p: Node<K, V>, s: seq<Node<K, V>>, k: nat)
    requires Ahead(shape, oldhead, p, s) && 0 < k <= |s|
    ensures LeftRun(shape, oldhead, p, k, s[..k])
  {
    var a := s[..k];
    assert forall i | 0 <= i < k :: a[i] == s[i];
  }

  /** The state of a pass between two merges: out is built, rest is ahead of p. */
  ghost predicate Between<K, V>(shape: Shape, oldhead: Node?<K, V>, list: Node?<K, V>, tail: Node?<K, V>, p: Node?<K, V>,
                                out: seq<Node<K, V>>, rest: seq<Node<K, V>>, nodes: set<Node<K, V>>)
    reads out`next, rest`next, out`prev
  {
    && Built(shape, list, tail, out) && Ahead(shape, oldhead, p, rest)
    && Parted(out, [], rest) && Within(out, nodes) && Within(rest, nodes)
  }

  /** The body of the middle while loop: measure the left run, then merge it
      with the run behind it. */
  method MergePair<K, V>(shape: Shape, cmp: Cmp<Node<K, V>>, oldhead: Node?<K, V>,
                         list0: Node?<K, V>, tail0: Node?<K, V>, p: Node<K, V>, w: nat,
                         ghost out0: seq<Node<K, V>>, ghost s: seq<Node<K, V>>, ghost nodes: set<Node<K, V>>)
    returns (list: Node?<K, V>, tail: Node?<K, V>, q: Node?<K, V>, ghost out: seq<Node<K, V>>, ghost rest: seq<Node<K, V>>)
    requires w > 0 && s != [] && Between(shape, oldhead, list0, tail0, p, out0, s, nodes)
    modifies nodes`next, nodes`prev
    ensures |rest| == |s| - Min(2 * w, |s|)
    ensures out + Pass(cmp, rest, w) == out0 + Pass(cmp, s, w)
    ensures Between(shape, oldhead, list, tail, q, out, rest, nodes)
  {
    var psize;
    psize, q := SplitRun(shape, oldhead, p, w, s);
    ghost var a, b := s[..psize], s[psize..];
    PassStep(cmp, out0, s, w, a, b);
    PartSplit(out0, s, psize);
    RunStart(shape, oldhead, p, s, psize);
    list, tail, q, out, rest := MergeRuns(shape, cmp, oldhead, list0, tail0, p, psize, q, w, out0, a, b, nodes);
  }

  /** The middle while loop: one pass over the list s that starts at head. */
  method MergePass<K, V>(shape: Shape, cmp: Cmp<Node<K, V>>, head: Node<K, V>, w: nat,
                         ghost s: seq<Node<K, V>>, ghost nodes: set<Node<K, V>>)
    returns (list: Node?<K, V>, tail: Node?<K, V>, nmerges: nat)
    requires w > 0 && s != [] && NextShape(shape, head, s) && Within(s, nodes)
    modifies nodes`next, nodes`prev
    ensures Built(shape, list, tail, Pass(cmp, s, w))
    ensures Distinct(Pass(cmp, s, w)) && Within(Pass(cmp, s, w), nodes)
    ensures nmerges <= 1 <==> |s| <= 2 * w
  {
    var p: Node?<K, V> := head;
    list, tail, nmerges := null, null, 0;
    ghost var out: seq<Node<K, V>>, rest := [], s;
    ghost var goal := Pass(cmp, s, w);
    while p != null
      invariant Between(shape, head, list, tail, p, out, rest, nodes)
      invariant out + Pass(cmp, rest, w) == goal
      invariant Merged(nmerges, |s|, |rest|, w)
      decreases |rest|
    {
      nmerges := nmerges + 1;
      list, tail, p, out, rest := MergePair(shape, cmp, head, list, tail, p, w, out, rest, nodes);
    }
    assert out == goal;
  }

  /** What the number of merges tells while `left` of `all` elements are unmerged. */
  ghost predicate Merged(nmerges: nat, all: nat, left: nat, w: nat) {
    && (nmerges == 0 ==> left == all)
    && (nmerges == 1 ==> left == all - Min(2 * w, all))
    && (nmerges > 1 ==> all > 2 * w)
  }

  /** The statements that end a pass. */
  method ClosePass<K, V>(shape: Shape, list: Node?<K, V>, tail: Node?<K, V>, ghost s: seq<Node<K, V>>, ghost nodes: set<Node<K, V>>)
    requires s != [] && Built(shape, list, tail, s) && Distinct(s) && Within(s, nodes)
    modifies nodes`next, nodes`prev
    ensures Shaped(shape, list, s)
  {
    match shape
    case Single =>
      if tail != null { tail.next := null; }
    case Double =>
      list.prev := tail;
      tail.next := null;
    case Circular =>
      list.prev := tail;
      tail.next := list;
    case AppOrder =>
      if tail != null { tail.next := null; }
  }

  /** The body of the outer while loop. */
  method RunPass<K, V>(shape: Shape, cmp: Cmp<Node<K, V>>, head: Node<K, V>, w: nat,
                       ghost s: seq<Node<K, V>>, ghost nodes: set<Node<K, V>>)
    returns (list: Node?<K, V>, tail: Node?<K, V>, nmerges: nat)
    requires w > 0 && s != [] && NextShape(shape, head, s) && Within(s, nodes)
    modifies nodes`next, nodes`prev
    ensures Shaped(shape, list, Pass(cmp, s, w)) && Within(Pass(cmp, s, w), nodes)
    ensures tail == Pass(cmp, s, w)[|s| - 1]
    ensures nmerges <= 1 <==> |s| <= 2 * w
  {
    list, tail, nmerges := MergePass(shape, cmp, head, w, s, nodes);
    ClosePass(shape, list, tail, Pass(cmp, s, w), nodes);
  }

  /** LL_SORT2, DL_SORT2, CDL_SORT2 and the list part of HASH_SRT. `tail` is what
      HASH_SRT stores in the table; `passes` counts the passes made. */
  method Sort<K, V>(shape: Shape, cmp: Cmp<Node<K, V>>, head: Node?<K, V>, ghost s: seq<Node<K, V>>)
    returns (list: Node?<K, V>, tail: Node?<K, V>, ghost passes: nat)
    requires NextShape(shape, head, s)
    modifies (set n | n in s)`next, (set n | n in s)`prev
    ensures Shaped(shape, list, SortFrom(cmp, s, 1))
    ensures tail == if s == [] then null else SortFrom(cmp, s, 1)[|s| - 1]
    ensures s != [] ==> passes >= 1 && |s| <= Pow2(passes) && (passes > 1 ==> Pow2(passes - 1) < |s|)
  {
    list, tail, passes := head, null, 0;
    if list != null {
      var insize := 1;
      var looping := true;
      ghost var cur, nodes := s, set n | n in s;
      while looping
        invariant Within(cur, nodes) && |cur| == |s| && passes >= 0
        invariant insize == Pow2(passes) && (passes > 0 ==> Pow2(passes - 1) < |s| || passes == 1)
        invariant looping ==> (passes > 0 ==> insize < |s|)
        invariant looping ==> NextShape(shape, list, cur) && SortFrom(cmp, cur, insize) == SortFrom(cmp, s, 1)
        invariant !looping ==> passes > 0 && |s| <= insize && tail == cur[|s| - 1]
        invariant !looping ==> cur == SortFrom(cmp, s, 1) && Shaped(shape, list, cur)
        decreases looping, |s| - insize
      {
        var nmerges;
        list, tail, nmerges := RunPass(shape, cmp, list, insize, cur, nodes);
        cur := Pass(cmp, cur, insize);
        passes := passes + 1;
        if nmerges <= 1 {
          looping := false;
        }
        insize := insize * 2;
      }
    }
  }
}
