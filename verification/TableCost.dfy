/** What the table of the Knuth-Morris-Pratt search costs to build, as a property
    of the needle alone. */
module TableCost {
  import opened Borders

  /** The characters that follow the borders of p[..i] in p, for the borders of
      length k and less, from the longest down. */
  function Continuations(p: Bytes, i: nat, k: int): seq<char>
    requires k < i <= |p|
    decreases k + 1
  {
    if k < 0 then []
    else if Border(p, i, k) then [p[k]] + Continuations(p, i, k - 1)
    else Continuations(p, i, k - 1)
  }

  /** How often the character changes along cs before c is met or cs ends. */
  function Changes(cs: seq<char>, c: char): nat {
    if |cs| <= 1 || cs[0] == c then 0
    else (if cs[1] != cs[0] then 1 else 0) + Changes(cs[1..], c)
  }

  /** The changes of continuation on the way to each character but the first of p[..n]. */
  function Detours(p: Bytes, n: nat): nat
    requires n <= |p|
  {
    if n <= 1 then 0 else Detours(p, n - 1) + Changes(Continuations(p, n - 1, n - 2), p[n - 1])
  }

  /** The comparisons of a nested loop that has just met the continuation `last`
      instead of p[i]: one for each border of length k and less that it visits. */
  function CostBelow(p: Bytes, i: nat, k: int, last: char): nat
    requires k < i < |p|
    decreases k + 1
  {
    if k < 0 then 0
    else if Border(p, i, k) && p[k] != last then 1 + if p[k] == p[i] then 0 else CostBelow(p, i, k - 1, p[k])
    else CostBelow(p, i, k - 1, last)
  }

  /** The comparisons of a nested loop that starts at the border j of p[..i]. */
  function LoopCost(p: Bytes, i: nat, j: int): nat
    requires j < i < |p|
  {
    if j < 0 then 0 else 1 + if p[j] == p[i] then 0 else CostBelow(p, i, j - 1, p[j])
  }

  lemma {:induction false} SkipSame(p: Bytes, i: nat, k: int, t: int, a: char)
    requires -1 <= t <= k < i < |p|
    requires forall m | t < m <= k && Border(p, i, m) :: p[m] == a
    requires t == -1 || (Border(p, i, t) && p[t] != a)
    ensures CostBelow(p, i, k, a) == LoopCost(p, i, t)
    decreases k
  {
    if k > t { SkipSame(p, i, k - 1, t, a); }
  }

  /** Following a table entry after a mismatch costs one comparison. */
  lemma StepCost(p: Bytes, i: nat, j: int, t: int)
    requires i < |p| && Border(p, i, j) && p[i] != p[j] && IsStrong(p, j, t)
    ensures t < j && LoopCost(p, i, j) == 1 + LoopCost(p, i, t)
  {
    forall m | t < m <= j - 1 && Border(p, i, m) ensures p[m] == p[j] {
      BorderNest(p, i, j, m);
      assert !StrongBorder(p, j, m);
    }
    if t != -1 { BorderTrans(p, i, j, t); }
    SkipSame(p, i, j - 1, t, p[j]);
  }

  /** Each change of continuation on the way costs one comparison. */
  lemma {:induction false} CostIsChanges(p: Bytes, i: nat, k: int, last: char)
    requires k < i < |p| && last != p[i]
    ensures CostBelow(p, i, k, last) == Changes([last] + Continuations(p, i, k), p[i])
    decreases k + 1
  {
    var cs := [last] + Continuations(p, i, k);
    assert cs[1..] == Continuations(p, i, k);
    if k >= 0 {
      if Border(p, i, k) {
        assert cs[1..] == [p[k]] + Continuations(p, i, k - 1);
        if p[k] != p[i] { CostIsChanges(p, i, k - 1, p[k]); }
      } else {
        CostIsChanges(p, i, k - 1, last);
      }
    }
  }

  /** No border is longer than the longest. */
  lemma {:induction false} FromLongest(p: Bytes, i: nat, k: int, j: int)
    requires -1 <= j <= k < i <= |p| && IsLongestBorder(p, i, j)
    ensures Continuations(p, i, k) == Continuations(p, i, j)
    decreases k
  {
    if k > j { FromLongest(p, i, k - 1, j); }
  }

  /** The comparisons of the nested loops in the first i rounds of the outer one. */
  function Walks(p: Bytes, i: nat): nat
    requires i <= |p|
  {
    if i == 0 then 0 else i - 1 + Detours(p, i)
  }

  /** One round of the outer loop. */
  lemma RoundCost(p: Bytes, i: nat, j: int)
    requires i < |p| && IsLongestBorder(p, i, j)
    ensures j < i && Walks(p, i + 1) == Walks(p, i) + LoopCost(p, i, j)
  {
    if i > 0 {
      EmptyBorder(p, i);
      FromLongest(p, i, i - 1, j);
      if p[j] != p[i] { CostIsChanges(p, i, j - 1, p[j]); }
    }
  }

  const COSTLY: Bytes := "babbbb"

  /** Six characters with three detours. */
  lemma ThreeDetours()
    ensures Detours(COSTLY, |COSTLY|) == 3
  {
    var p := COSTLY;
    assert |p| == 6 && p[0] == p[2] == p[3] == p[4] == p[5] == 'b' && p[1] == 'a';
    forall n, k | 1 < k < n <= 6 ensures !Border(p, n, k) {
      var prefix, suffix := p[..k], p[n - k..n];
      assert prefix[1] == 'a' && suffix[1] == p[n - k + 1] == 'b';
    }
    forall n | 1 <= n <= 6 ensures Continuations(p, n, 0) == "b" {
      EmptyBorder(p, n);
      assert Continuations(p, n, -1) == [];
    }
    forall n | 2 <= n <= 6 ensures Border(p, n, 1) <==> n > 2 {
      assert p[..1] == [p[0]] && p[n - 1..n] == [p[n - 1]];
    }
    forall n | 3 <= n < 6 ensures Changes(Continuations(p, n, n - 1), p[n]) == 1 {
      FromLongest(p, n, n - 1, 1);
      assert Continuations(p, n, 1) == "ab";
      assert "ab"[1..] == "b";
    }
    assert Continuations(p, 2, 1) == "b";
    assert Detours(p, 3) == 0;
    assert Detours(p, 4) == 1;
    assert Detours(p, 5) == 2;
  }
}
