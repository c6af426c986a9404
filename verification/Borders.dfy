/** Borders of strings, the strong failure function of the Knuth-Morris-Pratt
    search, and the facts about both that the table builders and scanners of
    utstring.h rest on. */
module Borders {

  type Bytes = seq<char>

  /** k is the length of a proper border of the first n characters of p:
      a prefix of p[..n], shorter than n, that is also a suffix of it. */
  predicate Border(p: Bytes, n: int, k: int) {
    0 <= k < n <= |p| && p[..k] == p[n - k..n]
  }

  /** The longest proper border of p[..n]; -1 when n is 0, the one prefix without any. */
  ghost predicate IsLongestBorder(p: Bytes, n: int, t: int) {
    && (t == -1 || Border(p, n, t))
    && forall k | Border(p, n, k) :: k <= t
  }

  /** A border of p[..i] whose continuation differs from p[i], so that falling
      back to it after a mismatch at i is worth a comparison. */
  ghost predicate StrongBorder(p: Bytes, i: int, k: int) {
    i < |p| && Border(p, i, k) && p[k] != p[i]
  }

  /** The strong failure function at i: the longest strong border, or -1. */
  ghost predicate IsStrong(p: Bytes, i: int, t: int) {
    && (t == -1 || StrongBorder(p, i, t))
    && forall k | StrongBorder(p, i, k) :: k <= t
  }

  /** What a finished table holds at position i of 0..|p|. */
  ghost predicate IsEntry(p: Bytes, i: int, t: int) {
    if i < |p| then IsStrong(p, i, t) else IsLongestBorder(p, i, t)
  }

  /** A match of p in h that starts at s. */
  ghost predicate MatchAt(h: Bytes, p: Bytes, s: int) {
    0 <= s && s + |p| <= |h| && h[s..s + |p|] == p
  }

  lemma EntryUnique(p: Bytes, i: int, t: int, t': int)
    requires IsEntry(p, i, t) && IsEntry(p, i, t')
    ensures t == t'
  {
  }

  /** A border of a border is a border. */
  lemma BorderTrans(p: Bytes, n: int, j: int, k: int)
    requires Border(p, n, j) && Border(p, j, k)
    ensures Border(p, n, k)
  {
    assert p[j - k..j] == p[..j][j - k..] == p[n - j..n][j - k..] == p[n - k..n];
  }

  /** The shorter of two borders of the same prefix is a border of the longer. */
  lemma BorderNest(p: Bytes, n: int, j: int, k: int)
    requires Border(p, n, j) && Border(p, n, k) && k < j
    ensures Border(p, j, k)
  {
    assert p[j - k..j] == p[..j][j - k..] == p[n - j..n][j - k..] == p[n - k..n];
  }

  /** A border of p[..n] followed by the same character as p[..n] grows by one. */
  lemma BorderGrow(p: Bytes, n: int, k: int)
    requires Border(p, n, k) && n < |p| && p[k] == p[n]
    ensures Border(p, n + 1, k + 1)
  {
    assert p[..k + 1] == p[..k] + [p[k]];
    assert p[n - k..n + 1] == p[n - k..n] + [p[n]];
  }

  /** Every nonempty border of p[..n+1] grew out of a border of p[..n]. */
  lemma BorderShrink(p: Bytes, n: int, k: int)
    requires Border(p, n + 1, k + 1) && 0 <= k
    ensures Border(p, n, k) && p[k] == p[n]
  {
    var l, r := p[..k + 1], p[n - k..n + 1];
    assert l[k] == r[k];
    assert p[..k] == l[..k] == r[..k] == p[n - k..n];
  }

  lemma EmptyBorder(p: Bytes, n: int)
    requires 0 < n <= |p|
    ensures Border(p, n, 0)
  {
    assert p[..0] == p[n..n] == [];
  }

  /** The state of a walk along the table in search of the longest border of
      p[..i] that p[i] continues: j is a border, or -1, and none beyond j qualifies. */
  ghost predicate Walking(p: Bytes, i: int, j: int) {
    && 0 <= i < |p|
    && (j == -1 || Border(p, i, j))
    && forall k {:trigger Border(p, i, k)} | Border(p, i, k) && p[k] == p[i] :: k <= j
  }

  /** After a mismatch of p[j] with p[i], the table entry of j skips no border
      of p[..i] that p[i] continues. */
  lemma WalkStep(p: Bytes, i: int, j: int, t: int)
    requires Walking(p, i, j) && j != -1 && p[i] != p[j] && IsStrong(p, j, t)
    ensures Walking(p, i, t) && -1 <= t < j
  {
    if t != -1 { BorderTrans(p, i, j, t); }
    forall k | Border(p, i, k) && p[k] == p[i] ensures k <= t {
      BorderNest(p, i, j, k);
      assert StrongBorder(p, j, k);
    }
  }

  /** Where the walk lands: one more than the walk's end is the longest border
      of the next prefix. */
  lemma WalkEnd(p: Bytes, i: int, j: int)
    requires Walking(p, i, j) && (j == -1 || p[i] == p[j])
    ensures IsLongestBorder(p, i + 1, j + 1)
  {
    if j == -1 { EmptyBorder(p, i + 1); } else { BorderGrow(p, i, j); }
    forall k {:trigger Border(p, i + 1, k)} | Border(p, i + 1, k) ensures k <= j + 1 {
      if k > 0 { BorderShrink(p, i, k - 1); }
    }
  }

  /** The entry stored for i when the longest border j of p[..i] is known:
      j itself when it is strong, else the entry of j. */
  lemma StoreStrong(p: Bytes, i: int, j: int, tj: int)
    requires 0 < i < |p| && IsLongestBorder(p, i, j) && 0 <= j
    requires p[i] == p[j] ==> IsStrong(p, j, tj)
    ensures IsStrong(p, i, if p[i] == p[j] then tj else j)
  {
    if p[i] == p[j] {
      if tj != -1 { BorderTrans(p, i, j, tj); }
      forall k | StrongBorder(p, i, k) ensures k <= tj {
        BorderNest(p, i, j, k);
        assert StrongBorder(p, j, k);
      }
    }
  }

  /** The state of a scan: p[..i] matches the text that ends before j, or i is
      -1, and no match starts before the current alignment j - i. */
  ghost predicate Scanning(h: Bytes, p: Bytes, i: int, j: int) {
    && -1 <= i <= j <= |h| && i < |p|
    && (i > -1 ==> h[j - i..j] == p[..i])
    && forall s | s < j - i :: !MatchAt(h, p, s)
  }

  /** A match that starts within the current alignment makes a border of p[..i],
      and one that p[i] does not continue if p[i] mismatches. */
  lemma MatchBorder(h: Bytes, p: Bytes, i: int, j: int, s: int)
    requires Scanning(h, p, i, j) && i > -1 && j < |h| && p[i] != h[j]
    requires MatchAt(h, p, s) && s <= j
    ensures StrongBorder(p, i, j - s)
  {
    var k := j - s;
    assert p[k] == h[s..s + |p|][k] == h[j];
    assert p[..k] == h[s..s + |p|][..k] == h[s..j] == h[j - i..j][i - k..] == p[..i][i - k..] == p[i - k..i];
  }

  lemma ScanFallBack(h: Bytes, p: Bytes, i: int, j: int, t: int)
    requires Scanning(h, p, i, j) && i > -1 && j < |h| && p[i] != h[j] && IsStrong(p, i, t)
    ensures Scanning(h, p, t, j) && t < i
  {
    forall s | s < j - t && MatchAt(h, p, s) ensures false {
      MatchBorder(h, p, i, j, s);
    }
    if t != -1 {
      assert h[j - t..j] == h[j - i..j][i - t..] == p[..i][i - t..] == p[i - t..i];
    }
  }

  /** One more matching character, or a restart behind h[j]: either the whole
      needle is found at the current alignment, or the scan goes on. */
  lemma ScanAdvance(h: Bytes, p: Bytes, i: int, j: int)
    requires Scanning(h, p, i, j) && j < |h| && (i == -1 || p[i] == h[j])
    ensures i + 1 < |p| ==> Scanning(h, p, i + 1, j + 1)
    ensures i + 1 == |p| ==> MatchAt(h, p, j - i)
  {
    if i > -1 {
      assert h[j - i..j + 1] == h[j - i..j] + [h[j]];
      assert p[..i + 1] == p[..i] + [p[i]];
    }
  }

  // ----- mirror images

  function Reverse(s: Bytes): (r: Bytes)
    ensures |r| == |s|
    ensures forall k | 0 <= k < |s| :: r[k] == s[|s| - 1 - k]
  {
    seq(|s|, k requires 0 <= k < |s| => s[|s| - 1 - k])
  }

  lemma ReverseInvolution(s: Bytes)
    ensures Reverse(Reverse(s)) == s
  {
  }

  lemma ReverseSlice(s: Bytes, a: int, b: int)
    requires 0 <= a <= b <= |s|
    ensures Reverse(s)[|s| - b..|s| - a] == Reverse(s[a..b])
  {
  }

  /** Matches of a needle are, mirrored, the matches of the reversed needle in
      the reversed text. */
  lemma MirrorMatch(h: Bytes, p: Bytes, s: int)
    ensures MatchAt(h, p, s) <==> MatchAt(Reverse(h), Reverse(p), |h| - |p| - s)
  {
    if MatchAt(h, p, s) {
      MirrorOfMatch(h, p, s);
    }
    if MatchAt(Reverse(h), Reverse(p), |h| - |p| - s) {
      MirrorOfMatch(Reverse(h), Reverse(p), |h| - |p| - s);
      ReverseInvolution(h);
      ReverseInvolution(p);
    }
  }

  lemma MirrorOfMatch(h: Bytes, p: Bytes, s: int)
    requires MatchAt(h, p, s)
    ensures MatchAt(Reverse(h), Reverse(p), |h| - |p| - s)
  {
    ReverseSlice(h, s, s + |p|);
  }
}
