/** The substring search of src/libut/include/utstring.h: table construction,
    scan and wrappers, in both directions. Indices are unbounded integers;
    lengths stay below 2^31, where the casts to int in the scan loops are
    the identity. */
module Kmp {
  import opened Borders
  import opened TableCost

  const INT_LIMIT := 0x8000_0000

  ghost predicate HasEntry(p: Bytes, i: int, table: seq<int>)
    requires 0 <= i <= |p| < |table|
  {
    IsEntry(p, i, table[i])
  }

  /** The table of a needle: strong failure values, then its longest border. */
  ghost predicate IsTable(p: Bytes, table: seq<int>) {
    |table| > |p| && forall i | 0 <= i <= |p| :: HasEntry(p, i, table)
  }

  /** Slot |p| - m of a right-to-left table mirrors entry m of the reversed needle. */
  ghost predicate IsMirrored(p: Bytes, m: int, table: seq<int>)
    requires 0 <= m <= |p| < |table|
  {
    IsEntry(Reverse(p), m, |p| - 1 - table[|p| - m])
  }

  /** The right-to-left table: the mirror image of the table of the reversed
      needle, stored one slot up. */
  ghost predicate IsTableR(p: Bytes, table: seq<int>) {
    |table| > |p| && forall m | 0 <= m <= |p| :: IsMirrored(p, m, table)
  }

  /** The walk of the nested loop of _utstring_BuildTable: from the longest
      border of needle[..i] along the table to the longest one that
      needle[i] continues. */
  method WalkBack(needle: Bytes, table: array<int>, i: int, start: int) returns (j: int, ghost walks: nat)
    requires 0 <= i < |needle| < table.Length
    requires IsLongestBorder(needle, i, start)
    requires forall m | 0 <= m < i :: HasEntry(needle, m, table[..])
    ensures -1 <= j <= start && IsLongestBorder(needle, i + 1, j + 1)
    ensures walks + j <= start + 1
    ensures walks == LoopCost(needle, i, start)
  {
    ghost var entries := table[..];
    walks, j := 0, start;
    while j > -1 && needle[i] != needle[j]
      invariant -1 <= j <= start && Walking(needle, i, j)
      invariant walks + j <= start
      invariant walks + LoopCost(needle, i, j) == LoopCost(needle, i, start)
      decreases j
    {
      assert HasEntry(needle, j, entries);
      StepCost(needle, i, j, table[j]);
      WalkStep(needle, i, j, table[j]);
      walks := walks + 1;
      j := table[j];
    }
    WalkEnd(needle, i, j);
    if j > -1 { walks := walks + 1; }
  }

  /** The storing step of _utstring_BuildTable. */
  method StoreEntry(needle: Bytes, table: array<int>, i: int, j: int) returns (ghost stored: nat)
    requires 0 < i <= |needle| < table.Length && 0 <= j < i && IsLongestBorder(needle, i, j)
    requires forall m | 0 <= m < i :: HasEntry(needle, m, table[..])
    modifies table
    ensures forall m | 0 <= m <= i :: HasEntry(needle, m, table[..])
    ensures stored == if i < |needle| then 1 else 0
  {
    stored := 0;
    ghost var entries := table[..];
    if i < |needle| {
      stored := 1;
      if needle[i] == needle[j] {
        table[i] := table[j];
      } else {
        table[i] := j;
      }
    } else {
      table[i] := j;
    }
    StoreNext(needle, i, j, entries, table[..]);
  }

  lemma StoreNext(p: Bytes, i: int, j: int, before: seq<int>, after: seq<int>)
    requires |before| == |after| > |p| && 0 < i <= |p| && 0 <= j < i && IsLongestBorder(p, i, j)
    requires after == before[i := if i < |p| && p[i] == p[j] then before[j] else j]
    requires forall m | 0 <= m < i :: HasEntry(p, m, before)
    ensures forall m | 0 <= m <= i :: HasEntry(p, m, after)
  {
    if i < |p| {
      assert HasEntry(p, j, before);
      StoreStrong(p, i, j, before[j]);
    }
    forall m | 0 <= m < i ensures HasEntry(p, m, after) {
      assert HasEntry(p, m, before);
    }
  }

  /** _utstring_BuildTable. The table is consulted while it is being filled.
      `walks` counts the comparisons of the nested loops, `stores` those made
      when an entry is stored. All together they are at most two per character
      if and only if the needle has at most two detours. */
  method BuildTable(needle: Bytes, table: array<int>) returns (ghost walks: nat, ghost stores: nat)
    requires table.Length > |needle|
    modifies table
    ensures IsTable(needle, table[..])
    ensures walks <= 2 * |needle| && stores <= |needle|
    ensures needle != [] ==> walks + stores == 2 * (|needle| - 1) + Detours(needle, |needle|)
    ensures walks + stores <= 2 * |needle| <==> Detours(needle, |needle|) <= 2
  {
    walks, stores := 0, 0;
    var i, j := 0, -1;
    table[i] := j;
    while i < |needle|
      invariant 0 <= i <= |needle| && IsLongestBorder(needle, i, j)
      invariant forall m | 0 <= m <= i :: HasEntry(needle, m, table[..])
      invariant walks + j + 1 <= 2 * i
      invariant stores == if i == 0 then 0 else if i < |needle| then i else i - 1
      invariant walks == Walks(needle, i)
    {
      ghost var w, stored := 0, 0;
      RoundCost(needle, i, j);
      j, w := WalkBack(needle, table, i, j);
      walks := walks + w;
      i := i + 1;
      j := j + 1;
      stored := StoreEntry(needle, table, i, j);
      stores := stores + stored;
    }
  }

  /** A needle whose table costs more than two comparisons per character. */
  method CostlyTable() returns (ghost cost: nat)
    ensures cost == 13 > 2 * |COSTLY|
  {
    var table := new int[|COSTLY| + 1];
    ghost var walks, stores := BuildTable(COSTLY, table);
    ThreeDetours();
    cost := walks + stores;
  }

  /** _utstring_find: the leftmost match, within 2 * |haystack| comparisons. */
  method Find(haystack: Bytes, needle: Bytes, table: array<int>) returns (r: int, ghost compares: nat)
    requires 1 <= |needle| < INT_LIMIT && |haystack| < INT_LIMIT
    requires IsTable(needle, table[..])
    ensures r == -1 || MatchAt(haystack, needle, r)
    ensures r == -1 ==> forall s :: !MatchAt(haystack, needle, s)
    ensures forall s | 0 <= s < r :: !MatchAt(haystack, needle, s)
    ensures compares <= 2 * |haystack|
  {
    r, compares := -1, 0;
    var i, j := 0, 0;
    while j < |haystack| && |haystack| - j + i >= |needle|
      invariant 0 <= i && Scanning(haystack, needle, i, j)
      invariant compares + i <= 2 * j
      decreases |haystack| - j
    {
      ghost var before := compares + i;
      while i > -1 && needle[i] != haystack[j]
        invariant Scanning(haystack, needle, i, j)
        invariant compares + i <= before
        decreases i
      {
        assert HasEntry(needle, i, table[..]);
        ScanFallBack(haystack, needle, i, j, table[i]);
        compares := compares + 1;
        i := table[i];
      }
      ScanAdvance(haystack, needle, i, j);
      if i > -1 { compares := compares + 1; }
      i := i + 1;
      j := j + 1;
      if i >= |needle| {
        r := j - i;
        break;
      }
    }
  }

  // ----- right to left: every state is the mirror image of a left-to-right one

  ghost predicate WalkingR(p: Bytes, i: int, j: int) {
    Walking(Reverse(p), |p| - 1 - i, |p| - 1 - j)
  }

  ghost function LoopCostR(p: Bytes, i: int, j: int): nat
    requires 0 <= i < |p| && i < j
  {
    LoopCost(Reverse(p), |p| - 1 - i, |p| - 1 - j)
  }

  ghost function WalksR(p: Bytes, i: int): nat
    requires -1 <= i < |p|
  {
    Walks(Reverse(p), |p| - 1 - i)
  }

  ghost predicate IsLongestBorderR(p: Bytes, i: int, j: int) {
    IsLongestBorder(Reverse(p), |p| - 1 - i, |p| - 1 - j)
  }

  ghost predicate ScanningR(h: Bytes, p: Bytes, i: int, j: int) {
    Scanning(Reverse(h), Reverse(p), |p| - 1 - i, |h| - 1 - j)
  }

  /** A mismatch, seen in the mirror. */
  lemma MismatchR(p: Bytes, i: int, j: int, table: seq<int>)
    requires WalkingR(p, i, j) && j != |p| && p[i] != p[j] && |table| > |p|
    requires IsMirrored(p, |p| - 1 - j, table)
    ensures var q, m, k := Reverse(p), |p| - 1 - i, |p| - 1 - j;
            && 0 <= k < m < |q| && Border(q, m, k) && q[m] != q[k]
            && IsStrong(q, k, |p| - 1 - table[j + 1])
  {
    var q, m, k := Reverse(p), |p| - 1 - i, |p| - 1 - j;
    assert q[m] == p[i] && q[k] == p[j];
    assert |p| - k == j + 1;
  }

  lemma WalkStepR(p: Bytes, i: int, j: int, table: seq<int>)
    requires WalkingR(p, i, j) && j != |p| && p[i] != p[j] && |table| > |p|
    requires IsMirrored(p, |p| - 1 - j, table)
    ensures WalkingR(p, i, table[j + 1]) && j < table[j + 1] <= |p|
  {
    MismatchR(p, i, j, table);
    WalkStep(Reverse(p), |p| - 1 - i, |p| - 1 - j, |p| - 1 - table[j + 1]);
  }

  lemma StepCostR(p: Bytes, i: int, j: int, next: int)
    requires 0 <= i < j < |p| && Border(Reverse(p), |p| - 1 - i, |p| - 1 - j)
    requires Reverse(p)[|p| - 1 - i] != Reverse(p)[|p| - 1 - j] && IsStrong(Reverse(p), |p| - 1 - j, |p| - 1 - next)
    ensures j < next && LoopCostR(p, i, j) == 1 + LoopCostR(p, i, next)
  {
    StepCost(Reverse(p), |p| - 1 - i, |p| - 1 - j, |p| - 1 - next);
  }

  lemma RoundCostR(p: Bytes, i: int, j: int)
    requires 0 <= i < |p| && IsLongestBorderR(p, i, j)
    ensures i < j && WalksR(p, i - 1) == WalksR(p, i) + LoopCostR(p, i, j)
  {
    RoundCost(Reverse(p), |p| - 1 - i, |p| - 1 - j);
  }

  lemma WalkEndR(p: Bytes, i: int, j: int)
    requires WalkingR(p, i, j) && (j == |p| || p[i] == p[j])
    ensures IsLongestBorderR(p, i - 1, j - 1)
  {
    WalkEnd(Reverse(p), |p| - 1 - i, |p| - 1 - j);
  }

  lemma StoreStrongR(p: Bytes, i: int, j: int, before: seq<int>, after: seq<int>)
    requires |before| == |after| > |p| && -1 <= i < |p| - 1 && 0 <= j + 1 <= |p|
    requires IsLongestBorderR(p, i, j)
    requires i < 0 ==> after == before[i + 1 := j]
    requires i >= 0 ==> j >= 0 && after == before[i + 1 := if p[i] == p[j] then before[j + 1] else j]
    requires forall m | 0 <= m < |p| - 1 - i :: IsMirrored(p, m, before)
    ensures forall m | 0 <= m <= |p| - 1 - i :: IsMirrored(p, m, after)
  {
    NewEntryR(p, i, j, before, after);
    forall m | 0 <= m < |p| - 1 - i ensures IsMirrored(p, m, after) {
      assert IsMirrored(p, m, before);
      assert after[|p| - m] == before[|p| - m];
    }
  }

  lemma NewEntryR(p: Bytes, i: int, j: int, before: seq<int>, after: seq<int>)
    requires |before| == |after| > |p| && -1 <= i < |p| - 1 && 0 <= j + 1 <= |p|
    requires IsLongestBorderR(p, i, j)
    requires i < 0 ==> after[i + 1] == j
    requires i >= 0 ==> j >= 0 && after[i + 1] == if p[i] == p[j] then before[j + 1] else j
    requires i >= 0 && p[i] == p[j] ==> 0 <= |p| - 1 - j && IsMirrored(p, |p| - 1 - j, before)
    ensures IsMirrored(p, |p| - 1 - i, after)
  {
    var q, m, k := Reverse(p), |p| - 1 - i, |p| - 1 - j;
    assert |p| - m == i + 1;
    if i >= 0 {
      assert q[m] == p[i] && q[k] == p[j];
      StoreStrong(q, m, k, if p[i] == p[j] then |p| - 1 - before[j + 1] else 0);
    }
  }

  lemma ScanFallBackR(h: Bytes, p: Bytes, i: int, j: int, table: seq<int>)
    requires ScanningR(h, p, i, j) && i < |p| && j >= 0 && p[i] != h[j] && |table| > |p|
    requires IsTableR(p, table)
    ensures ScanningR(h, p, table[i + 1], j) && i < table[i + 1] <= |p|
  {
    assert IsMirrored(p, |p| - 1 - i, table);
    ScanFallBack(Reverse(h), Reverse(p), |p| - 1 - i, |h| - 1 - j, |p| - 1 - table[i + 1]);
  }

  lemma ScanAdvanceR(h: Bytes, p: Bytes, i: int, j: int)
    requires ScanningR(h, p, i, j) && j >= 0 && (i == |p| || p[i] == h[j])
    ensures i > 0 ==> ScanningR(h, p, i - 1, j - 1)
    ensures i == 0 ==> MatchAt(h, p, j)
  {
    ScanAdvance(Reverse(h), Reverse(p), |p| - 1 - i, |h| - 1 - j);
    MirrorMatch(h, p, j);
  }

  /** What a right-to-left scan has excluded so far. */
  lemma ScanExcludesR(h: Bytes, p: Bytes, i: int, j: int)
    requires ScanningR(h, p, i, j)
    ensures forall s | j - i < s :: !MatchAt(h, p, s)
  {
    forall s | j - i < s ensures !MatchAt(h, p, s) {
      MirrorMatch(h, p, s);
    }
  }

  /** The nested loop of _utstring_BuildTableR, the mirror image of WalkBack. */
  method WalkForward(needle: Bytes, table: array<int>, i: int, start: int) returns (j: int, ghost walks: nat)
    requires 0 <= i < |needle| < table.Length && i < start
    requires WalkingR(needle, i, start)
    requires forall m | 0 <= m < |needle| - 1 - i :: IsMirrored(needle, m, table[..])
    ensures start <= j <= |needle| && IsLongestBorderR(needle, i - 1, j - 1)
    ensures walks + start <= j + 1
    ensures walks == LoopCostR(needle, i, start)
  {
    ghost var entries := table[..];
    walks, j := 0, start;
    while j < |needle| && needle[i] != needle[j]
      invariant start <= j <= |needle| && WalkingR(needle, i, j)
      invariant walks + start <= j
      invariant walks + LoopCostR(needle, i, j) == LoopCostR(needle, i, start)
    {
      assert IsMirrored(needle, |needle| - 1 - j, entries);
      MismatchR(needle, i, j, entries);
      StepCostR(needle, i, j, table[j + 1]);
      WalkStepR(needle, i, j, entries);
      walks := walks + 1;
      j := table[j + 1];
    }
    WalkEndR(needle, i, j);
    if j < |needle| { walks := walks + 1; }
  }

  /** The storing step of _utstring_BuildTableR. */
  method StoreEntryR(needle: Bytes, table: array<int>, i: int, j: int) returns (ghost stored: nat)
    requires table.Length > |needle| && -1 <= i < |needle| - 1 && i < j <= |needle| - 1
    requires IsLongestBorderR(needle, i, j)
    requires forall m | 0 <= m < |needle| - 1 - i :: IsMirrored(needle, m, table[..])
    modifies table
    ensures forall m | 0 <= m <= |needle| - 1 - i :: IsMirrored(needle, m, table[..])
    ensures stored == if i >= 0 then 1 else 0
  {
    stored := 0;
    ghost var entries := table[..];
    if i >= 0 {
      stored := 1;
      if needle[i] == needle[j] {
        table[i + 1] := table[j + 1];
      } else {
        table[i + 1] := j;
      }
    } else {
      table[i + 1] := j;
    }
    StoreStrongR(needle, i, j, entries, table[..]);
  }

  /** One round of the outer loop of _utstring_BuildTableR. */
  method RoundR(needle: Bytes, table: array<int>, i: int, j: int) returns (i': int, j': int, ghost walks: nat, ghost stored: nat)
    requires 0 <= i < |needle| < table.Length && i < j <= |needle| && IsLongestBorderR(needle, i, j)
    requires forall m | 0 <= m <= |needle| - 1 - i :: IsMirrored(needle, m, table[..])
    modifies table
    ensures i' == i - 1 && i' < j' <= |needle| - 1 && IsLongestBorderR(needle, i', j')
    ensures forall m | 0 <= m <= |needle| - 1 - i' :: IsMirrored(needle, m, table[..])
    ensures walks + j <= j' + 2 && walks == LoopCostR(needle, i, j)
    ensures stored == if i' >= 0 then 1 else 0
  {
    j', walks := WalkForward(needle, table, i, j);
    i' := i - 1;
    j' := j' - 1;
    stored := StoreEntryR(needle, table, i', j');
  }

  /** _utstring_BuildTableR. Its comparisons are those of the table of the
      reversed needle. */
  method BuildTableR(needle: Bytes, table: array<int>) returns (ghost walks: nat, ghost stores: nat)
    requires table.Length > |needle|
    modifies table
    ensures IsTableR(needle, table[..])
    ensures walks <= 2 * |needle| && stores <= |needle|
    ensures needle != [] ==> walks + stores == 2 * (|needle| - 1) + Detours(Reverse(needle), |needle|)
    ensures walks + stores <= 2 * |needle| <==> Detours(Reverse(needle), |needle|) <= 2
  {
    walks, stores := 0, 0;
    var i := |needle| - 1;
    var j := i + 1;
    table[i + 1] := j;
    assert IsMirrored(needle, 0, table[..]);
    while i >= 0
      invariant -1 <= i < |needle| && i < j <= |needle| && IsLongestBorderR(needle, i, j)
      invariant forall m | 0 <= m <= |needle| - 1 - i :: IsMirrored(needle, m, table[..])
      invariant walks + |needle| - j <= 2 * (|needle| - 1 - i)
      invariant stores == if i >= 0 then |needle| - 1 - i else if needle == [] then 0 else |needle| - 1
      invariant walks == WalksR(needle, i)
    {
      ghost var w, stored := 0, 0;
      RoundCostR(needle, i, j);
      i, j, w, stored := RoundR(needle, table, i, j);
      walks := walks + w;
      stores := stores + stored;
    }
  }

  /** The right-to-left table read backwards, slot by slot, is the left-to-right
      table of the reversed needle. */
  lemma TablesMirror(needle: Bytes, left: seq<int>, right: seq<int>)
    requires IsTable(Reverse(needle), left) && IsTableR(needle, right)
    ensures forall m | 0 <= m <= |needle| :: right[|needle| - m] == |needle| - 1 - left[m]
  {
    forall m | 0 <= m <= |needle| ensures right[|needle| - m] == |needle| - 1 - left[m] {
      assert IsMirrored(needle, m, right) && HasEntry(Reverse(needle), m, left);
      EntryUnique(Reverse(needle), m, left[m], |needle| - 1 - right[|needle| - m]);
    }
  }

  /** _utstring_findR: the rightmost match. */
  method FindR(haystack: Bytes, needle: Bytes, table: array<int>) returns (r: int, ghost compares: nat)
    requires 1 <= |needle| < INT_LIMIT && |haystack| < INT_LIMIT
    requires IsTableR(needle, table[..])
    ensures r == -1 || MatchAt(haystack, needle, r)
    ensures forall s | r < s :: !MatchAt(haystack, needle, s)
    ensures compares <= 2 * |haystack|
  {
    r, compares := -1, 0;
    var j := |haystack| - 1;
    var i := |needle| - 1;
    while j >= 0 && j >= i
      invariant -1 <= j && i < |needle| && ScanningR(haystack, needle, i, j)
      invariant compares + |needle| - 1 - i <= 2 * (|haystack| - 1 - j)
      decreases j
    {
      ghost var before := compares - i;
      while i < |needle| && needle[i] != haystack[j]
        invariant i <= |needle| && ScanningR(haystack, needle, i, j)
        invariant compares - i <= before
      {
        ScanFallBackR(haystack, needle, i, j, table[..]);
        compares := compares + 1;
        i := table[i + 1];
      }
      ScanAdvanceR(haystack, needle, i, j);
      ScanExcludesR(haystack, needle, i, j);
      if i < |needle| { compares := compares + 1; }
      i := i - 1;
      j := j - 1;
      if i < 0 {
        r := j + 1;
        return;
      }
    }
    ScanExcludesR(haystack, needle, i, j);
  }

  /** utstring_find over the contents of a UT_string. A negative start counts
      from the end. The result is the smallest match position at or after it. */
  method StringFind(body: Bytes, start: int, needle: Bytes) returns (r: int)
    requires |body| < INT_LIMIT && |needle| < INT_LIMIT
    requires -|body| <= start
    ensures var from := if start < 0 then |body| + start else start;
            && (r == -1 || (|needle| > 0 && from <= r && MatchAt(body, needle, r)))
            && (|needle| > 0 ==> forall s | from <= s && (r == -1 || s < r) :: !MatchAt(body, needle, s))
  {
    r := -1;
    var from := start;
    if start < 0 {
      from := |body| + start;
    }
    var length := |body| - from;
    if length >= |needle| && |needle| > 0 {
      var table := new int[|needle| + 1];
      ghost var walks, stores := BuildTable(needle, table);
      var hay := body[from..];
      ghost var compares;
      r, compares := Find(hay, needle, table);
      forall s | from <= s ensures MatchAt(body, needle, s) <==> MatchAt(hay, needle, s - from) {
        MatchBehind(body, from, needle, s);
      }
      if r >= 0 {
        r := r + from;
      }
    }
  }

  lemma MatchBehind(body: Bytes, from: int, needle: Bytes, s: int)
    requires 0 <= from <= s && from <= |body|
    ensures MatchAt(body, needle, s) <==> MatchAt(body[from..], needle, s - from)
  {
    if s + |needle| <= |body| {
      assert body[from..][s - from..s - from + |needle|] == body[s..s + |needle|];
    }
  }

  /** utstring_findR. The result is the largest start of a match that lies
      wholly within body[..start + 1]. */
  method StringFindR(body: Bytes, start: int, needle: Bytes) returns (r: int)
    requires |body| < INT_LIMIT && |needle| < INT_LIMIT
    requires start < |body|
    ensures var last := if start < 0 then |body| + start else start;
            && (r == -1 || (|needle| > 0 && r + |needle| <= last + 1 && MatchAt(body, needle, r)))
            && (|needle| > 0 ==> forall s | r < s && s + |needle| <= last + 1 :: !MatchAt(body, needle, s))
  {
    r := -1;
    var last := start;
    if start < 0 {
      last := |body| + start;
    }
    var length := last + 1;
    if length >= |needle| && |needle| > 0 {
      var table := new int[|needle| + 1];
      ghost var walks, stores := BuildTableR(needle, table);
      var hay := body[..length];
      ghost var compares;
      r, compares := FindR(hay, needle, table);
      if r != -1 { assert body[r..r + |needle|] == hay[r..r + |needle|]; }
      forall s | r < s && s + |needle| <= last + 1 ensures !MatchAt(body, needle, s) {
        if MatchAt(body, needle, s) {
          assert hay[s..s + |needle|] == body[s..s + |needle|];
          assert MatchAt(hay, needle, s);
        }
      }
    }
  }
}
