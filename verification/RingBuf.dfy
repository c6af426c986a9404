/** The byte ring of src/libut/src/ringbuf.c. */
module RingBuf {
  import opened Memory

  /** The u bytes from position o on, around the end of d. */
  function Window<T>(d: seq<T>, o: nat, u: nat): (s: seq<T>)
    requires o < |d| && u <= |d|
    ensures |s| == u
  {
    if o + u <= |d| then d[o..o + u] else d[o..] + d[..o + u - |d|]
  }

  function Next(o: nat, u: nat, n: nat): nat { if o + u < n then o + u else o + u - n }

  /** What the copying of ringbuf_put leaves: one piece, or two around the end. */
  function Store<T>(d: seq<T>, i: nat, data: seq<T>): (r: seq<T>)
    requires i < |d| && |data| <= |d|
    ensures |r| == |d|
  {
    if i + |data| <= |d| then Overlay(d, i, data)
    else Overlay(Overlay(d, i, data[..|d| - i]), 0, data[|d| - i..])
  }

  lemma StoredAt<T>(d: seq<T>, i: nat, data: seq<T>, j: nat)
    requires i < |d| && |data| <= |d| && j < |d|
    ensures Store(d, i, data)[j] ==
              if i <= j < i + |data| then data[j - i]
              else if j + |d| < i + |data| then data[j + |d| - i] else d[j]
  {
    if i + |data| > |d| {
      var e := Overlay(d, i, data[..|d| - i]);
      assert e[j] == if i <= j then data[j - i] else d[j];
    }
  }

  lemma WindowAt<T>(d: seq<T>, o: nat, u: nat, k: nat)
    requires o < |d| && u <= |d| && k < u
    ensures Window(d, o, u)[k] == d[Next(o, k, |d|)]
  {
  }

  /** The positions of a window and those behind it do not meet. */
  lemma NextApart(o: nat, u: nat, m: nat, k: nat, n: nat)
    requires o < n && u + m <= n && k < u + m
    ensures var i, j := Next(o, u, n), Next(o, k, n);
            if k < u then !(i <= j < i + m) && !(j + n < i + m)
            else if i <= j then j - i == k - u else j + n < i + m && j + n - i == k - u
  {
  }

  lemma WindowGrowsAt<T>(d: seq<T>, o: nat, u: nat, data: seq<T>, k: nat)
    requires o < |d| && u + |data| <= |d| && k < u + |data|
    ensures Window(Store(d, Next(o, u, |d|), data), o, u + |data|)[k] == if k < u then Window(d, o, u)[k] else data[k - u]
  {
    var i := Next(o, u, |d|);
    var after, j := Store(d, i, data), Next(o, k, |d|);
    WindowAt(after, o, u + |data|, k);
    NextApart(o, u, |data|, k, |d|);
    StoredAt(d, i, data, j);
    assert after[j] == if k < u then d[j] else data[k - u];
    if k < u { WindowAt(d, o, u, k); }
  }

  /** Bytes stored behind a window extend it. */
  lemma WindowGrows<T>(d: seq<T>, o: nat, u: nat, data: seq<T>)
    requires o < |d| && u + |data| <= |d|
    ensures Window(Store(d, Next(o, u, |d|), data), o, u + |data|) == Window(d, o, u) + data
  {
    var w := Window(Store(d, Next(o, u, |d|), data), o, u + |data|);
    forall k | 0 <= k < u + |data| ensures w[k] == (Window(d, o, u) + data)[k] {
      WindowGrowsAt(d, o, u, data, k);
    }
  }

  /** n: allocated size, u: used space, i: input position, o: output position.
      When i == o the ring is empty or full, and only u tells which. */
  class Ring<T(0)> {
    const n: nat
    var u: nat
    var i: nat
    var o: nat
    const d: array<T>

    ghost predicate Valid()
      reads this
    {
      && d.Length == n > 0
      && i < n && o < n && u <= n
      && i == Next(o, u, n)
    }

    /** The pending bytes, oldest first. */
    ghost function Pending(): (s: seq<T>)
      requires Valid()
      reads this, d
      ensures |s| == u
    {
      Window(d[..], o, u)
    }

    /** ringbuf_new. A ring of size 0 could not be advanced: its positions are
        taken modulo n. */
    constructor (sz: nat)
      requires sz > 0
      ensures Valid() && fresh(d) && n == sz && Pending() == []
    {
      n, u, i, o := sz, 0, 0, 0;
      d := new T[sz];
    }

    /** The copying of ringbuf_put, when the free space wraps: two pieces. */
    method CopyAround(data: seq<T>)
      requires Valid() && |data| <= n && o <= i
      modifies d
      ensures d[..] == Store(old(d[..]), i, data)
    {
      var len, b := |data|, n - i;
      assert len <= b ==> data[..len] == data;
      MemCpy(d, i, data[..if b < len then b else len]);
      if len > b { MemCpy(d, 0, data[b..]); }
    }

    /** ringbuf_put, with its assertions. */
    method Put(data: seq<T>) returns (r: int)
      requires Valid()
      modifies this`i, this`u, d
      ensures Valid()
      ensures r == 0 <==> |data| <= n - old(u)
      ensures r == 0 || r == -1
      ensures Pending() == if r == 0 then old(Pending()) + data else old(Pending())
    {
      var len := |data|;
      ghost var d0 := d[..];
      if i < o {
        var a := o - i;
        assert a == n - u;
        if len > a { return -1; }
        MemCpy(d, i, data);
      } else {
        var b := n - i;
        var c := o;
        var a := b + c;
        if i == o { a := n - u; }
        assert a == n - u;
        if len > a { return -1; }
        CopyAround(data);
      }
      WindowGrows(d0, o, u, data);
      Wraps(i, len, n);
      i := (i + len) % n;
      u := u + len;
      r := 0;
    }

    lemma Wraps(a: nat, len: nat, n: nat)
      requires a < n && len <= n
      ensures (a + len) % n == if a + len < n then a + len else a + len - n
    {
    }

    /** ringbuf_get_next_chunk, with its assertions: where the next contiguous
        stretch of pending bytes starts, and its length. */
    method GetNextChunk() returns (at: nat, len: nat)
      requires Valid()
      ensures len == 0 <==> Pending() == []
      ensures at + len <= n && len <= u && d[at..at + len] == Pending()[..len]
      ensures len == u || at + len == n
      ensures len > 0 ==> at == o
    {
      if o < i {
        assert u == i - o;
        return o, u;
      }
      if o == i && u == 0 { return 0, 0; }
      var b := n - o;
      var c := i;
      assert u == b + c;
      return o, b;
    }

    /** ringbuf_mark_consumed */
    method MarkConsumed(len: nat)
      requires Valid() && len <= u
      modifies this`o, this`u
      ensures Valid() && Pending() == old(Pending())[len..]
    {
      Wraps(o, len, n);
      o := (o + len) % n;
      u := u - len;
    }

    /** ringbuf_clear */
    method Clear()
      requires Valid()
      modifies this`u, this`i, this`o
      ensures Valid() && Pending() == []
    {
      u, i, o := 0, 0, 0;
    }

    /** Two rounds of taking a chunk and marking it consumed drain any ring. */
    method Drain() returns (first: seq<T>, second: seq<T>)
      requires Valid()
      modifies this`o, this`u
      ensures Valid() && Pending() == [] && first + second == old(Pending())
    {
      var at, len := GetNextChunk();
      first := d[at..at + len];
      MarkConsumed(len);
      at, len := GetNextChunk();
      second := d[at..at + len];
      MarkConsumed(len);
    }
  }
}
