/** memcpy, as values and in place. */
module Memory {

  /** The elements of buf from position at on replaced by those of s. */
  function Overlay<T>(buf: seq<T>, at: nat, s: seq<T>): (r: seq<T>)
    requires at + |s| <= |buf|
    ensures |r| == |buf|
  {
    buf[..at] + s + buf[at + |s|..]
  }

  lemma OverlayNext<T>(buf: seq<T>, done: seq<T>, s: seq<T>)
    requires |done| + |s| <= |buf|
    ensures Overlay(Overlay(buf, 0, done), |done|, s) == Overlay(buf, 0, done + s)
  {
  }

  method MemCpy<T>(buf: array<T>, at: nat, s: seq<T>)
    requires at + |s| <= buf.Length
    modifies buf
    ensures buf[..] == Overlay(old(buf[..]), at, s)
  {
    for i := 0 to |s|
      invariant buf[..at + i] == old(buf[..at]) + s[..i]
      invariant buf[at + i..] == old(buf[at + i..])
    {
      buf[at + i] := s[i];
      assert buf[at + i + 1..] == old(buf[at + i..])[1..];
    }
    assert buf[..] == buf[..at + |s|] + buf[at + |s|..];
  }
}
