/** Big-endian fields: the macros of src/marshal.h and the readers of src/header.c. */
module Marshal {
  import opened Bits

  type Byte = b: nat | b < 256

  /** A message, a framed record or a buffer. */
  type Msg = seq<Byte>

  function Pow256(w: nat): (r: nat)
    ensures r > 0
  {
    if w == 0 then 1 else 256 * Pow256(w - 1)
  }

  /** The w low-order bytes of x, most significant first: what htons or htonl
      and memcpy put into memory. */
  function BigEndian(x: nat, w: nat): (s: seq<Byte>)
    ensures |s| == w
  {
    if w == 0 then [] else BigEndian(x / 256, w - 1) + [x % 256]
  }

  /** The number that bytes in network order denote: what ntohs and ntohl read. */
  function Value(s: seq<Byte>): nat {
    if s == [] then 0 else 256 * Value(s[..|s| - 1]) + s[|s| - 1]
  }

  const TWO_32 := 0x1_0000_0000

  /** marshal_short, marshal_long and marshal_ulong_long: the bytes they store.
      The last one stores two 32-bit halves. */
  function MarshalShort(x: nat): seq<Byte> { BigEndian(x, 2) }
  function MarshalLong(x: nat): seq<Byte> { BigEndian(x, 4) }
  function MarshalULongLong(x: nat): seq<Byte> {
    BigEndian(x / TWO_32 % TWO_32, 4) + BigEndian(x % TWO_32, 4)
  }

  /** header_uint16, header_uint32 and header_uint64. */
  function UInt16(s: seq<Byte>): nat requires |s| >= 2 { Value(s[..2]) }
  function UInt32(s: seq<Byte>): nat requires |s| >= 4 { Value(s[..4]) }
  function UInt64(s: seq<Byte>): nat requires |s| >= 8 { UInt32(s) * TWO_32 + UInt32(s[4..]) }

  /** Reading back what was stored gives the number modulo the field's range. */
  lemma {:induction false} ValueOfBigEndian(x: nat, w: nat)
    ensures Value(BigEndian(x, w)) == x % Pow256(w)
  {
    if w > 0 {
      var s := BigEndian(x, w);
      assert s[..w - 1] == BigEndian(x / 256, w - 1);
      ValueOfBigEndian(x / 256, w - 1);
      ModStep(x, Pow256(w - 1));
    }
  }

  lemma ModStep(x: nat, m: nat)
    requires m > 0
    ensures x % (256 * m) == 256 * ((x / 256) % m) + x % 256
  {
    var h := x / 256;
    var q, r := h / m, h % m;
    assert h == q * m + r;
    assert x == 256 * h + x % 256;
    Distribute(q, m, r);
    ModUnique(x, 256 * m, q, 256 * r + x % 256);
  }

  lemma Distribute(q: nat, m: nat, r: nat)
    ensures 256 * (q * m + r) == q * (256 * m) + 256 * r
  {
  }

  lemma Pow256Values()
    ensures Pow256(2) == 0x1_0000 && Pow256(4) == TWO_32
  {
    assert Pow256(3) == 256 * Pow256(2);
  }

  /** Each reader undoes its macro, whatever follows the field. */
  lemma ShortRoundTrip(x: nat, rest: seq<Byte>)
    ensures UInt16(MarshalShort(x) + rest) == x % 0x1_0000
  {
    assert (MarshalShort(x) + rest)[..2] == BigEndian(x, 2);
    ValueOfBigEndian(x, 2);
    Pow256Values();
  }

  lemma LongRoundTrip(x: nat, rest: seq<Byte>)
    ensures UInt32(MarshalLong(x) + rest) == x % TWO_32
  {
    assert (MarshalLong(x) + rest)[..4] == BigEndian(x, 4);
    ValueOfBigEndian(x, 4);
    Pow256Values();
  }

  lemma ULongLongRoundTrip(x: nat, rest: seq<Byte>)
    requires x < TWO_32 * TWO_32
    ensures UInt64(MarshalULongLong(x) + rest) == x
  {
    var hi, lo := x / TWO_32 % TWO_32, x % TWO_32;
    var s := MarshalULongLong(x) + rest;
    assert s == MarshalLong(hi) + (BigEndian(lo, 4) + rest);
    assert s[4..] == MarshalLong(lo) + rest;
    LongRoundTrip(hi, BigEndian(lo, 4) + rest);
    LongRoundTrip(lo, rest);
  }

  /** The bytes in memory order, the most significant first. */
  lemma ShortBytes(x: nat)
    ensures MarshalShort(x) == [x / 256 % 256, x % 256]
  {
    assert BigEndian(x / 256 / 256, 0) == [];
    assert BigEndian(x / 256, 1) == [] + [x / 256 % 256];
  }

  lemma LongBytes(x: nat)
    ensures MarshalLong(x) == [x / 0x100_0000 % 256, x / 0x1_0000 % 256, x / 256 % 256, x % 256]
  {
    var y, z := x / 256, x / 256 / 256;
    assert z == x / 0x1_0000 && z / 256 == x / 0x100_0000;
    assert BigEndian(z / 256 / 256, 0) == [];
    assert BigEndian(z / 256, 1) == [] + [z / 256 % 256];
    assert BigEndian(z, 2) == [z / 256 % 256, z % 256];
    assert BigEndian(y, 3) == [z / 256 % 256, z % 256, y % 256];
  }

  /** The two halves, the high one first. */
  lemma ULongLongBytes(x: nat)
    ensures var high, low := x / TWO_32 % TWO_32, x % TWO_32;
            MarshalULongLong(x) == [high / 0x100_0000 % 256, high / 0x1_0000 % 256, high / 256 % 256, high % 256,
                                    low / 0x100_0000 % 256, low / 0x1_0000 % 256, low / 256 % 256, low % 256]
  {
    LongBytes(x / TWO_32 % TWO_32);
    LongBytes(x % TWO_32);
  }
}
