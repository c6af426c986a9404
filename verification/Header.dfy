/** The journal header of src/header.c and the buffer discipline of the receive
    loops: clear a little, read behind the header, add the header. */
module Header {
  import opened Marshal
  import opened Memory

  const HEADER_LENGTH := 22
  const EXTENSION_OFFSET := 18
  const CLEARED := HEADER_LENGTH + 20

  /** "\017Command::Rotate" and "\026Internal::Queue::Depth": a length byte, then the name. */
  const ROTATE_COMMAND: seq<Byte> := [15, 67, 111, 109, 109, 97, 110, 100, 58, 58, 82, 111, 116, 97, 116, 101]
  const SERIAL_DEPTH_COMMAND: seq<Byte> :=
    [22, 73, 110, 116, 101, 114, 110, 97, 108, 58, 58, 81, 117, 101, 117, 101, 58, 58, 68, 101, 112, 116, 104]

  function Codes(s: string): seq<nat> { seq(|s|, i requires 0 <= i < |s| => s[i] as nat) }

  /** The tokens are the names in ASCII behind their lengths. */
  lemma TokensSpelled()
    ensures ROTATE_COMMAND == [15] + Codes("Command::Rotate") && |Codes("Command::Rotate")| == 15
    ensures SERIAL_DEPTH_COMMAND == [22] + Codes("Internal::Queue::Depth") && |Codes("Internal::Queue::Depth")| == 22
  {
  }

  /** What the journaller notes about a datagram when it arrives. */
  datatype Receipt = Receipt(tm: nat, addr: nat, port: nat, site: nat)

  ghost predicate InRange(r: Receipt) {
    r.tm < TWO_32 * TWO_32 && r.addr < TWO_32 && r.port < 0x1_0000 && r.site < 0x1_0000
  }

  /** The 18 bytes that header_add stores; the reserved field is not among them. */
  function HeaderBytes(count: nat, r: Receipt): (s: seq<Byte>)
    ensures |s| == EXTENSION_OFFSET
  {
    MarshalShort(count) + MarshalULongLong(r.tm) + MarshalLong(r.addr) + MarshalShort(r.port) + MarshalShort(r.site)
  }

  /** A record as the journal format defines it: header with a zero extension, payload. */
  function Frame(payload: seq<Byte>, r: Receipt): (s: seq<Byte>)
    ensures |s| == HEADER_LENGTH + |payload|
  {
    HeaderBytes(|payload|, r) + [0, 0, 0, 0] + payload
  }

  /** The header accessors of src/header.c. */
  function PayloadLength(header: seq<Byte>): nat requires |header| >= HEADER_LENGTH { UInt16(header) }
  function ReceiptTime(header: seq<Byte>): nat requires |header| >= HEADER_LENGTH { UInt64(header[2..]) }
  function SenderIp(header: seq<Byte>): nat requires |header| >= HEADER_LENGTH { UInt32(header[10..]) }
  function SenderPort(header: seq<Byte>): nat requires |header| >= HEADER_LENGTH { UInt16(header[14..]) }
  function SiteId(header: seq<Byte>): nat requires |header| >= HEADER_LENGTH { UInt16(header[16..]) }

  /** Every accessor returns what header_add was given. */
  lemma FieldsRoundTrip(payload: seq<Byte>, r: Receipt)
    requires InRange(r)
    ensures var h := Frame(payload, r);
            && PayloadLength(h) == |payload| % 0x1_0000
            && Receipt(ReceiptTime(h), SenderIp(h), SenderPort(h), SiteId(h)) == r
  {
    Layout(payload, r);
    ReadFields(Frame(payload, r), |payload|, r);
  }

  lemma ReadFields(h: seq<Byte>, n: nat, r: Receipt)
    requires InRange(r) && |h| >= HEADER_LENGTH
    requires h == MarshalShort(n) + h[2..] && h[2..] == MarshalULongLong(r.tm) + h[10..]
    requires h[10..] == MarshalLong(r.addr) + h[14..] && h[14..] == MarshalShort(r.port) + h[16..]
    requires h[16..] == MarshalShort(r.site) + h[18..]
    ensures PayloadLength(h) == n % 0x1_0000
    ensures Receipt(ReceiptTime(h), SenderIp(h), SenderPort(h), SiteId(h)) == r
  {
    ShortRoundTrip(n, h[2..]);
    assert ReceiptTime(h) == r.tm by { ULongLongRoundTrip(r.tm, h[10..]); }
    assert SenderIp(h) == r.addr by { LongRoundTrip(r.addr, h[14..]); }
    assert SenderPort(h) == r.port by { ShortRoundTrip(r.port, h[16..]); }
    assert SiteId(h) == r.site by { ShortRoundTrip(r.site, h[18..]); }
  }

  /** The fields follow one another. */
  lemma Layout(payload: seq<Byte>, r: Receipt)
    ensures var h := Frame(payload, r);
            && h == MarshalShort(|payload|) + h[2..] && h[2..] == MarshalULongLong(r.tm) + h[10..]
            && h[10..] == MarshalLong(r.addr) + h[14..] && h[14..] == MarshalShort(r.port) + h[16..]
            && h[16..] == MarshalShort(r.site) + h[18..]
  {
    var site := MarshalShort(r.site) + ([0, 0, 0, 0] + payload);
    var port := MarshalShort(r.port) + site;
    var addr := MarshalLong(r.addr) + port;
    var time := MarshalULongLong(r.tm) + addr;
    var h := MarshalShort(|payload|) + time;
    assert h == Frame(payload, r);
    assert h[0..] == h;
    Behind(h, 0, MarshalShort(|payload|), time);
    Behind(h, 2, MarshalULongLong(r.tm), addr);
    Behind(h, 10, MarshalLong(r.addr), port);
    Behind(h, 14, MarshalShort(r.port), site);
    Behind(h, 16, MarshalShort(r.site), [0, 0, 0, 0] + payload);
  }

  lemma Behind(h: seq<Byte>, at: nat, field: seq<Byte>, rest: seq<Byte>)
    requires at <= |h| && h[at..] == field + rest
    ensures at + |field| <= |h| && h[at + |field|..] == rest
  {
    assert h[at + |field|..] == h[at..][|field|..];
  }

  // ----- the buffer, as values

  function Zeros(n: nat): seq<Byte> { seq(n, _ => 0) }

  function Clear(buf: seq<Byte>): (r: seq<Byte>)
    requires CLEARED <= |buf|
    ensures |r| == |buf|
  {
    Overlay(buf, 0, Zeros(CLEARED))
  }

  /** One successful receive into a buffer: the payload is read behind the
      header, then the header is added. */
  function Fill(buf: seq<Byte>, payload: seq<Byte>, r: Receipt): (s: seq<Byte>)
    requires CLEARED <= |buf| && HEADER_LENGTH + |payload| <= |buf|
    ensures |s| == |buf|
  {
    Overlay(Overlay(buf, HEADER_LENGTH, payload), 0, HeaderBytes(|payload|, r))
  }

  /** One round of a receive loop: clear, then receive. */
  function ReceiveInto(buf: seq<Byte>, payload: seq<Byte>, r: Receipt): (s: seq<Byte>)
    requires CLEARED <= |buf| && HEADER_LENGTH + |payload| <= |buf|
    ensures |s| == |buf|
  {
    Fill(Clear(buf), payload, r)
  }

  /** The name token behind the header, as header_is_rotate compares it. */
  predicate NameIs(buf: seq<Byte>, token: seq<Byte>) {
    HEADER_LENGTH + |token| <= |buf| && buf[HEADER_LENGTH..HEADER_LENGTH + |token|] == token
  }

  /** The buffer after a receive, byte by byte. Behind a short payload come
      cleared bytes, and behind those the stale ones. */
  lemma ReceivedAt(buf: seq<Byte>, payload: seq<Byte>, r: Receipt, i: nat)
    requires CLEARED <= |buf| && HEADER_LENGTH + |payload| <= |buf| && i < |buf|
    ensures ReceiveInto(buf, payload, r)[i] ==
              if i < EXTENSION_OFFSET then HeaderBytes(|payload|, r)[i]
              else if i < HEADER_LENGTH then 0
              else if i < HEADER_LENGTH + |payload| then payload[i - HEADER_LENGTH]
              else if i < CLEARED then 0
              else buf[i]
  {
    var cleared := Clear(buf);
    assert cleared[i] == if i < CLEARED then 0 else buf[i];
    var filled := Overlay(cleared, HEADER_LENGTH, payload);
    assert i < HEADER_LENGTH ==> filled[i] == cleared[i];
    assert HEADER_LENGTH <= i < HEADER_LENGTH + |payload| ==> filled[i] == payload[i - HEADER_LENGTH];
    assert HEADER_LENGTH + |payload| <= i ==> filled[i] == cleared[i];
  }

  /** header_is_rotate */
  predicate IsRotate(buf: seq<Byte>) { NameIs(buf, ROTATE_COMMAND) }

  /** Whatever the buffer held before, its head is now the record of the journal format. */
  lemma ReceivedFrame(buf: seq<Byte>, payload: seq<Byte>, r: Receipt)
    requires CLEARED <= |buf| && HEADER_LENGTH + |payload| <= |buf|
    ensures ReceiveInto(buf, payload, r)[..HEADER_LENGTH + |payload|] == Frame(payload, r)
  {
    var b, f := ReceiveInto(buf, payload, r), Frame(payload, r);
    forall i | 0 <= i < |f| ensures b[i] == f[i] {
      ReceivedAt(buf, payload, r, i);
    }
  }

  /** The rotate test sees a rotate command if and only if the payload just
      received starts with its token: stale bytes never complete it. */
  lemma RotateExact(buf: seq<Byte>, payload: seq<Byte>, r: Receipt)
    requires CLEARED <= |buf| && HEADER_LENGTH + |payload| <= |buf|
    ensures NameIs(ReceiveInto(buf, payload, r), ROTATE_COMMAND) <==> ROTATE_COMMAND <= payload
  {
    TokenInBuffer(buf, payload, r, ROTATE_COMMAND);
  }

  lemma FrameName(payload: seq<Byte>, r: Receipt, token: seq<Byte>)
    ensures NameIs(Frame(payload, r), token) <==> token <= payload
  {
    assert Frame(payload, r)[HEADER_LENGTH..] == payload;
    if |token| <= |payload| {
      assert Frame(payload, r)[HEADER_LENGTH..HEADER_LENGTH + |token|] == payload[..|token|];
    }
  }

  /** A token of at most 20 nonzero bytes lies within the cleared area. */
  lemma TokenInBuffer(buf: seq<Byte>, payload: seq<Byte>, r: Receipt, token: seq<Byte>)
    requires CLEARED <= |buf| && HEADER_LENGTH + |payload| <= |buf|
    requires |token| <= 20 && forall i | 0 <= i < |token| :: token[i] != 0
    ensures NameIs(ReceiveInto(buf, payload, r), token) <==> token <= payload
  {
    var b := ReceiveInto(buf, payload, r);
    var name := if HEADER_LENGTH + |token| <= |buf| then b[HEADER_LENGTH..HEADER_LENGTH + |token|] else [];
    forall i | 0 <= i < |token| && HEADER_LENGTH + |token| <= |buf|
      ensures name[i] == if i < |payload| then payload[i] else 0
    {
      ReceivedAt(buf, payload, r, HEADER_LENGTH + i);
    }
    if |payload| >= |token| {
      assert name == payload[..|token|];
    } else if HEADER_LENGTH + |token| <= |buf| {
      assert name[|payload|] == 0;
    }
  }

  /** The depth test token is 23 bytes long, three more than are cleared. It is
      seen if and only if the payload starts with it, or the payload is a prefix
      of it of at least 20 bytes and stale bytes happen to be the rest. */
  lemma DepthExact(buf: seq<Byte>, payload: seq<Byte>, r: Receipt)
    requires HEADER_LENGTH + |SERIAL_DEPTH_COMMAND| <= |buf| && HEADER_LENGTH + |payload| <= |buf|
    ensures NameIs(ReceiveInto(buf, payload, r), SERIAL_DEPTH_COMMAND) <==>
              || SERIAL_DEPTH_COMMAND <= payload
              || (20 <= |payload| < 23 && payload + buf[HEADER_LENGTH + |payload|..HEADER_LENGTH + 23] == SERIAL_DEPTH_COMMAND)
  {
    var b, n := ReceiveInto(buf, payload, r), |payload|;
    var name := b[HEADER_LENGTH..HEADER_LENGTH + 23];
    forall i | 0 <= i < 23
      ensures name[i] == if i < n then payload[i] else if i < 20 then 0 else buf[HEADER_LENGTH + i]
    {
      ReceivedAt(buf, payload, r, HEADER_LENGTH + i);
    }
    if n >= 23 {
      assert name == payload[..23];
    } else if n >= 20 {
      assert name == payload + buf[HEADER_LENGTH + n..HEADER_LENGTH + 23];
    } else {
      assert name[n] == 0;
    }
  }

  /** An input on which stale bytes do complete the depth token: 20 bytes of it
      received into a buffer in which the whole of it was received before. */
  lemma StaleDepthToken(buf: seq<Byte>, r: Receipt)
    requires HEADER_LENGTH + |SERIAL_DEPTH_COMMAND| <= |buf|
    ensures var once := ReceiveInto(buf, SERIAL_DEPTH_COMMAND, r);
            NameIs(ReceiveInto(once, SERIAL_DEPTH_COMMAND[..20], r), SERIAL_DEPTH_COMMAND)
  {
    var once := ReceiveInto(buf, SERIAL_DEPTH_COMMAND, r);
    forall i | CLEARED <= i < HEADER_LENGTH + 23 ensures once[i] == SERIAL_DEPTH_COMMAND[i - HEADER_LENGTH] {
      ReceivedAt(buf, SERIAL_DEPTH_COMMAND, r, i);
    }
    assert once[HEADER_LENGTH + 20..HEADER_LENGTH + 23] == SERIAL_DEPTH_COMMAND[20..];
    DepthExact(once, SERIAL_DEPTH_COMMAND[..20], r);
  }

  /** After an interrupted read only the clearing has happened, and no name is seen. */
  lemma ClearedHasNoName(buf: seq<Byte>, token: seq<Byte>)
    requires CLEARED <= |buf| && token != [] && token[0] != 0
    ensures !NameIs(Clear(buf), token)
  {
    if HEADER_LENGTH + |token| <= |buf| {
      assert Clear(buf)[HEADER_LENGTH..HEADER_LENGTH + |token|][0] == 0;
    }
  }

  // ----- the buffer, in place

  /** header_add: every macro stores at cp and advances it. */
  method HeaderAdd(buf: array<Byte>, count: nat, r: Receipt)
    requires EXTENSION_OFFSET <= buf.Length
    modifies buf
    ensures buf[..] == Overlay(old(buf[..]), 0, HeaderBytes(count, r))
  {
    ghost var b0 := buf[..];
    ghost var done: seq<Byte> := [];
    var cp := 0;
    MemCpy(buf, cp, MarshalShort(count));
    OverlayNext(b0, done, MarshalShort(count));
    done := MarshalShort(count);
    cp := cp + 2;
    MemCpy(buf, cp, MarshalULongLong(r.tm));
    OverlayNext(b0, done, MarshalULongLong(r.tm));
    done := done + MarshalULongLong(r.tm);
    cp := cp + 8;
    MemCpy(buf, cp, MarshalLong(r.addr));
    OverlayNext(b0, done, MarshalLong(r.addr));
    done := done + MarshalLong(r.addr);
    cp := cp + 4;
    MemCpy(buf, cp, MarshalShort(r.port));
    OverlayNext(b0, done, MarshalShort(r.port));
    done := done + MarshalShort(r.port);
    cp := cp + 2;
    MemCpy(buf, cp, MarshalShort(r.site));
    OverlayNext(b0, done, MarshalShort(r.site));
  }

  /** toknam_eq, at a position of the buffer. The counter is an unsigned char;
      names of up to 254 characters keep it from wrapping. */
  method ToknamEq(buf: array<Byte>, at: nat, nam: seq<Byte>) returns (r: bool)
    requires nam != [] && nam[0] < 255 && |nam| == nam[0] as int + 1
    requires at + |nam| <= buf.Length
    ensures r <==> buf[at..at + |nam|] == nam
  {
    var len: nat := nam[0] + 1;
    var i := 0;
    while buf[at + i] == nam[i]
      invariant 0 <= i < |nam| && len == |nam| - i
      invariant buf[at..at + i] == nam[..i]
      decreases len
    {
      i := i + 1;
      assert buf[at..at + i] == nam[..i];
      len := len - 1;
      if len == 0 {
        return true;
      }
    }
    assert buf[at..at + |nam|][i] != nam[i];
    return false;
  }
}
