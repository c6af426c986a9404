/** The journal format as its readers see it: the loop that reads a 22-byte
    header, then as many bytes as it says; and the splitter built on that loop. */
module Records {
  import opened Marshal
  import opened Header

  datatype Record = Record(header: seq<Byte>, payload: seq<Byte>)

  /** How a read loop ends: a short header read, or a short payload read. */
  datatype End = AtEnd(trailing: seq<Byte>) | Truncated(header: seq<Byte>, partial: seq<Byte>)

  function Bytes(recs: seq<Record>): seq<Byte> {
    if recs == [] then [] else recs[0].header + recs[0].payload + Bytes(recs[1..])
  }

  function EndBytes(end: End): seq<Byte> {
    match end
    case AtEnd(trailing) => trailing
    case Truncated(header, partial) => header + partial
  }

  /** The records that the loop reads, and how it ends. */
  function ReadAll(input: seq<Byte>): (r: (seq<Record>, End))
    decreases |input|
  {
    if |input| < HEADER_LENGTH then ([], AtEnd(input))
    else
      var header, rest := input[..HEADER_LENGTH], input[HEADER_LENGTH..];
      var size := PayloadLength(header);
      if |rest| < size then ([], Truncated(header, rest))
      else
        var (recs, end) := ReadAll(rest[size..]);
        ([Record(header, rest[..size])] + recs, end)
  }

  /** A record whose header states the length of its payload. */
  ghost predicate WellFramed(rec: Record) {
    |rec.header| == HEADER_LENGTH && PayloadLength(rec.header) == |rec.payload|
  }

  ghost predicate AllWellFramed(recs: seq<Record>) {
    forall i | 0 <= i < |recs| :: WellFramed(recs[i])
  }

  lemma Peel(a: seq<Byte>, b: seq<Byte>, c: seq<Byte>)
    ensures var s := a + b + c;
            s[..|a|] == a && s[|a|..][..|b|] == b && s[|a|..][|b|..] == c && |s[|a|..]| == |b| + |c|
  {
  }

  /** One round of the loop over an input that starts with a well-framed record. */
  lemma ReadOne(rec: Record, rest: seq<Byte>)
    requires WellFramed(rec)
    ensures ReadAll(rec.header + rec.payload + rest) == ([rec] + ReadAll(rest).0, ReadAll(rest).1)
  {
    Peel(rec.header, rec.payload, rest);
  }

  /** Every input is either the end of a loop or starts with a well-framed record. */
  lemma ReadSplit(input: seq<Byte>) returns (more: bool, rec: Record, rest: seq<Byte>)
    ensures !more ==> ReadAll(input).0 == [] && input == EndBytes(ReadAll(input).1)
    ensures more ==> WellFramed(rec) && input == rec.header + rec.payload + rest
  {
    more, rec, rest := false, Record([], []), [];
    if |input| >= HEADER_LENGTH {
      var header, body := input[..HEADER_LENGTH], input[HEADER_LENGTH..];
      assert input == header + body;
      var size := PayloadLength(header);
      if |body| >= size {
        more, rec, rest := true, Record(header, body[..size]), body[size..];
        assert body == body[..size] + body[size..];
      }
    }
  }

  lemma Associate(a: seq<Byte>, b: seq<Byte>, c: seq<Byte>)
    ensures a + (b + c) == a + b + c
  {
  }

  lemma BytesCons(rec: Record, recs: seq<Record>)
    ensures Bytes([rec] + recs) == rec.header + rec.payload + Bytes(recs)
  {
    assert ([rec] + recs)[1..] == recs;
  }

  /** The loop loses no byte: its input is what it read, in order. */
  lemma {:induction false} ReadAllComplete(input: seq<Byte>)
    ensures var (recs, end) := ReadAll(input);
            AllWellFramed(recs) && input == Bytes(recs) + EndBytes(end)
    decreases |input|
  {
    var more, rec, rest := ReadSplit(input);
    if more {
      ReadOne(rec, rest);
      ReadAllComplete(rest);
      var (recs, end) := ReadAll(rest);
      BytesCons(rec, recs);
      Associate(rec.header + rec.payload, Bytes(recs), EndBytes(end));
    }
  }

  lemma Prepend(recs: seq<Record>, more: seq<Record>)
    requires recs != []
    ensures recs + more == [recs[0]] + (recs[1..] + more)
  {
  }

  /** Reading what was written: well-framed records come back, followed by
      whatever the rest of the input is read as. */
  lemma {:induction false} ReadBack(recs: seq<Record>, rest: seq<Byte>)
    requires AllWellFramed(recs)
    ensures ReadAll(Bytes(recs) + rest) == (recs + ReadAll(rest).0, ReadAll(rest).1)
  {
    if recs == [] {
      assert Bytes(recs) + rest == rest && recs + ReadAll(rest).0 == ReadAll(rest).0;
    } else {
      var first, tail := recs[0], recs[1..];
      ReadBack(tail, rest);
      assert Bytes(recs) + rest == first.header + first.payload + (Bytes(tail) + rest);
      ReadOne(first, Bytes(tail) + rest);
      Prepend(recs, ReadAll(rest).0);
    }
  }

  /** gzread from position pos: at most size bytes, fewer only at the end. */
  function ReadAt(input: seq<Byte>, pos: nat, size: nat): seq<Byte>
    requires pos <= |input|
  {
    if size <= |input| - pos then input[pos..pos + size] else input[pos..]
  }

  /** What the two reads of one round see, in terms of ReadAll. */
  lemma ReadRound(input: seq<Byte>, pos: nat)
    requires pos <= |input|
    ensures var header := ReadAt(input, pos, HEADER_LENGTH);
            var (recs, end) := ReadAll(input[pos..]);
            && (|header| != HEADER_LENGTH ==> recs == [] && end.AtEnd?)
            && (|header| == HEADER_LENGTH ==>
                  var size := PayloadLength(header);
                  var payload := ReadAt(input, pos + HEADER_LENGTH, size);
                  && (|payload| != size ==> recs == [] && end == Truncated(header, payload))
                  && (|payload| == size ==>
                        && (recs, end) == ([Record(header, payload)] + ReadAll(input[pos + HEADER_LENGTH + size..]).0,
                                           ReadAll(input[pos + HEADER_LENGTH + size..]).1)))
  {
    var s := input[pos..];
    if |s| >= HEADER_LENGTH {
      assert input[pos..pos + HEADER_LENGTH] == s[..HEADER_LENGTH];
      assert s[HEADER_LENGTH..] == input[pos + HEADER_LENGTH..];
      var size := PayloadLength(s[..HEADER_LENGTH]);
      if |s| - HEADER_LENGTH >= size {
        assert input[pos + HEADER_LENGTH..pos + HEADER_LENGTH + size] == s[HEADER_LENGTH..][..size];
        assert s[HEADER_LENGTH..][size..] == input[pos + HEADER_LENGTH + size..];
      }
    }
  }

  datatype ReadStatus = Complete | NoHeader | ShortPayload

  /** The two reads of one round of the loop. */
  method ReadRecord(input: seq<Byte>, pos: nat) returns (status: ReadStatus, header: seq<Byte>, payload: seq<Byte>, pos': nat)
    requires pos <= |input|
    ensures pos' <= |input|
    ensures var (recs, end) := ReadAll(input[pos..]);
            match status
            case NoHeader => recs == [] && end.AtEnd?
            case ShortPayload => recs == [] && end == Truncated(header, payload) && |header| == HEADER_LENGTH
            case Complete =>
              && |header| == HEADER_LENGTH && recs != [] && recs[0] == Record(header, payload)
              && ReadAll(input[pos'..]) == (recs[1..], end)
  {
    ReadRound(input, pos);
    header, payload := ReadAt(input, pos, HEADER_LENGTH), [];
    pos' := pos + |header|;
    if |header| != HEADER_LENGTH {
      return NoHeader, header, payload, pos';
    }
    var size := PayloadLength(header);
    payload := ReadAt(input, pos', size);
    pos' := pos' + |payload|;
    status := if |payload| != size then ShortPayload else Complete;
  }

  datatype Datagram = Datagram(payload: seq<Byte>, receipt: Receipt)

  function FrameRecord(d: Datagram): (rec: Record)
    ensures rec.header + rec.payload == Frame(d.payload, d.receipt)
  {
    Record(HeaderBytes(|d.payload|, d.receipt) + [0, 0, 0, 0], d.payload)
  }

  function FrameAll(ds: seq<Datagram>): seq<Record> {
    seq(|ds|, i requires 0 <= i < |ds| => FrameRecord(ds[i]))
  }

  ghost predicate Frameable(ds: seq<Datagram>) {
    forall i | 0 <= i < |ds| :: |ds[i].payload| < 0x1_0000 && InRange(ds[i].receipt)
  }

  /** The frames of any datagrams whose length fits the size field (a receive
      buffer of 65535 bytes leaves room for 65513), one after the other, are read
      back one by one. */
  lemma {:induction false} FramesReadBack(ds: seq<Datagram>)
    requires Frameable(ds)
    ensures ReadAll(Bytes(FrameAll(ds))) == (FrameAll(ds), AtEnd([]))
  {
    var recs := FrameAll(ds);
    forall i | 0 <= i < |ds| ensures WellFramed(recs[i]) {
      HeaderRoundTrip(ds[i]);
    }
    ReadBack(recs, []);
    assert Bytes(recs) + [] == Bytes(recs) && recs + [] == recs;
  }

  /** Framing round trip: they are read back as those datagrams. */
  lemma FramingRoundTrip(ds: seq<Datagram>)
    requires Frameable(ds)
    ensures var (recs, end) := ReadAll(Bytes(FrameAll(ds)));
            && |recs| == |ds| && end == AtEnd([])
            && forall i | 0 <= i < |ds| ::
                 && recs[i].payload == ds[i].payload
                 && |recs[i].header| == HEADER_LENGTH
                 && var h := recs[i].header;
                    Receipt(ReceiptTime(h), SenderIp(h), SenderPort(h), SiteId(h)) == ds[i].receipt
  {
    FramesReadBack(ds);
    forall i | 0 <= i < |ds|
      ensures var h := FrameRecord(ds[i]).header;
              Receipt(ReceiptTime(h), SenderIp(h), SenderPort(h), SiteId(h)) == ds[i].receipt
    {
      HeaderRoundTrip(ds[i]);
    }
  }

  lemma HeaderRoundTrip(d: Datagram)
    requires InRange(d.receipt)
    ensures var h := FrameRecord(d).header;
            && PayloadLength(h) == |d.payload| % 0x1_0000
            && Receipt(ReceiptTime(h), SenderIp(h), SenderPort(h), SiteId(h)) == d.receipt
  {
    var h, f := FrameRecord(d).header, Frame(d.payload, d.receipt);
    FieldsRoundTrip(d.payload, d.receipt);
    assert f == h + d.payload;
    assert h[..2] == f[..2] && h[2..][..4] == f[2..][..4] && h[2..][4..][..4] == f[2..][4..][..4];
    assert h[10..][..4] == f[10..][..4] && h[14..][..2] == f[14..][..2] && h[16..][..2] == f[16..][..2];
  }
}
