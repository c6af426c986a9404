/** src/lwes-journal-split.c: a journal cut into files of a fixed number of records. */
module Split {
  import opened Marshal
  import opened Header
  import opened Records
  import Bits
  import opened Segments
  import opened Archive

  /** An output file; its name is made of the two timestamps. */
  datatype OutFile = OutFile(start: nat, end: nat, contents: seq<Byte>)

  /** The intended cut: files of n records, then what is left, possibly nothing.
      With n <= 0 the counter never equals n and nothing is cut. */
  function Chunks<T>(recs: seq<T>, n: int): (chunks: seq<seq<T>>)
    ensures chunks != []
    decreases |recs|
  {
    if n <= 0 || |recs| < n then [recs] else [recs[..n]] + Chunks(recs[n..], n)
  }

  /** The cut loses and reorders nothing, and its sizes are as promised. */
  lemma {:induction false} ChunksExact<T>(recs: seq<T>, n: int)
    ensures Concat(Chunks(recs, n)) == recs
    ensures n > 0 ==>
              var c := Chunks(recs, n);
              && (forall k | 0 <= k < |c| - 1 :: |c[k]| == n)
              && |c[|c| - 1]| == |recs| % n
              && |c| - 1 == |recs| / n
    ensures n <= 0 ==> Chunks(recs, n) == [recs]
    decreases |recs|
  {
    if n <= 0 || |recs| < n {
      ConcatCons(recs, []);
      assert [recs] + [] == [recs];
    } else {
      var rest := recs[n..];
      ChunksExact(rest, n);
      var c, d := Chunks(recs, n), Chunks(rest, n);
      ConcatCons(recs[..n], d);
      assert recs == recs[..n] + rest;
      assert forall k | 1 <= k < |c| :: c[k] == d[k - 1];
      OneMore(|rest|, n);
    }
  }

  lemma OneMore(a: nat, n: int)
    requires n > 0
    ensures (a + n) % n == a % n && (a + n) / n == a / n + 1
  {
    Bits.ModUnique(a + n, n, a / n + 1, a % n);
  }

  function Time(rec: Record): nat { if |rec.header| >= HEADER_LENGTH then ReceiptTime(rec.header) else 0 }

  /** The timestamp a file is named after: the first one that is not zero. */
  function FirstStamp(recs: seq<Record>): nat {
    if recs == [] then 0 else if Time(recs[0]) != 0 then Time(recs[0]) else FirstStamp(recs[1..])
  }

  function LastStamp(recs: seq<Record>): nat {
    if recs == [] then 0 else Time(recs[|recs| - 1])
  }

  lemma {:induction false} FirstStampSnoc(recs: seq<Record>, rec: Record)
    ensures FirstStamp(recs + [rec]) == if FirstStamp(recs) == 0 then Time(rec) else FirstStamp(recs)
  {
    if recs == [] {
      assert [rec][1..] == [] && recs + [rec] == [rec];
    } else {
      assert (recs + [rec])[1..] == recs[1..] + [rec];
      FirstStampSnoc(recs[1..], rec);
    }
  }

  lemma {:induction false} BytesSnoc(recs: seq<Record>, rec: Record)
    ensures Bytes(recs + [rec]) == Bytes(recs) + rec.header + rec.payload
  {
    if recs == [] {
      assert [rec][1..] == [] && recs + [rec] == [rec];
      assert Bytes([rec]) == rec.header + rec.payload;
    } else {
      assert (recs + [rec])[1..] == recs[1..] + [rec];
      BytesSnoc(recs[1..], rec);
      assert recs[0].header + recs[0].payload + (Bytes(recs[1..]) + rec.header + rec.payload)
          == Bytes(recs) + rec.header + rec.payload;
    }
  }

  /** A finished file holds exactly its chunk and is named after its times. */
  ghost predicate Holds(f: OutFile, chunk: seq<Record>) {
    f == OutFile(FirstStamp(chunk), LastStamp(chunk), Bytes(chunk))
  }

  /** The loop between two records: `cur` is in the temporary file, the finished
      files hold the chunks before it, and `rest` is still to come. */
  ghost predicate Cutting(recs: seq<Record>, n: int, files: seq<OutFile>, done: seq<seq<Record>>, cur: seq<Record>, rest: seq<Record>) {
    && |files| == |done|
    && (forall k | 0 <= k < |files| :: Holds(files[k], done[k]))
    && Chunks(recs, n) == done + Chunks(cur + rest, n)
    && (n > 0 ==> |cur| < n)
  }

  /** The file of a full chunk is closed. */
  lemma CloseFile(recs: seq<Record>, n: int, files: seq<OutFile>, done: seq<seq<Record>>, cur: seq<Record>, rec: Record, rest: seq<Record>, f: OutFile)
    requires Cutting(recs, n, files, done, cur, [rec] + rest) && |cur| + 1 == n
    requires Holds(f, cur + [rec])
    ensures Cutting(recs, n, files + [f], done + [cur + [rec]], [], rest)
  {
    var all := cur + ([rec] + rest);
    assert all[..n] == cur + [rec] && all[n..] == [] + rest;
    assert done + ([cur + [rec]] + Chunks([] + rest, n)) == done + [cur + [rec]] + Chunks([] + rest, n);
  }

  lemma KeepFile(recs: seq<Record>, n: int, files: seq<OutFile>, done: seq<seq<Record>>, cur: seq<Record>, rec: Record, rest: seq<Record>)
    requires Cutting(recs, n, files, done, cur, [rec] + rest) && |cur| + 1 != n
    ensures Cutting(recs, n, files, done, cur + [rec], rest)
  {
    assert cur + ([rec] + rest) == cur + [rec] + rest;
  }

  /** The header of a record whose payload is cut off is copied, its payload is not. */
  function PartialBytes(end: End): seq<Byte> {
    match end
    case AtEnd(_) => []
    case Truncated(header, _) => header
  }

  function NotCopied(end: End): seq<Byte> {
    match end
    case AtEnd(trailing) => trailing
    case Truncated(_, partial) => partial
  }

  /** The record whose payload is cut off, if there is one: its header counts for the names. */
  function CutOff(end: End): seq<Record> {
    match end
    case AtEnd(_) => []
    case Truncated(header, partial) => [Record(header, partial)]
  }

  /** The k-th file made of the chunks. The last one, which may be empty, is named
      after the last time read for any file. */
  function FileOf(recs: seq<Record>, end: End, chunks: seq<seq<Record>>, k: nat): OutFile
    requires k < |chunks|
  {
    if k + 1 < |chunks| then OutFile(FirstStamp(chunks[k]), LastStamp(chunks[k]), Bytes(chunks[k]))
    else OutFile(FirstStamp(chunks[k] + CutOff(end)), LastStamp(recs + CutOff(end)), Bytes(chunks[k]) + PartialBytes(end))
  }

  function OutFiles(recs: seq<Record>, end: End, n: int): (files: seq<OutFile>)
    ensures |files| == |Chunks(recs, n)|
  {
    var chunks := Chunks(recs, n);
    seq(|chunks|, k requires 0 <= k < |chunks| => FileOf(recs, end, chunks, k))
  }

  /** The contents of the files, one after the other. */
  function Contents(files: seq<OutFile>): seq<Byte> {
    if files == [] then [] else Contents(Init(files)) + Last(files).contents
  }

  lemma {:induction false} BytesConcat(a: seq<Record>, b: seq<Record>)
    ensures Bytes(a + b) == Bytes(a) + Bytes(b)
  {
    if b == [] {
      assert a + b == a;
    } else {
      var c, rec := Init(b), Last(b);
      assert a + b == (a + c) + [rec] && b == c + [rec];
      BytesConcat(a, c);
      BytesSnoc(a + c, rec);
      BytesSnoc(c, rec);
    }
  }

  lemma {:induction false} ContentsOf(files: seq<OutFile>, chunks: seq<seq<Record>>)
    requires |files| == |chunks| && forall k | 0 <= k < |files| :: files[k].contents == Bytes(chunks[k])
    ensures Contents(files) == Bytes(Concat(chunks))
  {
    if files != [] {
      ContentsOf(Init(files), Init(chunks));
      BytesConcat(Concat(Init(chunks)), Last(chunks));
    }
  }

  lemma FrontBytes(recs: seq<Record>, end: End, n: int)
    ensures Contents(Init(OutFiles(recs, end, n))) == Bytes(Concat(Init(Chunks(recs, n))))
  {
    var front, files := Init(Chunks(recs, n)), Init(OutFiles(recs, end, n));
    assert forall k | 0 <= k < |files| :: files[k].contents == Bytes(front[k]);
    ContentsOf(files, front);
  }

  lemma CopiedBytes(recs: seq<Record>, end: End, n: int)
    ensures Contents(OutFiles(recs, end, n)) == Bytes(recs) + PartialBytes(end)
  {
    var chunks := Chunks(recs, n);
    var front, last := Concat(Init(chunks)), Last(chunks);
    calc {
      Contents(OutFiles(recs, end, n));
      { FrontBytes(recs, end, n); }
      Bytes(front) + (Bytes(last) + PartialBytes(end));
      { Associate(Bytes(front), Bytes(last), PartialBytes(end)); }
      Bytes(front) + Bytes(last) + PartialBytes(end);
      { BytesConcat(front, last); }
      Bytes(Concat(chunks)) + PartialBytes(end);
      { ChunksExact(recs, n); }
      Bytes(recs) + PartialBytes(end);
    }
  }

  /** The files concatenate to the input, but for the bytes of a record that is
      not there as a whole: the trailing bytes of a short header read, or the
      payload that is cut off. */
  lemma FilesConcatenate(input: seq<Byte>, n: int)
    ensures var (recs, end) := ReadAll(input);
            Contents(OutFiles(recs, end, n)) + NotCopied(end) == input
  {
    var (recs, end) := ReadAll(input);
    ReadAllComplete(input);
    CopiedBytes(recs, end, n);
    assert EndBytes(end) == PartialBytes(end) + NotCopied(end);
    Associate(Bytes(recs), PartialBytes(end), NotCopied(end));
  }

  /** What is known of the open file: its name and contents so far. */
  ghost predicate Open(recs: seq<Record>, rest: seq<Record>, cur: seq<Record>, tmp: seq<Byte>, start: nat, last: nat) {
    && |rest| <= |recs| && tmp == Bytes(cur) && start == FirstStamp(cur)
    && last == LastStamp(recs[..|recs| - |rest|]) && recs[|recs| - |rest|..] == rest
  }

  lemma OpenNext(recs: seq<Record>, rest: seq<Record>, cur: seq<Record>, tmp: seq<Byte>, start: nat, last: nat)
    requires Open(recs, rest, cur, tmp, start, last) && rest != []
    ensures var rec := rest[0];
            Open(recs, rest[1..], cur + [rec], tmp + rec.header + rec.payload, if start == 0 then Time(rec) else start, Time(rec))
  {
    var n := |recs| - |rest|;
    FirstStampSnoc(cur, rest[0]);
    BytesSnoc(cur, rest[0]);
    assert recs[n] == recs[n..][0] && recs[n + 1..] == recs[n..][1..];
  }

  lemma NamedAtEnd(recs: seq<Record>, end: End, done: seq<seq<Record>>, cur: seq<Record>, tmp: seq<Byte>, start: nat, last: nat)
    requires Open(recs, [], cur, tmp, start, last) && end.AtEnd?
    ensures FileOf(recs, end, done + [cur], |done|) == OutFile(start, last, tmp)
  {
    assert cur + [] == cur && recs + [] == recs == recs[..|recs|] && Bytes(cur) + [] == Bytes(cur);
  }

  lemma NamedCutOff(recs: seq<Record>, end: End, done: seq<seq<Record>>, cur: seq<Record>, tmp: seq<Byte>, start: nat, last: nat)
    requires Open(recs, [], cur, tmp, start, last) && end.Truncated? && |end.header| == HEADER_LENGTH
    ensures var time := ReceiptTime(end.header);
            FileOf(recs, end, done + [cur], |done|) == OutFile(if start == 0 then time else start, time, tmp + end.header)
  {
    var rec := Record(end.header, end.partial);
    FirstStampSnoc(cur, rec);
    assert (recs + [rec])[|recs|] == rec;
  }

  /** The record loop of main. All reads come from `input`; writes and renames
      succeed. It fails if and only if a payload is cut off. */
  method SplitJournal(input: seq<Byte>, number: int) returns (files: seq<OutFile>, total: nat, ret: int)
    ensures files == OutFiles(ReadAll(input).0, ReadAll(input).1, number)
    ensures total == |ReadAll(input).0| && (ret == 0 <==> ReadAll(input).1.AtEnd?)
    ensures Contents(files) + NotCopied(ReadAll(input).1) == input
  {
    ghost var recs, end := ReadAll(input).0, ReadAll(input).1;
    files, total, ret := [], 0, 0;
    var pos: nat, tmp, current, start, last := 0, [], 0, 0, 0;
    ghost var done: seq<seq<Record>>, cur: seq<Record>, rest := [], [], recs;
    assert [] + recs == recs && [] + Chunks(recs, number) == Chunks(recs, number);
    assert input[0..] == input;
    while true
      invariant pos <= |input| && ReadAll(input[pos..]) == (rest, end) && ret == 0
      invariant Cutting(recs, number, files, done, cur, rest)
      invariant total + |rest| == |recs| && current == |cur|
      invariant Open(recs, rest, cur, tmp, start, last)
      decreases |rest|
    {
      var status, header, payload;
      status, header, payload, pos := ReadRecord(input, pos);
      if status.NoHeader? {
        NamedAtEnd(recs, end, done, cur, tmp, start, last);
        break;
      }
      var time := ReceiptTime(header);
      if status.ShortPayload? {
        NamedCutOff(recs, end, done, cur, tmp, start, last);
      } else {
        OpenNext(recs, rest, cur, tmp, start, last);
      }
      if start == 0 {
        start := time;
      }
      last := time;
      tmp := tmp + header;
      if status.ShortPayload? {
        ret := 1;
        break;
      }
      tmp := tmp + payload;
      current := current + 1;
      total := total + 1;
      ghost var rec := Record(header, payload);
      assert rest == [rec] + rest[1..];
      rest := rest[1..];
      if current == number {
        var f := OutFile(start, last, tmp);
        CloseFile(recs, number, files, done, cur, rec, rest, f);
        files, done, cur := files + [f], done + [cur + [rec]], [];
        start, current, tmp := 0, 0, [];
      } else {
        KeepFile(recs, number, files, done, cur, rec, rest);
        cur := cur + [rec];
      }
    }
    LastFile(recs, end, number, files, done, cur);
    files := files + [OutFile(start, last, tmp)];
    FilesConcatenate(input, number);
  }

  /** The file left open at the end is the last of the cut. */
  lemma LastFile(recs: seq<Record>, end: End, n: int, files: seq<OutFile>, done: seq<seq<Record>>, cur: seq<Record>)
    requires Cutting(recs, n, files, done, cur, [])
    ensures OutFiles(recs, end, n) == files + [FileOf(recs, end, done + [cur], |done|)]
  {
    assert cur + [] == cur;
  }

  // ----- the output directory

  type Name = (nat, nat)

  /** The rename of each finished file; Archive.AllSurviveIff says what they lose. */
  function RenameOf(f: OutFile): Entry<Name, seq<Byte>> { Entry((f.start, f.end), f.contents) }

  function Renames(files: seq<OutFile>): seq<Entry<Name, seq<Byte>>> {
    seq(|files|, i requires 0 <= i < |files| => RenameOf(files[i]))
  }

  /** Two chunks with the same first nonzero and last receipt times that differ in
      bytes. The last one counts with the name and the bytes that its file gets
      at the end of the input. */
  ghost predicate Clash(recs: seq<Record>, end: End, c: seq<seq<Record>>, i: nat, j: nat)
    requires i < j < |c|
  {
    if j + 1 < |c| then
      FirstStamp(c[i]) == FirstStamp(c[j]) && LastStamp(c[i]) == LastStamp(c[j]) && Bytes(c[i]) != Bytes(c[j])
    else
      && FirstStamp(c[i]) == FirstStamp(c[j] + CutOff(end)) && LastStamp(c[i]) == LastStamp(recs + CutOff(end))
      && Bytes(c[i]) != Bytes(c[j]) + PartialBytes(end)
  }

  ghost predicate NoClash(recs: seq<Record>, end: End, c: seq<seq<Record>>) {
    forall i, j | 0 <= i < j < |c| :: !Clash(recs, end, c, i, j)
  }

  /** Exactly when no file is lost, for every input and every n. */
  lemma FilesSurviveIff(recs: seq<Record>, end: End, n: int)
    ensures AllSurvive(Renames(OutFiles(recs, end, n))) <==> NoClash(recs, end, Chunks(recs, n))
  {
    var c, log := Chunks(recs, n), Renames(OutFiles(recs, end, n));
    AllSurviveIff(log);
    forall i, j | 0 <= i < j < |c|
      ensures Clash(recs, end, c, i, j) <==> log[i].name == log[j].name && log[i].contents != log[j].contents
    {
      ClashIs(recs, end, n, i, j);
    }
    if NoClash(recs, end, c) {
      forall i, j | 0 <= i < j < |log| && log[i].name == log[j].name ensures log[i].contents == log[j].contents {
        assert !Clash(recs, end, c, i, j);
      }
    }
  }

  lemma ClashIs(recs: seq<Record>, end: End, n: int, i: nat, j: nat)
    requires i < j < |Chunks(recs, n)|
    ensures var log := Renames(OutFiles(recs, end, n));
            Clash(recs, end, Chunks(recs, n), i, j) <==> log[i].name == log[j].name && log[i].contents != log[j].contents
  {
    var c, log := Chunks(recs, n), Renames(OutFiles(recs, end, n));
    assert log[i] == RenameOf(FileOf(recs, end, c, i)) && log[j] == RenameOf(FileOf(recs, end, c, j));
  }

  lemma TwoChunks<T>(a: T, b: T)
    ensures Chunks([a, b], 1) == [[a], [b], []]
  {
    assert [a, b][..1] == [a] && [a, b][1..] == [b];
    assert [b][..1] == [b] && [b][1..] == [];
    assert Chunks<T>([], 1) == [[]];
    assert Chunks([b], 1) == [[b]] + [[]];
    assert Chunks([a, b], 1) == [[a]] + ([[b]] + [[]]);
  }

  /** The journal of two records received in the same millisecond, cut one record
      per file: the first file is lost. */
  lemma SameMillisecond(p: seq<Byte>, q: seq<Byte>, r: Receipt)
    requires InRange(r) && r.tm > 0 && |p| < 0x1_0000 && |q| < 0x1_0000 && p != q
    ensures var (recs, end) := ReadAll(Bytes(FrameAll([Datagram(p, r), Datagram(q, r)])));
            !AllSurvive(Renames(OutFiles(recs, end, 1)))
  {
    var ds := [Datagram(p, r), Datagram(q, r)];
    FramesReadBack(ds);
    HeaderRoundTrip(ds[0]);
    HeaderRoundTrip(ds[1]);
    assert FrameAll(ds) == [FrameRecord(ds[0]), FrameRecord(ds[1])];
    SameTimeLoses(FrameRecord(ds[0]), FrameRecord(ds[1]));
  }

  lemma SameTimeLoses(a: Record, b: Record)
    requires |a.header| == |b.header| == HEADER_LENGTH && a.payload != b.payload && Time(a) == Time(b) > 0
    ensures !AllSurvive(Renames(OutFiles([a, b], AtEnd([]), 1)))
  {
    TwoChunks(a, b);
    BytesDiffer(a, b);
    FilesSurviveIff([a, b], AtEnd([]), 1);
    assert FirstStamp([a]) == Time(a) && FirstStamp([b]) == Time(b);
    assert Clash([a, b], AtEnd([]), Chunks([a, b], 1), 0, 1);
  }

  lemma BytesDiffer(a: Record, b: Record)
    requires |a.header| == |b.header| == HEADER_LENGTH && a.payload != b.payload
    ensures Bytes([a]) != Bytes([b])
  {
    BytesOne(a);
    BytesOne(b);
    assert (a.header + a.payload)[HEADER_LENGTH..] == a.payload && (b.header + b.payload)[HEADER_LENGTH..] == b.payload;
  }

  lemma BytesOne(rec: Record)
    ensures Bytes([rec]) == rec.header + rec.payload
  {
    assert [rec][1..] == [];
  }
}
