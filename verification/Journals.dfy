/** Journal files: the open/closed state machine of src/journal_file.c, the
    archiving rename of src/rename_journal.c and the rotation over several
    journals of src/queue_to_journal.c. File operations succeed; the clock is a
    parameter. */
module Journals {
  import opened Segments
  import opened Archive
  import opened Marshal
  import Bits

  /** The files of the journal directory. An archive name is made of the path,
      the time the file was opened (or last renamed) and the time of the rename,
      both in seconds. */
  datatype Name = Live(path: string) | Archived(path: string, last: nat, now: nat)

  /** struct priv; fp says whether the file is open. */
  datatype Priv = Priv(path: string, fp: bool, ot: nat, nbytesWritten: int)

  /** What a rename moved: `leftover` when xopen found a file of an earlier run. */
  datatype Closing = Closing(name: Name, records: seq<Msg>, leftover: bool)

  /** The renaming of a file that an open finds at its path. */
  ghost function Leftover(files: map<Name, seq<Msg>>, path: string, now: nat): seq<Closing> {
    if Live(path) in files then [Closing(Archived(path, 0, now), files[Live(path)], true)] else []
  }

  /** A leftover is not counted. */
  lemma RecordsBesides(log: seq<Closing>, files: map<Name, seq<Msg>>, path: string, now: nat)
    ensures RecordsOf(log + Leftover(files, path, now)) == RecordsOf(log)
  {
    var more := log + Leftover(files, path, now);
    if Live(path) in files { assert Init(more) == log; } else { assert more == log; }
  }

  class Journals {
    var files: map<Name, seq<Msg>>
    var jrn: seq<Priv>
    var jcurr: nat
    ghost var rotations: nat
    ghost var log: seq<Closing>
    ghost var written: seq<Msg>

    /** Exactly the current journal is open and on disk, and the archives are
        what the renames so far left. */
    ghost predicate Valid()
      reads this
    {
      && Consistent() && jcurr == rotations % |jrn|
      && jrn[jcurr].fp && Live(jrn[jcurr].path) in files
      && (forall k | 0 <= k < |jrn| && k != jcurr :: !jrn[k].fp)
      && RecordsOf(log) + files[Live(jrn[jcurr].path)] == written
    }

    /** The archives are on disk as the renames so far left them. */
    ghost predicate Consistent()
      reads this
    {
      && 0 <= jcurr < |jrn|
      && (forall i, j | 0 <= i < j < |jrn| :: jrn[i].path != jrn[j].path)
      && (forall i | 0 <= i < |log| :: log[i].name.Archived?)
      && forall name | name in Directory(Renamed(log)) :: name in files && files[name] == Directory(Renamed(log))[name]
    }

    /** rename_journal: the file at the path of journal j gets its archive name. */
    method RenameJournal(j: nat, last: nat, now: nat, ghost leftover: bool)
      requires Consistent() && j < |jrn| && Live(jrn[j].path) in files
      modifies this`files, this`log
      ensures Consistent() && Live(jrn[j].path) !in files
      ensures log == old(log) + [Closing(Archived(jrn[j].path, last, now), old(files)[Live(jrn[j].path)], leftover)]
      ensures var path := Live(jrn[j].path);
              files == old(files)[Archived(jrn[j].path, last, now) := old(files)[path]] - {path}
    {
      var path, newpath := Live(jrn[j].path), Archived(jrn[j].path, last, now);
      ghost var c := Closing(newpath, files[path], leftover);
      RenamedSnoc(log, c);
      files := files[newpath := files[path]] - {path};
      log := log + [c];
      assert forall i | 0 <= i < |log| :: Renamed(log)[i].name.Archived?;
      if path in Directory(Renamed(log)) { DirectoryNames(Renamed(log), path); }
    }

    /** xopen with O_WRONLY. */
    method XOpen(j: nat, now: nat) returns (r: int)
      requires Consistent() && j < |jrn|
      modifies this`files, this`jrn, this`log
      ensures Consistent()
      ensures old(jrn[j].fp) ==> r == -1 && files == old(files) && jrn == old(jrn) && log == old(log)
      ensures !old(jrn[j].fp) ==>
                && r == 0 && jrn == old(jrn)[j := Priv(old(jrn[j].path), true, now, 0)]
                && Live(jrn[j].path) in files && files[Live(jrn[j].path)] == []
                && log == old(log) + Leftover(old(files), jrn[j].path, now)
    {
      if jrn[j].fp {
        return -1;
      }
      var epoch := 0;
      if Live(jrn[j].path) in files {
        RenameJournal(j, epoch, now, true);
      }
      files := files[Live(jrn[j].path) := []];
      jrn := jrn[j := jrn[j].(fp := true, ot := now, nbytesWritten := 0)];
      LiveNotArchived(log, jrn[j].path);
      r := 0;
    }

    /** xclose */
    method XClose(j: nat, now: nat) returns (r: int)
      requires Consistent() && j < |jrn| && (jrn[j].fp ==> Live(jrn[j].path) in files)
      modifies this`files, this`jrn, this`log
      ensures Consistent()
      ensures !old(jrn[j].fp) ==> r == -1 && files == old(files) && jrn == old(jrn) && log == old(log)
      ensures old(jrn[j].fp) ==>
                && r == 0 && jrn == old(jrn)[j := old(jrn[j]).(fp := false, ot := now)]
                && var path, newpath := Live(jrn[j].path), Archived(jrn[j].path, old(jrn[j].ot), now);
                   && files == old(files)[newpath := old(files)[path]] - {path}
                   && log == old(log) + [Closing(newpath, old(files)[path], false)]
    {
      if !jrn[j].fp {
        return -1;
      }
      RenameJournal(j, jrn[j].ot, now, false);
      jrn := jrn[j := jrn[j].(fp := false, ot := now)];
      r := 0;
    }

    /** The journals are created closed; queue_to_journal opens the first. */
    constructor (paths: seq<string>, files: map<Name, seq<Msg>>, now: nat)
      requires paths != [] && forall i, j | 0 <= i < j < |paths| :: paths[i] != paths[j]
      ensures Valid() && rotations == 0 && written == [] && RecordsOf(log) == []
      ensures |jrn| == |paths| && (forall i | 0 <= i < |paths| :: jrn[i].path == paths[i]) && jrn[0].ot == now
      ensures this.files[Live(paths[0])] == []
      ensures Live(paths[0]) !in files ==> log == []
    {
      this.files := files;
      jrn := seq(|paths|, i requires 0 <= i < |paths| => Priv(paths[i], false, 0, 0));
      jcurr, rotations, log, written := 0, 0, [], [];
      new;
      var r := XOpen(0, now);
      RecordsBesides([], files, paths[0], now);
    }

    /** xwrite of one record to the current journal. */
    method Write(m: Msg) returns (r: nat)
      requires Valid()
      modifies this`files, this`jrn, this`written
      ensures Valid() && r == |m| && written == old(written) + [m]
      ensures jrn[jcurr] == old(jrn[jcurr]).(nbytesWritten := old(jrn[jcurr].nbytesWritten) + |m|) && |jrn| == |old(jrn)|
      ensures files == old(files)[Live(jrn[jcurr].path) := old(files)[Live(jrn[jcurr].path)] + [m]]
    {
      var path := Live(jrn[jcurr].path);
      LiveNotArchived(log, jrn[jcurr].path);
      files := files[path := files[path] + [m]];
      jrn := jrn[jcurr := jrn[jcurr].(nbytesWritten := jrn[jcurr].nbytesWritten + |m|)];
      written := written + [m];
      r := |m|;
    }

    /** rotate of src/queue_to_journal.c */
    method Rotate(closeTime: nat, openTime: nat)
      requires Valid()
      modifies this`files, this`jrn, this`jcurr, this`rotations, this`log
      ensures Valid() && rotations == old(rotations) + 1
      ensures |jrn| == |old(jrn)| && forall k | 0 <= k < |jrn| :: jrn[k].path == old(jrn[k].path)
      ensures log == old(log)
                     + [Closing(Archived(old(jrn[jcurr].path), old(jrn[jcurr].ot), closeTime), old(files)[Live(old(jrn[jcurr].path))], false)]
                     + Leftover(if |jrn| > 1 then old(files) else map[], jrn[jcurr].path, openTime)
      ensures files[Live(jrn[jcurr].path)] == [] && jrn[jcurr].ot == openTime
    {
      NextOther(jcurr, |jrn|);
      CloseCurrent(closeTime);
      OpenNext(openTime);
    }

    /** The move to the next journal, and its opening. */
    method OpenNext(now: nat)
      requires Consistent() && jcurr == rotations % |jrn| && RecordsOf(log) == written
      requires forall k | 0 <= k < |jrn| :: !jrn[k].fp
      modifies this`files, this`jrn, this`jcurr, this`rotations, this`log
      ensures Valid() && rotations == old(rotations) + 1 && jcurr == (old(jcurr) + 1) % |jrn|
      ensures |jrn| == |old(jrn)| && forall k | 0 <= k < |jrn| :: jrn[k].path == old(jrn[k].path)
      ensures log == old(log) + Leftover(old(files), jrn[jcurr].path, now)
      ensures files[Live(jrn[jcurr].path)] == [] && jrn[jcurr].ot == now
    {
      ghost var log1, files1 := log, files;
      NextModulo(rotations, |jrn|);
      jcurr := (jcurr + 1) % |jrn|;
      rotations := rotations + 1;
      var r := XOpen(jcurr, now);
      RecordsBesides(log1, files1, jrn[jcurr].path, now);
    }

    /** The close of the current journal, after which none is open. */
    method CloseCurrent(now: nat)
      requires Valid()
      modifies this`files, this`jrn, this`log
      ensures Consistent() && |jrn| == |old(jrn)|
      ensures forall k | 0 <= k < |jrn| :: !jrn[k].fp && jrn[k].path == old(jrn[k].path)
      ensures var path, newpath := Live(old(jrn[jcurr].path)), Archived(old(jrn[jcurr].path), old(jrn[jcurr].ot), now);
              && files == old(files)[newpath := old(files)[path]] - {path}
              && log == old(log) + [Closing(newpath, old(files)[path], false)]
      ensures RecordsOf(log) == written
    {
      ghost var log0 := log;
      var r := XClose(jcurr, now);
      assert r == 0;
      assert Init(log) == log0;
    }

    lemma NextOther(j: nat, n: nat)
      requires j < n
      ensures n > 1 ==> (j + 1) % n != j
      ensures n == 1 ==> (j + 1) % n == j
    {
    }

    /** The close at the end of queue_to_journal; the destructors that follow
        close journals that are closed already, and do nothing. All journals are
        closed then, and when the successive closes of each path fell in strictly
        increasing seconds, the archives hold every record written. */
    method Shutdown(now: nat)
      requires Valid()
      modifies this`files, this`jrn, this`log
      ensures Consistent() && |jrn| == |old(jrn)| && forall k | 0 <= k < |jrn| :: !jrn[k].fp
      ensures Live(jrn[jcurr].path) !in files && jrn[jcurr].path == old(jrn[jcurr].path)
      ensures var j := old(jrn[jcurr]);
              log == old(log) + [Closing(Archived(j.path, j.ot, now), old(files)[Live(j.path)], false)]
      ensures RecordsOf(log) == written
      ensures StrictCloses(log) ==> ArchivesHold()
    {
      CloseCurrent(now);
      var n := |jrn|;
      ghost var jrn1, files1, log1 := jrn, files, log;
      for k := 0 to n
        invariant jrn == jrn1 && files == files1 && log == log1 && Consistent()
      {
        var r := XClose(k, now);
        assert r == -1;
      }
      if StrictCloses(log) { ArchivesIntact(); }
    }

    /** Every archive the renames made is on disk with the records it got. */
    ghost predicate ArchivesHold()
      reads this
    {
      forall k | 0 <= k < |log| :: log[k].name in files && files[log[k].name] == log[k].records
    }

    lemma ArchivesIntact()
      requires Consistent() && StrictCloses(log)
      ensures ArchivesHold()
    {
      StrictClosesSurvive(log);
      forall k | 0 <= k < |log| ensures log[k].name in files && files[log[k].name] == log[k].records {
        assert Survives(Renamed(log), k) && Renamed(log)[k] == Entry(log[k].name, log[k].records);
      }
    }

    /** When the successive closes of each path fall in strictly increasing
        seconds, every archive is intact, and the archives in close order and the
        open file hold every record written, once and in order. */
    lemma EveryRecordOnce()
      requires Valid() && StrictCloses(log)
      ensures ArchivesHold()
      ensures RecordsOf(log) + files[Live(jrn[jcurr].path)] == written
    {
      ArchivesIntact();
    }
  }

  lemma NextModulo(r: nat, n: nat)
    requires n > 0
    ensures (r % n + 1) % n == (r + 1) % n
  {
    NextRemainder(r, n, r / n, r % n);
  }

  lemma NextRemainder(r: nat, n: nat, q: nat, m: nat)
    requires r == q * n + m && m < n
    ensures (m + 1) % n == (r + 1) % n
  {
    if m + 1 < n {
      Bits.ModUnique(m + 1, n, 0, m + 1);
      Bits.ModUnique(r + 1, n, q, m + 1);
    } else {
      assert (q + 1) * n == q * n + n;
      Bits.ModUnique(m + 1, n, 1, 0);
      Bits.ModUnique(r + 1, n, q + 1, 0);
    }
  }

  /** Later renames of the same path fall in later seconds. */
  ghost predicate StrictCloses(log: seq<Closing>) {
    && (forall i | 0 <= i < |log| :: log[i].name.Archived?)
    && forall i, j | 0 <= i < j < |log| && log[i].name.path == log[j].name.path :: log[i].name.now < log[j].name.now
  }

  lemma StrictClosesSurvive(log: seq<Closing>)
    requires StrictCloses(log)
    ensures AllSurvive(Renamed(log))
  {
    AllSurviveIff(Renamed(log));
    var r := Renamed(log);
    forall i, j | 0 <= i < j < |log| ensures r[i].name != r[j].name {
      assert r[i].name == log[i].name && r[j].name == log[j].name;
    }
  }

  /** Archives survive exactly when no two different ones were opened in the same
      second and closed in the same second under the same path. */
  lemma ArchivesSurviveIff(log: seq<Closing>)
    requires forall i | 0 <= i < |log| :: log[i].name.Archived?
    ensures AllSurvive(Renamed(log)) <==>
              forall i, j | 0 <= i < j < |log| && log[i].name.path == log[j].name.path
                            && log[i].name.last == log[j].name.last && log[i].name.now == log[j].name.now ::
                log[i].records == log[j].records
  {
    AllSurviveIff(Renamed(log));
    var r := Renamed(log);
    assert forall i | 0 <= i < |log| :: r[i].name == log[i].name && r[i].contents == log[i].records;
  }

  /** A run on one journal path in which two segments are opened and closed
      within one second: the archive of the first is lost. */
  method SameSecondLoses(path: string, t: nat, a: Msg, b: Msg) returns (js: Journals)
    requires a != b
    ensures js.written == [a, b] && |js.log| == 2 && js.log[0].records == [a] && js.log[1].records == [b]
    ensures !js.ArchivesHold() && !AllSurvive(Renamed(js.log))
  {
    js := new Journals([path], map[], t);
    var r := js.Write(a);
    js.Rotate(t, t);
    r := js.Write(b);
    js.Rotate(t, t);
    ghost var log := js.log;
    assert log[0].name == log[1].name == Archived(path, t, t);
    ArchivesSurviveIff(log);
  }

  ghost function Renamed(log: seq<Closing>): (r: seq<Entry<Name, seq<Msg>>>)
    ensures |r| == |log|
  {
    seq(|log|, i requires 0 <= i < |log| => Entry(log[i].name, log[i].records))
  }

  lemma RenamedSnoc(log: seq<Closing>, c: Closing)
    ensures Init(Renamed(log + [c])) == Renamed(log)
    ensures Segments.Last(Renamed(log + [c])) == Entry(c.name, c.records)
  {
  }

  lemma LiveNotArchived(log: seq<Closing>, path: string)
    requires forall i | 0 <= i < |log| :: log[i].name.Archived?
    ensures Live(path) !in Directory(Renamed(log))
  {
    DirectoryNames(Renamed(log), Live(path));
  }

  /** The records of the journals closed, in close order; leftovers are not among them. */
  ghost function RecordsOf(log: seq<Closing>): seq<Msg> {
    if log == [] then [] else RecordsOf(Init(log)) + if Segments.Last(log).leftover then [] else Segments.Last(log).records
  }
}
