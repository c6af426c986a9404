/** A directory into which files are moved under given names: a later file
    replaces an earlier one of the same name. */
module Archive {
  import opened Segments

  datatype Entry<N, C> = Entry(name: N, contents: C)

  ghost function Directory<N, C>(log: seq<Entry<N, C>>): map<N, C> {
    if log == [] then map[] else Directory(Init(log))[Last(log).name := Last(log).contents]
  }

  /** The k-th file moved is still there. */
  ghost predicate Survives<N, C>(log: seq<Entry<N, C>>, k: int)
    requires 0 <= k < |log|
  {
    log[k].name in Directory(log) && Directory(log)[log[k].name] == log[k].contents
  }

  ghost predicate AllSurvive<N, C>(log: seq<Entry<N, C>>) {
    forall k | 0 <= k < |log| :: Survives(log, k)
  }

  /** No two files of the same name differ in contents. */
  ghost predicate NamesTell<N, C>(log: seq<Entry<N, C>>) {
    forall i, j | 0 <= i < j < |log| && log[i].name == log[j].name :: log[i].contents == log[j].contents
  }

  lemma {:induction false} LookUp<N, C>(log: seq<Entry<N, C>>, k: nat)
    requires k < |log|
    requires forall j | k < j < |log| && log[j].name == log[k].name :: log[j].contents == log[k].contents
    ensures Survives(log, k)
  {
    var init := Init(log);
    if k < |init| {
      assert init[k] == log[k];
      LookUp(init, k);
    }
  }

  /** Nothing is lost if and only if no two files of the same name differ. */
  lemma AllSurviveIff<N, C>(log: seq<Entry<N, C>>)
    ensures AllSurvive(log) <==> NamesTell(log)
  {
    if NamesTell(log) {
      forall k | 0 <= k < |log| ensures Survives(log, k) { LookUp(log, k); }
    }
    if AllSurvive(log) {
      forall i, j | 0 <= i < j < |log| && log[i].name == log[j].name ensures log[i].contents == log[j].contents {
        assert Survives(log, i) && Survives(log, j);
      }
    }
  }

  /** A directory has only names that were moved there. */
  lemma {:induction false} DirectoryNames<N, C>(log: seq<Entry<N, C>>, name: N)
    requires forall i | 0 <= i < |log| :: log[i].name != name
    ensures name !in Directory(log)
  {
    if log != [] { DirectoryNames(Init(log), name); }
  }
}
