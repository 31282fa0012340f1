/** What every sequence of publishes, stopped or not, keeps of the records directory. */
module PublishRuns {
  import opened Text
  import opened IndexOrder
  import opened Completeness
  import P = Publish

  /** The entry a run directory should have, if its cells allow one. */
  function EntryOf(parse: P.Parser, files: P.Files): Option<Entry> {
    match P.Examine(parse, files)
    case Refuse(_) => None
    case Accept(m) => P.IndexEntry(m)
  }

  predicate PublishedAs(parse: P.Parser, id: string, files: P.Files) {
    var v := P.Examine(parse, files);
    v.Accept? && v.m.runId == Some(id)
  }

  predicate DirsAreRecords(parse: P.Parser, dirs: map<string, P.Files>) {
    forall id | id in dirs :: PublishedAs(parse, id, dirs[id])
  }

  predicate EntriesHaveDirs(parse: P.Parser, st: P.Store) {
    forall e | e in st.index :: e.runId in st.dirs && EntryOf(parse, st.dirs[e.runId]) == Some(e)
  }

  /** Every directory is a complete record, and the index lists existing directories, rightly, once, in order. */
  predicate Consistent(parse: P.Parser, st: P.Store) {
    && Ordered(st.index) && UniqueIds(st.index)
    && DirsAreRecords(parse, st.dirs)
    && EntriesHaveDirs(parse, st)
  }

  predicate AllIndexed(st: P.Store) {
    forall id | id in st.dirs :: HasId(st.index, id)
  }

  predicate InBijection(parse: P.Parser, st: P.Store) {
    Consistent(parse, st) && AllIndexed(st)
  }

  // ---- one publish ----

  lemma UnlistedIsUnindexed(parse: P.Parser, st: P.Store, id: string)
    requires Consistent(parse, st) && id !in st.dirs
    ensures !HasId(st.index, id)
  {
    assert forall i | 0 <= i < |st.index| :: st.index[i] in st.index;
  }

  lemma ReindexedMembers(index: seq<Entry>, e: Entry)
    requires Ordered(index) && UniqueIds(index) && !HasId(index, e.runId)
    ensures Ordered(P.Reindexed(index, e)) && UniqueIds(P.Reindexed(index, e))
    ensures forall id :: HasId(P.Reindexed(index, e), id) <==> HasId(index, id) || id == e.runId
    ensures forall f :: f in P.Reindexed(index, e) <==> f in index || f == e
  {
    HasIdSnoc(index, e);
    UniqueSnoc(index, e);
    SortedIsOrdered(index + [e]);
    SortedMembers(index, e);
  }

  lemma UniqueSnoc(index: seq<Entry>, e: Entry)
    requires UniqueIds(index) && !HasId(index, e.runId)
    ensures UniqueIds(index + [e])
  {
  }

  lemma SortedMembers(index: seq<Entry>, e: Entry)
    ensures forall f :: f in Sorted(index + [e]) <==> f in index || f == e
  {
    var all := index + [e];
    SortedIsPermutation(all);
    SameMembers(Sorted(all), all);
  }

  lemma CopyIsConsistent(parse: P.Parser, st: P.Store, id: string, files: P.Files)
    requires Consistent(parse, st) && PublishedAs(parse, id, files)
    requires id in st.dirs ==> st.dirs[id] == files
    ensures Consistent(parse, P.Store(st.dirs[id := files], st.index))
  {
    if id !in st.dirs {
      UnlistedIsUnindexed(parse, st, id);
      forall e | e in st.index
        ensures e.runId != id
      {
        var i :| 0 <= i < |st.index| && st.index[i] == e;
      }
    }
  }

  lemma EntryIsConsistent(parse: P.Parser, st: P.Store, id: string, e: Entry)
    requires Consistent(parse, st) && !HasId(st.index, id)
    requires id in st.dirs && e.runId == id && EntryOf(parse, st.dirs[id]) == Some(e)
    ensures Consistent(parse, P.Store(st.dirs, P.Reindexed(st.index, e)))
  {
    ReindexedMembers(st.index, e);
  }

  lemma PublishIsConsistent(parse: P.Parser, st: P.Store, files: P.Files)
    requires Consistent(parse, st)
    ensures Consistent(parse, P.Publish(parse, st, files).0)
    ensures Consistent(parse, P.StoppedPublish(parse, st, files))
  {
    var v := P.Examine(parse, files);
    if v.Accept? && (v.m.runId.value in st.dirs ==> st.dirs[v.m.runId.value] == files) {
      var id := v.m.runId.value;
      CopyIsConsistent(parse, st, id, files);
      if id !in st.dirs {
        UnlistedIsUnindexed(parse, st, id);
      }
      if !HasId(st.index, id) && P.Describable(v.m) {
        EntryIsConsistent(parse, P.Store(st.dirs[id := files], st.index), id, P.IndexEntry(v.m).value);
      }
    }
  }

  /** An exit code other than zero means that nothing changed. */
  lemma RefusalChangesNothing(parse: P.Parser, st: P.Store, files: P.Files)
    ensures var (next, ending) := P.Publish(parse, st, files);
            ending.Exit? && ending.code != 0 ==> next == st
  {
  }

  /** Published contents never change, and a successful publish stores the files it was given. */
  lemma PublishedStays(parse: P.Parser, st: P.Store, files: P.Files)
    ensures var (next, ending) := P.Publish(parse, st, files);
            && (forall id | id in st.dirs :: id in next.dirs && next.dirs[id] == st.dirs[id])
            && (ending == P.Exit(0) ==>
                  var v := P.Examine(parse, files);
                  v.Accept? && v.m.runId.value in next.dirs && next.dirs[v.m.runId.value] == files)
  {
  }

  // ---- when the bijection survives ----

  /** A new run that passes the gate although some cell has no scenario name. */
  predicate Undescribed(parse: P.Parser, st: P.Store, files: P.Files) {
    var v := P.Examine(parse, files);
    v.Accept? && v.m.runId.value !in st.dirs && !P.Describable(v.m)
  }

  lemma IndexAfter(parse: P.Parser, st: P.Store, files: P.Files, id: string)
    requires Consistent(parse, st)
    ensures HasId(st.index, id) ==> HasId(P.Publish(parse, st, files).0.index, id)
    ensures id in P.Publish(parse, st, files).0.dirs && id !in st.dirs
            ==> (HasId(P.Publish(parse, st, files).0.index, id) <==> !Undescribed(parse, st, files))
  {
    var v := P.Examine(parse, files);
    if v.Accept? {
      var own := v.m.runId.value;
      if own !in st.dirs {
        UnlistedIsUnindexed(parse, st, own);
      }
      if !HasId(st.index, own) && P.Describable(v.m) {
        ReindexedMembers(st.index, P.IndexEntry(v.m).value);
      }
    }
  }

  /** One publish keeps index and directories in bijection exactly unless it is such a run. */
  lemma BijectionCondition(parse: P.Parser, st: P.Store, files: P.Files)
    requires InBijection(parse, st)
    ensures InBijection(parse, P.Publish(parse, st, files).0) <==> !Undescribed(parse, st, files)
  {
    var next := P.Publish(parse, st, files).0;
    PublishIsConsistent(parse, st, files);
    forall id | id in next.dirs
      ensures HasId(next.index, id) || (id !in st.dirs && Undescribed(parse, st, files))
    {
      IndexAfter(parse, st, files, id);
    }
    var v := P.Examine(parse, files);
    if v.Accept? {
      IndexAfter(parse, st, files, v.m.runId.value);
    }
  }

  /** A complete record with a cell that has no scenario: the copy is made, the index is not. */
  lemma UndescribedExample(m: P.Manifest, files: P.Files) returns (parse: P.Parser)
    requires m == P.Manifest(Some("r"), Some("d"), Some(Null), Some("c"), Some([]), [map[]], {})
    requires files == map[P.RUN_JSON := ""]
    ensures var (next, ending) := P.Publish(parse, P.Store(map[], []), files);
            ending == P.Raised && next == P.Store(map["r" := files], [])
  {
    parse := _ => m;
    assert P.RecordOf(m).roster == [];
    var cell: Cell := map[];
    assert cell in m.cells;
    assert !P.Describable(m);
    assert P.Examine(parse, files) == P.Accept(m);
  }

  // ---- stopping and repairing ----

  /** Publishing again after a stop ends exactly where the publish would have ended. */
  lemma RepublishRepairs(parse: P.Parser, st: P.Store, files: P.Files)
    requires Consistent(parse, st)
    ensures P.Publish(parse, P.StoppedPublish(parse, st, files), files) == P.Publish(parse, st, files)
  {
    var v := P.Examine(parse, files);
    if v.Accept? && v.m.runId.value !in st.dirs {
      var id := v.m.runId.value;
      UnlistedIsUnindexed(parse, st, id);
      assert st.dirs[id := files][id := files] == st.dirs[id := files];
    }
  }

  /** Any directory left without an entry gets it by publishing its files again; nothing else moves. */
  lemma RepublishReconciles(parse: P.Parser, st: P.Store, id: string)
    requires Consistent(parse, st) && id in st.dirs
    requires EntryOf(parse, st.dirs[id]).Some?
    ensures var (next, ending) := P.Publish(parse, st, st.dirs[id]);
            && ending == P.Exit(0) && next.dirs == st.dirs
            && forall other :: HasId(next.index, other) <==> HasId(st.index, other) || other == id
  {
    assert PublishedAs(parse, id, st.dirs[id]);
    assert st.dirs[id := st.dirs[id]] == st.dirs;
    if !HasId(st.index, id) {
      ReindexedMembers(st.index, EntryOf(parse, st.dirs[id]).value);
    }
  }

  lemma PublishTwice(parse: P.Parser, st: P.Store, files: P.Files)
    requires Consistent(parse, st) && P.Publish(parse, st, files).1 == P.Exit(0)
    ensures var next := P.Publish(parse, st, files).0;
            P.Publish(parse, next, files) == (next, P.Exit(0))
  {
    SuccessIsListed(parse, st, files);
  }

  lemma SuccessIsListed(parse: P.Parser, st: P.Store, files: P.Files)
    requires Consistent(parse, st) && P.Publish(parse, st, files).1 == P.Exit(0)
    ensures var next, v := P.Publish(parse, st, files).0, P.Examine(parse, files);
            && v.Accept? && v.m.runId.value in next.dirs && next.dirs[v.m.runId.value] == files
            && HasId(next.index, v.m.runId.value)
  {
    var v := P.Examine(parse, files);
    var id := v.m.runId.value;
    if id !in st.dirs {
      UnlistedIsUnindexed(parse, st, id);
    }
    if !HasId(st.index, id) {
      ReindexedMembers(st.index, P.IndexEntry(v.m).value);
    }
  }

  lemma ListedEntry(parse: P.Parser, st: P.Store, id: string) returns (e: Entry)
    requires Consistent(parse, st) && HasId(st.index, id)
    ensures e in st.index && e.runId == id && id in st.dirs && EntryOf(parse, st.dirs[id]) == Some(e)
  {
    var i :| 0 <= i < |st.index| && st.index[i].runId == id;
    e := st.index[i];
    assert e in st.index;
  }

  /** After a success the index holds an entry with the fields of the record that was given. */
  lemma PublishedEntry(parse: P.Parser, st: P.Store, files: P.Files) returns (m: P.Manifest, e: Entry)
    requires Consistent(parse, st) && P.Publish(parse, st, files).1 == P.Exit(0)
    ensures P.RUN_JSON in files && m == parse(files[P.RUN_JSON]) && m.Manifest? && m.era.Some?
    ensures e in P.Publish(parse, st, files).0.index
    ensures Some(e.runId) == m.runId && Some(e.date) == m.date && Some(e.gitCommit) == m.gitCommit
    ensures e.era == Rendered(m.era.value) && e.path == e.runId + "/"
    ensures P.AllDescribed(m.cells) && e.scenarios == P.CommaJoined(P.ScenarioNames(m.cells))
  {
    PublishIsConsistent(parse, st, files);
    SuccessIsListed(parse, st, files);
    m := P.Examine(parse, files).m;
    e := ListedEntry(parse, P.Publish(parse, st, files).0, m.runId.value);
  }

  // ---- whole runs ----

  datatype Action = Attempt(files: P.Files) | Stopped(files: P.Files)

  function Step(parse: P.Parser, st: P.Store, a: Action): P.Store {
    match a
    case Attempt(files) => P.Publish(parse, st, files).0
    case Stopped(files) => P.StoppedPublish(parse, st, files)
  }

  function Run(parse: P.Parser, st: P.Store, actions: seq<Action>): P.Store {
    if actions == [] then st
    else Step(parse, Run(parse, st, actions[..|actions| - 1]), actions[|actions| - 1])
  }

  const EMPTY := P.Store(map[], [])

  /** Whatever is published or stopped, the index stays unique, ordered and right. */
  lemma {:induction false} RunIsConsistent(parse: P.Parser, actions: seq<Action>)
    ensures Consistent(parse, Run(parse, EMPTY, actions))
  {
    if actions != [] {
      var before := actions[..|actions| - 1];
      RunIsConsistent(parse, before);
      PublishIsConsistent(parse, Run(parse, EMPTY, before), actions[|actions| - 1].files);
    }
  }

  lemma {:induction false} RunKeepsPublished(parse: P.Parser, st: P.Store, actions: seq<Action>, id: string)
    requires id in st.dirs
    ensures id in Run(parse, st, actions).dirs && Run(parse, st, actions).dirs[id] == st.dirs[id]
  {
    if actions != [] {
      RunKeepsPublished(parse, st, actions[..|actions| - 1], id);
      StepKeepsPublished(parse, Run(parse, st, actions[..|actions| - 1]), actions[|actions| - 1], id);
    }
  }

  lemma StepKeepsPublished(parse: P.Parser, st: P.Store, a: Action, id: string)
    requires id in st.dirs
    ensures id in Step(parse, st, a).dirs && Step(parse, st, a).dirs[id] == st.dirs[id]
  {
    match a
    case Attempt(files) => DirStays(parse, st, files, id);
    case Stopped(files) => StoppedStays(parse, st, files, id);
  }

  lemma StoppedStays(parse: P.Parser, st: P.Store, files: P.Files, id: string)
    requires id in st.dirs
    ensures id in P.StoppedPublish(parse, st, files).dirs && P.StoppedPublish(parse, st, files).dirs[id] == st.dirs[id]
  {
  }

  predicate Attempts(actions: seq<Action>) {
    forall i | 0 <= i < |actions| :: actions[i].Attempt?
  }

  predicate IndexedUnlessUndescribed(parse: P.Parser, st: P.Store) {
    forall id | id in st.dirs && EntryOf(parse, st.dirs[id]).Some? :: HasId(st.index, id)
  }

  lemma PublishIndexes(parse: P.Parser, st: P.Store, files: P.Files)
    requires Consistent(parse, st) && IndexedUnlessUndescribed(parse, st)
    ensures IndexedUnlessUndescribed(parse, P.Publish(parse, st, files).0)
  {
    var next := P.Publish(parse, st, files).0;
    forall id | id in next.dirs && EntryOf(parse, next.dirs[id]).Some?
      ensures HasId(next.index, id)
    {
      IndexAfter(parse, st, files, id);
      if id in st.dirs {
        DirStays(parse, st, files, id);
      } else {
        NewDirIsDescribed(parse, st, files, id);
      }
    }
  }

  lemma DirStays(parse: P.Parser, st: P.Store, files: P.Files, id: string)
    requires id in st.dirs
    ensures id in P.Publish(parse, st, files).0.dirs && P.Publish(parse, st, files).0.dirs[id] == st.dirs[id]
  {
    PublishedStays(parse, st, files);
  }

  lemma NewDirIsDescribed(parse: P.Parser, st: P.Store, files: P.Files, id: string)
    requires id !in st.dirs && id in P.Publish(parse, st, files).0.dirs
    requires EntryOf(parse, P.Publish(parse, st, files).0.dirs[id]).Some?
    ensures !Undescribed(parse, st, files)
  {
    assert P.Publish(parse, st, files).0.dirs[id] == files;
  }

  lemma {:induction false} AttemptsIndex(parse: P.Parser, actions: seq<Action>)
    requires Attempts(actions)
    ensures IndexedUnlessUndescribed(parse, Run(parse, EMPTY, actions))
  {
    if actions != [] {
      var before := actions[..|actions| - 1];
      AttemptsIndex(parse, before);
      RunIsConsistent(parse, before);
      PublishIndexes(parse, Run(parse, EMPTY, before), actions[|actions| - 1].files);
    }
  }

  lemma IndexedHasEntry(parse: P.Parser, st: P.Store, id: string)
    requires Consistent(parse, st) && HasId(st.index, id)
    ensures id in st.dirs && EntryOf(parse, st.dirs[id]).Some?
  {
    var i :| 0 <= i < |st.index| && st.index[i].runId == id;
    assert st.index[i] in st.index;
  }

  /**
   * After any run of unstopped publishes from an empty directory, index and directories are
   * in bijection exactly when every published record names the scenario of each cell.
   */
  lemma RunIsInBijection(parse: P.Parser, actions: seq<Action>)
    requires Attempts(actions)
    ensures var st := Run(parse, EMPTY, actions);
            InBijection(parse, st) <==> forall id | id in st.dirs :: EntryOf(parse, st.dirs[id]).Some?
  {
    var st := Run(parse, EMPTY, actions);
    RunIsConsistent(parse, actions);
    AttemptsIndex(parse, actions);
    if AllIndexed(st) {
      forall id | id in st.dirs
        ensures EntryOf(parse, st.dirs[id]).Some?
      {
        IndexedHasEntry(parse, st, id);
      }
    }
  }

  // ---- the index is a function of the directories ----

  lemma EntryOfBoth(parse: P.Parser, a: P.Store, b: P.Store, e: Entry)
    requires InBijection(parse, a) && InBijection(parse, b) && a.dirs == b.dirs && e in a.index
    ensures e in b.index
  {
    assert HasId(b.index, e.runId);
    var i :| 0 <= i < |b.index| && b.index[i].runId == e.runId;
    assert b.index[i] in b.index;
  }

  /** In whatever order the runs were published, the same directories give the same index. */
  lemma IndexIsDetermined(parse: P.Parser, a: P.Store, b: P.Store)
    requires InBijection(parse, a) && InBijection(parse, b) && a.dirs == b.dirs
    ensures a == b
  {
    forall e
      ensures e in a.index <==> e in b.index
    {
      if e in a.index {
        EntryOfBoth(parse, a, b, e);
      }
      if e in b.index {
        EntryOfBoth(parse, b, a, e);
      }
    }
    OrderedIsUnique(a.index, b.index);
  }

  // ---- the cross-check ----

  datatype Orphan = UnindexedDir(name: string) | MissingDir(name: string)

  function StripSlashes(s: string): string {
    if s != [] && s[|s| - 1] == '/' then StripSlashes(s[..|s| - 1]) else s
  }

  predicate ListsPath(index: seq<Entry>, name: string) {
    exists e | e in index :: StripSlashes(e.path) == name
  }

  method IndexDirOrphans(runDirs: seq<string>, index: seq<Entry>) returns (orphans: seq<Orphan>)
    ensures forall n :: UnindexedDir(n) in orphans <==> n in runDirs && !ListsPath(index, n)
    ensures forall n :: MissingDir(n) in orphans <==> n !in runDirs && ListsPath(index, n)
  {
    var indexPaths := set e | e in index :: StripSlashes(e.path);
    orphans := [];
    for i := 0 to |runDirs|
      invariant forall n :: UnindexedDir(n) in orphans <==> n in runDirs[..i] && !ListsPath(index, n)
      invariant forall n :: MissingDir(n) !in orphans
    {
      assert runDirs[..i + 1] == runDirs[..i] + [runDirs[i]];
      if runDirs[i] !in indexPaths {
        orphans := orphans + [UnindexedDir(runDirs[i])];
      }
    }
    assert runDirs[..|runDirs|] == runDirs;
    for i := 0 to |index|
      invariant forall n :: UnindexedDir(n) in orphans <==> n in runDirs && !ListsPath(index, n)
      invariant forall n :: MissingDir(n) in orphans <==> n !in runDirs && ListsPath(index[..i], n)
    {
      var name := StripSlashes(index[i].path);
      assert index[..i + 1] == index[..i] + [index[i]];
      if name !in runDirs {
        orphans := orphans + [MissingDir(name)];
      }
    }
    assert index[..|index|] == index;
  }

  lemma PathOfEntry(parse: P.Parser, st: P.Store, e: Entry)
    requires Consistent(parse, st) && e in st.index
    requires '/' !in e.runId
    ensures StripSlashes(e.path) == e.runId
  {
    var m := P.Examine(parse, st.dirs[e.runId]).m;
    assert P.IndexEntry(m) == Some(e) && e.path == e.runId + "/";
    assert e.path[..|e.path| - 1] == e.runId;
  }

  /** The cross-check finds nothing exactly when index and directories are in bijection. */
  lemma NoOrphansMeansBijection(parse: P.Parser, st: P.Store, runDirs: seq<string>, orphans: seq<Orphan>)
    requires Consistent(parse, st) && forall id | id in st.dirs :: '/' !in id
    requires forall n :: n in runDirs <==> n in st.dirs
    requires forall n :: UnindexedDir(n) in orphans <==> n in runDirs && !ListsPath(st.index, n)
    requires forall n :: MissingDir(n) in orphans <==> n !in runDirs && ListsPath(st.index, n)
    ensures orphans == [] <==> InBijection(parse, st)
  {
    forall n
      ensures ListsPath(st.index, n) <==> HasId(st.index, n)
    {
      ListedByRunId(parse, st, n);
    }
    if orphans != [] {
      var o := orphans[0];
      assert o in orphans;
      if o.MissingDir? && HasId(st.index, o.name) {
        IndexedHasEntry(parse, st, o.name);
      }
    } else {
      forall id | id in st.dirs
        ensures HasId(st.index, id)
      {
        assert UnindexedDir(id) !in orphans;
      }
    }
  }

  lemma ListedByRunId(parse: P.Parser, st: P.Store, n: string)
    requires Consistent(parse, st) && forall id | id in st.dirs :: '/' !in id
    ensures ListsPath(st.index, n) <==> HasId(st.index, n)
  {
    if ListsPath(st.index, n) {
      var e :| e in st.index && StripSlashes(e.path) == n;
      PathOfEntry(parse, st, e);
      var i :| 0 <= i < |st.index| && st.index[i] == e;
    }
    if HasId(st.index, n) {
      var i :| 0 <= i < |st.index| && st.index[i].runId == n;
      var e := st.index[i];
      assert e in st.index;
      PathOfEntry(parse, st, e);
    }
  }
}
