/**
 * Publishing run records: a directory per run and one index over them.  A publish either is
 * refused with an exit code, or copies the run directory and then rewrites the index; it can
 * be stopped between the two.  JSON parsing is a parameter.
 */
module Publish {
  import opened Text
  import opened IndexOrder
  import opened Completeness

  /** Relative file names and contents. */
  type Files = map<string, string>

  /** A parsed `run.json`; `roster` is absent also when it is not a list. */
  datatype Manifest =
    | NotJson
    | Manifest(runId: Option<string>, date: Option<string>, era: Option<Json>, gitCommit: Option<string>,
               roster: Option<seq<Json>>, cells: seq<Cell>, legacy: set<string>)

  type Parser = string -> Manifest

  datatype Store = Store(dirs: map<string, Files>, index: seq<Entry>)

  /** How a publish ends: with an exit code, or in an uncaught exception. */
  datatype Ending = Exit(code: nat) | Raised

  const RUN_JSON := "run.json"

  // ---- the gate ----

  predicate WellFormedRoster(roster: Option<seq<Json>>) {
    roster.Some? && forall j | j in roster.value :: j.Str? && '/' in j.s
  }

  function RosterNames(roster: seq<Json>): (names: seq<string>)
    requires forall j | j in roster :: j.Str?
    ensures |names| == |roster| && forall i | 0 <= i < |names| :: names[i] == roster[i].s
  {
    seq(|roster|, i requires 0 <= i < |roster| => roster[i].s)
  }

  function RecordOf(m: Manifest): Record
    requires m.Manifest? && WellFormedRoster(m.roster)
  {
    Record(m.cells, RosterNames(m.roster.value), m.legacy)
  }

  predicate HasIdentity(m: Manifest) {
    m.Manifest? && m.runId.Some? && m.date.Some? && m.era.Some? && m.gitCommit.Some?
  }

  predicate Publishable(m: Manifest) {
    && HasIdentity(m) && WellFormedRoster(m.roster)
    && Gaps(RecordOf(m), |m.roster.value|) == []
  }

  datatype Verdict = Refuse(code: nat) | Accept(m: Manifest)

  function Examine(parse: Parser, files: Files): (v: Verdict)
    ensures v.Accept? <==> RUN_JSON in files && Publishable(parse(files[RUN_JSON]))
    ensures v.Accept? ==> v.m == parse(files[RUN_JSON])
    ensures v.Refuse? ==> v.code == 1 || v.code == 2
    ensures v == Refuse(1) <==>
            && RUN_JSON in files
            && (var m := parse(files[RUN_JSON]);
                HasIdentity(m) && WellFormedRoster(m.roster) && Gaps(RecordOf(m), |m.roster.value|) != [])
  {
    if RUN_JSON !in files then Refuse(2)
    else
      var m := parse(files[RUN_JSON]);
      if m.NotJson? || !HasIdentity(m) || !WellFormedRoster(m.roster) then Refuse(2)
      else if Gaps(RecordOf(m), |m.roster.value|) != [] then Refuse(1)
      else Accept(m)
  }

  // ---- index entries ----

  predicate AllDescribed(cells: seq<Cell>) {
    forall c: Cell | c in cells :: "scenario" in c && c["scenario"].Str?
  }

  /** Every cell names its scenario by a string; otherwise building the entry raises. */
  predicate Describable(m: Manifest)
    requires m.Manifest?
  {
    AllDescribed(m.cells)
  }

  /** An ascending list without repetition gains a name. */
  function AddName(names: seq<string>, name: string): seq<string> {
    if names == [] then [name]
    else
      var front, last := names[..|names| - 1], names[|names| - 1];
      if name == last then names
      else if Before(name, last) then AddName(front, name) + [last]
      else names + [name]
  }

  function ScenarioNames(cells: seq<Cell>): seq<string>
    requires AllDescribed(cells)
  {
    if cells == [] then []
    else
      var last := cells[|cells| - 1];
      assert last in cells;
      AddName(ScenarioNames(cells[..|cells| - 1]), last["scenario"].s)
  }

  function CommaJoined(names: seq<string>): string {
    if names == [] then [] else Join(names, ',')
  }

  function IndexEntry(m: Manifest): Option<Entry>
    requires HasIdentity(m)
  {
    if !Describable(m) then None
    else Some(Entry(m.runId.value, m.date.value, Rendered(m.era.value), m.gitCommit.value,
                    CommaJoined(ScenarioNames(m.cells)), m.runId.value + "/"))
  }

  predicate Ascending(names: seq<string>) {
    forall i, j | 0 <= i < j < |names| :: Before(names[i], names[j])
  }

  lemma AscendingSnoc(names: seq<string>, name: string)
    requires Ascending(names) && forall n | n in names :: Before(n, name)
    ensures Ascending(names + [name])
  {
  }

  lemma {:induction false} AddNameAscends(names: seq<string>, name: string)
    requires Ascending(names)
    ensures Ascending(AddName(names, name))
    ensures forall n :: n in AddName(names, name) <==> n in names || n == name
  {
    if names != [] {
      var front, last := names[..|names| - 1], names[|names| - 1];
      assert names == front + [last];
      BeforeIsStrict(name, last);
      if name != last {
        if Before(name, last) {
          AddNameAscends(front, name);
          AscendingSnoc(AddName(front, name), last);
        } else {
          forall n | n in front
            ensures Before(n, name)
          {
            BeforeIsTransitive(n, last, name);
          }
          AscendingSnoc(names, name);
        }
      }
    }
  }

  /** The scenarios of an entry: each name of a cell once, in ascending order, nothing else. */
  lemma {:induction false} ScenariosAreSorted(cells: seq<Cell>)
    requires AllDescribed(cells)
    ensures Ascending(ScenarioNames(cells))
    ensures forall n :: n in ScenarioNames(cells) <==> exists c | c in cells :: c["scenario"] == Str(n)
  {
    if cells != [] {
      var front, last := cells[..|cells| - 1], cells[|cells| - 1];
      assert cells == front + [last];
      ScenariosAreSorted(front);
      AddNameAscends(ScenarioNames(front), last["scenario"].s);
      forall n
        ensures n in ScenarioNames(cells) <==> exists c | c in cells :: c["scenario"] == Str(n)
      {
        assert last in cells;
        if exists c | c in cells :: c["scenario"] == Str(n) {
          var c :| c in cells && c["scenario"] == Str(n);
          assert c in front || c == last;
        }
      }
    }
  }

  /** When no scenario name holds a comma, the joined text gives the names back. */
  lemma ScenariosReadBack(cells: seq<Cell>)
    requires AllDescribed(cells) && cells != []
    requires forall c: Cell | c in cells && c["scenario"].Str? :: ',' !in c["scenario"].s
    ensures ScenarioNames(cells) != [] && Split(CommaJoined(ScenarioNames(cells)), ',') == ScenarioNames(cells)
  {
    ScenariosAreSorted(cells);
    var names := ScenarioNames(cells);
    assert cells[0] in cells;
    assert cells[0]["scenario"].s in names;
    SplitJoin(names, ',');
  }

  // ---- one publish ----

  function Without(runs: seq<Entry>, id: string): (rest: seq<Entry>)
    ensures !HasId(rest, id)
    ensures !HasId(runs, id) ==> rest == runs
  {
    if runs == [] then []
    else
      var front, last := runs[..|runs| - 1], runs[|runs| - 1];
      assert forall i | 0 <= i < |front| :: front[i] == runs[i];
      Without(front, id) + if last.runId != id then [last] else []
  }

  function Reindexed(index: seq<Entry>, e: Entry): seq<Entry> {
    Sorted(Without(index, e.runId) + [e])
  }

  function Publish(parse: Parser, st: Store, files: Files): (Store, Ending) {
    match Examine(parse, files)
    case Refuse(code) => (st, Exit(code))
    case Accept(m) =>
      var id := m.runId.value;
      if id in st.dirs && st.dirs[id] != files then (st, Exit(2))
      else if id in st.dirs && HasId(st.index, id) then (st, Exit(0))
      else
        var dirs := st.dirs[id := files];
        match IndexEntry(m)
        case None => (Store(dirs, st.index), Raised)
        case Some(e) => (Store(dirs, Reindexed(st.index, e)), Exit(0))
  }

  /** The same publish, stopped after the copy and before the index is written. */
  function StoppedPublish(parse: Parser, st: Store, files: Files): Store {
    match Examine(parse, files)
    case Refuse(_) => st
    case Accept(m) =>
      var id := m.runId.value;
      if id in st.dirs then st else Store(st.dirs[id := files], st.index)
  }

  // ---- the records directory ----

  class RecordsDir {
    var dirs: map<string, Files>
    var index: seq<Entry>

    ghost function State(): Store
      reads this
    {
      Store(dirs, index)
    }

    constructor ()
      ensures State() == Store(map[], [])
    {
      dirs, index := map[], [];
    }

    method PublishRun(parse: Parser, files: Files) returns (ending: Ending)
      modifies this
      ensures (State(), ending) == Publish(parse, old(State()), files)
    {
      if RUN_JSON !in files {
        return Exit(2);
      }
      var m := parse(files[RUN_JSON]);
      if m.NotJson? || !HasIdentity(m) {
        return Exit(2);
      }
      if !WellFormedRoster(m.roster) {
        return Exit(2);
      }
      var gaps := CompletenessGaps(RecordOf(m));
      if gaps != [] {
        return Exit(1);
      }
      var id := m.runId.value;
      if id in dirs {
        if dirs[id] != files {
          return Exit(2);
        }
        if HasId(index, id) {
          return Exit(0);
        }
        assert dirs[id := files] == dirs;
      } else {
        dirs := dirs[id := files];
      }
      var entry := IndexEntry(m);
      if entry.None? {
        return Raised;
      }
      index := Sorted(Without(index, id) + [entry.value]);
      return Exit(0);
    }
  }
}
