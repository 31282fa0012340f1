/**
 * The completeness gate of the record publisher and the count of measured and attempted
 * warm cells.  The two walk the cells independently: the gate skips cells without names,
 * the count does not.
 */
module Completeness {
  import opened Text
  import Decimal

  /** A JSON value; `Other` carries how Python renders it and whether it is truthy. */
  datatype Json =
    | Null
    | Bool(b: bool)
    | Int(n: int)
    | Str(s: string)
    | Other(text: string, truthy: bool)

  type Cell = map<string, Json>

  /** `cell.get(key)`: a missing key reads as null. */
  function Get(cell: Cell, key: string): Json {
    if key in cell then cell[key] else Null
  }

  predicate Truthy(j: Json) {
    match j
    case Null => false
    case Bool(b) => b
    case Int(n) => n != 0
    case Str(s) => s != []
    case Other(_, truthy) => truthy
  }

  /** How an f-string renders the value. */
  function Rendered(j: Json): string {
    match j
    case Null => "None"
    case Bool(b) => if b then "True" else "False"
    case Int(n) => if n < 0 then "-" + Decimal.PrintNat(-n) else Decimal.PrintNat(n)
    case Str(s) => s
    case Other(text, _) => text
  }

  const WARM_APPLICABLE: set<string> :=
    {"http-server", "t2-json", "split-aggregate", "t2-realistic-eip", "xsd-validation-bridge", "xslt-bridge"}

  const ATTEMPT_STATUSES: set<Json> := {Str("unconverged"), Str("attempted-timeout")}

  predicate HasLatency(cell: Cell) {
    "round_values" in cell || "median" in cell || "unit" in cell
  }

  /** A valid m2 cell: measured in full, or attempted with a reason and a positive round count. */
  predicate M2CellPresent(cell: Cell) {
    if "status" !in cell then "round_values" in cell && "median" in cell && "unit" in cell
    else
      && cell["status"] in ATTEMPT_STATUSES && !HasLatency(cell)
      && Get(cell, "reason").Str? && Get(cell, "reason").s != []
      && Get(cell, "rounds").Int? && Get(cell, "rounds").n > 0
  }

  /** All three latency fields and no status. */
  predicate MeasuredShape(cell: Cell) {
    cell.Keys * {"round_values", "median", "unit", "status"} == {"round_values", "median", "unit"}
  }

  /** A known status with its reason and a positive whole number of rounds, and no latency field. */
  ghost predicate AttemptedShape(cell: Cell) {
    && cell.Keys * {"round_values", "median", "unit", "status", "reason", "rounds"} == {"status", "reason", "rounds"}
    && (cell["status"] == Str("unconverged") || cell["status"] == Str("attempted-timeout"))
    && (exists r: string :: r != [] && cell["reason"] == Str(r))
    && exists n: nat :: n > 0 && cell["rounds"] == Int(n)
  }

  lemma LatencyKeys(cell: Cell)
    ensures MeasuredShape(cell) <==>
            "round_values" in cell && "median" in cell && "unit" in cell && "status" !in cell
  {
    var keys := cell.Keys * {"round_values", "median", "unit", "status"};
    assert "status" in keys <==> "status" in cell;
    assert "round_values" in keys <==> "round_values" in cell;
    assert "median" in keys <==> "median" in cell;
    assert "unit" in keys <==> "unit" in cell;
    StatusIsNoLatency();
  }

  lemma StatusIsNoLatency()
    ensures "status" !in {"round_values", "median", "unit"}
  {
    assert |"status"| == 6 && |"unit"| == 4 && |"round_values"| == 12 && "median"[0] == 'm' && "status"[0] == 's';
  }

  datatype Presence = Measured | Attempted | Absent

  predicate HasMeasured(cells: seq<Cell>) {
    exists c | c in cells :: M2CellPresent(c) && "status" !in c
  }

  predicate HasPresent(cells: seq<Cell>) {
    exists c | c in cells :: M2CellPresent(c)
  }

  function PresenceState(identity: string, m2Cells: seq<Cell>, legacy: set<string>): Presence {
    if HasMeasured(m2Cells) then Measured
    else if HasPresent(m2Cells) || identity in legacy then Attempted
    else Absent
  }

  datatype Record = Record(cells: seq<Cell>, roster: seq<string>, legacy: set<string>)

  predicate IsNamed(cell: Cell) {
    Truthy(Get(cell, "scenario")) && Truthy(Get(cell, "contender"))
  }

  function Identity(cell: Cell): string {
    Rendered(Get(cell, "scenario")) + "/" + Rendered(Get(cell, "contender"))
  }

  predicate IsWarm(identity: string) {
    Head(identity, '/') in WARM_APPLICABLE
  }

  lemma AttemptKeys(cell: Cell)
    ensures cell.Keys * {"round_values", "median", "unit", "status", "reason", "rounds"} == {"status", "reason", "rounds"} <==>
            "status" in cell && "reason" in cell && "rounds" in cell && !HasLatency(cell)
  {
    var all := {"round_values", "median", "unit", "status", "reason", "rounds"};
    var keys := cell.Keys * all;
    LatencyIsNoEvidence();
    assert forall k :: k in keys <==> k in cell && k in all;
  }

  lemma LatencyIsNoEvidence()
    ensures {"round_values", "median", "unit"} !! {"status", "reason", "rounds"}
  {
    assert "median"[0] == 'm' && "unit"[0] == 'u' && "round_values"[0] == 'r';
    assert "status"[0] == 's' && "reason"[0] == 'r' && "rounds"[0] == 'r';
    assert |"reason"| == 6 && |"rounds"| == 6 && |"round_values"| == 12;
  }

  /** A cell counts exactly when it has one of the two documented shapes. */
  lemma PresentShapes(cell: Cell)
    ensures M2CellPresent(cell) <==> MeasuredShape(cell) || AttemptedShape(cell)
  {
    LatencyKeys(cell);
    AttemptKeys(cell);
  }

  // ---- what the two walks collect ----

  /** The cells of one identity and metric, in order; only named ones when asked. */
  function CellsOf(cells: seq<Cell>, identity: string, metric: Json, namedOnly: bool): seq<Cell> {
    if cells == [] then []
    else
      var front, last := cells[..|cells| - 1], cells[|cells| - 1];
      CellsOf(front, identity, metric, namedOnly) +
      if Identity(last) == identity && Get(last, "metric") == metric && (namedOnly ==> IsNamed(last)) then [last] else []
  }

  function NamedState(r: Record, identity: string): Presence {
    PresenceState(identity, CellsOf(r.cells, identity, Str("m2"), true), r.legacy)
  }

  function AnyState(r: Record, identity: string): Presence {
    PresenceState(identity, CellsOf(r.cells, identity, Str("m2"), false), r.legacy)
  }

  datatype Gap = Gap(identity: string, metric: string)

  function GapsOf(r: Record, identity: string): seq<Gap> {
    (if CellsOf(r.cells, identity, Str("m1"), true) == [] then [Gap(identity, "m1")] else []) +
    (if IsWarm(identity) && NamedState(r, identity) == Absent then [Gap(identity, "m2")] else [])
  }

  /** The gaps of the first `n` identities, in roster order. */
  function Gaps(r: Record, n: nat): seq<Gap>
    requires n <= |r.roster|
  {
    if n == 0 then [] else Gaps(r, n - 1) + GapsOf(r, r.roster[n - 1])
  }

  datatype Counts = Counts(total: nat, measured: nat, attempted: nat)

  /** The state of a warm identity; the others are not counted. */
  function AnyVerdict(r: Record, identity: string): Option<Presence> {
    if IsWarm(identity) then Some(AnyState(r, identity)) else None
  }

  function Counted(c: Counts, verdict: Option<Presence>): (d: Counts)
    ensures c.measured + c.attempted <= c.total ==> d.measured + d.attempted <= d.total
  {
    match verdict
    case None => c
    case Some(Measured) => Counts(c.total + 1, c.measured + 1, c.attempted)
    case Some(Attempted) => Counts(c.total + 1, c.measured, c.attempted + 1)
    case Some(Absent) => Counts(c.total + 1, c.measured, c.attempted)
  }

  function CountUpTo(r: Record, n: nat): (c: Counts)
    requires n <= |r.roster|
    ensures c.measured + c.attempted <= c.total
  {
    if n == 0 then Counts(0, 0, 0) else Counted(CountUpTo(r, n - 1), AnyVerdict(r, r.roster[n - 1]))
  }

  // ---- the walks as the program runs them ----

  function Lookup(observed: map<string, map<Json, seq<Cell>>>, identity: string, metric: Json): seq<Cell> {
    if identity in observed && metric in observed[identity] then observed[identity][metric] else []
  }

  predicate NonEmptyLists(observed: map<string, map<Json, seq<Cell>>>) {
    forall id | id in observed :: forall metric | metric in observed[id] :: observed[id][metric] != []
  }

  /** `observed.setdefault(key, {}).setdefault(metric, []).append(cell)` */
  function Appended(observed: map<string, map<Json, seq<Cell>>>, key: string, metric: Json, cell: Cell)
    : map<string, map<Json, seq<Cell>>>
  {
    var metrics := if key in observed then observed[key] else map[];
    observed[key := metrics[metric := (if metric in metrics then metrics[metric] else []) + [cell]]]
  }

  ghost predicate Lists(observed: map<string, map<Json, seq<Cell>>>, cells: seq<Cell>, id: string, metric: Json) {
    Lookup(observed, id, metric) == CellsOf(cells, id, metric, true)
  }

  ghost predicate Indexes(observed: map<string, map<Json, seq<Cell>>>, cells: seq<Cell>) {
    && NonEmptyLists(observed)
    && forall id, metric :: Lists(observed, cells, id, metric)
  }

  lemma CellsOfSnoc(cells: seq<Cell>, cell: Cell, identity: string, metric: Json, namedOnly: bool)
    ensures CellsOf(cells + [cell], identity, metric, namedOnly) ==
            CellsOf(cells, identity, metric, namedOnly) +
            if Identity(cell) == identity && Get(cell, "metric") == metric && (namedOnly ==> IsNamed(cell)) then [cell] else []
  {
    assert (cells + [cell])[..|cells|] == cells;
  }

  lemma AppendedIndexes(observed: map<string, map<Json, seq<Cell>>>, cells: seq<Cell>, cell: Cell)
    requires Indexes(observed, cells)
    ensures IsNamed(cell) ==> Indexes(Appended(observed, Identity(cell), Get(cell, "metric"), cell), cells + [cell])
    ensures !IsNamed(cell) ==> Indexes(observed, cells + [cell])
  {
    var next := if IsNamed(cell) then Appended(observed, Identity(cell), Get(cell, "metric"), cell) else observed;
    forall id, metric
      ensures Lists(next, cells + [cell], id, metric)
    {
      CellsOfSnoc(cells, cell, id, metric, true);
      assert Lists(observed, cells, id, metric);
    }
  }

  lemma ObservedGaps(observed: map<string, map<Json, seq<Cell>>>, r: Record, identity: string)
    requires Indexes(observed, r.cells)
    ensures var metrics := if identity in observed then observed[identity] else map[];
            var m2Cells := if Str("m2") in metrics then metrics[Str("m2")] else [];
            && (Str("m1") !in metrics <==> CellsOf(r.cells, identity, Str("m1"), true) == [])
            && PresenceState(identity, m2Cells, r.legacy) == NamedState(r, identity)
  {
    assert Lists(observed, r.cells, identity, Str("m1"));
    assert Lists(observed, r.cells, identity, Str("m2"));
  }

  /** The first loop of the gate: named cells by identity and metric. */
  method Observe(cells: seq<Cell>) returns (observed: map<string, map<Json, seq<Cell>>>)
    ensures Indexes(observed, cells)
  {
    observed := map[];
    for i := 0 to |cells|
      invariant Indexes(observed, cells[..i])
    {
      var cell := cells[i];
      assert cells[..i + 1] == cells[..i] + [cell];
      AppendedIndexes(observed, cells[..i], cell);
      if IsNamed(cell) {
        observed := Appended(observed, Identity(cell), Get(cell, "metric"), cell);
      }
    }
    assert cells[..|cells|] == cells;
  }

  /** What the loop appends for one identity. */
  lemma GapStep(r: Record, i: nat, gaps: seq<Gap>)
    requires i < |r.roster| && gaps == Gaps(r, i)
    ensures var id := r.roster[i];
            var withM1 := if CellsOf(r.cells, id, Str("m1"), true) == [] then gaps + [Gap(id, "m1")] else gaps;
            Gaps(r, i + 1) == if IsWarm(id) && NamedState(r, id) == Absent then withM1 + [Gap(id, "m2")] else withM1
  {
    assert Gaps(r, i + 1) == gaps + GapsOf(r, r.roster[i]);
  }

  method CompletenessGaps(r: Record) returns (gaps: seq<Gap>)
    ensures gaps == Gaps(r, |r.roster|)
  {
    var observed := Observe(r.cells);
    gaps := [];
    for i := 0 to |r.roster|
      invariant gaps == Gaps(r, i)
    {
      var identity := r.roster[i];
      ObservedGaps(observed, r, identity);
      GapStep(r, i, gaps);
      var metrics := if identity in observed then observed[identity] else map[];
      if Str("m1") !in metrics {
        gaps := gaps + [Gap(identity, "m1")];
      }
      var m2Cells := if Str("m2") in metrics then metrics[Str("m2")] else [];
      if IsWarm(identity) && PresenceState(identity, m2Cells, r.legacy) == Absent {
        gaps := gaps + [Gap(identity, "m2")];
      }
    }
  }

  function ListOf(byIdentity: map<string, seq<Cell>>, id: string): seq<Cell> {
    if id in byIdentity then byIdentity[id] else []
  }

  ghost predicate ListsM2(byIdentity: map<string, seq<Cell>>, cells: seq<Cell>, id: string) {
    ListOf(byIdentity, id) == CellsOf(cells, id, Str("m2"), false)
  }

  ghost predicate IndexesM2(byIdentity: map<string, seq<Cell>>, cells: seq<Cell>) {
    forall id :: ListsM2(byIdentity, cells, id)
  }

  lemma SnocIndexesM2(byIdentity: map<string, seq<Cell>>, cells: seq<Cell>, cell: Cell)
    requires IndexesM2(byIdentity, cells)
    ensures var id := Identity(cell);
            IndexesM2(if Get(cell, "metric") != Str("m2") then byIdentity
                      else byIdentity[id := ListOf(byIdentity, id) + [cell]], cells + [cell])
  {
    var own := Identity(cell);
    var next := if Get(cell, "metric") != Str("m2") then byIdentity
                else byIdentity[own := ListOf(byIdentity, own) + [cell]];
    forall id
      ensures ListsM2(next, cells + [cell], id)
    {
      assert ListsM2(byIdentity, cells, id);
      CellsOfSnoc(cells, cell, id, Str("m2"), false);
    }
  }

  lemma ObservedState(byIdentity: map<string, seq<Cell>>, r: Record, identity: string)
    requires IndexesM2(byIdentity, r.cells)
    ensures PresenceState(identity, ListOf(byIdentity, identity), r.legacy) == AnyState(r, identity)
  {
    assert ListsM2(byIdentity, r.cells, identity);
  }

  /** The first loop of the count: m2 cells by identity, named or not. */
  method ObserveM2(cells: seq<Cell>) returns (byIdentity: map<string, seq<Cell>>)
    ensures IndexesM2(byIdentity, cells)
  {
    byIdentity := map[];
    for i := 0 to |cells|
      invariant IndexesM2(byIdentity, cells[..i])
    {
      var cell := cells[i];
      assert cells[..i + 1] == cells[..i] + [cell];
      SnocIndexesM2(byIdentity, cells[..i], cell);
      if Get(cell, "metric") == Str("m2") {
        var identity := Identity(cell);
        byIdentity := byIdentity[identity := ListOf(byIdentity, identity) + [cell]];
      }
    }
    assert cells[..|cells|] == cells;
  }

  method M2PresenceCounts(r: Record) returns (c: Counts)
    ensures c == CountUpTo(r, |r.roster|)
  {
    var byIdentity := ObserveM2(r.cells);
    c := Counts(0, 0, 0);
    for i := 0 to |r.roster|
      invariant c == CountUpTo(r, i)
    {
      var identity := r.roster[i];
      ObservedState(byIdentity, r, identity);
      if IsWarm(identity) {
        c := Counted(c, Some(PresenceState(identity, ListOf(byIdentity, identity), r.legacy)));
      }
    }
  }

  // ---- the two walks agree ----

  /** How many of the gaps name the warm metric. */
  function M2Gaps(gaps: seq<Gap>): nat {
    if gaps == [] then 0
    else M2Gaps(gaps[..|gaps| - 1]) + if gaps[|gaps| - 1].metric == "m2" then 1 else 0
  }

  lemma {:induction false} M2GapsAppend(a: seq<Gap>, b: seq<Gap>)
    ensures M2Gaps(a + b) == M2Gaps(a) + M2Gaps(b)
  {
    if b == [] {
      assert a + b == a;
    } else {
      var front := b[..|b| - 1];
      assert (a + b)[..|a + b| - 1] == a + front;
      M2GapsAppend(a, front);
    }
  }

  lemma {:induction false} NamedCellsAreCells(cells: seq<Cell>, identity: string, metric: Json)
    ensures forall c | c in CellsOf(cells, identity, metric, true) :: c in CellsOf(cells, identity, metric, false)
  {
    if cells != [] {
      NamedCellsAreCells(cells[..|cells| - 1], identity, metric);
    }
  }

  lemma NamedPresenceIsPresence(r: Record, identity: string)
    ensures AnyState(r, identity) == Absent ==> NamedState(r, identity) == Absent
  {
    NamedCellsAreCells(r.cells, identity, Str("m2"));
  }

  /** The gate misses the identity and the count does not. */
  predicate WalksDisagree(r: Record, identity: string) {
    IsWarm(identity) && NamedState(r, identity) == Absent && AnyState(r, identity) != Absent
  }

  /** How many of the first `n` roster entries pass the test. */
  function Matching(roster: seq<string>, test: string -> bool, n: nat): nat
    requires n <= |roster|
  {
    if n == 0 then 0 else Matching(roster, test, n - 1) + if test(roster[n - 1]) then 1 else 0
  }

  lemma {:induction false} NoneMatch(roster: seq<string>, test: string -> bool, n: nat)
    requires n <= |roster|
    ensures Matching(roster, test, n) == 0 <==> forall i | 0 <= i < n :: !test(roster[i])
  {
    if n > 0 {
      NoneMatch(roster, test, n - 1);
    }
  }

  function DisagreeFor(r: Record): string -> bool {
    identity => WalksDisagree(r, identity)
  }

  lemma GapsOfCount(r: Record, identity: string)
    ensures M2Gaps(GapsOf(r, identity)) == if IsWarm(identity) && NamedState(r, identity) == Absent then 1 else 0
  {
    var m1 := if CellsOf(r.cells, identity, Str("m1"), true) == [] then [Gap(identity, "m1")] else [];
    var m2 := if IsWarm(identity) && NamedState(r, identity) == Absent then [Gap(identity, "m2")] else [];
    M2GapsAppend(m1, m2);
    assert "m1" != "m2" by { assert "m1"[1] != "m2"[1]; }
    assert m1 != [] ==> m1[..|m1| - 1] == [];
    assert m2 != [] ==> m2[..|m2| - 1] == [];
  }

  /** What each identity contributes, in roster order. */
  function Gathered(roster: seq<string>, per: string -> seq<Gap>, n: nat): seq<Gap>
    requires n <= |roster|
  {
    if n == 0 then [] else Gathered(roster, per, n - 1) + per(roster[n - 1])
  }

  function GapsFor(r: Record): string -> seq<Gap> {
    identity => GapsOf(r, identity)
  }

  lemma {:induction false} GapsAreGathered(r: Record, n: nat)
    requires n <= |r.roster|
    ensures Gaps(r, n) == Gathered(r.roster, GapsFor(r), n)
  {
    if n > 0 {
      GapsAreGathered(r, n - 1);
    }
  }

  function Tallied(roster: seq<string>, verdict: string -> Option<Presence>, n: nat): Counts
    requires n <= |roster|
  {
    if n == 0 then Counts(0, 0, 0) else Counted(Tallied(roster, verdict, n - 1), verdict(roster[n - 1]))
  }

  function VerdictFor(r: Record): string -> Option<Presence> {
    identity => AnyVerdict(r, identity)
  }

  lemma {:induction false} CountIsTally(r: Record, n: nat)
    requires n <= |r.roster|
    ensures CountUpTo(r, n) == Tallied(r.roster, VerdictFor(r), n)
  {
    if n > 0 {
      CountIsTally(r, n - 1);
    }
  }

  /** One contribution per identity: an uncounted identity, or one on which the walks disagree. */
  ghost predicate Explains(per: string -> seq<Gap>, verdict: string -> Option<Presence>, disagree: string -> bool) {
    forall id :: M2Gaps(per(id)) == (if verdict(id) == Some(Absent) then 1 else 0) + (if disagree(id) then 1 else 0)
  }

  lemma {:induction false} GatheredAgainstTallied(
    roster: seq<string>, per: string -> seq<Gap>, verdict: string -> Option<Presence>, disagree: string -> bool, n: nat)
    requires n <= |roster| && Explains(per, verdict, disagree)
    ensures var c := Tallied(roster, verdict, n);
            M2Gaps(Gathered(roster, per, n)) == c.total - c.measured - c.attempted + Matching(roster, disagree, n)
  {
    if n > 0 {
      GatheredAgainstTallied(roster, per, verdict, disagree, n - 1);
      M2GapsAppend(Gathered(roster, per, n - 1), per(roster[n - 1]));
    }
  }

  lemma GapsAreExplained(r: Record)
    ensures Explains(GapsFor(r), VerdictFor(r), DisagreeFor(r))
  {
    forall id
      ensures M2Gaps(GapsFor(r)(id)) ==
              (if VerdictFor(r)(id) == Some(Absent) then 1 else 0) + (if DisagreeFor(r)(id) then 1 else 0)
    {
      GapsOfCount(r, id);
      NamedPresenceIsPresence(r, id);
    }
  }

  // ---- when the walks disagree, said of the cells ----

  predicate IsEvidence(c: Cell, identity: string, metric: string) {
    IsNamed(c) && Identity(c) == identity && Get(c, "metric") == Str(metric)
  }

  /** A cell the gate skips although it renders as the identity. */
  predicate IsNamelessEvidence(c: Cell, identity: string, metric: string) {
    !IsNamed(c) && Identity(c) == identity && Get(c, "metric") == Str(metric)
  }

  lemma {:induction false} CellsOfMembers(cells: seq<Cell>, identity: string, metric: string, namedOnly: bool)
    ensures forall c :: c in CellsOf(cells, identity, Str(metric), namedOnly) <==>
              c in cells && (IsEvidence(c, identity, metric) || (!namedOnly && IsNamelessEvidence(c, identity, metric)))
  {
    if cells != [] {
      CellsOfMembers(cells[..|cells| - 1], identity, metric, namedOnly);
      assert cells == cells[..|cells| - 1] + [cells[|cells| - 1]];
    }
  }

  /** A warm identity without legacy entry and valid named m2 cell, but with a valid nameless one. */
  predicate OnlyNameless(r: Record, identity: string) {
    && IsWarm(identity) && identity !in r.legacy
    && (forall c | c in r.cells && IsEvidence(c, identity, "m2") :: !M2CellPresent(c))
    && exists c | c in r.cells :: IsNamelessEvidence(c, identity, "m2") && M2CellPresent(c)
  }

  lemma DisagreementIsNameless(r: Record, identity: string)
    ensures WalksDisagree(r, identity) <==> OnlyNameless(r, identity)
  {
    CellsOfMembers(r.cells, identity, "m2", true);
    CellsOfMembers(r.cells, identity, "m2", false);
    AbsentMeansNone(r, identity, true);
    AbsentMeansNone(r, identity, false);
  }

  lemma AbsentMeansNone(r: Record, identity: string, namedOnly: bool)
    ensures var cells := CellsOf(r.cells, identity, Str("m2"), namedOnly);
            PresenceState(identity, cells, r.legacy) == Absent <==> identity !in r.legacy && forall c | c in cells :: !M2CellPresent(c)
  {
  }

  /**
   * The number of warm gaps is the number of warm identities left uncounted, except that
   * identities whose only evidence lies in nameless cells are gaps and yet counted.
   */
  lemma GapsMatchCounts(r: Record)
    ensures var c := CountUpTo(r, |r.roster|);
            && M2Gaps(Gaps(r, |r.roster|)) >= c.total - c.measured - c.attempted
            && (M2Gaps(Gaps(r, |r.roster|)) == c.total - c.measured - c.attempted
                <==> forall i | 0 <= i < |r.roster| :: !OnlyNameless(r, r.roster[i]))
  {
    GapsAreExplained(r);
    CountIsTally(r, |r.roster|);
    GapsAreGathered(r, |r.roster|);
    GatheredAgainstTallied(r.roster, GapsFor(r), VerdictFor(r), DisagreeFor(r), |r.roster|);
    NoneMatch(r.roster, DisagreeFor(r), |r.roster|);
    forall i | 0 <= i < |r.roster|
      ensures DisagreeFor(r)(r.roster[i]) <==> OnlyNameless(r, r.roster[i])
    {
      DisagreementIsNameless(r, r.roster[i]);
    }
  }

  /** The record of a run whose warm evidence all sits in named cells. */
  predicate FullyNamed(r: Record) {
    forall c | c in r.cells && Get(c, "metric") == Str("m2") :: IsNamed(c)
  }

  lemma NamedGapsMatchCounts(r: Record)
    requires FullyNamed(r)
    ensures var c := CountUpTo(r, |r.roster|);
            M2Gaps(Gaps(r, |r.roster|)) == c.total - c.measured - c.attempted
  {
    GapsMatchCounts(r);
  }

  /** On every publishable record, named or not, each warm identity is measured or attempted. */
  lemma CompleteIsCounted(r: Record)
    requires Gaps(r, |r.roster|) == []
    ensures var c := CountUpTo(r, |r.roster|); c.measured + c.attempted == c.total
  {
    GapsMatchCounts(r);
  }

  /** An incomplete record on which the counts nevertheless claim that everything is present. */
  lemma NamelessExample() returns (r: Record)
    ensures M2Gaps(Gaps(r, |r.roster|)) == 1
    ensures CountUpTo(r, |r.roster|) == Counts(1, 1, 0)
  {
    var id := "t2-json/None";
    var cell: Cell := map["scenario" := Str("t2-json"), "metric" := Str("m2"),
                          "round_values" := Null, "median" := Null, "unit" := Null];
    r := Record([cell], [id], {});
    NamelessCell(r, cell, id);
    WarmJson(id);
    OneIdentity(r, id);
  }

  lemma OneIdentity(r: Record, id: string)
    requires r.roster == [id] && IsWarm(id) && NamedState(r, id) == Absent && AnyState(r, id) == Measured
    ensures M2Gaps(Gaps(r, 1)) == 1 && CountUpTo(r, 1) == Counts(1, 1, 0)
  {
    GapsOfCount(r, id);
    GapsAreGathered(r, 1);
    OneGathered(id, GapsFor(r));
    assert CountUpTo(r, 0) == Counts(0, 0, 0);
  }

  lemma OneGathered(id: string, per: string -> seq<Gap>)
    ensures Gathered([id], per, 1) == per(id)
  {
    assert Gathered([id], per, 0) == [];
  }

  lemma WarmJson(id: string)
    requires id == "t2-json/None"
    ensures IsWarm(id)
  {
    IndexOfAppend("t2-json", "/None", '/');
    assert id == "t2-json" + "/None";
  }

  lemma NamelessCell(r: Record, cell: Cell, id: string)
    requires r.cells == [cell] && r.legacy == {} && id == "t2-json/None"
    requires Get(cell, "scenario") == Str("t2-json") && "contender" !in cell && "status" !in cell
    requires Get(cell, "metric") == Str("m2") && "round_values" in cell && "median" in cell && "unit" in cell
    ensures NamedState(r, id) == Absent && AnyState(r, id) == Measured
  {
    assert Identity(cell) == id;
    assert r.cells[..0] == [];
    assert CellsOf(r.cells, id, Str("m2"), true) == [];
    assert CellsOf(r.cells, id, Str("m2"), false) == [cell];
  }

  // ---- what the gate reports, said of the cells ----

  ghost predicate OwnGaps(per: string -> seq<Gap>) {
    forall id, g | g in per(id) :: g.identity == id
  }

  lemma {:induction false} GatheredMembers(roster: seq<string>, per: string -> seq<Gap>, n: nat, g: Gap)
    requires n <= |roster| && OwnGaps(per)
    ensures g in Gathered(roster, per, n) <==> g.identity in roster[..n] && g in per(g.identity)
  {
    if n > 0 {
      GatheredMembers(roster, per, n - 1, g);
      assert roster[..n] == roster[..n - 1] + [roster[n - 1]];
    }
  }

  lemma GapIsListed(r: Record, g: Gap)
    ensures g in Gaps(r, |r.roster|) <==> g.identity in r.roster && g in GapsOf(r, g.identity)
  {
    assert OwnGaps(GapsFor(r));
    assert r.roster[..|r.roster|] == r.roster;
    GapsAreGathered(r, |r.roster|);
    GatheredMembers(r.roster, GapsFor(r), |r.roster|, g);
  }

  /** A missing cold metric is named exactly when no named cell of the identity carries it. */
  lemma ColdGap(r: Record, identity: string)
    ensures Gap(identity, "m1") in Gaps(r, |r.roster|)
            <==> identity in r.roster && forall c | c in r.cells :: !IsEvidence(c, identity, "m1")
  {
    var g := Gap(identity, "m1");
    GapIsListed(r, g);
    CellsOfMembers(r.cells, identity, "m1", true);
    var cells := CellsOf(r.cells, identity, Str("m1"), true);
    assert cells != [] ==> cells[0] in cells;
    assert g != Gap(identity, "m2") by { assert "m1"[1] != "m2"[1]; }
  }

  /** A missing warm metric is named exactly for warm identities with no valid m2 cell and no legacy entry. */
  lemma WarmGap(r: Record, identity: string)
    ensures Gap(identity, "m2") in Gaps(r, |r.roster|)
            <==> && identity in r.roster && IsWarm(identity) && identity !in r.legacy
                 && forall c | c in r.cells && IsEvidence(c, identity, "m2") :: !M2CellPresent(c)
  {
    var g := Gap(identity, "m2");
    GapIsListed(r, g);
    CellsOfMembers(r.cells, identity, "m2", true);
    assert g != Gap(identity, "m1") by { assert "m1"[1] != "m2"[1]; }
  }
}
