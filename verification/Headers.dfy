/** Message headers: a map keyed by raw names that behaves as one keyed by ASCII-lowercase names. */
module Headers {
  import opened Text

  function LowerChar(c: char): char {
    if 'A' <= c <= 'Z' then 'a' + (c - 'A') else c
  }

  function Lower(s: string): (t: string)
    ensures |t| == |s| && forall i | 0 <= i < |s| :: t[i] == LowerChar(s[i])
  {
    seq(|s|, i requires 0 <= i < |s| => LowerChar(s[i]))
  }

  predicate SameName(a: string, b: string) {
    Lower(a) == Lower(b)
  }

  lemma LowerTwice(s: string)
    ensures Lower(Lower(s)) == Lower(s)
  {
  }

  // ---- lookups ----

  predicate Matches<V>(h: map<string, V>, key: string, k: string) {
    k in h && SameName(k, key)
  }

  /** The exact name wins; otherwise the value whose stored name is least among the matches. */
  ghost predicate IsLookup<V>(h: map<string, V>, key: string, r: Option<V>) {
    if key in h then r == Some(h[key])
    else if r.None? then forall k | k in h :: !SameName(k, key)
    else exists k | k in h :: IsLeast(h, key, k) && r.value == h[k]
  }

  ghost predicate IsLeast<V>(h: map<string, V>, key: string, k: string) {
    Matches(h, key, k) && forall j | Matches(h, key, j) && j != k :: Before(k, j)
  }

  /** The lookup does not depend on the order in which the map is walked. */
  lemma LookupIsUnique<V>(h: map<string, V>, key: string, r: Option<V>, q: Option<V>)
    requires IsLookup(h, key, r) && IsLookup(h, key, q)
    ensures r == q
  {
    if key !in h && r.Some? && q.Some? {
      var j :| j in h && IsLeast(h, key, j) && r.value == h[j];
      var k :| k in h && IsLeast(h, key, k) && q.value == h[k];
      BeforeIsStrict(j, k);
    }
  }

  /** No two stored names differ only in case. */
  ghost predicate CaseUnique<V>(h: map<string, V>) {
    forall j, k | j in h && k in h && SameName(j, k) :: j == k
  }

  /** The map by lowercase name. */
  ghost function ByName<V>(h: map<string, V>): map<string, V>
    requires CaseUnique(h)
  {
    map k | k in h :: Lower(k) := h[k]
  }

  function Get<V>(m: map<string, V>, name: string): Option<V> {
    if name in m then Some(m[name]) else None
  }

  /** On a case-unique map the lookup is the lookup by lowercase name. */
  lemma LookupByName<V>(h: map<string, V>, key: string, r: Option<V>)
    requires CaseUnique(h) && IsLookup(h, key, r)
    ensures r == Get(ByName(h), Lower(key))
  {
  }

  // ---- updates ----

  function Retained<V>(h: map<string, V>, key: string): map<string, V> {
    map k | k in h && !SameName(k, key) :: h[k]
  }

  function WithHeader<V>(h: map<string, V>, key: string, value: V): map<string, V> {
    Retained(h, key)[key := value]
  }

  /** On any map whatever: one name is left in the class of `key`, every other class is as before. */
  lemma SetOnRawMap<V>(h: map<string, V>, key: string, value: V)
    ensures var g := WithHeader(h, key, value);
            && (forall k :: Matches(g, key, k) <==> k == key)
            && (forall k | !SameName(k, key) :: (k in g <==> k in h) && (k in h ==> g[k] == h[k]))
            && forall other, r | SameName(other, key) && IsLookup(g, other, r) :: r == Some(value)
  {
    var g := WithHeader(h, key, value);
    forall other, r | SameName(other, key) && IsLookup(g, other, r)
      ensures r == Some(value)
    {
      assert Matches(g, other, key);
    }
  }

  /** Lookups of other names do not see the update. */
  lemma SetKeepsOtherLookups<V>(h: map<string, V>, key: string, value: V, other: string, r: Option<V>)
    requires !SameName(other, key)
    ensures IsLookup(WithHeader(h, key, value), other, r) <==> IsLookup(h, other, r)
  {
    var g := WithHeader(h, key, value);
    assert forall k :: Matches(g, other, k) <==> Matches(h, other, k);
    assert forall k :: IsLeast(g, other, k) <==> IsLeast(h, other, k);
    if IsLookup(h, other, r) && other !in h && r.Some? {
      var k :| k in h && IsLeast(h, other, k) && r.value == h[k];
      assert k in g && IsLeast(g, other, k) && r.value == g[k];
    }
  }

  lemma RetainedByName<V>(h: map<string, V>, key: string)
    requires CaseUnique(h)
    ensures CaseUnique(Retained(h, key)) && ByName(Retained(h, key)) == ByName(h) - {Lower(key)}
  {
    var g := Retained(h, key);
    forall n
      ensures n in ByName(g) <==> n in ByName(h) && n != Lower(key)
    {
      if n in ByName(h) && n != Lower(key) {
        var k :| k in h && Lower(k) == n;
        assert k in g;
      }
    }
  }

  lemma SetByName<V>(h: map<string, V>, key: string, value: V)
    requires CaseUnique(h)
    ensures CaseUnique(WithHeader(h, key, value))
    ensures ByName(WithHeader(h, key, value)) == ByName(h)[Lower(key) := value]
  {
    RetainedByName(h, key);
    InsertByName(Retained(h, key), key, value);
  }

  lemma InsertByName<V>(r: map<string, V>, key: string, value: V)
    requires CaseUnique(r) && forall k | k in r :: !SameName(k, key)
    ensures CaseUnique(r[key := value])
    ensures ByName(r[key := value]) == ByName(r)[Lower(key) := value]
  {
    var g := r[key := value];
    assert CaseUnique(g);
    var named := ByName(g);
    assert key in g && Lower(key) in named;
    forall n
      ensures n in named <==> n in ByName(r) || n == Lower(key)
    {
      if n in ByName(r) {
        var k :| k in r && Lower(k) == n;
        assert k in g;
      }
    }
  }

  // ---- the message ----

  class Message<V> {
    var headers: map<string, V>

    constructor ()
      ensures headers == map[]
    {
      headers := map[];
    }

    method Header(key: string) returns (r: Option<V>)
      ensures r == Get(headers, key)
    {
      r := if key in headers then Some(headers[key]) else None;
    }

    /** Walks the map in an arbitrary order. */
    method HeaderIc(key: string) returns (r: Option<V>)
      ensures IsLookup(headers, key, r)
    {
      if key in headers {
        return Some(headers[key]);
      }
      var rest := headers.Keys;
      var best: Option<string> := None;
      while rest != {}
        invariant rest <= headers.Keys
        invariant best.None? ==> forall j | Matches(headers, key, j) :: j in rest
        invariant best.Some? ==> Matches(headers, key, best.value)
        invariant best.Some? ==> forall j | Matches(headers, key, j) && j !in rest && j != best.value :: Before(best.value, j)
        decreases rest
      {
        var k :| k in rest;
        if SameName(k, key) {
          if best.None? {
            best := Some(k);
          } else {
            LeastOf(headers, key, best.value, k, rest);
            if Before(k, best.value) {
              best := Some(k);
            }
          }
        }
        rest := rest - {k};
      }
      if best.None? {
        assert forall j | j in headers :: !Matches(headers, key, j);
        return None;
      }
      assert IsLeast(headers, key, best.value);
      r := Some(headers[best.value]);
    }

    method SetHeader(key: string, value: V)
      modifies this
      ensures headers == WithHeader(old(headers), key, value)
    {
      headers := map k | k in headers && !SameName(k, key) :: headers[k];
      headers := headers[key := value];
    }

    method SetHeaderNormalized(key: string, value: V)
      modifies this
      ensures headers == WithHeader(old(headers), Lower(key), value)
    {
      var name := Lower(key);
      headers := map k | k in headers && !SameName(k, name) :: headers[k];
      headers := headers[name := value];
    }

    method RemoveHeader(key: string) returns (removed: Option<V>)
      modifies this
      ensures removed == Get(old(headers), key)
      ensures headers == Retained(old(headers), key)
    {
      removed := if key in headers then Some(headers[key]) else None;
      headers := headers - {key};
      headers := map k | k in headers && !SameName(k, key) :: headers[k];
    }
  }

  lemma LeastOf<V>(h: map<string, V>, key: string, best: string, k: string, rest: set<string>)
    requires k in rest && Matches(h, key, best) && Matches(h, key, k)
    requires forall j | Matches(h, key, j) && j !in rest && j != best :: Before(best, j)
    ensures best == k || Before(best, k) || Before(k, best)
    ensures Before(k, best) ==> forall j | Matches(h, key, j) && j !in rest :: Before(k, j)
  {
    BeforeIsStrict(best, k);
    if Before(k, best) {
      forall j | Matches(h, key, j) && j !in rest
        ensures Before(k, j)
      {
        if j != best {
          BeforeIsTransitive(k, best, j);
        }
      }
    }
  }

  /** Removal reports the removed value exactly when no case variant held it under another spelling. */
  lemma RemovalReports<V>(h: map<string, V>, key: string)
    requires CaseUnique(h)
    ensures Get(h, key) == Get(ByName(h), Lower(key)) <==> key in h || Lower(key) !in ByName(h)
  {
    if Lower(key) in ByName(h) {
      var k :| k in h && Lower(k) == Lower(key);
      assert key in h ==> SameName(k, key);
    }
    assert key in h ==> Lower(key) in ByName(h);
  }

  // ---- every sequence of operations ----

  datatype Op<V> = Set(key: string, value: V) | SetNormalized(key: string, value: V) | Remove(key: string)

  function Step<V>(h: map<string, V>, op: Op<V>): map<string, V> {
    match op
    case Set(key, value) => WithHeader(h, key, value)
    case SetNormalized(key, value) => WithHeader(h, Lower(key), value)
    case Remove(key) => Retained(h, key)
  }

  /** The same operation on a map keyed by lowercase name. */
  function NameStep<V>(m: map<string, V>, op: Op<V>): map<string, V> {
    match op
    case Set(key, value) => m[Lower(key) := value]
    case SetNormalized(key, value) => m[Lower(key) := value]
    case Remove(key) => m - {Lower(key)}
  }

  function Run<V>(h: map<string, V>, ops: seq<Op<V>>): map<string, V> {
    if ops == [] then h else Step(Run(h, ops[..|ops| - 1]), ops[|ops| - 1])
  }

  function NameRun<V>(m: map<string, V>, ops: seq<Op<V>>): map<string, V> {
    if ops == [] then m else NameStep(NameRun(m, ops[..|ops| - 1]), ops[|ops| - 1])
  }

  lemma StepByName<V>(h: map<string, V>, op: Op<V>)
    requires CaseUnique(h)
    ensures CaseUnique(Step(h, op)) && ByName(Step(h, op)) == NameStep(ByName(h), op)
  {
    match op
    case Set(key, value) => SetByName(h, key, value);
    case SetNormalized(key, value) =>
      SetByName(h, Lower(key), value);
      LowerTwice(key);
    case Remove(key) => RetainedByName(h, key);
  }

  /** After any operations on a new message, the headers are the map by lowercase name. */
  lemma {:induction false} RunByName<V>(ops: seq<Op<V>>)
    ensures CaseUnique(Run(map[], ops)) && ByName(Run(map[], ops)) == NameRun(map[], ops)
  {
    if ops != [] {
      var before := ops[..|ops| - 1];
      RunByName(before);
      StepByName(Run(map[], before), ops[|ops| - 1]);
    }
  }

  /** So every case-insensitive lookup is a lookup by lowercase name. */
  lemma RunLookup<V>(ops: seq<Op<V>>, key: string, r: Option<V>)
    requires IsLookup(Run(map[], ops), key, r)
    ensures r == Get(NameRun(map[], ops), Lower(key))
  {
    RunByName(ops);
    LookupByName(Run(map[], ops), key, r);
  }

  // ---- exact lookups ----

  /** The spelling under which each lowercase name was last set. */
  function SpellStep<V>(m: map<string, string>, op: Op<V>): map<string, string> {
    match op
    case Set(key, _) => m[Lower(key) := key]
    case SetNormalized(key, _) => m[Lower(key) := Lower(key)]
    case Remove(key) => m - {Lower(key)}
  }

  function SpellRun<V>(ops: seq<Op<V>>): map<string, string> {
    if ops == [] then map[] else SpellStep(SpellRun(ops[..|ops| - 1]), ops[|ops| - 1])
  }

  /** A name is stored exactly as the spelling of its class. */
  ghost predicate StoredAs<V>(h: map<string, V>, spelling: map<string, string>) {
    forall k :: k in h <==> Lower(k) in spelling && spelling[Lower(k)] == k
  }

  lemma StepStoredAs<V>(h: map<string, V>, spelling: map<string, string>, op: Op<V>)
    requires StoredAs(h, spelling)
    ensures StoredAs(Step(h, op), SpellStep(spelling, op))
  {
    if op.SetNormalized? {
      LowerTwice(op.key);
    }
  }

  lemma {:induction false} RunStoredAs<V>(ops: seq<Op<V>>)
    ensures StoredAs(Run(map[], ops), SpellRun(ops))
  {
    if ops != [] {
      RunStoredAs(ops[..|ops| - 1]);
      StepStoredAs(Run(map[], ops[..|ops| - 1]), SpellRun(ops[..|ops| - 1]), ops[|ops| - 1]);
    }
  }

  /**
   * After any operations on a new message an exact lookup finds the header exactly under the
   * spelling of its last set, and then the value a case-insensitive lookup finds.
   */
  lemma RunHeader<V>(ops: seq<Op<V>>, key: string)
    ensures var exact := Get(Run(map[], ops), key);
            && (exact.Some? <==> Get(SpellRun(ops), Lower(key)) == Some(key))
            && (exact.Some? ==> exact == Get(NameRun(map[], ops), Lower(key)))
  {
    RunStoredAs(ops);
    RunByName(ops);
    var h := Run(map[], ops);
    if key in h {
      assert Lower(key) in ByName(h) && ByName(h)[Lower(key)] == h[key];
    }
  }
}
