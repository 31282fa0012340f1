/**
 * Endpoint URIs: a fail-closed merge of a base URI with a parameter map, a canonical
 * rendering that replays the base query byte for byte, and a redacting rendering that
 * walks the same pairs.
 *
 * A parameter map is modelled by the list of its entries, in the order in which it yields them.
 */
module EndpointUri {
  import opened Text
  import RedactMask
  import RedactQuery

  type Params = seq<(string, string)>

  datatype Uri = Uri(scheme: string, path: string, params: Params, rawQuery: Option<string>)

  datatype UriError =
    | MissingScheme
    | EmptyQueryKey
    | InvalidParamKey(key: string)
    | DuplicateKey(key: string)

  datatype Result = Ok(uri: Uri) | Err(error: UriError)

  /** The bytes a parameter key may not contain and a parameter value is rendered without. */
  predicate IsReserved(c: char) {
    c in {'&', '=', '%', '#', '?', '+', ' '}
  }

  predicate IsValidKey(key: string) {
    key != [] && forall i | 0 <= i < |key| :: !IsReserved(key[i])
  }

  function KeyOf(pair: string): string {
    Head(pair, '=')
  }

  // ---- merging ----

  function QueryPairs(rawQuery: Option<string>): seq<string> {
    match rawQuery
    case None => []
    case Some(q) => Split(q, '&')
  }

  function Keys(pairs: seq<string>): (keys: seq<string>)
    ensures |keys| == |pairs|
    ensures forall i | 0 <= i < |pairs| :: keys[i] == KeyOf(pairs[i])
  {
    seq(|pairs|, i requires 0 <= i < |pairs| => KeyOf(pairs[i]))
  }

  function FirstInvalid(params: Params): (k: nat)
    ensures k <= |params|
    ensures forall i | 0 <= i < k :: IsValidKey(params[i].0)
    ensures k < |params| ==> !IsValidKey(params[k].0)
  {
    if params == [] || !IsValidKey(params[0].0) then 0 else 1 + FirstInvalid(params[1..])
  }

  function FirstDuplicate(params: Params, keys: seq<string>): (k: nat)
    ensures k <= |params|
    ensures forall i | 0 <= i < k :: params[i].0 !in keys
    ensures k < |params| ==> params[k].0 in keys
  {
    if params == [] || params[0].0 in keys then 0 else 1 + FirstDuplicate(params[1..], keys)
  }

  /** The merge once the scheme is known; `rest` is what follows the first `:`. */
  function MergeRest(scheme: string, rest: string, params: Params): Result {
    var rawQuery := Tail(rest, '?');
    var keys := Keys(QueryPairs(rawQuery));
    var invalid, duplicate := FirstInvalid(params), FirstDuplicate(params, keys);
    if [] in keys then Err(EmptyQueryKey)
    else if invalid < |params| then Err(InvalidParamKey(params[invalid].0))
    else if duplicate < |params| then Err(DuplicateKey(params[duplicate].0))
    else Ok(Uri(scheme, Head(rest, '?'), params, rawQuery))
  }

  /** The scheme is what stands before the first `:`. */
  function Merge(base: string, params: Params): Result {
    match Tail(base, ':')
    case None => Err(MissingScheme)
    case Some(rest) => if Head(base, ':') == [] then Err(MissingScheme) else MergeRest(Head(base, ':'), rest, params)
  }

  method TryFromUriAndParams(base: string, params: Params) returns (r: Result)
    ensures r == Merge(base, params)
  {
    var split := Tail(base, ':');
    if split.None? || Head(base, ':') == [] {
      return Err(MissingScheme);
    }
    var rest := split.value;
    var rawQuery := Tail(rest, '?');
    var pairs := QueryPairs(rawQuery);
    var queryKeys: seq<string> := [];
    for i := 0 to |pairs|
      invariant queryKeys == Keys(pairs)[..i]
      invariant [] !in queryKeys
    {
      var key := KeyOf(pairs[i]);
      if key == [] {
        assert Keys(pairs)[i] == [];
        return Err(EmptyQueryKey);
      }
      queryKeys := queryKeys + [key];
    }
    assert Keys(pairs)[..|pairs|] == Keys(pairs);
    for i := 0 to |params|
      invariant forall j | 0 <= j < i :: IsValidKey(params[j].0)
    {
      if !IsValidKey(params[i].0) {
        assert FirstInvalid(params) == i;
        return Err(InvalidParamKey(params[i].0));
      }
    }
    for i := 0 to |params|
      invariant forall j | 0 <= j < i :: params[j].0 !in queryKeys
    {
      if params[i].0 in queryKeys {
        assert FirstDuplicate(params, queryKeys) == i;
        return Err(DuplicateKey(params[i].0));
      }
    }
    r := Ok(Uri(Head(base, ':'), Head(rest, '?'), params, rawQuery));
  }

  /** The base has a scheme: a `:` that is not its first byte. */
  predicate HasScheme(base: string) {
    ':' in base && base[0] != ':'
  }

  lemma SchemeIsFound(base: string)
    ensures HasScheme(base) <==> Tail(base, ':').Some? && Head(base, ':') != []
  {
    if ':' !in base {
      IndexOfAbsent(base, ':');
    }
  }

  /** The verdict once the scheme is known: an empty query key, then an invalid, then a repeated parameter. */
  lemma RestVerdict(scheme: string, rest: string, params: Params)
    ensures var keys := Keys(QueryPairs(Tail(rest, '?')));
            match MergeRest(scheme, rest, params) {
              case Ok(u) => [] !in keys && !HasInvalid(params) && !HasDuplicate(params, keys) && u.params == params
              case Err(MissingScheme) => false
              case Err(EmptyQueryKey) => [] in keys
              case Err(InvalidParamKey(k)) => [] !in keys && HasInvalid(params) && !IsValidKey(k)
              case Err(DuplicateKey(k)) => [] !in keys && !HasInvalid(params) && HasDuplicate(params, keys) && k in keys
            }
  {
  }

  predicate HasInvalid(params: Params) {
    exists i | 0 <= i < |params| :: !IsValidKey(params[i].0)
  }

  predicate HasDuplicate(params: Params, keys: seq<string>) {
    exists i | 0 <= i < |params| :: params[i].0 in keys
  }

  /** The keys of the query of a base. */
  function BaseKeys(base: string): seq<string> {
    match Tail(base, ':')
    case None => []
    case Some(rest) => Keys(QueryPairs(Tail(rest, '?')))
  }

  /**
   * Exactly when a base and parameters are accepted, and which error is reported first: a missing
   * scheme, then an empty key in the base query, then an invalid parameter key, then a parameter
   * that the base query already has.
   */
  lemma MergeVerdict(base: string, params: Params)
    ensures var keys := BaseKeys(base);
            match Merge(base, params) {
              case Ok(u) =>
                HasScheme(base) && [] !in keys && !HasInvalid(params) && !HasDuplicate(params, keys) && u.params == params
              case Err(MissingScheme) => !HasScheme(base)
              case Err(EmptyQueryKey) => HasScheme(base) && [] in keys
              case Err(InvalidParamKey(k)) => HasScheme(base) && [] !in keys && HasInvalid(params) && !IsValidKey(k)
              case Err(DuplicateKey(k)) =>
                HasScheme(base) && [] !in keys && !HasInvalid(params) && HasDuplicate(params, keys) && k in keys
            }
  {
    SchemeIsFound(base);
    if HasScheme(base) {
      RestVerdict(Head(base, ':'), Tail(base, ':').value, params);
    }
  }

  // ---- rendering ----

  datatype RenderPair = RenderPair(key: string, value: Option<string>, fromRawQuery: bool)

  function RawPair(pair: string): RenderPair {
    RenderPair(KeyOf(pair), Tail(pair, '='), true)
  }

  function ParamPair(entry: (string, string)): RenderPair {
    RenderPair(entry.0, Some(entry.1), false)
  }

  function RawPairs(pairs: seq<string>): (out: seq<RenderPair>)
    ensures |out| == |pairs|
    ensures forall i | 0 <= i < |pairs| :: out[i] == RawPair(pairs[i])
  {
    seq(|pairs|, i requires 0 <= i < |pairs| => RawPair(pairs[i]))
  }

  function ParamPairs(params: Params): (out: seq<RenderPair>)
    ensures |out| == |params|
    ensures forall i | 0 <= i < |params| :: out[i] == ParamPair(params[i])
  {
    seq(|params|, i requires 0 <= i < |params| => ParamPair(params[i]))
  }

  /** Every pair in rendering order: the raw query first, then the parameters. */
  function Pairs(u: Uri): seq<RenderPair> {
    RawPairs(QueryPairs(u.rawQuery)) + ParamPairs(u.params)
  }

  function EncodeChar(c: char): string {
    if c == '&' then "%26"
    else if c == '=' then "%3D"
    else if c == '%' then "%25"
    else if c == '#' then "%23"
    else if c == '?' then "%3F"
    else if c == '+' then "%2B"
    else if c == ' ' then "%20"
    else [c]
  }

  function Encode(value: string): string {
    if value == [] then [] else EncodeChar(value[0]) + Encode(value[1..])
  }

  method PushPercentEncoded(out: string, value: string) returns (r: string)
    ensures r == out + Encode(value)
  {
    r := out;
    for i := 0 to |value|
      invariant r + Encode(value[i..]) == out + Encode(value)
    {
      assert value[i..][1..] == value[i + 1..];
      r := r + EncodeChar(value[i]);
    }
  }

  type Transform = (string, string) -> string

  function ValueText(pair: RenderPair, transform: Transform): string {
    match pair.value
    case None => []
    case Some(v) =>
      var shown := transform(pair.key, v);
      "=" + if pair.fromRawQuery then shown else Encode(shown)
  }

  /** One pair as text, its value passed through `transform` first. */
  function PairText(pair: RenderPair, transform: Transform): string {
    pair.key + ValueText(pair, transform)
  }

  function Texts(pairs: seq<RenderPair>, transform: Transform): (out: seq<string>)
    ensures |out| == |pairs|
    ensures forall i | 0 <= i < |pairs| :: out[i] == PairText(pairs[i], transform)
  {
    seq(|pairs|, i requires 0 <= i < |pairs| => PairText(pairs[i], transform))
  }

  /** A `?` and the pairs joined by `&`, or nothing when there is no pair. */
  function QueryText(texts: seq<string>): string {
    if texts == [] then [] else ['?'] + Join(texts, '&')
  }

  function Render(scheme: string, path: string, texts: seq<string>): string {
    scheme + [':'] + path + QueryText(texts)
  }

  function Plain(key: string, value: string): string {
    value
  }

  function Canonical(u: Uri): string {
    Render(u.scheme, u.path, Texts(Pairs(u), Plain))
  }

  method PushPair(out: string, pair: RenderPair, transform: Transform) returns (r: string)
    ensures r == out + PairText(pair, transform)
  {
    r := out + pair.key;
    if pair.value.Some? {
      var shown := transform(pair.key, pair.value.value);
      if pair.fromRawQuery {
        r := r + "=" + shown;
      } else {
        r := PushPercentEncoded(r + "=", shown);
      }
    }
  }

  lemma QueryTextSnoc(head: string, texts: seq<string>, last: string)
    ensures head + QueryText(texts) + (if texts == [] then ['?'] else ['&']) + last == head + QueryText(texts + [last])
  {
    if texts != [] {
      JoinConcat(texts, [last], '&');
    }
  }

  lemma RenderStep(head: string, texts: seq<string>, i: nat)
    requires i < |texts|
    ensures head + QueryText(texts[..i]) + (if i == 0 then ['?'] else ['&']) + texts[i] == head + QueryText(texts[..i + 1])
  {
    assert texts[..i + 1] == texts[..i] + [texts[i]];
    QueryTextSnoc(head, texts[..i], texts[i]);
  }

  /** The rendering loop shared by both renderings. */
  method RenderPairs(scheme: string, path: string, pairs: seq<RenderPair>, transform: Transform) returns (out: string)
    ensures out == Render(scheme, path, Texts(pairs, transform))
  {
    out := scheme + [':'] + path;
    ghost var head := out;
    ghost var texts := Texts(pairs, transform);
    for i := 0 to |pairs|
      invariant out == head + QueryText(texts[..i])
    {
      RenderStep(head, texts, i);
      out := out + if i == 0 then ['?'] else ['&'];
      out := PushPair(out, pairs[i], transform);
    }
    assert texts[..|pairs|] == texts;
  }

  method ToCanonicalString(u: Uri) returns (out: string)
    ensures out == Canonical(u)
  {
    out := RenderPairs(u.scheme, u.path, Pairs(u), Plain);
  }

  // ---- the canonical round trip ----

  lemma RawPairText(pair: string)
    ensures PairText(RawPair(pair), Plain) == pair
  {
    HeadTailBack(pair, '=');
  }

  lemma EncodeCharIsClean(c: char)
    ensures '&' !in EncodeChar(c) && '=' !in EncodeChar(c)
  {
  }

  lemma {:induction false} EncodeIsClean(v: string)
    ensures '&' !in Encode(v) && '=' !in Encode(v)
  {
    if v != [] {
      EncodeIsClean(v[1..]);
      EncodeCharIsClean(v[0]);
    }
  }

  lemma DecodeFront(c: char, rest: string)
    ensures RedactQuery.PercentDecode(EncodeChar(c) + rest, RedactQuery.AnyEscape)
         == [c] + RedactQuery.PercentDecode(rest, RedactQuery.AnyEscape)
  {
    var s := EncodeChar(c) + rest;
    assert s[|EncodeChar(c)|..] == rest;
    if IsReserved(c) {
      assert s[0] == '%' && RedactQuery.AnyEscape(s[1], s[2]) == Some(c);
    } else {
      assert s[0] == c != '%';
    }
  }

  /** Percent-decoding an encoded value gives the value back. */
  lemma {:induction false} DecodeEncode(v: string)
    ensures RedactQuery.PercentDecode(Encode(v), RedactQuery.AnyEscape) == v
  {
    if v != [] {
      DecodeFront(v[0], Encode(v[1..]));
      DecodeEncode(v[1..]);
      assert v == [v[0]] + v[1..];
    }
  }

  /** What a parameter looks like when the canonical text is read back. */
  function ReadBack(entry: (string, string)): RenderPair {
    RenderPair(entry.0, Some(Encode(entry.1)), true)
  }

  lemma ParamText(entry: (string, string))
    requires IsValidKey(entry.0)
    ensures var t := PairText(ParamPair(entry), Plain);
            '&' !in t && RawPair(t) == ReadBack(entry) && KeyOf(t) != []
  {
    EncodeIsClean(entry.1);
    assert '=' !in entry.0 && '&' !in entry.0;
    var t := PairText(ParamPair(entry), Plain);
    assert t == entry.0 + ['='] + Encode(entry.1);
    HeadTail(entry.0, Encode(entry.1), '=');
  }

  /** The texts of the canonical query: the raw pairs, then the encoded parameters. */
  function CanonicalTexts(u: Uri): seq<string> {
    Texts(Pairs(u), Plain)
  }

  ghost predicate Accepted(u: Uri, base: string, params: Params) {
    Merge(base, params) == Ok(u)
  }

  lemma AcceptedBase(u: Uri, base: string, params: Params)
    requires Accepted(u, base, params)
    ensures u.params == params && u.scheme != [] && ':' !in u.scheme && '?' !in u.path
    ensures base == u.scheme + [':'] + (u.path + match u.rawQuery { case None => [] case Some(q) => ['?'] + q })
  {
    var rest := Tail(base, ':').value;
    MergedParts(Head(base, ':'), rest, params, u);
    HeadTailBack(base, ':');
    RestOfBase(rest);
    RedactMask.Concat3(u.scheme, [':'], rest);
  }

  lemma RestOfBase(rest: string)
    ensures rest == Head(rest, '?') + match Tail(rest, '?') { case None => [] case Some(q) => ['?'] + q }
    ensures '?' !in Head(rest, '?')
  {
    HeadTailBack(rest, '?');
  }

  lemma MergedParts(scheme: string, rest: string, params: Params, u: Uri)
    requires MergeRest(scheme, rest, params) == Ok(u)
    ensures u == Uri(scheme, Head(rest, '?'), params, Tail(rest, '?'))
  {
  }

  lemma AcceptedKeys(u: Uri, base: string, params: Params)
    requires Accepted(u, base, params)
    ensures u.params == params && [] !in Keys(QueryPairs(u.rawQuery))
    ensures forall k | 0 <= k < |params| :: IsValidKey(params[k].0) && params[k].0 !in Keys(QueryPairs(u.rawQuery))
  {
  }

  lemma AcceptedPairs(u: Uri, base: string, params: Params)
    requires Accepted(u, base, params)
    ensures forall p | p in QueryPairs(u.rawQuery) :: '&' !in p && KeyOf(p) != []
  {
    AcceptedKeys(u, base, params);
    var pairs := QueryPairs(u.rawQuery);
    forall i | 0 <= i < |pairs|
      ensures KeyOf(pairs[i]) != []
    {
      assert Keys(pairs)[i] in Keys(pairs);
    }
  }

  lemma CanonicalTextsAre(u: Uri)
    ensures CanonicalTexts(u) == QueryPairs(u.rawQuery) + Texts(ParamPairs(u.params), Plain)
  {
    TextsConcat(RawPairs(QueryPairs(u.rawQuery)), ParamPairs(u.params), Plain);
    TextsOfRawPairs(QueryPairs(u.rawQuery));
  }

  lemma TextsConcat(a: seq<RenderPair>, b: seq<RenderPair>, transform: Transform)
    ensures Texts(a + b, transform) == Texts(a, transform) + Texts(b, transform)
  {
    var all, x, y := Texts(a + b, transform), Texts(a, transform), Texts(b, transform);
    forall i | 0 <= i < |all|
      ensures all[i] == (x + y)[i]
    {
      assert (a + b)[i] == if i < |a| then a[i] else b[i - |a|];
    }
  }

  lemma TextsAreReadable(u: Uri, base: string, params: Params)
    requires Accepted(u, base, params)
    ensures forall t | t in CanonicalTexts(u) :: '&' !in t && KeyOf(t) != []
  {
    AcceptedPairs(u, base, params);
    AcceptedKeys(u, base, params);
    CanonicalTextsAre(u);
    forall k | 0 <= k < |params|
      ensures var t := Texts(ParamPairs(params), Plain)[k]; '&' !in t && KeyOf(t) != []
    {
      ParamText(params[k]);
    }
  }

  lemma MergeOfScheme(scheme: string, rest: string, params: Params)
    requires scheme != [] && ':' !in scheme
    ensures Merge(scheme + [':'] + rest, params) == MergeRest(scheme, rest, params)
  {
    HeadTail(scheme, rest, ':');
  }

  function RawQueryOf(texts: seq<string>): Option<string> {
    if texts == [] then None else Some(Join(texts, '&'))
  }

  lemma MergeOfQuery(scheme: string, path: string, texts: seq<string>)
    requires '?' !in path && forall t | t in texts :: '&' !in t && KeyOf(t) != []
    ensures MergeRest(scheme, path + QueryText(texts), []) == Ok(Uri(scheme, path, [], RawQueryOf(texts)))
    ensures QueryPairs(RawQueryOf(texts)) == texts
  {
    NoEmptyKey(texts);
    PairsOfRawQuery(texts);
    PathAndQuery(path, texts);
    MergeWithoutParams(scheme, path + QueryText(texts));
  }

  lemma PairsOfRawQuery(texts: seq<string>)
    requires forall t | t in texts :: '&' !in t
    ensures QueryPairs(RawQueryOf(texts)) == texts
  {
    if texts != [] {
      SplitJoin(texts, '&');
    }
  }

  lemma PathAndQuery(path: string, texts: seq<string>)
    requires '?' !in path
    ensures Head(path + QueryText(texts), '?') == path && Tail(path + QueryText(texts), '?') == RawQueryOf(texts)
  {
    if texts == [] {
      assert path + QueryText(texts) == path;
      HeadTail(path, [], '?');
    } else {
      RedactMask.Concat3(path, ['?'], Join(texts, '&'));
      HeadTail(path, Join(texts, '&'), '?');
    }
  }

  lemma MergeWithoutParams(scheme: string, rest: string)
    requires [] !in Keys(QueryPairs(Tail(rest, '?')))
    ensures MergeRest(scheme, rest, []) == Ok(Uri(scheme, Head(rest, '?'), [], Tail(rest, '?')))
  {
  }

  lemma MergeOfRendered(scheme: string, path: string, texts: seq<string>)
    requires scheme != [] && ':' !in scheme && '?' !in path
    requires forall t | t in texts :: '&' !in t && KeyOf(t) != []
    ensures Merge(Render(scheme, path, texts), []) == Ok(Uri(scheme, path, [], RawQueryOf(texts)))
  {
    assert Render(scheme, path, texts) == scheme + [':'] + (path + QueryText(texts));
    MergeOfScheme(scheme, path + QueryText(texts), []);
    MergeOfQuery(scheme, path, texts);
  }

  lemma NoEmptyKey(texts: seq<string>)
    requires forall t | t in texts :: KeyOf(t) != []
    ensures [] !in Keys(texts)
  {
    forall i | 0 <= i < |texts|
      ensures Keys(texts)[i] != []
    {
      assert texts[i] in texts;
    }
  }

  lemma {:induction false} TextsOfRawPairs(texts: seq<string>)
    ensures Texts(RawPairs(texts), Plain) == texts
  {
    forall i | 0 <= i < |texts|
      ensures Texts(RawPairs(texts), Plain)[i] == texts[i]
    {
      RawPairText(texts[i]);
    }
  }

  function ReadBacks(params: Params): (out: seq<RenderPair>)
    ensures |out| == |params|
    ensures forall i | 0 <= i < |params| :: out[i] == ReadBack(params[i])
  {
    seq(|params|, i requires 0 <= i < |params| => ReadBack(params[i]))
  }

  lemma RawPairsConcat(a: seq<string>, b: seq<string>)
    ensures RawPairs(a + b) == RawPairs(a) + RawPairs(b)
  {
  }

  lemma ParamTextsReadBack(params: Params)
    requires forall k | 0 <= k < |params| :: IsValidKey(params[k].0)
    ensures RawPairs(Texts(ParamPairs(params), Plain)) == ReadBacks(params)
  {
    var texts := Texts(ParamPairs(params), Plain);
    forall k | 0 <= k < |params|
      ensures RawPair(texts[k]) == ReadBack(params[k])
    {
      ParamText(params[k]);
    }
  }

  lemma PairsReadBack(u: Uri, base: string, params: Params)
    requires Accepted(u, base, params)
    ensures RawPairs(CanonicalTexts(u)) == RawPairs(QueryPairs(u.rawQuery)) + ReadBacks(params)
  {
    CanonicalTextsAre(u);
    AcceptedKeys(u, base, params);
    RawPairsConcat(QueryPairs(u.rawQuery), Texts(ParamPairs(params), Plain));
    ParamTextsReadBack(params);
  }

  /**
   * The canonical text of every accepted URI merges again without parameters, renders to itself,
   * and holds the raw pairs verbatim followed by the encoded parameters.
   */
  lemma CanonicalRoundTrip(base: string, params: Params, u: Uri) returns (back: Uri)
    requires Accepted(u, base, params)
    ensures Merge(Canonical(u), []) == Ok(back)
    ensures back.scheme == u.scheme && back.path == u.path && Canonical(back) == Canonical(u)
    ensures Pairs(back) == RawPairs(QueryPairs(u.rawQuery)) + ReadBacks(params)
    ensures forall k | 0 <= k < |params| ::
              RedactQuery.PercentDecode(ReadBacks(params)[k].value.value, RedactQuery.AnyEscape) == params[k].1
  {
    var texts := CanonicalTexts(u);
    back := Uri(u.scheme, u.path, [], RawQueryOf(texts));
    AcceptedBase(u, base, params);
    TextsAreReadable(u, base, params);
    MergeOfRendered(u.scheme, u.path, texts);
    MergeOfQuery(u.scheme, u.path, texts);
    assert Pairs(back) == RawPairs(texts);
    TextsOfRawPairs(texts);
    PairsReadBack(u, base, params);
    forall k | 0 <= k < |params|
      ensures RedactQuery.PercentDecode(ReadBacks(params)[k].value.value, RedactQuery.AnyEscape) == params[k].1
    {
      DecodeEncode(params[k].1);
    }
  }

  /** Without parameters the canonical text is the base itself. */
  lemma CanonicalWithoutParams(base: string, u: Uri)
    requires Accepted(u, base, [])
    ensures Canonical(u) == base
  {
    AcceptedBase(u, base, []);
    CanonicalTextsAre(u);
    var texts := CanonicalTexts(u);
    assert texts == QueryPairs(u.rawQuery);
    QueryTextOfPairs(u.rawQuery);
    RedactMask.Concat3(u.scheme + [':'], u.path, QueryText(texts));
  }

  lemma QueryTextOfPairs(rawQuery: Option<string>)
    ensures QueryText(QueryPairs(rawQuery)) == match rawQuery { case None => [] case Some(q) => ['?'] + q }
  {
    if rawQuery.Some? {
      JoinSplit(rawQuery.value, '&');
    }
  }

  /** For a fixed base the canonical text determines the parameter map. */
  lemma CanonicalIsInjective(base: string, p1: Params, u1: Uri, p2: Params, u2: Uri)
    requires Accepted(u1, base, p1) && Accepted(u2, base, p2) && Canonical(u1) == Canonical(u2)
    ensures p1 == p2
  {
    var b1 := CanonicalRoundTrip(base, p1, u1);
    var b2 := CanonicalRoundTrip(base, p2, u2);
    SameBaseSameQuery(base, p1, u1, p2, u2);
    var raw := RawPairs(QueryPairs(u1.rawQuery));
    SameSuffix(raw, ReadBacks(p1), ReadBacks(p2));
    forall k | 0 <= k < |p1|
      ensures p1[k] == p2[k]
    {
      assert ReadBacks(p1)[k] == ReadBacks(p2)[k];
    }
  }

  lemma SameBaseSameQuery(base: string, p1: Params, u1: Uri, p2: Params, u2: Uri)
    requires Accepted(u1, base, p1) && Accepted(u2, base, p2)
    ensures u1.rawQuery == u2.rawQuery
  {
    QueryOfBase(base, p1, u1);
    QueryOfBase(base, p2, u2);
  }

  lemma QueryOfBase(base: string, params: Params, u: Uri)
    requires Accepted(u, base, params)
    ensures Tail(base, ':').Some? && u.rawQuery == Tail(Tail(base, ':').value, '?')
  {
    QueryOfRest(Head(base, ':'), Tail(base, ':').value, params, u);
  }

  lemma QueryOfRest(scheme: string, rest: string, params: Params, u: Uri)
    requires MergeRest(scheme, rest, params) == Ok(u)
    ensures u.rawQuery == Tail(rest, '?')
  {
  }

  lemma SameSuffix(a: seq<RenderPair>, b: seq<RenderPair>, c: seq<RenderPair>)
    requires a + b == a + c
    ensures b == c
  {
    assert b == (a + b)[|a|..] && c == (a + c)[|a|..];
  }

  // ---- the redacted rendering ----

  datatype UriOption = UriOption(name: string, aliases: seq<string>, secret: bool, isPattern: bool)

  /** The first option that satisfies the name test (or the alias test), or the number of options. */
  function FirstMatch(key: string, options: seq<UriOption>, byAlias: bool): (k: nat)
    ensures k <= |options|
    ensures forall i | 0 <= i < k :: !Matches(key, options[i], byAlias)
    ensures k < |options| ==> Matches(key, options[k], byAlias)
  {
    if options == [] || Matches(key, options[0], byAlias) then 0 else 1 + FirstMatch(key, options[1..], byAlias)
  }

  predicate Matches(key: string, option: UriOption, byAlias: bool) {
    !option.isPattern && if byAlias then key in option.aliases else option.name == key
  }

  /** By exact name first, then by alias; open-ended options never match. */
  function ResolveUriOption(key: string, options: seq<UriOption>): Option<UriOption> {
    var named, aliased := FirstMatch(key, options, false), FirstMatch(key, options, true);
    if named < |options| then Some(options[named])
    else if aliased < |options| then Some(options[aliased])
    else None
  }

  /** An option is found exactly when one matches, and a match by name beats every alias. */
  lemma ResolveVerdict(key: string, options: seq<UriOption>)
    ensures var found := ResolveUriOption(key, options);
            && (found.Some? <==> exists i | 0 <= i < |options| :: !options[i].isPattern && (options[i].name == key || key in options[i].aliases))
            && (found.Some? ==> found.value in options && !found.value.isPattern)
            && ((exists i | 0 <= i < |options| :: !options[i].isPattern && options[i].name == key) ==>
                  found.Some? && found.value.name == key)
  {
    var named, aliased := FirstMatch(key, options, false), FirstMatch(key, options, true);
    if named < |options| {
      assert Matches(key, options[named], false);
    } else if aliased < |options| {
      assert Matches(key, options[aliased], true);
    }
    forall i | 0 <= i < |options| && !options[i].isPattern && (options[i].name == key || key in options[i].aliases)
      ensures named < |options| || aliased < |options|
    {
      assert Matches(key, options[i], options[i].name != key);
    }
    forall i | 0 <= i < |options| && !options[i].isPattern && options[i].name == key
      ensures named < |options|
    {
      assert Matches(key, options[i], false);
    }
  }

  /** A value is shown only when the catalog resolves its key to an option that is not secret. */
  predicate IsShown(key: string, metadata: Option<seq<UriOption>>) {
    metadata.Some? && (var o := ResolveUriOption(key, metadata.value); o.Some? && !o.value.secret)
  }

  function RedactValue(key: string, value: string, metadata: Option<seq<UriOption>>): string {
    if IsShown(key, metadata) then value else "***"
  }

  /** An authority with everything before its first `@` masked. */
  function MaskFirst(authority: string): string {
    var at := IndexOf(authority, '@');
    if at == |authority| then authority else "***" + authority[at..]
  }

  /** A path that starts with `//` has the authority up to the next `/` masked. */
  function MaskUserinfo(path: string): string {
    if |path| < 2 || path[0] != '/' || path[1] != '/' then path
    else
      var rest := path[2..];
      "//" + (MaskFirst(Head(rest, '/')) + rest[IndexOf(rest, '/')..])
  }

  function Redacting(metadata: Option<seq<UriOption>>): Transform {
    (key: string, value: string) => RedactValue(key, value, metadata)
  }

  function Redacted(u: Uri, metadata: Option<seq<UriOption>>): string {
    Render(u.scheme, MaskUserinfo(u.path), Texts(Pairs(u), Redacting(metadata)))
  }

  method ToRedactedString(u: Uri, catalog: string -> Option<seq<UriOption>>) returns (out: string)
    ensures out == Redacted(u, catalog(u.scheme))
  {
    var metadata := catalog(u.scheme);
    out := RenderPairs(u.scheme, MaskUserinfo(u.path), Pairs(u), Redacting(metadata));
  }

  /** The two pairs may differ only in a value that is not shown. */
  predicate SameView(p: RenderPair, q: RenderPair, metadata: Option<seq<UriOption>>) {
    && p.key == q.key && p.value.Some? == q.value.Some?
    && (IsShown(p.key, metadata) ==> p == q)
  }

  lemma SameViewSameText(p: RenderPair, q: RenderPair, metadata: Option<seq<UriOption>>)
    requires SameView(p, q, metadata)
    ensures PairText(p, Redacting(metadata)) == PairText(q, Redacting(metadata))
  {
    assert Encode("***") == "***" by {
      assert "***"[1..] == "**" && "**"[1..] == "*" && "*"[1..] == "";
    }
  }

  /** A shown pair reads as in the canonical rendering; any other value reads `***`. */
  lemma ShownOrMasked(p: RenderPair, metadata: Option<seq<UriOption>>)
    ensures IsShown(p.key, metadata) || p.value.None? ==> PairText(p, Redacting(metadata)) == PairText(p, Plain)
    ensures !IsShown(p.key, metadata) && p.value.Some? ==> PairText(p, Redacting(metadata)) == p.key + "=***"
  {
    assert Encode("***") == "***" by {
      assert "***"[1..] == "**" && "**"[1..] == "*" && "*"[1..] == "";
    }
    assert "=" + "***" == "=***";
  }

  /** Two URIs that differ only in userinfo and in values that are not shown render identically. */
  lemma RedactedHidesSecrets(u: Uri, v: Uri, metadata: Option<seq<UriOption>>)
    requires u.scheme == v.scheme && MaskUserinfo(u.path) == MaskUserinfo(v.path) && |Pairs(u)| == |Pairs(v)|
    requires forall i | 0 <= i < |Pairs(u)| :: SameView(Pairs(u)[i], Pairs(v)[i], metadata)
    ensures Redacted(u, metadata) == Redacted(v, metadata)
  {
    forall i | 0 <= i < |Pairs(u)|
      ensures PairText(Pairs(u)[i], Redacting(metadata)) == PairText(Pairs(v)[i], Redacting(metadata))
    {
      SameViewSameText(Pairs(u)[i], Pairs(v)[i], metadata);
    }
    assert Texts(Pairs(u), Redacting(metadata)) == Texts(Pairs(v), Redacting(metadata));
  }

  // ---- redaction keeps the keys ----

  lemma RedactedPairText(pair: RenderPair, metadata: Option<seq<UriOption>>)
    requires '=' !in pair.key && '&' !in pair.key && pair.key != []
    requires pair.fromRawQuery && pair.value.Some? ==> '&' !in pair.value.value
    ensures var t := PairText(pair, Redacting(metadata));
            '&' !in t && KeyOf(t) == pair.key && (Tail(t, '=').Some? <==> pair.value.Some?)
  {
    var t := PairText(pair, Redacting(metadata));
    if pair.value.Some? {
      var shown := RedactValue(pair.key, pair.value.value, metadata);
      var text := if pair.fromRawQuery then shown else Encode(shown);
      ShownIsClean(pair, metadata);
      ReadPair(pair.key, text);
      RedactMask.Concat3(pair.key, ['='], text);
    } else {
      assert t == pair.key;
      HeadTail(pair.key, [], '=');
    }
  }

  lemma ShownIsClean(pair: RenderPair, metadata: Option<seq<UriOption>>)
    requires pair.value.Some? && (pair.fromRawQuery ==> '&' !in pair.value.value)
    ensures var shown := RedactValue(pair.key, pair.value.value, metadata);
            '&' !in if pair.fromRawQuery then shown else Encode(shown)
  {
    EncodeIsClean(RedactValue(pair.key, pair.value.value, metadata));
  }

  lemma ReadPair(key: string, text: string)
    requires '=' !in key && '&' !in key && '&' !in text
    ensures var t := key + ['='] + text;
            '&' !in t && KeyOf(t) == key && Tail(t, '=') == Some(text)
  {
    HeadTail(key, text, '=');
  }

  ghost predicate Renderable(pair: RenderPair) {
    && '=' !in pair.key && '&' !in pair.key && pair.key != []
    && (pair.fromRawQuery && pair.value.Some? ==> '&' !in pair.value.value)
  }

  lemma PairsAreRenderable(u: Uri, base: string, params: Params)
    requires Accepted(u, base, params)
    ensures forall i | 0 <= i < |Pairs(u)| :: Renderable(Pairs(u)[i])
  {
    AcceptedPairs(u, base, params);
    AcceptedKeys(u, base, params);
    var raw := QueryPairs(u.rawQuery);
    forall i | 0 <= i < |raw|
      ensures Renderable(RawPair(raw[i]))
    {
      assert raw[i] in raw;
    }
    forall i | 0 <= i < |params|
      ensures Renderable(ParamPair(params[i]))
    {
    }
  }

  lemma MaskKeepsQuestionMarks(path: string)
    requires '?' !in path
    ensures '?' !in MaskUserinfo(path)
  {
    if |path| >= 2 && path[0] == '/' && path[1] == '/' {
      var rest := path[2..];
      MaskFirstKeepsQuestionMarks(Head(rest, '/'));
      assert '?' !in rest[IndexOf(rest, '/')..];
    }
  }

  lemma MaskFirstKeepsQuestionMarks(authority: string)
    requires '?' !in authority
    ensures '?' !in MaskFirst(authority)
  {
  }

  function PairKeys(pairs: seq<RenderPair>): (keys: seq<string>)
    ensures |keys| == |pairs|
    ensures forall i | 0 <= i < |pairs| :: keys[i] == pairs[i].key
  {
    seq(|pairs|, i requires 0 <= i < |pairs| => pairs[i].key)
  }

  /** The redacted text of an accepted URI merges again and has the key sequence of the canonical one. */
  lemma RedactedKeepsKeys(base: string, params: Params, u: Uri, metadata: Option<seq<UriOption>>) returns (back: Uri)
    requires Accepted(u, base, params)
    ensures Merge(Redacted(u, metadata), []) == Ok(back)
    ensures Keys(QueryPairs(back.rawQuery)) == PairKeys(Pairs(u))
  {
    var texts := Texts(Pairs(u), Redacting(metadata));
    back := Uri(u.scheme, MaskUserinfo(u.path), [], RawQueryOf(texts));
    AcceptedBase(u, base, params);
    MaskKeepsQuestionMarks(u.path);
    PairsAreRenderable(u, base, params);
    forall i | 0 <= i < |texts|
      ensures '&' !in texts[i] && KeyOf(texts[i]) == Pairs(u)[i].key != []
    {
      RedactedPairText(Pairs(u)[i], metadata);
    }
    MergeOfRendered(u.scheme, MaskUserinfo(u.path), texts);
    MergeOfQuery(u.scheme, MaskUserinfo(u.path), texts);
  }
}
