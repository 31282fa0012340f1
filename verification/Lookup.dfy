/** The exchange lookup path grammar, its printed form, and the walk through a JSON body. */
module Lookup {
  import opened Text
  import opened Decimal

  datatype Segment = Key(key: string) | Index(index: nat)

  datatype Path =
    | Body(segments: seq<Segment>)
    | Header(key: string)
    | Property(key: string)
    | Unscoped(token: string)

  datatype PathError =
    | Empty
    | EmptySegment(input: string)
    | TrailingDot(input: string)
    | EmptyScopedKey(scope: string, input: string)

  datatype Result<T> = Ok(value: T) | Err(error: PathError)

  const USIZE_MAX: nat := 0xffff_ffff_ffff_ffff

  const BODY := "body"
  const HEADER := "header"
  const PROPERTY := "property"
  const EXCHANGE_PROPERTY := "exchangeProperty"

  // ---- parsing ----

  /** Rust's unsigned parser: an optional `+`, at least one digit, no overflow. */
  function ParseUsize(s: string): Option<nat> {
    var digits := if s != [] && s[0] == '+' then s[1..] else s;
    if digits != [] && AllDigits(digits) && ReadNat(digits) <= USIZE_MAX then Some(ReadNat(digits)) else None
  }

  /** A number without leading zero is an index, anything else a key. */
  function SegmentOf(seg: string): Segment
    requires seg != []
  {
    if ParseUsize(seg).Some? && (seg == "0" || seg[0] != '0') then Index(ParseUsize(seg).value) else Key(seg)
  }

  function Segments(parts: seq<string>, input: string): Result<seq<Segment>> {
    if [] in parts then Err(EmptySegment(input)) else Ok(SegmentsOf(parts))
  }

  function SegmentsOf(parts: seq<string>): (out: seq<Segment>)
    requires [] !in parts
    ensures |out| == |parts| && forall i | 0 <= i < |parts| :: parts[i] != [] && out[i] == SegmentOf(parts[i])
  {
    assert forall i | 0 <= i < |parts| :: parts[i] in parts;
    seq(|parts|, i requires 0 <= i < |parts| => SegmentOf(parts[i]))
  }

  method ParseBodySegments(path: string, input: string) returns (r: Result<seq<Segment>>)
    ensures r == Segments(Split(path, '.'), input)
  {
    var parts := Split(path, '.');
    var segments: seq<Segment> := [];
    for i := 0 to |parts|
      invariant [] !in parts[..i] && segments == SegmentsOf(parts[..i])
    {
      var seg := parts[i];
      if seg == [] {
        assert parts[i] in parts;
        return Err(EmptySegment(input));
      }
      SegmentsSnoc(parts, i);
      var parsed := ParseUsize(seg);
      if parsed.Some? && (seg == "0" || seg[0] != '0') {
        segments := segments + [Index(parsed.value)];
      } else {
        segments := segments + [Key(seg)];
      }
    }
    assert parts[..|parts|] == parts;
    r := Ok(segments);
  }

  lemma SegmentsSnoc(parts: seq<string>, i: nat)
    requires i < |parts| && [] !in parts[..i] && parts[i] != []
    ensures [] !in parts[..i + 1] && SegmentsOf(parts[..i + 1]) == SegmentsOf(parts[..i]) + [SegmentOf(parts[i])]
  {
    assert parts[..i + 1] == parts[..i] + [parts[i]];
  }

  function ParseBody(rest: Option<string>, input: string): Result<Path> {
    if rest.None? then Ok(Body([]))
    else if rest.value == [] then Err(TrailingDot(input))
    else
      match Segments(Split(rest.value, '.'), input)
      case Err(e) => Err(e)
      case Ok(segments) => Ok(Body(segments))
  }

  function ParseScoped(head: string, rest: Option<string>, input: string): Result<string> {
    if rest.None? || rest.value == [] then Err(EmptyScopedKey(head, input)) else Ok(rest.value)
  }

  /** The scope is whatever stands before the first dot. */
  function Parse(s: string): Result<Path> {
    if s == [] then Err(Empty)
    else
      var head, rest := Head(s, '.'), Tail(s, '.');
      if head == BODY then ParseBody(rest, s)
      else if head == HEADER then
        match ParseScoped(head, rest, s) { case Err(e) => Err(e) case Ok(key) => Ok(Header(key)) }
      else if head == PROPERTY || head == EXCHANGE_PROPERTY then
        match ParseScoped(head, rest, s) { case Err(e) => Err(e) case Ok(key) => Ok(Property(key)) }
      else Ok(Unscoped(s))
  }

  /** Exactly which texts are rejected, and with which error. */
  lemma ParseVerdict(s: string)
    ensures var head, rest := Head(s, '.'), Tail(s, '.');
            match Parse(s) {
              case Err(Empty) => s == []
              case Err(TrailingDot(input)) => input == s && head == BODY && rest == Some([])
              case Err(EmptySegment(input)) =>
                input == s && head == BODY && rest.Some? && rest.value != [] && [] in Split(rest.value, '.')
              case Err(EmptyScopedKey(scope, input)) =>
                && input == s && scope == head && (rest == None || rest == Some([]))
                && (head == HEADER || head == PROPERTY || head == EXCHANGE_PROPERTY)
              case Ok(_) =>
                && s != []
                && (head == BODY && rest.Some? ==> rest.value != [] && [] !in Split(rest.value, '.'))
                && (head == HEADER || head == PROPERTY || head == EXCHANGE_PROPERTY ==> rest.Some? && rest.value != [])
            }
  {
    assert BODY[0] == 'b' && HEADER[0] == 'h' && PROPERTY[0] == 'p' && EXCHANGE_PROPERTY[0] == 'e';
  }

  // ---- printing ----

  function PrintSegment(seg: Segment): string {
    match seg
    case Key(k) => k
    case Index(i) => PrintNat(i)
  }

  function Texts(segments: seq<Segment>): (out: seq<string>)
    ensures |out| == |segments| && forall i | 0 <= i < |segments| :: out[i] == PrintSegment(segments[i])
  {
    seq(|segments|, i requires 0 <= i < |segments| => PrintSegment(segments[i]))
  }

  function Print(p: Path): string {
    match p
    case Body(segments) => if segments == [] then BODY else BODY + ['.'] + Join(Texts(segments), '.')
    case Header(key) => HEADER + ['.'] + key
    case Property(key) => PROPERTY + ['.'] + key
    case Unscoped(token) => token
  }

  // ---- the image of the parser ----

  /** A segment that some text denotes. */
  predicate IsSegment(seg: Segment) {
    match seg
    case Key(k) => k != [] && '.' !in k && SegmentOf(k) == Key(k)
    case Index(i) => i <= USIZE_MAX
  }

  predicate IsReserved(head: string) {
    head == BODY || head == HEADER || head == PROPERTY || head == EXCHANGE_PROPERTY
  }

  /** A path that some text denotes. */
  predicate IsPath(p: Path) {
    match p
    case Body(segments) => forall i | 0 <= i < |segments| :: IsSegment(segments[i])
    case Header(key) => key != []
    case Property(key) => key != []
    case Unscoped(token) => token != [] && !IsReserved(Head(token, '.'))
  }

  lemma SegmentIsSegment(part: string)
    requires part != [] && '.' !in part
    ensures IsSegment(SegmentOf(part))
  {
  }

  /** Whatever parses is in the image. */
  lemma ParsedIsPath(s: string)
    requires Parse(s).Ok?
    ensures IsPath(Parse(s).value)
  {
    var rest := Tail(s, '.');
    if Head(s, '.') == BODY && rest.Some? {
      var parts := Split(rest.value, '.');
      forall i | 0 <= i < |parts|
        ensures parts[i] != [] && IsSegment(SegmentOf(parts[i]))
      {
        assert parts[i] in parts;
        SegmentIsSegment(parts[i]);
      }
    }
  }

  lemma NumeralIsUnsigned(s: string)
    requires s != [] && AllDigits(s)
    ensures s[0] != '+' && '.' !in s
  {
  }

  lemma SegmentRoundTrip(seg: Segment)
    requires IsSegment(seg)
    ensures PrintSegment(seg) != [] && '.' !in PrintSegment(seg)
    ensures SegmentOf(PrintSegment(seg)) == seg
  {
    if seg.Index? {
      ReadPrint(seg.index);
      NumeralIsUnsigned(PrintNat(seg.index));
    }
  }

  lemma SegmentsRoundTrip(segments: seq<Segment>)
    requires forall i | 0 <= i < |segments| :: IsSegment(segments[i])
    ensures [] !in Texts(segments) && SegmentsOf(Texts(segments)) == segments
    ensures forall t | t in Texts(segments) :: '.' !in t
  {
    forall i | 0 <= i < |segments|
      ensures Texts(segments)[i] != [] && '.' !in Texts(segments)[i] && SegmentOf(Texts(segments)[i]) == segments[i]
    {
      SegmentRoundTrip(segments[i]);
    }
  }

  lemma JoinIsNonEmpty(parts: seq<string>)
    requires parts != [] && parts[0] != []
    ensures Join(parts, '.') != []
  {
  }

  lemma ScopeOf(scope: string, rest: string)
    requires IsReserved(scope)
    ensures Head(scope + ['.'] + rest, '.') == scope && Tail(scope + ['.'] + rest, '.') == Some(rest)
    ensures Head(scope, '.') == scope && Tail(scope, '.') == None
  {
    ReservedHasNoDot(scope);
    HeadTail(scope, rest, '.');
  }

  lemma ReservedHasNoDot(scope: string)
    requires IsReserved(scope)
    ensures '.' !in scope
  {
  }

  lemma BodyRoundTrip(segments: seq<Segment>)
    requires forall i | 0 <= i < |segments| :: IsSegment(segments[i])
    ensures ParseBody(if segments == [] then None else Some(Join(Texts(segments), '.')), Print(Body(segments))) == Ok(Body(segments))
  {
    if segments != [] {
      SegmentsRoundTrip(segments);
      SegmentRoundTrip(segments[0]);
      JoinIsNonEmpty(Texts(segments));
      SplitJoin(Texts(segments), '.');
    }
  }

  /** Parsing undoes printing on every path that parsing can produce. */
  lemma ParsePrint(p: Path)
    requires IsPath(p)
    ensures Parse(Print(p)) == Ok(p)
  {
    match p
    case Body(segments) =>
      BodyRoundTrip(segments);
      ScopeOf(BODY, if segments == [] then [] else Join(Texts(segments), '.'));
    case Header(key) => ScopeOf(HEADER, key);
    case Property(key) => ScopeOf(PROPERTY, key);
    case Unscoped(_) =>
  }

  /** The image of the parser, exactly. */
  lemma ImageOfParse(p: Path)
    ensures IsPath(p) <==> exists s :: Parse(s) == Ok(p)
  {
    if IsPath(p) {
      ParsePrint(p);
    }
    forall s | Parse(s) == Ok(p)
      ensures IsPath(p)
    {
      ParsedIsPath(s);
    }
  }

  // ---- when printing undoes parsing ----

  /** An index spelled with a `+`. */
  predicate IsSigned(part: string) {
    part != [] && part[0] == '+' && ParseUsize(part).Some?
  }

  /** Texts that print differently: the alias scope, and signed indexes of a body path. */
  predicate IsAliased(s: string) {
    || Head(s, '.') == EXCHANGE_PROPERTY
    || (Head(s, '.') == BODY && Tail(s, '.').Some? && exists part | part in Split(Tail(s, '.').value, '.') :: IsSigned(part))
  }

  lemma SegmentSpelling(part: string)
    requires part != []
    ensures PrintSegment(SegmentOf(part)) == part <==> !IsSigned(part)
  {
    if SegmentOf(part).Index? {
      if part[0] == '+' {
        NumeralIsUnsigned(PrintNat(ReadNat(part[1..])));
      } else {
        PrintRead(part);
      }
    }
  }

  lemma SpellingsAgree(parts: seq<string>)
    requires [] !in parts
    ensures Texts(SegmentsOf(parts)) == parts <==> forall part | part in parts :: !IsSigned(part)
  {
    var texts := Texts(SegmentsOf(parts));
    forall i | 0 <= i < |parts|
      ensures parts[i] != [] && (texts[i] == parts[i] <==> !IsSigned(parts[i]))
    {
      assert parts[i] in parts;
      SegmentSpelling(parts[i]);
    }
    assert forall i | 0 <= i < |parts| :: parts[i] in parts;
  }

  lemma {:induction false} JoinIsInjective(a: seq<string>, b: seq<string>)
    requires a != [] && b != [] && (forall t | t in a :: '.' !in t) && (forall t | t in b :: '.' !in t)
    ensures Join(a, '.') == Join(b, '.') <==> a == b
  {
    SplitJoin(a, '.');
    SplitJoin(b, '.');
  }

  lemma BodySpelling(rest: string)
    requires rest != [] && [] !in Split(rest, '.')
    ensures Join(Texts(SegmentsOf(Split(rest, '.'))), '.') == rest <==>
            forall part | part in Split(rest, '.') :: !IsSigned(part)
  {
    var parts := Split(rest, '.');
    var segments := SegmentsOf(parts);
    forall i | 0 <= i < |parts|
      ensures IsSegment(segments[i])
    {
      assert parts[i] in parts;
      SegmentIsSegment(parts[i]);
    }
    SegmentsRoundTrip(segments);
    JoinSplit(rest, '.');
    JoinIsInjective(Texts(segments), parts);
    SpellingsAgree(parts);
  }

  lemma SameRest(scope: string, a: string, b: string)
    ensures scope + ['.'] + a == scope + ['.'] + b <==> a == b
  {
    var n := |scope| + 1;
    assert (scope + ['.'] + a)[n..] == a && (scope + ['.'] + b)[n..] == b;
  }

  lemma AliasPrintsElse(s: string, key: string)
    requires Head(s, '.') == EXCHANGE_PROPERTY
    ensures PROPERTY + ['.'] + key != s
  {
    ScopeOf(PROPERTY, key);
  }

  /** Printing undoes parsing on exactly the accepted texts that are not aliased. */
  lemma PrintParse(s: string)
    requires Parse(s).Ok?
    ensures Print(Parse(s).value) == s <==> !IsAliased(s)
  {
    var head, rest := Head(s, '.'), Tail(s, '.');
    HeadTailBack(s, '.');
    ReservedDiffer();
    if head == BODY && rest.Some? {
      PrintParseBody(s, rest.value);
    } else if head == EXCHANGE_PROPERTY {
      AliasPrintsElse(s, rest.value);
    }
  }

  lemma ReservedDiffer()
    ensures BODY != EXCHANGE_PROPERTY && PROPERTY != EXCHANGE_PROPERTY && HEADER != EXCHANGE_PROPERTY
    ensures HEADER != BODY && PROPERTY != BODY
  {
    assert HEADER[0] == 'h' && BODY[0] == 'b' && PROPERTY[0] == 'p' && EXCHANGE_PROPERTY[0] == 'e';
  }

  lemma PrintParseBody(s: string, rest: string)
    requires Head(s, '.') == BODY && Tail(s, '.') == Some(rest) && s == BODY + ['.'] + rest && Parse(s).Ok?
    ensures Print(Parse(s).value) == s <==> forall part | part in Split(rest, '.') :: !IsSigned(part)
  {
    BodySpelling(rest);
    var parts := Split(rest, '.');
    assert Parse(s) == Ok(Body(SegmentsOf(parts)));
    SameRest(BODY, Join(Texts(SegmentsOf(parts)), '.'), rest);
  }

  // ---- walking a body ----

  datatype Json =
    | Scalar(text: string)
    | Array(items: seq<Json>)
    | Object(fields: map<string, Json>)

  function Child(value: Json, seg: Segment): Option<Json> {
    match seg
    case Key(k) => if value.Object? && k in value.fields then Some(value.fields[k]) else None
    case Index(i) => if value.Array? && i < |value.items| then Some(value.items[i]) else None
  }

  function Walk(value: Json, segments: seq<Segment>): Option<Json> {
    if segments == [] then Some(value)
    else
      match Child(value, segments[0])
      case None => None
      case Some(child) => Walk(child, segments[1..])
  }

  method LookupBody(body: Option<Json>, segments: seq<Segment>) returns (r: Option<Json>)
    ensures r == if body.None? then None else Walk(body.value, segments)
  {
    if body.None? {
      return None;
    }
    var current := body.value;
    for i := 0 to |segments|
      invariant Walk(current, segments[i..]) == Walk(body.value, segments)
    {
      assert segments[i..][1..] == segments[i + 1..];
      var child := Child(current, segments[i]);
      if child.None? {
        return None;
      }
      current := child.value;
    }
    r := Some(current);
  }

  /** Walking a longer path is walking its parts in turn. */
  lemma {:induction false} WalkConcat(value: Json, p: seq<Segment>, q: seq<Segment>)
    ensures Walk(value, p + q) == match Walk(value, p) { case None => None case Some(v) => Walk(v, q) }
  {
    if p == [] {
      assert p + q == q;
    } else {
      assert (p + q)[1..] == p[1..] + q;
      var child := Child(value, p[0]);
      if child.Some? {
        WalkConcat(child.value, p[1..], q);
      }
    }
  }

  datatype Exchange = Exchange(body: Option<Json>, headers: map<string, Json>, properties: map<string, Json>)

  function Find(m: map<string, Json>, key: string): Option<Json> {
    if key in m then Some(m[key]) else None
  }

  function LookupPath(x: Exchange, p: Path): Option<Json> {
    match p
    case Body(segments) => if x.body.None? then None else Walk(x.body.value, segments)
    case Header(key) => Find(x.headers, key)
    case Property(key) => Find(x.properties, key)
    case Unscoped(token) =>
      if x.body.Some? && x.body.value.Object? && token in x.body.value.fields then Some(x.body.value.fields[token])
      else if token in x.headers then Some(x.headers[token])
      else Find(x.properties, token)
  }

  /** A token without scope is the first hit among the one-step body path, the header and the property. */
  lemma UnscopedFallsThrough(x: Exchange, token: string)
    ensures LookupPath(x, Unscoped(token)) ==
            var inBody := LookupPath(x, Body([Key(token)]));
            if inBody.Some? then inBody
            else if LookupPath(x, Header(token)).Some? then LookupPath(x, Header(token))
            else LookupPath(x, Property(token))
  {
    var path := [Key(token)];
    assert path[0] == Key(token) && path[1..] == [];
    if x.body.Some? && Child(x.body.value, path[0]).Some? {
      assert Walk(Child(x.body.value, path[0]).value, path[1..]) == Child(x.body.value, path[0]);
    }
  }
}
