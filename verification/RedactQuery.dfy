/**
 * The broker-style redactor: mask userinfo, rewrite each query pair, suppress the fragment,
 * with or without the 256-byte cap.
 */
module RedactQuery {
  import opened Text
  import opened Utf8
  import opened Redact
  import opened RedactMask
  import opened RedactUrl

  type Decoder = (char, char) -> Option<char>

  // ---- percent scanning ----

  function PercentDecode(s: string, decode: Decoder): string {
    if s == [] then []
    else if s[0] == '%' && |s| > 2 && decode(s[1], s[2]).Some? then
      [decode(s[1], s[2]).value] + PercentDecode(s[3..], decode)
    else [s[0]] + PercentDecode(s[1..], decode)
  }

  /** How many bytes the scan consumes at `i`, and the byte it emits. */
  function StepAt(s: string, decode: Decoder, i: nat): (nat, char)
    requires i < |s|
  {
    if s[i] == '%' && i + 2 < |s| && decode(s[i + 1], s[i + 2]).Some? then (3, decode(s[i + 1], s[i + 2]).value)
    else (1, s[i])
  }

  lemma DecodeAt(s: string, decode: Decoder, i: nat)
    requires i < |s|
    ensures i + StepAt(s, decode, i).0 <= |s|
    ensures PercentDecode(s[i..], decode)
         == [StepAt(s, decode, i).1] + PercentDecode(s[i + StepAt(s, decode, i).0..], decode)
  {
    assert s[i..][StepAt(s, decode, i).0..] == s[i + StepAt(s, decode, i).0..];
  }

  method PercentScan(bytes: string, decode: Decoder) returns (out: string)
    ensures out == PercentDecode(bytes, decode)
  {
    out := [];
    var i := 0;
    assert bytes[0..] == bytes;
    while i < |bytes|
      invariant i <= |bytes|
      invariant PercentDecode(bytes, decode) == out + PercentDecode(bytes[i..], decode)
    {
      DecodeAt(bytes, decode, i);
      Concat3(out, [StepAt(bytes, decode, i).1], PercentDecode(bytes[i + StepAt(bytes, decode, i).0..], decode));
      if bytes[i] == '%' && i + 2 < |bytes| && decode(bytes[i + 1], bytes[i + 2]).Some? {
        out := out + [decode(bytes[i + 1], bytes[i + 2]).value];
        i := i + 3;
      } else {
        out := out + [bytes[i]];
        i := i + 1;
      }
    }
  }

  /** Only the escapes of `@`, `:` and `/` are decoded. */
  function MinimalEscape(hi: char, lo: char): Option<char> {
    if hi == '4' && lo == '0' then Some('@')
    else if hi == '3' && (lo == 'a' || lo == 'A') then Some(':')
    else if hi == '2' && (lo == 'f' || lo == 'F') then Some('/')
    else None
  }

  function MinimalDecode(s: string): string {
    PercentDecode(s, MinimalEscape)
  }

  function HexValue(c: char): (v: Option<nat>)
    ensures v.Some? ==> v.value < 16
  {
    if '0' <= c <= '9' then Some((c - '0') as nat)
    else if 'a' <= c <= 'f' then Some((c - 'a') as nat + 10)
    else if 'A' <= c <= 'F' then Some((c - 'A') as nat + 10)
    else None
  }

  /** Every two-digit escape is decoded. */
  function AnyEscape(hi: char, lo: char): Option<char> {
    match (HexValue(hi), HexValue(lo))
    case (Some(h), Some(l)) => Some((h * 16 + l) as char)
    case _ => None
  }

  predicate HasDoubleSlash(d: string) {
    exists k | 0 <= k < |d| - 1 :: d[k] == '/' && d[k + 1] == '/'
  }

  /** A decoded text that embeds a credential: an `@` together with a `:` or a `//`. */
  predicate IsCredentialShaped(d: string) {
    '@' in d && (':' in d || HasDoubleSlash(d))
  }

  predicate Exposes(s: string) {
    IsCredentialShaped(MinimalDecode(s))
  }

  // ---- rewriting the query ----

  /** The text of a pair before its first `=`. */
  function RawKey(pair: string): string {
    Head(pair, '=')
  }

  const REDACTED := "<redacted>"

  /**
   * One query pair.  `hit` says whether a decoded key contains one of the configured
   * substrings.
   */
  function RewritePair(pair: string, hit: string -> bool): string {
    var key := RawKey(pair);
    if hit(PercentDecode(key, AnyEscape)) then
      if Exposes(key) then REDACTED else key + "=" + REDACTED
    else if Exposes(pair) then REDACTED
    else pair
  }

  function RewriteAll(pairs: seq<string>, hit: string -> bool): (out: seq<string>)
    ensures |out| == |pairs|
    ensures forall k | 0 <= k < |pairs| :: out[k] == RewritePair(pairs[k], hit)
  {
    seq(|pairs|, k requires 0 <= k < |pairs| => RewritePair(pairs[k], hit))
  }

  /** The masked text with its query rewritten. */
  function RewriteQuery(m: string, hit: string -> bool): string {
    match Tail(m, '?')
    case None => m
    case Some(query) => Head(m, '?') + (['?'] + Join(RewriteAll(Split(query, '&'), hit), '&'))
  }

  /** Drop the fragment behind its sentinel, within the cap when there is one. */
  function DropFragment(out: string, cap: Option<nat>): string
    requires cap.Some? ==> cap.value >= 11
  {
    var i := IndexOf(out, '#');
    var body := if i == |out| then out
                else (if cap.Some? then Truncate(out[..i], cap.value - 11) else out[..i]) + FRAGMENT_SENTINEL;
    if cap.Some? then Truncate(body, cap.value) else body
  }

  function Allowlisted(raw: string, hit: string -> bool, cap: Option<nat>): Outcome
    requires cap.Some? ==> cap.value >= 11
  {
    match MaskedByEdits(raw)
    case Panic => Panic
    case Done(m) => Done(DropFragment(RewriteQuery(m, hit), cap))
  }

  method RedactUrlWithQueryAllowlist(raw: string, hit: string -> bool, cap: Option<nat>) returns (r: Outcome)
    requires cap.Some? ==> cap.value >= 11
    ensures r == Allowlisted(raw, hit, cap)
  {
    var masked := MaskAuthorityWindows(raw);
    if masked == Panic {
      return Panic;
    }
    var out := RewriteQuery(masked.text, hit);
    var i := IndexOf(out, '#');
    if i < |out| {
      out := out[..i];
      if cap.Some? {
        out := TruncateUtf8Safe(out, cap.value - 11);
      }
      out := out + FRAGMENT_SENTINEL;
    }
    if cap.Some? {
      out := TruncateUtf8Safe(out, cap.value);
    }
    r := Done(out);
  }

  // ---- the cap ----

  /** The capped form is the uncapped one whenever that fits. */
  lemma CapIsInvisibleWhenItFits(out: string, cap: nat)
    requires cap >= 11 && |DropFragment(out, None)| <= cap
    ensures DropFragment(out, Some(cap)) == DropFragment(out, None)
  {
  }

  /** The capped form fits, ends with the whole sentinel when one is due, and shows only a prefix. */
  lemma CappedFragment(out: string, cap: nat)
    requires cap >= 11
    ensures var r := DropFragment(out, Some(cap));
            var i := IndexOf(out, '#');
            && |r| <= cap
            && (i < |out| ==> r == Truncate(out[..i], cap - 11) + FRAGMENT_SENTINEL)
            && (i == |out| ==> r == Truncate(out, cap))
  {
  }

  // ---- no pair that is shown exposes a credential ----

  predicate IsTell(c: char) {
    c == '@' || c == ':' || c == '/'
  }

  /** `d` is a prefix of `e` followed by bytes that tell nothing. */
  ghost predicate Stub(d: string, e: string) {
    exists j: nat | j <= |d| && j <= |e| :: d[..j] == e[..j] && forall i | j <= i < |d| :: !IsTell(d[i])
  }

  lemma StubTells(d: string, e: string)
    requires Stub(d, e) && IsCredentialShaped(d)
    ensures IsCredentialShaped(e)
  {
    var j: nat :| j <= |d| && j <= |e| && d[..j] == e[..j] && forall i | j <= i < |d| :: !IsTell(d[i]);
    forall i | 0 <= i < |d| && IsTell(d[i])
      ensures i < j && e[i] == d[i]
    {
      assert d[..j][i] == e[..j][i];
    }
  }

  lemma StubCons(x: char, d: string, e: string)
    requires Stub(d, e)
    ensures Stub([x] + d, [x] + e)
  {
    var j: nat :| j <= |d| && j <= |e| && d[..j] == e[..j] && forall i | j <= i < |d| :: !IsTell(d[i]);
    assert ([x] + d)[..j + 1] == [x] + d[..j];
    assert ([x] + e)[..j + 1] == [x] + e[..j];
  }

  lemma StubOfQuiet(d: string, e: string)
    requires forall i | 0 <= i < |d| :: !IsTell(d[i])
    ensures Stub(d, e)
  {
    assert d[..0] == e[..0];
  }

  lemma {:induction false} CopyOfShort(s: string)
    requires |s| <= 2
    ensures MinimalDecode(s) == s
  {
    if s != [] {
      CopyOfShort(s[1..]);
    }
  }

  /** Cutting a pair short leaves a stub of what it decodes to. */
  lemma {:induction false} DecodeOfPrefix(s: string, k: nat)
    requires k <= |s|
    ensures Stub(MinimalDecode(s[..k]), MinimalDecode(s))
    decreases |s|
  {
    if k == 0 {
      StubOfQuiet([], MinimalDecode(s));
    } else {
      var n := StepAt(s, MinimalEscape, 0).0;
      var x := StepAt(s, MinimalEscape, 0).1;
      if k < n {
        CopyOfShort(s[..k]);
        StubOfQuiet(s[..k], MinimalDecode(s));
      } else {
        DecodeOfPrefix(s[n..], k - n);
        assert s[..k][n..] == s[n..][..k - n];
        StubCons(x, MinimalDecode(s[n..][..k - n]), MinimalDecode(s[n..]));
      }
    }
  }

  lemma PrefixExposesNoMore(s: string, k: nat)
    requires k <= |s| && !Exposes(s)
    ensures !Exposes(s[..k])
  {
    DecodeOfPrefix(s, k);
    if Exposes(s[..k]) {
      StubTells(MinimalDecode(s[..k]), MinimalDecode(s));
    }
  }

  /** A suffix that starts with `=` joins no escape. */
  lemma {:induction false} DecodeOfSuffix(key: string, tail: string)
    requires tail != [] && tail[0] == '='
    ensures MinimalDecode(key + tail) == MinimalDecode(key) + MinimalDecode(tail)
    decreases |key|
  {
    if key == [] {
      assert key + tail == tail;
    } else {
      var n := StepAt(key, MinimalEscape, 0).0;
      assert StepAt(key + tail, MinimalEscape, 0) == StepAt(key, MinimalEscape, 0) by {
        assert forall i | 0 <= i < |key| :: (key + tail)[i] == key[i];
        assert (key + tail)[|key|] == '=';
      }
      DecodeOfSuffix(key[n..], tail);
      assert (key + tail)[n..] == key[n..] + tail;
    }
  }

  lemma {:induction false} CopyWithoutPercent(s: string)
    requires '%' !in s
    ensures MinimalDecode(s) == s
  {
    if s != [] {
      CopyWithoutPercent(s[1..]);
    }
  }

  lemma QuietSuffix(d: string, tail: string)
    requires forall i | 0 <= i < |tail| :: !IsTell(tail[i])
    requires !IsCredentialShaped(d)
    ensures !IsCredentialShaped(d + tail)
  {
    assert (d + tail)[..|d|] == d[..|d|];
    assert forall i | |d| <= i < |d + tail| :: (d + tail)[i] == tail[i - |d|];
    assert Stub(d + tail, d);
    if IsCredentialShaped(d + tail) {
      StubTells(d + tail, d);
    }
  }

  lemma RedactedIsQuiet()
    ensures '%' !in REDACTED && '&' !in REDACTED
    ensures forall i | 0 <= i < |REDACTED| :: !IsTell(REDACTED[i])
  {
  }

  lemma QuietTextExposesNothing(s: string)
    requires '%' !in s && forall i | 0 <= i < |s| :: !IsTell(s[i])
    ensures !Exposes(s)
  {
    CopyWithoutPercent(s);
  }

  lemma KeyShowsNothing(key: string)
    requires !Exposes(key)
    ensures !Exposes(key + "=" + REDACTED)
  {
    RedactedIsQuiet();
    var tail := "=" + REDACTED;
    assert key + "=" + REDACTED == key + tail;
    CopyWithoutPercent(tail);
    DecodeOfSuffix(key, tail);
    QuietSuffix(MinimalDecode(key), tail);
  }

  /** A rewritten pair never exposes a credential, whatever the pair and the configured keys. */
  lemma RewriteExposesNothing(pair: string, hit: string -> bool)
    ensures !Exposes(RewritePair(pair, hit))
  {
    RedactedIsQuiet();
    QuietTextExposesNothing(REDACTED);
    if !Exposes(RawKey(pair)) {
      KeyShowsNothing(RawKey(pair));
    }
  }

  lemma RewriteIsOnePair(pair: string, hit: string -> bool)
    requires '&' !in pair
    ensures '&' !in RewritePair(pair, hit)
  {
  }

  predicate Benign(pair: string, hit: string -> bool) {
    !hit(PercentDecode(RawKey(pair), AnyEscape)) && !Exposes(pair)
  }

  predicate AllBenign(query: string, hit: string -> bool) {
    forall p | p in Split(query, '&') :: Benign(p, hit)
  }

  lemma BenignPairsAreKept(pairs: seq<string>, hit: string -> bool)
    requires forall p | p in pairs :: Benign(p, hit)
    ensures RewriteAll(pairs, hit) == pairs
  {
    forall k | 0 <= k < |pairs|
      ensures RewritePair(pairs[k], hit) == pairs[k]
    {
      assert pairs[k] in pairs;
    }
  }

  /** A query with nothing to redact survives byte for byte. */
  lemma BenignQueryIsKept(m: string, hit: string -> bool)
    requires Tail(m, '?').Some? && AllBenign(Tail(m, '?').value, hit)
    ensures RewriteQuery(m, hit) == m
  {
    BenignJoin(Tail(m, '?').value, hit);
    HeadTailBack(m, '?');
  }

  lemma BenignJoin(query: string, hit: string -> bool)
    requires AllBenign(query, hit)
    ensures Join(RewriteAll(Split(query, '&'), hit), '&') == query
  {
    BenignPairsAreKept(Split(query, '&'), hit);
    JoinSplit(query, '&');
  }

  /** The two pairs are the same, or differ only in the value of a sensitive key. */
  predicate SameButSecret(pair: string, other: string, hit: string -> bool) {
    pair == other || (RawKey(pair) == RawKey(other) && hit(PercentDecode(RawKey(pair), AnyEscape)))
  }

  lemma SensitiveValueIsHidden(pairs: seq<string>, others: seq<string>, hit: string -> bool)
    requires |pairs| == |others| && forall k | 0 <= k < |pairs| :: SameButSecret(pairs[k], others[k], hit)
    ensures RewriteAll(pairs, hit) == RewriteAll(others, hit)
  {
  }

  lemma RewriteJoined(b: string, pairs: seq<string>, hit: string -> bool)
    requires '?' !in b && pairs != [] && forall p | p in pairs :: '&' !in p
    ensures RewriteQuery(b + (['?'] + Join(pairs, '&')), hit) == b + (['?'] + Join(RewriteAll(pairs, hit), '&'))
  {
    Concat3(b, ['?'], Join(pairs, '&'));
    HeadTail(b, Join(pairs, '&'), '?');
    SplitJoin(pairs, '&');
  }

  /** Two URLs whose masked texts differ only in values of sensitive keys redact to the same text. */
  lemma SecretsAreHidden(x: string, y: string, b: string, pairs: seq<string>, others: seq<string>,
                         hit: string -> bool, cap: Option<nat>)
    requires (cap.Some? ==> cap.value >= 11) && '?' !in b && |pairs| == |others| > 0
    requires (forall p | p in pairs :: '&' !in p) && (forall p | p in others :: '&' !in p)
    requires MaskedByEdits(x) == Done(b + (['?'] + Join(pairs, '&')))
    requires MaskedByEdits(y) == Done(b + (['?'] + Join(others, '&')))
    requires forall k | 0 <= k < |pairs| :: SameButSecret(pairs[k], others[k], hit)
    ensures Allowlisted(x, hit, cap) == Allowlisted(y, hit, cap)
  {
    RewriteJoined(b, pairs, hit);
    RewriteJoined(b, others, hit);
    SensitiveValueIsHidden(pairs, others, hit);
  }

  /** The pairs of a prefix of a joined query are prefixes of its pairs. */
  lemma {:induction false} PairsOfPrefix(pairs: seq<string>, n: nat)
    requires pairs != [] && n <= |Join(pairs, '&')| && AllQuiet(pairs) && forall p | p in pairs :: '&' !in p
    ensures AllQuiet(Split(Join(pairs, '&')[..n], '&'))
    decreases |pairs|
  {
    var a := pairs[0];
    assert a in pairs;
    if n <= |a| {
      JoinPrefix(pairs, n);
      PrefixExposesNoMore(a, n);
      SplitFront(a[..n], [], '&');
    } else {
      var rest := Join(pairs[1..], '&');
      var n' := n - |a| - 1;
      JoinPrefix(pairs, n);
      PairsOfPrefix(pairs[1..], n');
      SplitFront(a, rest[..n'], '&');
      QuietCons(a, Split(rest[..n'], '&'));
    }
  }

  /** No pair of the list exposes a credential. */
  predicate AllQuiet(pairs: seq<string>) {
    forall p | p in pairs :: !Exposes(p)
  }

  lemma QuietCons(a: string, pairs: seq<string>)
    requires !Exposes(a) && AllQuiet(pairs)
    ensures AllQuiet([a] + pairs)
  {
  }

  lemma JoinPrefix(pairs: seq<string>, n: nat)
    requires pairs != [] && n <= |Join(pairs, '&')|
    ensures n <= |pairs[0]| ==> Join(pairs, '&')[..n] == pairs[0][..n]
    ensures n > |pairs[0]| ==>
              && |pairs| > 1 && n - |pairs[0]| - 1 <= |Join(pairs[1..], '&')|
              && Join(pairs, '&')[..n] == pairs[0] + ['&'] + Join(pairs[1..], '&')[..n - |pairs[0]| - 1]
  {
  }

  /** The shown query of a text: what follows its first `?`. */
  function ShownPairs(shown: string): seq<string> {
    match Tail(shown, '?')
    case None => []
    case Some(query) => Split(query, '&')
  }

  lemma ShownOfPrefix(b: string, body: string, n: nat)
    requires '?' !in b && n <= |b| + 1 + |body|
    ensures ShownPairs((b + (['?'] + body))[..n]) ==
            if n <= |b| then [] else Split(body[..n - |b| - 1], '&')
  {
    PrefixOfQuery(b, body, n);
    if n <= |b| {
      IndexOfAbsent(b[..n], '?');
    } else {
      ShownOfQuery(b, body[..n - |b| - 1]);
    }
  }

  lemma PrefixOfQuery(b: string, body: string, n: nat)
    requires n <= |b| + 1 + |body|
    ensures (b + (['?'] + body))[..n] == if n <= |b| then b[..n] else b + (['?'] + body[..n - |b| - 1])
  {
  }

  lemma ShownOfQuery(b: string, body: string)
    requires '?' !in b
    ensures ShownPairs(b + (['?'] + body)) == Split(body, '&')
  {
    Concat3(b, ['?'], body);
    HeadTail(b, body, '?');
  }

  lemma RewriteAllExposesNothing(pairs: seq<string>, hit: string -> bool)
    requires forall p | p in pairs :: '&' !in p
    ensures AllQuiet(RewriteAll(pairs, hit)) && forall p | p in RewriteAll(pairs, hit) :: '&' !in p
  {
    forall k | 0 <= k < |pairs|
      ensures '&' !in RewriteAll(pairs, hit)[k] && !Exposes(RewriteAll(pairs, hit)[k])
    {
      assert pairs[k] in pairs;
      RewriteExposesNothing(pairs[k], hit);
      RewriteIsOnePair(pairs[k], hit);
    }
  }

  lemma JoinShows(b: string, pairs: seq<string>, n: nat)
    requires '?' !in b && pairs != [] && n <= |b| + 1 + |Join(pairs, '&')|
    requires AllQuiet(pairs) && forall p | p in pairs :: '&' !in p
    ensures AllQuiet(ShownPairs((b + (['?'] + Join(pairs, '&')))[..n]))
  {
    ShownOfPrefix(b, Join(pairs, '&'), n);
    if n > |b| {
      PairsOfPrefix(pairs, n - |b| - 1);
    }
  }

  lemma RewrittenPairs(m: string, hit: string -> bool, n: nat)
    requires n <= |RewriteQuery(m, hit)|
    ensures AllQuiet(ShownPairs(RewriteQuery(m, hit)[..n]))
  {
    match Tail(m, '?')
    case None => NothingShown(m, n);
    case Some(query) =>
      var pairs := Split(query, '&');
      RewriteAllExposesNothing(pairs, hit);
      JoinShows(Head(m, '?'), RewriteAll(pairs, hit), n);
  }

  lemma NothingShown(m: string, n: nat)
    requires n <= |m| && Tail(m, '?') == None
    ensures ShownPairs(m[..n]) == []
  {
    IndexOfAbsent(m[..n], '?');
  }

  lemma DropFragmentShows(out: string, cap: Option<nat>) returns (k: nat)
    requires cap.Some? ==> cap.value >= 11
    ensures k <= |out| && '#' !in out[..k]
    ensures DropFragment(out, cap) == out[..k] + (if '#' in out then FRAGMENT_SENTINEL else "")
  {
    var i := IndexOf(out, '#');
    var r := DropFragment(out, cap);
    if cap.Some? {
      CappedFragment(out, cap.value);
    }
    k := if i < |out| then |r| - |FRAGMENT_SENTINEL| else |r|;
    assert r[..k] <= out[..i];
    assert r[..k] == out[..k];
  }

  /**
   * Whatever the URL, the configured keys and the cap, the result is a prefix of the rewritten
   * text with no fragment in it, then at most the fragment sentinel, and no pair of the query
   * it shows exposes a credential.
   */
  lemma AllowlistExposesNothing(raw: string, hit: string -> bool, cap: Option<nat>) returns (shown: string)
    requires (cap.Some? ==> cap.value >= 11) && Allowlisted(raw, hit, cap).Done?
    ensures var out := RewriteQuery(MaskedByEdits(raw).text, hit);
            && shown <= out && '#' !in shown
            && Allowlisted(raw, hit, cap).text == shown + (if '#' in out then FRAGMENT_SENTINEL else "")
    ensures AllQuiet(ShownPairs(shown))
  {
    var m := MaskedByEdits(raw).text;
    var out := RewriteQuery(m, hit);
    var k := DropFragmentShows(out, cap);
    shown := out[..k];
    RewrittenPairs(m, hit, k);
  }

  // ---- the result is valid UTF-8 within the cap ----

  lemma HeadTailValid(s: string, c: char)
    requires Valid(s) && IsAscii(c)
    ensures Valid(Head(s, c)) && (Tail(s, c).Some? ==> Valid(Tail(s, c).value))
  {
    var k := IndexOf(s, c);
    if k < |s| {
      CutIsValid(s, k);
      BoundaryAfterAscii(s, k + 1);
      CutIsValid(s, k + 1);
    } else {
      assert s[..k] == s;
    }
  }

  lemma {:induction false} SplitValid(s: string, c: char)
    requires Valid(s) && IsAscii(c)
    ensures forall p | p in Split(s, c) :: Valid(p)
    decreases |s|
  {
    HeadTailValid(s, c);
    if IndexOf(s, c) < |s| {
      SplitValid(Tail(s, c).value, c);
    }
  }

  lemma {:induction false} JoinValid(parts: seq<string>, c: char)
    requires parts != [] && IsAscii(c) && forall p | p in parts :: Valid(p)
    ensures Valid(Join(parts, c))
    decreases |parts|
  {
    assert parts[0] in parts;
    if |parts| > 1 {
      JoinValid(parts[1..], c);
      AsciiIsValid([c]);
      JoinIsValid(parts[0], [c]);
      JoinIsValid(parts[0] + [c], Join(parts[1..], c));
    }
  }

  lemma KeyValid(key: string)
    requires Valid(key)
    ensures Valid(key + "=" + REDACTED) && Valid(REDACTED)
  {
    AsciiIsValid(REDACTED);
    AsciiIsValid("=");
    JoinIsValid(key, "=");
    JoinIsValid(key + "=", REDACTED);
  }

  lemma RewriteIsOneOfThree(pair: string, hit: string -> bool)
    ensures RewritePair(pair, hit) in {pair, REDACTED, RawKey(pair) + "=" + REDACTED}
  {
  }

  lemma PairValid(pair: string, hit: string -> bool)
    requires Valid(pair)
    ensures Valid(RewritePair(pair, hit))
  {
    RewriteIsOneOfThree(pair, hit);
    HeadTailValid(pair, '=');
    KeyValid(RawKey(pair));
  }

  lemma QueryValid(query: string, hit: string -> bool)
    requires Valid(query)
    ensures Valid(Join(RewriteAll(Split(query, '&'), hit), '&'))
  {
    var pairs := Split(query, '&');
    SplitValid(query, '&');
    forall k | 0 <= k < |pairs|
      ensures Valid(RewriteAll(pairs, hit)[k])
    {
      assert pairs[k] in pairs;
      PairValid(pairs[k], hit);
    }
    JoinValid(RewriteAll(pairs, hit), '&');
  }

  lemma RewriteValid(m: string, hit: string -> bool)
    requires Valid(m)
    ensures Valid(RewriteQuery(m, hit))
  {
    HeadTailValid(m, '?');
    if Tail(m, '?').Some? {
      var query := Join(RewriteAll(Split(Tail(m, '?').value, '&'), hit), '&');
      QueryValid(Tail(m, '?').value, hit);
      AsciiIsValid(['?']);
      JoinIsValid(['?'], query);
      JoinIsValid(Head(m, '?'), ['?'] + query);
    }
  }

  lemma FragmentValid(out: string, cap: Option<nat>)
    requires Valid(out) && (cap.Some? ==> cap.value >= 11)
    ensures Valid(DropFragment(out, cap)) && (cap.Some? ==> |DropFragment(out, cap)| <= cap.value)
  {
    HeadTailValid(out, '#');
    AsciiIsValid(FRAGMENT_SENTINEL);
    var i := IndexOf(out, '#');
    if cap.Some? {
      CappedFragment(out, cap.value);
      TruncateIsValid(out[..i], cap.value - 11);
      TruncateIsValid(out, cap.value);
      JoinIsValid(Truncate(out[..i], cap.value - 11), FRAGMENT_SENTINEL);
    } else {
      JoinIsValid(out[..i], FRAGMENT_SENTINEL);
    }
  }

  /** Every result is valid UTF-8 and within the cap when there is one. */
  lemma AllowlistFits(raw: string, hit: string -> bool, cap: Option<nat>)
    requires Valid(raw) && (cap.Some? ==> cap.value >= 11) && Allowlisted(raw, hit, cap).Done?
    ensures Valid(Allowlisted(raw, hit, cap).text)
    ensures cap.Some? ==> |Allowlisted(raw, hit, cap).text| <= cap.value
  {
    var m := MaskedByEdits(raw).text;
    EditedIsValid(raw, Marks(raw), 0);
    RewriteValid(m, hit);
    FragmentValid(RewriteQuery(m, hit), cap);
  }
}
