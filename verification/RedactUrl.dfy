/**
 * The strict URL redactor: mask, drop everything from the first `?` or `#`, append one
 * sentinel per introducer, and stay within 256 bytes.
 */
module RedactUrl {
  import opened Text
  import opened Utf8
  import opened Redact
  import opened RedactMask
  import opened RedactStable

  const CAP: nat := 256

  /** The first `?` or `#`, or the length of the text. */
  function FirstIntro(s: string): (k: nat)
    ensures k <= |s|
    ensures forall j | 0 <= j < k :: s[j] != '?' && s[j] != '#'
    ensures k < |s| ==> s[k] == '?' || s[k] == '#'
  {
    var q, f := IndexOf(s, '?'), IndexOf(s, '#');
    if q < f then q else f
  }

  /** Which introducers occur, and which one first. */
  datatype Order = Neither | Query | Fragment | QueryFirst | FragmentFirst

  function OrderOf(s: string): Order {
    var q, f := IndexOf(s, '?'), IndexOf(s, '#');
    if q < |s| && f < |s| then if f < q then FragmentFirst else QueryFirst
    else if q < |s| then Query
    else if f < |s| then Fragment
    else Neither
  }

  const QUERY_SENTINEL := "?[redacted]"
  const FRAGMENT_SENTINEL := "#[redacted]"

  function SentinelText(o: Order): string {
    match o
    case Neither => ""
    case Query => QUERY_SENTINEL
    case Fragment => FRAGMENT_SENTINEL
    case QueryFirst => QUERY_SENTINEL + FRAGMENT_SENTINEL
    case FragmentFirst => FRAGMENT_SENTINEL + QUERY_SENTINEL
  }

  /** One sentinel per introducer that occurs, in order of first occurrence. */
  function Sentinels(s: string): string {
    SentinelText(OrderOf(s))
  }

  /** What becomes of a masked text. */
  function Capped(m: string): string {
    var i := FirstIntro(m);
    Truncate(if i < |m| then Truncate(m[..i], CAP - |Sentinels(m)|) + Sentinels(m) else m, CAP)
  }

  function RedactedUrl(raw: string): Outcome {
    match MaskedByEdits(raw)
    case Panic => Panic
    case Done(m) => Done(Capped(m))
  }

  /** The sentinels that are due, the earlier introducer first. */
  method PushSentinels(out: string, hasQuery: bool, hasFragment: bool, fragmentFirst: bool, ghost order: Order)
      returns (r: string)
    requires hasQuery <==> order in {Query, QueryFirst, FragmentFirst}
    requires hasFragment <==> order in {Fragment, QueryFirst, FragmentFirst}
    requires order != Neither && (hasQuery && hasFragment ==> (fragmentFirst <==> order == FragmentFirst))
    ensures r == out + SentinelText(order)
  {
    if hasQuery && hasFragment {
      if fragmentFirst {
        r := out + (FRAGMENT_SENTINEL + QUERY_SENTINEL);
      } else {
        r := out + (QUERY_SENTINEL + FRAGMENT_SENTINEL);
      }
    } else if hasQuery {
      r := out + QUERY_SENTINEL;
    } else {
      r := out + FRAGMENT_SENTINEL;
    }
  }

  method RedactUrl(raw: string) returns (r: Outcome)
    ensures r == RedactedUrl(raw)
  {
    var masked := MaskAuthorityWindows(raw);
    if masked == Panic {
      return Panic;
    }
    var out := masked.text;
    var i := FirstIntro(out);
    if i < |out| {
      var queryPos, fragmentPos := IndexOf(out, '?'), IndexOf(out, '#');
      var hasQuery, hasFragment := queryPos < |out|, fragmentPos < |out|;
      var sentinelTotal := if hasQuery && hasFragment then 22 else 11;
      SentinelLength(out);
      ghost var order := OrderOf(out);
      out := TruncateUtf8Safe(out[..i], CAP - sentinelTotal);
      out := PushSentinels(out, hasQuery, hasFragment, fragmentPos < queryPos, order);
    }
    out := TruncateUtf8Safe(out, CAP);
    r := Done(out);
  }

  lemma SentinelLength(m: string)
    ensures |Sentinels(m)| == match OrderOf(m) {
              case Neither => 0
              case Query => 11
              case Fragment => 11
              case QueryFirst => 22
              case FragmentFirst => 22
            }
  {
  }

  // ---- the cap ----

  lemma SpliceIsValid(out: string, i: nat, k: nat)
    requires Valid(out) && i <= k < |out| && Boundary(out, i) && out[k] == '@'
    ensures Valid(out[..i] + MASK + out[k..])
  {
    CutIsValid(out, i);
    CutIsValid(out, k);
    AsciiIsValid(MASK);
    JoinIsValid(out[..i], MASK);
    JoinIsValid(out[..i] + MASK, out[k..]);
  }

  lemma EditIsValid(out: string, w: Window)
    requires Valid(out)
    ensures Edit(out, w).Done? ==> Valid(Edit(out, w).text)
  {
    if Edit(out, w).Done? {
      var window := out[w.start..w.end];
      if HasAt(window) {
        SpliceIsValid(out, w.start, w.start + LastAt(window));
      }
    }
  }

  lemma {:induction false} EditedIsValid(s: string, marks: seq<bool>, p: nat)
    requires Valid(s) && |marks| == |s| + 1 && p <= |s| + 1
    ensures Edited(s, marks, p).Done? ==> Valid(Edited(s, marks, p).text)
    decreases |s| + 1 - p
  {
    if p <= |s| {
      EditedIsValid(s, marks, p + 1);
      if Edited(s, marks, p + 1).Done? {
        EditIsValid(Edited(s, marks, p + 1).text, Window(p, StopFrom(s, p)));
      }
    }
  }

  lemma SentinelsFit(m: string)
    ensures |Sentinels(m)| <= 22 && Valid(Sentinels(m))
    ensures FirstIntro(m) < |m| <==> Sentinels(m) != []
  {
    AsciiIsValid(Sentinels(m));
  }

  lemma CappedShape(m: string)
    ensures |Capped(m)| <= CAP
    ensures FirstIntro(m) < |m| ==>
              Capped(m) == Truncate(m[..FirstIntro(m)], CAP - |Sentinels(m)|) + Sentinels(m)
    ensures FirstIntro(m) == |m| ==> Capped(m) == Truncate(m, CAP)
    ensures Valid(m) ==> Valid(Capped(m))
  {
    var i := FirstIntro(m);
    SentinelsFit(m);
    if Valid(m) {
      if i < |m| {
        CutIsValid(m, i);
        TruncateIsValid(m[..i], CAP - |Sentinels(m)|);
        JoinIsValid(Truncate(m[..i], CAP - |Sentinels(m)|), Sentinels(m));
      } else {
        TruncateIsValid(m, CAP);
      }
    }
  }

  /** Every result is at most 256 bytes of valid UTF-8 and ends with every sentinel that is due, whole. */
  lemma RedactedFits(raw: string)
    requires Valid(raw) && RedactedUrl(raw).Done?
    ensures var r := RedactedUrl(raw).text;
            && |r| <= CAP && Valid(r)
            && exists base: string, m: string ::
                 MaskedByEdits(raw) == Done(m) && base <= m[..FirstIntro(m)] && r == base + Sentinels(m)
  {
    var m := MaskedByEdits(raw).text;
    EditedIsValid(raw, Marks(raw), 0);
    CappedShape(m);
    SentinelsFit(m);
    var base := if FirstIntro(m) < |m| then Truncate(m[..FirstIntro(m)], CAP - |Sentinels(m)|) else Truncate(m, CAP);
    assert m[..|m|] == m;
    assert base + Sentinels(m) == Capped(m);
  }

  // ---- redacting twice changes nothing ----

  lemma EditOfClean(s: string, p: nat)
    requires p <= |s| && Boundary(s, p) && Clean(Content(s, p))
    ensures Edit(s, Window(p, StopFrom(s, p))) == Done(s)
  {
    var e := StopFrom(s, p);
    var c := s[p..e];
    if HasAt(c) {
      CutTwice(s, p, LastAt(c));
      SliceOfSlice(s, p, e, LastAt(c));
    }
  }

  lemma CutTwice(s: string, p: nat, k: nat)
    requires p + k <= |s|
    ensures s[..p] + s[p..p + k] + s[p + k..] == s
  {
  }

  lemma SliceOfSlice(s: string, p: nat, e: nat, k: nat)
    requires p <= e <= |s| && k <= e - p
    ensures s[p..p + k] == s[p..e][..k]
  {
  }

  lemma {:induction false} EditedOfStable(s: string, marks: seq<bool>, p: nat)
    requires MarksBoundaries(s, marks) && p <= |s| + 1
    requires forall i | 0 <= i <= |s| && marks[i] :: Clean(Content(s, i))
    ensures Edited(s, marks, p) == Done(s)
    decreases |s| + 1 - p
  {
    if p <= |s| {
      EditedOfStable(s, marks, p + 1);
      if marks[p] {
        EditOfClean(s, p);
      }
    }
  }

  /** The program leaves a stable text as it is. */
  lemma StableIsFixed(s: string)
    requires Valid(s) && Stable(s)
    ensures MaskedByEdits(s) == Done(s)
  {
    WindowsStartOnBoundaries(s);
    EditedOfStable(s, Marks(s), 0);
  }

  lemma SameLeadPrefix(m: string, r: string, a: nat)
    requires a <= |m| && a <= |r| && m[..a] == r[..a]
    ensures SameLead(m, a, r, a)
  {
    assert m[0..a] == r[0..a];
    SameLeadRun(m, 0, r, 0, a);
  }

  lemma ContentOfCut(m: string, k: nat, tail: string, a: nat)
    requires a < k <= |m| && (tail == [] || IsStop(tail[0]))
    ensures Content(m[..k] + tail, a) <= Content(m, a)
  {
    var r := m[..k] + tail;
    var e := StopFrom(m, a);
    if e < k {
      SliceOfCut(m, k, tail, a, e);
      StopIs(r, a, e);
    } else {
      SliceOfCut(m, k, tail, a, k);
      StopIs(r, a, k);
      PrefixOfSlice(m, a, k, e);
    }
  }

  lemma SliceOfCut(m: string, k: nat, tail: string, a: nat, e: nat)
    requires a <= e <= k <= |m|
    ensures (m[..k] + tail)[a..e] == m[a..e]
    ensures forall j | a <= j < e :: (m[..k] + tail)[j] == m[j]
  {
  }

  lemma PrefixOfSlice(m: string, a: nat, k: nat, e: nat)
    requires a <= k <= e <= |m|
    ensures m[a..k] <= m[a..e]
  {
  }

  lemma LastAtOfPrefix(d: string, c: string)
    requires d <= c && HasAt(d)
    ensures HasAt(c) && LastAt(d) <= LastAt(c) && d[..LastAt(d)] == c[..LastAt(d)]
  {
    assert c[LastAt(d)] == '@';
  }

  lemma CleanPrefix(d: string, c: string)
    requires d <= c && Clean(c)
    ensures Clean(d)
  {
    if HasAt(d) {
      LastAtOfPrefix(d, c);
      forall j | 0 <= j < LastAt(c)
        ensures c[j] != '@'
      {
        assert c[j] == MASK[j];
      }
    }
  }

  /** Cutting a stable text and appending a sentinel keeps it stable. */
  lemma StableCut(m: string, k: nat, tail: string)
    requires Stable(m) && k <= |m| && (tail == [] || IsStop(tail[0]))
    requires forall j | 0 <= j < |tail| :: !IsSlash(tail[j])
    ensures Stable(m[..k] + tail)
  {
    var r := m[..k] + tail;
    forall a | k < a <= |r|
      ensures !WindowAt(r, a)
    {
      assert r[a - 1] == tail[a - 1 - k];
      NoSlashNoWindow(r, a);
    }
    forall a | 0 <= a <= k && WindowAt(r, a)
      ensures Clean(Content(r, a))
    {
      if a == k {
        StopIs(r, a, a);
      } else {
        WindowOfCut(m, k, tail, a);
        ContentOfCut(m, k, tail, a);
        CleanPrefix(Content(r, a), Content(m, a));
      }
    }
  }

  lemma GatePrefix(d: string, c: string)
    requires d <= c && CredentialGate(d)
    ensures CredentialGate(c)
  {
    LastAtOfPrefix(d, c);
    var i :| 0 <= i < LastAt(d) && d[..LastAt(d)][i] == ':';
    assert c[..LastAt(c)][i] == ':';
  }

  /** A window of the cut text was a window before the cut. */
  lemma WindowOfCut(m: string, k: nat, tail: string, a: nat)
    requires a < k <= |m| && (tail == [] || IsStop(tail[0])) && WindowAt(m[..k] + tail, a)
    ensures WindowAt(m, a)
  {
    var r := m[..k] + tail;
    assert r[..a] == m[..a] && r[a] == m[a];
    SameLeadPrefix(m, r, a);
    LeadSame(m, a, r, a);
    ContentOfCut(m, k, tail, a);
    if CredentialGate(Content(r, a)) {
      GatePrefix(Content(r, a), Content(m, a));
    }
  }

  lemma QueryMarks()
    ensures IndexOf(QUERY_SENTINEL, '?') == 0 && '#' !in QUERY_SENTINEL
  {
  }

  lemma FragmentMarks()
    ensures IndexOf(FRAGMENT_SENTINEL, '#') == 0 && '?' !in FRAGMENT_SENTINEL
  {
  }

  lemma QueryFirstOrder()
    ensures OrderOf(QUERY_SENTINEL + FRAGMENT_SENTINEL) == QueryFirst
  {
    QueryMarks();
    FragmentMarks();
    IndexOfFront(QUERY_SENTINEL, FRAGMENT_SENTINEL, '?');
    IndexOfAppend(QUERY_SENTINEL, FRAGMENT_SENTINEL, '#');
  }

  lemma FragmentFirstOrder()
    ensures OrderOf(FRAGMENT_SENTINEL + QUERY_SENTINEL) == FragmentFirst
  {
    QueryMarks();
    FragmentMarks();
    IndexOfFront(FRAGMENT_SENTINEL, QUERY_SENTINEL, '#');
    IndexOfAppend(FRAGMENT_SENTINEL, QUERY_SENTINEL, '?');
  }

  /** Sentinels announce themselves. */
  lemma OrderOfText(o: Order)
    ensures OrderOf(SentinelText(o)) == o
  {
    match o
    case Neither =>
    case Query =>
      QueryMarks();
      IndexOfAbsent(QUERY_SENTINEL, '#');
    case Fragment =>
      FragmentMarks();
      IndexOfAbsent(FRAGMENT_SENTINEL, '?');
    case QueryFirst => QueryFirstOrder();
    case FragmentFirst => FragmentFirstOrder();
  }

  lemma OrderAppend(t: string, u: string)
    requires '?' !in t && '#' !in t
    ensures OrderOf(t + u) == OrderOf(u)
    ensures FirstIntro(t + u) == |t| + FirstIntro(u)
  {
    IndexOfAppend(t, u, '?');
    IndexOfAppend(t, u, '#');
  }

  lemma SentinelsAreSlashFree()
    ensures forall j | 0 <= j < |QUERY_SENTINEL| :: !IsSlash(QUERY_SENTINEL[j])
    ensures forall j | 0 <= j < |FRAGMENT_SENTINEL| :: !IsSlash(FRAGMENT_SENTINEL[j])
  {
  }

  lemma TextStartsWithIntro(o: Order)
    ensures o != Neither ==>
              SentinelText(o) != [] && IsStop(SentinelText(o)[0]) && FirstIntro(SentinelText(o)) == 0
    ensures forall j | 0 <= j < |SentinelText(o)| :: !IsSlash(SentinelText(o)[j])
  {
    SentinelsAreSlashFree();
    if o != Neither {
      var u := SentinelText(o);
      assert u[0] == '?' || u[0] == '#';
    }
  }

  /** The capped form of a capped text is itself. */
  lemma SentinelsOfCapped(t: string, o: Order)
    requires '?' !in t && '#' !in t && o != Neither
    ensures var r := t + SentinelText(o);
            Sentinels(r) == SentinelText(o) && FirstIntro(r) == |t| < |r| && r[..|t|] == t
  {
    OrderAppend(t, SentinelText(o));
    OrderOfText(o);
    TextStartsWithIntro(o);
  }

  lemma CappedTwice(m: string)
    ensures Capped(Capped(m)) == Capped(m)
  {
    SentinelsFit(m);
    CappedShape(m);
    CappedShape(Capped(m));
    var i := FirstIntro(m);
    if i < |m| {
      var t := Truncate(m[..i], CAP - |Sentinels(m)|);
      SentinelsOfCapped(t, OrderOf(m));
      CutAgain(m[..i], CAP - |Sentinels(m)|);
    } else {
      NoIntroInPrefix(m, Truncate(m, CAP));
    }
  }

  lemma CutAgain(s: string, max: nat)
    ensures Truncate(Truncate(s, max), max) == Truncate(s, max)
  {
  }

  lemma NoIntroInPrefix(m: string, r: string)
    requires r <= m && FirstIntro(m) == |m|
    ensures FirstIntro(r) == |r|
  {
    assert forall j | 0 <= j < |r| :: r[j] == m[j];
  }

  /**
   * Redacting a redacted URL changes nothing, for every URL whose windows do not shift.
   * That covers every URL without a backslash.
   */
  lemma RedactionIsIdempotent(raw: string)
    requires Valid(raw) && NoShift(raw)
    ensures RedactedUrl(raw).Done?
    ensures RedactedUrl(RedactedUrl(raw).text) == RedactedUrl(raw)
  {
    EditsMaskEveryWindow(raw);
    var m := Masked(raw);
    EditedIsValid(raw, Marks(raw), 0);
    MaskedIsStable(raw);
    CappedShape(m);
    CappedIsStable(m);
    StableIsFixed(Capped(m));
    CappedTwice(m);
  }

  /** A capped text is a prefix of the masked text and its sentinels. */
  lemma CappedParts(m: string) returns (k: nat, tail: string)
    ensures k <= |m| && Capped(m) == m[..k] + tail
    ensures tail == [] || IsStop(tail[0])
    ensures forall j | 0 <= j < |tail| :: !IsSlash(tail[j])
  {
    CappedShape(m);
    SentinelTail(m);
    tail := Sentinels(m);
    var i := FirstIntro(m);
    if i < |m| {
      var t := Truncate(m[..i], CAP - |tail|);
      k := |t|;
      assert m[..k] == m[..i][..k] == t;
    } else {
      k := |Truncate(m, CAP)|;
    }
  }

  lemma SentinelTail(m: string)
    ensures Sentinels(m) == [] || IsStop(Sentinels(m)[0])
    ensures forall j | 0 <= j < |Sentinels(m)| :: !IsSlash(Sentinels(m)[j])
    ensures FirstIntro(m) < |m| <==> Sentinels(m) != []
  {
    SentinelsFit(m);
    TextStartsWithIntro(OrderOf(m));
  }

  lemma CappedIsStable(m: string)
    requires Stable(m)
    ensures Stable(Capped(m))
  {
    var k, tail := CappedParts(m);
    StableCut(m, k, tail);
  }

  // ---- the fail-closed form ----

  /** Whether some window carries an `@`. */
  predicate WindowHasAt(ws: seq<Window>, raw: string) {
    exists k | 0 <= k < |ws| :: ws[k].start <= ws[k].end <= |raw| && HasAt(raw[ws[k].start..ws[k].end])
  }

  lemma NoWindowHasAt(raw: string)
    requires !WindowHasAt(Windows(raw), raw)
    ensures forall i | 0 <= i <= |raw| && WindowAt(raw, i) :: !HasAt(Content(raw, i))
  {
    forall i | 0 <= i <= |raw| && WindowAt(raw, i)
      ensures !HasAt(Content(raw, i))
    {
      var k := WindowListed(raw, 0, i);
      assert Windows(raw)[k] == Window(i, StopFrom(raw, i));
    }
  }

  lemma {:induction false} WindowListed(s: string, p: nat, i: nat) returns (k: nat)
    requires p <= i <= |s| && WindowAt(s, i)
    ensures k < |WindowsFrom(s, p)| && WindowsFrom(s, p)[k] == Window(i, StopFrom(s, i))
    decreases i - p
  {
    if p == i {
      k := 0;
    } else {
      k := WindowListed(s, p + 1, i);
      if WindowAt(s, p) {
        k := k + 1;
      }
    }
  }

  method WindowHasAtSign(raw: string) returns (found: bool)
    ensures found <==> exists i | 0 <= i <= |raw| && WindowAt(raw, i) :: HasAt(Content(raw, i))
  {
    var windows := AuthorityWindows(raw);
    WindowsAscend(raw, 0);
    found := exists k | 0 <= k < |windows| :: HasAt(raw[windows[k].start..windows[k].end]);
    if !found {
      NoWindowHasAt(raw);
    }
  }

  /**
   * The fail-closed form never panics, for any text: it renders nothing of a text with an
   * `@` in a window, and otherwise there is nothing to mask.
   */
  method RedactUrlFailClosed(raw: string) returns (r: Outcome)
    requires Valid(raw)
    ensures r == Done(if exists i | 0 <= i <= |raw| && WindowAt(raw, i) :: HasAt(Content(raw, i))
                      then "[redacted]" else Capped(raw))
  {
    var found := WindowHasAtSign(raw);
    if found {
      r := Done("[redacted]");
    } else {
      StableIsFixed(raw);
      r := RedactUrl(raw);
    }
  }
}
