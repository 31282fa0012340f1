/** Searching, splitting and ordering of byte strings. */
module Text {

  datatype Option<+T> = None | Some(value: T)

  /** The first occurrence of `c`, or the length of the text. */
  function IndexOf(s: string, c: char): (k: nat)
    ensures k <= |s|
    ensures forall j | 0 <= j < k :: s[j] != c
    ensures k < |s| ==> s[k] == c
  {
    if s == [] || s[0] == c then 0 else 1 + IndexOf(s[1..], c)
  }

  lemma IndexOfAppend(t: string, u: string, c: char)
    requires c !in t
    ensures IndexOf(t + u, c) == |t| + IndexOf(u, c)
  {
    var k := IndexOf(t + u, c);
    assert forall j | 0 <= j < |t| :: (t + u)[j] == t[j];
    assert forall j | 0 <= j < |u| :: (t + u)[|t| + j] == u[j];
  }

  lemma IndexOfFront(t: string, u: string, c: char)
    requires c in t
    ensures IndexOf(t + u, c) == IndexOf(t, c) < |t|
  {
    assert forall j | 0 <= j < |t| :: (t + u)[j] == t[j];
  }

  lemma IndexOfAbsent(t: string, c: char)
    requires c !in t
    ensures IndexOf(t, c) == |t|
  {
  }

  /** The part before the first `c`; the whole text when `c` is absent. */
  function Head(s: string, c: char): (h: string)
    ensures c !in h
  {
    s[..IndexOf(s, c)]
  }

  /** The part after the first `c`, when there is one. */
  function Tail(s: string, c: char): Option<string> {
    var k := IndexOf(s, c);
    if k < |s| then Some(s[k + 1..]) else None
  }

  lemma HeadTail(h: string, t: string, c: char)
    requires c !in h
    ensures Head(h + [c] + t, c) == h && Tail(h + [c] + t, c) == Some(t)
    ensures Head(h, c) == h && Tail(h, c) == None
  {
    var s := h + [c] + t;
    assert s == h + ([c] + t);
    IndexOfAppend(h, [c] + t, c);
    assert s[..|h|] == h && s[|h| + 1..] == t;
    IndexOfAbsent(h, c);
  }

  lemma HeadTailBack(s: string, c: char)
    ensures s == Head(s, c) + match Tail(s, c) { case None => [] case Some(t) => [c] + t }
  {
  }

  // ---- splitting and joining ----

  function Split(s: string, sep: char): (parts: seq<string>)
    ensures parts != []
    ensures forall p | p in parts :: sep !in p
  {
    var k := IndexOf(s, sep);
    if k == |s| then [s] else [s[..k]] + Split(s[k + 1..], sep)
  }

  function Join(parts: seq<string>, sep: char): string
    requires parts != []
  {
    if |parts| == 1 then parts[0] else parts[0] + [sep] + Join(parts[1..], sep)
  }

  lemma SplitFront(a: string, b: string, sep: char)
    requires sep !in a
    ensures Split(a + [sep] + b, sep) == [a] + Split(b, sep)
    ensures Split(a, sep) == [a]
  {
    HeadTail(a, b, sep);
  }

  lemma {:induction false} JoinSplit(s: string, sep: char)
    ensures Join(Split(s, sep), sep) == s
    decreases |s|
  {
    var k := IndexOf(s, sep);
    if k < |s| {
      JoinSplit(s[k + 1..], sep);
      assert Split(s, sep)[1..] == Split(s[k + 1..], sep);
    }
  }

  lemma {:induction false} SplitJoin(parts: seq<string>, sep: char)
    requires parts != [] && forall p | p in parts :: sep !in p
    ensures Split(Join(parts, sep), sep) == parts
    decreases |parts|
  {
    assert parts[0] in parts;
    if |parts| == 1 {
      SplitFront(parts[0], [], sep);
      assert parts == [parts[0]];
    } else {
      SplitJoin(parts[1..], sep);
      SplitFront(parts[0], Join(parts[1..], sep), sep);
    }
  }

  lemma {:induction false} JoinConcat(a: seq<string>, b: seq<string>, sep: char)
    requires a != [] && b != []
    ensures Join(a + b, sep) == Join(a, sep) + [sep] + Join(b, sep)
    decreases |a|
  {
    assert (a + b)[1..] == a[1..] + b;
    if |a| > 1 {
      JoinConcat(a[1..], b, sep);
    } else {
      assert a[1..] + b == b;
    }
  }

  // ---- byte order ----

  /** Strict lexicographic order by byte. */
  predicate Before(a: string, b: string) {
    b != [] && (a == [] || a[0] < b[0] || (a[0] == b[0] && Before(a[1..], b[1..])))
  }

  lemma {:induction false} BeforeIsStrict(a: string, b: string)
    ensures Before(a, b) ==> !Before(b, a) && a != b
    ensures a == b || Before(a, b) || Before(b, a)
  {
    if a != [] && b != [] {
      BeforeIsStrict(a[1..], b[1..]);
      if a[1..] == b[1..] && a[0] == b[0] {
        assert a == [a[0]] + a[1..] == b;
      }
    }
  }

  lemma {:induction false} BeforeIsTransitive(a: string, b: string, c: string)
    requires Before(a, b) && Before(b, c)
    ensures Before(a, c)
  {
    if a != [] && a[0] == b[0] == c[0] {
      BeforeIsTransitive(a[1..], b[1..], c[1..]);
    }
  }
}
