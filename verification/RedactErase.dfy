/**
 * What a redacted URL does not reveal: the redaction of a backslash-free URL is decided
 * by the URL with its userinfo and everything from the first `?` or `#` erased.
 */
module RedactErase {
  import opened Text
  import opened Utf8
  import opened Redact
  import opened RedactMask
  import opened RedactStable
  import opened RedactUrl

  /** A window's text without its userinfo. */
  function EraseOne(c: string): string {
    if HasAt(c) then c[LastAt(c)..] else c
  }

  function EraseFrom(s: string, marks: seq<bool>, i: nat): string
    requires |marks| == |s| + 1 && i <= |s|
    decreases |s| - i
  {
    if i == |s| then []
    else if marks[i] && StopFrom(s, i) > i then EraseOne(Content(s, i)) + EraseFrom(s, marks, StopFrom(s, i))
    else [s[i]] + EraseFrom(s, marks, i + 1)
  }

  function Erased(s: string): string {
    EraseFrom(s, Marks(s), 0)
  }

  // ---- walking a text and its erased form together ----

  /** The bytes `m` stand at position `a` of `t`. */
  ghost predicate StandsAt(t: string, a: nat, m: string) {
    a + |m| <= |t| && forall k | 0 <= k < |m| :: t[a + k] == m[k]
  }

  lemma StandsInParts(t: string, a: nat, m: string, rest: string)
    requires StandsAt(t, a, m + rest)
    ensures StandsAt(t, a, m) && StandsAt(t, a + |m|, rest)
  {
    var all := m + rest;
    assert forall k | 0 <= k < |m| :: m[k] == all[k];
    assert forall k | 0 <= k < |rest| :: rest[k] == all[|m| + k];
  }

  lemma StandsAsSlice(t: string, a: nat, m: string)
    requires StandsAt(t, a, m)
    ensures t[a..a + |m|] == m
  {
  }

  ghost predicate ErasesTo(s: string, ms: seq<bool>, i: nat, t: string, a: nat) {
    && |ms| == |s| + 1 && i <= |s| && a <= |t| && SameLead(s, i, t, a)
    && StandsAt(t, a, EraseFrom(s, ms, i)) && a + |EraseFrom(s, ms, i)| == |t|
  }

  lemma EraseStartsAtStop(s: string, ms: seq<bool>, e: nat)
    requires |ms| == |s| + 1 && e <= |s| && (e < |s| ==> IsStop(s[e]))
    ensures if e == |s| then EraseFrom(s, ms, e) == []
            else EraseFrom(s, ms, e) != [] && EraseFrom(s, ms, e)[0] == s[e]
  {
  }

  lemma SameLeadErase(s: string, i: nat, e: nat, t: string, a: nat)
    requires i <= e <= |s| && a + |EraseOne(s[i..e])| <= |t| && SameLead(s, i, t, a)
    requires t[a..a + |EraseOne(s[i..e])|] == EraseOne(s[i..e])
    ensures SameLead(s, e, t, a + |EraseOne(s[i..e])|)
  {
    var c := s[i..e];
    if HasAt(c) {
      var k := LastAt(c);
      assert s[i + k..e] == c[k..];
      SameLeadRun(s, i + k, t, a, |c| - k);
    } else {
      SameLeadRun(s, i, t, a, |c|);
    }
  }

  /** What is left of the content `c` stands at `a`, and nothing more of the window. */
  ghost predicate ErasedAt(t: string, a: nat, c: string) {
    var m := EraseOne(c);
    StandsAt(t, a, m) && (a + |m| == |t| || IsStop(t[a + |m|]))
  }

  lemma AtErasedWindow(s: string, ms: seq<bool>, i: nat, t: string, a: nat)
    requires ErasesTo(s, ms, i, t, a) && i < |s| && ms[i] && StopFrom(s, i) > i
    ensures ErasedAt(t, a, Content(s, i)) && ErasesTo(s, ms, StopFrom(s, i), t, a + |EraseOne(Content(s, i))|)
  {
    var e, m := StopFrom(s, i), EraseOne(Content(s, i));
    var rest := EraseFrom(s, ms, e);
    EraseAtWindow(s, ms, i);
    StandsInParts(t, a, m, rest);
    StandsAsSlice(t, a, m);
    SameLeadErase(s, i, e, t, a);
    EraseStartsAtStop(s, ms, e);
    assert rest != [] ==> t[a + |m|] == rest[0];
  }

  lemma ByteStands(t: string, a: nat, b: char, rest: string)
    requires StandsAt(t, a, [b] + rest)
    ensures a < |t| && t[a] == b && StandsAt(t, a + 1, rest)
  {
    StandsInParts(t, a, [b], rest);
    assert t[a + 0] == [b][0];
  }

  lemma AtErasedByte(s: string, ms: seq<bool>, i: nat, t: string, a: nat)
    requires ErasesTo(s, ms, i, t, a) && i < |s| && !(ms[i] && StopFrom(s, i) > i)
    ensures a < |t| && t[a] == s[i] && ErasesTo(s, ms, i + 1, t, a + 1)
  {
    EraseAtByte(s, ms, i);
    ByteStands(t, a, s[i], EraseFrom(s, ms, i + 1));
  }

  // ---- windows survive the erasure ----

  lemma LeadNeedsNoCredential(s: string, i: nat)
    requires i <= |s| && '\\' !in s
    ensures LeadOf(s, i) != NeedsCredential
  {
    NoBackslashRun(s, i);
  }

  lemma {:induction false} NoBackslashRun(s: string, i: nat)
    requires i <= |s| && '\\' !in s
    ensures !BackslashRun(s, i)
  {
    if i > 0 {
      NoBackslashRun(s, i - 1);
    }
  }

  /** No stop and no backslash. */
  predicate PlainContent(c: string) {
    forall k | 0 <= k < |c| :: !IsStop(c[k]) && c[k] != '\\'
  }

  lemma EraseOneStart(c: string)
    requires c != [] && PlainContent(c)
    ensures EraseOne(c) != [] && !IsSlash(EraseOne(c)[0])
    ensures forall k | 0 <= k < |EraseOne(c)| :: !IsStop(EraseOne(c)[k])
    ensures MaskOne(EraseOne(c)) == MaskOne(c)
  {
    if HasAt(c) {
      var k := LastAt(c);
      LastAtIs(c[k..], 0);
      assert c[k..][0..] == c[k..];
    }
  }

  lemma SameMark(s: string, i: nat, t: string, a: nat)
    requires '\\' !in s && '\\' !in t && ErasesTo(s, Marks(s), i, t, a)
    ensures Marks(s)[i] == Marks(t)[a]
  {
    LeadSame(s, i, t, a);
    LeadNeedsNoCredential(s, i);
    if i == |s| {
      assert EraseFrom(s, Marks(s), i) == [];
    } else if Marks(s)[i] && StopFrom(s, i) > i {
      AtErasedWindow(s, Marks(s), i, t, a);
      ContentHasNoStop(s, i);
      EraseOneStart(Content(s, i));
      assert t[a + 0] == EraseOne(Content(s, i))[0];
    } else {
      AtErasedByte(s, Marks(s), i, t, a);
    }
  }

  ghost predicate MarkAgrees(s: string, ms: seq<bool>, i: nat, t: string, mt: seq<bool>, a: nat)
    requires |ms| == |s| + 1 && |mt| == |t| + 1
  {
    ErasesTo(s, ms, i, t, a) ==> ms[i] == mt[a]
  }

  ghost predicate MarksFollow(s: string, ms: seq<bool>, t: string, mt: seq<bool>) {
    && |ms| == |s| + 1 && |mt| == |t| + 1
    && forall i: nat, a: nat :: MarkAgrees(s, ms, i, t, mt, a)
  }

  lemma ContentHasNoStop(s: string, i: nat)
    requires i <= |s| && '\\' !in s
    ensures PlainContent(Content(s, i))
  {
    assert forall k | 0 <= k < |Content(s, i)| :: Content(s, i)[k] == s[i + k];
  }

  lemma ErasedContent(t: string, a: nat, c: string)
    requires c != [] && ErasedAt(t, a, c) && PlainContent(c)
    ensures a < |t| && Content(t, a) == EraseOne(c) != [] && MaskOne(EraseOne(c)) == MaskOne(c)
  {
    EraseOneStart(c);
    StandsAsSlice(t, a, EraseOne(c));
    ContentInside(t, a, EraseOne(c), a);
    assert EraseOne(c)[0..] == EraseOne(c);
  }

  lemma MaskOfErasedWindow(t: string, mt: seq<bool>, a: nat, c: string)
    requires c != [] && ErasedAt(t, a, c) && PlainContent(c)
    requires |mt| == |t| + 1 && mt[a]
    ensures MaskFrom(t, mt, a) == MaskOne(c) + MaskFrom(t, mt, a + |EraseOne(c)|)
  {
    ErasedContent(t, a, c);
    MaskOfContent(t, mt, a, EraseOne(c), MaskOne(c));
  }

  lemma MaskOfContent(t: string, mt: seq<bool>, a: nat, m: string, masked: string)
    requires |mt| == |t| + 1 && a < |t| && mt[a] && Content(t, a) == m != [] && MaskOne(m) == masked
    ensures a + |m| <= |t| && MaskFrom(t, mt, a) == masked + MaskFrom(t, mt, a + |m|)
  {
    assert |Content(t, a)| == StopFrom(t, a) - a;
    MaskAtWindow(t, mt, a);
  }

  lemma SameMarkAt(s: string, ms: seq<bool>, i: nat, t: string, mt: seq<bool>, a: nat)
    requires MarksFollow(s, ms, t, mt) && ErasesTo(s, ms, i, t, a)
    ensures ms[i] == mt[a]
  {
    assert MarkAgrees(s, ms, i, t, mt, a);
  }

  /** The window shows the same on both sides when what follows does. */
  lemma InvisibleWindow(s: string, ms: seq<bool>, i: nat, masked: string, rest: string)
    requires |ms| == |s| + 1 && i < |s| && ms[i] && StopFrom(s, i) > i
    requires masked == MaskOne(Content(s, i)) + rest && rest == MaskFrom(s, ms, StopFrom(s, i))
    ensures masked == MaskFrom(s, ms, i)
  {
    MaskAtWindow(s, ms, i);
  }

  /** The mask of an erased window, once the masks behind it agree. */
  lemma WindowShowsSame(s: string, ms: seq<bool>, i: nat, t: string, mt: seq<bool>, a: nat, c: string)
    requires |ms| == |s| + 1 && i < |s| && ms[i] && StopFrom(s, i) > i && c == Content(s, i) && PlainContent(c)
    requires |mt| == |t| + 1 && ErasedAt(t, a, c) && mt[a]
    requires MaskFrom(t, mt, a + |EraseOne(c)|) == MaskFrom(s, ms, StopFrom(s, i))
    ensures MaskFrom(t, mt, a) == MaskFrom(s, ms, i)
  {
    MaskOfErasedWindow(t, mt, a, c);
    InvisibleWindow(s, ms, i, MaskFrom(t, mt, a), MaskFrom(t, mt, a + |EraseOne(c)|));
  }

  /** The two texts from `i` and `a` on, piece by piece: erased windows and equal bytes. */
  ghost predicate Aligned(s: string, ms: seq<bool>, i: nat, t: string, mt: seq<bool>, a: nat)
    requires |ms| == |s| + 1 && |mt| == |t| + 1 && i <= |s|
    decreases |s| - i
  {
    if i == |s| then a == |t|
    else
      && a <= |t| && ms[i] == mt[a]
      && if ms[i] && StopFrom(s, i) > i
         then ErasedAt(t, a, Content(s, i)) && Aligned(s, ms, StopFrom(s, i), t, mt, a + |EraseOne(Content(s, i))|)
         else a < |t| && t[a] == s[i] && Aligned(s, ms, i + 1, t, mt, a + 1)
  }

  lemma {:induction false} ErasedIsAligned(s: string, ms: seq<bool>, i: nat, t: string, mt: seq<bool>, a: nat)
    requires MarksFollow(s, ms, t, mt) && ErasesTo(s, ms, i, t, a)
    ensures Aligned(s, ms, i, t, mt, a)
    decreases |s| - i
  {
    if i < |s| {
      SameMarkAt(s, ms, i, t, mt, a);
      if ms[i] && StopFrom(s, i) > i {
        AtErasedWindow(s, ms, i, t, a);
        ErasedIsAligned(s, ms, StopFrom(s, i), t, mt, a + |EraseOne(Content(s, i))|);
      } else {
        AtErasedByte(s, ms, i, t, a);
        ErasedIsAligned(s, ms, i + 1, t, mt, a + 1);
      }
    }
  }

  lemma {:induction false} AlignedShowSame(s: string, ms: seq<bool>, i: nat, t: string, mt: seq<bool>, a: nat)
    requires |ms| == |s| + 1 && |mt| == |t| + 1 && i <= |s| && '\\' !in s && Aligned(s, ms, i, t, mt, a)
    ensures a <= |t| && MaskFrom(t, mt, a) == MaskFrom(s, ms, i)
    decreases |s| - i
  {
    if i < |s| {
      if ms[i] && StopFrom(s, i) > i {
        AlignedShowSame(s, ms, StopFrom(s, i), t, mt, a + |EraseOne(Content(s, i))|);
        ContentHasNoStop(s, i);
        WindowShowsSame(s, ms, i, t, mt, a, Content(s, i));
      } else {
        AlignedShowSame(s, ms, i + 1, t, mt, a + 1);
        MaskOfErasedByte(s, ms, i, t, mt, a);
      }
    }
  }

  /** Erased userinfo does not show in the mask. */
  lemma EraseInvisible(s: string, ms: seq<bool>, i: nat, t: string, mt: seq<bool>, a: nat)
    requires MarksFollow(s, ms, t, mt) && ErasesTo(s, ms, i, t, a) && '\\' !in s
    ensures MaskFrom(t, mt, a) == MaskFrom(s, ms, i)
  {
    ErasedIsAligned(s, ms, i, t, mt, a);
    AlignedShowSame(s, ms, i, t, mt, a);
  }

  lemma MaskOfErasedByte(s: string, ms: seq<bool>, i: nat, t: string, mt: seq<bool>, a: nat)
    requires |ms| == |s| + 1 && |mt| == |t| + 1 && i < |s| && a < |t| && ms[i] == mt[a] && s[i] == t[a]
    requires !(ms[i] && StopFrom(s, i) > i)
    requires MaskFrom(t, mt, a + 1) == MaskFrom(s, ms, i + 1)
    ensures MaskFrom(t, mt, a) == MaskFrom(s, ms, i)
  {
    if ms[i] {
      StopHere(s, i);
      StopHere(t, a);
    }
    MaskAtByte(s, ms, i);
    MaskAtByte(t, mt, a);
  }

  lemma StopHere(s: string, i: nat)
    requires i < |s|
    ensures StopFrom(s, i) == i <==> IsStop(s[i])
  {
  }

  lemma EraseAtByte(s: string, ms: seq<bool>, i: nat)
    requires |ms| == |s| + 1 && i < |s| && !(ms[i] && StopFrom(s, i) > i)
    ensures EraseFrom(s, ms, i) == [s[i]] + EraseFrom(s, ms, i + 1)
  {
  }

  lemma EraseAtWindow(s: string, ms: seq<bool>, i: nat)
    requires |ms| == |s| + 1 && i < |s| && ms[i] && StopFrom(s, i) > i
    ensures EraseFrom(s, ms, i) == EraseOne(Content(s, i)) + EraseFrom(s, ms, StopFrom(s, i))
  {
  }

  lemma {:induction false} EraseAddsNoBackslash(s: string, ms: seq<bool>, i: nat)
    requires |ms| == |s| + 1 && i <= |s| && '\\' !in s
    ensures '\\' !in EraseFrom(s, ms, i)
    decreases |s| - i
  {
    if i < |s| {
      if ms[i] && StopFrom(s, i) > i {
        EraseAddsNoBackslash(s, ms, StopFrom(s, i));
      } else {
        EraseAddsNoBackslash(s, ms, i + 1);
      }
    }
  }

  /** The mask of a backslash-free text does not depend on its userinfo. */
  lemma MaskOfErased(s: string)
    requires '\\' !in s
    ensures Masked(Erased(s)) == Masked(s)
  {
    var t := Erased(s);
    EraseAddsNoBackslash(s, Marks(s), 0);
    forall i: nat, a: nat
      ensures MarkAgrees(s, Marks(s), i, t, Marks(t), a)
    {
      if ErasesTo(s, Marks(s), i, t, a) {
        SameMark(s, i, t, a);
      }
    }
    assert t == EraseFrom(s, Marks(s), 0);
    EraseInvisible(s, Marks(s), 0, t, Marks(t), 0);
  }

  // ---- the part before the first introducer, and the order of introducers ----

  lemma SameMarkBefore(s: string, f: nat, i: nat)
    requires i < f == FirstIntro(s)
    ensures Marks(s)[i] == Marks(s[..f])[i]
    ensures StopFrom(s[..f], i) == StopFrom(s, i) <= f && Content(s[..f], i) == Content(s, i)
  {
    var b := s[..f];
    var e := StopFrom(b, i);
    StopIs(s, i, e);
    assert b[i..e] == s[i..e];
    assert b[..i] == s[..i];
    SameLeadPrefix(s, b, i);
    LeadSame(s, i, b, i);
  }

  lemma {:induction false} MaskOfBase(s: string, ms: seq<bool>, mb: seq<bool>, f: nat, i: nat)
    requires |ms| == |s| + 1 && f <= |s| && |mb| == f + 1 && i <= f
    requires forall j | 0 <= j < f ::
               ms[j] == mb[j] && StopFrom(s[..f], j) == StopFrom(s, j) <= f && Content(s[..f], j) == Content(s, j)
    ensures MaskFrom(s, ms, i) == MaskFrom(s[..f], mb, i) + MaskFrom(s, ms, f)
    decreases f - i
  {
    if i < f {
      var next := if ms[i] && StopFrom(s, i) > i then StopFrom(s, i) else i + 1;
      MaskOfBase(s, ms, mb, f, next);
      var head := if ms[i] && StopFrom(s, i) > i then MaskOne(Content(s, i)) else [s[i]];
      Concat3(head, MaskFrom(s[..f], mb, next), MaskFrom(s, ms, f));
    }
  }

  predicate IsIntro(c: char) {
    c == '?' || c == '#'
  }

  /** The introducers of a text, in order. */
  function Intros(s: string): string {
    if s == [] then [] else (if IsIntro(s[0]) then [s[0]] else []) + Intros(s[1..])
  }

  lemma {:induction false} IntrosConcat(a: string, b: string)
    ensures Intros(a + b) == Intros(a) + Intros(b)
  {
    if a == [] {
      assert a + b == b;
    } else {
      assert (a + b)[1..] == a[1..] + b;
      IntrosConcat(a[1..], b);
      Concat3(if IsIntro(a[0]) then [a[0]] else [], Intros(a[1..]), Intros(b));
    }
  }

  lemma {:induction false} NoIntros(a: string)
    requires forall k | 0 <= k < |a| :: !IsIntro(a[k])
    ensures Intros(a) == []
  {
    if a != [] {
      NoIntros(a[1..]);
    }
  }

  lemma NoStopNoIntros(a: string)
    requires forall k | 0 <= k < |a| :: !IsStop(a[k])
    ensures Intros(a) == []
  {
    NoIntros(a);
  }

  /** Masking keeps the introducers. */
  lemma {:induction false} IntrosOfMask(s: string, ms: seq<bool>, i: nat)
    requires |ms| == |s| + 1 && i <= |s|
    ensures Intros(MaskFrom(s, ms, i)) == Intros(s[i..])
    decreases |s| - i
  {
    if i < |s| {
      var e := StopFrom(s, i);
      if ms[i] && e > i {
        IntrosOfMask(s, ms, e);
        IntrosAtWindow(s, ms, i);
      } else {
        IntrosOfMask(s, ms, i + 1);
        IntrosAtByte(s, ms, i);
      }
    }
  }

  lemma IntrosAtWindow(s: string, ms: seq<bool>, i: nat)
    requires |ms| == |s| + 1 && i < |s| && ms[i] && StopFrom(s, i) > i
    requires Intros(MaskFrom(s, ms, StopFrom(s, i))) == Intros(s[StopFrom(s, i)..])
    ensures Intros(MaskFrom(s, ms, i)) == Intros(s[i..])
  {
    var e := StopFrom(s, i);
    MaskAtWindow(s, ms, i);
    IntrosOfWindow(Content(s, i), MaskFrom(s, ms, e), s[e..]);
    CutTail(s, i, e);
  }

  lemma IntrosAtByte(s: string, ms: seq<bool>, i: nat)
    requires |ms| == |s| + 1 && i < |s| && !(ms[i] && StopFrom(s, i) > i)
    requires Intros(MaskFrom(s, ms, i + 1)) == Intros(s[i + 1..])
    ensures Intros(MaskFrom(s, ms, i)) == Intros(s[i..])
  {
    MaskAtByte(s, ms, i);
    IntrosConcat([s[i]], MaskFrom(s, ms, i + 1));
    IntrosConcat([s[i]], s[i + 1..]);
    CutTail(s, i, i + 1);
    assert s[i..i + 1] == [s[i]];
  }

  lemma CutTail(s: string, i: nat, e: nat)
    requires i <= e <= |s|
    ensures s[i..] == s[i..e] + s[e..]
  {
  }

  lemma IntrosOfWindow(c: string, masked: string, rest: string)
    requires (forall k | 0 <= k < |c| :: !IsStop(c[k])) && Intros(masked) == Intros(rest)
    ensures Intros(MaskOne(c) + masked) == Intros(c + rest)
  {
    MaskHasNoStop(c);
    NoStopNoIntros(c);
    NoStopNoIntros(MaskOne(c));
    IntrosConcat(MaskOne(c), masked);
    IntrosConcat(c, rest);
  }

  lemma OrderCons(x: char, s: string)
    ensures OrderOf([x] + s) ==
            if x == '?' then (if '#' in s then QueryFirst else Query)
            else if x == '#' then (if '?' in s then FragmentFirst else Fragment)
            else OrderOf(s)
  {
    assert ([x] + s)[1..] == s;
  }

  lemma {:induction false} OrderByIntros(s: string)
    ensures OrderOf(Intros(s)) == OrderOf(s)
    ensures forall c | IsIntro(c) :: c in Intros(s) <==> c in s
  {
    if s != [] {
      OrderByIntros(s[1..]);
      assert s == [s[0]] + s[1..];
      OrderCons(s[0], s[1..]);
      OrderCons(s[0], Intros(s[1..]));
      if !IsIntro(s[0]) {
        assert Intros(s) == Intros(s[1..]);
      }
    }
  }

  lemma OrderOfMask(s: string)
    ensures OrderOf(Masked(s)) == OrderOf(s)
  {
    IntrosOfMask(s, Marks(s), 0);
    assert s[0..] == s;
    OrderByIntros(s);
    OrderByIntros(Masked(s));
  }

  lemma {:induction false} AbsentFromMask(s: string, c: char)
    requires IsIntro(c) && c !in s
    ensures c !in Masked(s)
  {
    IntrosOfMask(s, Marks(s), 0);
    assert s[0..] == s;
    OrderByIntros(s);
    OrderByIntros(Masked(s));
  }

  /** The part of a URL before its query and fragment. */
  function Base(s: string): string {
    s[..FirstIntro(s)]
  }

  /** Masking and then cutting at the first introducer is cutting and then masking. */
  lemma BaseOfMask(s: string)
    ensures Base(Masked(s)) == Masked(Base(s))
  {
    var f := FirstIntro(s);
    var b := s[..f];
    forall j | 0 <= j < f
      ensures Marks(s)[j] == Marks(b)[j] && StopFrom(b, j) == StopFrom(s, j) <= f && Content(b, j) == Content(s, j)
    {
      SameMarkBefore(s, f, j);
    }
    MaskOfBase(s, Marks(s), Marks(b), f, 0);
    MaskStartsAtStop(s, Marks(s), f);
    AbsentFromMask(b, '?');
    AbsentFromMask(b, '#');
    IntroAfter(Masked(b), MaskFrom(s, Marks(s), f));
  }

  lemma IntroAfter(a: string, b: string)
    requires '?' !in a && '#' !in a && (b == [] || IsIntro(b[0]))
    ensures Base(a + b) == a
  {
    OrderAppend(a, b);
    assert FirstIntro(b) == 0 by {
      if b != [] {
        assert IndexOf(b, b[0]) == 0;
      }
    }
    assert (a + b)[..|a|] == a;
  }

  /**
   * Two backslash-free URLs that agree once userinfo and everything from the first introducer
   * are erased, and whose introducers come in the same order, redact to the same text.
   */
  lemma RedactionHidesUserinfoAndTail(x: string, y: string)
    requires Valid(x) && Valid(y) && '\\' !in x && '\\' !in y
    requires Erased(Base(x)) == Erased(Base(y)) && OrderOf(x) == OrderOf(y)
    ensures RedactedUrl(x) == RedactedUrl(y) && RedactedUrl(x).Done?
  {
    BackslashFreeIsDisjoint(x);
    BackslashFreeIsDisjoint(y);
    EditsMaskEveryWindow(x);
    EditsMaskEveryWindow(y);
    MaskOfErased(Base(x));
    MaskOfErased(Base(y));
    BaseOfMask(x);
    BaseOfMask(y);
    OrderOfMask(x);
    OrderOfMask(y);
    CappedByBase(Masked(x), Masked(y));
  }

  lemma CappedByBase(m: string, n: string)
    requires Base(m) == Base(n) && OrderOf(m) == OrderOf(n)
    ensures Capped(m) == Capped(n)
  {
    SentinelsFit(m);
    SentinelsFit(n);
    if FirstIntro(m) == |m| {
      assert Base(m) == m && Base(n) == n;
    }
  }
}
