/**
 * What the program does with a window nested in another one: the exact outcome for every text with
 * one nested pair of windows, wherever it stands.
 */
module RedactNested {
  import opened Text
  import opened Utf8
  import opened Redact
  import opened RedactMask
  import opened RedactStable

  /** The windows at `p` and `q` are nested and no other two are. */
  ghost predicate OneNestedPair(s: string, p: nat, q: nat) {
    && Nested(s, Marks(s), p, q)
    && forall x: nat, y: nat | Nested(s, Marks(s), x, y) :: x == p && y == q
  }

  /** What becomes of the text from the outer window on. */
  datatype Fate = RightMask | Panics | LeavesUserinfo | SwallowsMore

  /** By how much the nested userinfo is longer than the mask. */
  function Gained(c: string): nat
    requires HasAt(c) && LastAt(c) >= |MASK|
  {
    LastAt(c) - |MASK|
  }

  /** The mask and what stands from the last `@` among the first `n` bytes on. */
  function Swallowed(rest: string, n: nat): string
    requires n <= |rest| && HasAt(rest[..n])
  {
    MASK + rest[LastAt(rest[..n])..]
  }

  /**
   * Decided by the nested content `c` and the masked text `rest` behind both windows.  A userinfo as
   * long as the mask moves nothing.  A shorter one pushes the host right, so that the outer window
   * loses as many bytes at its end.  A longer one pulls what follows into the outer window.
   */
  function FateOf(c: string, rest: string): Fate {
    if !HasAt(c) || LastAt(c) == |MASK| then RightMask
    else if LastAt(c) < |MASK| then
      var lost := |MASK| - LastAt(c);
      if |c| - LastAt(c) <= lost then LeavesUserinfo
      else if IsContinuation(c[|c| - lost]) then Panics
      else RightMask
    else
      if Gained(c) > |rest| || !Boundary(rest, Gained(c)) then Panics
      else if HasAt(rest[..Gained(c)]) then SwallowsMore
      else RightMask
  }

  /** The text from the outer window on after both edits; `outer` stands before the nested content. */
  function TextOf(outer: string, c: string, rest: string): string {
    match FateOf(c, rest)
    case RightMask => MaskOne(outer + c) + rest
    case Panics => []
    case LeavesUserinfo => MaskOne(outer) + (MaskOne(c) + rest)
    case SwallowsMore => Swallowed(rest, Gained(c))
  }

  // ---- one edit, by the parts of the text ----

  /** An edit of `pre + v + post` whose window covers `v`. */
  lemma EditParts(pre: string, v: string, post: string)
    requires Boundary(pre + v + post, |pre|) && Boundary(pre + v + post, |pre| + |v|)
    ensures Edit(pre + v + post, Window(|pre|, |pre| + |v|)) == Done(pre + (MaskOne(v) + post))
  {
    var out, w := pre + v + post, Window(|pre|, |pre| + |v|);
    if HasAt(v) {
      var tail := v[LastAt(v)..];
      Slices(pre, v, post, LastAt(v));
      Concat3(MASK, tail, post);
      Concat3(pre, MASK, tail + post);
      EditReplaces(out, w, pre, v, tail + post, pre + (MaskOne(v) + post));
    } else {
      Slices(pre, v, post, 0);
      EditLeaves(out, w, v);
      Concat3(pre, v, post);
    }
  }

  /** An `@` in the second part hides the first. */
  lemma AtInSecond(x: string, y: string)
    requires HasAt(y)
    ensures HasAt(x + y) && LastAt(x + y) == |x| + LastAt(y) && MaskOne(x + y) == MaskOne(y)
  {
    var all, k := x + y, |x| + LastAt(y);
    assert all[k] == '@';
    assert forall j | k < j < |all| :: all[j] == y[j - |x|];
    assert all[k..] == y[LastAt(y)..];
  }

  /** Without one there, the second part stays. */
  lemma AtNotInSecond(x: string, y: string)
    requires !HasAt(y)
    ensures (HasAt(x + y) <==> HasAt(x)) && MaskOne(x + y) == MaskOne(x) + y
  {
    var all := x + y;
    assert forall j | 0 <= j < |x| :: all[j] == x[j];
    assert forall j | |x| <= j < |all| :: all[j] == y[j - |x|];
    if HasAt(x) {
      AtInFirst(x, y);
    }
  }

  lemma AtInFirst(x: string, y: string)
    requires HasAt(x) && !HasAt(y)
    ensures HasAt(x + y) && LastAt(x + y) == LastAt(x) && MaskOne(x + y) == MaskOne(x) + y
  {
    var all, k := x + y, LastAt(x);
    assert all[k] == '@';
    assert forall j | k < j < |all| :: all[j] == if j < |x| then x[j] else y[j - |x|];
    assert all[k..] == x[k..] + y;
    Concat3(MASK, x[k..], y);
  }

  lemma EditPartsOf(out: string, w: Window, pre: string, v: string, post: string, result: string)
    requires out == pre + v + post && w == Window(|pre|, |pre| + |v|)
    requires Boundary(out, |pre|) && Boundary(out, |pre| + |v|)
    requires result == MaskOne(v) + post
    ensures Edit(out, w) == Done(pre + result)
  {
    EditParts(pre, v, post);
  }

  lemma BoundaryAt(out: string, front: string, post: string)
    requires out == front + post
    ensures Boundary(out, |front|) <==> front == [] || post == [] || !IsContinuation(post[0])
  {
    assert post != [] ==> out[|front|] == post[0];
  }

  // ---- the edit of the outer window ----

  lemma MaskLastAt(c: string)
    requires HasAt(c)
    ensures HasAt(MaskOne(c)) && LastAt(MaskOne(c)) == |MASK|
  {
    var m, k := MaskOne(c), LastAt(c);
    assert m[|MASK|] == c[k];
    assert forall j | |MASK| < j < |m| :: m[j] == c[k + j - |MASK|];
  }

  lemma MaskIsMasked(c: string)
    requires HasAt(c)
    ensures HasAt(MaskOne(c)) && LastAt(MaskOne(c)) == |MASK| && MaskOne(MaskOne(c)) == MaskOne(c)
    ensures |MaskOne(c)| == |c| + |MASK| - LastAt(c) && MaskOne(c)[..|MASK|] == MASK
  {
    var m := MaskOne(c);
    MaskLastAt(c);
    assert m[|MASK|..] == c[LastAt(c)..];
  }

  lemma MaskByte(c: string, k: nat)
    requires HasAt(c) && |MASK| <= k < |MaskOne(c)|
    ensures LastAt(c) + k - |MASK| < |c| && MaskOne(c)[k] == c[LastAt(c) + k - |MASK|]
  {
  }

  /** With an `@` behind it, what stands before does not matter. */
  lemma SumMask(outer: string, c: string)
    requires HasAt(c)
    ensures MaskOne(outer + c) == MaskOne(c) && MaskOne(outer + MaskOne(c)) == MaskOne(c)
  {
    MaskIsMasked(c);
    AtInSecond(outer, c);
    AtInSecond(outer, MaskOne(c));
  }

  lemma Group3(pre: string, a: string, b: string, rest: string)
    ensures pre + (a + (b + rest)) == pre + (a + b) + rest
  {
  }

  /** Nothing moves: the window covers the whole nested mask. */
  lemma OuterSame(pre: string, outer: string, c: string, rest: string, w: Window)
    requires w == Window(|pre|, |pre| + |outer| + |c|)
    requires Boundary(pre + (outer + (MaskOne(c) + rest)), |pre|) && (rest == [] || !IsContinuation(rest[0]))
    requires HasAt(c) ==> LastAt(c) == |MASK|
    ensures Edit(pre + (outer + (MaskOne(c) + rest)), w) == Done(pre + (MaskOne(outer + c) + rest))
  {
    var m := MaskOne(c);
    var out, v := pre + (outer + (m + rest)), outer + m;
    if HasAt(c) {
      MaskIsMasked(c);
      SumMask(outer, c);
    }
    Group3(pre, outer, m, rest);
    BoundaryAt(out, pre + v, rest);
    EditPartsOf(out, w, pre, v, rest, MaskOne(outer + c) + rest);
  }

  /** The host moved right: the window covers only the first `|c|` bytes of the nested mask. */
  lemma OuterShort(pre: string, outer: string, c: string, rest: string, w: Window)
    requires w == Window(|pre|, |pre| + |outer| + |c|)
    requires Boundary(pre + (outer + (MaskOne(c) + rest)), |pre|)
    requires HasAt(c) && LastAt(c) < |MASK|
    ensures Edit(pre + (outer + (MaskOne(c) + rest)), w) ==
            if FateOf(c, rest) == Panics then Panic else Done(pre + TextOf(outer, c, rest))
  {
    var m, n := MaskOne(c), |c|;
    MaskIsMasked(c);
    var x, y := m[..n], m[n..];
    assert x + y == m;
    var out, v, post := pre + (outer + (m + rest)), outer + x, y + rest;
    Concat3(x, y, rest);
    Group3(pre, outer, x, post);
    BoundaryAt(out, pre + v, post);
    ShortFate(c, rest, m, n);
    assert post[0] == m[n];
    if FateOf(c, rest) != Panics {
      ShortText(outer, c, rest, m, n);
      EditPartsOf(out, w, pre, v, post, TextOf(outer, c, rest));
    }
  }

  lemma ShortFate(c: string, rest: string, m: string, n: nat)
    requires HasAt(c) && LastAt(c) < |MASK| && m == MaskOne(c) && n == |c|
    ensures n < |m| && (FateOf(c, rest) == Panics <==> IsContinuation(m[n]))
  {
    MaskIsMasked(c);
    if n >= |MASK| {
      MaskByte(c, n);
    }
  }

  lemma ShortText(outer: string, c: string, rest: string, m: string, n: nat)
    requires HasAt(c) && LastAt(c) < |MASK| && m == MaskOne(c) && n == |c| < |m| && FateOf(c, rest) != Panics
    ensures TextOf(outer, c, rest) == MaskOne(outer + m[..n]) + (m[n..] + rest)
  {
    MaskIsMasked(c);
    if FateOf(c, rest) == LeavesUserinfo {
      ShortLeaves(outer, m, n, rest);
    } else {
      ShortRight(outer, m, n, rest);
      SumMask(outer, c);
    }
  }

  /** The window ends before the `@` of the nested mask. */
  lemma ShortLeaves(outer: string, m: string, n: nat, rest: string)
    requires n <= |MASK| <= |m| && m[..|MASK|] == MASK
    ensures MaskOne(outer + m[..n]) + (m[n..] + rest) == MaskOne(outer) + (m + rest)
  {
    var x, y := m[..n], m[n..];
    assert x + y == m;
    assert forall k | 0 <= k < n :: x[k] == m[..|MASK|][k] == MASK[k];
    AtNotInSecond(outer, x);
    Concat3(x, y, rest);
    Concat3(MaskOne(outer), x, y + rest);
  }

  /** The window ends behind it. */
  lemma ShortRight(outer: string, m: string, n: nat, rest: string)
    requires |MASK| < n <= |m| && HasAt(m) && LastAt(m) == |MASK| && m[..|MASK|] == MASK
    ensures MaskOne(outer + m[..n]) + (m[n..] + rest) == m + rest
  {
    var x, y := m[..n], m[n..];
    assert x + y == m;
    PrefixOfMask(m, n);
    AtInSecond(outer, x);
    Concat3(x, y, rest);
  }

  lemma PrefixOfMask(m: string, n: nat)
    requires |MASK| < n <= |m| && HasAt(m) && LastAt(m) == |MASK| && m[..|MASK|] == MASK
    ensures HasAt(m[..n]) && MaskOne(m[..n]) == m[..n]
  {
    var x := m[..n];
    assert x[|MASK|] == '@' && forall k | |MASK| < k < n :: x[k] == m[k];
    assert LastAt(x) == |MASK|;
    assert x[..|MASK|] == MASK;
    assert x == x[..|MASK|] + x[|MASK|..];
  }

  /** The host moved left: the window reaches into what follows, or past the end of the text. */
  lemma OuterLong(pre: string, outer: string, c: string, rest: string, w: Window)
    requires w == Window(|pre|, |pre| + |outer| + |c|)
    requires Boundary(pre + (outer + (MaskOne(c) + rest)), |pre|)
    requires HasAt(c) && LastAt(c) > |MASK|
    ensures Edit(pre + (outer + (MaskOne(c) + rest)), w) ==
            if FateOf(c, rest) == Panics then Panic else Done(pre + TextOf(outer, c, rest))
  {
    var m, gained := MaskOne(c), Gained(c);
    MaskIsMasked(c);
    if gained <= |rest| {
      var x, y := rest[..gained], rest[gained..];
      assert x + y == rest;
      var out, v := pre + (outer + (m + rest)), outer + (m + x);
      Concat3(m, x, y);
      Group3(pre, outer, m + x, y);
      BoundaryAt(out, pre + v, y);
      if FateOf(c, rest) != Panics {
        LongText(outer, c, rest, m, gained);
        EditPartsOf(out, w, pre, v, y, TextOf(outer, c, rest));
      }
    }
  }

  lemma LongText(outer: string, c: string, rest: string, m: string, gained: nat)
    requires HasAt(c) && LastAt(c) > |MASK| && m == MaskOne(c) && gained == Gained(c) <= |rest|
    requires FateOf(c, rest) != Panics
    ensures TextOf(outer, c, rest) == MaskOne(outer + (m + rest[..gained])) + rest[gained..]
  {
    MaskIsMasked(c);
    if HasAt(rest[..gained]) {
      assert FateOf(c, rest) == SwallowsMore;
      LongSwallows(outer, m, rest, gained);
    } else {
      assert FateOf(c, rest) == RightMask;
      LongRight(outer, m, rest, gained);
      SumMask(outer, c);
    }
  }

  /** The window reaches an `@` behind the stop. */
  lemma LongSwallows(outer: string, m: string, rest: string, gained: nat)
    requires gained <= |rest| && HasAt(rest[..gained])
    ensures MaskOne(outer + (m + rest[..gained])) + rest[gained..] == Swallowed(rest, gained)
  {
    var x, y := rest[..gained], rest[gained..];
    AtInSecond(m, x);
    AtInSecond(outer, m + x);
    assert x[LastAt(x)..] + y == rest[LastAt(x)..];
    Concat3(MASK, x[LastAt(x)..], y);
  }

  /** The window reaches nothing more. */
  lemma LongRight(outer: string, m: string, rest: string, gained: nat)
    requires gained <= |rest| && !HasAt(rest[..gained]) && HasAt(m) && MaskOne(m) == m
    ensures MaskOne(outer + (m + rest[..gained])) + rest[gained..] == m + rest
  {
    var x, y := rest[..gained], rest[gained..];
    assert x + y == rest;
    AtInFirst(m, x);
    AtInSecond(outer, m + x);
    Concat3(m, x, y);
  }

  /** Both edits of the pair, in every case. */
  lemma OuterOutcome(pre: string, outer: string, c: string, rest: string, w: Window)
    requires w == Window(|pre|, |pre| + |outer| + |c|)
    requires Boundary(pre + (outer + (MaskOne(c) + rest)), |pre|) && (rest == [] || !IsContinuation(rest[0]))
    ensures Edit(pre + (outer + (MaskOne(c) + rest)), w) ==
            if FateOf(c, rest) == Panics then Panic else Done(pre + TextOf(outer, c, rest))
  {
    if !HasAt(c) || LastAt(c) == |MASK| {
      OuterSame(pre, outer, c, rest, w);
    } else if LastAt(c) < |MASK| {
      OuterShort(pre, outer, c, rest, w);
    } else {
      OuterLong(pre, outer, c, rest, w);
    }
  }

  /** Only the right mask is the right mask. */
  lemma WrongTextDiffers(outer: string, c: string, rest: string)
    requires outer != [] && (FateOf(c, rest) == LeavesUserinfo || FateOf(c, rest) == SwallowsMore)
    ensures |TextOf(outer, c, rest)| != |MaskOne(outer + c) + rest|
  {
    SumMask(outer, c);
    MaskIsMasked(c);
    if FateOf(c, rest) == LeavesUserinfo && HasAt(outer) {
      MaskIsMasked(outer);
    }
  }

  // ---- the windows before the pair ----

  /** The mask of `s[i..p]`, for windows that end before `p`. */
  function MaskUpTo(s: string, marks: seq<bool>, i: nat, p: nat): string
    requires |marks| == |s| + 1 && i <= p <= |s|
    decreases p - i
  {
    if i == p then []
    else if marks[i] && i < StopFrom(s, i) <= p then MaskOne(Content(s, i)) + MaskUpTo(s, marks, StopFrom(s, i), p)
    else [s[i]] + MaskUpTo(s, marks, i + 1, p)
  }

  /** The windows from `i` up to `p` end before `p`, and none holds another one. */
  ghost predicate ApartBefore(s: string, marks: seq<bool>, i: nat, p: nat)
    requires |marks| == |s| + 1 && p <= |s|
  {
    forall j | i <= j < p && marks[j] :: StopFrom(s, j) < p && forall k | j < k <= StopFrom(s, j) :: !marks[k]
  }

  lemma UpToAtWindow(s: string, marks: seq<bool>, i: nat, p: nat)
    requires |marks| == |s| + 1 && i < p <= |s| && marks[i] && i < StopFrom(s, i) <= p
    ensures MaskUpTo(s, marks, i, p) == MaskOne(Content(s, i)) + MaskUpTo(s, marks, StopFrom(s, i), p)
  {
  }

  lemma UpToAtByte(s: string, marks: seq<bool>, i: nat, p: nat)
    requires |marks| == |s| + 1 && i < p <= |s| && (marks[i] ==> StopFrom(s, i) == i)
    ensures MaskUpTo(s, marks, i, p) == [s[i]] + MaskUpTo(s, marks, i + 1, p)
  {
  }

  lemma {:induction false} FrontThenRest(s: string, marks: seq<bool>, i: nat, p: nat)
    requires |marks| == |s| + 1 && i <= p <= |s| && ApartBefore(s, marks, i, p)
    ensures MaskFrom(s, marks, i) == MaskUpTo(s, marks, i, p) + MaskFrom(s, marks, p)
    decreases p - i
  {
    if i < p {
      if marks[i] && StopFrom(s, i) > i {
        MaskAtWindow(s, marks, i);
        UpToAtWindow(s, marks, i, p);
        FrontThenRest(s, marks, StopFrom(s, i), p);
        Concat3(MaskOne(Content(s, i)), MaskUpTo(s, marks, StopFrom(s, i), p), MaskFrom(s, marks, p));
      } else {
        MaskAtByte(s, marks, i);
        UpToAtByte(s, marks, i, p);
        FrontThenRest(s, marks, i + 1, p);
        Concat3([s[i]], MaskUpTo(s, marks, i + 1, p), MaskFrom(s, marks, p));
      }
    }
  }

  lemma {:induction false} PlainBytes(s: string, marks: seq<bool>, i: nat, e: nat, p: nat)
    requires |marks| == |s| + 1 && i <= e <= p <= |s| && forall j | i <= j < e :: !marks[j]
    ensures MaskUpTo(s, marks, i, p) == s[i..e] + MaskUpTo(s, marks, e, p)
    decreases e - i
  {
    if i < e {
      PlainBytes(s, marks, i + 1, e, p);
      Concat3([s[i]], s[i + 1..e], MaskUpTo(s, marks, e, p));
      assert s[i..e] == [s[i]] + s[i + 1..e];
    }
  }

  lemma UpToStartsAtStop(s: string, marks: seq<bool>, e: nat, p: nat)
    requires |marks| == |s| + 1 && e < p <= |s| && IsStop(s[e])
    ensures MaskUpTo(s, marks, e, p) != [] && MaskUpTo(s, marks, e, p)[0] == s[e]
  {
  }

  lemma SameTailSelf(c: string)
    requires forall k | 0 <= k < |c| :: !IsStop(c[k])
    ensures SameTail(c, c)
  {
  }

  /** The edit of a window before the pair. */
  lemma EditInFront(s: string, marks: seq<bool>, i: nat, p: nat, x: string)
    requires MarksBoundaries(s, marks) && i < p <= |s| && ApartBefore(s, marks, i, p) && marks[i]
    ensures Edit(s[..i + 1] + (MaskUpTo(s, marks, i + 1, p) + x), Window(i, StopFrom(s, i)))
         == Done(s[..i] + (MaskUpTo(s, marks, i, p) + x))
  {
    var e, c := StopFrom(s, i), Content(s, i);
    var rest := MaskUpTo(s, marks, e, p) + x;
    UpToStartsAtStop(s, marks, e, p);
    FrontSplit(s, marks, i, e, p, x);
    SameTailSelf(c);
    assert rest[0] == s[e];
    assert (s[..i] + c + rest)[i] == s[i] by {
      FrontByte(s, i, e, rest);
    }
    EditSplice(s[..i], c, c, rest);
    Concat3(s[..i], MaskOne(c), rest);
    if e > i {
      Concat3(MaskOne(c), MaskUpTo(s, marks, e, p), x);
    }
  }

  lemma FrontByte(s: string, i: nat, e: nat, rest: string)
    requires i <= e < |s| && rest != [] && rest[0] == s[e]
    ensures i < |s[..i] + s[i..e] + rest| && (s[..i] + s[i..e] + rest)[i] == s[i]
  {
  }

  lemma FrontSplit(s: string, marks: seq<bool>, i: nat, e: nat, p: nat, x: string)
    requires |marks| == |s| + 1 && i <= e < p <= |s| && e == StopFrom(s, i) && forall k | i < k <= e :: !marks[k]
    ensures s[..i + 1] + (MaskUpTo(s, marks, i + 1, p) + x) == s[..i] + s[i..e] + (MaskUpTo(s, marks, e, p) + x)
  {
    if i == e {
      UpToAtByte(s, marks, i, p);
      OneByte(s, i, MaskUpTo(s, marks, i + 1, p), x);
    } else {
      PlainBytes(s, marks, i + 1, e, p);
      MoreBytes(s, i, e, MaskUpTo(s, marks, e, p), x);
    }
  }

  lemma OneByte(s: string, i: nat, u: string, x: string)
    requires i < |s|
    ensures s[..i + 1] + (u + x) == s[..i] + s[i..i] + ([s[i]] + u + x)
  {
  }

  lemma MoreBytes(s: string, i: nat, e: nat, u: string, x: string)
    requires i < e <= |s|
    ensures s[..i + 1] + (s[i + 1..e] + u + x) == s[..i] + s[i..e] + (u + x)
  {
  }

  lemma KeptInFront(s: string, marks: seq<bool>, i: nat, p: nat, x: string)
    requires |marks| == |s| + 1 && i < p <= |s| && !marks[i]
    ensures s[..i + 1] + (MaskUpTo(s, marks, i + 1, p) + x) == s[..i] + (MaskUpTo(s, marks, i, p) + x)
  {
    OneByte(s, i, MaskUpTo(s, marks, i + 1, p), x);
    assert s[..i] + s[i..i] == s[..i];
  }

  lemma {:induction false} EditsInFront(s: string, marks: seq<bool>, i: nat, p: nat, x: string)
    requires MarksBoundaries(s, marks) && i <= p <= |s| && ApartBefore(s, marks, i, p)
    requires Edited(s, marks, p) == Done(s[..p] + x)
    ensures Edited(s, marks, i) == Done(s[..i] + (MaskUpTo(s, marks, i, p) + x))
    decreases p - i
  {
    if i == p {
      assert [] + x == x;
    } else {
      EditsInFront(s, marks, i + 1, p, x);
      EditedStep(s, marks, i, s[..i + 1] + (MaskUpTo(s, marks, i + 1, p) + x));
      if marks[i] {
        EditInFront(s, marks, i, p, x);
      } else {
        KeptInFront(s, marks, i, p, x);
      }
    }
  }

  // ---- the whole program on a text with one nested pair ----

  lemma PairSharesEnd(s: string, p: nat, q: nat)
    requires OneNestedPair(s, p, q)
    ensures StopFrom(s, p) == StopFrom(s, q) && NoShiftFrom(s, Marks(s), q + 1)
  {
    WindowsApartOrShareEnd(s, p, q);
  }

  lemma NothingBetween(s: string, p: nat, q: nat)
    requires OneNestedPair(s, p, q)
    ensures forall j | p < j < q :: !Marks(s)[j]
  {
    var marks := Marks(s);
    forall j | p < j < q
      ensures !marks[j]
    {
      assert !Nested(s, marks, p, j);
    }
  }

  lemma ApartInFront(s: string, p: nat, q: nat)
    requires OneNestedPair(s, p, q)
    ensures ApartBefore(s, Marks(s), 0, p)
  {
    var marks := Marks(s);
    forall j | 0 <= j < p && marks[j]
      ensures StopFrom(s, j) < p && forall k | j < k <= StopFrom(s, j) :: !marks[k]
    {
      assert !Nested(s, marks, j, p);
      forall k | j < k <= StopFrom(s, j)
        ensures !marks[k]
      {
        assert !Nested(s, marks, j, k);
      }
    }
  }

  lemma MaskAtContent(s: string, i: nat)
    requires i <= |s| && WindowAt(s, i)
    ensures MaskFrom(s, Marks(s), i) == MaskOne(Content(s, i)) + MaskFrom(s, Marks(s), StopFrom(s, i))
  {
    if StopFrom(s, i) > i {
      MaskAtWindow(s, Marks(s), i);
    } else {
      assert Content(s, i) == [];
    }
  }

  /** The text when the nested window has been edited. */
  lemma NestedTurn(s: string, q: nat)
    requires Valid(s) && q <= |s| && WindowAt(s, q) && NoShiftFrom(s, Marks(s), q + 1)
    ensures Edited(s, Marks(s), q) == Done(s[..q] + (MaskOne(Content(s, q)) + MaskFrom(s, Marks(s), StopFrom(s, q))))
  {
    WindowsStartOnBoundaries(s);
    EditIsMask(s, Marks(s), q);
    MaskAtContent(s, q);
  }

  /** The text when the outer window's turn comes. */
  lemma BeforeOuter(s: string, p: nat, q: nat, x: string)
    requires OneNestedPair(s, p, q) && Edited(s, Marks(s), q) == Done(s[..q] + x)
    ensures Edited(s, Marks(s), p + 1) == Done(s[..p] + (s[p..q] + x))
  {
    NothingBetween(s, p, q);
    EditedSame(s, Marks(s), p + 1, q);
    CutPrefix(s, p, q, x);
  }

  lemma OuterStart(pre: string, outer: string, x: string)
    requires outer != [] && (pre == [] || !IsContinuation(outer[0]))
    ensures Boundary(pre + (outer + x), |pre|)
  {
    var out := pre + (outer + x);
    assert out[|pre|] == outer[0];
  }

  lemma BehindIsBoundary(s: string, e: nat)
    requires e <= |s| && (e < |s| ==> IsStop(s[e]))
    ensures var rest := MaskFrom(s, Marks(s), e); rest == [] || !IsContinuation(rest[0])
  {
    MaskStartsAtStop(s, Marks(s), e);
  }

  lemma EditedAtPair(s: string, p: nat, q: nat)
    requires Valid(s) && OneNestedPair(s, p, q)
    ensures var c, rest := Content(s, q), MaskFrom(s, Marks(s), StopFrom(s, q));
            Edited(s, Marks(s), p) == if FateOf(c, rest) == Panics then Panic else Done(s[..p] + TextOf(s[p..q], c, rest))
  {
    var c, rest := Content(s, q), MaskFrom(s, Marks(s), StopFrom(s, q));
    var result := if FateOf(c, rest) == Panics then Panic else Done(s[..p] + TextOf(s[p..q], c, rest));
    PairSharesEnd(s, p, q);
    WindowsStartOnBoundaries(s);
    BehindIsBoundary(s, StopFrom(s, q));
    assert s[p..q][0] == s[p];
    OuterStart(s[..p], s[p..q], MaskOne(c) + rest);
    OuterOutcome(s[..p], s[p..q], c, rest, Window(p, StopFrom(s, p)));
    OuterTurn(s, p, q, result);
  }

  lemma OuterTurn(s: string, p: nat, q: nat, result: Outcome)
    requires Valid(s) && OneNestedPair(s, p, q)
    requires StopFrom(s, p) == StopFrom(s, q)
    requires Edit(s[..p] + (s[p..q] + (MaskOne(Content(s, q)) + MaskFrom(s, Marks(s), StopFrom(s, q)))),
                  Window(p, StopFrom(s, p))) == result
    ensures Edited(s, Marks(s), p) == result
  {
    var c, rest := Content(s, q), MaskFrom(s, Marks(s), StopFrom(s, q));
    PairSharesEnd(s, p, q);
    NestedTurn(s, q);
    BeforeOuter(s, p, q, MaskOne(c) + rest);
    EditedStep(s, Marks(s), p, s[..p] + (s[p..q] + (MaskOne(c) + rest)));
  }

  lemma CutPrefix(s: string, p: nat, q: nat, x: string)
    requires p < q <= |s|
    ensures s[..q] + x == s[..p] + (s[p..q] + x)
    ensures (s[..p] + (s[p..q] + x))[p] == s[p]
  {
  }

  lemma ContentOfPair(s: string, p: nat, q: nat)
    requires p <= q <= |s| && StopFrom(s, p) == StopFrom(s, q)
    ensures Content(s, p) == s[p..q] + Content(s, q)
  {
    SliceInTwo(s, p, q, StopFrom(s, p));
  }

  lemma SliceInTwo(s: string, p: nat, q: nat, e: nat)
    requires p <= q <= e <= |s|
    ensures s[p..e] == s[p..q] + s[q..e]
  {
  }

  lemma SameFrontSum(a: string, x: string, y: string)
    requires |x| != |y|
    ensures a + x != a + y
  {
    assert |a + x| != |a + y|;
  }

  /**
   * The exact outcome for every text with one nested pair of windows: the program panics, or ends
   * with the masked front and the text the pair's fate gives.  It ends with the left-to-right mask
   * exactly when that fate is `RightMask`.
   */
  lemma NestedPairOutcome(s: string, p: nat, q: nat)
    requires Valid(s) && OneNestedPair(s, p, q)
    ensures var fate := FateOf(Content(s, q), MaskFrom(s, Marks(s), StopFrom(s, q)));
            var text := TextOf(s[p..q], Content(s, q), MaskFrom(s, Marks(s), StopFrom(s, q)));
            && MaskedByEdits(s) == (if fate == Panics then Panic else Done(MaskUpTo(s, Marks(s), 0, p) + text))
            && (MaskedByEdits(s) == Done(Masked(s)) <==> fate == RightMask)
  {
    var marks, c := Marks(s), Content(s, q);
    var rest := MaskFrom(s, marks, StopFrom(s, q));
    var front, text := MaskUpTo(s, marks, 0, p), TextOf(s[p..q], c, rest);
    PairSharesEnd(s, p, q);
    ApartInFront(s, p, q);
    WindowsStartOnBoundaries(s);
    EditedAtPair(s, p, q);
    if FateOf(c, rest) == Panics {
      EditedPanics(s, marks, 0, p);
    } else {
      EditsInFront(s, marks, 0, p, text);
      assert s[..0] + (front + text) == front + text;
      RightText(s, p, q);
      if FateOf(c, rest) != RightMask {
        WrongTextDiffers(s[p..q], c, rest);
        SameFrontSum(front, text, MaskOne(s[p..q] + c) + rest);
      }
    }
  }

  lemma RightText(s: string, p: nat, q: nat)
    requires OneNestedPair(s, p, q)
    ensures Masked(s) == MaskUpTo(s, Marks(s), 0, p) + (MaskOne(s[p..q] + Content(s, q)) + MaskFrom(s, Marks(s), StopFrom(s, q)))
  {
    PairSharesEnd(s, p, q);
    ApartInFront(s, p, q);
    FrontThenRest(s, Marks(s), 0, p);
    MaskAtContent(s, p);
    ContentOfPair(s, p, q);
  }

  // ---- an input on which the userinfo stays in view ----

  lemma ExampleWindows(s: string)
    requires s == "//user:pw:\\x@h"
    ensures WindowAt(s, 2) && WindowAt(s, 11) && StopFrom(s, 2) == 14 && StopFrom(s, 11) == 14
    ensures forall j | 0 <= j <= |s| && j != 2 && j != 11 :: !WindowAt(s, j)
  {
    StopIs(s, 2, 14);
    StopIs(s, 11, 14);
    assert RunTo(s, 0) == 0 && RunTo(s, 1) == 1 && RunTo(s, 2) == 2;
    assert !BackslashRun(s, 0) && !BackslashRun(s, 1) && !BackslashRun(s, 2);
    assert RunTo(s, 10) == 0 && RunTo(s, 11) == 1 && BackslashRun(s, 11);
    assert NameTo(s, 7) == 0 && NameTo(s, 8) == 1 && NameTo(s, 9) == 2;
    assert SchemeLen(s, 10) == Some(2);
    forall j | 0 <= j <= |s| && j != 2 && j != 11
      ensures !WindowAt(s, j)
    {
      if j != 1 {
        NoSlashNoWindow(s, j);
      }
    }
  }

  lemma ExamplePair(s: string)
    requires s == "//user:pw:\\x@h"
    ensures OneNestedPair(s, 2, 11)
  {
    ExampleWindows(s);
  }

  lemma ExampleFate(outer: string, c: string)
    requires c == "x@h" && !HasAt(outer)
    ensures FateOf(c, []) == LeavesUserinfo && MaskOne(c) == "***@h" && TextOf(outer, c, []) == outer + "***@h"
  {
    LastAtIs(c, 1);
    assert c[1..] == "@h";
    assert MaskOne(c) + [] == MaskOne(c);
  }

  lemma PairResult(s: string, p: nat, q: nat, outer: string, c: string, rest: string, front: string, text: string)
    requires Valid(s) && OneNestedPair(s, p, q) && outer == s[p..q] && c == Content(s, q)
    requires rest == MaskFrom(s, Marks(s), StopFrom(s, q)) && front == MaskUpTo(s, Marks(s), 0, p)
    requires FateOf(c, rest) != Panics && text == TextOf(outer, c, rest)
    ensures MaskedByEdits(s) == Done(front + text)
    ensures Masked(s) == front + (MaskOne(outer + c) + rest)
  {
    NestedPairOutcome(s, p, q);
    RightText(s, p, q);
  }

  /** A short nested userinfo and host: the program returns with the outer credential in view. */
  lemma CredentialStaysInView(s: string)
    requires s == "//user:pw:\\x@h"
    ensures MaskedByEdits(s) == Done("//user:pw:\\***@h") && Masked(s) == "//***@h"
  {
    var outer, c := ExampleParts(s);
    ExampleFate(outer, c);
    ExamplePair(s);
    AsciiIsValid(s);
    PairResult(s, 2, 11, outer, c, [], "//", outer + "***@h");
    SumMask(outer, c);
    ExampleTexts(outer);
  }

  lemma ExampleParts(s: string) returns (outer: string, c: string)
    requires s == "//user:pw:\\x@h"
    ensures outer == "user:pw:\\" == s[2..11] && c == "x@h" == Content(s, 11)
    ensures MaskFrom(s, Marks(s), StopFrom(s, 11)) == [] && MaskUpTo(s, Marks(s), 0, 2) == "//"
  {
    ExampleWindows(s);
    outer, c := s[2..11], Content(s, 11);
    ExampleFront(s);
  }

  lemma ExampleTexts(outer: string)
    requires outer == "user:pw:\\"
    ensures "//" + (outer + "***@h") == "//user:pw:\\***@h" && "//" + ("***@h" + []) == "//***@h"
  {
  }

  lemma ExampleFront(s: string)
    requires |s| > 2 && s[0] == '/' && s[1] == '/' && !Marks(s)[0] && !Marks(s)[1]
    ensures MaskUpTo(s, Marks(s), 0, 2) == "//"
  {
    PlainBytes(s, Marks(s), 0, 2, 2);
    assert s[0..2] == "//";
  }
}
