/**
 * When the reverse-order edit is right, and why masked text stays as it is.
 */
module RedactStable {
  import opened Text
  import opened Utf8
  import opened Redact
  import opened RedactMask

  // ---- the exact condition for "an edit never shifts a window still to be edited" ----

  /** In the edited text the window at `p` still ends where it was found to end. */
  ghost predicate WindowKept(s: string, p: nat, edited: Outcome)
    requires p <= |s|
  {
    edited.Done? && p <= |edited.text| && StopFrom(edited.text, p) == StopFrom(s, p)
  }

  /** At every moment of the edit, every window not edited yet is where it was. */
  ghost predicate EditsNeverShift(s: string, marks: seq<bool>)
    requires |marks| == |s| + 1
  {
    forall p, q | 0 <= p < q <= |s| && marks[p] :: WindowKept(s, p, Edited(s, marks, q))
  }

  lemma StopBehind(s: string, out: string, p: nat, q: nat, v: string, rest: string)
    requires p <= q <= |s| && out == s[..q] + v + rest
    requires forall k | p <= k < q :: !IsStop(s[k])
    requires forall k | 0 <= k < |v| :: !IsStop(v[k])
    requires rest == [] || IsStop(rest[0])
    ensures p <= |out| && StopFrom(out, p) == q + |v|
  {
    var e := q + |v|;
    forall k | p <= k < e
      ensures !IsStop(out[k])
    {
      if k >= q {
        assert out[k] == v[k - q];
      }
    }
    StopIs(out, p, e);
  }

  lemma StopBefore(s: string, rest: string, p: nat, q: nat)
    requires p <= q <= |s| && StopFrom(s, p) < q
    ensures StopFrom(s[..q] + rest, p) == StopFrom(s, p)
  {
    StopIs(s[..q] + rest, p, StopFrom(s, p));
  }

  lemma NoShiftKeeps(s: string, marks: seq<bool>, p: nat, q: nat)
    requires MarksBoundaries(s, marks) && p < q <= |s| && marks[p] && NoShiftFrom(s, marks, q)
    ensures WindowKept(s, p, Edited(s, marks, q))
  {
    EditIsMask(s, marks, q);
    var e := StopFrom(s, p);
    if e < q {
      StopBefore(s, MaskFrom(s, marks, q), p, q);
    } else {
      var v := MaskInside(s, marks, p, q, e);
      MaskStartsAtStop(s, marks, e);
      Concat3(s[..q], v, MaskFrom(s, marks, e));
      StopBehind(s, s[..q] + MaskFrom(s, marks, q), p, q, v, MaskFrom(s, marks, e));
    }
  }

  /** The last nested window whose mask changes length moves the end of the window around it. */
  lemma ShiftMoves(s: string, marks: seq<bool>, p: nat, q: nat)
    requires MarksBoundaries(s, marks) && Nested(s, marks, p, q) && NoShiftFrom(s, marks, q + 1)
    requires HasAt(Content(s, q)) && LastAt(Content(s, q)) != |MASK|
    ensures !WindowKept(s, p, Edited(s, marks, q))
    ensures Edited(s, marks, q).Done?
    ensures |Edited(s, marks, q).text| - |MaskFrom(s, marks, StopFrom(s, p))|
         == StopFrom(s, p) + |MASK| - LastAt(Content(s, q))
  {
    EditIsMask(s, marks, q);
    var e := StopFrom(s, p);
    StopIs(s, q, e);
    var v, rest := MaskOne(Content(s, q)), MaskFrom(s, marks, e);
    assert MaskFrom(s, marks, q) == v + rest;
    MaskHasNoStop(Content(s, q));
    MaskStartsAtStop(s, marks, e);
    Concat3(s[..q], v, rest);
    StopBehind(s, s[..q] + MaskFrom(s, marks, q), p, q, v, rest);
  }

  lemma MaskHasNoStop(c: string)
    requires forall k | 0 <= k < |c| :: !IsStop(c[k])
    ensures forall k | 0 <= k < |MaskOne(c)| :: !IsStop(MaskOne(c)[k])
  {
  }

  lemma LastShift(s: string, marks: seq<bool>, i: nat) returns (q: nat)
    requires |marks| == |s| + 1 && NoShiftFrom(s, marks, i) && !NoShiftFrom(s, marks, 0)
    ensures NoShiftFrom(s, marks, q + 1) && !NoShiftFrom(s, marks, q)
    decreases i
  {
    if NoShiftFrom(s, marks, i - 1) {
      q := LastShift(s, marks, i - 1);
    } else {
      q := i - 1;
    }
  }

  lemma NoShiftIsEnough(s: string, marks: seq<bool>)
    requires MarksBoundaries(s, marks) && NoShiftFrom(s, marks, 0)
    ensures EditsNeverShift(s, marks)
  {
    forall p, q | 0 <= p < q <= |s| && marks[p]
      ensures WindowKept(s, p, Edited(s, marks, q))
    {
      NoShiftKeeps(s, marks, p, q);
    }
  }

  lemma ShiftIsSeen(s: string, marks: seq<bool>)
    requires MarksBoundaries(s, marks) && !NoShiftFrom(s, marks, 0)
    ensures !EditsNeverShift(s, marks)
  {
    var q := LastShift(s, marks, |s| + 1);
    var p :| Nested(s, marks, p, q) && HasAt(Content(s, q)) && LastAt(Content(s, q)) != |MASK|;
    ShiftMoves(s, marks, p, q);
  }

  /**
   * The design relies on edits that never shift a pending window.  That holds exactly when every
   * window nested in another one has no userinfo or a userinfo as long as the mask.
   */
  lemma ShiftCondition(s: string)
    requires Valid(s)
    ensures EditsNeverShift(s, Marks(s)) <==> NoShift(s)
  {
    WindowsStartOnBoundaries(s);
    if NoShift(s) {
      NoShiftIsEnough(s, Marks(s));
    } else {
      ShiftIsSeen(s, Marks(s));
    }
  }

  /** Under that condition the program masks exactly the userinfo and keeps every other byte. */
  lemma EditsMaskEveryWindow(s: string)
    requires Valid(s) && NoShift(s)
    ensures MaskedByEdits(s) == Done(Masked(s))
  {
    WindowsStartOnBoundaries(s);
    EditIsMask(s, Marks(s), 0);
    assert s[..0] + Masked(s) == Masked(s);
  }

  // ---- nested windows at the end of the text make the program panic ----

  lemma {:induction false} EditedSame(s: string, marks: seq<bool>, p: nat, q: nat)
    requires |marks| == |s| + 1 && p <= q <= |s| + 1
    requires forall j | p <= j < q :: !marks[j]
    ensures Edited(s, marks, p) == Edited(s, marks, q)
    decreases q - p
  {
    if p < q {
      EditedSame(s, marks, p + 1, q);
    }
  }

  lemma {:induction false} EditedPanics(s: string, marks: seq<bool>, p: nat, q: nat)
    requires |marks| == |s| + 1 && p <= q <= |s| + 1 && Edited(s, marks, q) == Panic
    ensures Edited(s, marks, p) == Panic
    decreases q - p
  {
    if p < q {
      EditedPanics(s, marks, p + 1, q);
    }
  }

  /**
   * A window nested in the one before it panics the program when both run to the end of the
   * text and the nested userinfo is longer than the mask.
   */
  lemma NestedAtEndPanics(s: string, p: nat, q: nat)
    requires Valid(s) && Nested(s, Marks(s), p, q) && NoShiftFrom(s, Marks(s), q + 1)
    requires forall j | p < j < q :: !Marks(s)[j]
    requires StopFrom(s, p) == |s| && HasAt(Content(s, q)) && LastAt(Content(s, q)) > |MASK|
    ensures MaskedByEdits(s) == Panic
  {
    var marks := Marks(s);
    WindowsStartOnBoundaries(s);
    ShiftMoves(s, marks, p, q);
    EditedSame(s, marks, p + 1, q);
    assert Edited(s, marks, p) == Panic;
    EditedPanics(s, marks, 0, p);
  }

  lemma LastTwoWindowsPanic(s: string, p: nat, q: nat)
    requires Valid(s) && p < q <= |s| && WindowAt(s, p) && WindowAt(s, q)
    requires forall j | p < j <= |s| && j != q :: !WindowAt(s, j)
    requires forall k | p <= k < |s| :: !IsStop(s[k])
    requires HasAt(s[q..]) && LastAt(s[q..]) > |MASK|
    ensures MaskedByEdits(s) == Panic
  {
    StopIs(s, p, |s|);
    StopIs(s, q, |s|);
    var marks := Marks(s);
    LastMarks(s, p, q);
    LastContent(s, q);
    NoShiftAtEnd(s, marks, q + 1);
    NestedAtEndPanics(s, p, q);
  }

  lemma LastContent(s: string, q: nat)
    requires q <= |s| && StopFrom(s, q) == |s|
    ensures Content(s, q) == s[q..]
  {
  }

  lemma LastMarks(s: string, p: nat, q: nat)
    requires p < q <= |s| && WindowAt(s, p) && WindowAt(s, q)
    requires forall j | p < j <= |s| && j != q :: !WindowAt(s, j)
    ensures Marks(s)[p] && Marks(s)[q] && forall j | p < j <= |s| && j != q :: !Marks(s)[j]
  {
  }

  lemma NoShiftAtEnd(s: string, marks: seq<bool>, i: nat)
    requires |marks| == |s| + 1 && forall j | i <= j <= |s| :: !marks[j]
    ensures NoShiftFrom(s, marks, i)
  {
  }

  predicate Plain(u: string) {
    forall k | 0 <= k < |u| :: !IsSlash(u[k]) && !IsStop(u[k])
  }

  /** Text that starts with the window opener `//` and the nested opener `ab:\`. */
  predicate OpensTwice(s: string) {
    && |s| > 6 && s[0] == '/' && s[1] == '/' && s[2] == 'a' && s[3] == 'b' && s[4] == ':' && s[5] == '\\'
    && Plain(s[6..])
  }

  lemma TwoWindows(s: string)
    requires OpensTwice(s)
    ensures WindowAt(s, 2) && WindowAt(s, 6)
    ensures forall j | 2 < j <= |s| && j != 6 :: !WindowAt(s, j)
  {
    assert RunTo(s, 0) == 0 && RunTo(s, 1) == 1 && RunTo(s, 2) == 2;
    assert !BackslashRun(s, 0) && !BackslashRun(s, 1) && !BackslashRun(s, 2);
    assert s[6] == s[6..][0];
    assert RunTo(s, 5) == 0 && RunTo(s, 6) == 1 && BackslashRun(s, 6);
    assert NameTo(s, 2) == 0 && NameTo(s, 3) == 1 && NameTo(s, 4) == 2;
    assert SchemeLen(s, 5) == Some(2);
    forall j | 2 < j <= |s| && j != 6
      ensures !WindowAt(s, j)
    {
      assert j > 6 ==> s[j - 1] == s[6..][j - 7];
      NoSlashNoWindow(s, j);
    }
  }

  /** Every text `//ab:\user@host` with a userinfo longer than the mask panics the program. */
  lemma NestedFamilyPanics(s: string)
    requires Valid(s) && OpensTwice(s) && HasAt(s[6..]) && LastAt(s[6..]) > |MASK|
    ensures MaskedByEdits(s) == Panic
  {
    TwoWindows(s);
    forall k | 2 <= k < |s|
      ensures !IsStop(s[k])
    {
      assert k >= 6 ==> s[k] == s[6..][k - 6];
    }
    LastTwoWindowsPanic(s, 2, 6);
  }

  lemma NestedExamplePanics(s: string)
    requires s == "//ab:\\pass@h"
    ensures MaskedByEdits(s) == Panic
  {
    var content := s[6..];
    assert content == "pass@h";
    AsciiIsValid(s);
    LastAtIs(content, 4);
    NestedFamilyPanics(s);
  }

  // ---- masked text is stable ----

  predicate Clean(c: string) {
    HasAt(c) ==> c[..LastAt(c)] == MASK
  }

  /** Every window of the text is already masked. */
  ghost predicate Stable(s: string) {
    forall i | 0 <= i <= |s| && WindowAt(s, i) :: Clean(Content(s, i))
  }

  lemma MaskOneIsClean(c: string)
    ensures Clean(MaskOne(c))
    ensures forall k | 0 < k <= |MaskOne(c)| && IsSlash(MaskOne(c)[k - 1]) :: !HasAt(MaskOne(c)[k..])
  {
    if HasAt(c) {
      var m := MaskOne(c);
      LastAtIs(m, |MASK|);
      forall k | 0 < k <= |m| && IsSlash(m[k - 1])
        ensures !HasAt(m[k..])
      {
        assert k > |MASK|;
      }
    }
  }

  /**
   * The text before `i` in `t` and before `j` in `u` decides alike whether a window opens:
   * read backwards, the two agree to their starts or to an `@`.
   */
  predicate SameLead(t: string, i: nat, u: string, j: nat)
    requires i <= |t| && j <= |u|
    decreases i
  {
    if i == 0 || j == 0 then i == j
    else t[i - 1] == u[j - 1] && (t[i - 1] == '@' || SameLead(t, i - 1, u, j - 1))
  }

  lemma {:induction false} RunSame(t: string, i: nat, u: string, j: nat)
    requires i <= |t| && j <= |u| && SameLead(t, i, u, j)
    ensures RunTo(t, i) == RunTo(u, j)
    ensures BackslashRun(t, i) == BackslashRun(u, j)
    ensures SameLead(t, i - RunTo(t, i), u, j - RunTo(u, j))
    decreases i
  {
    if i > 0 && IsSlash(t[i - 1]) {
      RunSame(t, i - 1, u, j - 1);
    }
  }

  lemma {:induction false} NameSame(t: string, i: nat, u: string, j: nat)
    requires i <= |t| && j <= |u| && SameLead(t, i, u, j)
    ensures NameTo(t, i) == NameTo(u, j)
    ensures NameTo(t, i) > 0 ==> t[i - NameTo(t, i)] == u[j - NameTo(u, j)]
    decreases i
  {
    if i > 0 && IsSchemeChar(t[i - 1]) {
      NameSame(t, i - 1, u, j - 1);
    }
  }

  lemma SchemeSame(t: string, i: nat, u: string, j: nat)
    requires i <= |t| && j <= |u| && SameLead(t, i, u, j)
    ensures SchemeLen(t, i) == SchemeLen(u, j)
  {
    if i > 0 && t[i - 1] == ':' {
      NameSame(t, i - 1, u, j - 1);
    }
  }

  lemma LeadSame(t: string, i: nat, u: string, j: nat)
    requires i <= |t| && j <= |u| && SameLead(t, i, u, j)
    ensures LeadOf(t, i) == LeadOf(u, j)
  {
    RunSame(t, i, u, j);
    SchemeSame(t, i - RunTo(t, i), u, j - RunTo(u, j));
  }

  // ---- the credential gate is not opened by masking ----

  lemma GateCons(x: char, u: string)
    ensures CredentialGate([x] + u) <==> HasAt(u) && (x == ':' || CredentialGate(u))
  {
    LastAtCons(x, u);
    if HasAt(u) {
      assert ([x] + u)[..1 + LastAt(u)] == [x] + u[..LastAt(u)];
    }
  }

  lemma GateOfMask(c: string)
    ensures !CredentialGate(MaskOne(c))
  {
    if HasAt(c) {
      LastAtIs(MaskOne(c), |MASK|);
      assert MaskOne(c)[..|MASK|] == MASK;
    }
  }

  /** `v` is the masked form of the window text `c`: no stop, and its gate opens only if that of `c` does. */
  ghost predicate GateShrinks(v: string, c: string) {
    && (forall k | 0 <= k < |v| :: !IsStop(v[k]))
    && (HasAt(v) ==> HasAt(c))
    && (CredentialGate(v) ==> CredentialGate(c))
  }

  lemma GateShrinksCons(x: char, v: string, c: string)
    requires GateShrinks(v, c) && !IsStop(x)
    ensures GateShrinks([x] + v, [x] + c)
  {
    GateCons(x, v);
    GateCons(x, c);
    LastAtCons(x, v);
    LastAtCons(x, c);
  }

  lemma GateShrinksMask(c: string)
    requires forall k | 0 <= k < |c| :: !IsStop(c[k])
    ensures GateShrinks(MaskOne(c), c)
  {
    GateOfMask(c);
  }

  lemma {:induction false} MaskGate(s: string, marks: seq<bool>, i: nat, e: nat) returns (v: string)
    requires |marks| == |s| + 1 && i <= e <= |s| && e == StopFrom(s, i)
    ensures MaskFrom(s, marks, i) == v + MaskFrom(s, marks, e) && GateShrinks(v, s[i..e])
    decreases e - i
  {
    if i == e {
      v := [];
    } else if marks[i] {
      v := MaskOne(s[i..e]);
      MaskAtWindow(s, marks, i);
      GateShrinksMask(s[i..e]);
    } else {
      var u := MaskGate(s, marks, i + 1, e);
      v := [s[i]] + u;
      GateByte(s, marks, i, e, u);
    }
  }

  lemma GateByte(s: string, marks: seq<bool>, i: nat, e: nat, u: string)
    requires |marks| == |s| + 1 && i < e <= |s| && !marks[i] && !IsStop(s[i])
    requires MaskFrom(s, marks, i + 1) == u + MaskFrom(s, marks, e) && GateShrinks(u, s[i + 1..e])
    ensures MaskFrom(s, marks, i) == ([s[i]] + u) + MaskFrom(s, marks, e) && GateShrinks([s[i]] + u, s[i..e])
  {
    MaskAtByte(s, marks, i);
    GateShrinksCons(s[i], u, s[i + 1..e]);
    assert s[i..e] == [s[i]] + s[i + 1..e];
    Concat3([s[i]], u, MaskFrom(s, marks, e));
  }

  // ---- stability by one pass over the text ----

  lemma {:induction false} SameLeadRun(t: string, i: nat, u: string, j: nat, n: nat)
    requires i + n <= |t| && j + n <= |u| && t[i..i + n] == u[j..j + n]
    requires SameLead(t, i, u, j) || (n > 0 && t[i] == '@')
    ensures SameLead(t, i + n, u, j + n)
    decreases n
  {
    if n > 0 {
      assert t[i + n - 1] == t[i..i + n][n - 1] && u[j + n - 1] == u[j..j + n][n - 1];
      if !(n == 1 && t[i] == '@') {
        assert t[i..i + n - 1] == t[i..i + n][..n - 1] && u[j..j + n - 1] == u[j..j + n][..n - 1];
        SameLeadRun(t, i, u, j, n - 1);
      }
    }
  }

  /** Behind a masked window the text still decides alike. */
  lemma SameLeadMask(s: string, i: nat, e: nat, t: string, a: nat)
    requires i <= e <= |s| && a + |MaskOne(s[i..e])| <= |t| && SameLead(s, i, t, a)
    requires t[a..a + |MaskOne(s[i..e])|] == MaskOne(s[i..e])
    ensures SameLead(s, e, t, a + |MaskOne(s[i..e])|)
  {
    var c := s[i..e];
    if HasAt(c) {
      SameLeadFromAt(s, i + LastAt(c), e, t, a, MASK);
    } else {
      SameLeadRun(s, i, t, a, |c|);
    }
  }

  lemma SameLeadFromAt(s: string, k: nat, e: nat, t: string, a: nat, mask: string)
    requires k < e <= |s| && s[k] == '@' && a + |mask| + (e - k) <= |t|
    requires t[a..a + |mask| + (e - k)] == mask + s[k..e]
    ensures SameLead(s, e, t, a + |mask| + (e - k))
  {
    var n := e - k;
    assert t[a + |mask|..a + |mask| + n] == t[a..a + |mask| + n][|mask|..] == s[k..e];
    SameLeadRun(s, k, t, a + |mask|, n);
  }

  lemma ContentInside(t: string, a: nat, m: string, b: nat)
    requires a + |m| <= |t| && t[a..a + |m|] == m && a <= b <= a + |m|
    requires forall k | 0 <= k < |m| :: !IsStop(m[k])
    requires a + |m| == |t| || IsStop(t[a + |m|])
    ensures Content(t, b) == m[b - a..]
  {
    var e := a + |m|;
    assert forall k | a <= k < e :: t[k] == t[a..e][k - a];
    StopIs(t, b, e);
    assert t[b..e] == t[a..e][b - a..];
  }

  /** The windows that start inside the masked text of a window are clean. */
  lemma CleanInside(t: string, a: nat, c: string, b: nat)
    requires a + |MaskOne(c)| <= |t| && t[a..a + |MaskOne(c)|] == MaskOne(c)
    requires a <= b < a + |MaskOne(c)| && WindowAt(t, b)
    ensures Clean(MaskOne(c)[b - a..])
  {
    var m := MaskOne(c);
    MaskOneIsClean(c);
    if b > a {
      WindowFollowsSlash(t, b);
      assert t[b - 1] == t[a..a + |m|][b - a - 1];
    } else {
      assert m[0..] == m;
    }
  }

  lemma GateContent(t: string, a: nat, v: string, rest: string)
    requires a <= |t| && t[a..] == v + rest
    requires forall k | 0 <= k < |v| :: !IsStop(v[k])
    requires rest == [] || IsStop(rest[0])
    ensures Content(t, a) == v
  {
    var e := a + |v|;
    assert forall k | a <= k < |t| :: t[k] == (v + rest)[k - a];
    StopIs(t, a, e);
    assert t[a..e] == (v + rest)[..|v|];
  }

  lemma SplitTail(t: string, a: nat, m: string, rest: string)
    requires a <= |t| && t[a..] == m + rest
    ensures a + |m| <= |t| && t[a..a + |m|] == m && t[a + |m|..] == rest
    ensures rest != [] ==> a + |m| < |t| && t[a + |m|] == rest[0]
  {
    assert t[a..a + |m|] == t[a..][..|m|];
    assert t[a + |m|..] == t[a..][|m|..];
    assert rest != [] ==> t[a + |m|] == t[a..][|m|];
  }

  lemma AtWindow(s: string, marks: seq<bool>, i: nat, t: string, a: nat)
    requires |marks| == |s| + 1 && i < |s| && a <= |t| && SameLead(s, i, t, a)
    requires t[a..] == MaskFrom(s, marks, i) && marks[i] && StopFrom(s, i) > i
    ensures var m := MaskOne(Content(s, i));
            && a + |m| <= |t| && t[a..a + |m|] == m
            && t[a + |m|..] == MaskFrom(s, marks, StopFrom(s, i))
            && SameLead(s, StopFrom(s, i), t, a + |m|)
            && (a + |m| == |t| || IsStop(t[a + |m|]))
  {
    var e := StopFrom(s, i);
    SplitTail(t, a, MaskOne(Content(s, i)), MaskFrom(s, marks, e));
    SameLeadMask(s, i, e, t, a);
    MaskStartsAtStop(s, marks, e);
  }

  lemma AtByte(s: string, marks: seq<bool>, i: nat, t: string, a: nat)
    requires |marks| == |s| + 1 && i < |s| && a <= |t| && SameLead(s, i, t, a)
    requires t[a..] == MaskFrom(s, marks, i) && !(marks[i] && StopFrom(s, i) > i)
    ensures a < |t| && t[a] == s[i] && t[a + 1..] == MaskFrom(s, marks, i + 1)
    ensures SameLead(s, i + 1, t, a + 1)
  {
    MaskAtByte(s, marks, i);
    SplitTail(t, a, [s[i]], MaskFrom(s, marks, i + 1));
    assert t[a] == t[a..a + 1][0];
  }

  /** Byte `b` of `t` is the kept byte `j` of `s`. */
  ghost predicate KeptAt(s: string, marks: seq<bool>, j: nat, t: string, b: nat) {
    && |marks| == |s| + 1 && j < |s| && b < |t| && t[b] == s[j] && SameLead(s, j, t, b)
    && t[b..] == MaskFrom(s, marks, j) && !(marks[j] && StopFrom(s, j) > j)
  }

  /** Byte `b` of `t` lies in the masked text, from `a` on, of a window whose content was `c`. */
  ghost predicate MaskedAt(c: string, t: string, a: nat, b: nat) {
    var m := MaskOne(c);
    && a <= b < a + |m| <= |t| && t[a..a + |m|] == m
    && (a + |m| == |t| || IsStop(t[a + |m|]))
    && forall k | 0 <= k < |c| :: !IsStop(c[k])
  }

  ghost predicate Reads(s: string, marks: seq<bool>, i: nat, t: string, a: nat) {
    |marks| == |s| + 1 && i <= |s| && a <= |t| && SameLead(s, i, t, a) && t[a..] == MaskFrom(s, marks, i)
  }

  /** The bytes `a..next` of `t` come from position `i` of `s`. */
  ghost predicate Piece(s: string, marks: seq<bool>, i: nat, t: string, a: nat, next: nat)
    requires i <= |s|
  {
    forall b | a <= b < next :: KeptAt(s, marks, i, t, b) || MaskedAt(Content(s, i), t, a, b)
  }

  lemma WindowPiece(s: string, marks: seq<bool>, i: nat, t: string, a: nat)
    requires Reads(s, marks, i, t, a) && i < |s| && marks[i] && StopFrom(s, i) > i
    ensures Reads(s, marks, StopFrom(s, i), t, a + |MaskOne(Content(s, i))|)
    ensures Piece(s, marks, i, t, a, a + |MaskOne(Content(s, i))|)
  {
    AtWindow(s, marks, i, t, a);
    forall b | a <= b < a + |MaskOne(Content(s, i))|
      ensures MaskedAt(Content(s, i), t, a, b)
    {
    }
  }

  lemma BytePiece(s: string, marks: seq<bool>, i: nat, t: string, a: nat)
    requires Reads(s, marks, i, t, a) && i < |s| && !(marks[i] && StopFrom(s, i) > i)
    ensures Reads(s, marks, i + 1, t, a + 1)
    ensures Piece(s, marks, i, t, a, a + 1)
  {
    AtByte(s, marks, i, t, a);
    assert KeptAt(s, marks, i, t, a);
  }

  lemma NextPiece(s: string, marks: seq<bool>, i: nat, t: string, a: nat) returns (i': nat, a': nat)
    requires Reads(s, marks, i, t, a) && i < |s|
    ensures Reads(s, marks, i', t, a') && i < i' && Piece(s, marks, i, t, a, a')
  {
    if marks[i] && StopFrom(s, i) > i {
      WindowPiece(s, marks, i, t, a);
      i', a' := StopFrom(s, i), a + |MaskOne(Content(s, i))|;
    } else {
      BytePiece(s, marks, i, t, a);
      i', a' := i + 1, a + 1;
    }
  }

  lemma ReadsEnd(s: string, marks: seq<bool>, i: nat, t: string, a: nat)
    requires Reads(s, marks, i, t, a) && a < |t|
    ensures i < |s|
  {
    assert |t[a..]| > 0;
  }

  /** Every byte of a masked text is a kept byte or lies in the mask of a window. */
  lemma {:induction false} Origin(s: string, marks: seq<bool>, i: nat, t: string, a: nat, b: nat)
      returns (j: nat, start: nat, c: string)
    requires Reads(s, marks, i, t, a) && a <= b < |t|
    ensures KeptAt(s, marks, j, t, b) || MaskedAt(c, t, start, b)
    decreases |s| - i
  {
    ReadsEnd(s, marks, i, t, a);
    var i', a' := NextPiece(s, marks, i, t, a);
    if b < a' {
      j, start, c := i, a, Content(s, i);
    } else {
      j, start, c := Origin(s, marks, i', t, a', b);
    }
  }

  lemma MaskedAtIsClean(c: string, t: string, a: nat, b: nat)
    requires MaskedAt(c, t, a, b) && WindowAt(t, b)
    ensures Clean(Content(t, b))
  {
    ContentInside(t, a, MaskOne(c), b);
    CleanInside(t, a, c, b);
  }

  /** A window at a kept byte of the masked text was a window of the text. */
  lemma KeptWindow(s: string, j: nat, t: string, b: nat)
    requires j < |s| && b < |t| && t[b] == s[j] && SameLead(s, j, t, b) && t[b..] == MaskFrom(s, Marks(s), j)
    requires WindowAt(t, b)
    ensures WindowAt(s, j)
  {
    var e := StopFrom(s, j);
    LeadSame(s, j, t, b);
    var v := MaskGate(s, Marks(s), j, e);
    MaskStartsAtStop(s, Marks(s), e);
    GateContent(t, b, v, MaskFrom(s, Marks(s), e));
  }

  /** A kept byte starts no window in the masked text, or an empty one. */
  lemma KeptAtIsClean(s: string, j: nat, t: string, b: nat)
    requires KeptAt(s, Marks(s), j, t, b) && WindowAt(t, b)
    ensures Content(t, b) == []
  {
    KeptWindow(s, j, t, b);
    assert StopFrom(s, j) == j;
  }

  /** Masked text holds no window that is still to be masked, for every text. */
  lemma MaskedIsStable(s: string)
    ensures Stable(Masked(s))
  {
    var t := Masked(s);
    forall b | 0 <= b <= |t| && WindowAt(t, b)
      ensures Clean(Content(t, b))
    {
      if b < |t| {
        var j, start, c := Origin(s, Marks(s), 0, t, 0, b);
        if KeptAt(s, Marks(s), j, t, b) {
          KeptAtIsClean(s, j, t, b);
        } else {
          MaskedAtIsClean(c, t, start, b);
        }
      } else {
        assert Content(t, b) == [];
      }
    }
  }
}
