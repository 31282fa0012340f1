/**
 * How much of a path's userinfo the endpoint mask hides, compared with the string redactor.  The
 * endpoint masks up to the first `@` before the next `/`; the redactor masks every window up to its
 * last `@`, and a window also ends at `?` and `#` and does not open behind a backslash.
 */
module PathMask {
  import opened Text
  import opened Redact
  import opened RedactMask
  import opened RedactStable
  import opened EndpointUri

  // ---- texts the redactor leaves alone ----

  /** Every window from `e` on is already masked. */
  ghost predicate CleanFrom(s: string, e: nat) {
    forall i | e <= i <= |s| && WindowAt(s, i) :: Clean(Content(s, i))
  }

  lemma CleanIsFixed(c: string)
    ensures Clean(c) <==> MaskOne(c) == c
  {
    if HasAt(c) {
      var k := LastAt(c);
      if Clean(c) {
        assert c == c[..k] + c[k..];
      }
      if MaskOne(c) == c {
        assert |MaskOne(c)| == |MASK| + |c| - k;
        assert c[..k] == MaskOne(c)[..|MASK|];
      }
    }
  }

  /** Stop-free texts followed by nothing or by a stop are told apart by their concatenations. */
  lemma SameUpToStop(x: string, r: string, y: string, q: string)
    requires (forall k | 0 <= k < |x| :: !IsStop(x[k])) && (forall k | 0 <= k < |y| :: !IsStop(y[k]))
    requires (r == [] <==> q == []) && (r != [] ==> IsStop(r[0]) && IsStop(q[0]))
    ensures x + r == y + q <==> x == y && r == q
  {
    if x + r == y + q {
      var all := x + r;
      assert all == y + q;
      assert r != [] ==> all[|x|] == r[0];
      assert q != [] ==> all[|y|] == q[0];
      assert forall k | 0 <= k < |x| :: all[k] == x[k];
      assert forall k | 0 <= k < |y| :: all[k] == y[k];
      assert |x| == |y|;
      assert x == all[..|x|] && r == all[|x|..];
    }
  }

  /** A window nested in a clean one is clean. */
  lemma NestedIsClean(s: string, i: nat, j: nat)
    requires i <= |s| && i < j < StopFrom(s, i) && Clean(Content(s, i)) && WindowAt(s, j)
    ensures Clean(Content(s, j))
  {
    var c, e := Content(s, i), StopFrom(s, i);
    WindowFollowsSlash(s, j);
    StopIs(s, j, e);
    assert s[j - 1] == c[j - 1 - i];
    if HasAt(c) {
      var d := Content(s, j);
      assert forall k | 0 <= k < |MASK| :: c[k] == c[..LastAt(c)][k] == MASK[k];
      assert j - i > |MASK|;
      assert forall k | 0 <= k < |d| :: d[k] == c[j - i + k];
      assert !HasAt(d);
    } else {
      assert forall k | 0 <= k < |Content(s, j)| :: Content(s, j)[k] == c[j - i + k];
    }
  }

  lemma CleanFromWindow(s: string, i: nat)
    requires i < |s| && WindowAt(s, i) && StopFrom(s, i) > i
    ensures CleanFrom(s, i) <==> Clean(Content(s, i)) && CleanFrom(s, StopFrom(s, i))
  {
    if Clean(Content(s, i)) && CleanFrom(s, StopFrom(s, i)) {
      forall j | i <= j <= |s| && WindowAt(s, j)
        ensures Clean(Content(s, j))
      {
        if i < j < StopFrom(s, i) {
          NestedIsClean(s, i, j);
        }
      }
    }
  }

  lemma CleanFromByte(s: string, i: nat)
    requires i < |s| && (WindowAt(s, i) ==> StopFrom(s, i) == i)
    ensures CleanFrom(s, i) <==> CleanFrom(s, i + 1)
  {
  }

  lemma TailAfter(s: string, i: nat, e: nat)
    requires i <= e <= |s|
    ensures s[i..] == s[i..e] + s[e..]
  {
  }

  lemma FixedAtWindow(s: string, i: nat)
    requires i < |s| && WindowAt(s, i) && StopFrom(s, i) > i
    ensures MaskFrom(s, Marks(s), i) == s[i..] <==>
            Clean(Content(s, i)) && MaskFrom(s, Marks(s), StopFrom(s, i)) == s[StopFrom(s, i)..]
  {
    var c, e := Content(s, i), StopFrom(s, i);
    MaskAtWindow(s, Marks(s), i);
    MaskStartsAtStop(s, Marks(s), e);
    MaskHasNoStop(c);
    TailAfter(s, i, e);
    SameUpToStop(MaskOne(c), MaskFrom(s, Marks(s), e), c, s[e..]);
    CleanIsFixed(c);
  }

  lemma FixedAtByte(s: string, i: nat)
    requires i < |s| && (WindowAt(s, i) ==> StopFrom(s, i) == i)
    ensures MaskFrom(s, Marks(s), i) == s[i..] <==> MaskFrom(s, Marks(s), i + 1) == s[i + 1..]
  {
    var rest := MaskFrom(s, Marks(s), i + 1);
    MaskAtByte(s, Marks(s), i);
    TailAfter(s, i, i + 1);
    assert s[i..i + 1] == [s[i]];
    assert ([s[i]] + rest)[1..] == rest && s[i..][1..] == s[i + 1..];
  }

  /** The redactor leaves a text alone from `i` on exactly when its windows from there on are clean. */
  lemma {:induction false} FixedMeansClean(s: string, i: nat)
    requires i <= |s|
    ensures MaskFrom(s, Marks(s), i) == s[i..] <==> CleanFrom(s, i)
    decreases |s| - i
  {
    if i == |s| {
    } else if WindowAt(s, i) && StopFrom(s, i) > i {
      FixedMeansClean(s, StopFrom(s, i));
      FixedAtWindow(s, i);
      CleanFromWindow(s, i);
    } else {
      FixedMeansClean(s, i + 1);
      FixedAtByte(s, i);
      CleanFromByte(s, i);
    }
  }

  // ---- the two masks on one path ----

  predicate HasAuthority(path: string) {
    |path| >= 2 && path[0] == '/' && path[1] == '/'
  }

  function Authority(path: string): string
    requires HasAuthority(path)
  {
    Head(path[2..], '/')
  }

  /** The position of the first `@` of the authority. */
  function FirstAt(path: string): (k: nat)
    requires HasAuthority(path) && '@' in Authority(path)
    ensures 2 <= k < |path| && path[k] == '@'
    ensures forall j | 2 <= j < k :: path[j] != '@' && path[j] != '/'
  {
    var a := Authority(path);
    AuthorityBytes(path);
    IndexOfFound(a, '@');
    2 + IndexOf(a, '@')
  }

  lemma IndexOfFound(a: string, c: char)
    requires c in a
    ensures IndexOf(a, c) < |a|
  {
  }

  lemma AuthorityBytes(path: string)
    requires HasAuthority(path)
    ensures 2 + |Authority(path)| <= |path|
    ensures forall j | 0 <= j < |Authority(path)| :: Authority(path)[j] == path[2 + j]
  {
  }

  /** What the endpoint mask gives when there is something to mask. */
  lemma EndpointMask(path: string)
    requires HasAuthority(path) && '@' in Authority(path)
    ensures MaskUserinfo(path) == "//" + (MASK + path[FirstAt(path)..])
  {
    var rest := path[2..];
    var a := Authority(path);
    var k := IndexOf(a, '@');
    IndexOfFound(a, '@');
    TailOfHead(path, |a|, k);
    Concat3(MASK, a[k..], rest[|a|..]);
  }

  lemma TailOfHead(path: string, n: nat, k: nat)
    requires |path| >= 2 && k <= n <= |path| - 2
    ensures path[2..][..n][k..] + path[2..][n..] == path[2 + k..]
  {
  }

  /** The first two bytes open no window before them. */
  lemma StartIsKept(path: string)
    requires HasAuthority(path)
    ensures MaskFrom(path, Marks(path), 0) == "//" + MaskFrom(path, Marks(path), 2)
  {
    NoSlashNoWindow(path, 0);
    assert !WindowAt(path, 1);
    MaskAtByte(path, Marks(path), 0);
    MaskAtByte(path, Marks(path), 1);
    Concat3([path[0]], [path[1]], MaskFrom(path, Marks(path), 2));
    assert [path[0]] + [path[1]] == "//";
  }

  lemma WindowOpens(path: string)
    requires HasAuthority(path) && |path| > 2 && !IsSlash(path[2])
    ensures WindowAt(path, 2)
  {
    assert RunTo(path, 0) == 0 && RunTo(path, 1) == 1 && RunTo(path, 2) == 2;
    assert !BackslashRun(path, 0) && !BackslashRun(path, 1) && !BackslashRun(path, 2);
  }

  lemma SamePrefix(a: string, b: string)
    ensures "//" + a == "//" + b <==> a == b
  {
    assert ("//" + a)[2..] == a && ("//" + b)[2..] == b;
  }

  /** A second `@` in a text. */
  predicate HasSecondAt(c: string) {
    '@' in c && '@' in c[IndexOf(c, '@') + 1..]
  }

  lemma FirstIsLast(c: string)
    requires '@' in c
    ensures IndexOf(c, '@') < |c|
    ensures HasSecondAt(c) <==> IndexOf(c, '@') != LastAt(c)
    ensures MASK + c[IndexOf(c, '@')..] == MaskOne(c) <==> !HasSecondAt(c)
  {
    var k := IndexOf(c, '@');
    IndexOfFound(c, '@');
    if HasSecondAt(c) {
      var j :| 0 <= j < |c[k + 1..]| && c[k + 1..][j] == '@';
      assert c[k + 1 + j] == '@';
      assert |MASK + c[k..]| != |MaskOne(c)|;
    } else {
      LastAtIs(c, k);
    }
  }

  lemma CompareParts(left: string, x: string, r: string, right: string, y: string, q: string)
    requires left == x + r && right == y + q
    requires NoStop(x) && NoStop(y) && (r == [] <==> q == []) && (r != [] ==> IsStop(r[0]) && IsStop(q[0]))
    ensures left == right <==> x == y && r == q
  {
    SameUpToStop(x, r, y, q);
  }

  predicate NoStop(c: string) {
    forall k | 0 <= k < |c| :: !IsStop(c[k])
  }

  lemma NoStopInside(c: string)
    requires NoStop(c) && '@' in c
    ensures NoStop(MASK + c[IndexOf(c, '@')..]) && NoStop(MaskOne(c))
  {
    MaskHasNoStop(c);
  }

  lemma ContentNoStop(s: string, i: nat)
    requires i <= |s|
    ensures NoStop(Content(s, i))
  {
  }

  /** What stands behind a window, in the text and in its mask: nothing, or the same stop first. */
  lemma BehindStop(s: string, e: nat)
    requires e <= |s| && (e < |s| ==> IsStop(s[e]))
    ensures var r, q := s[e..], MaskFrom(s, Marks(s), e);
            (r == [] <==> q == []) && (r != [] ==> IsStop(r[0]) && IsStop(q[0]))
  {
    MaskStartsAtStop(s, Marks(s), e);
  }

  /** With the first `@` inside the window, the masks agree exactly when it is the last one and the rest is clean. */
  lemma InsideWindow(path: string)
    requires HasAuthority(path) && '@' in Authority(path) && WindowAt(path, 2) && '@' in Content(path, 2)
    ensures MASK + path[FirstAt(path)..] == MaskFrom(path, Marks(path), 2) <==>
            !HasSecondAt(Content(path, 2)) && CleanFrom(path, StopFrom(path, 2))
  {
    var c, e := Content(path, 2), StopFrom(path, 2);
    FirstOfContent(path);
    InsideParts(path, c, e, IndexOf(c, '@'), MaskFrom(path, Marks(path), 2), MaskFrom(path, Marks(path), e));
    FixedMeansClean(path, e);
  }

  lemma InsideParts(path: string, c: string, e: nat, k: nat, masked: string, rest: string)
    requires 2 < e <= |path| && c == path[2..e] && WindowAt(path, 2) && StopFrom(path, 2) == e
    requires '@' in c && k == IndexOf(c, '@')
    requires masked == MaskFrom(path, Marks(path), 2) && rest == MaskFrom(path, Marks(path), e)
    ensures 2 + k <= |path| && (MASK + path[2 + k..] == masked <==> !HasSecondAt(c) && rest == path[e..])
  {
    FirstIsLast(c);
    EndpointParts(path, c, e);
    MaskAtWindow(path, Marks(path), 2);
    ContentNoStop(path, 2);
    NoStopInside(c);
    BehindStop(path, e);
    CompareParts(MASK + path[2 + k..], MASK + c[k..], path[e..], masked, MaskOne(c), rest);
  }

  lemma EndpointParts(path: string, c: string, e: nat)
    requires 2 <= e <= |path| && c == path[2..e] && '@' in c
    ensures var k := IndexOf(c, '@');
            k < |c| && MASK + path[2 + k..] == (MASK + c[k..]) + path[e..]
  {
    var k := IndexOf(c, '@');
    IndexOfFound(c, '@');
    TailAfter(path, 2 + k, e);
    assert path[2 + k..e] == c[k..];
    Concat3(MASK, c[k..], path[e..]);
  }

  lemma FirstOfContent(path: string)
    requires HasAuthority(path) && '@' in Authority(path) && '@' in Content(path, 2)
    ensures FirstAt(path) == 2 + IndexOf(Content(path, 2), '@') && StopFrom(path, 2) > 2
  {
    var c := Content(path, 2);
    var k := IndexOf(c, '@');
    IndexOfFound(c, '@');
    assert forall j | 0 <= j < |c| :: c[j] == path[2 + j];
    assert path[2 + k] == '@';
  }

  /** With the first `@` behind the window, the masks differ at the end of the window or at the `@`. */
  lemma BehindWindow(path: string)
    requires HasAuthority(path) && '@' in Authority(path) && WindowAt(path, 2) && '@' !in Content(path, 2)
    ensures MASK + path[FirstAt(path)..] != MaskFrom(path, Marks(path), 2)
  {
    var c, e, f := Content(path, 2), StopFrom(path, 2), FirstAt(path);
    BehindContent(path);
    ShownWindow(path);
    if |c| > 3 {
      DifferAt(MASK + path[f..], MaskFrom(path, Marks(path), 2), 3);
    } else {
      DifferAt(MASK + path[f..], MaskFrom(path, Marks(path), 2), |c|);
    }
  }

  lemma DifferAt(x: string, y: string, k: nat)
    requires k < |x| && k < |y| && x[k] != y[k]
    ensures x != y
  {
  }

  lemma BehindContent(path: string)
    requires HasAuthority(path) && '@' in Authority(path) && '@' !in Content(path, 2)
    ensures StopFrom(path, 2) < FirstAt(path)
  {
    var c := Content(path, 2);
    assert forall j | 0 <= j < |c| :: c[j] == path[2 + j];
    assert path[FirstAt(path)] == '@';
  }

  /** Without an `@` the window and the stop behind it are shown. */
  lemma ShownWindow(path: string)
    requires HasAuthority(path) && WindowAt(path, 2) && '@' !in Content(path, 2) && StopFrom(path, 2) < |path|
    ensures var c, y := Content(path, 2), MaskFrom(path, Marks(path), 2);
            && |c| < |y| && y[|c|] == path[StopFrom(path, 2)] && forall j | 0 <= j < |c| :: y[j] == c[j]
  {
    var c, e := Content(path, 2), StopFrom(path, 2);
    MaskStartsAtStop(path, Marks(path), e);
    if e > 2 {
      MaskAtWindow(path, Marks(path), 2);
    }
  }

  /** A backslash behind the opening slashes is kept: no window opens there. */
  lemma BehindBackslash(path: string)
    requires HasAuthority(path) && '@' in Authority(path) && path[2] == '\\'
    ensures MASK + path[FirstAt(path)..] != MaskFrom(path, Marks(path), 2)
  {
    MaskAtByte(path, Marks(path), 2);
    assert MaskFrom(path, Marks(path), 2)[0] == '\\';
    assert (MASK + path[FirstAt(path)..])[0] == '*';
  }

  /** The endpoint mask has something to do. */
  predicate Masks(path: string) {
    HasAuthority(path) && '@' in Authority(path)
  }

  /**
   * Exactly when the endpoint mask of a path is what the string redactor would show, for every path.
   * Where the endpoint masks something: no backslash right behind the slashes, the first `@` before
   * the next `?` or `#` and the only one there, and nothing left to mask behind.  Where it masks
   * nothing: nothing to mask at all.
   */
  lemma PathMaskVerdict(path: string)
    ensures MaskUserinfo(path) == Masked(path) <==>
            if Masks(path) then
              && path[2] != '\\' && '@' in Content(path, 2) && !HasSecondAt(Content(path, 2))
              && CleanFrom(path, StopFrom(path, 2))
            else CleanFrom(path, 0)
  {
    if Masks(path) {
      MaskedPathVerdict(path);
    } else {
      NothingToMask(path);
      FixedMeansClean(path, 0);
      assert path[0..] == path;
    }
  }

  lemma NothingToMask(path: string)
    requires !Masks(path)
    ensures MaskUserinfo(path) == path
  {
    if HasAuthority(path) {
      var rest := path[2..];
      IndexOfAbsent(Authority(path), '@');
      assert rest == Authority(path) + rest[IndexOf(rest, '/')..];
      assert path == "//" + rest;
    }
  }

  lemma MaskedPathVerdict(path: string)
    requires Masks(path)
    ensures MaskUserinfo(path) == Masked(path) <==>
            && path[2] != '\\' && '@' in Content(path, 2) && !HasSecondAt(Content(path, 2))
            && CleanFrom(path, StopFrom(path, 2))
  {
    EndpointMask(path);
    StartIsKept(path);
    SamePrefix(MASK + path[FirstAt(path)..], MaskFrom(path, Marks(path), 2));
    AuthorityStart(path);
    if path[2] == '\\' {
      BehindBackslash(path);
    } else {
      WindowOpens(path);
      if '@' in Content(path, 2) {
        InsideWindow(path);
      } else {
        BehindWindow(path);
      }
    }
  }

  lemma AuthorityStart(path: string)
    requires Masks(path)
    ensures path[2] != '/'
  {
    AuthorityBytes(path);
    assert Authority(path)[0] == path[2];
  }

  /** Two `@`: the redactor hides everything before the last one, the endpoint leaves `b` in view. */
  lemma SecondAtStaysInView(path: string)
    requires path == "//a@b@h"
    ensures MaskUserinfo(path) == "//***@b@h" && Masked(path) == "//***@h"
  {
    EndpointExample(path);
    RedactorExample(path);
  }

  lemma EndpointExample(path: string)
    requires path == "//a@b@h"
    ensures MaskUserinfo(path) == "//***@b@h"
  {
    var rest := path[2..];
    assert rest == "a@b@h";
    IndexOfAbsent(rest, '/');
    assert Authority(path) == rest;
    assert IndexOf(rest, '@') == 1;
    EndpointMask(path);
    assert path[3..] == "@b@h";
  }

  lemma RedactorExample(path: string)
    requires path == "//a@b@h"
    ensures Masked(path) == "//***@h"
  {
    StopIs(path, 2, 7);
    var c := Content(path, 2);
    assert c == "a@b@h";
    LastAtIs(c, 3);
    WindowOpens(path);
    StartIsKept(path);
    MaskAtWindow(path, Marks(path), 2);
    assert c[3..] == "@h";
    assert MaskFrom(path, Marks(path), 7) == [];
  }

  /** A second `@` behind a `#` is no userinfo for either: the masks agree. */
  lemma SecondAtBehindFragment(path: string)
    requires path == "//u@h#a@b"
    ensures MaskUserinfo(path) == Masked(path)
  {
    StopIs(path, 2, 5);
    var c := Content(path, 2);
    assert c == "u@h";
    LastAtIs(c, 1);
    FirstIsLast(c);
    assert IndexOf(c, '@') == 1;
    forall i | 5 <= i <= |path|
      ensures !WindowAt(path, i)
    {
      NoSlashNoWindow(path, i);
    }
    assert path[2..] == "u@h#a@b";
    IndexOfAbsent(path[2..], '/');
    assert Authority(path)[1] == '@';
    PathMaskVerdict(path);
  }
}
