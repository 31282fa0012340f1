/**
 * Masking of the userinfo in every authority window of a raw URL.
 *
 * The program edits the text window by window, last window first.  `MaskFrom` is the
 * left-to-right meaning of that edit: each window's bytes before its last `@` become
 * `***` and every other byte is kept.
 */
module Redact {
  import opened Text
  import opened Utf8

  /** A range that no longer fits the edited text makes the program panic. */
  datatype Outcome = Panic | Done(text: string)

  datatype Window = Window(start: nat, end: nat)

  const MASK := "***"

  predicate IsSlash(c: char) {
    c == '/' || c == '\\'
  }

  predicate IsStop(c: char) {
    c == '/' || c == '?' || c == '#'
  }

  predicate IsAlpha(c: char) {
    'a' <= c <= 'z' || 'A' <= c <= 'Z'
  }

  predicate IsSchemeChar(c: char) {
    IsAlpha(c) || '0' <= c <= '9' || c == '+' || c == '.' || c == '-'
  }

  /** The first stop at or after `i`, or the end of the text. */
  function StopFrom(s: string, i: nat): (e: nat)
    requires i <= |s|
    ensures i <= e <= |s|
    ensures forall k | i <= k < e :: !IsStop(s[k])
    ensures e < |s| ==> IsStop(s[e])
    decreases |s| - i
  {
    if i == |s| || IsStop(s[i]) then i else StopFrom(s, i + 1)
  }

  predicate HasAt(c: string) {
    '@' in c
  }

  /** The last `@` among the first `n` bytes, or -1. */
  function LastAtBefore(c: string, n: nat): (k: int)
    requires n <= |c|
    ensures -1 <= k < n
    ensures k >= 0 ==> c[k] == '@'
    ensures forall j | k < j < n :: c[j] != '@'
  {
    if n == 0 then -1 else if c[n - 1] == '@' then n - 1 else LastAtBefore(c, n - 1)
  }

  function LastAt(c: string): (k: nat)
    requires HasAt(c)
    ensures k < |c| && c[k] == '@'
    ensures forall j | k < j < |c| :: c[j] != '@'
  {
    LastAtBefore(c, |c|)
  }

  // ---- where a window opens ----

  /** The length of the run of `/` and `\` that ends at `i`. */
  function RunTo(u: string, i: nat): (n: nat)
    requires i <= |u|
    ensures n <= i
    ensures forall k | i - n <= k < i :: IsSlash(u[k])
    ensures n < i ==> !IsSlash(u[i - n - 1])
  {
    if i == 0 || !IsSlash(u[i - 1]) then 0 else 1 + RunTo(u, i - 1)
  }

  /** Whether the run of `/` and `\` that ends at `i` holds a backslash. */
  predicate BackslashRun(u: string, i: nat)
    requires i <= |u|
  {
    i > 0 && IsSlash(u[i - 1]) && (u[i - 1] == '\\' || BackslashRun(u, i - 1))
  }

  /** The length of the run of scheme characters that ends at `i`. */
  function NameTo(u: string, i: nat): (n: nat)
    requires i <= |u|
    ensures n <= i
    ensures forall k | i - n <= k < i :: IsSchemeChar(u[k])
    ensures n < i ==> !IsSchemeChar(u[i - n - 1])
  {
    if i == 0 || !IsSchemeChar(u[i - 1]) then 0 else 1 + NameTo(u, i - 1)
  }

  /** The length of the scheme name when `u[..i]` ends with `scheme:`. */
  function SchemeLen(u: string, i: nat): Option<nat>
    requires i <= |u|
  {
    if i < 2 || u[i - 1] != ':' then None
    else
      var n := NameTo(u, i - 1);
      if n == 0 || !IsAlpha(u[i - 1 - n]) then None else Some(n)
  }

  /** What the text before a position says about a window opening there. */
  datatype Lead = Shut | NeedsCredential | Opens

  function LeadOf(u: string, i: nat): Lead
    requires i <= |u|
  {
    var n := RunTo(u, i);
    if n == 0 then Shut
    else if BackslashRun(u, i) then
      match SchemeLen(u, i - n)
      case None => Shut
      case Some(len) => if n >= 2 || len >= 2 then Opens else NeedsCredential
    else if n >= 2 then Opens
    else Shut
  }

  /** Window content that carries a `:` before its last `@`. */
  predicate CredentialGate(c: string) {
    HasAt(c) && ':' in c[..LastAt(c)]
  }

  function Content(s: string, i: nat): string
    requires i <= |s|
  {
    s[i..StopFrom(s, i)]
  }

  predicate WindowAt(s: string, i: nat)
    requires i <= |s|
  {
    && (i < |s| ==> !IsSlash(s[i]))
    && match LeadOf(s, i) {
         case Shut => false
         case NeedsCredential => CredentialGate(Content(s, i))
         case Opens => true
       }
  }

  function WindowsFrom(s: string, i: nat): seq<Window>
    requires i <= |s| + 1
    decreases |s| + 1 - i
  {
    if i == |s| + 1 then []
    else if WindowAt(s, i) then [Window(i, StopFrom(s, i))] + WindowsFrom(s, i + 1)
    else WindowsFrom(s, i + 1)
  }

  function Windows(s: string): seq<Window> {
    WindowsFrom(s, 0)
  }

  // ---- the scanners of the program ----

  method SchemePrefixLen(input: string, runStart: nat) returns (r: Option<nat>)
    requires runStart <= |input|
    ensures r == SchemeLen(input, runStart)
    ensures r.Some? ==>
              && 0 < r.value < runStart && input[runStart - 1] == ':' && IsAlpha(input[runStart - 1 - r.value])
              && (forall k | runStart - 1 - r.value <= k < runStart - 1 :: IsSchemeChar(input[k]))
              && (r.value + 1 < runStart ==> !IsSchemeChar(input[runStart - 2 - r.value]))
  {
    if runStart < 2 || input[runStart - 1] != ':' {
      return None;
    }
    var start := runStart - 1;
    while start > 0 && IsSchemeChar(input[start - 1])
      invariant 0 <= start <= runStart - 1
      invariant NameTo(input, runStart - 1) == runStart - 1 - start + NameTo(input, start)
      invariant forall k | start <= k < runStart - 1 :: IsSchemeChar(input[k])
    {
      start := start - 1;
    }
    var len := runStart - 1 - start;
    if len == 0 || !IsAlpha(input[start]) {
      return None;
    }
    r := Some(len);
  }

  lemma {:induction false} RunEnds(s: string, a: nat, i: nat)
    requires a <= i <= |s|
    requires forall k | a <= k < i :: IsSlash(s[k])
    requires a > 0 ==> !IsSlash(s[a - 1])
    ensures RunTo(s, i) == i - a
    ensures BackslashRun(s, i) <==> '\\' in s[a..i]
    decreases i
  {
    if a < i {
      RunEnds(s, a, i - 1);
      assert s[a..i] == s[a..i - 1] + [s[i - 1]];
    }
  }

  /** No window starts inside a run or after an ordinary character. */
  lemma {:induction false} NoWindowInside(s: string, a: nat, i: nat)
    requires a <= i <= |s|
    requires forall k | a <= k < i :: IsSlash(s[k])
    ensures WindowsFrom(s, a) == WindowsFrom(s, i)
    decreases i - a
  {
    if a < i {
      NoWindowInside(s, a + 1, i);
    }
  }

  predicate RunQualifies(s: string, a: nat, i: nat)
    requires a <= i <= |s|
  {
    if '\\' in s[a..i] then
      match SchemeLen(s, a)
      case None => false
      case Some(len) => i - a >= 2 || len >= 2 || (len == 1 && CredentialGate(Content(s, i)))
    else i - a >= 2
  }

  lemma RunOpens(s: string, a: nat, i: nat)
    requires a < i <= |s|
    requires forall k | a <= k < i :: IsSlash(s[k])
    requires a > 0 ==> !IsSlash(s[a - 1])
    requires i < |s| ==> !IsSlash(s[i])
    ensures WindowAt(s, i) <==> RunQualifies(s, a, i)
  {
    RunEnds(s, a, i);
  }

  /** Whether the run `input[runStart..i]` opens a window. */
  method RunOpensWindow(input: string, runStart: nat, i: nat, hasBackslash: bool) returns (opens: bool)
    requires runStart <= i <= |input| && (hasBackslash <==> '\\' in input[runStart..i])
    ensures opens <==> RunQualifies(input, runStart, i)
  {
    if hasBackslash {
      var scheme := SchemePrefixLen(input, runStart);
      opens := scheme.Some? &&
      (i - runStart >= 2 || scheme.value >= 2 || (scheme.value == 1 && CredentialGate(Content(input, i))));
    } else {
      opens := i - runStart >= 2;
    }
  }

  /** `ws` holds the windows that start at or before `i`. */
  ghost predicate Scanned(s: string, i: nat, ws: seq<Window>) {
    i <= |s| && ws + WindowsFrom(s, i + 1) == Windows(s)
  }

  lemma ScanPlain(s: string, i: nat, ws: seq<Window>)
    requires i < |s| && !IsSlash(s[i]) && Scanned(s, i, ws)
    ensures Scanned(s, i + 1, ws)
  {
    assert RunTo(s, i + 1) == 0;
  }

  lemma ScanRun(s: string, a: nat, i: nat, ws: seq<Window>)
    requires a < i <= |s| && Scanned(s, a, ws)
    requires WindowsFrom(s, a + 1) == WindowsFrom(s, i)
    ensures Scanned(s, i, if WindowAt(s, i) then ws + [Window(i, StopFrom(s, i))] else ws)
  {
    if WindowAt(s, i) {
      var w := Window(i, StopFrom(s, i));
      assert WindowsFrom(s, i) == [w] + WindowsFrom(s, i + 1);
      assert ws + ([w] + WindowsFrom(s, i + 1)) == (ws + [w]) + WindowsFrom(s, i + 1);
    }
  }

  method AuthorityWindows(input: string) returns (windows: seq<Window>)
    ensures windows == Windows(input)
  {
    windows := [];
    var i := 0;
    while i < |input|
      invariant i <= |input|
      invariant Scanned(input, i, windows)
      invariant 0 < i < |input| && IsSlash(input[i]) ==> !IsSlash(input[i - 1])
    {
      if !IsSlash(input[i]) {
        ScanPlain(input, i, windows);
        i := i + 1;
        continue;
      }
      var runStart := i;
      var hasBackslash := false;
      while i < |input| && IsSlash(input[i])
        invariant runStart <= i <= |input|
        invariant forall k | runStart <= k < i :: IsSlash(input[k])
        invariant hasBackslash <==> '\\' in input[runStart..i]
      {
        assert input[runStart..i + 1] == input[runStart..i] + [input[i]];
        hasBackslash := hasBackslash || input[i] == '\\';
        i := i + 1;
      }
      NoWindowInside(input, runStart + 1, i);
      ScanRun(input, runStart, i, windows);
      RunOpens(input, runStart, i);
      var opens := RunOpensWindow(input, runStart, i, hasBackslash);
      if opens {
        windows := windows + [Window(i, StopFrom(input, i))];
      }
    }
  }
}
