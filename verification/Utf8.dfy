/**
 * UTF-8 byte strings.  A Rust `str` is modelled by its bytes, each byte written as the
 * `char` of the same number, so a byte offset is a sequence index.
 */
module Utf8 {

  predicate IsAscii(b: char) {
    b < '\U{80}'
  }

  predicate IsContinuation(b: char) {
    '\U{80}' <= b <= '\U{BF}'
  }

  /** Bytes of the character at the front of `s`, or 0 when no character starts there. */
  function CharLen(s: string): (n: nat)
    requires s != []
    ensures n <= |s|
  {
    var b := s[0];
    if IsAscii(b) then 1
    else if '\U{C2}' <= b <= '\U{DF}' && |s| >= 2 && IsContinuation(s[1]) then 2
    else if '\U{E0}' <= b <= '\U{EF}' && |s| >= 3 && IsContinuation(s[1]) && IsContinuation(s[2])
            && (b == '\U{E0}' ==> s[1] >= '\U{A0}') && (b == '\U{ED}' ==> s[1] <= '\U{9F}') then 3
    else if '\U{F0}' <= b <= '\U{F4}' && |s| >= 4 && IsContinuation(s[1]) && IsContinuation(s[2]) && IsContinuation(s[3])
            && (b == '\U{F0}' ==> s[1] >= '\U{90}') && (b == '\U{F4}' ==> s[1] <= '\U{8F}') then 4
    else 0
  }

  predicate Valid(s: string) {
    s == [] || (CharLen(s) > 0 && Valid(s[CharLen(s)..]))
  }

  predicate Boundary(s: string, i: nat)
    requires i <= |s|
  {
    i == 0 || i == |s| || !IsContinuation(s[i])
  }

  /** The length of the first character depends on its own bytes only. */
  lemma SameFirstChar(s: string, t: string)
    requires s != [] && CharLen(s) > 0 && CharLen(s) <= |t|
    requires forall j | 0 <= j < CharLen(s) :: t[j] == s[j]
    ensures t != [] && CharLen(t) == CharLen(s)
  {
  }

  lemma ValidStep(s: string, n: nat)
    requires s != [] && 0 < n == CharLen(s) && Valid(s[n..])
    ensures Valid(s)
  {
  }

  /** A valid string cut on a boundary gives two valid strings. */
  lemma {:induction false} CutIsValid(s: string, i: nat)
    requires Valid(s) && i <= |s| && Boundary(s, i)
    ensures Valid(s[..i]) && Valid(s[i..])
    decreases |s|
  {
    if i == 0 {
      assert s[i..] == s;
    } else {
      var n := CharLen(s);
      assert i >= n;
      CutIsValid(s[n..], i - n);
      assert s[..i][n..] == s[n..][..i - n];
      assert s[n..][i - n..] == s[i..];
      SameFirstChar(s, s[..i]);
      ValidStep(s[..i], n);
    }
  }

  lemma {:induction false} JoinIsValid(a: string, b: string)
    requires Valid(a) && Valid(b)
    ensures Valid(a + b)
    decreases |a|
  {
    if a == [] {
      assert a + b == b;
    } else {
      var n := CharLen(a);
      JoinIsValid(a[n..], b);
      assert (a + b)[n..] == a[n..] + b;
      SameFirstChar(a, a + b);
      ValidStep(a + b, n);
    }
  }

  lemma {:induction false} AsciiIsValid(s: string)
    requires forall i | 0 <= i < |s| :: IsAscii(s[i])
    ensures Valid(s)
  {
    if s != [] {
      AsciiIsValid(s[1..]);
    }
  }

  /** The byte after an ASCII byte starts a character. */
  lemma {:induction false} BoundaryAfterAscii(s: string, i: nat)
    requires Valid(s) && 0 < i <= |s| && IsAscii(s[i - 1])
    ensures Boundary(s, i)
    decreases |s|
  {
    var n := CharLen(s);
    if i > n {
      BoundaryAfterAscii(s[n..], i - n);
    } else {
      assert i == 1 && n == 1;
      if 1 < |s| {
        assert CharLen(s[1..]) > 0;
      }
    }
  }

  // ---- truncation ----

  /** The largest boundary of `s` that is at most `max`. */
  function Cut(s: string, max: nat): (k: nat)
    requires max <= |s|
    ensures k <= max && Boundary(s, k)
    ensures forall j | k < j <= max :: !Boundary(s, j)
  {
    if Boundary(s, max) then max else Cut(s, max - 1)
  }

  function Truncate(s: string, max: nat): (t: string)
    ensures |t| <= max && t <= s
    ensures |s| <= max ==> t == s
  {
    if |s| <= max then s else s[..Cut(s, max)]
  }

  /** Walk the cut down to a boundary, then truncate. */
  method TruncateUtf8Safe(s: string, max: nat) returns (t: string)
    ensures t == Truncate(s, max)
    ensures t <= s && |t| <= max && Boundary(s, |t|)
    ensures forall k | |t| < k <= |s| && k <= max :: !Boundary(s, k)
  {
    if |s| <= max {
      return s;
    }
    var cut: nat := max;
    while !Boundary(s, cut)
      invariant 0 <= cut <= max
      invariant Cut(s, max) == Cut(s, cut)
      invariant forall k | cut < k <= max :: !Boundary(s, k)
      decreases cut
    {
      cut := cut - 1;
    }
    t := s[..cut];
  }

  /** A truncated valid string is valid and loses fewer than four bytes of its allowance. */
  lemma TruncateIsValid(s: string, max: nat)
    requires Valid(s)
    ensures Valid(Truncate(s, max))
    ensures |s| > max ==> max <= |Truncate(s, max)| + 3
  {
    if |s| > max {
      CutIsValid(s, Cut(s, max));
      CutLosesAtMostThree(s, max);
    }
  }

  lemma {:induction false} CutLosesAtMostThree(s: string, max: nat)
    requires Valid(s) && max <= |s|
    ensures max <= Cut(s, max) + 3
    decreases |s|
  {
    if max > 0 {
      var n := CharLen(s);
      if max < n {
        assert Boundary(s, 0);
      } else {
        CutLosesAtMostThree(s[n..], max - n);
        assert Boundary(s, n + Cut(s[n..], max - n)) by {
          if n < |s| {
            assert CharLen(s[n..]) > 0;
          }
        }
      }
    }
  }
}
