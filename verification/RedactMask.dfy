/**
 * The mask itself: the program's reverse-order edit, its left-to-right meaning, the exact
 * condition under which no edit moves a window that is still to be edited, and the
 * stability of masked text.
 */
module RedactMask {
  import opened Utf8
  import opened Redact

  /** Which positions of a text start a window. */
  ghost predicate IsMarking(s: string, marks: seq<bool>) {
    |marks| == |s| + 1 && forall i | 0 <= i <= |s| :: marks[i] <==> WindowAt(s, i)
  }

  function Marks(s: string): (marks: seq<bool>)
    ensures IsMarking(s, marks)
  {
    seq(|s| + 1, i requires 0 <= i <= |s| => WindowAt(s, i))
  }

  // ---- the left-to-right meaning ----

  function MaskOne(c: string): string {
    if HasAt(c) then MASK + c[LastAt(c)..] else c
  }

  /** The masked form of `s[i..]` for the windows that start at the marked positions. */
  function MaskFrom(s: string, marks: seq<bool>, i: nat): string
    requires |marks| == |s| + 1 && i <= |s|
    decreases |s| - i
  {
    if i == |s| then []
    else if marks[i] && StopFrom(s, i) > i then MaskOne(Content(s, i)) + MaskFrom(s, marks, StopFrom(s, i))
    else [s[i]] + MaskFrom(s, marks, i + 1)
  }

  lemma MaskAtByte(s: string, ms: seq<bool>, i: nat)
    requires |ms| == |s| + 1 && i < |s| && !(ms[i] && StopFrom(s, i) > i)
    ensures MaskFrom(s, ms, i) == [s[i]] + MaskFrom(s, ms, i + 1)
  {
  }

  lemma MaskAtWindow(s: string, ms: seq<bool>, i: nat)
    requires |ms| == |s| + 1 && i < |s| && ms[i] && StopFrom(s, i) > i
    ensures MaskFrom(s, ms, i) == MaskOne(Content(s, i)) + MaskFrom(s, ms, StopFrom(s, i))
  {
  }

  function Masked(s: string): string {
    MaskFrom(s, Marks(s), 0)
  }

  // ---- the edit of the program ----

  function Edit(out: string, w: Window): Outcome {
    if w.start > w.end || w.end > |out| || !Boundary(out, w.start) || !Boundary(out, w.end) then Panic
    else
      var window := out[w.start..w.end];
      if HasAt(window) then Done(out[..w.start] + MASK + out[w.start + LastAt(window)..]) else Done(out)
  }

  /** Edit the windows `ws` of `s`, last one first. */
  function EditAll(s: string, ws: seq<Window>): Outcome {
    if ws == [] then Done(s)
    else
      match EditAll(s, ws[1..])
      case Panic => Panic
      case Done(out) => Edit(out, ws[0])
  }

  /** The text once every window that starts at `p` or later has been edited. */
  function Edited(s: string, marks: seq<bool>, p: nat): Outcome
    requires |marks| == |s| + 1 && p <= |s| + 1
    decreases |s| + 1 - p
  {
    if p == |s| + 1 then Done(s)
    else
      match Edited(s, marks, p + 1)
      case Panic => Panic
      case Done(out) => if marks[p] then Edit(out, Window(p, StopFrom(s, p))) else Done(out)
  }

  /** What the program computes. */
  function MaskedByEdits(s: string): Outcome {
    Edited(s, Marks(s), 0)
  }

  lemma {:induction false} EditedIsEditAll(s: string, marks: seq<bool>, p: nat)
    requires IsMarking(s, marks) && p <= |s| + 1
    ensures Edited(s, marks, p) == EditAll(s, WindowsFrom(s, p))
    decreases |s| + 1 - p
  {
    if p <= |s| {
      EditedIsEditAll(s, marks, p + 1);
      if marks[p] {
        assert WindowsFrom(s, p)[1..] == WindowsFrom(s, p + 1);
      }
    }
  }

  lemma {:induction false} PanicStays(s: string, ws: seq<Window>, k: nat)
    requires k <= |ws| && EditAll(s, ws[k..]) == Panic
    ensures EditAll(s, ws) == Panic
  {
    if k > 0 {
      assert ws[1..][k - 1..] == ws[k..];
      PanicStays(s, ws[1..], k - 1);
    } else {
      assert ws[0..] == ws;
    }
  }

  /** The window list is strictly ascending, so sorting it and dropping duplicates change nothing. */
  lemma {:induction false} WindowsAscend(s: string, i: nat)
    requires i <= |s| + 1
    ensures forall k | 0 <= k < |WindowsFrom(s, i)| ::
              i <= WindowsFrom(s, i)[k].start <= |s| && WindowAt(s, WindowsFrom(s, i)[k].start)
              && WindowsFrom(s, i)[k].end == StopFrom(s, WindowsFrom(s, i)[k].start)
    ensures forall j, k | 0 <= j < k < |WindowsFrom(s, i)| ::
              WindowsFrom(s, i)[j].start < WindowsFrom(s, i)[k].start
    decreases |s| + 1 - i
  {
    if i <= |s| {
      WindowsAscend(s, i + 1);
    }
  }

  method MaskAuthorityWindows(input: string) returns (r: Outcome)
    ensures r == MaskedByEdits(input)
  {
    var out := input;
    var windows := AuthorityWindows(input);
    EditedIsEditAll(input, Marks(input), 0);
    var k := |windows|;
    while k > 0
      invariant 0 <= k <= |windows|
      invariant EditAll(input, windows[k..]) == Done(out)
    {
      k := k - 1;
      assert windows[k..][1..] == windows[k + 1..];
      match Edit(out, windows[k]) {
        case Panic =>
          PanicStays(input, windows, k);
          return Panic;
        case Done(edited) =>
          out := edited;
      }
    }
    assert windows[0..] == windows;
    r := Done(out);
  }

  // ---- windows overlap only by sharing their end ----

  lemma {:induction false} StopIs(s: string, i: nat, e: nat)
    requires i <= e <= |s|
    requires forall k | i <= k < e :: !IsStop(s[k])
    requires e < |s| ==> IsStop(s[e])
    ensures StopFrom(s, i) == e
    decreases e - i
  {
    if i < e {
      StopIs(s, i + 1, e);
    }
  }

  lemma WindowFollowsSlash(s: string, q: nat)
    requires q <= |s| && WindowAt(s, q)
    ensures q > 0 && IsSlash(s[q - 1])
  {
    assert RunTo(s, q) > 0;
  }

  lemma NoSlashNoWindow(s: string, q: nat)
    requires q <= |s| && (q == 0 || !IsSlash(s[q - 1]))
    ensures !WindowAt(s, q)
  {
    assert RunTo(s, q) == 0;
  }

  /** Two windows are apart, or the later one lies inside the earlier one and they share their end. */
  lemma WindowsApartOrShareEnd(s: string, p: nat, q: nat)
    requires p < q <= |s| && WindowAt(s, p) && WindowAt(s, q)
    ensures StopFrom(s, p) < q || StopFrom(s, p) == StopFrom(s, q)
    ensures '\\' !in s ==> StopFrom(s, p) < q
  {
    WindowFollowsSlash(s, q);
    if q <= StopFrom(s, p) {
      StopIs(s, q, StopFrom(s, p));
    }
  }

  ghost predicate Nested(s: string, marks: seq<bool>, p: nat, q: nat)
    requires |marks| == |s| + 1
  {
    p < q <= |s| && marks[p] && marks[q] && q <= StopFrom(s, p)
  }

  /** No window that starts at `i` or later lies inside another one and changes length when masked. */
  ghost predicate NoShiftFrom(s: string, marks: seq<bool>, i: nat)
    requires |marks| == |s| + 1
  {
    forall p, q | Nested(s, marks, p, q) && i <= q ::
      HasAt(Content(s, q)) ==> LastAt(Content(s, q)) == |MASK|
  }

  ghost predicate NoShift(s: string) {
    NoShiftFrom(s, Marks(s), 0)
  }

  ghost predicate Disjoint(s: string) {
    forall p, q :: !Nested(s, Marks(s), p, q)
  }

  lemma BackslashFreeIsDisjoint(s: string)
    requires '\\' !in s
    ensures Disjoint(s) && NoShift(s)
  {
    forall p: nat, q: nat
      ensures !Nested(s, Marks(s), p, q)
    {
      if p < q <= |s| && WindowAt(s, p) && WindowAt(s, q) {
        WindowsApartOrShareEnd(s, p, q);
      }
    }
  }

  // ---- the edit equals its meaning ----

  /** Same length, same last `@`, same bytes from there on, no stop. */
  ghost predicate SameTail(u: string, v: string) {
    && |u| == |v|
    && (HasAt(u) <==> HasAt(v))
    && (if HasAt(v) then LastAt(u) == LastAt(v) && u[LastAt(v)..] == v[LastAt(v)..] else u == v)
    && (forall k | 0 <= k < |u| :: !IsStop(u[k]))
  }

  lemma LastAtIs(c: string, k: nat)
    requires k < |c| && c[k] == '@' && '@' !in c[k + 1..]
    ensures HasAt(c) && LastAt(c) == k
  {
    assert forall j | k < j < |c| :: c[j] == c[k + 1..][j - k - 1];
  }

  lemma LastAtCons(x: char, u: string)
    ensures HasAt([x] + u) <==> x == '@' || HasAt(u)
    ensures HasAt(u) ==> LastAt([x] + u) == 1 + LastAt(u) && ([x] + u)[1 + LastAt(u)..] == u[LastAt(u)..]
    ensures x == '@' && !HasAt(u) ==> LastAt([x] + u) == 0
  {
    var xu := [x] + u;
    assert xu[1..] == u;
    if HasAt(u) {
      assert xu[2 + LastAt(u)..] == u[1 + LastAt(u)..];
      LastAtIs(xu, 1 + LastAt(u));
    } else if x == '@' {
      LastAtIs(xu, 0);
    }
  }

  lemma SameTailCons(x: char, u: string, v: string)
    requires SameTail(u, v) && !IsStop(x)
    ensures SameTail([x] + u, [x] + v)
  {
    LastAtCons(x, u);
    LastAtCons(x, v);
  }

  lemma SameTailMask(c: string)
    requires HasAt(c) ==> LastAt(c) == |MASK|
    requires forall k | 0 <= k < |c| :: !IsStop(c[k])
    ensures SameTail(MaskOne(c), c)
  {
    if HasAt(c) {
      LastAtIs(MaskOne(c), |MASK|);
    }
  }

  lemma InsideByte(s: string, marks: seq<bool>, i: nat, e: nat, u: string)
    requires |marks| == |s| + 1 && i < e <= |s| && !marks[i] && !IsStop(s[i])
    requires MaskFrom(s, marks, i + 1) == u + MaskFrom(s, marks, e) && SameTail(u, s[i + 1..e])
    ensures MaskFrom(s, marks, i) == ([s[i]] + u) + MaskFrom(s, marks, e) && SameTail([s[i]] + u, s[i..e])
  {
    SameTailCons(s[i], u, s[i + 1..e]);
    assert s[i..e] == [s[i]] + s[i + 1..e];
    Concat3([s[i]], u, MaskFrom(s, marks, e));
  }

  /** Inside a window the mask keeps every length as long as nothing nested there shifts. */
  lemma {:induction false} MaskInside(s: string, marks: seq<bool>, p: nat, i: nat, e: nat) returns (v: string)
    requires |marks| == |s| + 1 && p < i <= e <= |s| && marks[p] && e == StopFrom(s, p)
    requires NoShiftFrom(s, marks, i)
    ensures MaskFrom(s, marks, i) == v + MaskFrom(s, marks, e) && SameTail(v, s[i..e])
    decreases e - i
  {
    if i == e {
      v := [];
    } else if marks[i] {
      StopIs(s, i, e);
      assert Nested(s, marks, p, i);
      v := MaskOne(s[i..e]);
      SameTailMask(s[i..e]);
    } else {
      var u := MaskInside(s, marks, p, i + 1, e);
      v := [s[i]] + u;
      InsideByte(s, marks, i, e, u);
    }
  }

  lemma Concat3(a: string, b: string, c: string)
    ensures a + (b + c) == a + b + c
  {
  }

  lemma Slices(pre: string, v: string, rest: string, k: nat)
    requires k <= |v|
    ensures (pre + v + rest)[..|pre|] == pre
    ensures (pre + v + rest)[|pre|..|pre| + |v|] == v
    ensures (pre + v + rest)[|pre| + k..] == v[k..] + rest
  {
  }

  lemma Concat4(a: string, b: string, c: string, d: string)
    ensures a + b + (c + d) == a + (b + c) + d
  {
  }

  lemma EditSplice(pre: string, v: string, c: string, rest: string)
    requires SameTail(v, c)
    requires Boundary(pre + v + rest, |pre|)
    requires rest == [] || !IsContinuation(rest[0])
    ensures Edit(pre + v + rest, Window(|pre|, |pre| + |c|)) == Done(pre + MaskOne(c) + rest)
  {
    var out, w := pre + v + rest, Window(|pre|, |pre| + |c|);
    BoundaryBehind(pre + v, rest);
    if HasAt(v) {
      var tail := v[LastAt(v)..];
      Slices(pre, v, rest, LastAt(v));
      MaskedTail(v, c);
      Concat4(pre, MASK, tail, rest);
      EditReplaces(out, w, pre, v, tail + rest, pre + MaskOne(c) + rest);
    } else {
      Slices(pre, v, rest, 0);
      EditLeaves(out, w, v);
    }
  }

  lemma MaskedTail(v: string, c: string)
    requires SameTail(v, c) && HasAt(v)
    ensures MaskOne(c) == MASK + v[LastAt(v)..]
  {
  }

  /** The edit of a window with an `@`, in terms of the parts of the text. */
  lemma EditReplaces(out: string, w: Window, pre: string, window: string, tail: string, result: string)
    requires w.start <= w.end <= |out| && Boundary(out, w.start) && Boundary(out, w.end)
    requires out[w.start..w.end] == window && HasAt(window)
    requires out[..w.start] == pre && out[w.start + LastAt(window)..] == tail && pre + MASK + tail == result
    ensures Edit(out, w) == Done(result)
  {
  }

  lemma EditLeaves(out: string, w: Window, window: string)
    requires w.start <= w.end <= |out| && Boundary(out, w.start) && Boundary(out, w.end)
    requires out[w.start..w.end] == window && !HasAt(window)
    ensures Edit(out, w) == Done(out)
  {
  }

  lemma BoundaryBehind(front: string, rest: string)
    requires rest == [] || !IsContinuation(rest[0])
    ensures Boundary(front + rest, |front|)
  {
  }

  lemma MaskStartsAtStop(s: string, marks: seq<bool>, e: nat)
    requires |marks| == |s| + 1 && e <= |s| && (e < |s| ==> IsStop(s[e]))
    ensures if e == |s| then MaskFrom(s, marks, e) == []
            else MaskFrom(s, marks, e) != [] && MaskFrom(s, marks, e)[0] == s[e]
  {
  }

  /** The split of the text at the moment the window at `p` is edited. */
  lemma SplitAtWindow(s: string, marks: seq<bool>, p: nat) returns (v: string, rest: string)
    requires |marks| == |s| + 1 && p < |s| && marks[p] && NoShiftFrom(s, marks, p + 1)
    ensures s[..p + 1] + MaskFrom(s, marks, p + 1) == s[..p] + v + rest
    ensures MaskFrom(s, marks, p) == MaskOne(Content(s, p)) + rest
    ensures SameTail(v, Content(s, p)) && (rest == [] || !IsContinuation(rest[0]))
    ensures v + rest != [] && (v + rest)[0] == s[p]
  {
    if StopFrom(s, p) == p {
      v, rest := SplitAtEmptyWindow(s, marks, p);
    } else {
      v, rest := SplitAtFullWindow(s, marks, p);
    }
  }

  lemma SplitAtEmptyWindow(s: string, marks: seq<bool>, p: nat) returns (v: string, rest: string)
    requires |marks| == |s| + 1 && p < |s| && StopFrom(s, p) == p
    ensures s[..p + 1] + MaskFrom(s, marks, p + 1) == s[..p] + v + rest
    ensures MaskFrom(s, marks, p) == MaskOne(Content(s, p)) + rest
    ensures SameTail(v, Content(s, p)) && (rest == [] || !IsContinuation(rest[0]))
    ensures v + rest != [] && (v + rest)[0] == s[p]
  {
    v, rest := [], [s[p]] + MaskFrom(s, marks, p + 1);
    MaskAtByte(s, marks, p);
    assert Content(s, p) == [] && [] + rest == rest;
    assert s[..p + 1] == s[..p] + [s[p]];
    assert s[..p] + [] == s[..p];
    Concat3(s[..p], [s[p]], MaskFrom(s, marks, p + 1));
  }

  lemma SplitAtFullWindow(s: string, marks: seq<bool>, p: nat) returns (v: string, rest: string)
    requires |marks| == |s| + 1 && p < |s| && marks[p] && NoShiftFrom(s, marks, p + 1) && StopFrom(s, p) > p
    ensures s[..p + 1] + MaskFrom(s, marks, p + 1) == s[..p] + v + rest
    ensures MaskFrom(s, marks, p) == MaskOne(Content(s, p)) + rest
    ensures SameTail(v, Content(s, p)) && (rest == [] || !IsContinuation(rest[0]))
    ensures v + rest != [] && (v + rest)[0] == s[p]
  {
    var e := StopFrom(s, p);
    MaskAtWindow(s, marks, p);
    MaskStartsAtStop(s, marks, e);
    var u := MaskInside(s, marks, p, p + 1, e);
    v, rest := [s[p]] + u, MaskFrom(s, marks, e);
    SameTailCons(s[p], u, s[p + 1..e]);
    OneByteOff(s, p, e);
    Regroup(s[..p], s[p], u, rest);
  }

  lemma OneByteOff(s: string, p: nat, e: nat)
    requires p < e <= |s|
    ensures s[..p + 1] == s[..p] + [s[p]] && s[p..e] == [s[p]] + s[p + 1..e]
  {
  }

  lemma Regroup(a: string, x: char, b: string, c: string)
    ensures a + [x] + (b + c) == a + ([x] + b) + c
    ensures [x] + b + c != [] && ([x] + b + c)[0] == x
  {
  }

  lemma EditedAtWindow(s: string, marks: seq<bool>, p: nat)
    requires |marks| == |s| + 1 && p < |s| && marks[p] && Boundary(s, p) && NoShiftFrom(s, marks, p + 1)
    ensures Edit(s[..p + 1] + MaskFrom(s, marks, p + 1), Window(p, StopFrom(s, p)))
         == Done(s[..p] + MaskFrom(s, marks, p))
  {
    var v, rest := SplitAtWindow(s, marks, p);
    StartByte(s[..p], v, rest);
    EditSplice(s[..p], v, Content(s, p), rest);
    Concat3(s[..p], MaskOne(Content(s, p)), rest);
  }

  lemma StartByte(pre: string, v: string, rest: string)
    requires v + rest != []
    ensures |pre| < |pre + v + rest| && (pre + v + rest)[|pre|] == (v + rest)[0]
  {
  }

  /** Every marked position is a character boundary. */
  ghost predicate MarksBoundaries(s: string, marks: seq<bool>) {
    |marks| == |s| + 1 && forall i | 0 <= i <= |s| && marks[i] :: Boundary(s, i)
  }

  lemma WindowsStartOnBoundaries(s: string)
    requires Valid(s)
    ensures MarksBoundaries(s, Marks(s))
  {
    forall i | 0 <= i <= |s| && WindowAt(s, i)
      ensures Boundary(s, i)
    {
      WindowFollowsSlash(s, i);
      BoundaryAfterAscii(s, i);
    }
  }

  lemma KeptByte(s: string, marks: seq<bool>, p: nat)
    requires |marks| == |s| + 1 && p < |s| && !marks[p]
    ensures s[..p + 1] + MaskFrom(s, marks, p + 1) == s[..p] + MaskFrom(s, marks, p)
  {
    assert s[..p + 1] == s[..p] + [s[p]];
    Concat3(s[..p], [s[p]], MaskFrom(s, marks, p + 1));
  }

  lemma EditedAtEnd(s: string, marks: seq<bool>)
    requires |marks| == |s| + 1
    ensures Edited(s, marks, |s|) == Done(s[..|s|] + MaskFrom(s, marks, |s|))
  {
    assert Edit(s, Window(|s|, |s|)) == Done(s);
    assert s[..|s|] + [] == s;
  }

  /** While nothing shifts, the reverse-order edit is the left-to-right mask. */
  lemma {:induction false} EditIsMask(s: string, marks: seq<bool>, p: nat)
    requires MarksBoundaries(s, marks) && p <= |s| && NoShiftFrom(s, marks, p + 1)
    ensures Edited(s, marks, p) == Done(s[..p] + MaskFrom(s, marks, p))
    decreases |s| - p
  {
    if p == |s| {
      EditedAtEnd(s, marks);
    } else {
      EditIsMask(s, marks, p + 1);
      EditedStep(s, marks, p, s[..p + 1] + MaskFrom(s, marks, p + 1));
      if marks[p] {
        EditedAtWindow(s, marks, p);
      } else {
        KeptByte(s, marks, p);
      }
    }
  }

  lemma EditedStep(s: string, marks: seq<bool>, p: nat, out: string)
    requires |marks| == |s| + 1 && p <= |s| && Edited(s, marks, p + 1) == Done(out)
    ensures Edited(s, marks, p) == if marks[p] then Edit(out, Window(p, StopFrom(s, p))) else Done(out)
  {
  }
}
