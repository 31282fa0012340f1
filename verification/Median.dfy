/** Whether the median of a sample lies in a gap of it; floating point is exact here. */
module Median {

  const REL_GAP: real := 0.2

  function Insert(s: seq<real>, x: real): seq<real> {
    if s == [] || s[|s| - 1] <= x then s + [x] else Insert(s[..|s| - 1], x) + [s[|s| - 1]]
  }

  function Sort(s: seq<real>): seq<real> {
    if s == [] then [] else Insert(Sort(s[..|s| - 1]), s[|s| - 1])
  }

  /** The middle value of an ordered sample, or the mean of the middle pair. */
  function MedianOf(ordered: seq<real>): real
    requires ordered != []
  {
    var mid := |ordered| / 2;
    if |ordered| % 2 == 1 then ordered[mid] else (ordered[mid - 1] + ordered[mid]) / 2.0
  }

  /** Both neighbours of the median are more than the relative gap away. */
  predicate GapAround(ordered: seq<real>, median: real)
    requires |ordered| >= 3 && median > 0.0
  {
    var mid := |ordered| / 2;
    var lo, hi := ordered[mid - 1], if |ordered| % 2 == 1 then ordered[mid + 1] else ordered[mid];
    (median - lo) / median > REL_GAP && (hi - median) / median > REL_GAP
  }

  predicate MedianIsolated(values: seq<real>) {
    var ordered := Sort(values);
    |ordered| >= 3 && MedianOf(ordered) > 0.0 && GapAround(ordered, MedianOf(ordered))
  }

  // ---- sorting ----

  predicate Ordered(s: seq<real>) {
    forall i, j | 0 <= i < j < |s| :: s[i] <= s[j]
  }

  lemma {:induction false} InsertAdds(s: seq<real>, x: real)
    ensures multiset(Insert(s, x)) == multiset(s) + multiset{x}
  {
    if s != [] && s[|s| - 1] > x {
      InsertAdds(s[..|s| - 1], x);
      assert s == s[..|s| - 1] + [s[|s| - 1]];
    }
  }

  lemma OrderedSnoc(s: seq<real>, x: real)
    requires Ordered(s) && forall i | 0 <= i < |s| :: s[i] <= x
    ensures Ordered(s + [x])
  {
  }

  predicate Below(s: seq<real>, y: real) {
    forall i | 0 <= i < |s| :: s[i] <= y
  }

  lemma {:induction false} InsertBelow(s: seq<real>, x: real, y: real)
    requires Below(s, y) && x <= y
    ensures Below(Insert(s, x), y)
  {
    if s != [] && s[|s| - 1] > x {
      InsertBelow(s[..|s| - 1], x, y);
    }
  }

  lemma {:induction false} InsertOrders(s: seq<real>, x: real)
    requires Ordered(s)
    ensures Ordered(Insert(s, x))
  {
    if s == [] || s[|s| - 1] <= x {
      OrderedSnoc(s, x);
    } else {
      var front, last := s[..|s| - 1], s[|s| - 1];
      InsertOrders(front, x);
      InsertBelow(front, x, last);
      OrderedSnoc(Insert(front, x), last);
    }
  }

  lemma {:induction false} SortOrders(s: seq<real>)
    ensures Ordered(Sort(s)) && multiset(Sort(s)) == multiset(s)
  {
    if s != [] {
      SortOrders(s[..|s| - 1]);
      InsertOrders(Sort(s[..|s| - 1]), s[|s| - 1]);
      InsertAdds(Sort(s[..|s| - 1]), s[|s| - 1]);
      assert s == s[..|s| - 1] + [s[|s| - 1]];
    }
  }

  lemma SortLength(s: seq<real>)
    ensures |Sort(s)| == |s|
  {
    SortOrders(s);
    assert |multiset(Sort(s))| == |Sort(s)| && |multiset(s)| == |s|;
  }

  lemma LastIsGreatest(s: seq<real>, t: seq<real>)
    requires Ordered(s) && Ordered(t) && multiset(s) == multiset(t) && s != [] && t != []
    ensures s[|s| - 1] == t[|t| - 1]
  {
    var x, y := s[|s| - 1], t[|t| - 1];
    assert x in multiset(t) && y in multiset(s);
    assert x in t && y in s;
  }

  lemma FrontElements(s: seq<real>)
    requires s != []
    ensures multiset(s[..|s| - 1]) == multiset(s) - multiset{s[|s| - 1]}
  {
    assert s == s[..|s| - 1] + [s[|s| - 1]];
  }

  /** An ordered list is determined by its elements. */
  lemma {:induction false} OrderedIsUnique(s: seq<real>, t: seq<real>)
    requires Ordered(s) && Ordered(t) && multiset(s) == multiset(t) && |s| == |t|
    ensures s == t
  {
    if s != [] {
      LastIsGreatest(s, t);
      FrontElements(s);
      FrontElements(t);
      OrderedIsUnique(s[..|s| - 1], t[..|t| - 1]);
      assert s == s[..|s| - 1] + [s[|s| - 1]] && t == t[..|t| - 1] + [t[|t| - 1]];
    }
  }

  /** The order of the samples does not matter. */
  lemma PermutationInvariant(s: seq<real>, t: seq<real>)
    requires multiset(s) == multiset(t)
    ensures MedianIsolated(s) <==> MedianIsolated(t)
  {
    SortOrders(s);
    SortOrders(t);
    assert |multiset(Sort(s))| == |Sort(s)| && |multiset(Sort(t))| == |Sort(t)|;
    OrderedIsUnique(Sort(s), Sort(t));
  }

  // ---- counting the samples near the median ----

  predicate IsNear(x: real, m: real) {
    m - REL_GAP * m <= x <= m + REL_GAP * m
  }

  function CountNear(s: seq<real>, m: real): nat {
    if s == [] then 0 else CountNear(s[..|s| - 1], m) + if IsNear(s[|s| - 1], m) then 1 else 0
  }

  lemma {:induction false} CountInsert(s: seq<real>, x: real, m: real)
    ensures CountNear(Insert(s, x), m) == CountNear(s, m) + if IsNear(x, m) then 1 else 0
  {
    var t := Insert(s, x);
    if s == [] || s[|s| - 1] <= x {
      assert t[..|t| - 1] == s;
    } else {
      CountInsert(s[..|s| - 1], x, m);
      assert t[..|t| - 1] == Insert(s[..|s| - 1], x);
    }
  }

  lemma {:induction false} CountSort(s: seq<real>, m: real)
    ensures CountNear(Sort(s), m) == CountNear(s, m)
  {
    if s != [] {
      CountSort(s[..|s| - 1], m);
      CountInsert(Sort(s[..|s| - 1]), s[|s| - 1], m);
    }
  }

  lemma {:induction false} NoneNear(s: seq<real>, m: real)
    ensures CountNear(s, m) == 0 <==> forall i | 0 <= i < |s| :: !IsNear(s[i], m)
  {
    if s != [] {
      NoneNear(s[..|s| - 1], m);
    }
  }

  lemma {:induction false} CountAppend(s: seq<real>, t: seq<real>, m: real)
    ensures CountNear(s + t, m) == CountNear(s, m) + CountNear(t, m)
  {
    if t == [] {
      assert s + t == s;
    } else {
      assert (s + t)[..|s + t| - 1] == s + t[..|t| - 1];
      CountAppend(s, t[..|t| - 1], m);
    }
  }

  /** Below the median, a near sample makes the last one near; above it, the first one. */
  lemma NearestDecides(ordered: seq<real>, lower: nat, upper: nat, m: real)
    requires Ordered(ordered) && 0 < lower <= upper < |ordered| && m > 0.0
    requires ordered[lower - 1] <= m <= ordered[upper]
    ensures CountNear(ordered[..lower], m) == 0 <==> !IsNear(ordered[lower - 1], m)
    ensures CountNear(ordered[upper..], m) == 0 <==> !IsNear(ordered[upper], m)
  {
    var below, above := ordered[..lower], ordered[upper..];
    NoneNear(below, m);
    NoneNear(above, m);
    assert below[lower - 1] == ordered[lower - 1] && above[0] == ordered[upper];
    assert forall i | 0 <= i < |below| :: below[i] <= ordered[lower - 1];
    assert forall i | 0 <= i < |above| :: above[i] >= ordered[upper];
  }

  lemma GapIsFar(median: real, x: real)
    requires median > 0.0
    ensures (median - x) / median > REL_GAP <==> x < median - REL_GAP * median
    ensures (x - median) / median > REL_GAP <==> x > median + REL_GAP * median
  {
    DivAbove(median - x, median);
    DivAbove(x - median, median);
  }

  lemma DivAbove(a: real, m: real)
    requires m > 0.0
    ensures a / m > REL_GAP <==> a > REL_GAP * m
  {
    var q := a / m;
    assert q * m == a;
    if q > REL_GAP {
      assert (q - REL_GAP) * m > 0.0;
    } else {
      assert (REL_GAP - q) * m >= 0.0;
    }
  }

  lemma GapAroundIsFar(ordered: seq<real>, m: real)
    requires |ordered| >= 3 && m > 0.0 && Ordered(ordered) && m == MedianOf(ordered)
    ensures var mid := |ordered| / 2;
            GapAround(ordered, m) <==>
            !IsNear(ordered[mid - 1], m) && !IsNear(if |ordered| % 2 == 1 then ordered[mid + 1] else ordered[mid], m)
  {
    var mid := |ordered| / 2;
    GapIsFar(m, ordered[mid - 1]);
    GapIsFar(m, if |ordered| % 2 == 1 then ordered[mid + 1] else ordered[mid]);
    assert ordered[mid - 1] <= m <= ordered[mid];
  }

  lemma CountOdd(ordered: seq<real>, m: real)
    requires Ordered(ordered) && |ordered| >= 3 && |ordered| % 2 == 1 && m == MedianOf(ordered) > 0.0
    ensures var mid := |ordered| / 2;
            CountNear(ordered, m) == 1 <==> !IsNear(ordered[mid - 1], m) && !IsNear(ordered[mid + 1], m)
  {
    var mid := |ordered| / 2;
    var below, above := ordered[..mid], ordered[mid + 1..];
    assert ordered == (below + [m]) + above;
    CountAppend(below + [m], above, m);
    CountAppend(below, [m], m);
    assert [m][..0] == [];
    assert CountNear([m], m) == 1;
    NearestDecides(ordered, mid, mid + 1, m);
  }

  lemma CountEven(ordered: seq<real>, m: real)
    requires Ordered(ordered) && |ordered| >= 3 && |ordered| % 2 == 0 && m == MedianOf(ordered) > 0.0
    ensures var mid := |ordered| / 2;
            CountNear(ordered, m) == 0 <==> !IsNear(ordered[mid - 1], m) && !IsNear(ordered[mid], m)
  {
    var mid := |ordered| / 2;
    assert ordered == ordered[..mid] + ordered[mid..];
    CountAppend(ordered[..mid], ordered[mid..], m);
    NearestDecides(ordered, mid, mid, m);
  }

  /** The samples within a fifth of the median are just the median itself, or none when it is a mean. */
  predicate AloneAmong(values: seq<real>, median: real) {
    |values| >= 3 && median > 0.0 && CountNear(values, median) == |values| % 2
  }

  /** The neighbour test of the program decides whether the median is alone in its sample. */
  lemma {:induction false} IsolatedByCount(values: seq<real>)
    ensures |Sort(values)| == |values|
    ensures MedianIsolated(values) <==> values != [] && AloneAmong(values, MedianOf(Sort(values)))
  {
    var ordered := Sort(values);
    SortLength(values);
    SortOrders(values);
    if |values| >= 3 && MedianOf(ordered) > 0.0 {
      var m := MedianOf(ordered);
      CountSort(values, m);
      GapAroundIsFar(ordered, m);
      if |values| % 2 == 1 {
        CountOdd(ordered, m);
      } else {
        CountEven(ordered, m);
      }
    }
  }

  // ---- scaling ----

  function Times(k: real, x: real): real {
    k * x
  }

  function Scaled(s: seq<real>, k: real): (t: seq<real>)
    ensures |t| == |s| && forall i | 0 <= i < |s| :: t[i] == Times(k, s[i])
  {
    seq(|s|, i requires 0 <= i < |s| => Times(k, s[i]))
  }

  lemma ScaledFront(s: seq<real>, k: real)
    requires s != []
    ensures Scaled(s, k)[..|s| - 1] == Scaled(s[..|s| - 1], k)
  {
  }

  lemma ScaledSnoc(s: seq<real>, x: real, k: real)
    ensures Scaled(s + [x], k) == Scaled(s, k) + [Times(k, x)]
  {
  }

  lemma ScaleKeepsOrder(a: real, b: real, k: real)
    requires k > 0.0
    ensures Times(k, a) <= Times(k, b) <==> a <= b
  {
    if a <= b {
      assert k * (b - a) >= 0.0;
    } else {
      assert k * (a - b) > 0.0;
    }
  }

  lemma {:induction false} InsertScaled(s: seq<real>, x: real, k: real)
    requires k > 0.0
    ensures Insert(Scaled(s, k), Times(k, x)) == Scaled(Insert(s, x), k)
  {
    if s == [] {
      ScaledSnoc(s, x, k);
    } else {
      var last := s[|s| - 1];
      ScaleKeepsOrder(last, x, k);
      if last <= x {
        ScaledSnoc(s, x, k);
      } else {
        InsertScaled(s[..|s| - 1], x, k);
        ScaledFront(s, k);
        ScaledSnoc(Insert(s[..|s| - 1], x), last, k);
      }
    }
  }

  lemma {:induction false} SortScaled(s: seq<real>, k: real)
    requires k > 0.0
    ensures Sort(Scaled(s, k)) == Scaled(Sort(s), k)
  {
    if s != [] {
      SortScaled(s[..|s| - 1], k);
      ScaledFront(s, k);
      InsertScaled(Sort(s[..|s| - 1]), s[|s| - 1], k);
    }
  }

  lemma MedianScaled(ordered: seq<real>, k: real)
    requires ordered != []
    ensures MedianOf(Scaled(ordered, k)) == Times(k, MedianOf(ordered))
  {
  }

  lemma NearScaled(x: real, m: real, k: real)
    requires k > 0.0
    ensures IsNear(Times(k, x), Times(k, m)) <==> IsNear(x, m)
  {
    ScaleKeepsOrder(m - REL_GAP * m, x, k);
    ScaleKeepsOrder(x, m + REL_GAP * m, k);
    assert k * (m - REL_GAP * m) == k * m - REL_GAP * (k * m);
    assert k * (m + REL_GAP * m) == k * m + REL_GAP * (k * m);
  }

  lemma {:induction false} CountScaled(s: seq<real>, m: real, k: real)
    requires k > 0.0
    ensures CountNear(Scaled(s, k), Times(k, m)) == CountNear(s, m)
  {
    if s != [] {
      CountScaled(s[..|s| - 1], m, k);
      ScaledFront(s, k);
      NearScaled(s[|s| - 1], m, k);
    }
  }

  /** Changing the unit does not change the verdict. */
  lemma ScaleInvariant(s: seq<real>, k: real)
    requires k > 0.0
    ensures MedianIsolated(Scaled(s, k)) <==> MedianIsolated(s)
  {
    IsolatedByCount(s);
    IsolatedByCount(Scaled(s, k));
    SortLength(s);
    SortScaled(s, k);
    if |s| >= 3 {
      var m := MedianOf(Sort(s));
      MedianScaled(Sort(s), k);
      CountScaled(s, m, k);
      ScaleKeepsOrder(m, 0.0, k);
    }
  }
}
