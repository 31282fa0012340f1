/**
 * The entries of the records index and their order: by date, then by the number in a
 * `<8 digits>-v<number>` run id, then by run id.
 */
module IndexOrder {
  import opened Text
  import opened Decimal

  datatype Entry = Entry(runId: string, date: string, era: string, gitCommit: string, scenarios: string, path: string)

  function RunIdSeq(id: string): int {
    if |id| >= 11 && AllDigits(id[..8]) && id[8] == '-' && id[9] == 'v' && AllDigits(id[10..]) then ReadNat(id[10..])
    else -1
  }

  predicate Precedes(e: Entry, f: Entry) {
    || Before(e.date, f.date)
    || (e.date == f.date &&
        (|| RunIdSeq(e.runId) < RunIdSeq(f.runId)
         || (RunIdSeq(e.runId) == RunIdSeq(f.runId) && Before(e.runId, f.runId))))
  }

  lemma PrecedesIsStrict(e: Entry, f: Entry)
    ensures Precedes(e, f) ==> !Precedes(f, e)
    ensures Precedes(e, f) || Precedes(f, e) || (e.date == f.date && e.runId == f.runId)
  {
    BeforeIsStrict(e.date, f.date);
    BeforeIsStrict(e.runId, f.runId);
  }

  lemma PrecedesIsTransitive(e: Entry, f: Entry, g: Entry)
    requires Precedes(e, f) && Precedes(f, g)
    ensures Precedes(e, g)
  {
    if Before(e.date, f.date) && Before(f.date, g.date) {
      BeforeIsTransitive(e.date, f.date, g.date);
    } else if e.date == f.date == g.date && Before(e.runId, f.runId) && Before(f.runId, g.runId) {
      BeforeIsTransitive(e.runId, f.runId, g.runId);
    }
  }

  lemma SeqOfVersion(day: string, n: nat)
    requires |day| == 8 && AllDigits(day)
    ensures RunIdSeq(day + "-v" + PrintNat(n)) == n
  {
    var id := day + "-v" + PrintNat(n);
    assert id[..8] == day && id[10..] == PrintNat(n);
    ReadPrint(n);
  }

  /** Runs of one day are listed by number, whatever the number of digits. */
  lemma VersionsInNumericOrder(e: Entry, f: Entry, day: string, m: nat, n: nat)
    requires |day| == 8 && AllDigits(day) && e.date == f.date
    requires e.runId == day + "-v" + PrintNat(m) && f.runId == day + "-v" + PrintNat(n)
    ensures Precedes(e, f) <==> m < n
  {
    SeqOfVersion(day, m);
    SeqOfVersion(day, n);
    BeforeIsStrict(e.date, f.date);
    BeforeIsStrict(e.runId, f.runId);
  }

  // ---- sorting ----

  predicate Ordered(s: seq<Entry>) {
    forall i, j | 0 <= i < j < |s| :: Precedes(s[i], s[j])
  }

  predicate HasId(s: seq<Entry>, id: string) {
    exists i | 0 <= i < |s| :: s[i].runId == id
  }

  predicate UniqueIds(s: seq<Entry>) {
    forall i, j | 0 <= i < j < |s| :: s[i].runId != s[j].runId
  }

  /** A stable insertion: behind every entry the new one does not precede. */
  function Insert(s: seq<Entry>, e: Entry): seq<Entry> {
    if s == [] then [e]
    else
      var front, last := s[..|s| - 1], s[|s| - 1];
      if Precedes(e, last) then Insert(front, e) + [last] else s + [e]
  }

  function Sorted(s: seq<Entry>): seq<Entry> {
    if s == [] then [] else Insert(Sorted(s[..|s| - 1]), s[|s| - 1])
  }

  lemma {:induction false} InsertMembers(s: seq<Entry>, e: Entry)
    ensures multiset(Insert(s, e)) == multiset(s) + multiset{e}
  {
    if s != [] {
      var front, last := s[..|s| - 1], s[|s| - 1];
      assert s == front + [last];
      if Precedes(e, last) {
        InsertMembers(front, e);
      }
    }
  }

  /** Sorting only rearranges. */
  lemma {:induction false} SortedIsPermutation(s: seq<Entry>)
    ensures multiset(Sorted(s)) == multiset(s)
  {
    if s != [] {
      var front, last := s[..|s| - 1], s[|s| - 1];
      assert s == front + [last];
      SortedIsPermutation(front);
      InsertMembers(Sorted(front), last);
    }
  }

  lemma SameMembers(s: seq<Entry>, t: seq<Entry>)
    requires multiset(s) == multiset(t)
    ensures forall e :: e in s <==> e in t
  {
    forall e
      ensures e in s <==> e in t
    {
      assert e in multiset(s) <==> e in multiset(t);
    }
  }

  lemma OrderedSnoc(s: seq<Entry>, e: Entry)
    requires Ordered(s) && forall x | x in s :: Precedes(x, e)
    ensures Ordered(s + [e])
  {
  }

  lemma {:induction false} InsertIsOrdered(s: seq<Entry>, e: Entry)
    requires Ordered(s) && !HasId(s, e.runId)
    ensures Ordered(Insert(s, e))
  {
    if s != [] {
      var front, last := s[..|s| - 1], s[|s| - 1];
      assert s == front + [last];
      if Precedes(e, last) {
        InsertIsOrdered(front, e);
        InsertMembers(front, e);
        SameMembers(Insert(front, e), front + [e]);
        OrderedSnoc(Insert(front, e), last);
      } else {
        PrecedesIsStrict(e, last);
        forall x | x in s
          ensures Precedes(x, e)
        {
          if x != last {
            PrecedesIsTransitive(x, last, e);
          }
        }
        OrderedSnoc(s, e);
      }
    }
  }

  lemma {:induction false} InsertIsUnique(s: seq<Entry>, e: Entry)
    requires UniqueIds(s) && !HasId(s, e.runId)
    ensures UniqueIds(Insert(s, e))
    ensures forall id :: HasId(Insert(s, e), id) <==> HasId(s, id) || id == e.runId
  {
    if s != [] {
      var front, last := s[..|s| - 1], s[|s| - 1];
      assert s == front + [last];
      HasIdSnoc(front, last);
      HasIdSnoc(s, e);
      if Precedes(e, last) {
        InsertIsUnique(front, e);
        HasIdSnoc(Insert(front, e), last);
        assert !HasId(front, last.runId);
      }
    } else {
      HasIdSnoc([], e);
      assert [] + [e] == [e];
    }
  }

  lemma HasIdSnoc(s: seq<Entry>, e: Entry)
    ensures forall id :: HasId(s + [e], id) <==> HasId(s, id) || id == e.runId
  {
    forall id
      ensures HasId(s + [e], id) <==> HasId(s, id) || id == e.runId
    {
      var t := s + [e];
      assert t[|s|] == e;
      if HasId(s, id) {
        var i :| 0 <= i < |s| && s[i].runId == id;
        assert t[i].runId == id;
      }
    }
  }

  /** Distinct run ids come out strictly ordered, and distinct. */
  lemma {:induction false} SortedIsOrdered(s: seq<Entry>)
    requires UniqueIds(s)
    ensures Ordered(Sorted(s)) && UniqueIds(Sorted(s))
    ensures forall id :: HasId(Sorted(s), id) <==> HasId(s, id)
  {
    if s != [] {
      var front, last := s[..|s| - 1], s[|s| - 1];
      assert s == front + [last];
      SortedIsOrdered(front);
      HasIdSnoc(front, last);
      assert !HasId(front, last.runId);
      InsertIsOrdered(Sorted(front), last);
      InsertIsUnique(Sorted(front), last);
    }
  }

  lemma LastIsLast(s: seq<Entry>, t: seq<Entry>)
    requires Ordered(s) && Ordered(t) && s != [] && t != []
    requires forall e :: e in s <==> e in t
    ensures s[|s| - 1] == t[|t| - 1]
  {
    var x, y := s[|s| - 1], t[|t| - 1];
    assert x in t && y in s;
    PrecedesIsStrict(x, y);
  }

  lemma FrontMembers(s: seq<Entry>)
    requires Ordered(s) && s != []
    ensures forall e :: e in s[..|s| - 1] <==> e in s && e != s[|s| - 1]
  {
    var front, last := s[..|s| - 1], s[|s| - 1];
    assert s == front + [last];
    forall e | e in front
      ensures e != last
    {
      PrecedesIsStrict(e, last);
    }
  }

  /** An ordered list is determined by its members. */
  lemma {:induction false} OrderedIsUnique(s: seq<Entry>, t: seq<Entry>)
    requires Ordered(s) && Ordered(t)
    requires forall e :: e in s <==> e in t
    ensures s == t
  {
    EmptyTogether(s, t);
    if s != [] {
      LastIsLast(s, t);
      FrontMembers(s);
      FrontMembers(t);
      var front, rest := s[..|s| - 1], t[..|t| - 1];
      SameFronts(s, t, s[|s| - 1], front, rest);
      OrderedIsUnique(front, rest);
      assert s == front + [s[|s| - 1]] && t == rest + [t[|t| - 1]];
    }
  }

  lemma EmptyTogether(s: seq<Entry>, t: seq<Entry>)
    requires forall e :: e in s <==> e in t
    ensures s == [] <==> t == []
  {
    if s != [] {
      assert s[0] in s;
    }
    if t != [] {
      assert t[0] in t;
    }
  }

  lemma SameFronts(s: seq<Entry>, t: seq<Entry>, last: Entry, front: seq<Entry>, rest: seq<Entry>)
    requires forall e :: e in s <==> e in t
    requires forall e :: e in front <==> e in s && e != last
    requires forall e :: e in rest <==> e in t && e != last
    ensures forall e :: e in front <==> e in rest
  {
  }
}
