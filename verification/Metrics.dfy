/**
 * The late-bound metrics handle: each registration composes the new collector over the stored
 * one, and an observation fans out through the nested composites.  Every observation method
 * fans out alike; one stands for all.
 */
module Metrics {
  /** A leaf is known by its address. */
  datatype Collector =
    | NoOp
    | Leaf(id: nat)
    | Composite(collectors: seq<Collector>)

  /** A shared pointer: two are the same exactly when their addresses are. */
  datatype Arc = Arc(address: nat, collector: Collector)

  /** The leaves an observation reaches, in order. */
  function Leaves(c: Collector): seq<nat>
    decreases c
  {
    match c
    case NoOp => []
    case Leaf(id) => [id]
    case Composite(cs) => LeavesUpTo(c, |cs|)
  }

  function LeavesUpTo(c: Collector, n: nat): seq<nat>
    requires c.Composite? && n <= |c.collectors|
    decreases c, 0, n
  {
    if n == 0 then [] else LeavesUpTo(c, n - 1) + Leaves(c.collectors[n - 1])
  }

  datatype Delivery<E> = Delivery(leaf: nat, event: E)

  function Deliveries<E>(leaves: seq<nat>, event: E): (d: seq<Delivery<E>>)
    ensures |d| == |leaves| && forall i | 0 <= i < |d| :: d[i] == Delivery(leaves[i], event)
  {
    seq(|leaves|, i requires 0 <= i < |leaves| => Delivery(leaves[i], event))
  }

  /** What the leaves saw, in order. */
  class Log<E> {
    var entries: seq<Delivery<E>>

    constructor ()
      ensures entries == []
    {
      entries := [];
    }
  }

  /** Fan out to every leaf below the collector. */
  method Record<E>(c: Collector, event: E, log: Log<E>)
    modifies log
    ensures log.entries == old(log.entries) + Deliveries(Leaves(c), event)
    decreases c
  {
    match c
    case NoOp =>
    case Leaf(id) => log.entries := log.entries + [Delivery(id, event)];
    case Composite(cs) =>
      for i := 0 to |cs|
        invariant log.entries == old(log.entries) + Deliveries(LeavesUpTo(c, i), event)
      {
        Record(cs[i], event, log);
        DeliveriesAppend(LeavesUpTo(c, i), Leaves(cs[i]), event);
      }
  }

  lemma DeliveriesAppend<E>(a: seq<nat>, b: seq<nat>, event: E)
    ensures Deliveries(a + b, event) == Deliveries(a, event) + Deliveries(b, event)
  {
  }

  // ---- registration ----

  datatype Handle = Handle(inner: Collector, members: seq<Arc>)

  const UNREGISTERED := Handle(NoOp, [])

  predicate Holds(members: seq<Arc>, address: nat) {
    exists i | 0 <= i < |members| :: members[i].address == address
  }

  function Registered(h: Handle, c: Arc): Handle {
    if Holds(h.members, c.address) then h
    else Handle(if h.members == [] then c.collector else Composite([h.inner, c.collector]), h.members + [c])
  }

  class MetricsHandle {
    var inner: Collector
    var members: seq<Arc>

    ghost function State(): Handle
      reads this
    {
      Handle(inner, members)
    }

    constructor ()
      ensures State() == UNREGISTERED
    {
      inner, members := NoOp, [];
    }

    method Register(c: Arc)
      modifies this
      ensures State() == Registered(old(State()), c)
    {
      for i := 0 to |members|
        invariant forall j | 0 <= j < i :: members[j].address != c.address
        invariant State() == old(State())
      {
        if members[i].address == c.address {
          return;
        }
      }
      var first := members == [];
      members := members + [c];
      if first {
        inner := c.collector;
        return;
      }
      var prev := inner;
      inner := Composite([prev, c.collector]);
    }

    method Observe<E>(event: E, log: Log<E>)
      modifies log
      ensures log.entries == old(log.entries) + Deliveries(Leaves(inner), event)
    {
      Record(inner, event, log);
    }
  }

  // ---- flattening ----

  function RegisterAll(cs: seq<Arc>): Handle {
    if cs == [] then UNREGISTERED else Registered(RegisterAll(cs[..|cs| - 1]), cs[|cs| - 1])
  }

  /** Each pointer at its first occurrence. */
  function FirstOccurrences(cs: seq<Arc>): seq<Arc> {
    if cs == [] then []
    else
      var front, last := cs[..|cs| - 1], cs[|cs| - 1];
      FirstOccurrences(front) + if Holds(front, last.address) then [] else [last]
  }

  function Flattened(members: seq<Arc>): seq<nat> {
    if members == [] then [] else Flattened(members[..|members| - 1]) + Leaves(members[|members| - 1].collector)
  }

  lemma {:induction false} OccurrencesHold(cs: seq<Arc>, address: nat)
    ensures Holds(FirstOccurrences(cs), address) <==> Holds(cs, address)
  {
    if cs != [] {
      var front, last := cs[..|cs| - 1], cs[|cs| - 1];
      OccurrencesHold(front, address);
      OccurrencesHold(front, last.address);
      HoldsSnoc(front, last, address);
      HoldsSnoc(FirstOccurrences(front), last, address);
      assert cs == front + [last];
      assert FirstOccurrences(front) + [] == FirstOccurrences(front);
    }
  }

  lemma HoldsSnoc(cs: seq<Arc>, c: Arc, address: nat)
    ensures Holds(cs + [c], address) <==> Holds(cs, address) || c.address == address
  {
    var all := cs + [c];
    assert all[|cs|] == c;
    if Holds(cs, address) {
      var i :| 0 <= i < |cs| && cs[i].address == address;
      assert all[i].address == address;
    }
  }

  lemma LeavesOfPair(a: Collector, b: Collector)
    ensures Leaves(Composite([a, b])) == Leaves(a) + Leaves(b)
  {
    var c := Composite([a, b]);
    assert LeavesUpTo(c, 0) == [];
    assert LeavesUpTo(c, 1) == LeavesUpTo(c, 0) + Leaves(c.collectors[0]);
    assert LeavesUpTo(c, 2) == LeavesUpTo(c, 1) + Leaves(c.collectors[1]);
  }

  /** The membership list, and the leaves of whatever nest of composites is stored. */
  lemma {:induction false} HandleFlattens(cs: seq<Arc>)
    ensures RegisterAll(cs).members == FirstOccurrences(cs)
    ensures Leaves(RegisterAll(cs).inner) == Flattened(FirstOccurrences(cs))
  {
    if cs != [] {
      var front, last := cs[..|cs| - 1], cs[|cs| - 1];
      var h := RegisterAll(front);
      HandleFlattens(front);
      OccurrencesHold(front, last.address);
      LeavesOfPair(h.inner, last.collector);
      if !Holds(front, last.address) {
        var all := h.members + [last];
        assert all[..|all| - 1] == h.members;
        assert h.members == [] ==> Flattened(h.members) == [];
      }
    }
  }

  // ---- leaf collectors ----

  predicate AllLeaves(cs: seq<Arc>) {
    forall i | 0 <= i < |cs| :: cs[i].collector == Leaf(cs[i].address)
  }

  function Addresses(cs: seq<Arc>): (ids: seq<nat>)
    ensures |ids| == |cs| && forall i | 0 <= i < |cs| :: ids[i] == cs[i].address
  {
    seq(|cs|, i requires 0 <= i < |cs| => cs[i].address)
  }

  lemma {:induction false} FlattenedLeaves(cs: seq<Arc>)
    requires AllLeaves(cs)
    ensures Flattened(cs) == Addresses(cs)
  {
    if cs != [] {
      FlattenedLeaves(cs[..|cs| - 1]);
    }
  }

  lemma {:induction false} OccurrencesAreLeaves(cs: seq<Arc>)
    requires AllLeaves(cs)
    ensures AllLeaves(FirstOccurrences(cs))
  {
    if cs != [] {
      OccurrencesAreLeaves(cs[..|cs| - 1]);
    }
  }

  lemma {:induction false} OccurrencesAreUnique(cs: seq<Arc>)
    ensures forall i, j | 0 <= i < j < |FirstOccurrences(cs)| ::
              FirstOccurrences(cs)[i].address != FirstOccurrences(cs)[j].address
  {
    if cs != [] {
      var front, last := cs[..|cs| - 1], cs[|cs| - 1];
      OccurrencesAreUnique(front);
      OccurrencesHold(front, last.address);
    }
  }

  lemma FirstAt(cs: seq<Arc>, address: nat)
    ensures address in Addresses(cs) <==> Holds(cs, address)
  {
    if Holds(cs, address) {
      var i :| 0 <= i < |cs| && cs[i].address == address;
      assert Addresses(cs)[i] == address;
    }
  }

  /** Each leaf registered so far is reached exactly once, in order of first registration. */
  lemma LeavesOfRegistered(cs: seq<Arc>)
    requires AllLeaves(cs)
    ensures var reached := Leaves(RegisterAll(cs).inner);
            && reached == Addresses(FirstOccurrences(cs))
            && (forall i, j | 0 <= i < j < |reached| :: reached[i] != reached[j])
            && forall id :: id in reached <==> Holds(cs, id)
  {
    HandleFlattens(cs);
    OccurrencesAreLeaves(cs);
    FlattenedLeaves(FirstOccurrences(cs));
    OccurrencesAreUnique(cs);
    forall id
      ensures id in Addresses(FirstOccurrences(cs)) <==> Holds(cs, id)
    {
      FirstAt(FirstOccurrences(cs), id);
      OccurrencesHold(cs, id);
    }
  }

  // ---- when no leaf counts twice ----

  predicate NoRepeat(ids: seq<nat>) {
    forall i, j | 0 <= i < j < |ids| :: ids[i] != ids[j]
  }

  predicate Apart(a: seq<nat>, b: seq<nat>) {
    forall id | id in a :: id !in b
  }

  /** Each collector reaches a leaf at most once, and no two reach the same one. */
  predicate Separate(members: seq<Arc>) {
    && (forall i | 0 <= i < |members| :: NoRepeat(Leaves(members[i].collector)))
    && forall i, j | 0 <= i < j < |members| :: Apart(Leaves(members[i].collector), Leaves(members[j].collector))
  }

  lemma NoRepeatInSum(a: seq<nat>, b: seq<nat>)
    ensures NoRepeat(a + b) <==> NoRepeat(a) && NoRepeat(b) && Apart(a, b)
  {
    if NoRepeat(a + b) {
      PartsHaveNoRepeat(a, b);
    }
    if NoRepeat(a) && NoRepeat(b) && Apart(a, b) {
      SumHasNoRepeat(a, b);
    }
  }

  lemma PartsHaveNoRepeat(a: seq<nat>, b: seq<nat>)
    requires NoRepeat(a + b)
    ensures NoRepeat(a) && NoRepeat(b) && Apart(a, b)
  {
    var all := a + b;
    forall i, j | 0 <= i < j < |a|
      ensures a[i] != a[j]
    {
      assert all[i] != all[j];
    }
    forall i, j | 0 <= i < j < |b|
      ensures b[i] != b[j]
    {
      assert all[|a| + i] != all[|a| + j];
    }
    forall i, j | 0 <= i < |a| && 0 <= j < |b|
      ensures a[i] != b[j]
    {
      assert all[i] != all[|a| + j];
    }
  }

  lemma SumHasNoRepeat(a: seq<nat>, b: seq<nat>)
    requires NoRepeat(a) && NoRepeat(b) && Apart(a, b)
    ensures NoRepeat(a + b)
  {
    var all := a + b;
    forall i, j | 0 <= i < j < |all|
      ensures all[i] != all[j]
    {
      if i < |a| <= j {
        assert a[i] in a && b[j - |a|] in b;
      }
    }
  }

  lemma {:induction false} InFlattened(members: seq<Arc>, id: nat)
    ensures id in Flattened(members) <==> exists i | 0 <= i < |members| :: id in Leaves(members[i].collector)
  {
    if members != [] {
      var front, last := members[..|members| - 1], members[|members| - 1];
      InFlattened(front, id);
      assert forall i | 0 <= i < |front| :: front[i] == members[i];
    }
  }

  lemma {:induction false} ApartFromAll(members: seq<Arc>, ids: seq<nat>)
    ensures Apart(Flattened(members), ids) <==> forall i | 0 <= i < |members| :: Apart(Leaves(members[i].collector), ids)
  {
    forall id
      ensures id in Flattened(members) <==> exists i | 0 <= i < |members| :: id in Leaves(members[i].collector)
    {
      InFlattened(members, id);
    }
  }

  lemma {:induction false} FlattenedHasNoRepeat(members: seq<Arc>)
    ensures NoRepeat(Flattened(members)) <==> Separate(members)
  {
    if members != [] {
      var front, last := members[..|members| - 1], members[|members| - 1];
      FlattenedHasNoRepeat(front);
      NoRepeatInSum(Flattened(front), Leaves(last.collector));
      ApartFromAll(front, Leaves(last.collector));
      SeparateSnoc(front, last);
      assert members == front + [last];
    }
  }

  lemma SeparateSnoc(front: seq<Arc>, last: Arc)
    ensures Separate(front + [last]) <==>
            && Separate(front) && NoRepeat(Leaves(last.collector))
            && forall i | 0 <= i < |front| :: Apart(Leaves(front[i].collector), Leaves(last.collector))
  {
    var all := front + [last];
    assert forall i | 0 <= i < |front| :: all[i] == front[i];
    assert all[|front|] == last;
  }

  /** An observation reaches no leaf twice exactly when the registered collectors are separate. */
  lemma NoLeafCountsTwice(cs: seq<Arc>)
    ensures NoRepeat(Leaves(RegisterAll(cs).inner)) <==> Separate(FirstOccurrences(cs))
  {
    HandleFlattens(cs);
    FlattenedHasNoRepeat(FirstOccurrences(cs));
  }

  /** A composite registered beside its own leaf makes that leaf count twice. */
  lemma CompositeCountsTwice(leaf: Arc, composite: Arc)
    requires leaf.collector == Leaf(leaf.address) && composite.collector == Composite([leaf.collector])
    requires leaf.address != composite.address
    ensures Leaves(RegisterAll([leaf, composite]).inner) == [leaf.address, leaf.address]
  {
    var cs := [leaf, composite];
    assert cs[..1] == [leaf] && [leaf][..0] == [];
    assert RegisterAll([leaf]) == Handle(leaf.collector, [leaf]);
    assert !Holds([leaf], composite.address);
    LeavesOfPair(leaf.collector, composite.collector);
    var c := composite.collector;
    assert LeavesUpTo(c, 0) == [] && LeavesUpTo(c, 1) == LeavesUpTo(c, 0) + Leaves(c.collectors[0]);
  }

  // ---- registrations and observations interleaved ----

  datatype Action<E> = Register(c: Arc) | Observe(event: E)

  function RegisteredBefore<E>(actions: seq<Action<E>>): seq<Arc> {
    if actions == [] then []
    else
      RegisteredBefore(actions[..|actions| - 1]) +
      match actions[|actions| - 1] { case Register(c) => [c] case Observe(_) => [] }
  }

  datatype State<E> = State(handle: Handle, log: seq<Delivery<E>>)

  /** What the handle does. */
  function Run<E>(actions: seq<Action<E>>): State<E> {
    if actions == [] then State(UNREGISTERED, [])
    else
      var s := Run(actions[..|actions| - 1]);
      match actions[|actions| - 1]
      case Register(c) => s.(handle := Registered(s.handle, c))
      case Observe(event) => s.(log := s.log + Deliveries(Leaves(s.handle.inner), event))
  }

  /** What it should do: each observation goes once to each leaf registered before it. */
  function Expected<E>(actions: seq<Action<E>>): seq<Delivery<E>> {
    if actions == [] then []
    else
      var front := actions[..|actions| - 1];
      Expected(front) +
      match actions[|actions| - 1] {
        case Register(_) => []
        case Observe(event) => Deliveries(Addresses(FirstOccurrences(RegisteredBefore(front))), event)
      }
  }

  predicate OnlyLeaves<E>(actions: seq<Action<E>>) {
    forall i | 0 <= i < |actions| && actions[i].Register? :: actions[i].c.collector == Leaf(actions[i].c.address)
  }

  lemma {:induction false} RegisteredAreLeaves<E>(actions: seq<Action<E>>)
    requires OnlyLeaves(actions)
    ensures AllLeaves(RegisteredBefore(actions))
  {
    if actions != [] {
      RegisteredAreLeaves(actions[..|actions| - 1]);
    }
  }

  lemma {:induction false} RunHandle<E>(actions: seq<Action<E>>)
    ensures Run(actions).handle == RegisterAll(RegisteredBefore(actions))
  {
    if actions != [] {
      var front, last := actions[..|actions| - 1], actions[|actions| - 1];
      RunHandle(front);
      if last.Register? {
        var all := RegisteredBefore(actions);
        assert all == RegisteredBefore(front) + [last.c];
        assert all[..|all| - 1] == RegisteredBefore(front);
      } else {
        assert RegisteredBefore(front) + [] == RegisteredBefore(front);
      }
    }
  }

  /** Over every interleaving the log is exactly what was expected. */
  lemma {:induction false} RunLogs<E>(actions: seq<Action<E>>)
    requires OnlyLeaves(actions)
    ensures Run(actions).log == Expected(actions)
  {
    if actions != [] {
      var front := actions[..|actions| - 1];
      RunLogs(front);
      RunHandle(front);
      RegisteredAreLeaves(front);
      LeavesOfRegistered(RegisteredBefore(front));
    }
  }

  /** Observations before the first registration reach nobody. */
  lemma {:induction false} NothingBeforeRegistration<E>(actions: seq<Action<E>>)
    requires forall i | 0 <= i < |actions| :: actions[i].Observe?
    ensures Run(actions) == State(UNREGISTERED, [])
  {
    if actions != [] {
      NothingBeforeRegistration(actions[..|actions| - 1]);
    }
  }
}
