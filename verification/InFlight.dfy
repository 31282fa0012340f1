/**
 * The in-flight claim protocol: a shared counter, claims that are released once,
 * exchanges that carry claims, and waiters that are woken on the last release.
 *
 * Every atomic access of the source is one `Action`.  A release is two actions,
 * the decrement and the notification, and any action may come between them.
 */
module InFlight {

  /** The gauge counts in an unsigned 64-bit word. */
  const COUNT_LIMIT: nat := 0x1_0000_0000_0000_0000

  import opened Text

  type ClaimId = nat
  type ExchangeId = nat
  type WaiterId = nat

  /** A waiter registers before it reads the count and parks when it read a nonzero count. */
  datatype Waiter =
    | Registered(woken: bool)
    | Parked(woken: bool)
    | Settled

  function Wake(w: Waiter): Waiter {
    match w
    case Registered(_) => Registered(true)
    case Parked(_) => Parked(true)
    case Settled => Settled
  }

  /** What the gauge object itself holds: its counter and its notification slot. */
  datatype Gauge = Gauge(count: nat, waiters: map<WaiterId, Waiter>)

  function FetchAdd(g: Gauge): Gauge {
    g.(count := g.count + 1)
  }

  function FetchSub(g: Gauge): Gauge
    requires g.count > 0
  {
    g.(count := g.count - 1)
  }

  function NotifyWaiters(g: Gauge): Gauge {
    g.(waiters := map w | w in g.waiters :: Wake(g.waiters[w]))
  }

  function Enable(g: Gauge, w: WaiterId): Gauge {
    g.(waiters := g.waiters[w := Registered(false)])
  }

  /** Read the count: zero settles the waiter, anything else parks it with its wake-up kept. */
  function ReadTotal(g: Gauge, w: WaiterId): Gauge
    requires w in g.waiters && g.waiters[w].Registered?
  {
    g.(waiters := g.waiters[w := if g.count == 0 then Settled else Parked(g.waiters[w].woken)])
  }

  /**
   * The whole system: the gauge, the claims held directly, the claim each exchange
   * carries, and the releasers that took the count to zero and have not notified yet.
   */
  datatype System = System(
    gauge: Gauge,
    free: set<ClaimId>,
    carried: map<ExchangeId, Option<ClaimId>>,
    notifying: set<ClaimId>)

  datatype Action =
    | Attach(claim: ClaimId)
    | Split(parent: ClaimId, child: ClaimId)
    | NewExchange(ex: ExchangeId)
    | Carry(ex: ExchangeId, claim: ClaimId)
    | TakeBack(ex: ExchangeId)
    | CloneExchange(ex: ExchangeId, copy: ExchangeId)
    | BranchClone(ex: ExchangeId, copy: ExchangeId, child: ClaimId)
    | DropClaim(claim: ClaimId)
    | DropExchange(ex: ExchangeId)
    | Notify(releaser: ClaimId)
    | Register(w: WaiterId)
    | Check(w: WaiterId)
    | Abandon(w: WaiterId)

  const INITIAL := System(Gauge(0, map[]), {}, map[], {})

  function CarriedClaims(carried: map<ExchangeId, Option<ClaimId>>): set<ClaimId> {
    set ex | ex in carried && carried[ex].Some? :: carried[ex].value
  }

  /** The claims minted and not released, wherever they are held. */
  function LiveClaims(s: System): set<ClaimId> {
    s.free + CarriedClaims(s.carried)
  }

  predicate Unused(s: System, c: ClaimId) {
    c !in LiveClaims(s) && c !in s.notifying
  }

  predicate CanMint(s: System, c: ClaimId) {
    Unused(s, c) && s.gauge.count + 1 < COUNT_LIMIT
  }

  predicate Enabled(s: System, a: Action) {
    match a
    case Attach(c) => CanMint(s, c)
    case Split(parent, child) => parent in LiveClaims(s) && CanMint(s, child)
    case NewExchange(ex) => ex !in s.carried
    case Carry(ex, c) => ex in s.carried && s.carried[ex].None? && c in s.free
    case TakeBack(ex) => ex in s.carried
    case CloneExchange(ex, copy) => ex in s.carried && copy !in s.carried
    case BranchClone(ex, copy, child) =>
      ex in s.carried && copy !in s.carried && (s.carried[ex].Some? ==> CanMint(s, child))
    case DropClaim(c) => c in s.free && s.gauge.count > 0
    case DropExchange(ex) => ex in s.carried && (s.carried[ex].Some? ==> s.gauge.count > 0)
    case Notify(c) => c in s.notifying
    case Register(w) => w !in s.gauge.waiters || s.gauge.waiters[w] == Parked(true)
    case Check(w) => w in s.gauge.waiters && s.gauge.waiters[w].Registered?
    case Abandon(w) => w in s.gauge.waiters
  }

  /** The decrement half of a release: only the releaser that saw a count of one will notify. */
  function Decrement(s: System, c: ClaimId): System
    requires s.gauge.count > 0
  {
    s.(gauge := FetchSub(s.gauge),
       notifying := if s.gauge.count == 1 then s.notifying + {c} else s.notifying)
  }

  function Apply(s: System, a: Action): System
    requires Enabled(s, a)
  {
    match a
    case Attach(c) => s.(gauge := FetchAdd(s.gauge), free := s.free + {c})
    case Split(_, child) => s.(gauge := FetchAdd(s.gauge), free := s.free + {child})
    case NewExchange(ex) => s.(carried := s.carried[ex := None])
    case Carry(ex, c) => s.(carried := s.carried[ex := Some(c)], free := s.free - {c})
    case TakeBack(ex) =>
      s.(carried := s.carried[ex := None],
         free := if s.carried[ex].Some? then s.free + {s.carried[ex].value} else s.free)
    case CloneExchange(_, copy) => s.(carried := s.carried[copy := None])
    case BranchClone(ex, copy, child) =>
      if s.carried[ex].Some?
      then s.(gauge := FetchAdd(s.gauge), carried := s.carried[copy := Some(child)])
      else s.(carried := s.carried[copy := None])
    case DropClaim(c) => Decrement(s.(free := s.free - {c}), c)
    case DropExchange(ex) =>
      var rest := s.(carried := s.carried - {ex});
      if s.carried[ex].Some? then Decrement(rest, s.carried[ex].value) else rest
    case Notify(c) => s.(gauge := NotifyWaiters(s.gauge), notifying := s.notifying - {c})
    case Register(w) => s.(gauge := Enable(s.gauge, w))
    case Check(w) => s.(gauge := ReadTotal(s.gauge, w))
    case Abandon(w) => s.(gauge := s.gauge.(waiters := s.gauge.waiters - {w}))
  }

  /** `run` is a possible interleaving that leads from `s` to `t`. */
  ghost predicate Reaches(s: System, run: seq<Action>, t: System)
    decreases |run|
  {
    if run == [] then s == t
    else Enabled(s, run[0]) && Reaches(Apply(s, run[0]), run[1..], t)
  }

  // ---- what every step keeps ----

  ghost predicate Distinct(m: map<ExchangeId, Option<ClaimId>>) {
    forall e, f | e in m && f in m && e != f && m[e].Some? :: m[e] != m[f]
  }

  /** No claim has two holders. */
  ghost predicate SingleHolder(s: System) {
    Distinct(s.carried) && s.free !! CarriedClaims(s.carried)
  }

  ghost predicate Conserves(s: System) {
    && s.gauge.count == |LiveClaims(s)|
    && s.gauge.count < COUNT_LIMIT
  }

  predicate Asleep(w: Waiter) {
    w == Parked(false)
  }

  /** A parked waiter with no wake-up is owed one: a claim is live or a notification is pending. */
  ghost predicate NoLostWakeup(s: System) {
    forall w | w in s.gauge.waiters && Asleep(s.gauge.waiters[w]) ::
      s.gauge.count > 0 || s.notifying != {}
  }

  ghost predicate Inv(s: System) {
    && SingleHolder(s)
    && Conserves(s)
    && s.notifying !! LiveClaims(s)
    && NoLostWakeup(s)
  }

  /** The change each action makes to the set of live claims. */
  function LiveAfter(s: System, a: Action): set<ClaimId>
    requires Enabled(s, a)
  {
    match a
    case Attach(c) => LiveClaims(s) + {c}
    case Split(_, child) => LiveClaims(s) + {child}
    case BranchClone(ex, _, child) =>
      if s.carried[ex].Some? then LiveClaims(s) + {child} else LiveClaims(s)
    case DropClaim(c) => LiveClaims(s) - {c}
    case DropExchange(ex) =>
      if s.carried[ex].Some? then LiveClaims(s) - {s.carried[ex].value} else LiveClaims(s)
    case _ => LiveClaims(s)
  }

  lemma CarriedIff(m: map<ExchangeId, Option<ClaimId>>, c: ClaimId)
    ensures c in CarriedClaims(m) <==> exists ex :: ex in m && m[ex] == Some(c)
  {
    if c in CarriedClaims(m) {
      var ex :| ex in m && m[ex].Some? && m[ex].value == c;
      assert ex in m && m[ex] == Some(c);
    }
  }

  lemma CarryNothing(m: map<ExchangeId, Option<ClaimId>>, ex: ExchangeId)
    requires ex in m ==> m[ex].None?
    ensures CarriedClaims(m[ex := None]) == CarriedClaims(m)
    ensures CarriedClaims(m - {ex}) == CarriedClaims(m)
  {
    assert forall e | e in m && m[e].Some? :: m[ex := None][e] == m[e];
    assert forall e | e in m && m[e].Some? :: (m - {ex})[e] == m[e];
  }

  lemma CarryOne(m: map<ExchangeId, Option<ClaimId>>, ex: ExchangeId, c: ClaimId)
    requires ex in m ==> m[ex].None?
    ensures CarriedClaims(m[ex := Some(c)]) == CarriedClaims(m) + {c}
  {
    var n := m[ex := Some(c)];
    assert n[ex] == Some(c);
    assert forall e | e in m && m[e].Some? :: n[e] == m[e];
  }

  lemma CarryLess(m: map<ExchangeId, Option<ClaimId>>, ex: ExchangeId)
    requires ex in m && m[ex].Some? && Distinct(m)
    ensures CarriedClaims(m[ex := None]) == CarriedClaims(m) - {m[ex].value}
    ensures CarriedClaims(m - {ex}) == CarriedClaims(m) - {m[ex].value}
    ensures m[ex].value in CarriedClaims(m)
  {
    assert forall e | e in m && e != ex :: m[ex := None][e] == m[e] && (m - {ex})[e] == m[e];
  }

  lemma LiveStep(s: System, a: Action)
    requires SingleHolder(s) && Enabled(s, a)
    ensures LiveClaims(Apply(s, a)) == LiveAfter(s, a)
    ensures SingleHolder(Apply(s, a))
  {
    match a
    case Attach(_) =>
    case Split(_, _) =>
    case NewExchange(ex) => CarryNothing(s.carried, ex);
    case Carry(ex, c) => CarryOne(s.carried, ex, c);
      CarriedIff(s.carried, c);
    case TakeBack(ex) =>
      if s.carried[ex].Some? { CarryLess(s.carried, ex); } else { CarryNothing(s.carried, ex); }
    case CloneExchange(_, copy) => CarryNothing(s.carried, copy);
    case BranchClone(ex, copy, child) =>
      if s.carried[ex].Some? {
        CarryOne(s.carried, copy, child);
        CarriedIff(s.carried, child);
      } else {
        CarryNothing(s.carried, copy);
      }
    case DropClaim(_) =>
    case DropExchange(ex) =>
      if s.carried[ex].Some? { CarryLess(s.carried, ex); } else { CarryNothing(s.carried, ex); }
    case Notify(_) =>
    case Register(_) =>
    case Check(_) =>
    case Abandon(_) =>
  }

  lemma CountStep(s: System, a: Action)
    requires Inv(s) && Enabled(s, a)
    ensures Conserves(Apply(s, a))
    ensures Apply(s, a).notifying !! LiveClaims(Apply(s, a))
  {
    LiveStep(s, a);
    CountAfter(s, a);
  }

  lemma CountAfter(s: System, a: Action)
    requires Inv(s) && Enabled(s, a)
    ensures Apply(s, a).gauge.count == |LiveAfter(s, a)| < COUNT_LIMIT
    ensures Apply(s, a).notifying !! LiveAfter(s, a)
  {
    if a.DropExchange? && s.carried[a.ex].Some? {
      DropCounts(s, a.ex);
    }
  }

  lemma DropCounts(s: System, ex: ExchangeId)
    requires Inv(s) && Enabled(s, DropExchange(ex)) && s.carried[ex].Some?
    ensures Apply(s, DropExchange(ex)).gauge.count == |LiveAfter(s, DropExchange(ex))| < COUNT_LIMIT
    ensures Apply(s, DropExchange(ex)).notifying !! LiveAfter(s, DropExchange(ex))
  {
    CarryLess(s.carried, ex);
  }

  lemma WakeStep(s: System, a: Action)
    requires NoLostWakeup(s) && Enabled(s, a)
    ensures NoLostWakeup(Apply(s, a))
  {
    var t := Apply(s, a);
    forall w | w in t.gauge.waiters && Asleep(t.gauge.waiters[w])
      ensures t.gauge.count > 0 || t.notifying != {}
    {
      assert w in s.gauge.waiters;
      if !Asleep(s.gauge.waiters[w]) {
        assert a.Check?;
      }
    }
  }

  lemma InvStep(s: System, a: Action)
    requires Inv(s) && Enabled(s, a)
    ensures Inv(Apply(s, a))
  {
    LiveStep(s, a);
    CountStep(s, a);
    WakeStep(s, a);
  }

  lemma {:induction false} InvRun(s: System, run: seq<Action>, t: System)
    requires Inv(s) && Reaches(s, run, t)
    ensures Inv(t)
    decreases |run|
  {
    if run != [] {
      InvStep(s, run[0]);
      InvRun(Apply(s, run[0]), run[1..], t);
    }
  }

  // ---- main results, over every interleaving from the initial state ----

  /** The gauge is the number of live claims, each with one holder, and a held claim can always be released. */
  lemma Conservation(run: seq<Action>, s: System)
    requires Reaches(INITIAL, run, s)
    ensures s.gauge.count == |LiveClaims(s)|
    ensures SingleHolder(s)
    ensures forall c | c in s.free :: Enabled(s, DropClaim(c))
    ensures forall ex | ex in s.carried :: Enabled(s, DropExchange(ex))
  {
    InvRun(INITIAL, run, s);
    forall ex | ex in s.carried
      ensures Enabled(s, DropExchange(ex))
    {
      CarrierMayDrop(s, ex);
    }
  }

  lemma CarrierMayDrop(s: System, ex: ExchangeId)
    requires SingleHolder(s) && s.gauge.count == |LiveClaims(s)| && ex in s.carried
    ensures Enabled(s, DropExchange(ex))
  {
    if s.carried[ex].Some? {
      CarryLess(s.carried, ex);
      assert s.carried[ex].value in LiveClaims(s);
    }
  }

  /** The count falls to zero exactly when the last live claim goes, and only that releaser will notify. */
  lemma LastRelease(run: seq<Action>, s: System, a: Action)
    requires Reaches(INITIAL, run, s) && Enabled(s, a)
    ensures var t := Apply(s, a);
            (s.gauge.count > 0 && t.gauge.count == 0) <==> (LiveClaims(s) != {} && LiveClaims(t) == {})
    ensures var t := Apply(s, a);
            t.notifying - s.notifying ==
            if s.gauge.count > 0 && t.gauge.count == 0 then LiveClaims(s) else {}
  {
    InvRun(INITIAL, run, s);
    InvStep(s, a);
    LiveStep(s, a);
    if a.DropExchange? && s.carried[a.ex].Some? {
      CarryLess(s.carried, a.ex);
    }
    if (a.DropClaim? || a.DropExchange?) && s.gauge.count == 1 {
      SingletonOf(LiveClaims(s));
    }
  }

  lemma SingletonOf(cs: set<ClaimId>)
    requires |cs| == 1
    ensures forall c | c in cs :: cs == {c}
  {
    forall c | c in cs
      ensures cs == {c}
    {
      assert |cs - {c}| == 0;
    }
  }

  /** Register-before-check loses no wake-up, whatever runs between a decrement and its notification. */
  lemma WakeupsAreNotLost(run: seq<Action>, s: System, w: WaiterId)
    requires Reaches(INITIAL, run, s)
    requires w in s.gauge.waiters && s.gauge.waiters[w].Parked?
    ensures s.gauge.waiters[w].woken || LiveClaims(s) != {} || s.notifying != {}
  {
    InvRun(INITIAL, run, s);
    if s.gauge.count > 0 {
      assert |LiveClaims(s)| > 0;
    }
  }

  /** A waiter that reads the count settles exactly when no claim is live. */
  lemma SettlesAtQuiescence(run: seq<Action>, s: System, w: WaiterId)
    requires Reaches(INITIAL, run, s) && Enabled(s, Check(w))
    ensures Apply(s, Check(w)).gauge.waiters[w] == Settled <==> LiveClaims(s) == {}
  {
    InvRun(INITIAL, run, s);
  }

  predicate IsRelease(a: Action) {
    a.DropClaim? || a.DropExchange? || a.Notify?
  }

  /** An upper bound on the release actions that can still happen. */
  function Work(s: System): nat {
    2 * (|s.free| + |s.carried|) + |s.notifying|
  }

  lemma ReleaseShrinksWork(s: System, a: Action)
    requires Inv(s) && Enabled(s, a) && IsRelease(a)
    ensures Work(Apply(s, a)) < Work(s)
  {
    if a.DropExchange? {
      OneExchangeLess(s.carried, a.ex);
    }
  }

  lemma OneExchangeLess(m: map<ExchangeId, Option<ClaimId>>, ex: ExchangeId)
    requires ex in m
    ensures |m - {ex}| == |m| - 1
  {
    var rest := m - {ex};
    assert rest.Keys == m.Keys - {ex};
    assert |rest.Keys| == |m.Keys| - 1;
  }

  lemma {:induction false} ReleasesTerminate(s: System, run: seq<Action>, t: System)
    requires Inv(s) && Reaches(s, run, t) && forall a | a in run :: IsRelease(a)
    ensures |run| + Work(t) <= Work(s)
    decreases |run|
  {
    if run != [] {
      assert run[0] in run;
      ReleaseShrinksWork(s, run[0]);
      InvStep(s, run[0]);
      assert forall a | a in run[1..] :: a in run;
      ReleasesTerminate(Apply(s, run[0]), run[1..], t);
    }
  }

  /**
   * Progress: from any reachable state the releases alone end within `Work` steps in any order,
   * and once none is possible the gauge is at zero and no parked waiter is still asleep.
   */
  lemma DrainWakesEveryone(run: seq<Action>, s: System, releases: seq<Action>, t: System)
    requires Reaches(INITIAL, run, s)
    requires Reaches(s, releases, t) && forall a | a in releases :: IsRelease(a)
    ensures |releases| <= Work(s)
    ensures (exists a :: IsRelease(a) && Enabled(t, a)) ||
            (t.gauge.count == 0 && forall w | w in t.gauge.waiters :: !Asleep(t.gauge.waiters[w]))
  {
    InvRun(INITIAL, run, s);
    ReleasesTerminate(s, releases, t);
    InvRun(s, releases, t);
    if t.gauge.count > 0 || t.notifying != {} {
      ReleasePossible(t);
    }
  }

  lemma ReleasePossible(t: System)
    requires Inv(t) && (t.gauge.count > 0 || t.notifying != {})
    ensures exists a :: IsRelease(a) && Enabled(t, a)
  {
    if t.notifying != {} {
      var c :| c in t.notifying;
      assert IsRelease(Notify(c)) && Enabled(t, Notify(c));
    } else {
      var c :| c in LiveClaims(t);
      if c in t.free {
        assert IsRelease(DropClaim(c)) && Enabled(t, DropClaim(c));
      } else {
        CarriedIff(t.carried, c);
        var ex :| ex in t.carried && t.carried[ex] == Some(c);
        assert IsRelease(DropExchange(ex)) && Enabled(t, DropExchange(ex));
      }
    }
  }

  // ---- wake-ups that are not a zero ----

  /** No step of the run takes the count from positive to zero. */
  ghost predicate NoLastRelease(s: System, run: seq<Action>)
    decreases |run|
  {
    run == [] ||
    (Enabled(s, run[0]) &&
     (var t := Apply(s, run[0]); (t.gauge.count == 0 ==> s.gauge.count == 0) && NoLastRelease(t, run[1..])))
  }

  predicate Woken(w: Waiter) {
    (w.Registered? || w.Parked?) && w.woken
  }

  ghost predicate Quiet(s: System) {
    s.notifying == {} && forall w | w in s.gauge.waiters :: !Woken(s.gauge.waiters[w])
  }

  /** No waiter is woken in a run without a last release. */
  lemma {:induction false} OnlyLastReleaseWakes(s: System, run: seq<Action>, t: System)
    requires Quiet(s) && Reaches(s, run, t) && NoLastRelease(s, run)
    ensures Quiet(t)
    decreases |run|
  {
    if run != [] {
      OnlyLastReleaseWakes(Apply(s, run[0]), run[1..], t);
    }
  }

  // ---- whether a woken waiter still finds the zero it was woken for ----

  predicate NoAttach(run: seq<Action>) {
    forall a | a in run :: !a.Attach?
  }

  /** The count is zero in every state of the run. */
  ghost predicate ZeroThroughout(s: System, run: seq<Action>)
    decreases |run|
  {
    s.gauge.count == 0 && (run != [] && Enabled(s, run[0]) ==> ZeroThroughout(Apply(s, run[0]), run[1..]))
  }

  /** At zero only a fresh attach can count: every other way to mint needs a live claim. */
  lemma StepFromZero(s: System, a: Action)
    requires Inv(s) && s.gauge.count == 0 && Enabled(s, a)
    ensures Apply(s, a).gauge.count == 0 <==> !a.Attach?
  {
    assert LiveClaims(s) == {};
    match a
    case BranchClone(ex, _, _) => if s.carried[ex].Some? { CarriedIsLive(s, ex); }
    case DropExchange(ex) => if s.carried[ex].Some? { CarriedIsLive(s, ex); }
    case _ =>
  }

  lemma CarriedIsLive(s: System, ex: ExchangeId)
    requires ex in s.carried && s.carried[ex].Some?
    ensures s.carried[ex].value in LiveClaims(s)
  {
  }

  lemma NoAttachCons(run: seq<Action>)
    requires run != []
    ensures NoAttach(run) <==> !run[0].Attach? && NoAttach(run[1..])
  {
    assert run == [run[0]] + run[1..];
  }

  /** From a zero, the count is zero throughout a run exactly when the run attaches nothing. */
  lemma {:induction false} ZeroStaysWithoutAttach(s: System, run: seq<Action>, t: System)
    requires Inv(s) && s.gauge.count == 0 && Reaches(s, run, t)
    ensures ZeroThroughout(s, run) <==> NoAttach(run)
    decreases |run|
  {
    if run != [] {
      var next := Apply(s, run[0]);
      NoAttachCons(run);
      StepFromZero(s, run[0]);
      InvStep(s, run[0]);
      if next.gauge.count == 0 {
        ZeroStaysWithoutAttach(next, run[1..], t);
      }
    }
  }

  lemma {:induction false} PositiveStays(s: System, run: seq<Action>, t: System)
    requires s.gauge.count > 0 && Reaches(s, run, t) && NoLastRelease(s, run)
    ensures t.gauge.count > 0
    decreases |run|
  {
    if run != [] {
      PositiveStays(Apply(s, run[0]), run[1..], t);
    }
  }

  /** Until the next last release, the zero is still there at the end exactly without an attach. */
  lemma {:induction false} ZeroAtEnd(s: System, run: seq<Action>, t: System)
    requires Inv(s) && s.gauge.count == 0 && Reaches(s, run, t) && NoLastRelease(s, run)
    ensures t.gauge.count == 0 <==> NoAttach(run)
    decreases |run|
  {
    if run != [] {
      var next := Apply(s, run[0]);
      NoAttachCons(run);
      StepFromZero(s, run[0]);
      InvStep(s, run[0]);
      if next.gauge.count == 0 {
        ZeroAtEnd(next, run[1..], t);
      } else {
        PositiveStays(next, run[1..], t);
      }
    }
  }

  /** The action `a` is a last release. */
  ghost predicate ReleasesLast(s: System, a: Action, zero: System) {
    Enabled(s, a) && zero == Apply(s, a) && s.gauge.count > 0 && zero.gauge.count == 0
  }

  /** The notification that `c` owes wakes the parked waiter `w`, which registers again. */
  ghost predicate WakesAndRegisters(u: System, c: ClaimId, w: WaiterId, woken: System, again: System) {
    && Enabled(u, Notify(c)) && woken == Apply(u, Notify(c))
    && w in u.gauge.waiters && u.gauge.waiters[w].Parked?
    && Enabled(woken, Register(w)) && again == Apply(woken, Register(w))
  }

  lemma WakeKeepsCount(u: System, c: ClaimId, w: WaiterId, woken: System, again: System)
    requires Inv(u) && WakesAndRegisters(u, c, w, woken, again)
    ensures Inv(again) && again.gauge.count == u.gauge.count
    ensures w in woken.gauge.waiters && woken.gauge.waiters[w] == Parked(true)
  {
    InvStep(u, Notify(c));
    InvStep(woken, Register(w));
  }

  /**
   * A last release `a`, anything `between` it and its notification, the notification that wakes a
   * parked waiter, the waiter registering again, anything `after`, and the waiter's next read: the
   * read observes the zero of that release exactly when nothing was attached since.  A later last
   * release would make a new zero, so the runs hold none.
   */
  lemma {:induction false} WokenObservesZero(
      before: seq<Action>, s: System, a: Action, zero: System, between: seq<Action>, u: System,
      c: ClaimId, w: WaiterId, woken: System, again: System, after: seq<Action>, t: System)
    requires Reaches(INITIAL, before, s) && ReleasesLast(s, a, zero) && c in LiveClaims(s)
    requires Reaches(zero, between, u) && NoLastRelease(zero, between)
    requires WakesAndRegisters(u, c, w, woken, again)
    requires Reaches(again, after, t) && NoLastRelease(again, after)
    requires Enabled(t, Check(w))
    ensures w in woken.gauge.waiters && woken.gauge.waiters[w] == Parked(true)
    ensures Apply(t, Check(w)).gauge.waiters[w] == Settled <==> NoAttach(between) && NoAttach(after)
  {
    InvRun(INITIAL, before, s);
    InvStep(s, a);
    InvRun(zero, between, u);
    ZeroAtEnd(zero, between, u);
    WakeKeepsCount(u, c, w, woken, again);
    if u.gauge.count == 0 {
      ZeroAtEnd(again, after, t);
    } else {
      PositiveStays(again, after, t);
    }
  }

  /**
   * A woken waiter need not observe the zero it was woken for: a claim minted between the
   * decrement and its notification makes the count nonzero throughout the wait.
   */
  lemma WokenWithoutZero()
    ensures exists run, s ::
              Reaches(INITIAL, run, s) && s.gauge.waiters == map[0 := Parked(true)] && s.gauge.count == 1
  {
    var s1 := Apply(INITIAL, Attach(0));
    var s2 := Apply(s1, DropClaim(0));
    var s3 := Apply(s2, Attach(1));
    var s4 := Apply(s3, Register(0));
    var s5 := Apply(s4, Check(0));
    var s6 := Apply(s5, Notify(0));
    Prepend(s5, Notify(0), [], s6);
    Prepend(s4, Check(0), [Notify(0)], s6);
    Prepend(s3, Register(0), [Check(0), Notify(0)], s6);
    Prepend(s2, Attach(1), [Register(0), Check(0), Notify(0)], s6);
    Prepend(s1, DropClaim(0), [Attach(1), Register(0), Check(0), Notify(0)], s6);
    Prepend(INITIAL, Attach(0), [DropClaim(0), Attach(1), Register(0), Check(0), Notify(0)], s6);
    assert s6.gauge.waiters == map[0 := Parked(true)];
  }

  lemma Prepend(s: System, a: Action, run: seq<Action>, t: System)
    requires Enabled(s, a) && Reaches(Apply(s, a), run, t)
    ensures Reaches(s, [a] + run, t)
  {
    assert ([a] + run)[1..] == run;
  }
}
