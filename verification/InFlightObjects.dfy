/**
 * The objects of the in-flight protocol: the gauge, the claim that is released by its
 * drop, and the exchange that may carry a claim.  Each atomic method of the gauge
 * performs one gauge step of `InFlight`.
 */
module InFlightObjects {
  import opened InFlight

  class InFlightGauge {
    var count: nat
    var waiters: map<WaiterId, Waiter>
    /** The claims attached to this gauge and not dropped. */
    ghost var live: set<InFlightClaim>

    ghost predicate Valid()
      reads this
    {
      count == |live| && count < COUNT_LIMIT
    }

    function State(): Gauge
      reads this
    {
      Gauge(count, waiters)
    }

    constructor ()
      ensures Valid() && live == {} && State() == INITIAL.gauge
    {
      count, waiters, live := 0, map[], {};
    }

    method Inc()
      requires count + 1 < COUNT_LIMIT
      modifies this`count
      ensures State() == FetchAdd(old(State()))
    {
      count := count + 1;
    }

    /** The decrement and, for the last release, the notification, with nothing in between. */
    method Dec()
      requires count > 0
      modifies this`count, this`waiters
      ensures State() == if old(count) == 1 then NotifyWaiters(FetchSub(old(State()))) else FetchSub(old(State()))
    {
      var prev := count;
      count := count - 1;
      if prev == 1 {
        waiters := map w | w in waiters :: Wake(waiters[w]);
      }
    }

    method Total() returns (n: nat)
      requires Valid()
      ensures n == |live|
    {
      n := count;
    }

    /** One pass of the settle loop: enable the notification, then read the count. */
    method RegisterThenCheck(w: WaiterId) returns (settled: bool)
      requires Valid()
      modifies this`waiters
      ensures State() == ReadTotal(Enable(old(State()), w), w)
      ensures settled <==> live == {}
    {
      waiters := waiters[w := Registered(false)];
      settled := count == 0;
      waiters := waiters[w := if settled then Settled else Parked(false)];
    }
  }

  class InFlightClaim {
    const gauge: InFlightGauge

    /** Mint a claim: the gauge counts it from now on. */
    constructor Attach(gauge: InFlightGauge)
      requires gauge.Valid() && gauge.count + 1 < COUNT_LIMIT
      modifies gauge`count, gauge`live
      ensures this.gauge == gauge && gauge.Valid()
      ensures gauge.live == old(gauge.live) + {this} && this !in old(gauge.live)
    {
      this.gauge := gauge;
      new;
      gauge.Inc();
      gauge.live := gauge.live + {this};
    }

    /** Mint a sibling on the same gauge; this claim stays live. */
    method Split() returns (sibling: InFlightClaim)
      requires gauge.Valid() && this in gauge.live && gauge.count + 1 < COUNT_LIMIT
      modifies gauge`count, gauge`live
      ensures fresh(sibling) && sibling.gauge == gauge && gauge.Valid()
      ensures gauge.live == old(gauge.live) + {sibling} && sibling !in old(gauge.live)
    {
      sibling := new InFlightClaim.Attach(gauge);
    }

    /** Release: the waiters are notified exactly when this was the last live claim. */
    method Drop()
      requires gauge.Valid() && this in gauge.live
      modifies gauge
      ensures gauge.Valid() && gauge.live == old(gauge.live) - {this}
      ensures gauge.State() ==
              if old(gauge.live) == {this} then NotifyWaiters(FetchSub(old(gauge.State())))
              else FetchSub(old(gauge.State()))
    {
      assert gauge.live == {this} <==> gauge.count == 1 by {
        assert |gauge.live - {this}| == gauge.count - 1;
      }
      gauge.Dec();
      gauge.live := gauge.live - {this};
    }
  }

  /** An exchange; `content` stands for everything a plain copy duplicates. */
  class Exchange<T> {
    var content: T
    var claim: InFlightClaim?

    constructor (content: T)
      ensures this.content == content && claim == null
    {
      this.content, claim := content, null;
    }

    /** A plain copy never carries a claim. */
    method Clone() returns (copy: Exchange<T>)
      ensures fresh(copy) && copy.content == content && copy.claim == null
    {
      copy := new Exchange<T>(content);
    }

    /** A branch copy carries a sibling exactly when the original carries a claim. */
    method BranchClone() returns (copy: Exchange<T>)
      requires claim != null ==> claim.gauge.Valid() && claim in claim.gauge.live && claim.gauge.count + 1 < COUNT_LIMIT
      modifies if claim == null then {} else {claim.gauge}
      ensures fresh(copy) && copy.content == content && claim == old(claim)
      ensures claim == null ==> copy.claim == null
      ensures claim != null ==>
                && copy.claim != null && fresh(copy.claim) && copy.claim.gauge == claim.gauge
                && claim.gauge.Valid() && claim.gauge.live == old(claim.gauge.live) + {copy.claim}
                && claim.gauge.waiters == old(claim.gauge.waiters)
    {
      copy := Clone();
      if claim != null {
        var sibling := claim.Split();
        copy.claim := sibling;
      }
    }
  }
}
