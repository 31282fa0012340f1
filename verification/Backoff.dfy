/**
 * Three capped exponential backoffs: a formula by attempt number, a stateful tracker, and a
 * redelivery formula with jitter.  Durations are whole milliseconds, floating point is exact,
 * and the cast of the attempt number to a signed 32-bit exponent is modelled.
 */
module Backoff {

  /** The documentation demands a multiplier of at least one. */
  datatype Config = Config(initial: nat, multiplier: real, max: nat) {
    predicate Valid() {
      multiplier >= 1.0
    }
  }

  function Min(a: int, b: int): int {
    if a < b then a else b
  }

  /** A product, by name. */
  function Times(a: real, b: real): real {
    a * b
  }

  function Power(m: real, n: nat): real {
    if n == 0 then 1.0 else Times(m, Power(m, n - 1))
  }

  const I32_LIMIT: nat := 0x8000_0000
  const U32_LIMIT: nat := 0x1_0000_0000

  /** `attempt as i32`: large attempts wrap to negative numbers. */
  function AsI32(attempt: nat): int {
    if attempt < I32_LIMIT then attempt else attempt - U32_LIMIT
  }

  function Powi(m: real, e: int): real
    requires m >= 1.0
  {
    PowerIsPositive(m, if e < 0 then -e else e);
    if e >= 0 then Power(m, e) else 1.0 / Power(m, -e)
  }

  // ---- the three computations ----

  function DelayForAttempt(c: Config, attempt: nat): nat
    requires c.Valid() && attempt < U32_LIMIT
  {
    var e := Min(AsI32(attempt), 63);
    PowiIsPositive(c.multiplier, e);
    Min((Times(c.initial as real, Powi(c.multiplier, e))).Floor, c.max)
  }

  /** One step of the tracker. */
  function NextOf(c: Config, delay: nat): nat
    requires c.Valid()
  {
    Min(Times(delay as real, c.multiplier).Floor, c.max)
  }

  class BackoffState {
    const config: Config
    var currentDelay: nat

    constructor (config: Config)
      ensures this.config == config && currentDelay == config.initial
    {
      this.config := config;
      currentDelay := config.initial;
    }

    method NextDelay() returns (delay: nat)
      requires config.Valid()
      modifies this
      ensures delay == old(currentDelay) && currentDelay == NextOf(config, delay)
    {
      delay := currentDelay;
      var millis := Times(delay as real, config.multiplier).Floor;
      currentDelay := if millis < config.max then millis else config.max;
    }

    method Reset()
      modifies this
      ensures currentDelay == config.initial
    {
      currentDelay := config.initial;
    }
  }

  /** The delay the tracker returns on its call number `n` since the last reset. */
  function Stateful(c: Config, n: nat): nat
    requires c.Valid()
  {
    if n == 0 then c.initial else NextOf(c, Stateful(c, n - 1))
  }

  datatype Call = Next | Reset

  /** How many delays were asked for since the last reset. */
  function SinceReset(calls: seq<Call>): nat {
    if calls == [] || calls[|calls| - 1] == Reset then 0 else 1 + SinceReset(calls[..|calls| - 1])
  }

  /** What the delays should be: each one depends only on how many came since the last reset. */
  function Expected(c: Config, calls: seq<Call>): seq<nat>
    requires c.Valid()
  {
    if calls == [] then []
    else
      var before := calls[..|calls| - 1];
      Expected(c, before) + if calls[|calls| - 1] == Next then [Stateful(c, SinceReset(before))] else []
  }

  /** A tracker put through any calls returns exactly these delays; a reset makes it as good as new. */
  method Replay(c: Config, calls: seq<Call>) returns (delays: seq<nat>)
    requires c.Valid()
    ensures delays == Expected(c, calls)
  {
    var state := new BackoffState(c);
    delays := [];
    for i := 0 to |calls|
      invariant state.config == c && state.currentDelay == Stateful(c, SinceReset(calls[..i]))
      invariant delays == Expected(c, calls[..i])
    {
      assert calls[..i + 1][..i] == calls[..i];
      match calls[i] {
        case Next =>
          var d := state.NextDelay();
          delays := delays + [d];
        case Reset =>
          state.Reset();
      }
    }
    assert calls[..|calls|] == calls;
  }

  /** Supervision counts attempts from one; attempt zero is the initial delay, uncapped. */
  function SupervisionDelay(c: Config, attempt: nat): nat
    requires c.Valid() && attempt < U32_LIMIT
  {
    if attempt == 0 then c.initial else DelayForAttempt(c, attempt - 1)
  }

  function Clamped(j: real): real {
    if j < 0.0 then 0.0 else if j > 1.0 then 1.0 else j
  }

  function RealMin(a: real, b: real): real {
    if a <= b then a else b
  }

  /** The redelivery delay before jitter; this one does not limit the exponent to 63. */
  function CappedMillis(c: Config, attempt: nat): real
    requires c.Valid() && attempt < U32_LIMIT
  {
    RealMin(Times(c.initial as real, Powi(c.multiplier, AsI32(attempt))), c.max as real)
  }

  /** The jitter factor is what `with_jitter` stored; `random` is the number drawn from [0, 1). */
  function DelayFor(c: Config, jitter: real, random: real, attempt: nat): int
    requires c.Valid() && attempt < U32_LIMIT
  {
    var capped := CappedMillis(c, attempt);
    if jitter > 0.0 then
      var moved := capped + Times(Times(capped, jitter), random * 2.0 - 1.0);
      (if moved < 0.0 then 0.0 else moved).Floor
    else capped.Floor
  }

  // ---- powers ----

  lemma {:induction false} PowerIsPositive(m: real, n: nat)
    requires m >= 1.0
    ensures Power(m, n) >= 1.0
  {
    if n > 0 {
      PowerIsPositive(m, n - 1);
      MulGrows(Power(m, n - 1), m);
    }
  }

  lemma MulGrows(x: real, m: real)
    requires x >= 0.0 && m >= 1.0
    ensures Times(m, x) >= x && Times(x, m) >= x
  {
    assert (m - 1.0) * x >= 0.0;
  }

  lemma MulMono(a: real, b: real, m: real)
    requires a <= b && m >= 0.0
    ensures Times(a, m) <= Times(b, m) && Times(m, a) <= Times(m, b)
  {
    assert (b - a) * m >= 0.0;
  }

  lemma PowiIsPositive(m: real, e: int)
    requires m >= 1.0
    ensures Powi(m, e) > 0.0
    ensures e >= 0 ==> Powi(m, e) >= 1.0
  {
    PowerIsPositive(m, if e < 0 then -e else e);
  }

  lemma {:induction false} PowerMono(m: real, a: nat, b: nat)
    requires m >= 1.0 && a <= b
    ensures Power(m, a) <= Power(m, b)
    decreases b
  {
    if a < b {
      PowerMono(m, a, b - 1);
      PowerIsPositive(m, b - 1);
      MulGrows(Power(m, b - 1), m);
    }
  }

  // ---- the formula ----

  lemma FloorMin(x: real, cap: nat)
    ensures RealMin(x, cap as real).Floor == Min(x.Floor, cap)
  {
  }

  /** Below the exponent limit the formula is the capped power, as documented. */
  lemma Formula(c: Config, n: nat)
    requires c.Valid() && n <= 63
    ensures DelayForAttempt(c, n) == Min(Times(c.initial as real, Power(c.multiplier, n)).Floor, c.max)
  {
    assert Min(AsI32(n), 63) == n;
    assert Powi(c.multiplier, n) == Power(c.multiplier, n);
  }

  lemma BeyondLimit(c: Config, n: nat)
    requires c.Valid() && 63 <= n < I32_LIMIT
    ensures DelayForAttempt(c, n) == DelayForAttempt(c, 63)
  {
  }

  /** The formula never falls and never passes the cap, up to the sign change of the exponent. */
  lemma FormulaIsMonotone(c: Config, m: nat, n: nat)
    requires c.Valid() && m <= n < I32_LIMIT
    ensures DelayForAttempt(c, m) <= DelayForAttempt(c, n) <= c.max
  {
    var a, b := Min(m, 63), Min(n, 63);
    PowerMono(c.multiplier, a, b);
    MulMono(Power(c.multiplier, a), Power(c.multiplier, b), c.initial as real);
  }

  // ---- the tracker ----

  lemma NextIsBelow(c: Config, prev: nat, x: real)
    requires c.Valid() && prev as real <= x
    ensures NextOf(c, prev) as real <= Times(c.multiplier, x) && NextOf(c, prev) <= c.max
  {
    MulMono(prev as real, x, c.multiplier);
  }

  lemma Reassociate(a: real, b: real, c: real)
    ensures Times(a, Times(b, c)) == Times(b, Times(a, c))
  {
  }

  lemma {:induction false} StatefulBelowPower(c: Config, n: nat)
    requires c.Valid() && c.initial <= c.max
    ensures Stateful(c, n) <= c.max
    ensures Stateful(c, n) as real <= Times(c.initial as real, Power(c.multiplier, n))
  {
    if n > 0 {
      StatefulBelowPower(c, n - 1);
      NextIsBelow(c, Stateful(c, n - 1), Times(c.initial as real, Power(c.multiplier, n - 1)));
      Reassociate(c.multiplier, c.initial as real, Power(c.multiplier, n - 1));
    }
  }

  lemma WholeIsBelowFloor(k: nat, x: real)
    requires k as real <= x
    ensures k <= x.Floor
  {
  }

  /** The tracker never waits longer than the formula: it also rounds down at every step. */
  lemma StatefulBelowFormula(c: Config, n: nat)
    requires c.Valid() && c.initial <= c.max && n <= 63
    ensures Stateful(c, n) <= DelayForAttempt(c, n)
  {
    StatefulBelowPower(c, n);
    WholeIsBelowFloor(Stateful(c, n), Times(c.initial as real, Power(c.multiplier, n)));
    Formula(c, n);
  }

  lemma StepIsStill(c: Config, prev: nat)
    requires c.Valid() && prev <= c.max
    ensures NextOf(c, prev) == prev <==> Times(prev as real, c.multiplier - 1.0) < 1.0 || prev == c.max
  {
    var growth := Times(prev as real, c.multiplier - 1.0);
    assert Times(prev as real, c.multiplier) == prev as real + growth;
    NextIsAbove(c, prev);
  }

  lemma {:induction false} StillOnceStillForEver(c: Config, n: nat)
    requires c.Valid() && NextOf(c, c.initial) == c.initial
    ensures Stateful(c, n) == c.initial
  {
    if n > 0 {
      StillOnceStillForEver(c, n - 1);
    }
  }

  /**
   * The tracker stands still for ever exactly when one step gains less than a millisecond, or when
   * it starts at the cap.
   */
  lemma StandsStillCondition(c: Config)
    requires c.Valid() && c.initial <= c.max
    ensures (forall n: nat :: Stateful(c, n) == c.initial) <==>
            Times(c.initial as real, c.multiplier - 1.0) < 1.0 || c.initial == c.max
  {
    StepIsStill(c, c.initial);
    if NextOf(c, c.initial) == c.initial {
      forall n: nat
        ensures Stateful(c, n) == c.initial
      {
        StillOnceStillForEver(c, n);
      }
    } else {
      assert Stateful(c, 1) == NextOf(c, Stateful(c, 0));
    }
  }

  /** Such a tracker, while the formula grows. */
  lemma TrackerMayStandStill(max: nat, n: nat)
    requires max >= 2
    ensures Stateful(Config(1, 1.5, max), n) == 1
    ensures DelayForAttempt(Config(1, 1.5, max), 2) == 2
  {
    var c := Config(1, 1.5, max);
    Formula(c, 2);
    assert Power(1.5, 0) == 1.0 && Power(1.5, 1) == 1.5 && Power(1.5, 2) == 2.25;
    assert Times(1 as real, 1.5 - 1.0) < 1.0;
    StandsStillCondition(c);
  }

  lemma NextIsAbove(c: Config, prev: nat)
    requires c.Valid() && prev <= c.max
    ensures prev <= NextOf(c, prev)
  {
    MulGrows(prev as real, c.multiplier);
    WholeIsBelowFloor(prev, Times(prev as real, c.multiplier));
  }

  lemma StatefulIsMonotone(c: Config, n: nat)
    requires c.Valid() && c.initial <= c.max
    ensures Stateful(c, n) <= Stateful(c, n + 1) <= c.max
  {
    StatefulBelowPower(c, n);
    NextIsAbove(c, Stateful(c, n));
  }

  // ---- whole multipliers ----

  function NatPower(k: nat, n: nat): nat {
    if n == 0 then 1 else k * NatPower(k, n - 1)
  }

  lemma {:induction false} WholePower(k: nat, n: nat)
    ensures Power(k as real, n) == NatPower(k, n) as real
  {
    if n > 0 {
      WholePower(k, n - 1);
    }
  }

  lemma ScaledWhole(initial: nat, k: nat, n: nat)
    ensures Times(initial as real, Power(k as real, n)).Floor == initial * NatPower(k, n)
  {
    WholePower(k, n);
    assert Times(initial as real, NatPower(k, n) as real) == (initial * NatPower(k, n)) as real;
  }

  lemma NatMulGrows(x: nat, k: nat)
    requires k >= 1
    ensures x * k >= x
  {
  }

  lemma CapSticks(x: nat, k: nat, max: nat)
    requires k >= 1
    ensures Min(Min(x, max) * k, max) == Min(x * k, max)
  {
    NatMulGrows(x, k);
    NatMulGrows(max, k);
    if x > max {
      assert (x - max) * k >= 0;
    }
  }

  lemma NextWhole(c: Config, k: nat, prev: nat)
    requires k >= 1 && c.multiplier == k as real
    ensures NextOf(c, prev) == Min(prev * k, c.max)
  {
    assert Times(prev as real, k as real) == (prev * k) as real;
  }

  lemma NatReassociate(a: nat, b: nat, c: nat)
    ensures a * b * c == a * (c * b)
  {
  }

  lemma {:induction false} StatefulWhole(c: Config, k: nat, n: nat)
    requires k >= 1 && c.multiplier == k as real && c.initial <= c.max
    ensures Stateful(c, n) == Min(c.initial * NatPower(k, n), c.max)
  {
    if n > 0 {
      StatefulWhole(c, k, n - 1);
      NextWhole(c, k, Stateful(c, n - 1));
      CapSticks(c.initial * NatPower(k, n - 1), k, c.max);
      NatReassociate(c.initial, NatPower(k, n - 1), k);
    }
  }

  /** For whole multipliers nothing is lost to rounding: tracker and formula agree. */
  lemma WholeAgrees(c: Config, k: nat, n: nat)
    requires k >= 1 && c.multiplier == k as real && c.initial <= c.max && n <= 63
    ensures Stateful(c, n) == DelayForAttempt(c, n)
  {
    StatefulWhole(c, k, n);
    Formula(c, n);
    ScaledWhole(c.initial, k, n);
  }

  lemma {:induction false} NatPowerGrows(k: nat, a: nat, b: nat)
    requires k >= 2 && a < b
    ensures 1 <= NatPower(k, a) < NatPower(k, b)
    decreases b
  {
    if a < b - 1 {
      NatPowerGrows(k, a, b - 1);
    } else {
      NatPowerPositive(k, a);
    }
    assert NatPower(k, b) >= 2 * NatPower(k, b - 1) by {
      NatPowerPositive(k, b - 1);
      assert (k - 2) * NatPower(k, b - 1) >= 0;
    }
  }

  lemma {:induction false} NatPowerPositive(k: nat, n: nat)
    requires k >= 1
    ensures NatPower(k, n) >= 1
  {
    if n > 0 {
      NatPowerPositive(k, n - 1);
      NatMulGrows(NatPower(k, n - 1), k);
    }
  }

  lemma {:induction false} OnePower(n: nat)
    ensures NatPower(1, n) == 1
  {
    if n > 0 {
      OnePower(n - 1);
    }
  }

  /**
   * Beyond attempt 63 the formula stands still while the tracker goes on: they agree exactly
   * when nothing grows or the cap is reached by then.
   */
  lemma BeyondLimitAgreesIffCapped(c: Config, k: nat, n: nat)
    requires k >= 1 && c.multiplier == k as real && c.initial <= c.max && 63 < n < I32_LIMIT
    ensures Stateful(c, n) == DelayForAttempt(c, n) <==>
            k == 1 || c.initial == 0 || c.initial * NatPower(k, 63) >= c.max
  {
    StatefulWhole(c, k, n);
    WholeAgrees(c, k, 63);
    StatefulWhole(c, k, 63);
    BeyondLimit(c, n);
    var x, y := c.initial * NatPower(k, 63), c.initial * NatPower(k, n);
    if k == 1 {
      OnePower(63);
      OnePower(n);
    } else if c.initial == 0 {
      assert x == 0 && y == 0;
    } else {
      NatPowerGrows(k, 63, n);
      MulStrict(NatPower(k, 63), NatPower(k, n), c.initial);
    }
  }

  lemma MulStrict(a: nat, b: nat, k: nat)
    requires a < b && k >= 1
    ensures k * a < k * b
  {
    assert k * (b - a) > 0;
  }

  // ---- the sign change ----

  /** From attempt 2^31 on the exponent is negative: the delay drops below the initial one. */
  lemma WrapsBelowInitial(c: Config, n: nat)
    requires c.multiplier > 1.0 && 1 <= c.initial <= c.max && n < U32_LIMIT
    ensures DelayForAttempt(c, n) >= c.initial <==> n < I32_LIMIT
  {
    if n < I32_LIMIT {
      var e := Min(n, 63);
      PowiIsPositive(c.multiplier, e);
      MulGrows(c.initial as real, Powi(c.multiplier, e));
    } else {
      var e := U32_LIMIT - n;
      PowerAboveOne(c.multiplier, e);
      InverseShrinks(c.initial as real, Power(c.multiplier, e));
    }
  }

  lemma {:induction false} PowerAboveOne(m: real, n: nat)
    requires m > 1.0 && n > 0
    ensures Power(m, n) > 1.0
  {
    if n > 1 {
      PowerAboveOne(m, n - 1);
      MulGrows(Power(m, n - 1), m);
    }
  }

  lemma InverseShrinks(x: real, p: real)
    requires x > 0.0 && p > 1.0
    ensures Times(x, 1.0 / p) < x
  {
    var q := 1.0 / p;
    assert q * p == 1.0 && q > 0.0;
    assert (p - 1.0) * q > 0.0;
    assert (1.0 - q) * x > 0.0;
  }

  // ---- supervision and redelivery ----

  /** Supervision is the formula, shifted by one. */
  lemma SupervisionAgrees(c: Config, n: nat)
    requires c.Valid() && n < I32_LIMIT
    ensures SupervisionDelay(c, n + 1) == DelayForAttempt(c, n)
    ensures n <= 63 ==> SupervisionDelay(c, n + 1) == Min(Times(c.initial as real, Power(c.multiplier, n)).Floor, c.max)
  {
    if n <= 63 {
      Formula(c, n);
    }
  }

  /** For whole multipliers supervision waits as long as the tracker. */
  lemma SupervisionIsStateful(c: Config, k: nat, n: nat)
    requires k >= 1 && c.multiplier == k as real && c.initial <= c.max && n <= 63
    ensures SupervisionDelay(c, n + 1) == Stateful(c, n)
  {
    WholeAgrees(c, k, n);
  }

  /** Without jitter, redelivery is the formula up to attempt 63. */
  lemma RedeliveryAgrees(c: Config, random: real, n: nat)
    requires c.Valid() && n <= 63
    ensures DelayFor(c, 0.0, random, n) == DelayForAttempt(c, n)
  {
    FloorMin(Times(c.initial as real, Power(c.multiplier, n)), c.max);
  }

  /** For whole multipliers it is the tracker, without limit on the exponent. */
  lemma RedeliveryIsStateful(c: Config, k: nat, random: real, n: nat)
    requires k >= 1 && c.multiplier == k as real && c.initial <= c.max && n < I32_LIMIT
    ensures DelayFor(c, 0.0, random, n) == Stateful(c, n)
  {
    FloorMin(Times(c.initial as real, Power(c.multiplier, n)), c.max);
    ScaledWhole(c.initial, k, n);
    StatefulWhole(c, k, n);
  }

  lemma CappedBounds(c: Config, n: nat)
    requires c.Valid() && n < U32_LIMIT
    ensures 0.0 <= CappedMillis(c, n) <= c.max as real
  {
    PowiIsPositive(c.multiplier, AsI32(n));
    MulMono(0.0, c.initial as real, Powi(c.multiplier, AsI32(n)));
  }

  lemma JitterShare(capped: real, jitter: real, r: real)
    requires capped >= 0.0 && 0.0 <= jitter <= 1.0 && -1.0 <= r <= 1.0
    ensures var share := Times(capped, jitter); -share <= Times(share, r) <= share && 0.0 <= share <= capped
  {
    var share := Times(capped, jitter);
    MulMono(jitter, 1.0, capped);
    MulMono(0.0, jitter, capped);
    MulMono(r, 1.0, share);
    MulMono(-1.0, r, share);
  }

  /** Jitter moves the capped delay by at most its share, rounding aside, and never below zero. */
  lemma JitterIsBounded(c: Config, j: real, random: real, n: nat)
    requires c.Valid() && n < U32_LIMIT && 0.0 <= random < 1.0
    ensures var capped, jitter := CappedMillis(c, n), Clamped(j);
            var d := DelayFor(c, jitter, random, n) as real;
            && 0.0 <= d
            && capped - Times(capped, jitter) - 1.0 < d <= capped + Times(capped, jitter)
  {
    var capped, jitter := CappedMillis(c, n), Clamped(j);
    CappedBounds(c, n);
    JitterShare(capped, jitter, random * 2.0 - 1.0);
    FloorOfMoved(capped, Times(Times(capped, jitter), random * 2.0 - 1.0), Times(capped, jitter));
  }

  lemma FloorOfMoved(capped: real, delta: real, share: real)
    requires 0.0 <= share <= capped && -share <= delta <= share
    ensures var moved := capped + delta;
            var d := (if moved < 0.0 then 0.0 else moved).Floor as real;
            0.0 <= d && capped - share - 1.0 < d <= capped + share
    ensures capped - share - 1.0 < capped.Floor as real <= capped + share && 0 <= capped.Floor
  {
  }

  lemma FloorWithin(x: real, cap: nat)
    requires x >= 0.0
    ensures x.Floor <= cap <==> x < cap as real + 1.0
  {
  }

  /** With this random number the jittered delay stays within the maximum exactly when the moved delay does. */
  lemma JitterWithinCap(c: Config, jitter: real, random: real, n: nat)
    requires c.Valid() && n < U32_LIMIT && 0.0 <= jitter <= 1.0 && 0.0 <= random < 1.0
    ensures DelayFor(c, jitter, random, n) <= c.max <==>
            CappedMillis(c, n) + Times(Times(CappedMillis(c, n), jitter), random * 2.0 - 1.0) < c.max as real + 1.0
  {
    var capped := CappedMillis(c, n);
    CappedBounds(c, n);
    JitterShare(capped, jitter, random * 2.0 - 1.0);
    FloorWithin(capped + Times(Times(capped, jitter), random * 2.0 - 1.0), c.max);
  }

  lemma ShareIsStrict(share: real, r: real)
    requires share >= 0.0 && r < 1.0
    ensures Times(share, r) < share || share == 0.0
  {
    assert share > 0.0 ==> (1.0 - r) * share > 0.0;
  }

  /** A random number whose jitter adds just `gain`. */
  function RandomFor(share: real, gain: real): (random: real)
    requires 0.0 < gain < share
    ensures 0.0 <= random < 1.0 && Times(share, random * 2.0 - 1.0) == gain
  {
    RatioWithin(share, gain);
    (1.0 + gain / share) / 2.0
  }

  lemma RatioWithin(share: real, gain: real)
    requires 0.0 < gain < share
    ensures 0.0 < gain / share < 1.0 && Times(share, (1.0 + gain / share) / 2.0 * 2.0 - 1.0) == gain
  {
    var q := gain / share;
    assert q * share == gain;
    assert q > 0.0;
    if q >= 1.0 {
      MulMono(1.0, q, share);
    }
    assert (1.0 + q) / 2.0 * 2.0 - 1.0 == q;
  }

  /**
   * Whatever random number is drawn, the delay stays within the maximum exactly when the capped
   * delay and its whole share of jitter stay within a millisecond of it.
   */
  lemma JitterStaysWithinCap(c: Config, jitter: real, n: nat)
    requires c.Valid() && n < U32_LIMIT && 0.0 <= jitter <= 1.0
    ensures (forall random: real | 0.0 <= random < 1.0 :: DelayFor(c, jitter, random, n) <= c.max) <==>
            CappedMillis(c, n) + Times(CappedMillis(c, n), jitter) <= c.max as real + 1.0
  {
    var capped, limit := CappedMillis(c, n), c.max as real + 1.0;
    var share := Times(capped, jitter);
    CappedBounds(c, n);
    JitterShare(capped, jitter, 0.0);
    if capped + share <= limit {
      forall random: real | 0.0 <= random < 1.0
        ensures DelayFor(c, jitter, random, n) <= c.max
      {
        JitterWithinCap(c, jitter, random, n);
        ShareIsStrict(share, random * 2.0 - 1.0);
      }
    } else {
      var random := RandomFor(share, limit - capped);
      JitterWithinCap(c, jitter, random, n);
      assert DelayFor(c, jitter, random, n) > c.max;
    }
  }

  /** Once the cap is reached, any jitter above one part in the maximum can pass it. */
  lemma JitterAtTheCap(c: Config, jitter: real, n: nat)
    requires c.Valid() && n < U32_LIMIT && 0.0 <= jitter <= 1.0 && CappedMillis(c, n) == c.max as real
    ensures (forall random: real | 0.0 <= random < 1.0 :: DelayFor(c, jitter, random, n) <= c.max) <==>
            Times(c.max as real, jitter) <= 1.0
  {
    JitterStaysWithinCap(c, jitter, n);
  }

  /** The cap is applied before the jitter, so a jittered delay can pass it. */
  lemma JitterMayPassTheCap(c: Config, random: real)
    requires c == Config(100, 2.0, 100) && random == 0.75
    ensures DelayFor(c, 0.2, random, 0) == 110 > c.max
  {
    assert Power(2.0, 0) == 1.0;
    assert CappedMillis(c, 0) == 100.0;
  }
}
