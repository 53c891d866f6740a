/** Geometric decay of score counters, over the reals. */
module Decay {

  const DECAY_TO_ZERO: real := 0.01

  function Pow(d: real, n: nat): real {
    if n == 0 then 1.0 else Pow(d, n - 1) * d
  }

  /** d is `math.Pow(0.01, 1/cnt)`: the factor that leaves 1% after cnt applications. */
  ghost predicate IsDecay(d: real, cnt: nat) {
    0.0 < d < 1.0 && Pow(d, cnt) == DECAY_TO_ZERO
  }

  /** `decayLimit` panics at a factor of 1 or more; every decay factor is below 1. */
  function DecayLimit(d: real, rate: real): real
    requires d < 1.0
  {
    rate / (1.0 - d)
  }

  function DecayThreshold(d: real, rate: real): real
    requires d < 1.0
  {
    DecayLimit(d, rate) * d
  }

  /** A counter fed `rate` before each decay, from zero. */
  function FedThenDecayed(d: real, rate: real, n: nat): real {
    if n == 0 then 0.0 else (FedThenDecayed(d, rate, n - 1) + rate) * d
  }

  /** A counter fed `rate` after each decay, from x. */
  function DecayedThenFed(d: real, rate: real, x: real, n: nat): real {
    if n == 0 then x else DecayedThenFed(d, rate, x, n - 1) * d + rate
  }

  lemma LimitIsFixedPoint(d: real, rate: real)
    requires d < 1.0
    ensures DecayLimit(d, rate) * d + rate == DecayLimit(d, rate)
  {
    var limit := DecayLimit(d, rate);
    assert limit * (1.0 - d) == rate;
    assert limit * (1.0 - d) == limit - limit * d;
  }

  /** Closed form: a peer at exactly the expected rate approaches the threshold geometrically. */
  lemma {:induction false} ThresholdClosedForm(d: real, rate: real, n: nat)
    requires d < 1.0
    ensures FedThenDecayed(d, rate, n) == DecayThreshold(d, rate) * (1.0 - Pow(d, n))
  {
    if n > 0 {
      ThresholdClosedForm(d, rate, n - 1);
      var limit, p := DecayLimit(d, rate), Pow(d, n - 1);
      LimitIsFixedPoint(d, rate);
      Distribute(limit, d, rate, p);
    }
  }

  lemma Distribute(limit: real, d: real, rate: real, p: real)
    requires limit * d + rate == limit
    ensures (limit * d * (1.0 - p) + rate) * d == limit * d * (1.0 - p * d)
  {
    assert limit * d * (1.0 - p) == limit * d - limit * d * p;
    assert limit * d - limit * d * p + rate == limit - limit * d * p;
    assert (limit - limit * d * p) * d == limit * d - limit * d * p * d;
    assert limit * d * (1.0 - p * d) == limit * d - limit * d * (p * d);
    assert limit * d * p * d == limit * d * (p * d);
  }

  /** So its deficit is threshold * d^n: never zero, and 1% of the threshold after cnt steps. */
  lemma DeficitClosedForm(d: real, rate: real, cnt: nat, n: nat)
    requires IsDecay(d, cnt) && rate > 0.0
    ensures DecayThreshold(d, rate) - FedThenDecayed(d, rate, n) == DecayThreshold(d, rate) * Pow(d, n) > 0.0
    ensures DecayThreshold(d, rate) - FedThenDecayed(d, rate, cnt) == DecayThreshold(d, rate) / 100.0
  {
    ThresholdClosedForm(d, rate, n);
    ThresholdClosedForm(d, rate, cnt);
    PowPositive(d, n);
    var t := DecayThreshold(d, rate);
    ThresholdPositive(d, rate);
    assert t - t * (1.0 - Pow(d, n)) == t * Pow(d, n);
    assert t * Pow(d, n) > 0.0;
    assert t - t * (1.0 - Pow(d, cnt)) == t * Pow(d, cnt);
  }

  lemma ThresholdPositive(d: real, rate: real)
    requires 0.0 < d < 1.0 && rate > 0.0
    ensures DecayLimit(d, rate) > 0.0 && DecayThreshold(d, rate) > 0.0
  {
    var limit := DecayLimit(d, rate);
    assert limit * (1.0 - d) == rate;
    SignOfProduct(-limit, 1.0 - d);
    assert (-limit) * (1.0 - d) == -rate;
    assert limit * d > 0.0;
  }

  lemma {:induction false} PowPositive(d: real, n: nat)
    requires 0.0 < d
    ensures Pow(d, n) > 0.0
  {
    if n > 0 {
      PowPositive(d, n - 1);
      assert Pow(d, n - 1) * d > 0.0;
    }
  }

  lemma {:induction false} DistanceToLimit(d: real, rate: real, x: real, n: nat)
    requires d < 1.0
    ensures DecayLimit(d, rate) - DecayedThenFed(d, rate, x, n) == (DecayLimit(d, rate) - x) * Pow(d, n)
  {
    var limit := DecayLimit(d, rate);
    if n == 0 {
      assert (limit - x) * 1.0 == limit - x;
    } else {
      DistanceToLimit(d, rate, x, n - 1);
      LimitIsFixedPoint(d, rate);
      var y, p := DecayedThenFed(d, rate, x, n - 1), Pow(d, n - 1);
      assert limit - (y * d + rate) == (limit - y) * d;
      assert (limit - x) * p * d == (limit - x) * (p * d);
    }
  }

  /** The distance to the decay limit shrinks by d each step, so a counter at or below it never passes it. */
  lemma NeverPassesLimit(d: real, rate: real, x: real, n: nat)
    requires 0.0 < d < 1.0
    ensures DecayedThenFed(d, rate, x, n) <= DecayLimit(d, rate) <==> x <= DecayLimit(d, rate)
  {
    DistanceToLimit(d, rate, x, n);
    PowPositive(d, n);
    SignOfProduct(DecayLimit(d, rate) - x, Pow(d, n));
  }

  lemma SignOfProduct(a: real, b: real)
    requires b > 0.0
    ensures a * b >= 0.0 <==> a >= 0.0
  {
    if a < 0.0 {
      assert (-a) * b > 0.0;
    }
  }

  // ---------------------------------------------------------------- per slot or per epoch

  lemma {:induction false} PowAdd(d: real, m: nat, n: nat)
    ensures Pow(d, m + n) == Pow(d, m) * Pow(d, n)
  {
    if n > 0 {
      PowAdd(d, m, n - 1);
      assert Pow(d, m) * Pow(d, n - 1) * d == Pow(d, m) * (Pow(d, n - 1) * d);
    }
  }

  lemma {:induction false} PowMul(d: real, m: nat, n: nat)
    ensures Pow(Pow(d, m), n) == Pow(d, m * n)
  {
    if n > 0 {
      PowMul(d, m, n - 1);
      PowAdd(d, m * (n - 1), m);
      assert m * (n - 1) + m == m * n;
    }
  }

  lemma TimesBelowOne(p: real, x: real, q: real)
    requires 0.0 < p && x < 1.0 && q == p * x
    ensures q < p
  {
    assert p * (1.0 - x) > 0.0;
  }

  lemma {:induction false} PowShrinks(x: real, n: nat)
    requires 0.0 < x < 1.0 && n >= 1
    ensures Pow(x, n) <= x
    ensures n >= 2 ==> Pow(x, n) < x
  {
    if n >= 2 {
      PowShrinks(x, n - 1);
      PowPositive(x, n - 1);
      var p := Pow(x, n - 1);
      var q := p * x;
      TimesBelowOne(p, x, q);
      assert Pow(x, n) == q;
    } else {
      assert Pow(x, n) == Pow(x, 0) * x == x;
    }
  }

  lemma {:induction false} PowBelowOne(d: real, n: nat)
    requires 0.0 < d < 1.0 && n >= 1
    ensures 0.0 < Pow(d, n) < 1.0
  {
    PowPositive(d, n);
    PowShrinks(d, n);
  }

  /**
   * Factors are computed for `epochs` epochs counted in slots but applied once per epoch. What is
   * left after those epochs is the slots-per-epoch-th root of 1%: more than 1%, unless an epoch
   * is one slot long; 1% is reached only after slotsPerEpoch times as many epochs.
   */
  lemma DecayPerEpochIsSlower(d: real, epochs: nat, slotsPerEpoch: nat)
    requires epochs >= 1 && slotsPerEpoch >= 1
    requires IsDecay(d, epochs * slotsPerEpoch)
    ensures Pow(Pow(d, epochs), slotsPerEpoch) == DECAY_TO_ZERO
    ensures Pow(d, epochs) >= DECAY_TO_ZERO
    ensures Pow(d, epochs) == DECAY_TO_ZERO <==> slotsPerEpoch == 1
  {
    PowMul(d, epochs, slotsPerEpoch);
    PowBelowOne(d, epochs);
    PowShrinks(Pow(d, epochs), slotsPerEpoch);
    if slotsPerEpoch == 1 {
      assert epochs * slotsPerEpoch == epochs;
    }
  }

  // ---------------------------------------------------------------- a peer at exactly the expected rate

  /**
   * Uncut mesh traffic of a peer at the expected per-slot rate just after the n-th decay, with one decay per
   * epoch of s slots.
   */
  function SteadyMesh(d: real, rate: real, s: nat, n: nat): real {
    FedThenDecayed(d, s as real * rate, n)
  }

  /** Uncut first-delivery traffic of such a peer just before the n-th decay. */
  function SteadyFirst(d: real, rate: real, s: nat, n: nat): real {
    DecayedThenFed(d, s as real * rate, 0.0, n)
  }

  lemma Associate(a: real, b: real, c: real)
    ensures a * b * c == a * (b * c) == b * (a * c)
  {
  }

  lemma QuotientIs(x: real, y: real, e: real)
    requires e > 0.0 && x * e == y
    ensures y / e == x
  {
  }

  lemma LimitScales(d: real, rate: real, s: real)
    requires d < 1.0
    ensures DecayLimit(d, s * rate) == s * DecayLimit(d, rate)
    ensures DecayThreshold(d, s * rate) == s * DecayThreshold(d, rate)
  {
    var limit, e := DecayLimit(d, rate), 1.0 - d;
    assert limit * e == rate;
    Associate(s, limit, e);
    QuotientIs(s * limit, s * rate, e);
    Associate(s, limit, d);
  }

  lemma ReachesIff(t: real, k: real, x: real)
    requires t > 0.0 && x == t * k
    ensures x >= t <==> k >= 1.0
    ensures x <= t <==> k <= 1.0
  {
    SignOfProduct(k - 1.0, t);
    SignOfProduct(1.0 - k, t);
    assert (k - 1.0) * t == x - t && (1.0 - k) * t == t - x;
  }

  /**
   * The rates are per slot and the decay is applied once per epoch of s slots, so a peer at exactly
   * the expected rate is fed s times the rate per application. Its uncut mesh traffic is then s * threshold
   * * (1 - d^n), which is at the threshold if and only if s * (1 - d^n) is at least 1.
   */
  lemma SteadyMeshCounter(d: real, rate: real, s: nat, n: nat)
    requires 0.0 < d < 1.0 && rate > 0.0
    ensures SteadyMesh(d, rate, s, n) == DecayThreshold(d, rate) * (s as real * (1.0 - Pow(d, n)))
    ensures SteadyMesh(d, rate, s, n) >= DecayThreshold(d, rate) <==> s as real * (1.0 - Pow(d, n)) >= 1.0
  {
    var t, q, sr := DecayThreshold(d, rate), 1.0 - Pow(d, n), s as real;
    ThresholdClosedForm(d, sr * rate, n);
    LimitScales(d, rate, sr);
    ThresholdPositive(d, rate);
    Associate(sr, t, q);
    ReachesIff(t, sr * q, SteadyMesh(d, rate, s, n));
  }

  lemma CapClosedForm(d: real, feed: real, n: nat, whole: real, q: real)
    requires d < 1.0 && whole == DecayLimit(d, feed) && q == 1.0 - Pow(d, n)
    ensures DecayedThenFed(d, feed, 0.0, n) == whole * q
  {
    DistanceToLimit(d, feed, 0.0, n);
    var p := Pow(d, n);
    assert (whole - 0.0) * p == whole * p;
    assert whole * (1.0 - p) == whole - whole * p;
  }

  lemma Regroup(x: real, whole: real, q: real, a: real, b: real)
    requires x == whole * q && whole == a * b
    ensures x == b * (a * q)
  {
    Associate(a, b, q);
  }

  /** Likewise its uncut first-delivery traffic is s * cap * (1 - d^n). */
  lemma SteadyFirstCounter(d: real, rate: real, s: nat, n: nat)
    requires 0.0 < d < 1.0 && rate > 0.0
    ensures SteadyFirst(d, rate, s, n) == DecayLimit(d, rate) * (s as real * (1.0 - Pow(d, n)))
    ensures SteadyFirst(d, rate, s, n) <= DecayLimit(d, rate) <==> s as real * (1.0 - Pow(d, n)) <= 1.0
    ensures SteadyFirst(d, rate, s, n) >= DecayLimit(d, rate) <==> s as real * (1.0 - Pow(d, n)) >= 1.0
  {
    SteadyFirstProduct(d, rate, s, n);
    ThresholdPositive(d, rate);
    ReachesIff(DecayLimit(d, rate), s as real * (1.0 - Pow(d, n)), SteadyFirst(d, rate, s, n));
  }

  lemma ScaledLimit(d: real, rate: real, k: real, feed: real, limit: real, whole: real)
    requires d < 1.0 && feed == k * rate && limit == DecayLimit(d, rate) && whole == DecayLimit(d, feed)
    ensures whole == k * limit
  {
    LimitScales(d, rate, k);
  }

  lemma SteadyFirstProduct(d: real, rate: real, s: nat, n: nat)
    requires d < 1.0
    ensures SteadyFirst(d, rate, s, n) == DecayLimit(d, rate) * (s as real * (1.0 - Pow(d, n)))
  {
    var feed, q, limit := s as real * rate, 1.0 - Pow(d, n), DecayLimit(d, rate);
    var whole := DecayLimit(d, feed);
    var x := DecayedThenFed(d, feed, 0.0, n);
    CapClosedForm(d, feed, n, whole, q);
    ScaledLimit(d, rate, s as real, feed, limit, whole);
    Regroup(x, whole, q, s as real, limit);
  }

  /** The uncut first-delivery traffic never passes the cap exactly when an epoch is one slot. */
  lemma FirstStaysUnderCapIff(d: real, rate: real, cnt: nat, s: nat)
    requires IsDecay(d, cnt) && rate > 0.0 && s >= 1
    ensures (forall n: nat :: SteadyFirst(d, rate, s, n) <= DecayLimit(d, rate)) <==> s == 1
  {
    if s == 1 {
      forall n: nat ensures SteadyFirst(d, rate, s, n) <= DecayLimit(d, rate) {
        SteadyFirstCounter(d, rate, s, n);
        PowPositive(d, n);
      }
    } else {
      SteadyFirstCounter(d, rate, s, cnt);
      assert SteadyFirst(d, rate, s, cnt) > DecayLimit(d, rate);
    }
  }

  /** And exactly then is the uncut mesh traffic always short of the threshold. */
  lemma MeshStaysShortIff(d: real, rate: real, cnt: nat, s: nat)
    requires IsDecay(d, cnt) && rate > 0.0 && s >= 1
    ensures (forall n: nat :: SteadyMesh(d, rate, s, n) < DecayThreshold(d, rate)) <==> s == 1
  {
    if s == 1 {
      forall n: nat ensures SteadyMesh(d, rate, s, n) < DecayThreshold(d, rate) {
        SteadyMeshCounter(d, rate, s, n);
        PowPositive(d, n);
      }
    } else {
      SteadyMeshCounter(d, rate, s, cnt);
      assert SteadyMesh(d, rate, s, cnt) >= DecayThreshold(d, rate);
    }
  }

  lemma SquareMonotone(x: real, b: real, y: real)
    requires 0.0 < b <= x && y == x * x
    ensures y >= b * b
  {
    SignOfProduct(x - b, x + b);
    assert (x - b) * (x + b) == y - b * b;
  }

  lemma SquareAtLeast(x: real, b: real)
    requires 0.0 < b <= x
    ensures Pow(x, 2) >= b * b
  {
    assert Pow(x, 1) == Pow(x, 0) * x == x;
    SquareMonotone(x, b, Pow(x, 2));
  }

  /** The 32nd root of 1% is below 7/8. */
  lemma Root32(x: real)
    requires x > 0.0 && Pow(x, 32) == DECAY_TO_ZERO
    ensures x < 0.875
  {
    if x >= 0.875 {
      SquareAtLeast(x, 0.875);
      SquareAtLeast(Pow(x, 2), 0.765);
      PowMul(x, 2, 2);
      SquareAtLeast(Pow(x, 4), 0.585);
      PowMul(x, 4, 2);
      SquareAtLeast(Pow(x, 8), 0.342);
      PowMul(x, 8, 2);
      SquareAtLeast(Pow(x, 16), 0.116);
      PowMul(x, 16, 2);
    }
  }

  /** With epochs of 32 slots, a steady peer's uncut traffic is past four times its marks after the decay period. */
  lemma FourfoldAfterPeriod(d: real, epochs: nat)
    requires epochs >= 1 && IsDecay(d, epochs * 32)
    ensures 32.0 * (1.0 - Pow(d, epochs)) > 4.0
  {
    PowMul(d, epochs, 32);
    PowPositive(d, epochs);
    Root32(Pow(d, epochs));
  }

  // ---------------------------------------------------------------- the counters as gossipsub keeps them

  function Min(a: real, b: real): real {
    if a < b then a else b
  }

  /** What a decay leaves of a counter; gossipsub drops what falls below `DecayToZero`. */
  function Decayed(d: real, x: real): real {
    if x * d < DECAY_TO_ZERO then 0.0 else x * d
  }

  /**
   * A counter of a steady peer n decays after it joined and k slots after the last of them: every slot
   * adds `rate`, cut at the cap, and after every s slots the counter decays.
   */
  function Counter(d: real, rate: real, cap: real, s: nat, n: nat, k: nat): real
    decreases n, k
  {
    if k > 0 then Min(Counter(d, rate, cap, s, n, k - 1) + rate, cap)
    else if n > 0 then Decayed(d, Counter(d, rate, cap, s, n - 1, s))
    else 0.0
  }

  lemma OneMore(k: nat, rate: real, added: real)
    requires k > 0 && added == k as real * rate
    ensures added == (k - 1) as real * rate + rate
  {
    var j := (k - 1) as real;
    assert k as real == j + 1.0;
    assert (j + 1.0) * rate == j * rate + rate;
  }

  /** Between two decays a counter only grows, up to its cap. */
  lemma {:induction false} WithinEpoch(d: real, rate: real, cap: real, s: nat, n: nat, k: nat, added: real)
    requires rate >= 0.0 && Counter(d, rate, cap, s, n, 0) <= cap && added == k as real * rate
    ensures Counter(d, rate, cap, s, n, k) == Min(Counter(d, rate, cap, s, n, 0) + added, cap)
    decreases k
  {
    if k > 0 {
      OneMore(k, rate, added);
      WithinEpoch(d, rate, cap, s, n, k - 1, added - rate);
    }
  }

  /**
   * One epoch's traffic, `feed`, makes up for what decay takes from a full counter, and neither it nor
   * a full counter, of which a decay leaves `kept`, decays to zero at once.
   */
  predicate Sustains(d: real, feed: real, cap: real, kept: real) {
    && 0.0 < d < 1.0 && feed >= 0.0 && kept == cap * d && kept + feed >= cap
    && feed * d >= DECAY_TO_ZERO && kept >= DECAY_TO_ZERO
  }

  lemma MinTimes(d: real, a: real, b: real)
    requires 0.0 < d
    ensures Min(a, b) * d == Min(a * d, b * d)
  {
    SignOfProduct(b - a, d);
    SignOfProduct(a - b, d);
    var ad, bd := a * d, b * d;
    assert (b - a) * d == bd - ad && (a - b) * d == ad - bd;
  }

  lemma EpochStep(d: real, feed: real, cap: real, kept: real, x: real, y: real, xNext: real)
    requires Sustains(d, feed, cap, kept) && x >= 0.0 && y == Min(Min(x, kept) + feed, cap) && xNext == (x + feed) * d
    ensures Decayed(d, y) == Min(xNext, kept)
  {
    assert y == Min(x + feed, cap);
    MinTimes(d, x + feed, cap);
    SignOfProduct(x, d);
    var xd, fd := x * d, feed * d;
    assert xNext == xd + fd;
  }

  lemma FedOnce(d: real, feed: real, n: nat, x: real, xNext: real)
    requires n > 0 && x == FedThenDecayed(d, feed, n - 1) && xNext == FedThenDecayed(d, feed, n)
    ensures xNext == (x + feed) * d
  {
  }

  lemma {:induction false} UncutNonNegative(d: real, feed: real, n: nat)
    requires 0.0 < d && feed >= 0.0
    ensures FedThenDecayed(d, feed, n) >= 0.0
  {
    if n > 0 {
      UncutNonNegative(d, feed, n - 1);
      SignOfProduct(FedThenDecayed(d, feed, n - 1) + feed, d);
    }
  }

  lemma KeptIsLess(d: real, feed: real, cap: real, kept: real)
    requires Sustains(d, feed, cap, kept)
    ensures kept <= cap
  {
    SignOfProduct(cap, d);
    SignOfProduct(cap, 1.0 - d);
    assert cap * (1.0 - d) == cap - kept;
  }

  /** Just after a decay the counter is the uncut one, or what the decay leaves of a full one. */
  lemma {:induction false} AfterDecay(d: real, rate: real, cap: real, s: nat, n: nat, feed: real, kept: real, x: real)
    requires feed == s as real * rate && rate >= 0.0 && Sustains(d, feed, cap, kept) && x == FedThenDecayed(d, feed, n)
    ensures Counter(d, rate, cap, s, n, 0) == Min(x, kept) <= cap
    decreases n
  {
    KeptIsLess(d, feed, cap, kept);
    if n > 0 {
      var before := FedThenDecayed(d, feed, n - 1);
      AfterDecay(d, rate, cap, s, n - 1, feed, kept, before);
      WithinEpoch(d, rate, cap, s, n - 1, s, feed);
      UncutNonNegative(d, feed, n - 1);
      FedOnce(d, feed, n, before, x);
      EpochStep(d, feed, cap, kept, before, Counter(d, rate, cap, s, n - 1, s), x);
    }
  }

  /** At every instant: the cuts of earlier epochs show only as the cut at the last decay. */
  lemma CounterAt(d: real, rate: real, cap: real, s: nat, n: nat, k: nat, feed: real, kept: real)
    requires feed == s as real * rate && rate >= 0.0 && Sustains(d, feed, cap, kept)
    ensures Counter(d, rate, cap, s, n, k) == Min(Min(FedThenDecayed(d, feed, n), kept) + k as real * rate, cap)
  {
    AfterDecay(d, rate, cap, s, n, feed, kept, FedThenDecayed(d, feed, n));
    WithinEpoch(d, rate, cap, s, n, k, k as real * rate);
  }

  /** The uncut traffic of a steady peer at one instant, as a multiple of the decay limit. */
  function Level(d: real, s: nat, n: nat, k: nat): real {
    s as real * (1.0 - Pow(d, n)) * d + k as real * (1.0 - d)
  }

  /** Just before decay n + 1 the level is s * (1 - d^(n + 1)). */
  lemma LevelBeforeDecay(d: real, s: nat, n: nat)
    ensures Level(d, s, n, s) == s as real * (1.0 - Pow(d, n + 1))
  {
    var a, p := s as real, Pow(d, n);
    assert a * (1.0 - p) * d == a * d - a * (p * d);
    assert a * (1.0 - d) == a - a * d;
    assert a * (1.0 - p * d) == a - a * (p * d);
  }

  lemma LevelTimes(limit: real, d: real, full: real, k: real, x: real, rate: real)
    requires rate == limit - limit * d && x == limit * d * full
    ensures x + k * rate == limit * (full * d + k * (1.0 - d))
  {
    var t, e := limit * d, 1.0 - d;
    assert rate == limit * e;
    Associate(limit, d, full);
    Associate(limit, k, e);
    assert x == limit * (full * d) && k * rate == limit * (k * e);
    Gather(limit, full * d, k * e);
  }

  lemma Gather(limit: real, a: real, b: real)
    ensures limit * a + limit * b == limit * (a + b)
  {
  }

  lemma FirstLevel(limit: real, d: real, full: real, k: nat, t: real, x: real, rate: real, added: real)
    requires limit > 0.0 && 0.0 < d < 1.0 && t == limit * d && rate == limit - t > 0.0
    requires x == t * full && added == k as real * rate
    ensures Min(Min(x, t) + added, limit) >= limit <==> k >= 1 && full * d + k as real * (1.0 - d) >= 1.0
  {
    PositiveProduct(limit, d, t);
    ReachesIff(t, full, x);
    SignOfProduct(full - 1.0, d);
    var fd := full * d;
    assert (full - 1.0) * d == fd - d;
    if full >= 1.0 {
      ReachesIff(rate, k as real, added);
      ReachesIff(1.0 - d, k as real, k as real * (1.0 - d));
    } else {
      LevelTimes(limit, d, full, k as real, x, rate);
      ReachesIff(limit, fd + k as real * (1.0 - d), x + added);
    }
  }

  lemma PositiveProduct(a: real, b: real, y: real)
    requires a > 0.0 && b > 0.0 && y == a * b
    ensures y > 0.0
  {
  }

  lemma UncutLevel(d: real, rate: real, s: nat, n: nat, limit: real, t: real, full: real, x: real)
    requires 0.0 < d < 1.0 && rate > 0.0 && limit == DecayLimit(d, rate) && t == DecayThreshold(d, rate)
    requires full == s as real * (1.0 - Pow(d, n)) && x == SteadyMesh(d, rate, s, n)
    ensures limit > 0.0 && t > 0.0 && t == limit * d && rate == limit - t && x == t * full
  {
    LimitIsFixedPoint(d, rate);
    ThresholdPositive(d, rate);
    SteadyMeshCounter(d, rate, s, n);
  }

  lemma FirstFull(d: real, rate: real, s: nat, n: nat, k: nat,
                  limit: real, t: real, feed: real, full: real, x: real, level: real)
    requires 0.0 < d < 1.0 && rate > 0.0 && s >= 1 && limit == DecayLimit(d, rate) && t == DecayThreshold(d, rate)
    requires feed == s as real * rate && full == s as real * (1.0 - Pow(d, n)) && x == FedThenDecayed(d, feed, n)
    requires feed * d >= DECAY_TO_ZERO && t >= DECAY_TO_ZERO && level == Level(d, s, n, k)
    ensures Counter(d, rate, limit, s, n, k) >= limit <==> k >= 1 && level >= 1.0
  {
    UncutLevel(d, rate, s, n, limit, t, full, x);
    FeedAtLeast(s, 1, rate, feed);
    CounterAt(d, rate, limit, s, n, k, feed, t);
    FirstLevel(limit, d, full, k, t, x, rate, k as real * rate);
  }

  /**
   * A steady peer's first-delivery counter is at its cap at exactly the instants, except those just after
   * a decay, at which its uncut traffic amounts to the cap.
   */
  lemma FirstFullIff(d: real, rate: real, s: nat, n: nat, k: nat)
    requires 0.0 < d < 1.0 && rate > 0.0 && s >= 1
    requires s as real * rate * d >= DECAY_TO_ZERO && DecayThreshold(d, rate) >= DECAY_TO_ZERO
    ensures Counter(d, rate, DecayLimit(d, rate), s, n, k) >= DecayLimit(d, rate)
       <==> k >= 1 && Level(d, s, n, k) >= 1.0
  {
    FirstFull(d, rate, s, n, k, DecayLimit(d, rate), DecayThreshold(d, rate), s as real * rate,
              s as real * (1.0 - Pow(d, n)), SteadyMesh(d, rate, s, n), Level(d, s, n, k));
  }

  lemma FeedAtLeast(s: nat, k: nat, rate: real, feed: real)
    requires s >= k && rate > 0.0 && feed == s as real * rate
    ensures feed >= k as real * rate
  {
    SignOfProduct(s as real - k as real, rate);
    assert (s as real - k as real) * rate == feed - k as real * rate;
  }

  lemma MeshLevel(limit: real, d: real, full: real, k: nat, t: real, kept: real, x: real, rate: real, added: real)
    requires limit > 0.0 && 0.25 <= d < 1.0 && t == limit * d && rate == limit - t > 0.0 && kept == 4.0 * t * d
    requires x == t * full && added == k as real * rate
    ensures Min(Min(x, kept) + added, 4.0 * t) >= t <==> full * d + k as real * (1.0 - d) >= d
  {
    PositiveProduct(limit, d, t);
    ReachesIff(t, 4.0 * d, kept);
    assert kept >= t;
    SignOfProduct(k as real, rate);
    LevelTimes(limit, d, full, k as real, x, rate);
    CompareScaled(limit, full * d + k as real * (1.0 - d), d, x + added, t);
    assert Min(Min(x, kept) + added, 4.0 * t) >= t <==> x + added >= t;
  }

  lemma CompareScaled(limit: real, a: real, b: real, x: real, y: real)
    requires limit > 0.0 && x == limit * a && y == limit * b
    ensures x >= y <==> a >= b
  {
    SignOfProduct(a - b, limit);
    assert (a - b) * limit == x - y;
  }

  lemma MeshFull(d: real, rate: real, s: nat, n: nat, k: nat,
                 limit: real, t: real, feed: real, full: real, x: real, kept: real, level: real)
    requires 0.25 <= d < 1.0 && rate > 0.0 && s >= 4 && limit == DecayLimit(d, rate) && t == DecayThreshold(d, rate)
    requires feed == s as real * rate && full == s as real * (1.0 - Pow(d, n)) && x == FedThenDecayed(d, feed, n)
    requires kept == 4.0 * t * d && feed * d >= DECAY_TO_ZERO && kept >= DECAY_TO_ZERO && level == Level(d, s, n, k)
    ensures Counter(d, rate, 4.0 * t, s, n, k) >= t <==> level >= d
  {
    UncutLevel(d, rate, s, n, limit, t, full, x);
    FeedAtLeast(s, 4, rate, feed);
    FourfoldLoss(d, t, rate, limit, kept);
    CounterAt(d, rate, 4.0 * t, s, n, k, feed, kept);
    MeshLevel(limit, d, full, k, t, kept, x, rate, k as real * rate);
  }

  /** A decay takes at most four slots' traffic from a counter at four thresholds. */
  lemma FourfoldLoss(d: real, t: real, rate: real, limit: real, kept: real)
    requires 0.0 < d < 1.0 && rate > 0.0 && t == limit * d && rate == limit - t && kept == 4.0 * t * d
    ensures kept + 4.0 * rate >= 4.0 * t
  {
    TimesBelowOne(rate, d, rate * d);
    assert rate * d == t - t * d by { assert (limit - t) * d == limit * d - t * d; }
  }

  /** Its mesh counter is at the threshold at exactly the instants at which its uncut traffic amounts to it. */
  lemma MeshFullIff(d: real, rate: real, s: nat, n: nat, k: nat)
    requires 0.25 <= d < 1.0 && rate > 0.0 && s >= 4
    requires s as real * rate * d >= DECAY_TO_ZERO && 4.0 * DecayThreshold(d, rate) * d >= DECAY_TO_ZERO
    ensures Counter(d, rate, 4.0 * DecayThreshold(d, rate), s, n, k) >= DecayThreshold(d, rate)
       <==> Level(d, s, n, k) >= d
  {
    MeshFull(d, rate, s, n, k, DecayLimit(d, rate), DecayThreshold(d, rate), s as real * rate,
             s as real * (1.0 - Pow(d, n)), SteadyMesh(d, rate, s, n),
             4.0 * DecayThreshold(d, rate) * d, Level(d, s, n, k));
  }

  // ---------------------------------------------------------------- when traffic is enough not to decay to zero

  lemma {:induction false} PowDecreases(d: real, m: nat, n: nat)
    requires 0.0 < d < 1.0 && m <= n
    ensures Pow(d, n) <= Pow(d, m)
    decreases n
  {
    if m < n {
      PowDecreases(d, m, n - 1);
      PowPositive(d, n - 1);
      TimesBelowOne(Pow(d, n - 1), d, Pow(d, n));
    }
  }

  lemma SquareAtMost(x: real, b: real)
    requires 0.0 < x <= b
    ensures 0.0 < Pow(x, 2) <= b * b
  {
    assert Pow(x, 1) == Pow(x, 0) * x == x;
    var y := Pow(x, 2);
    PowPositive(x, 2);
    SignOfProduct(b - x, b + x);
    assert (b - x) * (b + x) == b * b - y;
  }

  /** A factor that leaves 1% after eight or more applications is above a half. */
  lemma AboveHalf(d: real, cnt: nat)
    requires IsDecay(d, cnt) && cnt >= 8
    ensures d > 0.5
  {
    if d <= 0.5 {
      SquareAtMost(d, 0.5);
      SquareAtMost(Pow(d, 2), 0.25);
      PowMul(d, 2, 2);
      SquareAtMost(Pow(d, 4), 0.0625);
      PowMul(d, 4, 2);
      PowDecreases(d, 8, cnt);
    }
  }

  lemma ThresholdAtLeast(d: real, rate: real, t: real)
    requires 0.5 < d < 1.0 && rate > 0.0 && t == DecayThreshold(d, rate)
    ensures t >= rate / 2.0 && 4.0 * t * d >= rate
  {
    ThresholdPositive(d, rate);
    LimitIsFixedPoint(d, rate);
    var limit := DecayLimit(d, rate);
    CompareScaled(limit, d, 0.5, t, limit * 0.5);
    CompareScaled(t, d, 0.5, t * d, t * 0.5);
  }

  /** A message in 90 per slot, over epochs of four slots or more, does not decay to zero. */
  lemma EnoughTraffic(d: real, rate: real, s: nat)
    requires 0.5 < d < 1.0 && rate * 90.0 >= 1.0 && s >= 4
    ensures s as real * rate * d >= DECAY_TO_ZERO && 4.0 * DecayThreshold(d, rate) * d >= DECAY_TO_ZERO
  {
    ThresholdAtLeast(d, rate, DecayThreshold(d, rate));
    var feed := s as real * rate;
    FeedAtLeast(s, 4, rate, feed);
    CompareScaled(feed, d, 0.5, feed * d, feed * 0.5);
  }

  lemma DecaysToZero(d: real, feed: real, x: real)
    requires 0.0 < d && x <= feed && feed * d < DECAY_TO_ZERO
    ensures Decayed(d, x) == 0.0
  {
    CompareScaled(d, x, feed, x * d, feed * d);
  }

  lemma {:induction false} NothingLeft(d: real, rate: real, cap: real, s: nat, n: nat, feed: real)
    requires 0.0 < d && rate >= 0.0 && cap >= 0.0 && feed == s as real * rate && feed * d < DECAY_TO_ZERO
    ensures Counter(d, rate, cap, s, n, 0) == 0.0
    decreases n
  {
    if n > 0 {
      NothingLeft(d, rate, cap, s, n - 1, feed);
      WithinEpoch(d, rate, cap, s, n - 1, s, feed);
      DecaysToZero(d, feed, Counter(d, rate, cap, s, n - 1, s));
    }
  }

  /** If a decay leaves nothing of one epoch's traffic, the counter never holds more than the current epoch's. */
  lemma TooFewNeverAdd(d: real, rate: real, cap: real, s: nat, n: nat, k: nat)
    requires 0.0 < d && rate >= 0.0 && cap >= 0.0 && s as real * rate * d < DECAY_TO_ZERO
    ensures Counter(d, rate, cap, s, n, k) == Min(k as real * rate, cap)
  {
    NothingLeft(d, rate, cap, s, n, s as real * rate);
    WithinEpoch(d, rate, cap, s, n, k, k as real * rate);
  }

  lemma FullGrows(d: real, s: nat, m: nat, n: nat, before: real, full: real)
    requires 0.0 < d < 1.0 && m <= n
    requires before == s as real * (1.0 - Pow(d, m)) && full == s as real * (1.0 - Pow(d, n))
    ensures full >= before
  {
    PowDecreases(d, m, n);
    var a, p, q := s as real, Pow(d, m), Pow(d, n);
    if a > 0.0 {
      CompareScaled(a, 1.0 - q, 1.0 - p, full, before);
    }
  }

  lemma LevelOfFull(d: real, full: real, k: nat, fd: real, ke: real)
    requires 0.0 < d < 1.0 && full >= 1.0 && fd == full * d && ke == k as real * (1.0 - d)
    ensures fd + ke >= d && (k >= 1 ==> fd + ke >= 1.0)
  {
    CompareScaled(d, full, 1.0, fd, d);
    SignOfProduct(k as real, 1.0 - d);
    ReachesIff(1.0 - d, k as real, ke);
  }

  /** Once the uncut traffic of the epochs up to a decay is at the mark, one slot restores what later decays take. */
  lemma LevelStays(d: real, s: nat, m: nat, n: nat, k: nat)
    requires 0.0 < d < 1.0 && m <= n && s as real * (1.0 - Pow(d, m)) >= 1.0
    ensures Level(d, s, n, k) >= d && (k >= 1 ==> Level(d, s, n, k) >= 1.0)
  {
    var full := s as real * (1.0 - Pow(d, n));
    FullGrows(d, s, m, n, s as real * (1.0 - Pow(d, m)), full);
    LevelOfFull(d, full, k, full * d, k as real * (1.0 - d));
  }
}
