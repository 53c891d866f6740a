/** What the built parameters cost and pay under the gossipsub v1.1 score function. */
module Calibration {
  import opened Decay
  import opened ScoreParams

  /** A peer's counters for one topic; time in mesh is counted in quanta. */
  datatype Counters = Counters(
    timeInMesh: real, first: real, mesh: real, meshActive: bool, failures: real, invalid: real)

  predicate NonNegative(c: Counters) {
    c.timeInMesh >= 0.0 && c.first >= 0.0 && c.mesh >= 0.0 && c.failures >= 0.0 && c.invalid >= 0.0
  }

  function Deficit(p: TopicParams, c: Counters): real {
    if c.meshActive && c.mesh < p.meshThreshold then p.meshThreshold - c.mesh else 0.0
  }

  function Credit(p: TopicParams, c: Counters): real {
    Min(c.timeInMesh, p.timeInMeshCap) * p.timeInMeshWeight + Min(c.first, p.firstCap) * p.firstWeight
  }

  function PenaltySum(p: TopicParams, c: Counters): real
    requires p.meshWeight.Finite? && p.failureWeight.Finite?
  {
    Deficit(p, c) * Deficit(p, c) * p.meshWeight.weight
    + c.failures * p.failureWeight.weight
    + c.invalid * c.invalid * p.invalidWeight
  }

  /** The topic's share of the score function: P1 to P4 with their weights, times the topic weight. */
  function Score(p: TopicParams, c: Counters): real
    requires p.meshWeight.Finite? && p.failureWeight.Finite?
  {
    p.topicWeight * (Credit(p, c) + PenaltySum(p, c))
  }

  predicate Calibrated(p: TopicParams) {
    && p.meshWeight.Finite? && p.failureWeight == p.meshWeight
    && p.topicWeight > 0.0 && p.meshThreshold > 0.0
    && p.timeInMeshWeight > 0.0 && p.timeInMeshCap > 0.0 && p.timeInMeshCap * p.timeInMeshWeight == MAX_IN_MESH_SCORE
    && p.firstWeight > 0.0 && p.firstCap > 0.0 && p.firstCap * p.firstWeight == MAX_FIRST_DELIVERY_SCORE
    && p.meshWeight.weight < 0.0
    && p.topicWeight * (p.meshThreshold * p.meshThreshold * p.meshWeight.weight) == -MAX_SCORE
    && p.invalidWeight < 0.0 && p.topicWeight * p.invalidWeight == -MAX_SCORE
  }

  lemma QuotientTimes(a: real, b: real)
    requires a > 0.0 && b > 0.0
    ensures a / b > 0.0 && b * (a / b) == a
  {
  }

  lemma PenaltyCalibrated(weight: real, threshold: real)
    requires weight > 0.0 && threshold > 0.0
    ensures MeshPenalty(weight, threshold).Finite? && MeshPenalty(weight, threshold).weight < 0.0
    ensures weight * (threshold * threshold * MeshPenalty(weight, threshold).weight) == -MAX_SCORE
  {
    PenaltyFiniteIff(weight, threshold);
    var q := weight * threshold * threshold;
    assert weight * threshold > 0.0;
    assert q > 0.0;
    QuotientTimes(MAX_SCORE, q);
    var w := -(MAX_SCORE / q);
    assert q * w == -MAX_SCORE;
    assert weight * (threshold * threshold * w) == q * w;
  }

  /** Every traffic-driven parameter set with a positive mesh rate is calibrated. */
  lemma TrafficIsCalibrated(decay: DecayTable, weight: real, rate: nat, firstEpochs: nat,
                            meshRate: real, meshEpochs: nat)
    requires ValidTable(decay) && rate > 0 && firstEpochs > 0 && meshEpochs > 0 && weight > 0.0 && meshRate > 0.0
    ensures Calibrated(Traffic(decay, weight, rate, firstEpochs, meshRate, meshEpochs))
  {
    var p := Traffic(decay, weight, rate, firstEpochs, meshRate, meshEpochs);
    EpochDecayBelowOne(decay, firstEpochs);
    EpochDecayBelowOne(decay, meshEpochs);
    ThresholdPositive(EpochDecay(decay, firstEpochs), rate as real);
    ThresholdPositive(EpochDecay(decay, meshEpochs), meshRate);
    QuotientTimes(MAX_FIRST_DELIVERY_SCORE, p.firstCap);
    PenaltyCalibrated(weight, p.meshThreshold);
    QuotientTimes(MAX_SCORE, weight);
    assert -MAX_SCORE / weight == -(MAX_SCORE / weight);
  }

  /** The four traffic-driven builders are calibrated exactly when their mesh threshold is positive. */
  lemma BuildersAreCalibratedIff(decay: DecayTable, estimate: nat)
    requires ValidTable(decay)
    ensures Calibrated(AggregateParams(decay, estimate)) && Calibrated(ContributionParams(decay))
    ensures AttestationParams(decay, estimate).Ok? && Calibrated(AttestationParams(decay, estimate).params)
       <==> estimate >= 184320
    ensures SyncSubnetParams(decay, estimate).Ok? && Calibrated(SyncSubnetParams(decay, estimate).params)
       <==> estimate >= 360
  {
    var aggregates := Committees(estimate) * TARGET_AGGREGATORS;
    TrafficIsCalibrated(decay, AGGREGATE_WEIGHT, aggregates * 2 / MESH_SIZE, 1,
                        aggregates as real / DAMPENING as real, 1);
    var contributions := SYNC_SUBNETS * TARGET_AGGREGATORS;
    TrafficIsCalibrated(decay, SYNC_CONTRIBUTION_WEIGHT, contributions * 2 / MESH_SIZE, 1,
                        contributions as real / DAMPENING as real, 1);
    AttestationCalibratedIff(decay, estimate);
    SyncSubnetCalibratedIff(decay, estimate);
  }

  lemma AttestationCalibratedIff(decay: DecayTable, estimate: nat)
    requires ValidTable(decay)
    ensures AttestationParams(decay, estimate).Ok? && Calibrated(AttestationParams(decay, estimate).params)
       <==> estimate >= 184320
  {
    AttestationPanicsIff(decay, estimate);
    if estimate >= 184320 {
      var perSlot := estimate / ATTESTATION_SUBNETS / SLOTS_PER_EPOCH;
      var many := Committees(estimate) >= 4;
      TrafficIsCalibrated(decay, ATTESTATION_TOTAL_WEIGHT / ATTESTATION_SUBNETS as real, perSlot * 2 / MESH_SIZE,
                          if many then 4 else 1, (perSlot / DAMPENING) as real, if many then 16 else 4);
    } else if estimate >= 6144 {
      AttestationThresholdIff(decay, estimate);
    }
  }

  lemma SyncSubnetCalibratedIff(decay: DecayTable, estimate: nat)
    requires ValidTable(decay)
    ensures SyncSubnetParams(decay, estimate).Ok? && Calibrated(SyncSubnetParams(decay, estimate).params)
       <==> estimate >= 360
  {
    SyncSubnetPanicsIff(decay, estimate);
    if estimate >= 360 {
      var subnetWeight := Overwritten(estimate) / SYNC_SUBNETS;
      TrafficIsCalibrated(decay, SYNC_COMMITTEES_TOTAL_WEIGHT / SYNC_SUBNETS as real, subnetWeight * 2 / MESH_SIZE,
                          1, (subnetWeight / DAMPENING) as real, 4);
    } else if estimate >= 12 {
      SyncSubnetThresholdIff(decay, estimate);
    }
  }

  // ---------------------------------------------------------------- consequences

  predicate FullCredit(p: TopicParams, c: Counters) {
    c.timeInMesh >= p.timeInMeshCap && c.first >= p.firstCap
  }

  predicate Blameless(p: TopicParams, c: Counters) {
    Deficit(p, c) == 0.0 && c.failures == 0.0 && c.invalid == 0.0
  }

  lemma CappedCredit(x: real, cap: real, weight: real)
    requires weight > 0.0
    ensures var y := Min(x, cap) * weight; y <= cap * weight && (y == cap * weight <==> x >= cap)
  {
    if x < cap {
      assert (cap - x) * weight > 0.0;
      var a, b := x * weight, cap * weight;
      assert (cap - x) * weight == b - a;
    }
  }

  lemma CreditBound(p: TopicParams, c: Counters)
    requires Calibrated(p)
    ensures Credit(p, c) <= 50.0
    ensures Credit(p, c) == 50.0 <==> FullCredit(p, c)
  {
    CappedCredit(c.timeInMesh, p.timeInMeshCap, p.timeInMeshWeight);
    CappedCredit(c.first, p.firstCap, p.firstWeight);
  }

  lemma NegativeTimes(x: real, w: real)
    requires x >= 0.0 && w < 0.0
    ensures x * w <= 0.0 && (x * w == 0.0 <==> x == 0.0)
  {
    if x > 0.0 {
      assert x * (-w) > 0.0;
    }
  }

  lemma Square(x: real)
    requires x >= 0.0
    ensures x * x >= 0.0 && (x * x == 0.0 <==> x == 0.0)
  {
    var y := x * x;
    if x > 0.0 {
      PositiveTimes(x, x, y);
    } else {
      assert y == 0.0;
    }
  }

  lemma PositiveTimes(a: real, b: real, y: real)
    requires a > 0.0 && b > 0.0 && y == a * b
    ensures y > 0.0
  {
  }

  lemma PenaltyBound(p: TopicParams, c: Counters)
    requires Calibrated(p) && NonNegative(c)
    ensures PenaltySum(p, c) <= 0.0
    ensures PenaltySum(p, c) == 0.0 <==> Blameless(p, c)
  {
    var deficit := Deficit(p, c);
    Square(deficit);
    Square(c.invalid);
    NegativeTimes(deficit * deficit, p.meshWeight.weight);
    NegativeTimes(c.failures, p.failureWeight.weight);
    NegativeTimes(c.invalid * c.invalid, p.invalidWeight);
  }

  lemma ScaleUp(w: real, x: real, bound: real)
    requires w > 0.0 && x <= bound
    ensures w * x <= w * bound && (w * x == w * bound <==> x == bound)
  {
    if x < bound {
      assert w * (bound - x) > 0.0;
      var a, b := w * x, w * bound;
      assert w * (bound - x) == b - a;
    }
  }

  /**
   * Whatever a peer does, a calibrated topic gives it at most 50 times the topic weight, and it
   * gets exactly that if and only if its time in mesh and first deliveries are full and nothing
   * is held against it.
   */
  lemma ScoreIsAtMostFifty(p: TopicParams, c: Counters)
    requires Calibrated(p) && NonNegative(c)
    ensures Score(p, c) <= p.topicWeight * 50.0
    ensures Score(p, c) == p.topicWeight * 50.0 <==> FullCredit(p, c) && Blameless(p, c)
  {
    CreditBound(p, c);
    PenaltyBound(p, c);
    ScaleUp(p.topicWeight, Credit(p, c) + PenaltySum(p, c), 50.0);
  }

  lemma ShareOf(x: real, cap: real, weight: real, full: real)
    requires cap > 0.0 && cap * weight == full
    ensures x * weight == full * (x / cap)
  {
    var q := x / cap;
    assert q * cap == x;
    Associate(q, cap, weight);
  }

  lemma CostOf(w: real, m: real, t2: real, x: real)
    requires t2 > 0.0 && w * (t2 * m) == -MAX_SCORE
    ensures w * (x * m) == -MAX_SCORE * (x / t2)
  {
    var q := x / t2;
    assert q * t2 == x;
    Associate(q, t2, m);
    Associate(w, q, t2 * m);
  }

  /**
   * The score of a calibrated topic in closed form: up to 10 and 40 times the weight in proportion to time in
   * mesh and first deliveries, less maxScore times the squared relative deficit, the failures over the
   * squared threshold, and the squared number of invalid messages.
   */
  lemma ScoreClosedForm(p: TopicParams, c: Counters, deficit: real)
    requires Calibrated(p)
    requires deficit == if c.meshActive && c.mesh < p.meshThreshold then p.meshThreshold - c.mesh else 0.0
    ensures var t2 := p.meshThreshold * p.meshThreshold;
            Score(p, c) == p.topicWeight * (10.0 * (Min(c.timeInMesh, p.timeInMeshCap) / p.timeInMeshCap)
                                            + 40.0 * (Min(c.first, p.firstCap) / p.firstCap))
                           - MAX_SCORE * (deficit * deficit / t2) - MAX_SCORE * (c.failures / t2)
                           - MAX_SCORE * (c.invalid * c.invalid)
  {
    var w, m, t2 := p.topicWeight, p.meshWeight.weight, p.meshThreshold * p.meshThreshold;
    Square(p.meshThreshold);
    ShareOf(Min(c.timeInMesh, p.timeInMeshCap), p.timeInMeshCap, p.timeInMeshWeight, 10.0);
    ShareOf(Min(c.first, p.firstCap), p.firstCap, p.firstWeight, 40.0);
    CostOf(w, m, t2, deficit * deficit);
    CostOf(w, m, t2, c.failures);
    var invalid := c.invalid * c.invalid;
    Associate(w, invalid, p.invalidWeight);
    SumUp(w, Credit(p, c), deficit * deficit * m, c.failures * m, invalid * p.invalidWeight);
  }

  lemma SumUp(w: real, a: real, b: real, c: real, d: real)
    ensures w * (a + (b + c + d)) == w * a + w * b + w * c + w * d
  {
  }

  lemma MaximalDeficit(p: TopicParams, c: Counters)
    requires Calibrated(p)
    ensures Score(p, c.(mesh := 0.0, meshActive := true)) == Score(p, c.(meshActive := false)) - MAX_SCORE
  {
    var idle, off := c.(mesh := 0.0, meshActive := true), c.(meshActive := false);
    var loss := p.meshThreshold * p.meshThreshold * p.meshWeight.weight;
    assert Deficit(p, idle) == p.meshThreshold && Deficit(p, off) == 0.0;
    assert PenaltySum(p, idle) == PenaltySum(p, off) + loss;
    Distributes(p.topicWeight, Credit(p, c) + PenaltySum(p, off), loss);
  }

  lemma OneInvalid(p: TopicParams, c: Counters)
    requires Calibrated(p)
    ensures Score(p, c.(invalid := 1.0)) == Score(p, c.(invalid := 0.0)) - MAX_SCORE
  {
    var bad, good := c.(invalid := 1.0), c.(invalid := 0.0);
    assert PenaltySum(p, bad) == PenaltySum(p, good) + p.invalidWeight;
    Distributes(p.topicWeight, Credit(p, c) + PenaltySum(p, good), p.invalidWeight);
  }

  /** Delivering nothing while active costs exactly the maximum score, and so does one invalid message. */
  lemma WorstCostsMaxScore(p: TopicParams, c: Counters)
    requires Calibrated(p)
    ensures Score(p, c.(mesh := 0.0, meshActive := true)) == Score(p, c.(meshActive := false)) - MAX_SCORE
    ensures Score(p, c.(invalid := 1.0)) == Score(p, c.(invalid := 0.0)) - MAX_SCORE
  {
    MaximalDeficit(p, c);
    OneInvalid(p, c);
  }

  lemma Distributes(w: real, x: real, y: real)
    ensures w * (x + y) == w * x + w * y
  {
  }

  /**
   * A peer's counters n decays after it joined the mesh and k slots after the last of them, with traffic at
   * exactly the expected per-slot rates.
   */
  function SteadyCounters(p: TopicParams, rate: real, meshRate: real, n: nat, k: nat): Counters {
    Counters(p.timeInMeshCap,
             Counter(p.firstDecay, rate, p.firstCap, SLOTS_PER_EPOCH, n, k),
             Counter(p.meshDecay, meshRate, p.meshCap, SLOTS_PER_EPOCH, n, k),
             true, 0.0, 0.0)
  }

  predicate HasFullScore(p: TopicParams, c: Counters) {
    p.meshWeight.Finite? && p.failureWeight.Finite? && Score(p, c) == p.topicWeight * 50.0
  }

  /**
   * The code decays once per epoch counters that are fed per slot. At every instant, a peer at exactly the
   * expected rates has the full score of its topic if and only if the instant is not just after a decay
   * and both levels of traffic are at their marks: the limit, and the limit decayed once. The mesh rates
   * of the source are whole messages over the dampening factor of 90.
   */
  lemma SteadyPeerAsCoded(decay: DecayTable, weight: real, rate: nat, firstEpochs: nat,
                          meshRate: real, meshEpochs: nat, n: nat, k: nat)
    requires ValidTable(decay) && rate > 0 && firstEpochs > 0 && meshEpochs > 0 && weight > 0.0
    requires meshRate * DAMPENING as real >= 1.0
    ensures var p := Traffic(decay, weight, rate, firstEpochs, meshRate, meshEpochs);
            HasFullScore(p, SteadyCounters(p, rate as real, meshRate, n, k)) <==>
              && k >= 1
              && Level(p.firstDecay, SLOTS_PER_EPOCH, n, k) >= 1.0
              && Level(p.meshDecay, SLOTS_PER_EPOCH, n, k) >= p.meshDecay
  {
    var p := Traffic(decay, weight, rate, firstEpochs, meshRate, meshEpochs);
    TrafficIsCalibrated(decay, weight, rate, firstEpochs, meshRate, meshEpochs);
    SteadyFirstFull(decay, rate, firstEpochs, p.firstDecay, n, k);
    SteadyMeshFull(decay, meshRate, meshEpochs, p.meshDecay, n, k);
    SteadyScore(p, SteadyCounters(p, rate as real, meshRate, n, k));
  }

  lemma SteadyFirstFull(decay: DecayTable, rate: nat, epochs: nat, d: real, n: nat, k: nat)
    requires ValidTable(decay) && rate > 0 && epochs > 0 && d == EpochDecay(decay, epochs)
    ensures d < 1.0
    ensures Counter(d, rate as real, DecayLimit(d, rate as real), SLOTS_PER_EPOCH, n, k) >= DecayLimit(d, rate as real)
       <==> k >= 1 && Level(d, SLOTS_PER_EPOCH, n, k) >= 1.0
  {
    assert IsDecay(d, epochs * SLOTS_PER_EPOCH);
    AboveHalf(d, epochs * SLOTS_PER_EPOCH);
    EnoughTraffic(d, rate as real, SLOTS_PER_EPOCH);
    ThresholdAtLeast(d, rate as real, DecayThreshold(d, rate as real));
    FirstFullIff(d, rate as real, SLOTS_PER_EPOCH, n, k);
  }

  lemma SteadyMeshFull(decay: DecayTable, rate: real, epochs: nat, d: real, n: nat, k: nat)
    requires ValidTable(decay) && rate * DAMPENING as real >= 1.0 && epochs > 0 && d == EpochDecay(decay, epochs)
    ensures d < 1.0
    ensures Counter(d, rate, 4.0 * DecayThreshold(d, rate), SLOTS_PER_EPOCH, n, k) >= DecayThreshold(d, rate)
       <==> Level(d, SLOTS_PER_EPOCH, n, k) >= d
  {
    assert IsDecay(d, epochs * SLOTS_PER_EPOCH);
    AboveHalf(d, epochs * SLOTS_PER_EPOCH);
    EnoughTraffic(d, rate, SLOTS_PER_EPOCH);
    MeshFullIff(d, rate, SLOTS_PER_EPOCH, n, k);
  }

  /**
   * Around decay n such a peer is never full just after it, and full just before it if and only if
   * 32 * (1 - d^n) is at least 1 for the first deliveries and at least d for the mesh deliveries. Once both
   * decay periods are over, its uncut traffic is past four times its marks and it is full at every instant
   * but those between a decay and the next slot.
   */
  lemma SteadyPeerAroundDecays(decay: DecayTable, weight: real, rate: nat, firstEpochs: nat,
                               meshRate: real, meshEpochs: nat, n: nat, k: nat)
    requires ValidTable(decay) && rate > 0 && firstEpochs > 0 && meshEpochs > 0 && weight > 0.0
    requires meshRate * DAMPENING as real >= 1.0 && n > 0
    ensures var p := Traffic(decay, weight, rate, firstEpochs, meshRate, meshEpochs);
            && !HasFullScore(p, SteadyCounters(p, rate as real, meshRate, n, 0))
            && (HasFullScore(p, SteadyCounters(p, rate as real, meshRate, n - 1, SLOTS_PER_EPOCH)) <==>
                32.0 * (1.0 - Pow(p.firstDecay, n)) >= 1.0 && 32.0 * (1.0 - Pow(p.meshDecay, n)) >= p.meshDecay)
    ensures var p := Traffic(decay, weight, rate, firstEpochs, meshRate, meshEpochs);
            && SteadyFirst(p.firstDecay, rate as real, SLOTS_PER_EPOCH, firstEpochs) > 4.0 * p.firstCap
            && SteadyMesh(p.meshDecay, meshRate, SLOTS_PER_EPOCH, meshEpochs) > p.meshCap
            && (n >= firstEpochs && n >= meshEpochs && k >= 1 ==>
                HasFullScore(p, SteadyCounters(p, rate as real, meshRate, n, k)))
  {
    var p := Traffic(decay, weight, rate, firstEpochs, meshRate, meshEpochs);
    SteadyPeerAsCoded(decay, weight, rate, firstEpochs, meshRate, meshEpochs, n, 0);
    SteadyPeerAsCoded(decay, weight, rate, firstEpochs, meshRate, meshEpochs, n - 1, SLOTS_PER_EPOCH);
    SteadyPeerAsCoded(decay, weight, rate, firstEpochs, meshRate, meshEpochs, n, k);
    LevelBeforeDecay(p.firstDecay, SLOTS_PER_EPOCH, n - 1);
    LevelBeforeDecay(p.meshDecay, SLOTS_PER_EPOCH, n - 1);
    assert IsDecay(p.firstDecay, firstEpochs * SLOTS_PER_EPOCH) && IsDecay(p.meshDecay, meshEpochs * SLOTS_PER_EPOCH);
    FirstPassesCap(p.firstDecay, rate as real, firstEpochs);
    MeshPassesCap(p.meshDecay, meshRate, meshEpochs);
    if n >= firstEpochs && n >= meshEpochs {
      FullFrom(p.firstDecay, firstEpochs, n, k);
      FullFrom(p.meshDecay, meshEpochs, n, k);
    }
  }

  lemma FullFrom(d: real, epochs: nat, n: nat, k: nat)
    requires epochs > 0 && IsDecay(d, epochs * 32) && n >= epochs
    ensures Level(d, 32, n, k) >= d && (k >= 1 ==> Level(d, 32, n, k) >= 1.0)
  {
    FourfoldAfterPeriod(d, epochs);
    LevelStays(d, 32, epochs, n, k);
  }

  lemma SteadyScore(p: TopicParams, c: Counters)
    requires Calibrated(p) && c.timeInMesh == p.timeInMeshCap && c.meshActive && c.failures == 0.0 && c.invalid == 0.0
    ensures Score(p, c) == p.topicWeight * 50.0 <==> c.first >= p.firstCap && c.mesh >= p.meshThreshold
  {
    CreditBound(p, c);
    var deficit := Deficit(p, c);
    Square(deficit);
    NegativeTimes(deficit * deficit, p.meshWeight.weight);
    ScaleUp(p.topicWeight, Credit(p, c) + PenaltySum(p, c), 50.0);
  }

  lemma FirstPassesCap(d: real, rate: real, epochs: nat)
    requires epochs > 0 && IsDecay(d, epochs * 32) && rate > 0.0
    ensures SteadyFirst(d, rate, 32, epochs) > 4.0 * DecayLimit(d, rate)
  {
    FourfoldAfterPeriod(d, epochs);
    SteadyFirstCounter(d, rate, 32, epochs);
    ThresholdPositive(d, rate);
    AboveFourfold(DecayLimit(d, rate), 32.0 * (1.0 - Pow(d, epochs)), SteadyFirst(d, rate, 32, epochs));
  }

  lemma MeshPassesCap(d: real, rate: real, epochs: nat)
    requires epochs > 0 && IsDecay(d, epochs * 32) && rate > 0.0
    ensures SteadyMesh(d, rate, 32, epochs) > 4.0 * DecayThreshold(d, rate)
  {
    FourfoldAfterPeriod(d, epochs);
    SteadyMeshCounter(d, rate, 32, epochs);
    ThresholdPositive(d, rate);
    AboveFourfold(DecayThreshold(d, rate), 32.0 * (1.0 - Pow(d, epochs)), SteadyMesh(d, rate, 32, epochs));
  }

  lemma AboveFourfold(t: real, k: real, x: real)
    requires t > 0.0 && k > 4.0 && x == t * k
    ensures x > 4.0 * t
  {
    PositiveTimes(t, k - 4.0, x - 4.0 * t);
  }

  /**
   * What the formulas intend, and what would hold if the decay were applied once per slot: a peer at
   * exactly the expected rates respects the first-delivery cap, is 1% of the threshold short at the
   * end of its mesh decay period, and then loses a ten-thousandth of the maximum score for it.
   */
  lemma SteadyPeerIfDecayedPerSlot(decay: DecayTable, weight: real, rate: nat, firstEpochs: nat,
                                   meshRate: real, meshEpochs: nat, n: nat)
    requires ValidTable(decay) && rate > 0 && firstEpochs > 0 && meshEpochs > 0 && weight > 0.0 && meshRate > 0.0
    ensures var p := Traffic(decay, weight, rate, firstEpochs, meshRate, meshEpochs);
            var deficit := p.meshThreshold - FedThenDecayed(p.meshDecay, meshRate, meshEpochs * SLOTS_PER_EPOCH);
            && DecayedThenFed(p.firstDecay, rate as real, 0.0, n) <= p.firstCap
            && deficit == p.meshThreshold / 100.0
            && p.meshWeight.Finite?
            && p.topicWeight * (deficit * deficit * p.meshWeight.weight) == -MAX_SCORE / 10000.0
  {
    var p := Traffic(decay, weight, rate, firstEpochs, meshRate, meshEpochs);
    TrafficIsCalibrated(decay, weight, rate, firstEpochs, meshRate, meshEpochs);
    EpochDecayBelowOne(decay, firstEpochs);
    NeverPassesLimit(p.firstDecay, rate as real, 0.0, n);
    var cnt := meshEpochs * SLOTS_PER_EPOCH;
    assert IsDecay(decay(cnt), cnt);
    DeficitClosedForm(p.meshDecay, meshRate, cnt, n);
    ScaledSquare(p.topicWeight, p.meshThreshold, p.meshWeight.weight);
  }

  lemma ScaledSquare(w: real, t: real, m: real)
    ensures w * (t / 100.0 * (t / 100.0) * m) == w * (t * t * m) / 10000.0
  {
    assert t / 100.0 * (t / 100.0) == t * t / 10000.0;
  }

  /** The weights the source's maximum is meant to cover; `rare` is the sum of the four rare topics'. */
  datatype Weights = Weights(block: real, aggregate: real, contribution: real, attestation: real,
                             syncCommittees: real, rare: real)

  /** The sum as the source writes it: the contribution weight stands where the sync committees' should. */
  function WrittenSum(w: Weights): real {
    w.block + w.aggregate + w.contribution + w.attestation + w.contribution + w.rare
  }

  function IntendedSum(w: Weights): real {
    w.block + w.aggregate + w.contribution + w.attestation + w.syncCommittees + w.rare
  }

  const MAINNET: Weights :=
    Weights(BLOCK_WEIGHT, AGGREGATE_WEIGHT, SYNC_CONTRIBUTION_WEIGHT, ATTESTATION_TOTAL_WEIGHT,
            SYNC_COMMITTEES_TOTAL_WEIGHT, RARE_WEIGHT + RARE_WEIGHT + RARE_WEIGHT + RARE_WEIGHT)

  /**
   * For any weights and any positive credit per topic, the maximum as written is the intended one if and only
   * if contributions and sync committees weigh the same, and otherwise it is off by the credit times the
   * difference. With the source's weights it is 10 short.
   */
  lemma MaxScoreShortfall(w: Weights, credit: real)
    requires credit > 0.0
    ensures credit * IntendedSum(w) - credit * WrittenSum(w) == credit * (w.syncCommittees - w.contribution)
    ensures credit * WrittenSum(w) == credit * IntendedSum(w) <==> w.contribution == w.syncCommittees
    ensures MAX_SCORE == 50.0 * WrittenSum(MAINNET) == 50.0 * IntendedSum(MAINNET) - 10.0
  {
    var gap := w.syncCommittees - w.contribution;
    assert IntendedSum(w) == WrittenSum(w) + gap;
    Distributes(credit, WrittenSum(w), gap);
    CompareScaled(credit, gap, 0.0, credit * gap, 0.0);
    CompareScaled(credit, 0.0, gap, 0.0, credit * gap);
  }
}
