/** The per-topic score parameters and what they mean under the gossipsub v1.1 score function. */
module ScoreParams {
  import opened Decay
  import opened SlotTime
  import opened Topics

  // Weights of the topics and of the credit a topic can give.
  const BLOCK_WEIGHT: real := 0.8
  const AGGREGATE_WEIGHT: real := 0.5
  const SYNC_CONTRIBUTION_WEIGHT: real := 0.2
  const ATTESTATION_TOTAL_WEIGHT: real := 1.0
  const SYNC_COMMITTEES_TOTAL_WEIGHT: real := 0.4
  const RARE_WEIGHT: real := 0.05
  const MAX_IN_MESH_SCORE: real := 10.0
  const MAX_FIRST_DELIVERY_SCORE: real := 40.0
  const DAMPENING: int := 90
  const MESH_SIZE: int := 6

  // Mainnet values of the beacon chain configuration.
  const SLOTS_PER_EPOCH: int := 32
  const TARGET_COMMITTEE_SIZE: int := 128
  const MAX_COMMITTEES_PER_SLOT: int := 64
  const TARGET_AGGREGATORS: int := 16
  const ATTESTATION_SUBNETS: int := 64
  const SYNC_SUBNETS: int := 4
  const SYNC_COMMITTEE_SIZE: int := 512
  const EPOCH_SECONDS: int := SECONDS_PER_SLOT * SLOTS_PER_EPOCH
  const IN_MESH_CAP: real := 300.0      // one hour in slots

  /** The sum in the source counts the contribution weight twice and the sync committees' not at all. */
  const MAX_SCORE: real :=
    (MAX_IN_MESH_SCORE + MAX_FIRST_DELIVERY_SCORE)
    * (BLOCK_WEIGHT + AGGREGATE_WEIGHT + SYNC_CONTRIBUTION_WEIGHT + ATTESTATION_TOTAL_WEIGHT
       + SYNC_CONTRIBUTION_WEIGHT + RARE_WEIGHT + RARE_WEIGHT + RARE_WEIGHT + RARE_WEIGHT)

  /** A penalty weight; dividing by a zero threshold makes it minus infinity. */
  datatype Penalty = Finite(weight: real) | MinusInfinity

  datatype TopicParams = TopicParams(
    topicWeight: real,
    timeInMeshWeight: real, timeInMeshQuantum: int, timeInMeshCap: real,
    firstWeight: real, firstDecay: real, firstCap: real,
    meshWeight: Penalty, meshDecay: real, meshCap: real, meshThreshold: real, meshWindow: int, meshActivation: int,
    failureWeight: Penalty, failureDecay: real,
    invalidWeight: real, invalidDecay: real)

  datatype Panic = SubnetWeightIsZero | NoValidators | RateIsZero

  datatype Built = Ok(params: TopicParams) | Panicked(reason: Panic)

  /** `scoreDecay` by number of slots: the factor that leaves 1% after that many applications. */
  type DecayTable = nat -> real

  ghost predicate ValidTable(decay: DecayTable) {
    forall n: nat :: n > 0 ==> IsDecay(decay(n), n)
  }

  function EpochDecay(decay: DecayTable, epochs: nat): real {
    decay(epochs * SLOTS_PER_EPOCH)
  }

  lemma EpochDecayBelowOne(decay: DecayTable, epochs: nat)
    requires ValidTable(decay) && epochs > 0
    ensures 0.0 < EpochDecay(decay, epochs) < 1.0
  {
    assert IsDecay(decay(epochs * SLOTS_PER_EPOCH), epochs * SLOTS_PER_EPOCH);
  }

  /** `-scoreByWeight(weight, threshold)`. */
  function MeshPenalty(weight: real, threshold: real): Penalty {
    var q := weight * threshold * threshold;
    if q == 0.0 then MinusInfinity else Finite(-(MAX_SCORE / q))
  }

  /** The parameter record all four traffic-driven builders fill in. */
  function Traffic(decay: DecayTable, weight: real, rate: nat, firstEpochs: nat,
                   meshRate: real, meshEpochs: nat): TopicParams
    requires ValidTable(decay) && rate > 0 && firstEpochs > 0 && meshEpochs > 0 && weight > 0.0
  {
    EpochDecayBelowOne(decay, firstEpochs);
    EpochDecayBelowOne(decay, meshEpochs);
    var first, mesh := EpochDecay(decay, firstEpochs), EpochDecay(decay, meshEpochs);
    ThresholdPositive(first, rate as real);
    var cap := DecayLimit(first, rate as real);
    var threshold := DecayThreshold(mesh, meshRate);
    TopicParams(
      weight,
      MAX_IN_MESH_SCORE / IN_MESH_CAP, SECONDS_PER_SLOT, IN_MESH_CAP,
      MAX_FIRST_DELIVERY_SCORE / cap, first, cap,
      MeshPenalty(weight, threshold), mesh, 4.0 * threshold, threshold, 2, EPOCH_SECONDS,
      MeshPenalty(weight, threshold), mesh,
      -MAX_SCORE / weight, EpochDecay(decay, 50))
  }

  /** The clamp of the source: above the maximum gives the maximum, anything else gives 1. */
  function Committees(estimate: nat): nat {
    var comms := estimate / SLOTS_PER_EPOCH / TARGET_COMMITTEE_SIZE;
    if comms > MAX_COMMITTEES_PER_SLOT then MAX_COMMITTEES_PER_SLOT else 1
  }

  function AggregateParams(decay: DecayTable, estimate: nat): TopicParams
    requires ValidTable(decay)
  {
    var aggregates := Committees(estimate) * TARGET_AGGREGATORS;
    Traffic(decay, AGGREGATE_WEIGHT, aggregates * 2 / MESH_SIZE, 1, aggregates as real / DAMPENING as real, 1)
  }

  function AttestationParams(decay: DecayTable, estimate: nat): Built
    requires ValidTable(decay)
  {
    var subnetWeight := estimate / ATTESTATION_SUBNETS;
    if subnetWeight == 0 then Panicked(SubnetWeightIsZero)
    else
      var perSlot := subnetWeight / SLOTS_PER_EPOCH;
      if perSlot == 0 then Panicked(NoValidators)
      else
        var many := Committees(estimate) >= 2 * ATTESTATION_SUBNETS / SLOTS_PER_EPOCH;
        var rate := perSlot * 2 / MESH_SIZE;
        if rate == 0 then Panicked(RateIsZero)
        else Ok(Traffic(decay, ATTESTATION_TOTAL_WEIGHT / ATTESTATION_SUBNETS as real,
                        rate, if many then 4 else 1, (perSlot / DAMPENING) as real, if many then 16 else 4))
  }

  function ContributionParams(decay: DecayTable): TopicParams
    requires ValidTable(decay)
  {
    var aggregates := SYNC_SUBNETS * TARGET_AGGREGATORS;
    Traffic(decay, SYNC_CONTRIBUTION_WEIGHT, aggregates * 2 / MESH_SIZE, 1, aggregates as real / DAMPENING as real, 1)
  }

  /** `defaultSyncSubnetTopicParams` overwrites the estimate with this. */
  function Overwritten(estimate: nat): nat {
    if estimate > SYNC_COMMITTEE_SIZE then SYNC_COMMITTEE_SIZE else estimate
  }

  function SyncSubnetParams(decay: DecayTable, estimate: nat): Built
    requires ValidTable(decay)
  {
    var subnetWeight := Overwritten(estimate) / SYNC_SUBNETS;
    if subnetWeight == 0 then Panicked(SubnetWeightIsZero)
    else
      var rate := subnetWeight * 2 / MESH_SIZE;
      if rate == 0 then Panicked(RateIsZero)
      else Ok(Traffic(decay, SYNC_COMMITTEES_TOTAL_WEIGHT / SYNC_SUBNETS as real,
                      rate, 1, (subnetWeight / DAMPENING) as real, 4))
  }

  /** Blocks and blob sidecars: fixed weights, thresholds from the blocks of five epochs. */
  function BlockParams(decay: DecayTable): TopicParams {
    var perFiveEpochs := (SLOTS_PER_EPOCH * 5) as real;
    TopicParams(
      BLOCK_WEIGHT,
      MAX_IN_MESH_SCORE / IN_MESH_CAP, SECONDS_PER_SLOT, IN_MESH_CAP,
      1.0, EpochDecay(decay, 20), 23.0,
      Finite(-0.717), EpochDecay(decay, 5), perFiveEpochs, perFiveEpochs / 10.0, 2, 4 * EPOCH_SECONDS,
      Finite(-0.717), EpochDecay(decay, 5),
      -140.4475, EpochDecay(decay, 50))
  }

  /** Slashings, exits and BLS changes: first deliveries and invalid messages only. */
  function RareParams(decay: DecayTable, firstWeight: real, firstCap: real): TopicParams {
    TopicParams(
      RARE_WEIGHT,
      MAX_IN_MESH_SCORE / IN_MESH_CAP, SECONDS_PER_SLOT, IN_MESH_CAP,
      firstWeight, EpochDecay(decay, 100), firstCap,
      Finite(0.0), 0.0, 0.0, 0.0, 0, 0,
      Finite(0.0), 0.0,
      -2000.0, EpochDecay(decay, 50))
  }

  const UNSCORED: TopicParams :=
    TopicParams(0.0, 0.0, 0, 0.0, 0.0, 0.0, 0.0, Finite(0.0), 0.0, 0.0, 0.0, 0, 0, Finite(0.0), 0.0, 0.0, 0.0)

  /** What the score switch builds for a topic, given the current estimate. */
  function Build(decay: DecayTable, kind: Option<Kind>, estimate: nat): Built
    requires ValidTable(decay)
  {
    match kind
    case None => Ok(UNSCORED)
    case Some(k) =>
      match k
      case Block => Ok(BlockParams(decay))
      case Blob => Ok(BlockParams(decay))
      case Aggregate => Ok(AggregateParams(decay, estimate))
      case Attestation => AttestationParams(decay, estimate)
      case Contribution => Ok(ContributionParams(decay))
      case SyncCommittee => SyncSubnetParams(decay, estimate)
      case ProposerSlashing => Ok(RareParams(decay, 36.0, 1.0))
      case AttesterSlashing => Ok(RareParams(decay, 36.0, 1.0))
      case BlsChange => Ok(RareParams(decay, 2.0, 5.0))
      case Exit => Ok(RareParams(decay, 2.0, 5.0))
  }

  // ---------------------------------------------------------------- validity ranges

  /** `get_committee_count_per_slot` of the phase 0 beacon chain specification. */
  function SpecCommittees(validators: nat): nat {
    var n := validators / SLOTS_PER_EPOCH / TARGET_COMMITTEE_SIZE;
    var capped := if n < MAX_COMMITTEES_PER_SLOT then n else MAX_COMMITTEES_PER_SLOT;
    if capped > 1 then capped else 1
  }

  lemma CommitteesMatchSpecIff(estimate: nat)
    ensures Committees(estimate) == SpecCommittees(estimate) <==> estimate < 8192 || estimate >= 266240
  {
  }

  /** The nested floor divisions panic exactly below 6144 validators, each for its own range. */
  lemma AttestationPanicsIff(decay: DecayTable, estimate: nat)
    requires ValidTable(decay)
    ensures AttestationParams(decay, estimate).Ok? <==> estimate >= 6144
    ensures AttestationParams(decay, estimate) == Panicked(SubnetWeightIsZero) <==> estimate < 64
    ensures AttestationParams(decay, estimate) == Panicked(NoValidators) <==> 64 <= estimate < 2048
    ensures AttestationParams(decay, estimate) == Panicked(RateIsZero) <==> 2048 <= estimate < 6144
  {
  }

  lemma SyncSubnetPanicsIff(decay: DecayTable, estimate: nat)
    requires ValidTable(decay)
    ensures SyncSubnetParams(decay, estimate).Ok? <==> estimate >= 12
  {
  }

  lemma ZeroThreshold(d: real, rate: real)
    requires 0.0 < d < 1.0 && rate >= 0.0
    ensures DecayThreshold(d, rate) > 0.0 <==> rate > 0.0
    ensures rate == 0.0 ==> DecayThreshold(d, rate) == 0.0
  {
    if rate > 0.0 {
      ThresholdPositive(d, rate);
    } else {
      QuotientIs(0.0, rate, 1.0 - d);
      assert DecayThreshold(d, rate) == 0.0 * d;
    }
  }

  lemma DampenedPerSlot(estimate: nat)
    ensures estimate / ATTESTATION_SUBNETS / SLOTS_PER_EPOCH / DAMPENING > 0 <==> estimate >= 184320
  {
  }

  lemma TrafficThresholdIff(decay: DecayTable, weight: real, rate: nat, firstEpochs: nat,
                            meshRate: real, meshEpochs: nat)
    requires ValidTable(decay) && rate > 0 && firstEpochs > 0 && meshEpochs > 0 && weight > 0.0 && meshRate >= 0.0
    ensures var p := Traffic(decay, weight, rate, firstEpochs, meshRate, meshEpochs);
            && (p.meshThreshold > 0.0 <==> meshRate > 0.0)
            && (p.meshWeight == MinusInfinity <==> meshRate == 0.0)
  {
    EpochDecayBelowOne(decay, meshEpochs);
    ZeroThreshold(EpochDecay(decay, meshEpochs), meshRate);
    PenaltyFiniteIff(weight, DecayThreshold(EpochDecay(decay, meshEpochs), meshRate));
  }

  /** The integer division by the dampening factor leaves no mesh threshold below 184320 validators. */
  lemma AttestationThresholdIff(decay: DecayTable, estimate: nat)
    requires ValidTable(decay) && estimate >= 6144
    ensures AttestationParams(decay, estimate).params.meshThreshold > 0.0 <==> estimate >= 184320
    ensures AttestationParams(decay, estimate).params.meshWeight == MinusInfinity <==> estimate < 184320
  {
    var perSlot := estimate / ATTESTATION_SUBNETS / SLOTS_PER_EPOCH;
    var many := Committees(estimate) >= 4;
    DampenedPerSlot(estimate);
    TrafficThresholdIff(decay, ATTESTATION_TOTAL_WEIGHT / ATTESTATION_SUBNETS as real, perSlot * 2 / MESH_SIZE,
                        if many then 4 else 1, (perSlot / DAMPENING) as real, if many then 16 else 4);
  }

  /** The longer decay periods apply exactly when the clamp gives the maximum. */
  lemma AttestationDecayPeriods(decay: DecayTable, estimate: nat)
    requires ValidTable(decay) && estimate >= 6144
    ensures var p := AttestationParams(decay, estimate).params;
            && p.firstDecay == EpochDecay(decay, if estimate >= 266240 then 4 else 1)
            && p.meshDecay == p.failureDecay == EpochDecay(decay, if estimate >= 266240 then 16 else 4)
  {
  }

  lemma SyncSubnetThresholdIff(decay: DecayTable, estimate: nat)
    requires ValidTable(decay) && estimate >= 12
    ensures SyncSubnetParams(decay, estimate).params.meshThreshold > 0.0 <==> estimate >= 360
    ensures SyncSubnetParams(decay, estimate).params.meshWeight == MinusInfinity <==> estimate < 360
  {
    var subnetWeight := Overwritten(estimate) / SYNC_SUBNETS;
    assert subnetWeight / DAMPENING > 0 <==> estimate >= 360;
    TrafficThresholdIff(decay, SYNC_COMMITTEES_TOTAL_WEIGHT / SYNC_SUBNETS as real, subnetWeight * 2 / MESH_SIZE,
                        1, (subnetWeight / DAMPENING) as real, 4);
  }

  lemma PenaltyFiniteIff(weight: real, threshold: real)
    requires weight > 0.0
    ensures MeshPenalty(weight, threshold) == MinusInfinity <==> threshold == 0.0
  {
    var q := weight * threshold * threshold;
    if threshold != 0.0 {
      NonZeroProduct(weight, threshold);
      NonZeroProduct(weight * threshold, threshold);
    }
  }

  lemma NonZeroProduct(a: real, b: real)
    requires a != 0.0 && b != 0.0
    ensures a * b != 0.0
  {
    assert (a * b) / b == a;
  }
}
