/** What the parameters of every topic of the generated list are, stated in numbers. */
module ParamLaws {
  import opened Ints
  import opened Decay
  import opened Topics
  import opened TopicList
  import opened ScoreParams
  import opened PeerScore
  import opened Calibration

  /** Time in mesh counts slots, for an hour, and is worth 10; invalid messages are forgotten over 50 epochs. */
  ghost predicate CommonLaws(p: TopicParams) {
    && p.timeInMeshQuantum == 12 && p.timeInMeshCap * 12.0 == 3600.0 && p.timeInMeshCap * p.timeInMeshWeight == 10.0
    && IsDecay(p.invalidDecay, 50 * 32)
  }

  /** A full mesh deficit and an invalid message each cost 145, unless the threshold is 0 and the penalty infinite. */
  ghost predicate CostLaws(p: TopicParams) {
    && p.topicWeight * p.invalidWeight == -145.0
    && p.failureWeight == p.meshWeight && p.failureDecay == p.meshDecay
    && (if p.meshThreshold == 0.0 then p.meshWeight == MinusInfinity
        else p.meshWeight.Finite?
             && p.topicWeight * (p.meshThreshold * p.meshThreshold * p.meshWeight.weight) == -145.0)
  }

  /**
   * Topics whose parameters follow from traffic: the cap and the threshold are what counters fed `rate`
   * and `meshRate` per decay approach, and full first deliveries are worth 40.
   */
  ghost predicate TrafficLaws(p: TopicParams, weight: real, rate: nat, firstEpochs: nat,
                              meshRate: real, meshEpochs: nat)
  {
    && CommonLaws(p) && CostLaws(p) && p.topicWeight == weight
    && IsDecay(p.firstDecay, 32 * firstEpochs) && IsDecay(p.meshDecay, 32 * meshEpochs)
    && p.firstCap * (1.0 - p.firstDecay) == rate as real && p.firstCap * p.firstWeight == 40.0
    && p.meshThreshold * (1.0 - p.meshDecay) == meshRate * p.meshDecay && p.meshCap == 4.0 * p.meshThreshold
    && p.meshWindow == 2 && p.meshActivation == 384
  }

  /** Blocks and blob sidecars: full first deliveries are worth 23; the threshold is a tenth of five epochs' slots. */
  ghost predicate BlockLaws(p: TopicParams) {
    && CommonLaws(p) && p.topicWeight == 0.8 && p.invalidWeight == -140.4475
    && IsDecay(p.firstDecay, 20 * 32) && p.firstCap == 23.0 && p.firstCap * p.firstWeight == 23.0
    && IsDecay(p.meshDecay, 5 * 32) && p.meshThreshold == 16.0 && p.meshCap == 160.0
    && p.meshWeight == p.failureWeight == Finite(-0.717) && p.failureDecay == p.meshDecay
    && p.meshWindow == 2 && p.meshActivation == 4 * 384
  }

  /** Slashings, exits and BLS changes: no mesh penalty at all, and an invalid message costs 100. */
  ghost predicate RareLaws(p: TopicParams, cap: real, credit: real) {
    && CommonLaws(p) && p.topicWeight == 0.05 && p.topicWeight * p.invalidWeight == -100.0
    && IsDecay(p.firstDecay, 100 * 32) && p.firstCap == cap && p.firstCap * p.firstWeight == credit
    && p.meshWeight == p.failureWeight == Finite(0.0)
    && p.meshDecay == p.meshCap == p.meshThreshold == p.failureDecay == 0.0
    && p.meshWindow == p.meshActivation == 0
  }

  ghost predicate KindLaws(k: Kind, p: TopicParams, estimate: nat) {
    match k
    case Block => BlockLaws(p)
    case Blob => BlockLaws(p)
    case Aggregate =>
      if estimate >= 266240 then TrafficLaws(p, 0.5, 341, 1, 1024.0 / 90.0, 1)
      else TrafficLaws(p, 0.5, 5, 1, 16.0 / 90.0, 1)
    case Attestation =>
      var perSlot := estimate / 2048;
      if estimate >= 266240 then TrafficLaws(p, 1.0 / 64.0, perSlot / 3, 4, (perSlot / 90) as real, 16)
      else TrafficLaws(p, 1.0 / 64.0, perSlot / 3, 1, (perSlot / 90) as real, 4)
    case Contribution => TrafficLaws(p, 0.2, 21, 1, 64.0 / 90.0, 1)
    case SyncCommittee =>
      var perSubnet := if estimate > 512 then 128 else estimate / 4;
      TrafficLaws(p, 0.1, perSubnet / 3, 1, (perSubnet / 90) as real, 4)
    case ProposerSlashing => RareLaws(p, 1.0, 36.0)
    case AttesterSlashing => RareLaws(p, 1.0, 36.0)
    case BlsChange => RareLaws(p, 5.0, 10.0)
    case Exit => RareLaws(p, 5.0, 10.0)
  }

  lemma TableDecays(decay: DecayTable, epochs: nat)
    requires ValidTable(decay) && epochs > 0
    ensures IsDecay(EpochDecay(decay, epochs), 32 * epochs)
  {
    assert IsDecay(decay(epochs * SLOTS_PER_EPOCH), epochs * SLOTS_PER_EPOCH);
  }

  lemma LimitTimes(d: real, rate: real)
    requires d < 1.0
    ensures DecayLimit(d, rate) * (1.0 - d) == rate
    ensures DecayThreshold(d, rate) * (1.0 - d) == rate * d
  {
    var limit, e := DecayLimit(d, rate), 1.0 - d;
    assert limit * e == rate;
    Associate(limit, d, e);
    Associate(d, limit, e);
  }

  lemma TrafficCosts(decay: DecayTable, weight: real, rate: nat, firstEpochs: nat, meshRate: real, meshEpochs: nat)
    requires ValidTable(decay) && rate > 0 && firstEpochs > 0 && meshEpochs > 0 && weight > 0.0 && meshRate >= 0.0
    ensures CostLaws(Traffic(decay, weight, rate, firstEpochs, meshRate, meshEpochs))
  {
    if meshRate > 0.0 {
      TrafficIsCalibrated(decay, weight, rate, firstEpochs, meshRate, meshEpochs);
    } else {
      TrafficThresholdIff(decay, weight, rate, firstEpochs, meshRate, meshEpochs);
      EpochDecayBelowOne(decay, meshEpochs);
      ZeroThreshold(EpochDecay(decay, meshEpochs), meshRate);
      QuotientTimes(MAX_SCORE, weight);
      assert -MAX_SCORE / weight == -(MAX_SCORE / weight);
    }
  }

  lemma TrafficMeetsLaws(decay: DecayTable, weight: real, rate: nat, firstEpochs: nat, meshRate: real, meshEpochs: nat)
    requires ValidTable(decay) && rate > 0 && firstEpochs > 0 && meshEpochs > 0 && weight > 0.0 && meshRate >= 0.0
    ensures TrafficLaws(Traffic(decay, weight, rate, firstEpochs, meshRate, meshEpochs),
                        weight, rate, firstEpochs, meshRate, meshEpochs)
  {
    var p := Traffic(decay, weight, rate, firstEpochs, meshRate, meshEpochs);
    TableDecays(decay, firstEpochs);
    TableDecays(decay, meshEpochs);
    TableDecays(decay, 50);
    LimitTimes(p.firstDecay, rate as real);
    LimitTimes(p.meshDecay, meshRate);
    ThresholdPositive(p.firstDecay, rate as real);
    QuotientTimes(MAX_FIRST_DELIVERY_SCORE, p.firstCap);
    TrafficCosts(decay, weight, rate, firstEpochs, meshRate, meshEpochs);
  }

  lemma AggregateMeetsLaws(decay: DecayTable, estimate: nat)
    requires ValidTable(decay)
    ensures KindLaws(Aggregate, AggregateParams(decay, estimate), estimate)
  {
    var aggregates := Committees(estimate) * TARGET_AGGREGATORS;
    assert aggregates == if estimate >= 266240 then 1024 else 16;
    TrafficMeetsLaws(decay, AGGREGATE_WEIGHT, aggregates * 2 / MESH_SIZE, 1,
                     aggregates as real / DAMPENING as real, 1);
  }

  lemma AttestationIs(decay: DecayTable, estimate: nat) returns (perSlot: nat, many: bool)
    requires ValidTable(decay) && estimate >= 6144
    ensures perSlot == estimate / 2048 && perSlot >= 3 && many == (estimate >= 266240)
    ensures AttestationParams(decay, estimate) ==
      Ok(Traffic(decay, 1.0 / 64.0, perSlot / 3, if many then 4 else 1, (perSlot / 90) as real, if many then 16 else 4))
  {
    perSlot, many := estimate / ATTESTATION_SUBNETS / SLOTS_PER_EPOCH, Committees(estimate) >= 4;
    assert perSlot * 2 / MESH_SIZE == perSlot / 3;
  }

  lemma AttestationMeetsLaws(decay: DecayTable, estimate: nat)
    requires ValidTable(decay) && AttestationParams(decay, estimate).Ok?
    ensures KindLaws(Attestation, AttestationParams(decay, estimate).params, estimate)
  {
    AttestationPanicsIff(decay, estimate);
    var perSlot, many := AttestationIs(decay, estimate);
    TrafficMeetsLaws(decay, 1.0 / 64.0, perSlot / 3, if many then 4 else 1,
                     (perSlot / 90) as real, if many then 16 else 4);
  }

  lemma SyncSubnetMeetsLaws(decay: DecayTable, estimate: nat)
    requires ValidTable(decay) && SyncSubnetParams(decay, estimate).Ok?
    ensures KindLaws(SyncCommittee, SyncSubnetParams(decay, estimate).params, estimate)
  {
    SyncSubnetPanicsIff(decay, estimate);
    var perSubnet := SyncSubnetIs(decay, estimate);
    TrafficMeetsLaws(decay, 0.1, perSubnet / 3, 1, (perSubnet / 90) as real, 4);
  }

  lemma SyncSubnetIs(decay: DecayTable, estimate: nat) returns (perSubnet: nat)
    requires ValidTable(decay) && estimate >= 12
    ensures perSubnet == (if estimate > 512 then 128 else estimate / 4) && perSubnet >= 3
    ensures SyncSubnetParams(decay, estimate) == Ok(Traffic(decay, 0.1, perSubnet / 3, 1, (perSubnet / 90) as real, 4))
  {
    perSubnet := Overwritten(estimate) / SYNC_SUBNETS;
    assert perSubnet * 2 / MESH_SIZE == perSubnet / 3;
  }

  lemma FixedMeetLaws(decay: DecayTable)
    requires ValidTable(decay)
    ensures BlockLaws(BlockParams(decay))
    ensures RareLaws(RareParams(decay, 36.0, 1.0), 1.0, 36.0) && RareLaws(RareParams(decay, 2.0, 5.0), 5.0, 10.0)
  {
    TableDecays(decay, 5);
    TableDecays(decay, 20);
    TableDecays(decay, 50);
    TableDecays(decay, 100);
  }

  /** Whatever a builder returns for a kind meets the laws of that kind. */
  lemma BuildMeetsLaws(decay: DecayTable, k: Kind, estimate: nat)
    requires ValidTable(decay) && Build(decay, Some(k), estimate).Ok?
    ensures KindLaws(k, Build(decay, Some(k), estimate).params, estimate)
  {
    match k
    case Aggregate => AggregateMeetsLaws(decay, estimate);
    case Attestation => AttestationMeetsLaws(decay, estimate);
    case Contribution =>
      TrafficMeetsLaws(decay, SYNC_CONTRIBUTION_WEIGHT, 21, 1, 64.0 / 90.0, 1);
    case SyncCommittee => SyncSubnetMeetsLaws(decay, estimate);
    case _ => FixedMeetLaws(decay);
  }

  /** A topic with no known name in it is not scored: no counters move the score. */
  lemma UnknownIsUnscored(decay: DecayTable, estimate: nat, c: Counters)
    requires ValidTable(decay)
    ensures var built := Build(decay, None, estimate);
            && built.Ok? && built.params.meshWeight.Finite? && built.params.failureWeight.Finite?
            && Score(built.params, c) == 0.0
  {
  }

  /**
   * The map the loop returns: on every list without a stale topic, every topic has the parameters its kind
   * promises for the configured estimate.
   */
  lemma LoopMeetsLaws(decay: DecayTable, topics: seq<string>, estimate: nat, i: nat)
    requires ValidTable(decay) && AllBuild(decay, topics, estimate) && !Stale(topics, estimate) && i < |topics|
    ensures var outcome := RunLoop(decay, topics, estimate).outcome;
            && outcome.Done? && topics[i] in outcome.params
            && (HandlerKind(topics[i]).Some? ==>
                KindLaws(HandlerKind(topics[i]).value, outcome.params[topics[i]], estimate))
  {
    CleanLoop(decay, topics, estimate);
    var kind := HandlerKind(topics[i]);
    assert Build(decay, kind, estimate).Ok?;
    if kind.Some? {
      BuildMeetsLaws(decay, kind.value, estimate);
    }
  }

  /** On the generated list, from 6144 validators on, every topic has the parameters of its own kind. */
  lemma GeneratedMeetsLaws(decay: DecayTable, topics: seq<string>, digest: seq<u8>, subnets: Subnets,
                           entries: seq<Entry>, estimate: nat, i: nat)
    requires ValidTable(decay) && estimate >= 6144 && i < |topics|
    requires |digest| == 4 && IsGeneratedBy(topics, digest, subnets, entries)
    ensures var outcome := RunLoop(decay, topics, estimate).outcome;
            && outcome.Done? && topics[i] in outcome.params
            && KindLaws(entries[i].kind, outcome.params[topics[i]], estimate)
  {
    AllBuildFrom6144(decay, topics, estimate);
    GeneratedIsNotStale(topics, digest, subnets, estimate);
    GeneratedKind(topics, digest, entries, i);
    LoopMeetsLaws(decay, topics, estimate, i);
  }

  // ---------------------------------------------------------------- how many topics, and what they weigh together

  function Count(entries: seq<Entry>, k: Kind): nat {
    if entries == [] then 0
    else Count(entries[..|entries| - 1], k) + if entries[|entries| - 1].kind == k then 1 else 0
  }

  function OfKind(entries: seq<Entry>, k: Kind): set<Entry> {
    set e | e in entries && e.kind == k
  }

  lemma {:induction false} CountIsSize(entries: seq<Entry>, k: Kind)
    requires InOrder(entries)
    ensures Count(entries, k) == |OfKind(entries, k)|
  {
    if entries != [] {
      var n := |entries| - 1;
      var front, last := entries[..n], entries[n];
      CountIsSize(front, k);
      LastIsNew(entries);
      OfKindGrows(front, last, k);
    }
  }

  lemma LastIsNew(entries: seq<Entry>)
    requires entries != [] && InOrder(entries)
    ensures var n := |entries| - 1; entries == entries[..n] + [entries[n]] && entries[n] !in entries[..n]
  {
    var n := |entries| - 1;
    assert forall x :: 0 <= x < n ==> Before(entries[x], entries[n]);
  }

  lemma OfKindGrows(front: seq<Entry>, last: Entry, k: Kind)
    requires last !in front
    ensures |OfKind(front + [last], k)| == |OfKind(front, k)| + if last.kind == k then 1 else 0
  {
    if last.kind == k {
      assert OfKind(front + [last], k) == OfKind(front, k) + {last};
    } else {
      assert OfKind(front + [last], k) == OfKind(front, k);
    }
  }

  function FirstOf(k: Kind, n: nat): set<Entry> {
    set i | 0 <= i < n :: Entry(k, i)
  }

  lemma {:induction false} FirstOfSize(k: Kind, n: nat)
    ensures |FirstOf(k, n)| == n
  {
    if n > 0 {
      FirstOfSize(k, n - 1);
      assert FirstOf(k, n) == FirstOf(k, n - 1) + {Entry(k, n - 1)};
    }
  }

  /** How many topics of a kind the generated list has: one per subnet of the three subnet kinds, else one. */
  function Expected(k: Kind, subnets: Subnets): nat {
    match k
    case Blob => subnets.blob
    case Attestation => subnets.attestation
    case SyncCommittee => subnets.syncCommittee
    case _ => 1
  }

  lemma EntryIff(e: Entry, subnets: Subnets)
    ensures IsEntry(e, subnets) <==> e.index < Expected(e.kind, subnets)
  {
    match e.kind
    case Blob =>
    case Attestation =>
    case SyncCommittee =>
    case _ => assert Expected(e.kind, subnets) == 1;
  }

  lemma KindCount(entries: seq<Entry>, subnets: Subnets, k: Kind)
    requires InOrder(entries) && forall e :: e in entries <==> IsEntry(e, subnets)
    ensures Count(entries, k) == Expected(k, subnets)
  {
    CountIsSize(entries, k);
    FirstOfSize(k, Expected(k, subnets));
    forall e: Entry ensures e in OfKind(entries, k) <==> e in FirstOf(k, Expected(k, subnets)) {
      EntryIff(e, subnets);
      if e.kind == k && e.index < Expected(k, subnets) {
        assert Entry(k, e.index) in FirstOf(k, Expected(k, subnets));
      }
    }
    assert OfKind(entries, k) == FirstOf(k, Expected(k, subnets));
  }

  function Rare(entries: seq<Entry>): nat {
    Count(entries, ProposerSlashing) + Count(entries, AttesterSlashing)
    + Count(entries, BlsChange) + Count(entries, Exit)
  }

  lemma {:induction false} CountsAddUp(entries: seq<Entry>)
    ensures |entries| == Count(entries, Block) + Count(entries, Blob) + Count(entries, Aggregate)
      + Count(entries, Attestation) + Count(entries, Contribution) + Count(entries, SyncCommittee) + Rare(entries)
  {
    if entries != [] {
      CountsAddUp(entries[..|entries| - 1]);
    }
  }

  /** The weights of the first m topics of the list. */
  function WeightSum(params: map<string, TopicParams>, topics: seq<string>, m: nat): real
    requires m <= |topics| && forall i :: 0 <= i < m ==> topics[i] in params
  {
    if m == 0 then 0.0 else WeightSum(params, topics, m - 1) + params[topics[m - 1]].topicWeight
  }

  /** What the entries weigh, by how many there are of each kind. */
  function WeightByCount(entries: seq<Entry>): real {
    0.8 * Count(entries, Block) as real + 0.8 * Count(entries, Blob) as real + 0.5 * Count(entries, Aggregate) as real
    + Count(entries, Attestation) as real / 64.0 + 0.2 * Count(entries, Contribution) as real
    + 0.1 * Count(entries, SyncCommittee) as real + 0.05 * Rare(entries) as real
  }

  function KindWeight(k: Kind): real {
    match k
    case Block => 0.8
    case Blob => 0.8
    case Aggregate => 0.5
    case Attestation => 1.0 / 64.0
    case Contribution => 0.2
    case SyncCommittee => 0.1
    case _ => 0.05
  }

  lemma LawsGiveWeight(k: Kind, p: TopicParams, estimate: nat)
    requires KindLaws(k, p, estimate)
    ensures p.topicWeight == KindWeight(k)
  {
  }

  lemma OneMoreEntry(front: seq<Entry>, last: Entry)
    ensures WeightByCount(front + [last]) == WeightByCount(front) + KindWeight(last.kind)
  {
    assert (front + [last])[..|front|] == front;
  }

  lemma {:induction false} WeightIsByCount(params: map<string, TopicParams>, topics: seq<string>,
                                           entries: seq<Entry>, m: nat)
    requires m <= |topics| == |entries|
    requires forall i :: 0 <= i < m ==>
               topics[i] in params && params[topics[i]].topicWeight == KindWeight(entries[i].kind)
    ensures WeightSum(params, topics, m) == WeightByCount(entries[..m])
  {
    if m > 0 {
      WeightIsByCount(params, topics, entries, m - 1);
      assert entries[..m] == entries[..m - 1] + [entries[m - 1]];
      OneMoreEntry(entries[..m - 1], entries[m - 1]);
    }
  }

  /**
   * The generated list has seven topics beside those of the subnets, and under the parameters the loop
   * returns its topics weigh 1.7, and 0.8, 1/64 and 1/10 more per blob, attestation and sync-committee subnet.
   */
  lemma GeneratedWeights(decay: DecayTable, topics: seq<string>, digest: seq<u8>, subnets: Subnets, estimate: nat)
    requires ValidTable(decay) && estimate >= 6144
    requires |digest| == 4 && IsGenerated(topics, digest, subnets)
    ensures |topics| == 7 + subnets.blob + subnets.attestation + subnets.syncCommittee
    ensures var outcome := RunLoop(decay, topics, estimate).outcome;
            && outcome.Done? && (forall i :: 0 <= i < |topics| ==> topics[i] in outcome.params)
            && WeightSum(outcome.params, topics, |topics|)
               == 1.7 + 0.8 * subnets.blob as real + subnets.attestation as real / 64.0
                  + subnets.syncCommittee as real / 10.0
  {
    var entries: seq<Entry> :| IsGeneratedBy(topics, digest, subnets, entries);
    var outcome := RunLoop(decay, topics, estimate).outcome;
    EveryTopicMeetsLaws(decay, topics, digest, subnets, entries, estimate);
    forall i | 0 <= i < |topics|
      ensures topics[i] in outcome.params && outcome.params[topics[i]].topicWeight == KindWeight(entries[i].kind)
    {
      LawsGiveWeight(entries[i].kind, outcome.params[topics[i]], estimate);
    }
    WeightIsByCount(outcome.params, topics, entries, |topics|);
    assert entries[..|topics|] == entries;
    GeneratedCounts(entries, subnets);
  }

  lemma EveryTopicMeetsLaws(decay: DecayTable, topics: seq<string>, digest: seq<u8>, subnets: Subnets,
                            entries: seq<Entry>, estimate: nat)
    requires ValidTable(decay) && estimate >= 6144
    requires |digest| == 4 && IsGeneratedBy(topics, digest, subnets, entries)
    ensures var outcome := RunLoop(decay, topics, estimate).outcome;
            && outcome.Done?
            && forall i :: 0 <= i < |topics| ==>
                 topics[i] in outcome.params && KindLaws(entries[i].kind, outcome.params[topics[i]], estimate)
  {
    AllBuildFrom6144(decay, topics, estimate);
    assert IsGenerated(topics, digest, subnets);
    GeneratedIsNotStale(topics, digest, subnets, estimate);
    CleanLoop(decay, topics, estimate);
    var outcome := RunLoop(decay, topics, estimate).outcome;
    forall i | 0 <= i < |topics|
      ensures topics[i] in outcome.params && KindLaws(entries[i].kind, outcome.params[topics[i]], estimate)
    {
      GeneratedMeetsLaws(decay, topics, digest, subnets, entries, estimate, i);
    }
  }

  lemma GeneratedCounts(entries: seq<Entry>, subnets: Subnets)
    requires InOrder(entries) && forall e :: e in entries <==> IsEntry(e, subnets)
    ensures |entries| == 7 + subnets.blob + subnets.attestation + subnets.syncCommittee
    ensures WeightByCount(entries)
         == 1.7 + 0.8 * subnets.blob as real + subnets.attestation as real / 64.0 + subnets.syncCommittee as real / 10.0
  {
    forall k: Kind ensures Count(entries, k) == Expected(k, subnets) {
      KindCount(entries, subnets, k);
    }
    CountsAddUp(entries);
    assert Count(entries, Block) == Count(entries, Aggregate) == 1;
    assert Count(entries, Contribution) == 1 && Rare(entries) == 4;
  }
}
