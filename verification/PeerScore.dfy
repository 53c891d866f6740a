/** The parameter-building loop, whose sync-committee branch overwrites a field later iterations read. */
module PeerScore {
  import opened Ints
  import opened Topics
  import opened TopicList
  import opened ScoreParams
  import Decay

  /** The finished parameter map, or the panic that ended the loop. */
  datatype Outcome = Done(params: map<string, TopicParams>) | Crashed(reason: Panic)

  /** The estimate and the outcome so far, after the loop has visited some topics. */
  datatype Loop = Loop(estimate: nat, outcome: Outcome)

  function Visit(decay: DecayTable, loop: Loop, topic: string): Loop
    requires ValidTable(decay)
  {
    if loop.outcome.Crashed? then loop
    else
      var kind := HandlerKind(topic);
      var estimate := if kind == Some(SyncCommittee) then Overwritten(loop.estimate) else loop.estimate;
      match Build(decay, kind, estimate)
      case Ok(p) => Loop(estimate, Done(loop.outcome.params[topic := p]))
      case Panicked(reason) => Loop(estimate, Crashed(reason))
  }

  function RunLoop(decay: DecayTable, topics: seq<string>, estimate: nat): Loop
    requires ValidTable(decay)
  {
    if topics == [] then Loop(estimate, Done(map[]))
    else Visit(decay, RunLoop(decay, topics[..|topics| - 1], estimate), topics[|topics| - 1])
  }

  class Scorer {
    const topics: seq<string>
    var estimateActiveValidators: nat

    constructor (estimate: nat, topics: seq<string>)
      ensures this.topics == topics && estimateActiveValidators == estimate
    {
      this.topics, estimateActiveValidators := topics, estimate;
    }

    /** `params()`: the loop over the topics, stopping at the first panic. */
    method Params(decay: DecayTable) returns (outcome: Outcome)
      requires ValidTable(decay)
      modifies this
      ensures Loop(estimateActiveValidators, outcome) == RunLoop(decay, topics, old(estimateActiveValidators))
    {
      var params: map<string, TopicParams> := map[];
      for i := 0 to |topics|
        invariant Loop(estimateActiveValidators, Done(params))
          == RunLoop(decay, topics[..i], old(estimateActiveValidators))
      {
        var topic := topics[i];
        assert topics[..i + 1][..i] == topics[..i];
        var kind := HandlerKind(topic);
        if kind == Some(SyncCommittee) && estimateActiveValidators > SYNC_COMMITTEE_SIZE {
          estimateActiveValidators := SYNC_COMMITTEE_SIZE;
        }
        var built := Build(decay, kind, estimateActiveValidators);
        if built.Panicked? {
          CrashIsFinal(decay, topics, i + 1, old(estimateActiveValidators));
          return Crashed(built.reason);
        }
        params := params[topic := built.params];
      }
      assert topics[..|topics|] == topics;
      return Done(params);
    }
  }

  lemma {:induction false} CrashIsFinal(decay: DecayTable, topics: seq<string>, i: nat, estimate: nat)
    requires ValidTable(decay) && i <= |topics|
    requires RunLoop(decay, topics[..i], estimate).outcome.Crashed?
    ensures RunLoop(decay, topics, estimate) == RunLoop(decay, topics[..i], estimate)
    decreases |topics|
  {
    if i == |topics| {
      assert topics[..i] == topics;
    } else {
      var front := topics[..|topics| - 1];
      assert front[..i] == topics[..i];
      CrashIsFinal(decay, front, i, estimate);
    }
  }

  // ---------------------------------------------------------------- the order-free meaning

  /** No topic's builder panics on the configured estimate. */
  ghost predicate AllBuild(decay: DecayTable, topics: seq<string>, estimate: nat)
    requires ValidTable(decay)
  {
    forall i :: 0 <= i < |topics| ==> Build(decay, HandlerKind(topics[i]), estimate).Ok?
  }

  /** Each topic's parameters from its kind and the configured estimate alone. */
  ghost function OrderFree(decay: DecayTable, topics: seq<string>, estimate: nat): map<string, TopicParams>
    requires ValidTable(decay) && AllBuild(decay, topics, estimate)
  {
    map topic | topic in topics :: Build(decay, HandlerKind(topic), estimate).params
  }

  /** The parameters of this kind change when the estimate is overwritten. */
  predicate Sensitive(kind: Option<Kind>, estimate: nat) {
    || (kind == Some(Attestation) && estimate >= 6144)
    || (kind == Some(Aggregate) && estimate >= 266240)
  }

  predicate SyncBefore(topics: seq<string>, i: nat)
    requires i <= |topics|
  {
    exists j :: 0 <= j < i && HandlerKind(topics[j]) == Some(SyncCommittee)
  }

  /** Some sync-committee topic precedes a topic whose parameters it changes. */
  ghost predicate Stale(topics: seq<string>, estimate: nat) {
    exists i :: 0 <= i < |topics| && SyncBefore(topics, i) && Sensitive(HandlerKind(topics[i]), estimate)
  }

  lemma BuildUnderOverwrite(decay: DecayTable, kind: Option<Kind>, estimate: nat)
    requires ValidTable(decay) && Build(decay, kind, estimate).Ok?
    ensures Build(decay, kind, Overwritten(estimate)) == Build(decay, kind, estimate) <==> !Sensitive(kind, estimate)
  {
    if kind == Some(Attestation) {
      AttestationPanicsIff(decay, estimate);
      AttestationPanicsIff(decay, Overwritten(estimate));
    } else if kind == Some(Aggregate) && estimate >= 266240 {
      AggregateChanges(decay, estimate);
    }
  }

  lemma AggregateChanges(decay: DecayTable, estimate: nat)
    requires ValidTable(decay) && estimate >= 266240
    ensures AggregateParams(decay, SYNC_COMMITTEE_SIZE).firstCap != AggregateParams(decay, estimate).firstCap
  {
    EpochDecayBelowOne(decay, 1);
    var d := EpochDecay(decay, 1);
    assert Committees(estimate) == 64 && Committees(SYNC_COMMITTEE_SIZE) == 1;
    var many, few := Decay.DecayLimit(d, 341.0), Decay.DecayLimit(d, 5.0);
    assert many * (1.0 - d) == 341.0 && few * (1.0 - d) == 5.0;
  }

  // ---------------------------------------------------------------- loop against meaning

  function EstimateAfter(topics: seq<string>, estimate: nat): nat {
    if SyncBefore(topics, |topics|) then Overwritten(estimate) else estimate
  }

  lemma SyncBeforeLast(topics: seq<string>)
    requires topics != []
    ensures var n := |topics| - 1;
            SyncBefore(topics, n + 1) <==> SyncBefore(topics[..n], n) || HandlerKind(topics[n]) == Some(SyncCommittee)
  {
    var n := |topics| - 1;
    if SyncBefore(topics[..n], n) {
      var j :| 0 <= j < n && HandlerKind(topics[..n][j]) == Some(SyncCommittee);
      assert HandlerKind(topics[j]) == Some(SyncCommittee);
    }
    if SyncBefore(topics, n + 1) && HandlerKind(topics[n]) != Some(SyncCommittee) {
      var j :| 0 <= j < n + 1 && HandlerKind(topics[j]) == Some(SyncCommittee);
      assert HandlerKind(topics[..n][j]) == Some(SyncCommittee);
    }
  }

  /** While the loop survives, its estimate is overwritten exactly if a sync-committee topic was visited. */
  lemma {:induction false} LoopEstimate(decay: DecayTable, topics: seq<string>, estimate: nat)
    requires ValidTable(decay) && RunLoop(decay, topics, estimate).outcome.Done?
    ensures RunLoop(decay, topics, estimate).estimate == EstimateAfter(topics, estimate)
  {
    if topics != [] {
      LoopEstimate(decay, topics[..|topics| - 1], estimate);
      SyncBeforeLast(topics);
    }
  }

  /** The last visit built the last topic's parameters from the estimate in force by then. */
  lemma LastVisit(decay: DecayTable, topics: seq<string>, estimate: nat)
    requires ValidTable(decay) && topics != [] && RunLoop(decay, topics, estimate).outcome.Done?
    ensures var n := |topics| - 1;
            var built := Build(decay, HandlerKind(topics[n]), EstimateAfter(topics, estimate));
            && RunLoop(decay, topics[..n], estimate).outcome.Done?
            && built.Ok?
            && RunLoop(decay, topics, estimate).outcome.params
               == RunLoop(decay, topics[..n], estimate).outcome.params[topics[n] := built.params]
  {
    var n := |topics| - 1;
    LoopEstimate(decay, topics[..n], estimate);
    SyncBeforeLast(topics);
  }

  /** A builder that panics on the configured estimate panics on the overwritten one too. */
  lemma PanicsStay(decay: DecayTable, kind: Option<Kind>, estimate: nat)
    requires ValidTable(decay) && Build(decay, kind, Overwritten(estimate)).Ok?
    ensures Build(decay, kind, estimate).Ok?
  {
    if kind == Some(Attestation) {
      AttestationPanicsIff(decay, estimate);
      AttestationPanicsIff(decay, Overwritten(estimate));
    }
  }

  lemma {:induction false} SurvivorBuilt(decay: DecayTable, topics: seq<string>, estimate: nat)
    requires ValidTable(decay) && RunLoop(decay, topics, estimate).outcome.Done?
    ensures AllBuild(decay, topics, estimate)
  {
    if topics != [] {
      var n := |topics| - 1;
      LastVisit(decay, topics, estimate);
      SurvivorBuilt(decay, topics[..n], estimate);
      if EstimateAfter(topics, estimate) == Overwritten(estimate) {
        PanicsStay(decay, HandlerKind(topics[n]), estimate);
      }
      forall i | 0 <= i < n ensures Build(decay, HandlerKind(topics[i]), estimate).Ok? {
        assert topics[..n][i] == topics[i];
      }
    }
  }

  lemma FrontNotStale(topics: seq<string>, estimate: nat)
    requires topics != [] && !Stale(topics, estimate)
    ensures !Stale(topics[..|topics| - 1], estimate)
    ensures SyncBefore(topics[..|topics| - 1], |topics| - 1) ==> !Sensitive(HandlerKind(topics[|topics| - 1]), estimate)
  {
    var n := |topics| - 1;
    var front := topics[..n];
    forall i | 0 <= i <= n && SyncBefore(front, i) ensures SyncBefore(topics, i) {
      var j :| 0 <= j < i && HandlerKind(front[j]) == Some(SyncCommittee);
      assert HandlerKind(topics[j]) == Some(SyncCommittee);
    }
    forall i | 0 <= i < n && SyncBefore(front, i) ensures !Sensitive(HandlerKind(front[i]), estimate) {
      assert SyncBefore(topics, i) && front[i] == topics[i];
    }
  }

  /** Without a stale topic the loop computes the order-free map. */
  lemma {:induction false} CleanLoop(decay: DecayTable, topics: seq<string>, estimate: nat)
    requires ValidTable(decay) && AllBuild(decay, topics, estimate) && !Stale(topics, estimate)
    ensures RunLoop(decay, topics, estimate)
      == Loop(EstimateAfter(topics, estimate), Done(OrderFree(decay, topics, estimate)))
  {
    if topics == [] {
      assert OrderFree(decay, topics, estimate) == map[];
    } else {
      var n := |topics| - 1;
      var front, kind := topics[..n], HandlerKind(topics[n]);
      FrontNotStale(topics, estimate);
      OrderFreeGrows(decay, topics, estimate);
      CleanLoop(decay, front, estimate);
      SyncBeforeLast(topics);
      BuildUnderOverwrite(decay, kind, estimate);
      assert Build(decay, kind, EstimateAfter(topics, estimate)) == Build(decay, kind, estimate);
    }
  }

  lemma OrderFreeGrows(decay: DecayTable, topics: seq<string>, estimate: nat)
    requires ValidTable(decay) && topics != [] && AllBuild(decay, topics, estimate)
    ensures var n := |topics| - 1;
            && AllBuild(decay, topics[..n], estimate)
            && OrderFree(decay, topics, estimate)
               == OrderFree(decay, topics[..n], estimate)
                  [topics[n] := Build(decay, HandlerKind(topics[n]), estimate).params]
  {
    assert topics == topics[..|topics| - 1] + [topics[|topics| - 1]];
  }

  /** A topic visited after a sync-committee topic ends up with the overwritten estimate's parameters. */
  lemma {:induction false} LateValue(decay: DecayTable, topics: seq<string>, estimate: nat, i: nat)
    requires ValidTable(decay) && i < |topics| && SyncBefore(topics, i)
    requires RunLoop(decay, topics, estimate).outcome.Done?
    ensures var m, built := RunLoop(decay, topics, estimate).outcome.params,
                            Build(decay, HandlerKind(topics[i]), Overwritten(estimate));
            topics[i] in m && built == Ok(m[topics[i]])
  {
    var n := |topics| - 1;
    LastVisit(decay, topics, estimate);
    var j :| 0 <= j < i && HandlerKind(topics[j]) == Some(SyncCommittee);
    assert EstimateAfter(topics, estimate) == Overwritten(estimate);
    if topics[i] != topics[n] {
      var front := topics[..n];
      assert HandlerKind(front[j]) == Some(SyncCommittee);
      LateValue(decay, front, estimate, i);
    }
  }

  /**
   * The loop refines the order-free map from topic to parameters if and only if no
   * sync-committee topic precedes a topic it changes; and when some builder panics on the
   * configured estimate, the loop panics wherever that topic stands.
   */
  lemma ParamsAreOrderFreeIff(decay: DecayTable, topics: seq<string>, estimate: nat)
    requires ValidTable(decay)
    ensures AllBuild(decay, topics, estimate) ==>
      (RunLoop(decay, topics, estimate).outcome == Done(OrderFree(decay, topics, estimate))
       <==> !Stale(topics, estimate))
    ensures !AllBuild(decay, topics, estimate) ==> RunLoop(decay, topics, estimate).outcome.Crashed?
  {
    if RunLoop(decay, topics, estimate).outcome.Done? {
      SurvivorBuilt(decay, topics, estimate);
    }
    if AllBuild(decay, topics, estimate) {
      if Stale(topics, estimate) {
        var i :| 0 <= i < |topics| && SyncBefore(topics, i) && Sensitive(HandlerKind(topics[i]), estimate);
        BuildUnderOverwrite(decay, HandlerKind(topics[i]), estimate);
        if RunLoop(decay, topics, estimate).outcome.Done? {
          LateValue(decay, topics, estimate, i);
        }
      } else {
        CleanLoop(decay, topics, estimate);
      }
    }
  }

  // ---------------------------------------------------------------- the generated list

  lemma GeneratedKind(topics: seq<string>, digest: seq<u8>, entries: seq<Entry>, i: nat)
    requires |digest| == 4 && Names(topics, digest, entries) && i < |topics|
    ensures HandlerKind(topics[i]) == Some(entries[i].kind)
  {
    DispatchersAgree(digest, entries[i].kind, entries[i].index);
  }

  /** The generator puts aggregates and attestations before sync committees, so nothing is stale. */
  lemma GeneratedIsNotStale(topics: seq<string>, digest: seq<u8>, subnets: Subnets, estimate: nat)
    requires |digest| == 4 && IsGenerated(topics, digest, subnets)
    ensures !Stale(topics, estimate)
  {
    var entries :| IsGeneratedBy(topics, digest, subnets, entries);
    forall i | 0 <= i < |topics| && SyncBefore(topics, i) ensures !Sensitive(HandlerKind(topics[i]), estimate) {
      var j :| 0 <= j < i && HandlerKind(topics[j]) == Some(SyncCommittee);
      SyncComesLate(topics, digest, entries, j, i);
    }
  }

  lemma SyncComesLate(topics: seq<string>, digest: seq<u8>, entries: seq<Entry>, j: nat, i: nat)
    requires |digest| == 4 && Names(topics, digest, entries) && InOrder(entries) && j < i < |topics|
    requires HandlerKind(topics[j]) == Some(SyncCommittee)
    ensures HandlerKind(topics[i]) != Some(Aggregate) && HandlerKind(topics[i]) != Some(Attestation)
  {
    GeneratedKind(topics, digest, entries, i);
    GeneratedKind(topics, digest, entries, j);
    assert Before(entries[j], entries[i]);
  }

  /** Whatever ends the loop, one of the builders raised it. */
  lemma {:induction false} CrashComesFromABuilder(decay: DecayTable, topics: seq<string>, estimate: nat)
    returns (i: nat, e: nat)
    requires ValidTable(decay) && RunLoop(decay, topics, estimate).outcome.Crashed?
    ensures i < |topics| && (e == estimate || e == Overwritten(estimate))
    ensures Build(decay, HandlerKind(topics[i]), e) == Panicked(RunLoop(decay, topics, estimate).outcome.reason)
  {
    var n := |topics| - 1;
    var front := topics[..n];
    if RunLoop(decay, front, estimate).outcome.Crashed? {
      i, e := CrashComesFromABuilder(decay, front, estimate);
    } else {
      LoopEstimate(decay, front, estimate);
      i := n;
      e := if SyncBefore(front, n) || HandlerKind(topics[n]) == Some(SyncCommittee)
           then Overwritten(estimate) else estimate;
    }
  }

  lemma EntryKind(topics: seq<string>, digest: seq<u8>, subnets: Subnets, e: Entry) returns (i: nat)
    requires |digest| == 4 && IsGenerated(topics, digest, subnets) && IsEntry(e, subnets)
    ensures i < |topics| && HandlerKind(topics[i]) == Some(e.kind)
  {
    var entries :| IsGeneratedBy(topics, digest, subnets, entries);
    assert e in entries;
    i :| 0 <= i < |entries| && entries[i] == e;
    GeneratedKind(topics, digest, entries, i);
  }

  lemma AllBuildFrom6144(decay: DecayTable, topics: seq<string>, estimate: nat)
    requires ValidTable(decay) && estimate >= 6144
    ensures AllBuild(decay, topics, estimate)
  {
    forall i | 0 <= i < |topics| ensures Build(decay, HandlerKind(topics[i]), estimate).Ok? {
      AttestationPanicsIff(decay, estimate);
      SyncSubnetPanicsIff(decay, estimate);
    }
  }

  /**
   * On the generated list the first call succeeds with the order-free parameters for every estimate
   * of at least 6144, and leaves 512 behind; the second call then panics for want of validators.
   */
  lemma SecondCallPanics(decay: DecayTable, topics: seq<string>, digest: seq<u8>, subnets: Subnets, estimate: nat)
    requires ValidTable(decay) && estimate >= 6144
    requires |digest| == 4 && IsGenerated(topics, digest, subnets)
    requires subnets.attestation > 0 && subnets.syncCommittee > 0
    ensures AllBuild(decay, topics, estimate)
    ensures RunLoop(decay, topics, estimate) == Loop(SYNC_COMMITTEE_SIZE, Done(OrderFree(decay, topics, estimate)))
    ensures RunLoop(decay, topics, SYNC_COMMITTEE_SIZE).outcome == Crashed(NoValidators)
  {
    AllBuildFrom6144(decay, topics, estimate);
    GeneratedIsNotStale(topics, digest, subnets, estimate);
    CleanLoop(decay, topics, estimate);
    var sync := EntryKind(topics, digest, subnets, Entry(SyncCommittee, 0));
    var attestation := EntryKind(topics, digest, subnets, Entry(Attestation, 0));
    SecondCall(decay, topics, attestation);
  }

  /** On an estimate of 512 the only panic any builder can raise is the want of validators. */
  lemma OnlyNoValidators(decay: DecayTable, kind: Option<Kind>)
    requires ValidTable(decay) && Build(decay, kind, SYNC_COMMITTEE_SIZE).Panicked?
    ensures Build(decay, kind, SYNC_COMMITTEE_SIZE) == Panicked(NoValidators)
  {
    AttestationPanicsIff(decay, SYNC_COMMITTEE_SIZE);
    SyncSubnetPanicsIff(decay, SYNC_COMMITTEE_SIZE);
  }

  lemma SecondCall(decay: DecayTable, topics: seq<string>, a: nat)
    requires ValidTable(decay) && a < |topics| && HandlerKind(topics[a]) == Some(Attestation)
    ensures RunLoop(decay, topics, SYNC_COMMITTEE_SIZE).outcome == Crashed(NoValidators)
  {
    AttestationPanicsIff(decay, SYNC_COMMITTEE_SIZE);
    assert !AllBuild(decay, topics, SYNC_COMMITTEE_SIZE);
    ParamsAreOrderFreeIff(decay, topics, SYNC_COMMITTEE_SIZE);
    var i, e := CrashComesFromABuilder(decay, topics, SYNC_COMMITTEE_SIZE);
    OnlyNoValidators(decay, HandlerKind(topics[i]));
  }
}
