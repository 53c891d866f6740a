/** Gossip topic strings: the generator, the parser and the three substring dispatchers. */
module Topics {
  import opened Ints
  import opened Text
  import Hex

  datatype Kind =
    | Block | Blob | Aggregate | Attestation | Contribution | SyncCommittee
    | ProposerSlashing | AttesterSlashing | BlsChange | Exit

  function Name(k: Kind): string {
    match k
    case Block => "beacon_block"
    case Blob => "blob_sidecar"
    case Aggregate => "beacon_aggregate_and_proof"
    case Attestation => "beacon_attestation"
    case Contribution => "sync_committee_contribution_and_proof"
    case SyncCommittee => "sync_committee"
    case ProposerSlashing => "proposer_slashing"
    case AttesterSlashing => "attester_slashing"
    case BlsChange => "bls_to_execution_change"
    case Exit => "voluntary_exit"
  }

  // ---------------------------------------------------------------- which names contain which

  predicate Nested(k: Kind, j: Kind) {
    k == j || (k == Contribution && j == SyncCommittee)
  }

  lemma MissingChar(s: string, p: string, c: char)
    requires c in p && c !in s
    ensures !Contains(s, p)
  {
    if Contains(s, p) {
      ContainsChars(s, p, c);
    }
  }

  /** A character of the shorter name that the longer one lacks. */
  function Witness(k: Kind, j: Kind): char {
    match k
    case Block => 'd'
    case Blob => 'k'
    case Aggregate => if j == Block then 'k' else 'i'
    case Attestation => if j == SyncCommittee then 'm' else 'l'
    case Contribution => if j == Block || j == Blob || j == Exit then 'l' else 'g'
    case SyncCommittee => 'a'
    case ProposerSlashing => if j == Block || j == Blob then 'b' else 't'
    case AttesterSlashing => 'o'
    case BlsChange => if j == Block then 'k' else if j == SyncCommittee then 'm' else 'r'
    case Exit => 'c'
  }

  predicate Short(k: Kind) {
    |Name(k)| <= 14
  }

  predicate Middle(k: Kind) {
    14 < |Name(k)| <= 18
  }

  lemma MissingFromShort(k: Kind, j: Kind)
    requires Short(k)
    ensures Witness(k, j) !in Name(k) && NoSlash(Name(k))
  {
    match k
    case Block =>
    case Blob =>
    case SyncCommittee =>
    case Exit =>
  }

  lemma MissingFromMiddle(k: Kind, j: Kind)
    requires Middle(k)
    ensures Witness(k, j) !in Name(k) && NoSlash(Name(k))
  {
    match k
    case Attestation =>
    case ProposerSlashing =>
    case AttesterSlashing =>
  }

  lemma MissingFromAggregate(j: Kind)
    ensures Witness(Aggregate, j) !in Name(Aggregate) && NoSlash(Name(Aggregate))
  {
  }

  lemma MissingFromBlsChange(j: Kind)
    ensures Witness(BlsChange, j) !in Name(BlsChange) && NoSlash(Name(BlsChange))
  {
  }

  lemma MissingFromContribution(j: Kind)
    ensures Witness(Contribution, j) !in Name(Contribution) && NoSlash(Name(Contribution))
  {
  }

  lemma WitnessMissing(k: Kind, j: Kind)
    ensures Witness(k, j) !in Name(k) && NoSlash(Name(k))
  {
    if Short(k) { MissingFromShort(k, j); }
    else if Middle(k) { MissingFromMiddle(k, j); }
    else if k == Contribution { MissingFromContribution(j); }
    else if k == Aggregate { MissingFromAggregate(j); }
    else { MissingFromBlsChange(j); }
  }

  /** The two pairs that share all characters but not the pair "be". */
  predicate NeedsPair(k: Kind, j: Kind) {
    j == Attestation && (k == Contribution || k == BlsChange)
  }

  lemma PresentInShort(k: Kind, j: Kind)
    requires Short(j) && |Name(j)| <= |Name(k)| && !Nested(k, j)
    ensures Witness(k, j) in Name(j)
  {
    var name := Name(j);
    match j
    case Block =>
    case Blob =>
    case SyncCommittee =>
    case Exit =>
  }

  lemma PresentInMiddle(k: Kind, j: Kind)
    requires Middle(j) && |Name(j)| <= |Name(k)| && !Nested(k, j) && !NeedsPair(k, j)
    ensures Witness(k, j) in Name(j)
  {
    match j
    case Attestation =>
    case ProposerSlashing =>
    case AttesterSlashing =>
  }

  lemma PresentInLong(k: Kind, j: Kind)
    requires !Short(j) && !Middle(j) && |Name(j)| <= |Name(k)| && !Nested(k, j)
    ensures Witness(k, j) in Name(j)
  {
    match j
    case Aggregate =>
    case BlsChange =>
    case Contribution =>
  }

  lemma WitnessPresent(k: Kind, j: Kind)
    requires |Name(j)| <= |Name(k)| && !Nested(k, j) && !NeedsPair(k, j)
    ensures Witness(k, j) in Name(j)
  {
    if Short(j) { PresentInShort(k, j); }
    else if Middle(j) { PresentInMiddle(k, j); }
    else { PresentInLong(k, j); }
  }

  lemma PairMissing(k: Kind, i: nat)
    requires k == Contribution || k == BlsChange
    requires i + 2 <= |Name(k)|
    ensures Name(k)[i] != 'b' || Name(k)[i + 1] != 'e'
  {
  }

  /** One name occurs in another only where `sync_committee` starts the contribution topic's name. */
  lemma NameContainsIff(k: Kind, j: Kind)
    ensures Contains(Name(k), Name(j)) <==> Nested(k, j)
  {
    var s, p := Name(k), Name(j);
    if k == j {
      ContainsItself(s);
    } else if k == Contribution && j == SyncCommittee {
      SyncCommitteeInContribution();
    } else if |p| > |s| {
      TooLong(s, p);
    } else if NeedsPair(k, j) {
      NoAttestationInside(k);
    } else {
      WitnessPresent(k, j);
      WitnessMissing(k, j);
      MissingChar(s, p, Witness(k, j));
    }
  }

  lemma SyncCommitteeInContribution()
    ensures Contains(Name(Contribution), Name(SyncCommittee))
  {
    assert Name(Contribution)[0..14] == Name(SyncCommittee);
    assert OccursAt(Name(Contribution), Name(SyncCommittee), 0);
  }

  lemma NoAttestationInside(k: Kind)
    requires k == Contribution || k == BlsChange
    ensures !Contains(Name(k), Name(Attestation))
  {
    var s, p := Name(k), Name(Attestation);
    if Contains(s, p) {
      var i :| 0 <= i <= |s| - |p| && OccursAt(s, p, i);
      assert s[i..i + |p|][0] == s[i] && s[i..i + |p|][1] == s[i + 1];
      PairMissing(k, i);
    }
  }

  // ---------------------------------------------------------------- topic strings

  /** The configured subnet counts. */
  datatype Subnets = Subnets(blob: nat, attestation: nat, syncCommittee: nat)

  predicate HasSubnets(k: Kind) {
    k == Blob || k == Attestation || k == SyncCommittee
  }

  function SubnetCount(k: Kind, subnets: Subnets): nat
    requires HasSubnets(k)
  {
    match k
    case Blob => subnets.blob
    case Attestation => subnets.attestation
    case SyncCommittee => subnets.syncCommittee
  }

  /** The name segment of a topic; the index is used by subnet topics only. */
  function Label(k: Kind, index: nat): string {
    if HasSubnets(k) then Name(k) + ("_" + Decimal(index)) else Name(k)
  }

  function Topic(digest: seq<u8>, segment: string): string {
    "" + "/" + ("eth2" + "/" + (Hex.Encode(digest) + "/" + (segment + "/" + "ssz_snappy")))
  }

  lemma NameShape(k: Kind)
    ensures 12 <= |Name(k)| && NoSlash(Name(k))
    ensures var last := Name(k)[|Name(k)| - 1]; last != '_' && !IsDigit(last)
  {
    WitnessMissing(k, k);
  }

  lemma LabelContainsIff(k: Kind, index: nat, j: Kind)
    ensures Contains(Label(k, index), Name(j)) <==> Nested(k, j)
  {
    NameContainsIff(k, j);
    NameShape(j);
    DecimalRoundTrip(index);
    if HasSubnets(k) {
      ContainsBeforeTail(Name(k), "_" + Decimal(index), Name(j));
    }
  }

  lemma LabelHasNoSlash(k: Kind, index: nat)
    ensures NoSlash(Label(k, index))
  {
    NameShape(k);
    DecimalRoundTrip(index);
  }

  /** A message name occurs in a topic only where its name segment allows it, whatever the fork digest. */
  lemma TopicContainsIff(digest: seq<u8>, k: Kind, index: nat, j: Kind)
    requires |digest| == 4
    ensures Contains(Topic(digest, Label(k, index)), Name(j)) <==> Nested(k, j)
  {
    var p, segment, text := Name(j), Label(k, index), Hex.Encode(digest);
    NameShape(j);
    Hex.EncodeShape(digest);
    LabelContainsIff(k, index, j);
    TooLong("", p);
    TooLong("eth2", p);
    TooLong(text, p);
    TooLong("ssz_snappy", p);
    ContainsAcrossSlash(segment, "ssz_snappy", p);
    ContainsAcrossSlash(text, segment + "/" + "ssz_snappy", p);
    ContainsAcrossSlash("eth2", text + "/" + (segment + "/" + "ssz_snappy"), p);
    ContainsAcrossSlash("", "eth2" + "/" + (text + "/" + (segment + "/" + "ssz_snappy")), p);
  }

  // ---------------------------------------------------------------- dispatch

  datatype Option<T> = None | Some(value: T)

  /** An ordered switch over `strings.Contains`: the first name that occurs wins. */
  function Dispatch(order: seq<Kind>, topic: string): Option<Kind> {
    if order == [] then None
    else if Contains(topic, Name(order[0])) then Some(order[0])
    else Dispatch(order[1..], topic)
  }

  /** The generator's order; the handler switch and the score switch test in this order too. */
  const SWITCH_ORDER: seq<Kind> :=
    [Block, Blob, Aggregate, Attestation, Contribution, SyncCommittee,
     ProposerSlashing, AttesterSlashing, BlsChange, Exit]

  /** The order in which the topic group is looked up. */
  const GROUP_ORDER: seq<Kind> :=
    [Block, Aggregate, Contribution, ProposerSlashing, AttesterSlashing, Exit,
     BlsChange, Attestation, SyncCommittee, Blob]

  function HandlerKind(topic: string): Option<Kind> {
    Dispatch(SWITCH_ORDER, topic)
  }

  function TopicToTopicGroup(topic: string): string {
    match Dispatch(GROUP_ORDER, topic)
    case Some(k) => Name(k)
    case None => "unknown"
  }

  ghost predicate Precedes(order: seq<Kind>, a: Kind, b: Kind) {
    exists x, y :: 0 <= x < y < |order| && order[x] == a && order[y] == b
  }

  /** Every kind is tested exactly once. */
  ghost predicate Complete(order: seq<Kind>) {
    && (forall k: Kind :: k in order)
    && (forall x, y :: 0 <= x < y < |order| ==> order[x] != order[y])
  }

  lemma {:induction false} DispatchFirst(order: seq<Kind>, topic: string, x: nat)
    requires x < |order| && Contains(topic, Name(order[x]))
    requires forall y :: 0 <= y < x ==> !Contains(topic, Name(order[y]))
    ensures Dispatch(order, topic) == Some(order[x])
  {
    if x > 0 {
      DispatchFirst(order[1..], topic, x - 1);
    }
  }

  lemma DispatchOne(order: seq<Kind>, digest: seq<u8>, k: Kind, index: nat)
    requires |digest| == 4 && Complete(order)
    requires k == Contribution ==> Precedes(order, Contribution, SyncCommittee)
    ensures Dispatch(order, Topic(digest, Label(k, index))) == Some(k)
  {
    var topic := Topic(digest, Label(k, index));
    assert k in order;
    var x :| 0 <= x < |order| && order[x] == k;
    forall y | 0 <= y < |order| ensures Contains(topic, Name(order[y])) <==> Nested(k, order[y]) {
      TopicContainsIff(digest, k, index, order[y]);
    }
    DispatchFirst(order, topic, x);
  }

  ghost predicate ClassifiesGenerated(order: seq<Kind>) {
    forall digest: seq<u8>, k, index: nat :: |digest| == 4 ==>
      Dispatch(order, Topic(digest, Label(k, index))) == Some(k)
  }

  /**
   * A switch over all names, in any order, classifies every generated topic correctly if and
   * only if it tests the contribution name before `sync_committee`.
   */
  lemma ClassifiesIff(order: seq<Kind>)
    requires Complete(order)
    ensures ClassifiesGenerated(order) <==> Precedes(order, Contribution, SyncCommittee)
  {
    if Precedes(order, Contribution, SyncCommittee) {
      forall digest: seq<u8>, k, index: nat | |digest| == 4
        ensures Dispatch(order, Topic(digest, Label(k, index))) == Some(k)
      {
        DispatchOne(order, digest, k, index);
      }
    } else {
      ContributionMisfiled(order, [0, 0, 0, 0]);
    }
  }

  lemma ContributionMisfiled(order: seq<Kind>, digest: seq<u8>)
    requires |digest| == 4 && Complete(order) && !Precedes(order, Contribution, SyncCommittee)
    ensures Dispatch(order, Topic(digest, Label(Contribution, 0))) == Some(SyncCommittee)
  {
    var topic := Topic(digest, Label(Contribution, 0));
    assert SyncCommittee in order;
    var x :| 0 <= x < |order| && order[x] == SyncCommittee;
    forall y | 0 <= y < |order| ensures Contains(topic, Name(order[y])) <==> Nested(Contribution, order[y]) {
      TopicContainsIff(digest, Contribution, 0, order[y]);
    }
    DispatchFirst(order, topic, x);
  }

  lemma SwitchOrderIsComplete()
    ensures Complete(SWITCH_ORDER) && Precedes(SWITCH_ORDER, Contribution, SyncCommittee)
  {
    assert SWITCH_ORDER[4] == Contribution && SWITCH_ORDER[5] == SyncCommittee;
    forall k: Kind ensures k in SWITCH_ORDER {
      match k
      case Block =>
      case Blob =>
      case Aggregate =>
      case Attestation =>
      case Contribution =>
      case SyncCommittee =>
      case ProposerSlashing =>
      case AttesterSlashing =>
      case BlsChange =>
      case Exit =>
    }
  }

  lemma GroupOrderIsComplete()
    ensures Complete(GROUP_ORDER) && Precedes(GROUP_ORDER, Contribution, SyncCommittee)
  {
    assert GROUP_ORDER[2] == Contribution && GROUP_ORDER[8] == SyncCommittee;
    forall k: Kind ensures k in GROUP_ORDER {
      match k
      case Block =>
      case Blob =>
      case Aggregate =>
      case Attestation =>
      case Contribution =>
      case SyncCommittee =>
      case ProposerSlashing =>
      case AttesterSlashing =>
      case BlsChange =>
      case Exit =>
    }
  }

  /** A switch recognises nothing exactly if none of its names occurs. */
  lemma {:induction false} DispatchNoneIff(order: seq<Kind>, topic: string)
    ensures Dispatch(order, topic) == None <==> forall k :: k in order ==> !Contains(topic, Name(k))
  {
    if order != [] {
      DispatchNoneIff(order[1..], topic);
      assert forall k :: k in order <==> k == order[0] || k in order[1..];
    }
  }

  /** A topic in which no message name occurs has no handler and falls into the group "unknown". */
  lemma UnknownTopicIff(topic: string)
    ensures HandlerKind(topic) == None <==> forall k: Kind :: !Contains(topic, Name(k))
    ensures TopicToTopicGroup(topic) == "unknown" <==> forall k: Kind :: !Contains(topic, Name(k))
  {
    SwitchOrderIsComplete();
    GroupOrderIsComplete();
    DispatchNoneIff(SWITCH_ORDER, topic);
    DispatchNoneIff(GROUP_ORDER, topic);
    if Dispatch(GROUP_ORDER, topic).Some? {
      NameShape(Dispatch(GROUP_ORDER, topic).value);
      assert |TopicToTopicGroup(topic)| >= 12;
    }
  }

  /** The three dispatchers agree on every topic the generator can produce. */
  lemma DispatchersAgree(digest: seq<u8>, k: Kind, index: nat)
    requires |digest| == 4
    ensures HandlerKind(Topic(digest, Label(k, index))) == Some(k)
    ensures TopicToTopicGroup(Topic(digest, Label(k, index))) == Name(k)
  {
    SwitchOrderIsComplete();
    GroupOrderIsComplete();
    DispatchOne(SWITCH_ORDER, digest, k, index);
    DispatchOne(GROUP_ORDER, digest, k, index);
  }

  // ---------------------------------------------------------------- parsing

  /** `parts[2], parts[3]` of the split topic; fewer parts make the index expression panic. */
  datatype Parsed = Parsed(forkVersion: string, messageType: string) | OutOfRange

  function ParseEth2Topic(topic: string): Parsed {
    var parts := Split(topic);
    if |parts| < 4 then OutOfRange else Parsed(parts[2], parts[3])
  }

  lemma ParsePanicsIff(topic: string)
    ensures ParseEth2Topic(topic) == OutOfRange <==> Slashes(topic) < 3
  {
    SplitCount(topic);
  }

  /** The first four parts of a text with at least three slashes, all parts but the last given. */
  lemma SplitFour(a: string, b: string, c: string, d: string, rest: string)
    requires NoSlash(a) && NoSlash(b) && NoSlash(c) && NoSlash(d)
    ensures Split(a + "/" + (b + "/" + (c + "/" + (d + "/" + rest)))) == [a, b, c, d] + Split(rest)
  {
    var third, second := d + "/" + rest, c + "/" + (d + "/" + rest);
    SplitFirst(d, rest);
    SplitFirst(c, third);
    SplitFirst(b, second);
    SplitFirst(a, b + "/" + second);
    assert Split(a + "/" + (b + "/" + second)) == [a] + ([b] + ([c] + ([d] + Split(rest))));
  }

  /** Round trip: parsing a generated topic gives back the digest text and the name with its index. */
  lemma ParseGenerated(digest: seq<u8>, k: Kind, index: nat)
    ensures ParseEth2Topic(Topic(digest, Label(k, index))) == Parsed(Hex.Encode(digest), Label(k, index))
  {
    Hex.EncodeShape(digest);
    LabelHasNoSlash(k, index);
    SplitFour("", "eth2", Hex.Encode(digest), Label(k, index), "ssz_snappy");
  }

  lemma SplitFive(a: string, b: string, c: string, d: string, e: string)
    requires NoSlash(a) && NoSlash(b) && NoSlash(c) && NoSlash(d) && NoSlash(e)
    ensures Split(a + "/" + (b + "/" + (c + "/" + (d + "/" + e)))) == [a, b, c, d, e]
  {
    SplitFour(a, b, c, d, e);
    SplitWhole(e);
  }

  /** The five parts of a generated topic: the leading empty one, the protocol, digest, name and encoding. */
  lemma TopicParts(digest: seq<u8>, k: Kind, index: nat)
    ensures Split(Topic(digest, Label(k, index))) == ["", "eth2", Hex.Encode(digest), Label(k, index), "ssz_snappy"]
  {
    Hex.EncodeShape(digest);
    LabelHasNoSlash(k, index);
    SplitFive("", "eth2", Hex.Encode(digest), Label(k, index), "ssz_snappy");
  }

  /** The name part of every kind of topic, as the consensus specifications' p2p interface writes it. */
  lemma LabelVectors()
    ensures Label(Block, 0) == "beacon_block" && Label(Aggregate, 0) == "beacon_aggregate_and_proof"
    ensures Label(Blob, 3) == "blob_sidecar_3" && Label(Attestation, 63) == "beacon_attestation_63"
    ensures Label(SyncCommittee, 2) == "sync_committee_2"
    ensures Label(Contribution, 0) == "sync_committee_contribution_and_proof"
    ensures Label(ProposerSlashing, 0) == "proposer_slashing" && Label(AttesterSlashing, 0) == "attester_slashing"
    ensures Label(BlsChange, 0) == "bls_to_execution_change" && Label(Exit, 0) == "voluntary_exit"
  {
    assert Decimal(2) == "2" && Decimal(3) == "3" && Decimal(63) == "63";
  }

  lemma LabelDeterminesIndex(k: Kind, i: nat, i': nat)
    requires HasSubnets(k) && Label(k, i) == Label(k, i')
    ensures i == i'
  {
    var n := |Name(k)| + 1;
    assert Label(k, i)[n..] == Decimal(i) && Label(k, i')[n..] == Decimal(i');
    DecimalRoundTrip(i);
    DecimalRoundTrip(i');
  }

  /** A topic determines its kind, its subnet index and its fork digest. */
  lemma TopicInjective(digest: seq<u8>, k: Kind, i: nat, digest': seq<u8>, k': Kind, i': nat)
    requires |digest| == 4 == |digest'|
    requires Topic(digest, Label(k, i)) == Topic(digest', Label(k', i'))
    ensures digest == digest' && k == k' && (HasSubnets(k) ==> i == i')
  {
    ParseGenerated(digest, k, i);
    ParseGenerated(digest', k', i');
    Hex.EncodeInjective(digest, digest');
    DispatchersAgree(digest, k, i);
    DispatchersAgree(digest', k', i');
    if HasSubnets(k) {
      LabelDeterminesIndex(k, i, i');
    }
  }
}
