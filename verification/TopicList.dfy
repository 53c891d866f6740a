/** The nested loops that build the list of topics to join. */
module TopicList {
  import opened Ints
  import opened Topics

  /** Which topic a list position holds. */
  datatype Entry = Entry(kind: Kind, index: nat)

  function Rank(k: Kind): nat {
    match k
    case Block => 0
    case Blob => 1
    case Aggregate => 2
    case Attestation => 3
    case Contribution => 4
    case SyncCommittee => 5
    case ProposerSlashing => 6
    case AttesterSlashing => 7
    case BlsChange => 8
    case Exit => 9
  }

  function TopicOf(digest: seq<u8>, e: Entry): string {
    Topic(digest, Label(e.kind, e.index))
  }

  /** One entry per subnet of a subnet kind, one for any other kind. */
  predicate IsEntry(e: Entry, subnets: Subnets) {
    if HasSubnets(e.kind) then e.index < SubnetCount(e.kind, subnets) else e.index == 0
  }

  predicate Before(a: Entry, b: Entry) {
    Rank(a.kind) < Rank(b.kind) || (a.kind == b.kind && a.index < b.index)
  }

  ghost predicate InOrder(entries: seq<Entry>) {
    forall x, y :: 0 <= x < y < |entries| ==> Before(entries[x], entries[y])
  }

  ghost predicate Names(topics: seq<string>, digest: seq<u8>, entries: seq<Entry>) {
    |topics| == |entries| && forall x :: 0 <= x < |topics| ==> topics[x] == TopicOf(digest, entries[x])
  }

  /** Exactly the entries of the kinds ranked below `rank`, and the first `count` of the kind of that rank. */
  ghost predicate Covers(entries: seq<Entry>, subnets: Subnets, rank: nat, count: nat) {
    forall e :: e in entries <==>
      IsEntry(e, subnets) && (Rank(e.kind) < rank || (Rank(e.kind) == rank && e.index < count))
  }

  lemma SwitchOrderIsRank(r: nat)
    requires r < 10
    ensures |SWITCH_ORDER| == 10 && Rank(SWITCH_ORDER[r]) == r
    ensures forall k :: Rank(k) == r ==> k == SWITCH_ORDER[r]
  {
  }

  lemma Append(entries: seq<Entry>, subnets: Subnets, e: Entry)
    requires InOrder(entries) && IsEntry(e, subnets) && Covers(entries, subnets, Rank(e.kind), e.index)
    ensures InOrder(entries + [e]) && Covers(entries + [e], subnets, Rank(e.kind), e.index + 1)
  {
    forall x | 0 <= x < |entries| ensures Before(entries[x], e) {
      assert entries[x] in entries;
    }
  }

  lemma KindDone(entries: seq<Entry>, subnets: Subnets, k: Kind, count: nat)
    requires Covers(entries, subnets, Rank(k), count)
    requires if HasSubnets(k) then count == SubnetCount(k, subnets) else count == 1
    ensures Covers(entries, subnets, Rank(k) + 1, 0)
  {
  }

  /** The list names every kind and subnet once, kind by kind in the generator's order and by index within a kind. */
  ghost predicate IsGeneratedBy(topics: seq<string>, digest: seq<u8>, subnets: Subnets, entries: seq<Entry>) {
    Names(topics, digest, entries) && InOrder(entries) && forall e :: e in entries <==> IsEntry(e, subnets)
  }

  ghost predicate IsGenerated(topics: seq<string>, digest: seq<u8>, subnets: Subnets) {
    exists entries :: IsGeneratedBy(topics, digest, subnets, entries)
  }

  method GenerateTopics(digest: seq<u8>, subnets: Subnets) returns (topics: seq<string>)
    ensures IsGenerated(topics, digest, subnets)
  {
    topics := [];
    ghost var entries: seq<Entry> := [];
    for r := 0 to |SWITCH_ORDER|
      invariant Names(topics, digest, entries) && InOrder(entries)
      invariant Covers(entries, subnets, r, 0)
    {
      var k := SWITCH_ORDER[r];
      SwitchOrderIsRank(r);
      if HasSubnets(k) {
        for i := 0 to SubnetCount(k, subnets)
          invariant Names(topics, digest, entries) && InOrder(entries)
          invariant Covers(entries, subnets, r, i)
        {
          Append(entries, subnets, Entry(k, i));
          topics, entries := topics + [Topic(digest, Label(k, i))], entries + [Entry(k, i)];
        }
        KindDone(entries, subnets, k, SubnetCount(k, subnets));
      } else {
        Append(entries, subnets, Entry(k, 0));
        topics, entries := topics + [Topic(digest, Label(k, 0))], entries + [Entry(k, 0)];
        KindDone(entries, subnets, k, 1);
      }
    }
    assert IsGeneratedBy(topics, digest, subnets, entries);
  }

  /** No topic is generated twice. */
  lemma GeneratedAreDistinct(topics: seq<string>, digest: seq<u8>, subnets: Subnets, x: nat, y: nat)
    requires |digest| == 4 && IsGenerated(topics, digest, subnets) && x < y < |topics|
    ensures topics[x] != topics[y]
  {
    var entries :| IsGeneratedBy(topics, digest, subnets, entries);
    var a, b := entries[x], entries[y];
    assert Before(a, b) && IsEntry(a, subnets) && IsEntry(b, subnets);
    if topics[x] == topics[y] {
      TopicInjective(digest, a.kind, a.index, digest, b.kind, b.index);
    }
  }
}
