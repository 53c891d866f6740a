/** Peer pruning: an early-exit loop over peers sorted by score, against a declarative set. */
module Prune {
  import opened Collections

  type PeerId = string

  const GOSSIP_THRESHOLD: real := -100.0

  datatype Pair = Pair(id: PeerId, score: real)

  /** `peerScore.get`: a peer without a snapshot scores 0. */
  function ScoreOf(snapshots: map<PeerId, real>, id: PeerId): real {
    if id in snapshots then snapshots[id] else 0.0
  }

  predicate IsBadPeer(snapshots: map<PeerId, real>, id: PeerId) {
    ScoreOf(snapshots, id) < GOSSIP_THRESHOLD
  }

  /** A peer is bad exactly if it has a snapshot with a score below -100; one without a snapshot never is. */
  lemma BadPeerIff(snapshots: map<PeerId, real>, id: PeerId)
    ensures IsBadPeer(snapshots, id) <==> id in snapshots && snapshots[id] < -100.0
  {
  }

  /** Distinct remote peers of a connection list. */
  method TotalPeerCount(conns: seq<PeerId>) returns (count: nat)
    ensures count == |Elems(conns)|
  {
    var peers := {};
    for i := 0 to |conns|
      invariant peers == Elems(conns[..i])
    {
      assert conns[..i + 1] == conns[..i] + [conns[i]];
      peers := peers + {conns[i]};
    }
    assert conns[..|conns|] == conns;
    count := |peers|;
  }

  /** Read i sees views(i); all reads see the same snapshot. */
  ghost predicate Fixed(views: nat -> map<PeerId, real>, snapshots: map<PeerId, real>) {
    forall i: nat :: views(i) == snapshots
  }

  /** Some connection's read gave this score. */
  ghost predicate WasRead(conns: seq<PeerId>, views: nat -> map<PeerId, real>, id: PeerId, score: real) {
    exists i :: 0 <= i < |conns| && conns[i] == id && score == ScoreOf(views(i), id)
  }

  ghost predicate NoneHigher(scores: map<PeerId, real>, conns: seq<PeerId>, views: nat -> map<PeerId, real>) {
    forall i :: 0 <= i < |conns| && conns[i] in scores ==> scores[conns[i]] <= ScoreOf(views(i), conns[i])
  }

  /** Each connected peer's score is the lowest of the reads made for its connections. */
  ghost predicate AreLowestReads(scores: map<PeerId, real>, conns: seq<PeerId>, views: nat -> map<PeerId, real>) {
    && scores.Keys == Elems(conns) && NoneHigher(scores, conns, views)
    && (forall id :: id in scores ==> WasRead(conns, views, id, scores[id]))
  }

  /** The map after read i: a first or lower score is entered. */
  function Enter(scores: map<PeerId, real>, id: PeerId, score: real): map<PeerId, real> {
    if id !in scores || score < scores[id] then scores[id := score] else scores
  }

  /** What read i of the snapshot says of a peer: its score there, or 0 if it is not in it. */
  ghost predicate Says(views: nat -> map<PeerId, real>, i: nat, id: PeerId, score: real) {
    if id in views(i) then views(i)[id] == score else score == 0.0
  }

  /** Exactly the connected peers, each with the lowest of what the reads for its connections say. */
  ghost predicate AreLowestSaid(scores: map<PeerId, real>, conns: seq<PeerId>, views: nat -> map<PeerId, real>) {
    && (forall id :: id in scores <==> id in conns)
    && (forall id :: id in scores ==>
          exists i :: 0 <= i < |conns| && conns[i] == id && Says(views, i, id, scores[id]))
    && (forall i, score :: 0 <= i < |conns| && Says(views, i, conns[i], score) ==> scores[conns[i]] <= score)
  }

  method CollectScores(conns: seq<PeerId>, views: nat -> map<PeerId, real>) returns (scores: map<PeerId, real>)
    ensures AreLowestReads(scores, conns, views) && AreLowestSaid(scores, conns, views)
  {
    scores := map[];
    for i := 0 to |conns|
      invariant AreLowestReads(scores, conns[..i], views)
    {
      var id := conns[i];
      var score := ScoreOf(views(i), id);
      OneMoreRead(scores, conns, views, i);
      if id !in scores || score < scores[id] {
        scores := scores[id := score];
      }
    }
    assert conns[..|conns|] == conns;
    ReadsAreSnapshots(scores, conns, views);
  }

  lemma ReadsAreSnapshots(scores: map<PeerId, real>, conns: seq<PeerId>, views: nat -> map<PeerId, real>)
    requires AreLowestReads(scores, conns, views)
    ensures AreLowestSaid(scores, conns, views)
  {
    forall id | id in scores ensures exists i :: 0 <= i < |conns| && conns[i] == id && Says(views, i, id, scores[id]) {
      var i :| 0 <= i < |conns| && conns[i] == id && scores[id] == ScoreOf(views(i), id);
      assert Says(views, i, id, scores[id]);
    }
    forall i | 0 <= i < |conns| ensures conns[i] in scores {
      assert conns[i] in Elems(conns);
    }
  }

  lemma StillRead(conns: seq<PeerId>, views: nat -> map<PeerId, real>, i: nat, id: PeerId, score: real)
    requires i < |conns| && WasRead(conns[..i], views, id, score)
    ensures WasRead(conns[..i + 1], views, id, score)
  {
    var j :| 0 <= j < i && conns[..i][j] == id && score == ScoreOf(views(j), id);
    assert conns[..i + 1][j] == id;
  }

  lemma StillNoneHigher(scores: map<PeerId, real>, conns: seq<PeerId>, views: nat -> map<PeerId, real>, i: nat)
    requires i < |conns| && scores.Keys == Elems(conns[..i]) && NoneHigher(scores, conns[..i], views)
    ensures NoneHigher(Enter(scores, conns[i], ScoreOf(views(i), conns[i])), conns[..i + 1], views)
  {
    var next, all := Enter(scores, conns[i], ScoreOf(views(i), conns[i])), conns[..i + 1];
    forall j | 0 <= j < |all| && all[j] in next ensures next[all[j]] <= ScoreOf(views(j), all[j]) {
      if j < i {
        assert all[j] == conns[..i][j];
        assert all[j] in Elems(conns[..i]);
      }
    }
  }

  lemma OneMoreRead(scores: map<PeerId, real>, conns: seq<PeerId>, views: nat -> map<PeerId, real>, i: nat)
    requires i < |conns| && AreLowestReads(scores, conns[..i], views)
    ensures AreLowestReads(Enter(scores, conns[i], ScoreOf(views(i), conns[i])), conns[..i + 1], views)
  {
    var id, score, all := conns[i], ScoreOf(views(i), conns[i]), conns[..i + 1];
    StillNoneHigher(scores, conns, views, i);
    assert all == conns[..i] + [id];
    assert Enter(scores, id, score).Keys == Elems(all);
    assert all[i] == id && WasRead(all, views, id, score);
    forall other | other in scores ensures WasRead(all, views, other, scores[other]) {
      StillRead(conns, views, i, other, scores[other]);
    }
  }

  ghost predicate DistinctIds(pairs: seq<Pair>) {
    forall i, j :: 0 <= i < j < |pairs| ==> pairs[i].id != pairs[j].id
  }

  ghost predicate SortedByScore(pairs: seq<Pair>) {
    forall i, j :: 0 <= i < j < |pairs| ==> pairs[i].score <= pairs[j].score
  }

  /** The map's entries, each once, in any order. */
  method ListPairs(scores: map<PeerId, real>) returns (pairs: seq<Pair>)
    ensures DistinctIds(pairs)
    ensures forall p :: p in pairs <==> p.id in scores && p.score == scores[p.id]
  {
    pairs := [];
    var left := scores.Keys;
    while left != {}
      invariant left <= scores.Keys
      invariant DistinctIds(pairs)
      invariant forall p :: p in pairs <==> p.id in scores && p.id !in left && p.score == scores[p.id]
    {
      var id :| id in left;
      left := left - {id};
      pairs := pairs + [Pair(id, scores[id])];
    }
  }

  lemma InsertKeepsOrder(sorted: seq<Pair>, p: Pair, k: nat)
    requires SortedByScore(sorted) && k <= |sorted|
    requires forall j :: 0 <= j < k ==> sorted[j].score <= p.score
    requires k < |sorted| ==> p.score < sorted[k].score
    ensures SortedByScore(sorted[..k] + [p] + sorted[k..])
    ensures multiset(sorted[..k] + [p] + sorted[k..]) == multiset(sorted) + multiset{p}
  {
    assert sorted == sorted[..k] + sorted[k..];
  }

  method Position(sorted: seq<Pair>, p: Pair) returns (k: nat)
    ensures k <= |sorted| && forall j :: 0 <= j < k ==> sorted[j].score <= p.score
    ensures k < |sorted| ==> p.score < sorted[k].score
  {
    k := 0;
    while k < |sorted| && sorted[k].score <= p.score
      invariant k <= |sorted| && forall j :: 0 <= j < k ==> sorted[j].score <= p.score
    {
      k := k + 1;
    }
  }

  /** Any sorting by score; `sort.Slice` does not fix the order of ties. */
  method SortByScore(pairs: seq<Pair>) returns (sorted: seq<Pair>)
    ensures SortedByScore(sorted) && multiset(sorted) == multiset(pairs)
  {
    sorted := [];
    for i := 0 to |pairs|
      invariant SortedByScore(sorted) && multiset(sorted) == multiset(pairs[..i])
    {
      assert pairs[..i + 1] == pairs[..i] + [pairs[i]];
      var k := Position(sorted, pairs[i]);
      InsertKeepsOrder(sorted, pairs[i], k);
      sorted := sorted[..k] + [pairs[i]] + sorted[k..];
    }
    assert pairs[..|pairs|] == pairs;
  }

  /** Exactly the scored peers, once each, worst first. */
  ghost predicate IsOrderOf(order: seq<Pair>, scores: map<PeerId, real>) {
    && SortedByScore(order) && DistinctIds(order)
    && forall p :: p in order <==> p.id in scores && p.score == scores[p.id]
  }

  // ---------------------------------------------------------------- what pruning means

  /** Exactly the connected peers, once each, with their scores, worst first. */
  ghost predicate IsScoreOrder(order: seq<Pair>, conns: seq<PeerId>, snapshots: map<PeerId, real>) {
    && SortedByScore(order) && DistinctIds(order)
    && forall p :: p in order <==> p.id in conns && p.score == ScoreOf(snapshots, p.id)
  }

  ghost function BadPeers(conns: seq<PeerId>, snapshots: map<PeerId, real>): set<PeerId> {
    set id | id in conns && IsBadPeer(snapshots, id)
  }

  function Ids(pairs: seq<Pair>): set<PeerId> {
    set p | p in pairs :: p.id
  }

  /** How many of n peers a bound of `excess` selects. */
  function Clamp(excess: int, n: nat): nat {
    if excess < 0 then 0 else if excess > n then n else excess
  }

  lemma {:induction false} IdsCount(pairs: seq<Pair>)
    requires DistinctIds(pairs)
    ensures |Ids(pairs)| == |pairs|
  {
    if pairs != [] {
      var n := |pairs| - 1;
      IdsCount(pairs[..n]);
      assert pairs == pairs[..n] + [pairs[n]];
      assert Ids(pairs) == Ids(pairs[..n]) + {pairs[n].id};
    }
  }

  lemma SameIdSamePair(pairs: seq<Pair>, p: Pair, q: Pair)
    requires DistinctIds(pairs) && p in pairs && q in pairs && p.id == q.id
    ensures p == q
  {
  }

  lemma {:induction false} NoRepeats(pairs: seq<Pair>)
    requires DistinctIds(pairs)
    ensures forall p :: multiset(pairs)[p] <= 1
  {
    if pairs != [] {
      var n := |pairs| - 1;
      NoRepeats(pairs[..n]);
      assert pairs == pairs[..n] + [pairs[n]];
    }
  }

  lemma TwiceInMultiset(xs: seq<Pair>, i: nat, j: nat)
    requires i < j < |xs| && xs[i] == xs[j]
    ensures multiset(xs)[xs[i]] >= 2
  {
    assert xs == xs[..i] + [xs[i]] + xs[i + 1..j] + [xs[j]] + xs[j + 1..];
  }

  lemma PermutationKeepsIds(pairs: seq<Pair>, sorted: seq<Pair>)
    requires DistinctIds(pairs) && multiset(sorted) == multiset(pairs)
    ensures DistinctIds(sorted) && forall p :: p in sorted <==> p in pairs
  {
    forall p ensures p in sorted <==> p in pairs {
      assert p in multiset(sorted) <==> p in multiset(pairs);
    }
    NoRepeats(pairs);
    forall i, j | 0 <= i < j < |sorted| ensures sorted[i].id != sorted[j].id {
      if sorted[i].id == sorted[j].id {
        SameIdSamePair(pairs, sorted[i], sorted[j]);
        TwiceInMultiset(sorted, i, j);
      }
    }
  }

  lemma InPrefix(order: seq<Pair>, k: nat, i: nat)
    requires i < k <= |order|
    ensures order[i].id in Ids(order[..k])
  {
    assert order[..k][i] == order[i];
  }

  /** A prefix of the score order that stops at a good peer beyond the excess is the bad peers plus the excess. */
  lemma PrefixIsBadPlusExcess(order: seq<Pair>, conns: seq<PeerId>, snapshots: map<PeerId, real>, excess: int, k: nat)
    requires IsScoreOrder(order, conns, snapshots) && k <= |order|
    requires forall i :: 0 <= i < k ==> i < excess || IsBadPeer(snapshots, order[i].id)
    requires k < |order| ==> !(k < excess || IsBadPeer(snapshots, order[k].id))
    ensures Ids(order[..k]) == BadPeers(conns, snapshots) + Ids(order[..Clamp(excess, |order|)])
  {
    var c := Clamp(excess, |order|);
    forall id | id in BadPeers(conns, snapshots) ensures id in Ids(order[..k]) {
      var p := Pair(id, ScoreOf(snapshots, id));
      assert p in order;
      var i :| 0 <= i < |order| && order[i] == p;
      BadIsInPrefix(order, conns, snapshots, k, i);
      InPrefix(order, k, i);
    }
    forall id | id in Ids(order[..c]) ensures id in Ids(order[..k]) {
      var i :| 0 <= i < c && order[i].id == id;
      InPrefix(order, k, i);
    }
    forall id | id in Ids(order[..k]) ensures id in BadPeers(conns, snapshots) + Ids(order[..c]) {
      var i :| 0 <= i < k && order[i].id == id;
      assert order[i] in order;
      if i < c {
        InPrefix(order, c, i);
      }
    }
  }

  lemma BadIsInPrefix(order: seq<Pair>, conns: seq<PeerId>, snapshots: map<PeerId, real>, k: nat, i: nat)
    requires IsScoreOrder(order, conns, snapshots) && k <= |order| && i < |order|
    requires k < |order| ==> !IsBadPeer(snapshots, order[k].id)
    requires IsBadPeer(snapshots, order[i].id)
    ensures i < k
  {
    assert order[i] in order;
    if k < |order| {
      assert order[k] in order;
    }
  }

  /** The connected peers with their scores, sorted: everything before the pruning loop. */
  method OrderPeers(conns: seq<PeerId>, views: nat -> map<PeerId, real>) returns (order: seq<Pair>)
    ensures exists scores :: AreLowestReads(scores, conns, views) && IsOrderOf(order, scores)
  {
    var scores := CollectScores(conns, views);
    var pairs := ListPairs(scores);
    order := SortByScore(pairs);
    PermutationKeepsIds(pairs, order);
    assert IsOrderOf(order, scores);
  }

  lemma OrderCountsPeers(order: seq<Pair>, conns: seq<PeerId>, snapshots: map<PeerId, real>)
    requires IsScoreOrder(order, conns, snapshots)
    ensures Ids(order) == Elems(conns) && |order| == |Elems(conns)|
  {
    IdsCount(order);
    forall id | id in conns ensures id in Ids(order) {
      assert Pair(id, ScoreOf(snapshots, id)) in order;
    }
    assert Ids(order) == Elems(conns);
  }

  lemma ClosedIsPrefix(order: seq<Pair>, closed: seq<PeerId>)
    requires |closed| <= |order| && forall i :: 0 <= i < |closed| ==> closed[i] == order[i].id
    ensures Elems(closed) == Ids(order[..|closed|])
  {
    forall id | id in closed ensures id in Ids(order[..|closed|]) {
      var i :| 0 <= i < |closed| && closed[i] == id;
      InPrefix(order, |closed|, i);
    }
    forall id | id in Ids(order[..|closed|]) ensures id in closed {
      var i :| 0 <= i < |closed| && order[i].id == id;
      assert closed[i] == id;
    }
  }

  /** Where the loop stops: at the first peer that is neither within the excess nor bad when it is looked at. */
  ghost predicate IsCut(closed: seq<PeerId>, order: seq<Pair>, excess: int, views: nat -> map<PeerId, real>) {
    && |closed| <= |order|
    && (forall i :: 0 <= i < |closed| ==> closed[i] == order[i].id)
    && (forall i :: 0 <= i < |closed| ==> i < excess || IsBadPeer(views(i), order[i].id))
    && (|closed| < |order| ==> !(|closed| < excess || IsBadPeer(views(|closed|), order[|closed|].id)))
  }

  /**
   * Pruning as coded. The score snapshot may be replaced between any two reads and the connection
   * list between its two uses: scores are read per connection from `first`, the excess is counted on
   * `later`, and bad peers are looked up again from `second` while closing. Whatever those are, what
   * is closed is the longest prefix of a score order whose peers are within the excess or bad.
   */
  method PrunePeers(conns: seq<PeerId>, first: nat -> map<PeerId, real>, later: seq<PeerId>,
                    second: nat -> map<PeerId, real>, target: int)
    returns (closed: seq<PeerId>)
    ensures exists scores, order ::
              && AreLowestReads(scores, conns, first) && IsOrderOf(order, scores)
              && IsCut(closed, order, |Elems(later)| - target, second)
  {
    var pairs := OrderPeers(conns, first);
    var total := TotalPeerCount(later);
    var excess := total - target;
    closed := [];
    var k := 0;
    while k < |pairs| && (k < excess || IsBadPeer(second(k), pairs[k].id))
      invariant 0 <= k <= |pairs| && |closed| == k
      invariant forall i :: 0 <= i < k ==> closed[i] == pairs[i].id
      invariant forall i :: 0 <= i < k ==> i < excess || IsBadPeer(second(i), pairs[i].id)
    {
      closed := closed + [pairs[k].id];
      k := k + 1;
    }
    assert IsCut(closed, pairs, excess, second);
  }

  // ---------------------------------------------------------------- under one snapshot

  /** The closed peers are a prefix of this score order: the bad peers together with the excess worst ones. */
  ghost predicate IsPruning(closed: seq<PeerId>, order: seq<Pair>, conns: seq<PeerId>,
                            snapshots: map<PeerId, real>, target: int)
  {
    && IsScoreOrder(order, conns, snapshots) && |closed| <= |order|
    && (forall i :: 0 <= i < |closed| ==> closed[i] == order[i].id)
    && Elems(closed) == BadPeers(conns, snapshots) + Ids(order[..Clamp(|Elems(conns)| - target, |order|)])
  }

  /**
   * If every read sees the same snapshot and the connected peers do not change, the early-exit loop
   * closes exactly the bad peers together with the excess first peers in score order.
   */
  lemma PrunesBadPlusExcess(closed: seq<PeerId>, scores: map<PeerId, real>, order: seq<Pair>, conns: seq<PeerId>,
                            later: seq<PeerId>, first: nat -> map<PeerId, real>, second: nat -> map<PeerId, real>,
                            snapshots: map<PeerId, real>, target: int)
    requires AreLowestReads(scores, conns, first) && IsOrderOf(order, scores)
    requires IsCut(closed, order, |Elems(later)| - target, second)
    requires Fixed(first, snapshots) && Fixed(second, snapshots) && Elems(later) == Elems(conns)
    ensures IsPruning(closed, order, conns, snapshots, target)
  {
    forall id | id in scores ensures id in conns && scores[id] == ScoreOf(snapshots, id) {
      assert WasRead(conns, first, id, scores[id]);
    }
    assert forall id :: id in conns ==> id in Elems(conns);
    assert IsScoreOrder(order, conns, snapshots);
    PrefixIsBadPlusExcess(order, conns, snapshots, |Elems(conns)| - target, |closed|);
    ClosedIsPrefix(order, closed);
  }

  /**
   * Otherwise a peer that is bad while closing survives if and only if it stands, in the order of the
   * earlier scores, behind a peer beyond the excess that is still good.
   */
  lemma BadSurvivesIff(closed: seq<PeerId>, order: seq<Pair>, excess: int, second: nat -> map<PeerId, real>,
                       snapshots: map<PeerId, real>, k: nat)
    requires IsCut(closed, order, excess, second) && Fixed(second, snapshots)
    requires k < |order| && IsBadPeer(snapshots, order[k].id)
    ensures k >= |closed| <==> exists j :: 0 <= j < k && j >= excess && !IsBadPeer(snapshots, order[j].id)
  {
    if k >= |closed| {
      assert !IsBadPeer(snapshots, order[|closed|].id);
    }
  }

  /** So it happens: a peer that turned bad after the scores were read hides behind a good one. */
  lemma StaleReadKeepsBadPeer(first: nat -> map<PeerId, real>, second: nat -> map<PeerId, real>)
    returns (scores: map<PeerId, real>, order: seq<Pair>)
    requires Fixed(first, map[]) && Fixed(second, map["b" := -200.0])
    ensures AreLowestReads(scores, ["a", "b"], first) && IsOrderOf(order, scores) && IsCut([], order, 0, second)
    ensures IsBadPeer(second(0), "b")
  {
    var conns: seq<PeerId> := ["a", "b"];
    scores, order := map["a" := 0.0, "b" := 0.0], [Pair("a", 0.0), Pair("b", 0.0)];
    assert conns[0] == "a" && conns[1] == "b";
    assert WasRead(conns, first, "a", 0.0) && WasRead(conns, first, "b", 0.0);
    assert scores.Keys == Elems(conns);
  }

  // ---------------------------------------------------------------- consequences

  /**
   * No bad peer survives, no closed peer scores above a kept one, at most the target number
   * remains (none, for a negative target), and no more peers are closed than those two demand. Said on
   * the snapshots themselves: a peer without one stands at 0.
   */
  lemma PruningMeetsItsGoals(closed: seq<PeerId>, order: seq<Pair>, conns: seq<PeerId>,
                             snapshots: map<PeerId, real>, target: int)
    requires IsPruning(closed, order, conns, snapshots, target)
    ensures forall id :: id in conns && id in snapshots && snapshots[id] < -100.0 ==> id in closed
    ensures Lowest(Elems(closed), Elems(conns), snapshots)
    ensures forall x, y :: x in closed && y in conns && y !in closed ==>
              && (x in snapshots && y in snapshots ==> snapshots[x] <= snapshots[y])
              && (x in snapshots && y !in snapshots ==> snapshots[x] <= 0.0)
              && (x !in snapshots && y in snapshots ==> 0.0 <= snapshots[y])
    ensures |Elems(conns)| - |closed| <= if target < 0 then 0 else target
    ensures |closed| > Clamp(|Elems(conns)| - target, |order|) ==>
              forall id :: id in closed ==> id in snapshots && snapshots[id] < -100.0
  {
    OrderCountsPeers(order, conns, snapshots);
    assert forall id :: IsBadPeer(snapshots, id) <==> id in snapshots && snapshots[id] < -100.0;
    forall id | id in conns && IsBadPeer(snapshots, id) ensures id in closed {
      assert id in BadPeers(conns, snapshots);
      assert id in Elems(closed);
    }
    forall a, b | a in closed && b in conns && b !in closed ensures ScoreOf(snapshots, a) <= ScoreOf(snapshots, b) {
      ClosedScoresBelowKept(closed, order, conns, snapshots, a, b);
    }
    ClosedAreConnected(closed, order, conns, snapshots);
    ExcessIsClosed(closed, order, Clamp(|Elems(conns)| - target, |order|));
    if |closed| > Clamp(|Elems(conns)| - target, |order|) {
      BeyondExcessAllBad(closed, order, conns, snapshots, target);
    }
  }

  lemma ClosedAreConnected(closed: seq<PeerId>, order: seq<Pair>, conns: seq<PeerId>, snapshots: map<PeerId, real>)
    requires IsScoreOrder(order, conns, snapshots) && |closed| <= |order|
    requires forall i :: 0 <= i < |closed| ==> closed[i] == order[i].id
    ensures Elems(closed) <= Elems(conns)
  {
    forall id | id in closed ensures id in conns {
      var i :| 0 <= i < |closed| && closed[i] == id;
      assert order[i] in order;
    }
  }

  lemma ClosedScoresBelowKept(closed: seq<PeerId>, order: seq<Pair>, conns: seq<PeerId>, snapshots: map<PeerId, real>,
                              a: PeerId, b: PeerId)
    requires IsScoreOrder(order, conns, snapshots) && |closed| <= |order|
    requires forall i :: 0 <= i < |closed| ==> closed[i] == order[i].id
    requires a in closed && b in conns && b !in closed
    ensures ScoreOf(snapshots, a) <= ScoreOf(snapshots, b)
  {
    var i :| 0 <= i < |closed| && closed[i] == a;
    assert order[i] in order;
    assert Pair(b, ScoreOf(snapshots, b)) in order;
    var j :| 0 <= j < |order| && order[j] == Pair(b, ScoreOf(snapshots, b));
    assert forall x :: 0 <= x < |closed| ==> order[x].id != b;
  }

  lemma ExcessIsClosed(closed: seq<PeerId>, order: seq<Pair>, c: nat)
    requires DistinctIds(order) && |closed| <= |order| && c <= |order|
    requires forall i :: 0 <= i < |closed| ==> closed[i] == order[i].id
    requires Ids(order[..c]) <= Elems(closed)
    ensures c <= |closed|
  {
    if c > |closed| {
      InPrefix(order, c, |closed|);
    }
  }

  /** When more than the excess is closed, the last closed peer was bad, and the worse ones before it too. */
  lemma BeyondExcessAllBad(closed: seq<PeerId>, order: seq<Pair>, conns: seq<PeerId>,
                             snapshots: map<PeerId, real>, target: int)
    requires IsPruning(closed, order, conns, snapshots, target)
    requires |closed| > Clamp(|Elems(conns)| - target, |order|)
    ensures forall id :: id in closed ==> IsBadPeer(snapshots, id)
  {
    var last, c := |closed| - 1, Clamp(|Elems(conns)| - target, |order|);
    assert closed[last] in Elems(closed);
    assert forall p :: p in order[..c] ==> p.id != order[last].id;
    assert closed[last] in BadPeers(conns, snapshots);
    forall id | id in closed ensures IsBadPeer(snapshots, id) {
      var i :| 0 <= i < |closed| && closed[i] == id;
      assert order[i] in order && order[last] in order;
    }
  }

  /** Every peer of a scores at most what any peer outside it does. */
  ghost predicate Lowest(a: set<PeerId>, peers: set<PeerId>, snapshots: map<PeerId, real>) {
    a <= peers && forall x, y :: x in a && y in peers && y !in a ==> ScoreOf(snapshots, x) <= ScoreOf(snapshots, y)
  }

  // ---------------------------------------------------------------- independence of the sort

  /** A good peer inside the excess has the same score as the first one outside it. */
  predicate BoundaryTie(order: seq<Pair>, c: nat) {
    0 < c < |order| && order[c - 1].score == order[c].score >= GOSSIP_THRESHOLD
  }

  /** If c peers score at most v, so do the first c of any score order. */
  lemma FirstAreLow(order: seq<Pair>, conns: seq<PeerId>, snapshots: map<PeerId, real>,
                    low: set<PeerId>, v: real, i: nat)
    requires IsScoreOrder(order, conns, snapshots) && i < |order| && i < |low|
    requires forall id :: id in low ==> id in conns && ScoreOf(snapshots, id) <= v
    ensures order[i].score <= v
  {
    if order[i].score > v {
      forall id | id in low ensures id in Ids(order[..i]) {
        var p := Pair(id, ScoreOf(snapshots, id));
        assert p in order;
        var j :| 0 <= j < |order| && order[j] == p;
        InPrefix(order, i, j);
      }
      IdsCount(order[..i]);
      SubsetSize(low, Ids(order[..i]));
    }
  }

  lemma PrefixIds(order: seq<Pair>, conns: seq<PeerId>, snapshots: map<PeerId, real>, c: nat)
    requires IsScoreOrder(order, conns, snapshots) && c <= |order|
    ensures |Ids(order[..c])| == c
    ensures forall id :: id in Ids(order[..c]) ==> id in conns
    ensures forall id :: id in Ids(order[..c]) ==> IsAmong(order, snapshots, c, id)
  {
    IdsCount(order[..c]);
    forall id | id in Ids(order[..c]) ensures id in conns && IsAmong(order, snapshots, c, id) {
      var p :| p in order[..c] && p.id == id;
      var i :| 0 <= i < c && order[i] == p;
      assert order[i] in order;
    }
  }

  ghost predicate IsAmong(order: seq<Pair>, snapshots: map<PeerId, real>, c: nat, id: PeerId)
    requires c <= |order|
  {
    exists i :: 0 <= i < c && order[i].id == id && order[i].score == ScoreOf(snapshots, id)
  }

  /** Without a tie at the boundary, another score order puts the same peers within the excess, or bad ones only. */
  lemma SameExcess(oa: seq<Pair>, ob: seq<Pair>, conns: seq<PeerId>, snapshots: map<PeerId, real>, c: nat)
    requires IsScoreOrder(oa, conns, snapshots) && IsScoreOrder(ob, conns, snapshots)
    requires c <= |oa| == |ob| && !BoundaryTie(oa, c)
    ensures BadPeers(conns, snapshots) + Ids(oa[..c]) == BadPeers(conns, snapshots) + Ids(ob[..c])
  {
    if c == |oa| {
      OrderCountsPeers(oa, conns, snapshots);
      OrderCountsPeers(ob, conns, snapshots);
      assert oa[..c] == oa && ob[..c] == ob;
    } else if c > 0 {
      var v := oa[c - 1].score;
      AlsoLow(oa, ob, conns, snapshots, c);
      if v < GOSSIP_THRESHOLD {
        AllBad(oa, conns, snapshots, c, v);
        AllBad(ob, conns, snapshots, c, v);
      } else {
        StrictBoundary(oa, ob, conns, snapshots, c);
      }
    }
  }

  /** The first c of one score order score no more than the c-th of another. */
  lemma AlsoLow(oa: seq<Pair>, ob: seq<Pair>, conns: seq<PeerId>, snapshots: map<PeerId, real>, c: nat)
    requires IsScoreOrder(oa, conns, snapshots) && IsScoreOrder(ob, conns, snapshots)
    requires 0 < c <= |oa| == |ob|
    ensures forall i :: 0 <= i < c ==> ob[i].score <= oa[c - 1].score
  {
    PrefixIds(oa, conns, snapshots, c);
    forall i | 0 <= i < c ensures ob[i].score <= oa[c - 1].score {
      FirstAreLow(ob, conns, snapshots, Ids(oa[..c]), oa[c - 1].score, i);
    }
  }

  lemma AllBad(order: seq<Pair>, conns: seq<PeerId>, snapshots: map<PeerId, real>, c: nat, v: real)
    requires IsScoreOrder(order, conns, snapshots) && c <= |order| && v < GOSSIP_THRESHOLD
    requires forall i :: 0 <= i < c ==> order[i].score <= v
    ensures Ids(order[..c]) <= BadPeers(conns, snapshots)
  {
    PrefixIds(order, conns, snapshots, c);
  }

  lemma StrictBoundary(oa: seq<Pair>, ob: seq<Pair>, conns: seq<PeerId>, snapshots: map<PeerId, real>, c: nat)
    requires IsScoreOrder(oa, conns, snapshots) && IsScoreOrder(ob, conns, snapshots)
    requires 0 < c < |oa| == |ob| && oa[c - 1].score < oa[c].score
    requires forall i :: 0 <= i < c ==> ob[i].score <= oa[c - 1].score
    ensures Ids(oa[..c]) == Ids(ob[..c])
  {
    PrefixIds(oa, conns, snapshots, c);
    PrefixIds(ob, conns, snapshots, c);
    forall id | id in Ids(ob[..c]) ensures id in Ids(oa[..c]) {
      assert IsAmong(ob, snapshots, c, id);
      var p := Pair(id, ScoreOf(snapshots, id));
      assert p in oa;
      var j :| 0 <= j < |oa| && oa[j] == p;
      InPrefix(oa, c, j);
    }
    SubsetSize(Ids(ob[..c]), Ids(oa[..c]));
  }

  /** A tie at the boundary lets another sorting close a different peer. */
  lemma TieChangesPruning(a: seq<PeerId>, oa: seq<Pair>, conns: seq<PeerId>, snapshots: map<PeerId, real>, target: int)
    returns (b: seq<PeerId>, ob: seq<Pair>)
    requires IsPruning(a, oa, conns, snapshots, target)
    requires BoundaryTie(oa, Clamp(|Elems(conns)| - target, |oa|))
    ensures IsPruning(b, ob, conns, snapshots, target) && Elems(b) != Elems(a)
  {
    var c := Clamp(|Elems(conns)| - target, |oa|);
    ob := oa[c - 1 := oa[c]][c := oa[c - 1]];
    b := seq(c, i requires 0 <= i < c => ob[i].id);
    SwapKeepsOrder(oa, ob, conns, snapshots, c);
    BadBeforeTie(ob, conns, snapshots, c);
    BadBeforeTie(oa, conns, snapshots, c);
    ClosedIsPrefix(ob, b);
    assert Elems(b) == BadPeers(conns, snapshots) + Ids(ob[..c]);
    InPrefix(ob, c, c - 1);
    assert oa[c].id in Elems(b);
    assert oa[c].id !in Ids(oa[..c]);
  }

  lemma SwapKeepsOrder(oa: seq<Pair>, ob: seq<Pair>, conns: seq<PeerId>, snapshots: map<PeerId, real>, c: nat)
    requires IsScoreOrder(oa, conns, snapshots) && BoundaryTie(oa, c)
    requires ob == oa[c - 1 := oa[c]][c := oa[c - 1]]
    ensures IsScoreOrder(ob, conns, snapshots)
  {
    forall p ensures p in ob <==> p in oa {
      if p in oa {
        var i :| 0 <= i < |oa| && oa[i] == p;
        assert ob[if i == c then c - 1 else if i == c - 1 then c else i] == p;
      }
    }
  }

  lemma BadBeforeTie(order: seq<Pair>, conns: seq<PeerId>, snapshots: map<PeerId, real>, c: nat)
    requires IsScoreOrder(order, conns, snapshots) && BoundaryTie(order, c)
    ensures BadPeers(conns, snapshots) <= Ids(order[..c])
  {
    forall id | id in BadPeers(conns, snapshots) ensures id in Ids(order[..c]) {
      var p := Pair(id, ScoreOf(snapshots, id));
      assert p in order;
      var i :| 0 <= i < |order| && order[i] == p;
      InPrefix(order, c, i);
    }
  }

  /**
   * Under one snapshot, what a pruning closes does not depend on map iteration or on the sort if and
   * only if no good peer inside the excess ties with one outside it.
   */
  lemma PruningIsDeterminedIff(a: seq<PeerId>, oa: seq<Pair>, conns: seq<PeerId>,
                               snapshots: map<PeerId, real>, target: int)
    requires IsPruning(a, oa, conns, snapshots, target)
    ensures (forall b, ob :: IsPruning(b, ob, conns, snapshots, target) ==> Elems(b) == Elems(a)) <==>
      !BoundaryTie(oa, Clamp(|Elems(conns)| - target, |oa|))
  {
    var c := Clamp(|Elems(conns)| - target, |oa|);
    if BoundaryTie(oa, c) {
      var b, ob := TieChangesPruning(a, oa, conns, snapshots, target);
    } else {
      forall b, ob | IsPruning(b, ob, conns, snapshots, target) ensures Elems(b) == Elems(a) {
        OrderCountsPeers(oa, conns, snapshots);
        OrderCountsPeers(ob, conns, snapshots);
        SameExcess(oa, ob, conns, snapshots, c);
      }
    }
  }
}
