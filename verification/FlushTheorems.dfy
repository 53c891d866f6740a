/** Theorems over every run of the flush protocol: counters, coupling and progress. */
module FlushTheorems {
  import opened Ints
  import opened StoreSpec
  import opened FlushSpec
  import Hex

  // ---------------------------------------------------------------- counting events

  predicate IsArrivalOf(e: Event, id: string) {
    e.Arrive? && Hex.Encode(e.raw) == id
  }

  predicate IsPopOf(e: Event, id: string) {
    e.PopOne? && e.rec.msgId == id
  }

  /** How often the message-id callback ran for this id. */
  function Arrivals(es: seq<Event>, id: string): nat {
    if es == [] then 0 else Arrivals(es[..|es| - 1], id) + One(IsArrivalOf(es[|es| - 1], id))
  }

  /** How often it ran since the id's counter was last popped. */
  function Pending(es: seq<Event>, id: string): nat {
    if es == [] then 0
    else
      var e := es[|es| - 1];
      if IsPopOf(e, id) then 0 else Pending(es[..|es| - 1], id) + One(IsArrivalOf(e, id))
  }

  /** Sum of what `Pop` returned for this id. */
  function PoppedSum(ledger: seq<Pop>, id: string): nat {
    if ledger == [] then 0
    else
      var p := ledger[|ledger| - 1];
      PoppedSum(ledger[..|ledger| - 1], id) + if p.rec.msgId == id then p.value else 0
  }

  /** Sum of the SeenCounts written for this id. */
  function AssignedSum(ledger: seq<Pop>, id: string): nat {
    if ledger == [] then 0
    else
      var p := ledger[|ledger| - 1];
      AssignedSum(ledger[..|ledger| - 1], id)
      + if p.rec.msgId != id then 0 else if p.hit then p.value else 1
  }

  function Misses(ledger: seq<Pop>, id: string): nat {
    if ledger == [] then 0
    else
      var p := ledger[|ledger| - 1];
      Misses(ledger[..|ledger| - 1], id) + One(p.rec.msgId == id && !p.hit)
  }

  // ---------------------------------------------------------------- counter ledger

  /** The live counter is exactly the arrivals since the last pop, modulo 2^32, and exists iff there were any. */
  lemma {:induction false} CounterIsPending(es: seq<Event>, id: string)
    requires IsRun(es)
    ensures id in After(es).counts <==> Pending(es, id) > 0
    ensures CountOf(After(es).counts, id) == Pending(es, id) % TWO32
  {
    if es != [] {
      CounterIsPending(es[..|es| - 1], id);
      CounterStep(After(es[..|es| - 1]), es[|es| - 1], id, Pending(es[..|es| - 1], id));
    }
  }

  lemma CounterStep(s: State, e: Event, id: string, n: nat)
    requires Enabled(s, e)
    requires id in s.counts <==> n > 0
    requires CountOf(s.counts, id) == n % TWO32
    ensures var m := if IsPopOf(e, id) then 0 else n + One(IsArrivalOf(e, id));
            (id in Next(s, e).counts <==> m > 0) && CountOf(Next(s, e).counts, id) == m % TWO32
  {
    match e
    case Arrive(raw) =>
    case PopOne(rec) =>
    case _ => assert Next(s, e).counts == s.counts;
  }

  /** Nothing counted is lost: increments are the popped values plus the live count plus whole wrap-arounds. */
  lemma {:induction false} LedgerBalances(es: seq<Event>, id: string) returns (wraps: nat)
    requires IsRun(es)
    ensures Arrivals(es, id) == PoppedSum(After(es).ledger, id) + CountOf(After(es).counts, id) + TWO32 * wraps
  {
    if es == [] {
      wraps := 0;
    } else {
      var n := |es| - 1;
      var before := LedgerBalances(es[..n], id);
      var wrapped := LedgerStep(After(es[..n]), es[n], id);
      wraps := before + wrapped;
    }
  }

  lemma LedgerStep(s: State, e: Event, id: string) returns (wrapped: nat)
    requires Enabled(s, e)
    ensures PoppedSum(Next(s, e).ledger, id) + CountOf(Next(s, e).counts, id) + TWO32 * wrapped
         == PoppedSum(s.ledger, id) + CountOf(s.counts, id) + One(IsArrivalOf(e, id))
  {
    wrapped := One(IsArrivalOf(e, id) && CountOf(s.counts, id) == TWO32 - 1);
    if e.PopOne? {
      assert Next(s, e).ledger[..|s.ledger|] == s.ledger;
    }
  }

  /** Below 2^32 arrivals, the SeenCounts written are the increments consumed plus one per missed pop. */
  lemma AssignedIsConsumedPlusMisses(es: seq<Event>, id: string)
    requires IsRun(es) && Arrivals(es, id) < TWO32
    ensures AssignedSum(After(es).ledger, id) + CountOf(After(es).counts, id)
         == Arrivals(es, id) + Misses(After(es).ledger, id)
  {
    var wraps := LedgerBalances(es, id);
    AssignedIsPoppedPlusMisses(es, id);
    assert wraps == 0;
  }

  lemma {:induction false} AssignedIsPoppedPlusMisses(es: seq<Event>, id: string)
    requires IsRun(es)
    ensures AssignedSum(After(es).ledger, id) == PoppedSum(After(es).ledger, id) + Misses(After(es).ledger, id)
  {
    if es != [] {
      var front := es[..|es| - 1];
      AssignedIsPoppedPlusMisses(front, id);
      if es[|es| - 1].PopOne? {
        assert After(es).ledger[..|After(front).ledger|] == After(front).ledger;
      }
    }
  }

  // ---------------------------------------------------------------- what a record's SeenCount means

  /** In any run, a SeenCount is the arrivals between the two last pops of the id, or 1 if there were none. */
  lemma {:induction false} SeenCountAtPop(es: seq<Event>, rec: Record, seen: u32) returns (k: nat)
    requires IsRun(es) && rec in After(es).seen && After(es).seen[rec] == seen
    ensures k < |es| && es[k] == PopOne(rec)
    ensures var n := Pending(es[..k], rec.msgId); seen == if n == 0 then 1 else n % TWO32
  {
    var front := es[..|es| - 1];
    SeenStep(After(front), es[|es| - 1]);
    if rec in After(front).seen && After(front).seen[rec] == seen {
      k := SeenCountAtPop(front, rec, seen);
      assert front[..k] == es[..k];
    } else {
      k := |es| - 1;
      CounterIsPending(front, rec.msgId);
    }
  }

  lemma SeenStep(s: State, e: Event)
    requires Enabled(s, e)
    ensures Next(s, e).seen ==
      if e.PopOne? then s.seen[e.rec := SeenCount(s.counts, e.rec.msgId)] else s.seen
  {
  }

  lemma {:induction false} PoppedIsSeen(es: seq<Event>, k: nat)
    requires IsRun(es) && k < |es| && es[k].PopOne?
    ensures es[k].rec in After(es).seen
  {
    var n := |es| - 1;
    SeenStep(After(es[..n]), es[n]);
    if k < n {
      PoppedIsSeen(es[..n], k);
    }
  }

  /** By conservation, an accepted record that was popped is neither cached nor waiting for its pop. */
  lemma PoppedIsGone(es: seq<Event>, k: nat)
    requires IsRun(es) && k < |es| && es[k].PopOne?
    ensures es[k].rec in After(es).accepted
    ensures !InCache(After(es), es[k].rec) && es[k].rec !in After(es).unpopped
  {
    PoppedIsSeen(es, k);
    RunKeepsInv(es);
    Conservation(es, es[k].rec);
  }

  lemma {:induction false} WithoutPopsAllPend(es: seq<Event>, id: string)
    requires forall k :: 0 <= k < |es| ==> !IsPopOf(es[k], id)
    ensures Pending(es, id) == Arrivals(es, id)
  {
    if es != [] {
      WithoutPopsAllPend(es[..|es| - 1], id);
    }
  }

  // ---------------------------------------------------------------- what is accepted, and when events can happen

  /** Every accepted record carries the slot, arrival time and hexadecimal id of a message that was processed. */
  lemma {:induction false} AcceptedWasProcessed(es: seq<Event>, rec: Record) returns (k: nat, raw: seq<u8>)
    requires IsRun(es) && rec in After(es).accepted
    ensures k < |es| && es[k] == Process(raw, rec.slot, rec.arrival) && Hex.Encode(raw) == rec.msgId
  {
    var n := |es| - 1;
    var front := es[..n];
    if rec in After(front).accepted {
      k, raw := AcceptedWasProcessed(front, rec);
    } else {
      k, raw := n, es[n].raw;
    }
  }

  /** rec is the record of this message, newly accepted and filed between s and t. */
  predicate NewlyFiled(s: State, t: State, rec: Record, slot: u64, id: string, arrival: int) {
    && rec.slot == slot && rec.msgId == id && rec.arrival == arrival
    && rec !in s.accepted && t.accepted == s.accepted + {rec} && InCache(t, rec)
  }

  /**
   * Conversely, once a message was processed its slot holds its id; the message was accepted exactly if the
   * slot did not hold the id before; and no other entry of the cache changed.
   */
  lemma ProcessedIsFiled(es: seq<Event>, k: nat, raw: seq<u8>, slot: u64, arrival: int)
    requires IsRun(es) && k < |es| && es[k] == Process(raw, slot, arrival)
    ensures IsRun(es[..k]) && IsRun(es[..k + 1])
    ensures var s, t, id := After(es[..k]), After(es[..k + 1]), Hex.Encode(raw);
            && Holds(t.cache, slot, id)
            && (Holds(s.cache, slot, id) ==> t.accepted == s.accepted && t.cache == s.cache)
            && (!Holds(s.cache, slot, id) ==> exists rec :: NewlyFiled(s, t, rec, slot, id, arrival))
            && (forall rec: Record :: rec.slot != slot || rec.msgId != id ==> (InCache(t, rec) <==> InCache(s, rec)))
  {
    StepAt(es, k);
    var s := After(es[..k]);
    assert Shape(s) by { RunKeepsInv(es[..k]); }
    var rec := Record(s.next, slot, Hex.Encode(raw), arrival);
    if !Holds(s.cache, slot, rec.msgId) {
      assert NewlyFiled(s, After(es[..k + 1]), rec, slot, rec.msgId, arrival);
    }
    forall r: Record | r.slot != slot || r.msgId != rec.msgId
      ensures InCache(After(es[..k + 1]), r) <==> InCache(s, r)
    {
      if !Holds(s.cache, slot, rec.msgId) {
        AddToFiles(s.cache, rec, r);
      }
    }
  }

  /**
   * No event waits for another goroutine: messages arrive and are processed at any time, a pass can begin
   * whenever none runs, and a running pass always has a next step, with either outcome of a save possible.
   */
  lemma NothingBlocks(s: State, raw: seq<u8>, slot: u64, arrival: int, current: u64, ok: bool)
    ensures Enabled(s, Arrive(raw)) && Enabled(s, Process(raw, slot, arrival))
    ensures !s.busy ==> Enabled(s, Begin(current))
    ensures s.busy && s.unpopped != {} ==> exists rec :: rec in s.unpopped && Enabled(s, PopOne(rec))
    ensures s.busy && s.unpopped == {} && s.popped != {} ==> Enabled(s, Store(ok))
    ensures BetweenSlots(s) && s.todo != {} ==> forall next :: next in s.todo ==> Enabled(s, Take(next))
    ensures BetweenSlots(s) && s.todo == {} ==> Enabled(s, End)
  {
    if s.unpopped != {} {
      var rec :| rec in s.unpopped;
    }
  }

  // ---------------------------------------------------------------- coupling of the two stores

  /** Every message is counted before it is processed. */
  ghost predicate CountedFirst(es: seq<Event>) {
    forall k :: 0 <= k < |es| && es[k].Process? ==> Arrivals(es[..k], Hex.Encode(es[k].raw)) > 0
  }

  /** No message id was accepted into the cache twice. */
  ghost predicate AcceptedOnce(s: State) {
    forall a, b :: a in s.accepted && b in s.accepted && a.msgId == b.msgId ==> a == b
  }

  ghost predicate Disciplined(es: seq<Event>)
    requires IsRun(es)
  {
    CountedFirst(es) && AcceptedOnce(After(es))
  }

  lemma {:induction false} ArrivalsGrow(es: seq<Event>, k: nat, id: string)
    requires k <= |es|
    ensures Arrivals(es[..k], id) <= Arrivals(es, id)
  {
    if k < |es| {
      ArrivalsGrow(es[..|es| - 1], k, id);
      assert es[..|es| - 1][..k] == es[..k];
    } else {
      assert es[..k] == es;
    }
  }

  lemma {:induction false} AcceptedGrows(es: seq<Event>, k: nat)
    requires IsRun(es) && k <= |es|
    ensures IsRun(es[..k]) && After(es[..k]).accepted <= After(es).accepted
  {
    PrefixIsRun(es, k);
    if k < |es| {
      AcceptedGrows(es[..|es| - 1], k);
      assert es[..|es| - 1][..k] == es[..k];
      AcceptedStep(After(es[..|es| - 1]), es[|es| - 1]);
    } else {
      assert es[..k] == es;
    }
  }

  lemma AcceptedStep(s: State, e: Event)
    requires Enabled(s, e)
    ensures s.accepted <= Next(s, e).accepted
  {
  }

  lemma PrefixDisciplined(es: seq<Event>, k: nat)
    requires IsRun(es) && Disciplined(es) && k <= |es|
    ensures IsRun(es[..k]) && Disciplined(es[..k])
  {
    AcceptedGrows(es, k);
    forall i | 0 <= i < k && es[..k][i].Process?
      ensures Arrivals(es[..k][..i], Hex.Encode(es[..k][i].raw)) > 0
    {
      assert es[..k][..i] == es[..i];
    }
  }

  lemma {:induction false} AcceptedWasCounted(es: seq<Event>, rec: Record)
    requires IsRun(es) && CountedFirst(es) && rec in After(es).accepted
    ensures Arrivals(es, rec.msgId) > 0
  {
    var n := |es| - 1;
    var front := es[..n];
    assert forall i :: 0 <= i < n ==> front[..i] == es[..i];
    if rec in After(front).accepted {
      AcceptedWasCounted(front, rec);
    } else {
      assert es[n].Process? && Hex.Encode(es[n].raw) == rec.msgId;
    }
    ArrivalsGrow(es, n, rec.msgId);
  }

  /**
   * Coupling invariant of the two independently locked stores: a record that is cached or
   * drained but not yet popped has a live counter, which holds every arrival of its id.
   */
  lemma Coupling(es: seq<Event>, rec: Record)
    requires IsRun(es) && Disciplined(es)
    requires InCache(After(es), rec) || rec in After(es).unpopped
    ensures rec.msgId in After(es).counts
    ensures CountOf(After(es).counts, rec.msgId) == Arrivals(es, rec.msgId) % TWO32
  {
    Conservation(es, rec);
    forall k | 0 <= k < |es| ensures !IsPopOf(es[k], rec.msgId) {
      if es[k].PopOne? {
        PoppedIsGone(es, k);
      }
    }
    WithoutPopsAllPend(es, rec.msgId);
    CounterIsPending(es, rec.msgId);
    AcceptedWasCounted(es, rec);
  }

  /** Hence the SeenCount = 1 fallback is never taken. */
  lemma {:induction false} FallbackUnreachable(es: seq<Event>)
    requires IsRun(es) && Disciplined(es)
    ensures forall p :: p in After(es).ledger ==> p.hit
  {
    if es != [] {
      var n := |es| - 1;
      PrefixDisciplined(es, n);
      FallbackUnreachable(es[..n]);
      if es[n].PopOne? {
        Coupling(es[..n], es[n].rec);
      }
    }
  }

  /** And the SeenCount is exactly the arrivals up to the pop, at least 1 below 2^32 of them. */
  lemma SeenCountIsArrivals(es: seq<Event>, rec: Record, seen: u32) returns (k: nat)
    requires IsRun(es) && Disciplined(es) && rec in After(es).seen && After(es).seen[rec] == seen
    ensures k < |es| && es[k] == PopOne(rec)
    ensures seen == Arrivals(es[..k], rec.msgId) % TWO32
    ensures Arrivals(es[..k], rec.msgId) < TWO32 ==> seen == Arrivals(es[..k], rec.msgId) >= 1
  {
    k := SeenCountAtPop(es, rec, seen);
    PrefixDisciplined(es, k);
    StepAt(es, k);
    Coupling(es[..k], rec);
    CounterIsPending(es[..k], rec.msgId);
    Conservation(es[..k], rec);
    AcceptedWasCounted(es[..k], rec);
  }

  /** The arrivals of the record's id up to its latest pop. */
  function ArrivalsAtPop(es: seq<Event>, rec: Record): nat {
    if es == [] then 0
    else
      var front := es[..|es| - 1];
      if es[|es| - 1] == PopOne(rec) then Arrivals(front, rec.msgId) else ArrivalsAtPop(front, rec)
  }

  /** The same as a function of the run. */
  lemma {:induction false} SeenIsArrivalsAtPop(es: seq<Event>, rec: Record)
    requires IsRun(es) && Disciplined(es) && rec in After(es).seen
    ensures After(es).seen[rec] == ArrivalsAtPop(es, rec) % TWO32
  {
    var n := |es| - 1;
    var front := es[..n];
    PrefixDisciplined(es, n);
    SeenStep(After(front), es[n]);
    if es[n] == PopOne(rec) {
      Coupling(front, rec);
    } else {
      SeenIsArrivalsAtPop(front, rec);
    }
  }

  lemma {:induction false} LateArrivalsPend(es: seq<Event>, k: nat)
    requires IsRun(es) && Disciplined(es) && k < |es| && es[k].PopOne?
    ensures Pending(es, es[k].rec.msgId) == Arrivals(es, es[k].rec.msgId) - Arrivals(es[..k], es[k].rec.msgId)
  {
    var n, id := |es| - 1, es[k].rec.msgId;
    var front := es[..n];
    if k < n {
      PrefixDisciplined(es, n);
      assert front[..k] == es[..k];
      LateArrivalsPend(front, k);
      if es[n].PopOne? {
        PoppedIsGone(front, k);
        Conservation(front, es[n].rec);
      }
    }
  }

  /**
   * A leak: after an id's record was popped, the id has a live counter exactly if it arrived again, and
   * the counter then holds all those arrivals at every later point of the run, since no pop removes it.
   */
  lemma LateArrivalsStayForever(es: seq<Event>, k: nat)
    requires IsRun(es) && Disciplined(es) && k < |es| && es[k].PopOne?
    ensures var id := es[k].rec.msgId;
            var late := Arrivals(es, id) - Arrivals(es[..k], id);
            && (id in After(es).counts <==> late > 0)
            && CountOf(After(es).counts, id) == late % TWO32
  {
    LateArrivalsPend(es, k);
    CounterIsPending(es, es[k].rec.msgId);
  }

  /**
   * The wider leak, in any run: the callback counts every topic, so an id that is never accepted into
   * the cache, such as that of an exit or a slashing, keeps a counter of all its arrivals.
   */
  lemma UnacceptedStayForever(es: seq<Event>, id: string)
    requires IsRun(es) && forall rec :: rec in After(es).accepted ==> rec.msgId != id
    ensures id in After(es).counts <==> Arrivals(es, id) > 0
    ensures CountOf(After(es).counts, id) == Arrivals(es, id) % TWO32
  {
    forall k | 0 <= k < |es| ensures !IsPopOf(es[k], id) {
      if es[k].PopOne? {
        PoppedIsGone(es, k);
      }
    }
    WithoutPopsAllPend(es, id);
    CounterIsPending(es, id);
  }

  /** One message that arrives, is processed into slot 0 and flushed. */
  lemma OneMessage(raw: seq<u8>, arrival: int) returns (es: seq<Event>, rec: Record)
    ensures rec == Record(0, 0, Hex.Encode(raw), arrival)
    ensures es == [Arrive(raw), Process(raw, 0, arrival), Begin(2), Take(0), PopOne(rec), Store(true), End]
    ensures IsRun(es) && !After(es).busy && After(es).cache == map[]
    ensures After(es).unpopped == {} && After(es).popped == {}
    ensures After(es).next == 1 && After(es).accepted == After(es).saved == {rec} && rec in After(es).seen
    ensures After(es).counts == map[]
  {
    var id := Hex.Encode(raw);
    rec := Record(0, 0, id, arrival);
    assert IsRun([]) && After([]) == INIT;
    Extend([], Arrive(raw));
    var a := [] + [Arrive(raw)];
    assert After(a) == INIT.(counts := map[id := 1]);
    Extend(a, Process(raw, 0, arrival));
    var b := a + [Process(raw, 0, arrival)];
    assert After(b).cache == map[0 := map[id := rec]] && After(b).accepted == {rec};
    es := OnePass(b, rec);
    assert map[id := 1 as u32] - {id} == map[];
  }

  lemma CountedFromTheStart(es: seq<Event>, raw: seq<u8>)
    requires es != [] && es[0] == Arrive(raw)
    requires forall k :: 0 <= k < |es| && es[k].Process? ==> es[k].raw == raw
    ensures CountedFirst(es)
  {
    var id := Hex.Encode(raw);
    forall k | 0 <= k < |es| && es[k].Process? ensures Arrivals(es[..k], id) > 0 {
      ArrivalsGrow(es[..k], 1, id);
      assert es[..k][..1] == [Arrive(raw)];
      assert Arrivals([Arrive(raw)], id) == 1;
    }
  }

  /** Without the discipline the fallback is reachable: one id accepted again after its flush. */
  lemma FallbackWithoutDiscipline(raw: seq<u8>) returns (es: seq<Event>)
    ensures IsRun(es) && CountedFirst(es)
    ensures exists p :: p in After(es).ledger && !p.hit
  {
    var id := Hex.Encode(raw);
    var a, first := OneMessage(raw, 0);
    Extend(a, Process(raw, 0, 0));
    var b, second := a + [Process(raw, 0, 0)], Record(1, 0, id, 0);
    assert After(b).cache == map[0 := map[id := second]];
    es := OnePass(b, second);
    var p := After(es).ledger[|After(es).ledger| - 1];
    assert !p.hit;
    CountedFromTheStart(es, raw);
  }

  lemma Extend(es: seq<Event>, e: Event)
    requires IsRun(es) && Enabled(After(es), e)
    ensures IsRun(es + [e]) && After(es + [e]) == Next(After(es), e)
  {
    assert (es + [e])[..|es|] == es;
  }

  /** A flush pass over a cache that holds one record of slot 0. */
  lemma OnePass(es: seq<Event>, rec: Record) returns (fs: seq<Event>)
    requires IsRun(es) && !After(es).busy && rec.slot == 0
    requires After(es).cache == map[0 := map[rec.msgId := rec]]
    requires After(es).unpopped == {} && After(es).popped == {}
    ensures fs == es + [Begin(2), Take(0), PopOne(rec), Store(true), End] && IsRun(fs)
    ensures !After(fs).busy && After(fs).cache == map[] && After(fs).unpopped == {} && After(fs).popped == {}
    ensures After(fs).next == After(es).next && After(fs).accepted == After(es).accepted
    ensures After(fs).saved == After(es).saved + {rec} && rec in After(fs).seen
    ensures After(fs).counts == After(es).counts - {rec.msgId}
    ensures After(fs).ledger == After(es).ledger
      + [Pop(rec, CountOf(After(es).counts, rec.msgId), rec.msgId in After(es).counts)]
  {
    var f1 := es + [Begin(2)];
    Extend(es, Begin(2));
    assert After(f1).todo == {0};
    Extend(f1, Take(0));
    var f2 := f1 + [Take(0)];
    OnlyOne(rec);
    assert After(f2).unpopped == {rec} && After(f2).todo == {} && After(f2).cache == map[];
    Extend(f2, PopOne(rec));
    var f3 := f2 + [PopOne(rec)];
    assert After(f3).unpopped == {} && After(f3).popped == {rec};
    Extend(f3, Store(true));
    Extend(f3 + [Store(true)], End);
    fs := f3 + [Store(true)] + [End];
  }

  lemma OnlyOne(rec: Record)
    ensures map[rec.msgId := rec].Values == {rec}
  {
    assert map[rec.msgId := rec][rec.msgId] == rec;
  }

  // ---------------------------------------------------------------- progress of a pass

  /** The record is on its way out of the cache, or out already. */
  predicate Leaving(s: State, rec: Record) {
    (InCache(s, rec) && rec.slot in s.todo) || rec in s.unpopped || rec in s.seen
  }

  lemma ProcessKeepsFiled(s: State, e: Event, rec: Record)
    requires e.Process? && InCache(s, rec)
    ensures InCache(Next(s, e), rec)
  {
    var added := Record(s.next, e.slot, Hex.Encode(e.raw), e.arrival);
    if !Holds(s.cache, added.slot, added.msgId) {
      AddToFiles(s.cache, added, rec);
    }
  }

  lemma StepKeepsLeaving(s: State, e: Event, rec: Record)
    requires Shape(s) && Enabled(s, e) && Leaving(s, rec)
    ensures Leaving(Next(s, e), rec)
  {
    SeenStep(s, e);
    match e
    case Process(_, _, _) => if InCache(s, rec) { ProcessKeepsFiled(s, e, rec); }
    case Take(slot) =>
      if InCache(s, rec) && rec.slot == slot {
        assert s.cache[slot][rec.msgId] in s.cache[slot].Values;
      }
    case _ =>
  }

  lemma FailureStep(s: State, e: Event, rec: Record)
    requires Enabled(s, e) && rec in Next(s, e).failed
    ensures rec in s.failed || e == Store(false)
  {
  }

  lemma LeavingAt(es: seq<Event>, k: nat, rec: Record)
    requires IsRun(es) && k < |es|
    requires IsRun(es[..k]) && Leaving(After(es[..k]), rec)
    ensures IsRun(es[..k + 1]) && Leaving(After(es[..k + 1]), rec)
  {
    StepAt(es, k);
    assert Shape(After(es[..k])) by { RunKeepsInv(es[..k]); }
    StepKeepsLeaving(After(es[..k]), es[k], rec);
  }

  lemma {:induction false} LeavingUntil(es: seq<Event>, i: nat, j: nat, rec: Record)
    requires IsRun(es) && i <= j <= |es|
    requires IsRun(es[..i]) && Leaving(After(es[..i]), rec)
    ensures IsRun(es[..j]) && Leaving(After(es[..j]), rec)
    decreases j
  {
    if i < j {
      LeavingUntil(es, i, j - 1, rec);
      LeavingAt(es, j - 1, rec);
    }
  }

  lemma {:induction false} UnfailedUntil(es: seq<Event>, i: nat, j: nat, rec: Record)
    requires IsRun(es) && i <= j <= |es|
    requires IsRun(es[..i]) && rec !in After(es[..i]).failed
    requires forall k :: i <= k < j ==> es[k] != Store(false)
    ensures IsRun(es[..j]) && rec !in After(es[..j]).failed
    decreases j
  {
    if i < j {
      UnfailedUntil(es, i, j - 1, rec);
      StepAt(es, j - 1);
      var s := After(es[..j - 1]);
      if rec in Next(s, es[j - 1]).failed {
        FailureStep(s, es[j - 1], rec);
      }
    }
  }

  /**
   * Flush progress: a record in the cache when a pass takes its snapshot, in a slot below
   * the threshold, has left the cache by the time the flusher is idle again; it is saved
   * unless some save of the pass failed. Records of slots at or above it are untouched by `Begin`.
   */
  lemma PassFlushesCompleted(es: seq<Event>, i: nat, j: nat, rec: Record)
    requires IsRun(es) && i < j <= |es| && es[i].Begin?
    requires IsRun(es[..i]) && InCache(After(es[..i]), rec) && Completed(rec.slot, es[i].currentSlot)
    requires IsRun(es[..j]) && !After(es[..j]).busy
    ensures rec in After(es[..j]).saved || rec in After(es[..j]).failed
    ensures (forall k :: i <= k < j ==> es[k] != Store(false)) ==> rec in After(es[..j]).saved
  {
    StepAt(es, i);
    LeavingUntil(es, i + 1, j, rec);
    RunKeepsInv(es[..j]);
    if forall k :: i <= k < j ==> es[k] != Store(false) {
      Conservation(es[..i], rec);
      UnfailedUntil(es, i, j, rec);
    }
  }

  /** Whatever is to be drained, in flight, saved or failed has a slot for which `ok` holds. */
  ghost predicate FlushedOnly(s: State, ok: u64 -> bool) {
    && (forall slot :: slot in s.todo ==> ok(slot))
    && (forall rec :: rec in s.unpopped || rec in s.popped || rec in s.saved || rec in s.failed ==> ok(rec.slot))
  }

  lemma StepKeepsFlushedOnly(s: State, e: Event, ok: u64 -> bool)
    requires Enabled(s, e) && WellFiled(s.cache) && FlushedOnly(s, ok)
    requires e.Begin? ==> forall slot :: Completed(slot, e.currentSlot) ==> ok(slot)
    ensures FlushedOnly(Next(s, e), ok)
  {
  }

  lemma {:induction false} FlushedSatisfies(es: seq<Event>, ok: u64 -> bool)
    requires IsRun(es)
    requires forall k, slot :: 0 <= k < |es| && es[k].Begin? && Completed(slot, es[k].currentSlot) ==> ok(slot)
    ensures FlushedOnly(After(es), ok)
  {
    if es != [] {
      var past := es[..|es| - 1];
      FlushedSatisfies(past, ok);
      RunKeepsInv(past);
      StepKeepsFlushedOnly(After(past), es[|es| - 1], ok);
    }
  }

  /** The converse of progress: a record leaves the cache only if some snapshot found its slot completed. */
  lemma FlushedWasCompleted(es: seq<Event>, rec: Record) returns (k: nat)
    requires IsRun(es)
    requires var s := After(es); rec in s.unpopped || rec in s.popped || rec in s.saved || rec in s.failed
    ensures k < |es| && es[k].Begin? && Completed(rec.slot, es[k].currentSlot)
  {
    var was := (slot: u64) => exists k :: 0 <= k < |es| && es[k].Begin? && Completed(slot, es[k].currentSlot);
    FlushedSatisfies(es, was);
    k :| k < |es| && es[k].Begin? && Completed(rec.slot, es[k].currentSlot);
  }

  lemma StepKeepsOthers(s: State, e: Event, rec: Record)
    requires Enabled(s, e) && !e.Begin? && InCache(s, rec) && rec.slot !in s.todo
    ensures InCache(Next(s, e), rec) && rec.slot !in Next(s, e).todo
  {
    match e
    case Arrive(_) =>
    case Process(_, _, _) => ProcessKeepsFiled(s, e, rec);
    case Take(_) =>
    case PopOne(_) =>
    case Store(_) =>
    case End =>
  }

  /** Only snapshot slots are drained: a record at or above the threshold is still cached when the pass ends. */
  lemma {:induction false} PassKeepsOthers(es: seq<Event>, i: nat, j: nat, rec: Record)
    requires IsRun(es) && i < j <= |es| && es[i].Begin?
    requires forall k :: i < k < j ==> !es[k].Begin?
    requires IsRun(es[..i]) && InCache(After(es[..i]), rec) && !Completed(rec.slot, es[i].currentSlot)
    ensures IsRun(es[..j]) && InCache(After(es[..j]), rec) && rec.slot !in After(es[..j]).todo
    decreases j
  {
    if i + 1 < j {
      PassKeepsOthers(es, i, j - 1, rec);
      OthersAt(es, j - 1, rec);
    } else {
      StepAt(es, i);
    }
  }

  lemma OthersAt(es: seq<Event>, k: nat, rec: Record)
    requires IsRun(es) && k < |es| && !es[k].Begin?
    requires IsRun(es[..k]) && InCache(After(es[..k]), rec) && rec.slot !in After(es[..k]).todo
    ensures IsRun(es[..k + 1]) && InCache(After(es[..k + 1]), rec) && rec.slot !in After(es[..k + 1]).todo
  {
    StepAt(es, k);
    StepKeepsOthers(After(es[..k]), es[k], rec);
  }
}
