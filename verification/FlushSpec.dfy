/**
 * The cache / counter / flush protocol with a drain that is one step.
 *
 * Three kinds of goroutine interleave: the message-id callback (`Arrive`), the topic
 * subscriptions (`Process`) and the flusher (all other events). One event is one
 * critical section of a store, or one step of the flusher between two of them.
 * `FlushMachine` shows that the code, whose drain copies records out after releasing
 * the lock, refines this machine.
 */
module FlushSpec {
  import opened Ints
  import opened StoreSpec
  import Hex

  /** One allocated record. `uid` stands for its address; `arrival` is in nanoseconds. */
  datatype Record = Record(uid: nat, slot: u64, msgId: string, arrival: int)

  /** What one call of the counter's `Pop` returned, and for which record. */
  datatype Pop = Pop(rec: Record, value: u32, hit: bool)

  datatype State = State(
    cache: Caches<Record>,
    counts: Counts,
    busy: bool,                   // a flush pass is running
    todo: set<u64>,               // snapshot slots not drained yet
    slot: u64,                    // the slot the pass drained last
    unpopped: set<Record>,        // drained, counter not popped yet
    popped: set<Record>,          // drained, counter popped
    saved: set<Record>,
    failed: set<Record>,
    seen: map<Record, u32>,       // the SeenCount field of each popped record
    next: nat,                    // next unused record address
    accepted: set<Record>,        // history: records whose Add returned true
    ledger: seq<Pop>)             // history: every Pop in order

  datatype Event =
    | Arrive(raw: seq<u8>)
    | Process(raw: seq<u8>, slot: u64, arrival: int)
    | Begin(currentSlot: u64)
    | Take(slot: u64)
    | PopOne(rec: Record)
    | Store(ok: bool)
    | End

  const INIT := State(map[], map[], false, {}, 0, {}, {}, {}, {}, map[], 0, {}, [])

  predicate BetweenSlots(s: State) {
    s.busy && s.unpopped == {} && s.popped == {}
  }

  predicate Enabled(s: State, e: Event) {
    match e
    case Arrive(_) => true
    case Process(_, _, _) => true
    case Begin(_) => !s.busy
    case Take(slot) => BetweenSlots(s) && slot in s.todo
    case PopOne(rec) => s.busy && rec in s.unpopped
    case Store(_) => s.busy && s.unpopped == {} && s.popped != {}
    case End => BetweenSlots(s) && s.todo == {}
  }

  function Next(s: State, e: Event): State
    requires Enabled(s, e)
  {
    match e
    case Arrive(raw) => s.(counts := Bump(s.counts, Hex.Encode(raw)))
    case Process(raw, slot, arrival) => Accept(s, Record(s.next, slot, Hex.Encode(raw), arrival))
    case Begin(currentSlot) =>
      s.(busy := true, todo := set slot | slot in s.cache && Completed(slot, currentSlot))
    case Take(slot) =>
      if slot in s.cache
      then s.(slot := slot, todo := s.todo - {slot}, cache := s.cache - {slot}, unpopped := s.cache[slot].Values)
      else s.(todo := s.todo - {slot})
    case PopOne(rec) =>
      var id := rec.msgId;
      s.(counts := s.counts - {id},
         unpopped := s.unpopped - {rec},
         popped := s.popped + {rec},
         seen := s.seen[rec := SeenCount(s.counts, id)],
         ledger := s.ledger + [Pop(rec, CountOf(s.counts, id), id in s.counts)])
    case Store(ok) =>
      if ok then s.(saved := s.saved + s.popped, popped := {})
      else s.(failed := s.failed + s.popped, popped := {})
    case End => s.(busy := false)
  }

  /** `slotCache.Add` of a freshly allocated record. */
  function Accept(s: State, rec: Record): State {
    s.(next := s.next + 1,
       cache := AddTo(s.cache, rec.slot, rec.msgId, rec),
       accepted := if Holds(s.cache, rec.slot, rec.msgId) then s.accepted else s.accepted + {rec})
  }

  // ---------------------------------------------------------------- runs

  datatype Outcome = Stuck | Reached(state: State)

  function Exec(es: seq<Event>): Outcome {
    if es == [] then Reached(INIT)
    else
      match Exec(es[..|es| - 1])
      case Stuck => Stuck
      case Reached(s) => if Enabled(s, es[|es| - 1]) then Reached(Next(s, es[|es| - 1])) else Stuck
  }

  predicate IsRun(es: seq<Event>) {
    Exec(es).Reached?
  }

  function After(es: seq<Event>): State
    requires IsRun(es)
  {
    Exec(es).state
  }

  lemma {:induction false} PrefixIsRun(es: seq<Event>, k: nat)
    requires IsRun(es) && k <= |es|
    ensures IsRun(es[..k])
    decreases |es|
  {
    if k < |es| {
      PrefixIsRun(es[..|es| - 1], k);
      assert es[..|es| - 1][..k] == es[..k];
    } else {
      assert es[..k] == es;
    }
  }

  /** The state after k + 1 events is one step from the state after k. */
  lemma StepAt(es: seq<Event>, k: nat)
    requires IsRun(es) && k < |es|
    ensures IsRun(es[..k]) && IsRun(es[..k + 1])
    ensures Enabled(After(es[..k]), es[k])
    ensures After(es[..k + 1]) == Next(After(es[..k]), es[k])
  {
    PrefixIsRun(es, k);
    PrefixIsRun(es, k + 1);
    var p := es[..k + 1];
    assert p[..|p| - 1] == es[..k];
  }

  // ---------------------------------------------------------------- invariant

  predicate Filed(cache: Caches<Record>, rec: Record) {
    Holds(cache, rec.slot, rec.msgId) && cache[rec.slot][rec.msgId] == rec
  }

  predicate InCache(s: State, rec: Record) {
    Filed(s.cache, rec)
  }

  function One(b: bool): int {
    if b then 1 else 0
  }

  /** In how many of the five places a record is. */
  function Places(s: State, rec: Record): int {
    One(InCache(s, rec)) + One(rec in s.unpopped) + One(rec in s.popped)
    + One(rec in s.saved) + One(rec in s.failed)
  }

  /** Every cache is non-empty and its records carry the slot and id they are filed under. */
  ghost predicate WellFiled(cache: Caches<Record>) {
    && (forall slot :: slot in cache ==> cache[slot] != map[])
    && (forall slot, id :: slot in cache && id in cache[slot] ==>
          cache[slot][id].slot == slot && cache[slot][id].msgId == id)
  }

  /** The batch in flight belongs to the slot drained last. */
  ghost predicate OneSlotBatch(s: State) {
    forall rec :: rec in s.unpopped || rec in s.popped ==> rec.slot == s.slot
  }

  ghost predicate Conserved(s: State) {
    forall rec :: Places(s, rec) == One(rec in s.accepted)
  }

  ghost predicate Shape(s: State) {
    && WellFiled(s.cache)
    && s.todo <= s.cache.Keys
    && (!s.busy ==> s.todo == {} && s.unpopped == {} && s.popped == {})
    && (forall rec :: rec in s.accepted ==> rec.uid < s.next)
    && OneSlotBatch(s)
    && s.seen.Keys == s.popped + s.saved + s.failed
  }

  ghost predicate Inv(s: State) {
    Shape(s) && Conserved(s)
  }

  lemma AddToFiles(cache: Caches<Record>, rec: Record, r: Record)
    requires !Holds(cache, rec.slot, rec.msgId)
    ensures Filed(AddTo(cache, rec.slot, rec.msgId, rec), r) <==> r == rec || Filed(cache, r)
  {
  }

  lemma AddToWellFiled(cache: Caches<Record>, rec: Record)
    requires WellFiled(cache)
    ensures WellFiled(AddTo(cache, rec.slot, rec.msgId, rec))
    ensures cache.Keys <= AddTo(cache, rec.slot, rec.msgId, rec).Keys
  {
    var added := AddTo(cache, rec.slot, rec.msgId, rec);
    assert rec.msgId in added[rec.slot];
  }

  lemma AcceptMovesOne(s: State, rec: Record, r: Record)
    requires Places(s, rec) == 0 && rec !in s.accepted
    requires Places(s, r) == One(r in s.accepted)
    ensures Places(Accept(s, rec), r) == One(r in Accept(s, rec).accepted)
  {
    if !Holds(s.cache, rec.slot, rec.msgId) {
      AddToFiles(s.cache, rec, r);
    }
  }

  lemma AcceptKeepsShape(s: State, rec: Record)
    requires Shape(s) && rec.uid == s.next
    ensures Shape(Accept(s, rec))
  {
    AddToWellFiled(s.cache, rec);
  }

  lemma AcceptKeepsInv(s: State, rec: Record)
    requires Inv(s) && rec.uid == s.next
    ensures Inv(Accept(s, rec))
  {
    AcceptKeepsShape(s, rec);
    var t := Accept(s, rec);
    assert Places(s, rec) == One(rec in s.accepted);
    forall r ensures Places(t, r) == One(r in t.accepted) {
      assert Places(s, r) == One(r in s.accepted);
      AcceptMovesOne(s, rec, r);
    }
  }

  lemma TakenAreFiled(cache: Caches<Record>, slot: u64, r: Record)
    requires WellFiled(cache) && slot in cache
    ensures r in cache[slot].Values <==> r.slot == slot && Filed(cache, r)
  {
    if r.slot == slot && Filed(cache, r) {
      assert cache[slot][r.msgId] in cache[slot].Values;
    }
  }

  lemma TakeMovesOne(s: State, slot: u64, r: Record)
    requires Shape(s) && Enabled(s, Take(slot))
    requires Places(s, r) == One(r in s.accepted)
    ensures Places(Next(s, Take(slot)), r) == One(r in Next(s, Take(slot)).accepted)
  {
    TakenAreFiled(s.cache, slot, r);
    assert Filed(s.cache - {slot}, r) <==> r.slot != slot && Filed(s.cache, r);
  }

  lemma TakeKeepsShape(s: State, slot: u64)
    requires Shape(s) && Enabled(s, Take(slot))
    ensures Shape(Next(s, Take(slot)))
  {
    var t := Next(s, Take(slot));
    forall r | r in t.unpopped ensures r.slot == slot {
      TakenAreFiled(s.cache, slot, r);
    }
    assert t.popped == {};
  }

  lemma TakeKeepsInv(s: State, slot: u64)
    requires Inv(s) && Enabled(s, Take(slot))
    ensures Inv(Next(s, Take(slot)))
  {
    TakeKeepsShape(s, slot);
    forall r ensures Places(Next(s, Take(slot)), r) == One(r in Next(s, Take(slot)).accepted) {
      assert Places(s, r) == One(r in s.accepted);
      TakeMovesOne(s, slot, r);
    }
  }

  lemma PopAndStoreMoveOne(s: State, e: Event, r: Record)
    requires Enabled(s, e) && (e.PopOne? || e.Store?)
    requires Places(s, r) == One(r in s.accepted)
    ensures Places(Next(s, e), r) == One(r in Next(s, e).accepted)
  {
  }

  lemma PopAndStoreKeepInv(s: State, e: Event)
    requires Inv(s) && Enabled(s, e)
    requires e.PopOne? || e.Store?
    ensures Inv(Next(s, e))
  {
    forall r ensures Places(Next(s, e), r) == One(r in Next(s, e).accepted) {
      PopAndStoreMoveOne(s, e, r);
    }
    assert OneSlotBatch(Next(s, e)) by {
      assert OneSlotBatch(s);
    }
  }

  lemma StepKeepsInv(s: State, e: Event)
    requires Inv(s) && Enabled(s, e)
    ensures Inv(Next(s, e))
  {
    match e
    case Process(raw, slot, arrival) => AcceptKeepsInv(s, Record(s.next, slot, Hex.Encode(raw), arrival));
    case Take(slot) => TakeKeepsInv(s, slot);
    case PopOne(_) => PopAndStoreKeepInv(s, e);
    case Store(_) => PopAndStoreKeepInv(s, e);
    case _ =>
      forall r ensures Places(Next(s, e), r) == Places(s, r) {}
  }

  lemma {:induction false} RunKeepsInv(es: seq<Event>)
    requires IsRun(es)
    ensures Inv(After(es))
  {
    if es != [] {
      StepAt(es, |es| - 1);
      assert es[..|es|] == es;
      RunKeepsInv(es[..|es| - 1]);
      StepKeepsInv(After(es[..|es| - 1]), es[|es| - 1]);
    }
  }

  // ---------------------------------------------------------------- conservation

  /**
   * Whatever the interleaving, a record whose Add returned true is in exactly one of the
   * live cache, the in-flight batch (before or after its pop), the saved records or the
   * records of a failed save; and nothing else is in any of them.
   */
  lemma Conservation(es: seq<Event>, rec: Record)
    requires IsRun(es)
    ensures Places(After(es), rec) == One(rec in After(es).accepted)
  {
    RunKeepsInv(es);
  }
}
