/**
 * The flush protocol at the granularity of the code: caches are heap objects named by
 * references, `DrainSlot` only detaches a reference under the lock and copies the records
 * out one by one afterwards, and the flusher walks ordered slices. Every run refines a run
 * of `FlushSpec`.
 */
module FlushMachine {
  import opened Collections
  import opened Ints
  import opened StoreSpec
  import Spec = FlushSpec
  import Hex

  type Record = Spec.Record

  /** A `SlotCache` object on the heap. */
  datatype Cache = Cache(slot: u64, stats: map<string, Record>)

  /** Where the flusher is. `taken` is history: the detached contents at the moment of the delete. */
  datatype Flusher =
    | Idle
    | Walking(todo: seq<u64>)
    | Copying(ref: nat, ids: seq<string>, stats: seq<Record>, todo: seq<u64>, taken: map<string, Record>)
    | Popping(unpopped: seq<Record>, popped: seq<Record>, todo: seq<u64>)

  datatype State = State(
    heap: map<nat, Cache>,
    caches: map<u64, nat>,        // slot to cache reference
    nextRef: nat,
    counts: Counts,
    flusher: Flusher,
    slot: u64,
    saved: set<Record>,
    failed: set<Record>,
    seen: map<Record, u32>,       // the SeenCount fields written so far
    next: nat,
    accepted: set<Record>,
    ledger: seq<Spec.Pop>)

  datatype Event =
    | Arrive(raw: seq<u8>)
    | Process(raw: seq<u8>, slot: u64, arrival: int)
    | Snapshot(currentSlot: u64, order: seq<u64>)   // map iteration order is arbitrary
    | Detach
    | CopyOne(id: string)                           // so is the copying order
    | CopyDone
    | PopNext
    | Save(ok: bool)
    | Finish

  const INIT := State(map[], map[], 0, map[], Idle, 0, {}, {}, map[], 0, {}, [])

  function CompletedSlots(s: State, currentSlot: u64): set<u64> {
    set slot | slot in s.caches && Completed(slot, currentSlot)
  }

  ghost predicate Enabled(s: State, e: Event) {
    match e
    case Arrive(_) => true
    case Process(_, _, _) => true
    case Snapshot(currentSlot, order) =>
      s.flusher.Idle? && Distinct(order) && Elems(order) == CompletedSlots(s, currentSlot)
    case Detach => s.flusher.Walking? && s.flusher.todo != []
    case CopyOne(id) =>
      && s.flusher.Copying? && s.flusher.ref in s.heap
      && id in s.heap[s.flusher.ref].stats && id !in s.flusher.ids
    case CopyDone =>
      && s.flusher.Copying? && s.flusher.ref in s.heap
      && s.heap[s.flusher.ref].stats.Keys <= Elems(s.flusher.ids)
    case PopNext => s.flusher.Popping? && s.flusher.unpopped != []
    case Save(_) => s.flusher.Popping? && s.flusher.unpopped == []
    case Finish => s.flusher.Walking? && s.flusher.todo == []
  }

  function Next(s: State, e: Event): State
    requires Enabled(s, e)
  {
    match e
    case Arrive(raw) => s.(counts := Bump(s.counts, Hex.Encode(raw)))
    case Process(raw, slot, arrival) => Accept(s, Spec.Record(s.next, slot, Hex.Encode(raw), arrival))
    case Snapshot(_, order) => s.(flusher := Walking(order))
    case Detach =>
      var slot, rest := s.flusher.todo[0], s.flusher.todo[1..];
      if slot in s.caches && s.caches[slot] in s.heap
      then s.(slot := slot, caches := s.caches - {slot},
              flusher := Copying(s.caches[slot], [], [], rest, s.heap[s.caches[slot]].stats))
      else s.(flusher := Walking(rest))
    case CopyOne(id) =>
      var f := s.flusher;
      s.(flusher := f.(ids := f.ids + [id], stats := f.stats + [s.heap[f.ref].stats[id]]))
    case CopyDone =>
      if s.flusher.stats == [] then s.(flusher := Walking(s.flusher.todo))
      else s.(flusher := Popping(s.flusher.stats, [], s.flusher.todo))
    case PopNext =>
      var f := s.flusher;
      var rec := f.unpopped[0];
      s.(counts := s.counts - {rec.msgId},
         flusher := f.(unpopped := f.unpopped[1..], popped := f.popped + [rec]),
         seen := s.seen[rec := SeenCount(s.counts, rec.msgId)],
         ledger := s.ledger + [Spec.Pop(rec, CountOf(s.counts, rec.msgId), rec.msgId in s.counts)])
    case Save(ok) =>
      var t := s.(flusher := Walking(s.flusher.todo));
      if ok then t.(saved := s.saved + Elems(s.flusher.popped))
      else t.(failed := s.failed + Elems(s.flusher.popped))
    case Finish => s.(flusher := Idle)
  }

  /** The cache reference `Add` works on: the slot's own, or a newly allocated one. */
  function RefFor(s: State, slot: u64): nat {
    if slot in s.caches && s.caches[slot] in s.heap then s.caches[slot] else s.nextRef
  }

  function CacheFor(s: State, slot: u64): Cache {
    if slot in s.caches && s.caches[slot] in s.heap then s.heap[s.caches[slot]] else Cache(slot, map[])
  }

  /** `SlotCacheStore.Add` on the heap: find or create the slot's cache, insert unless present. */
  function Accept(s: State, rec: Record): State {
    var ref, cache := RefFor(s, rec.slot), CacheFor(s, rec.slot);
    var isNew := rec.msgId !in cache.stats;
    s.(next := s.next + 1,
       nextRef := if ref == s.nextRef then s.nextRef + 1 else s.nextRef,
       caches := s.caches[rec.slot := ref],
       heap := s.heap[ref := if isNew then cache.(stats := cache.stats[rec.msgId := rec]) else cache],
       accepted := if isNew then s.accepted + {rec} else s.accepted)
  }

  // ---------------------------------------------------------------- abstraction

  /** What the live part of the heap stores. */
  function ViewOf(heap: map<nat, Cache>, caches: map<u64, nat>): Caches<Record> {
    map slot | slot in caches && caches[slot] in heap :: heap[caches[slot]].stats
  }

  function View(s: State): Caches<Record> {
    ViewOf(s.heap, s.caches)
  }

  function Todo(f: Flusher): seq<u64> {
    if f.Idle? then [] else f.todo
  }

  function Unpopped(s: State): set<Record> {
    match s.flusher
    case Copying(ref, _, _, _, _) => if ref in s.heap then s.heap[ref].stats.Values else {}
    case Popping(unpopped, _, _) => Elems(unpopped)
    case _ => {}
  }

  function Abs(s: State): Spec.State {
    Spec.State(View(s), s.counts, !s.flusher.Idle?, Elems(Todo(s.flusher)), s.slot, Unpopped(s),
               if s.flusher.Popping? then Elems(s.flusher.popped) else {},
               s.saved, s.failed, s.seen, s.next, s.accepted, s.ledger)
  }

  /** Copying is invisible; every other event is one event of the specification. */
  function AbsEvent(s: State, e: Event): seq<Spec.Event>
    requires Enabled(s, e)
  {
    match e
    case Arrive(raw) => [Spec.Arrive(raw)]
    case Process(raw, slot, arrival) => [Spec.Process(raw, slot, arrival)]
    case Snapshot(currentSlot, _) => [Spec.Begin(currentSlot)]
    case Detach => [Spec.Take(s.flusher.todo[0])]
    case CopyOne(_) => []
    case CopyDone => []
    case PopNext => [Spec.PopOne(s.flusher.unpopped[0])]
    case Save(ok) => [Spec.Store(ok)]
    case Finish => [Spec.End]
  }

  // ---------------------------------------------------------------- ownership invariant

  /** Every live reference is allocated and its object knows its slot, so no two slots share an object. */
  ghost predicate Owned(s: State) {
    && (forall slot :: slot in s.caches ==> s.caches[slot] in s.heap && s.heap[s.caches[slot]].slot == slot)
    && (forall ref :: ref in s.heap ==> ref < s.nextRef)
  }

  /** The detached object is out of every live reference's reach, and what was copied came from it. */
  ghost predicate Detached(s: State, f: Flusher)
    requires f.Copying?
  {
    && f.ref in s.heap && f.ref !in s.caches.Values
    && s.heap[f.ref].stats == f.taken != map[]
    && (forall id :: id in f.taken ==> f.taken[id].msgId == id)
    && |f.ids| == |f.stats| && Distinct(f.ids)
    && (forall i :: 0 <= i < |f.ids| ==> f.ids[i] in f.taken && f.stats[i] == f.taken[f.ids[i]])
  }

  ghost predicate Local(s: State) {
    && Owned(s)
    && Distinct(Todo(s.flusher))
    && (s.flusher.Copying? ==> Detached(s, s.flusher))
    && (s.flusher.Popping? ==>
          Distinct(s.flusher.unpopped) && (s.flusher.unpopped != [] || s.flusher.popped != []))
  }

  ghost predicate Inv(s: State) {
    Local(s) && Spec.Inv(Abs(s))
  }

  // ---------------------------------------------------------------- simulation, event by event

  lemma AcceptKeepsOwned(s: State, rec: Record)
    requires Owned(s)
    ensures Owned(Accept(s, rec))
  {
  }

  lemma WriteOneSlotKeys(heap: map<nat, Cache>, caches: map<u64, nat>, slot: u64, ref: nat, cache: Cache)
    ensures forall other :: other in ViewOf(heap[ref := cache], caches[slot := ref]) <==>
              (other == slot || (other in caches && (caches[other] in heap || caches[other] == ref)))
  {
  }

  /** Writing one object changes one slot of the view, because no other slot refers to that object. */
  lemma WriteOneSlot(heap: map<nat, Cache>, caches: map<u64, nat>, slot: u64, ref: nat, cache: Cache)
    requires forall other :: other in caches && other != slot ==> caches[other] != ref
    ensures ViewOf(heap[ref := cache], caches[slot := ref]) == ViewOf(heap, caches)[slot := cache.stats]
  {
    var after, before := ViewOf(heap[ref := cache], caches[slot := ref]), ViewOf(heap, caches);
    WriteOneSlotKeys(heap, caches, slot, ref, cache);
    assert after[slot] == cache.stats;
    forall other | other in after && other != slot ensures other in before && after[other] == before[other] {
      assert caches[other] != ref;
    }
    forall other | other in before && other != slot ensures other in after {
      assert caches[other] != ref;
    }
  }

  lemma AcceptRefines(s: State, rec: Record)
    requires Owned(s)
    ensures View(Accept(s, rec)) == AddTo(View(s), rec.slot, rec.msgId, rec)
    ensures Accept(s, rec).accepted == if Holds(View(s), rec.slot, rec.msgId) then s.accepted else s.accepted + {rec}
  {
    var t := Accept(s, rec);
    var ref := t.caches[rec.slot];
    forall other | other in s.caches && other != rec.slot ensures s.caches[other] != ref {
      assert s.heap[s.caches[other]].slot == other;
    }
    WriteOneSlot(s.heap, s.caches, rec.slot, ref, t.heap[ref]);
  }

  /** No live entry reaches a detached cache, so an Add cannot change it. */
  lemma AcceptKeepsDetached(s: State, rec: Record)
    requires Owned(s) && s.flusher.Copying? && Detached(s, s.flusher)
    ensures Detached(Accept(s, rec), s.flusher)
  {
    var t, ref := Accept(s, rec), s.flusher.ref;
    if rec.slot in s.caches {
      assert s.caches[rec.slot] in s.caches.Values;
    }
    forall r | r in t.caches.Values ensures r != ref {
      var slot :| slot in t.caches && t.caches[slot] == r;
      if slot != rec.slot {
        assert s.caches[slot] in s.caches.Values;
      }
    }
  }

  lemma AcceptKeepsLocal(s: State, rec: Record)
    requires Local(s)
    ensures Local(Accept(s, rec)) && Unpopped(Accept(s, rec)) == Unpopped(s)
  {
    AcceptKeepsOwned(s, rec);
    if s.flusher.Copying? {
      AcceptKeepsDetached(s, rec);
    }
  }

  lemma AcceptSimulates(s: State, rec: Record)
    requires View(Accept(s, rec)) == AddTo(View(s), rec.slot, rec.msgId, rec)
    requires Accept(s, rec).accepted == if Holds(View(s), rec.slot, rec.msgId) then s.accepted else s.accepted + {rec}
    requires Unpopped(Accept(s, rec)) == Unpopped(s)
    ensures Abs(Accept(s, rec)) == Spec.Accept(Abs(s), rec)
  {
  }

  lemma ElemsTail<T>(xs: seq<T>)
    requires xs != [] && Distinct(xs)
    ensures Distinct(xs[1..]) && Elems(xs[1..]) == Elems(xs) - {xs[0]}
  {
    forall x | x in xs[1..] ensures x in Elems(xs) - {xs[0]} {}
    forall x | x in Elems(xs) - {xs[0]} ensures x in xs[1..] {
      var i :| 0 <= i < |xs| && xs[i] == x;
      assert xs[1..][i - 1] == x;
    }
  }

  lemma DetachKeepsLocal(s: State)
    requires Local(s) && Spec.WellFiled(View(s)) && Enabled(s, Detach)
    ensures Local(Next(s, Detach))
  {
    var t, slot := Next(s, Detach), s.flusher.todo[0];
    ElemsTail(s.flusher.todo);
    if slot in s.caches {
      var ref := s.caches[slot];
      assert View(s)[slot] != map[];
      forall r | r in t.caches.Values ensures r != ref {
        var other :| other in t.caches && t.caches[other] == r;
        assert s.heap[s.caches[other]].slot == other;
      }
      forall id | id in t.flusher.taken ensures t.flusher.taken[id].msgId == id {
        assert View(s)[slot][id].msgId == id;
      }
    }
  }

  lemma DetachSimulates(s: State)
    requires Local(s) && Enabled(s, Detach)
    ensures Spec.Enabled(Abs(s), Spec.Take(s.flusher.todo[0]))
    ensures Abs(Next(s, Detach)) == Spec.Next(Abs(s), Spec.Take(s.flusher.todo[0]))
  {
    var t, slot := Next(s, Detach), s.flusher.todo[0];
    ElemsTail(s.flusher.todo);
    assert slot in Elems(s.flusher.todo);
    if slot in s.caches {
      assert View(s)[slot] == s.heap[s.caches[slot]].stats;
      assert View(t) == View(s) - {slot};
    } else {
      assert View(t) == View(s);
    }
  }

  lemma CopyOneSimulates(s: State, id: string)
    requires Local(s) && Enabled(s, CopyOne(id))
    ensures Local(Next(s, CopyOne(id)))
    ensures Abs(Next(s, CopyOne(id))) == Abs(s)
  {
  }

  /** When copying ends, the slice holds each detached record once and nothing else. */
  lemma CopiedExactly(s: State)
    requires Local(s) && Enabled(s, CopyDone)
    ensures Distinct(s.flusher.stats) && s.flusher.stats != []
    ensures Elems(s.flusher.stats) == s.flusher.taken.Values
  {
    var f := s.flusher;
    forall i, j | 0 <= i < j < |f.stats| ensures f.stats[i] != f.stats[j] {
      assert f.stats[i].msgId == f.ids[i] && f.stats[j].msgId == f.ids[j];
    }
    forall rec | rec in f.taken.Values ensures rec in f.stats {
      var id :| id in f.taken && f.taken[id] == rec;
      assert id in Elems(f.ids);
      var i :| 0 <= i < |f.ids| && f.ids[i] == id;
      assert f.stats[i] == rec;
    }
  }

  lemma CopyDoneSimulates(s: State)
    requires Local(s) && Enabled(s, CopyDone)
    ensures Local(Next(s, CopyDone))
    ensures Abs(Next(s, CopyDone)) == Abs(s)
  {
    CopiedExactly(s);
    var t := Next(s, CopyDone);
    assert Unpopped(t) == Elems(s.flusher.stats) == Unpopped(s);
    assert Elems(t.flusher.popped) == {};
  }

  lemma PopNextSimulates(s: State)
    requires Local(s) && Enabled(s, PopNext)
    ensures Local(Next(s, PopNext))
    ensures Spec.Enabled(Abs(s), Spec.PopOne(s.flusher.unpopped[0]))
    ensures Abs(Next(s, PopNext)) == Spec.Next(Abs(s), Spec.PopOne(s.flusher.unpopped[0]))
  {
    var t, f := Next(s, PopNext), s.flusher;
    ElemsTail(f.unpopped);
    assert f.unpopped[0] in Elems(f.unpopped);
    assert Elems(t.flusher.popped) == Elems(f.popped) + {f.unpopped[0]};
    assert View(t) == View(s);
  }

  lemma SaveSimulates(s: State, ok: bool)
    requires Local(s) && Enabled(s, Save(ok))
    ensures Local(Next(s, Save(ok)))
    ensures Spec.Enabled(Abs(s), Spec.Store(ok))
    ensures Abs(Next(s, Save(ok))) == Spec.Next(Abs(s), Spec.Store(ok))
  {
    assert s.flusher.popped[0] in Elems(s.flusher.popped);
    assert View(Next(s, Save(ok))) == View(s);
  }

  lemma SnapshotSimulates(s: State, e: Event)
    requires Local(s) && Enabled(s, e) && e.Snapshot?
    ensures Local(Next(s, e))
    ensures Spec.Enabled(Abs(s), Spec.Begin(e.currentSlot))
    ensures Abs(Next(s, e)) == Spec.Next(Abs(s), Spec.Begin(e.currentSlot))
  {
    assert View(s).Keys == s.caches.Keys;
  }

  /** Zero or one events of the specification. */
  predicate Follows(a: Spec.State, es: seq<Spec.Event>, b: Spec.State) {
    if es == [] then a == b
    else |es| == 1 && Spec.Enabled(a, es[0]) && b == Spec.Next(a, es[0])
  }

  /** Forward simulation: each event of the code is a stutter or one event of the specification. */
  lemma StepSimulates(s: State, e: Event)
    requires Inv(s) && Enabled(s, e)
    ensures Inv(Next(s, e))
    ensures Follows(Abs(s), AbsEvent(s, e), Abs(Next(s, e)))
  {
    match e {
      case Arrive(_) =>
      case Process(raw, slot, arrival) =>
        var rec := Spec.Record(s.next, slot, Hex.Encode(raw), arrival);
        AcceptKeepsLocal(s, rec);
        AcceptRefines(s, rec);
        AcceptSimulates(s, rec);
      case Snapshot(_, _) => SnapshotSimulates(s, e);
      case Detach => DetachKeepsLocal(s); DetachSimulates(s);
      case CopyOne(id) => CopyOneSimulates(s, id);
      case CopyDone => CopyDoneSimulates(s);
      case PopNext => PopNextSimulates(s);
      case Save(ok) => SaveSimulates(s, ok);
      case Finish =>
    }
    if AbsEvent(s, e) != [] {
      Spec.StepKeepsInv(Abs(s), AbsEvent(s, e)[0]);
    }
  }
}
