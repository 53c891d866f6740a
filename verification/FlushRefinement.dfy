/** Every run of the code-level machine is a run of the specification, so its theorems hold of the code. */
module FlushRefinement {
  import opened Collections
  import opened Ints
  import opened StoreSpec
  import opened FlushMachine
  import Hex
  import Spec = FlushSpec
  import Theorems = FlushTheorems

  datatype Outcome = Stuck | Reached(state: State)

  ghost function Exec(es: seq<Event>): Outcome {
    if es == [] then Reached(INIT)
    else
      match Exec(es[..|es| - 1])
      case Stuck => Stuck
      case Reached(s) => if Enabled(s, es[|es| - 1]) then Reached(Next(s, es[|es| - 1])) else Stuck
  }

  ghost predicate IsRun(es: seq<Event>) {
    Exec(es).Reached?
  }

  ghost function After(es: seq<Event>): State
    requires IsRun(es)
  {
    Exec(es).state
  }

  /** The specification's view of a run: copying steps vanish. */
  ghost function AbsRun(es: seq<Event>): seq<Spec.Event>
    requires IsRun(es)
  {
    if es == [] then []
    else AbsRun(es[..|es| - 1]) + AbsEvent(After(es[..|es| - 1]), es[|es| - 1])
  }

  lemma SpecExtends(es: seq<Spec.Event>, more: seq<Spec.Event>, b: Spec.State)
    requires Spec.IsRun(es) && Follows(Spec.After(es), more, b)
    ensures Spec.IsRun(es + more) && Spec.After(es + more) == b
  {
    if more == [] {
      assert es + more == es;
    } else {
      assert (es + more)[..|es|] == es;
    }
  }

  /** Refinement: the code's run, abstracted, is a run of the specification with the same final state. */
  lemma {:induction false} RunRefines(es: seq<Event>)
    requires IsRun(es)
    ensures Inv(After(es))
    ensures Spec.IsRun(AbsRun(es)) && Spec.After(AbsRun(es)) == Abs(After(es))
  {
    if es == [] {
      assert Abs(INIT) == Spec.INIT;
      assert Spec.IsRun([]);
      Spec.RunKeepsInv([]);
    } else {
      var front, last := es[..|es| - 1], es[|es| - 1];
      RunRefines(front);
      StepSimulates(After(front), last);
      SpecExtends(AbsRun(front), AbsEvent(After(front), last), Abs(After(es)));
    }
  }

  /** Conservation for the code: the drain's unlocked copying loses and duplicates nothing. */
  lemma CodeConserves(es: seq<Event>, rec: Record)
    requires IsRun(es)
    ensures var s := After(es);
            Spec.One(Spec.Filed(View(s), rec)) + Spec.One(rec in Unpopped(s))
            + Spec.One(s.flusher.Popping? && rec in s.flusher.popped)
            + Spec.One(rec in s.saved) + Spec.One(rec in s.failed) == Spec.One(rec in s.accepted)
  {
    RunRefines(es);
    Spec.Conservation(AbsRun(es), rec);
  }

  // ---------------------------------------------------------------- what messages become in the code

  lemma AcceptedStep(s: State, e: Event)
    requires Enabled(s, e)
    ensures s.accepted <= Next(s, e).accepted
    ensures forall rec :: rec in Next(s, e).accepted && rec !in s.accepted ==>
              e.Process? && rec.slot == e.slot && rec.arrival == e.arrival && rec.msgId == Hex.Encode(e.raw)
  {
  }

  lemma SeenStep(s: State, e: Event)
    requires Enabled(s, e)
    ensures Next(s, e).seen ==
      if e.PopNext? then s.seen[s.flusher.unpopped[0] := SeenCount(s.counts, s.flusher.unpopped[0].msgId)] else s.seen
  {
  }

  /** Every record the code accepted carries the slot, arrival time and id of a message it processed. */
  lemma {:induction false} CodeAcceptedWasProcessed(es: seq<Event>, rec: Record) returns (k: nat, raw: seq<u8>)
    requires IsRun(es) && rec in After(es).accepted
    ensures k < |es| && es[k] == Process(raw, rec.slot, rec.arrival) && Hex.Encode(raw) == rec.msgId
  {
    var n := |es| - 1;
    var front := es[..n];
    AcceptedStep(After(front), es[n]);
    if rec in After(front).accepted {
      k, raw := CodeAcceptedWasProcessed(front, rec);
    } else {
      k, raw := n, es[n].raw;
    }
  }

  /** And after it processed a message, the message's slot holds its id. */
  lemma CodeFilesWhatItProcesses(es: seq<Event>, raw: seq<u8>, slot: u64, arrival: int)
    requires IsRun(es + [Process(raw, slot, arrival)])
    ensures Holds(View(After(es + [Process(raw, slot, arrival)])), slot, Hex.Encode(raw))
  {
    var all := es + [Process(raw, slot, arrival)];
    assert all[..|es|] == es;
    RunRefines(es);
    var s := After(es);
    AcceptRefines(s, Spec.Record(s.next, slot, Hex.Encode(raw), arrival));
  }

  /** How often the message-id callback ran for this id. */
  function Arrivals(es: seq<Event>, id: string): nat {
    if es == [] then 0
    else
      var e := es[|es| - 1];
      Arrivals(es[..|es| - 1], id) + if e.Arrive? && Hex.Encode(e.raw) == id then 1 else 0
  }

  lemma {:induction false} SameArrivals(es: seq<Event>, id: string)
    requires IsRun(es)
    ensures Theorems.Arrivals(AbsRun(es), id) == Arrivals(es, id)
  {
    if es != [] {
      var front := es[..|es| - 1];
      SameArrivals(front, id);
      var more := AbsEvent(After(front), es[|es| - 1]);
      if more == [] {
        assert AbsRun(es) == AbsRun(front);
      } else {
        assert AbsRun(es)[..|AbsRun(front)|] == AbsRun(front);
      }
    }
  }

  /** Every message is counted before it is processed, and no id was accepted twice. */
  ghost predicate Disciplined(es: seq<Event>)
    requires IsRun(es)
  {
    && (forall k :: 0 <= k < |es| && es[k].Process? ==> Arrivals(es[..k], Hex.Encode(es[k].raw)) > 0)
    && (forall a, b :: a in After(es).accepted && b in After(es).accepted && a.msgId == b.msgId ==> a == b)
  }

  lemma {:induction false} CountedFirstRefines(es: seq<Event>)
    requires IsRun(es)
    requires forall k :: 0 <= k < |es| && es[k].Process? ==> Arrivals(es[..k], Hex.Encode(es[k].raw)) > 0
    ensures Theorems.CountedFirst(AbsRun(es))
  {
    if es != [] {
      var n := |es| - 1;
      var front, a := es[..n], AbsRun(es[..n]);
      assert forall k :: 0 <= k < n ==> front[..k] == es[..k];
      CountedFirstRefines(front);
      if es[n].Process? {
        SameArrivals(front, Hex.Encode(es[n].raw));
      }
      CountedFirstExtends(a, AbsEvent(After(front), es[n]));
    }
  }

  lemma CountedFirstExtends(es: seq<Spec.Event>, more: seq<Spec.Event>)
    requires Theorems.CountedFirst(es) && |more| <= 1
    requires forall e :: e in more && e.Process? ==> Theorems.Arrivals(es, Hex.Encode(e.raw)) > 0
    ensures Theorems.CountedFirst(es + more)
  {
    var all := es + more;
    forall k | 0 <= k < |all| && all[k].Process? ensures Theorems.Arrivals(all[..k], Hex.Encode(all[k].raw)) > 0 {
      if k < |es| {
        assert all[..k] == es[..k];
      } else {
        assert all[..k] == es && all[k] in more;
      }
    }
  }

  lemma DisciplineRefines(es: seq<Event>)
    requires IsRun(es) && Disciplined(es)
    ensures Spec.IsRun(AbsRun(es)) && Theorems.Disciplined(AbsRun(es))
  {
    RunRefines(es);
    CountedFirstRefines(es);
  }

  /** In disciplined runs of the code every Pop finds a counter. */
  lemma CodeNeverFallsBack(es: seq<Event>)
    requires IsRun(es) && Disciplined(es)
    ensures forall p :: p in After(es).ledger ==> p.hit
  {
    RunRefines(es);
    DisciplineRefines(es);
    Theorems.FallbackUnreachable(AbsRun(es));
  }

  lemma {:induction false} AcceptedGrows(es: seq<Event>, k: nat)
    requires IsRun(es) && k <= |es|
    ensures IsRun(es[..k]) && After(es[..k]).accepted <= After(es).accepted
  {
    PrefixIsRun(es, k);
    if k < |es| {
      AcceptedGrows(es[..|es| - 1], k);
      AcceptedStep(After(es[..|es| - 1]), es[|es| - 1]);
      assert es[..|es| - 1][..k] == es[..k];
    } else {
      assert es[..k] == es;
    }
  }

  lemma PrefixDisciplined(es: seq<Event>, k: nat)
    requires IsRun(es) && Disciplined(es) && k <= |es|
    ensures IsRun(es[..k]) && Disciplined(es[..k])
  {
    AcceptedGrows(es, k);
    assert forall i :: 0 <= i < k ==> es[..k][..i] == es[..i];
  }

  lemma PoppedNext(es: seq<Event>, rec: Record)
    requires IsRun(es) && Disciplined(es) && After(es).flusher.Popping? && After(es).flusher.unpopped != []
    requires rec == After(es).flusher.unpopped[0]
    ensures SeenCount(After(es).counts, rec.msgId) == Arrivals(es, rec.msgId) % TWO32
  {
    RunRefines(es);
    DisciplineRefines(es);
    assert rec in Elems(After(es).flusher.unpopped);
    Theorems.Coupling(AbsRun(es), rec);
    SameArrivals(es, rec.msgId);
  }

  /** In disciplined runs of the code, a record's SeenCount is the arrivals of its id up to the record's pop. */
  lemma {:induction false} CodeSeenCountIsArrivals(es: seq<Event>, rec: Record) returns (k: nat)
    requires IsRun(es) && Disciplined(es) && rec in After(es).seen
    ensures k < |es| && es[k] == PopNext && IsRun(es[..k])
    ensures var f := After(es[..k]).flusher; f.Popping? && f.unpopped != [] && f.unpopped[0] == rec
    ensures After(es).seen[rec] == Arrivals(es[..k], rec.msgId) % TWO32
  {
    var n := |es| - 1;
    var front := es[..n];
    PrefixDisciplined(es, n);
    var s := After(front);
    SeenStep(s, es[n]);
    if es[n].PopNext? && s.flusher.unpopped[0] == rec {
      k := n;
      PoppedNext(front, rec);
    } else {
      k := CodeSeenCountIsArrivals(front, rec);
      assert front[..k] == es[..k];
    }
  }

  /** A snapshot lists exactly the cached slots below its own threshold, each once. */
  lemma CodeSnapshotIsExact(es: seq<Event>, current: u64, order: seq<u64>)
    requires IsRun(es + [Snapshot(current, order)])
    ensures IsRun(es) && After(es + [Snapshot(current, order)]).flusher == Walking(order) && Distinct(order)
    ensures forall slot :: slot in order <==> slot in View(After(es)) && Completed(slot, current)
  {
    var all := es + [Snapshot(current, order)];
    assert all[..|es|] == es;
    var s := After(es);
    assert Owned(s) by { RunRefines(es); }
    forall slot ensures slot in order <==> slot in View(s) && Completed(slot, current) {
      assert slot in order <==> slot in Elems(order);
    }
  }

  lemma {:induction false} BeginsAreSnapshots(es: seq<Event>, e: Spec.Event) returns (k: nat)
    requires IsRun(es) && e in AbsRun(es) && e.Begin?
    ensures k < |es| && es[k].Snapshot? && es[k].currentSlot == e.currentSlot
  {
    var n := |es| - 1;
    if e in AbsRun(es[..n]) {
      k := BeginsAreSnapshots(es[..n], e);
    } else {
      k := n;
    }
  }

  /** In every run of the code, a record leaves the cache only if some snapshot found its slot completed. */
  lemma CodeFlushedWasCompleted(es: seq<Event>, rec: Record) returns (k: nat)
    requires IsRun(es) && (rec in After(es).saved || rec in After(es).failed || rec in Unpopped(After(es)))
    ensures k < |es| && es[k].Snapshot? && Completed(rec.slot, es[k].currentSlot)
  {
    RunRefines(es);
    var i := Theorems.FlushedWasCompleted(AbsRun(es), rec);
    k := BeginsAreSnapshots(es, AbsRun(es)[i]);
  }

  lemma OutcomeStep(s: State, e: Event)
    requires Enabled(s, e)
    ensures Next(s, e).saved == if e == Save(true) then s.saved + Elems(s.flusher.popped) else s.saved
    ensures Next(s, e).failed == if e == Save(false) then s.failed + Elems(s.flusher.popped) else s.failed
  {
  }

  /** Records are saved only by saves that succeed, and fail only by saves that fail. */
  lemma {:induction false} CodeSavesAsTold(es: seq<Event>)
    requires IsRun(es)
    ensures (forall k :: 0 <= k < |es| ==> es[k] != Save(true)) ==> After(es).saved == {}
    ensures (forall k :: 0 <= k < |es| ==> es[k] != Save(false)) ==> After(es).failed == {}
  {
    if es != [] {
      CodeSavesAsTold(es[..|es| - 1]);
      OutcomeStep(After(es[..|es| - 1]), es[|es| - 1]);
    }
  }

  lemma SnapshotEnabled(s: State, current: u64) returns (order: seq<u64>)
    requires s.flusher.Idle?
    ensures Enabled(s, Snapshot(current, order))
  {
    order := SomeOrder(CompletedSlots(s, current));
  }

  lemma CopyEnabled(s: State)
    requires Local(s) && s.flusher.Copying?
    ensures Enabled(s, CopyDone) || exists id :: Enabled(s, CopyOne(id))
  {
    if !Enabled(s, CopyDone) {
      var id :| id in s.heap[s.flusher.ref].stats.Keys && id !in Elems(s.flusher.ids);
      assert Enabled(s, CopyOne(id));
    }
  }

  /**
   * The code never blocks: messages arrive and are processed at any time, a snapshot can be taken whenever the
   * flusher is idle, and otherwise the flusher has its next step, with either outcome of a save possible.
   */
  lemma CodeNeverBlocks(es: seq<Event>, raw: seq<u8>, slot: u64, arrival: int, current: u64, ok: bool)
    requires IsRun(es)
    ensures var s := After(es);
            && Enabled(s, Arrive(raw)) && Enabled(s, Process(raw, slot, arrival))
            && (s.flusher.Idle? ==> exists order :: Enabled(s, Snapshot(current, order)))
            && (s.flusher.Walking? ==> Enabled(s, if s.flusher.todo == [] then Finish else Detach))
            && (s.flusher.Copying? ==> Enabled(s, CopyDone) || exists id :: Enabled(s, CopyOne(id)))
            && (s.flusher.Popping? ==> Enabled(s, if s.flusher.unpopped == [] then Save(ok) else PopNext))
  {
    var s := After(es);
    if s.flusher.Idle? {
      var order := SnapshotEnabled(s, current);
    } else if s.flusher.Copying? {
      assert Local(s) by { RunRefines(es); }
      CopyEnabled(s);
    }
  }

  lemma {:induction false} SomeOrder(slots: set<u64>) returns (order: seq<u64>)
    ensures Distinct(order) && Elems(order) == slots
  {
    if slots == {} {
      order := [];
    } else {
      var slot :| slot in slots;
      var rest := SomeOrder(slots - {slot});
      order := [slot] + rest;
      assert slot !in Elems(rest);
      assert Elems(order) == {slot} + Elems(rest);
    }
  }

  /** `DrainSlot` never meets a missing slot and never returns an empty slice, so `stats[0]` names the slot. */
  lemma DrainFindsItsSlot(es: seq<Event>)
    requires IsRun(es)
    ensures var s := After(es);
            && (s.flusher.Walking? ==> forall slot :: slot in s.flusher.todo ==> slot in s.caches)
            && (s.flusher.Copying? ==> s.flusher.taken != map[])
            && (s.flusher.Popping? ==> s.flusher.unpopped + s.flusher.popped != [])
            && (s.flusher.Popping? ==>
                  forall rec :: rec in s.flusher.unpopped + s.flusher.popped ==> rec.slot == s.slot)
  {
    var s := After(es);
    RunRefines(es);
    if s.flusher.Walking? {
      forall slot | slot in s.flusher.todo ensures slot in s.caches {
        assert slot in Elems(s.flusher.todo);
      }
    } else if s.flusher.Popping? {
      forall rec | rec in s.flusher.unpopped + s.flusher.popped ensures rec.slot == s.slot {
        assert rec in Abs(s).unpopped || rec in Abs(s).popped;
      }
    }
  }

  lemma {:induction false} PrefixIsRun(es: seq<Event>, k: nat)
    requires IsRun(es) && k <= |es|
    ensures IsRun(es[..k])
    decreases |es|
  {
    if k < |es| {
      PrefixIsRun(es[..|es| - 1], k);
      assert es[..|es| - 1][..k] == es[..k];
    } else {
      assert es[..k] == es;
    }
  }

  /** A delete at event i whose copying ends at event j. */
  ghost predicate IsDrain(es: seq<Event>, i: nat, j: nat) {
    && i < j < |es| && es[i].Detach? && es[j].CopyDone?
    && forall k :: i < k < j ==> es[k].CopyOne? || es[k].Arrive? || es[k].Process?
  }

  /** What the slot about to be drained holds. */
  ghost predicate AboutToDrain(s: State, contents: map<string, Record>) {
    s.flusher.Walking? && s.flusher.todo != [] && s.flusher.todo[0] in View(s) && View(s)[s.flusher.todo[0]] == contents
  }

  lemma DetachTakesContents(es: seq<Event>, i: nat) returns (contents: map<string, Record>)
    requires IsRun(es) && i < |es| && es[i].Detach?
    ensures IsRun(es[..i]) && AboutToDrain(After(es[..i]), contents)
    ensures IsRun(es[..i + 1]) && After(es[..i + 1]).flusher.Copying? && After(es[..i + 1]).flusher.taken == contents
  {
    PrefixIsRun(es, i);
    PrefixIsRun(es, i + 1);
    assert es[..i + 1][..i] == es[..i];
    DrainFindsItsSlot(es[..i]);
    var s := After(es[..i]);
    assert Owned(s) by { RunRefines(es[..i]); }
    contents := View(s)[s.flusher.todo[0]];
  }

  lemma {:induction false} TakenIsFixed(es: seq<Event>, i: nat, j: nat, k: nat, contents: map<string, Record>)
    requires IsRun(es) && IsDrain(es, i, j) && i < k <= j
    requires IsRun(es[..i + 1]) && After(es[..i + 1]).flusher.Copying? && After(es[..i + 1]).flusher.taken == contents
    ensures IsRun(es[..k]) && After(es[..k]).flusher.Copying? && After(es[..k]).flusher.taken == contents
    decreases k
  {
    if i + 1 < k {
      TakenIsFixed(es, i, j, k - 1, contents);
      PrefixIsRun(es, k);
      assert es[..k][..k - 1] == es[..k - 1];
    }
  }

  /**
   * Drain atomicity: although `DrainSlot` iterates after releasing the lock, whatever
   * arrivals and Adds run meanwhile, the slice it returns holds each record the slot
   * held at the delete exactly once, and nothing else.
   */
  lemma DrainReturnsContentsAtDelete(es: seq<Event>, i: nat, j: nat) returns (contents: map<string, Record>)
    requires IsRun(es) && IsDrain(es, i, j)
    ensures IsRun(es[..i]) && AboutToDrain(After(es[..i]), contents) && contents != map[]
    ensures IsRun(es[..j + 1]) && After(es[..j + 1]).flusher.Popping? && After(es[..j + 1]).flusher.popped == []
    ensures Distinct(After(es[..j + 1]).flusher.unpopped)
    ensures Elems(After(es[..j + 1]).flusher.unpopped) == contents.Values
  {
    contents := DetachTakesContents(es, i);
    TakenIsFixed(es, i, j, j, contents);
    PrefixIsRun(es, j + 1);
    assert es[..j + 1][..j] == es[..j];
    var s := After(es[..j]);
    assert Local(s) by { RunRefines(es[..j]); }
    CopiedExactly(s);
  }
}
