/** From gossip arrival to the hourly rollup: the protocol, the slot clock and the query together. */
module EndToEnd {
  import opened Collections
  import opened Ints
  import opened StoreSpec
  import opened FlushSpec
  import opened FlushTheorems
  import opened SlotTime
  import opened Rollup

  /** Seconds from the end of the eligible arrivals of an hour to the earliest trigger of its run. */
  const SLACK: int := 2773

  /** Event k happens at times[k], in Unix nanoseconds. */
  ghost predicate Timed(es: seq<Event>, times: seq<int>) {
    && |times| == |es|
    && (forall k :: 0 <= k < |times| ==> 0 <= times[k] < TWO64 * NS_PER_S)
    && (forall i, j :: 0 <= i <= j < |times| ==> times[i] <= times[j])
  }

  /** Each snapshot uses the current slot of its own instant, in the code's Unix-epoch reckoning. */
  ghost predicate ClockedSnapshots(es: seq<Event>, times: seq<int>)
    requires Timed(es, times)
  {
    forall k :: 0 <= k < |es| && es[k].Begin? ==> es[k].currentSlot == UnixSlot(times[k] / NS_PER_S)
  }

  /** The clock is between second 12 of 1970 and the year 2262, where it begins to overflow. */
  ghost predicate SaneClock(times: seq<int>) {
    forall k :: 0 <= k < |times| ==> InClockRange(times[k] / NS_PER_S)
  }

  /** Within `bound` nanoseconds of event a, a pass has begun and ended. */
  ghost predicate FlushedWithin(es: seq<Event>, times: seq<int>, a: nat, i: nat, j: nat, bound: int)
    requires Timed(es, times)
  {
    a < i < j < |es| && es[i].Begin? && es[j].End? && times[j] <= times[a] + bound
  }

  /** As far as the run goes, a pass begins after event k and within `gap` of time t. */
  ghost predicate BeginsAfter(es: seq<Event>, times: seq<int>, k: int, t: int, gap: int)
    requires Timed(es, times) && es != [] && k >= -1
  {
    t + gap <= times[|es| - 1] ==> exists i :: k < i < |es| && es[i].Begin? && times[i] <= t + gap
  }

  ghost predicate EndsAfter(es: seq<Event>, times: seq<int>, k: nat, pass: int)
    requires Timed(es, times) && k < |es|
  {
    times[k] + pass <= times[|es| - 1] ==> exists j :: k < j < |es| && es[j].End? && times[j] <= times[k] + pass
  }

  /**
   * The serving loop: the ticker begins a pass within `gap` of the service's start and of the
   * end of every pass, and every pass ends within `pass`.
   */
  ghost predicate Serving(es: seq<Event>, times: seq<int>, start: int, gap: int, pass: int)
    requires Timed(es, times)
  {
    && gap >= 0 && pass >= 0 && es != [] && start <= times[0] && BeginsAfter(es, times, -1, start, gap)
    && (forall k :: 0 <= k < |es| && es[k].End? ==> BeginsAfter(es, times, k, times[k], gap))
    && (forall k :: 0 <= k < |es| && es[k].Begin? ==> EndsAfter(es, times, k, pass))
  }

  ghost predicate SavesSucceed(es: seq<Event>) {
    forall k :: 0 <= k < |es| ==> es[k] != Store(false)
  }

  lemma {:induction false} SavedStays(es: seq<Event>, i: nat, j: nat, rec: Record)
    requires IsRun(es) && i <= j <= |es|
    requires IsRun(es[..i]) && rec in After(es[..i]).saved
    ensures IsRun(es[..j]) && rec in After(es[..j]).saved
    decreases j
  {
    if i < j {
      SavedStays(es, i, j - 1, rec);
      StillSaved(es, j - 1, rec);
    }
  }

  lemma StillSaved(es: seq<Event>, k: nat, rec: Record)
    requires IsRun(es) && k < |es| && IsRun(es[..k]) && rec in After(es[..k]).saved
    ensures IsRun(es[..k + 1]) && rec in After(es[..k + 1]).saved
  {
    StepAt(es, k);
    SavedStep(After(es[..k]), es[k]);
  }

  lemma SavedStep(s: State, e: Event)
    requires Enabled(s, e)
    ensures s.saved <= Next(s, e).saved
  {
  }

  /** At a snapshot nothing is in flight, so an accepted record that never failed is cached or saved. */
  lemma AtSnapshot(es: seq<Event>, i: nat, rec: Record)
    requires IsRun(es) && i < |es| && es[i].Begin? && SavesSucceed(es)
    requires IsRun(es[..i]) && rec in After(es[..i]).accepted
    ensures InCache(After(es[..i]), rec) || rec in After(es[..i]).saved
  {
    StepAt(es, i);
    assert es[..0] == [];
    UnfailedUntil(es, 0, i, rec);
    assert Shape(After(es[..i])) by { RunKeepsInv(es[..i]); }
    Conservation(es[..i], rec);
  }

  /** Every record accepted by event a is saved once a later pass has ended. */
  lemma SavedByNextPass(es: seq<Event>, a: nat, i: nat, j: nat, rec: Record)
    requires IsRun(es) && SavesSucceed(es)
    requires a < i < j < |es| && es[i].Begin? && es[j].End?
    requires IsRun(es[..a + 1]) && rec in After(es[..a + 1]).accepted
    requires Completed(rec.slot, es[i].currentSlot)
    ensures IsRun(es[..j + 1]) && rec in After(es[..j + 1]).saved
  {
    PrefixIsRun(es, i);
    assert rec in After(es[..i]).accepted by {
      AcceptedGrows(es[..i], a + 1);
      assert es[..i][..a + 1] == es[..a + 1];
    }
    AtSnapshot(es, i, rec);
    StepAt(es, j);
    if InCache(After(es[..i]), rec) {
      PassFlushesCompleted(es, i, j + 1, rec);
    } else {
      SavedStays(es, i, j + 1, rec);
    }
  }

  /** A slot that has started when a snapshot is taken is below the code's threshold. */
  lemma StartedIsCompleted(genesis: nat, slot: u64, t: int)
    requires genesis >= 24 && 0 <= t < TWO64 * NS_PER_S
    requires SlotStart(genesis, slot) * NS_PER_S <= t
    ensures Completed(slot, UnixSlot(t / NS_PER_S))
  {
    var now: u64 := t / NS_PER_S;
    assert SlotStart(genesis, slot) <= now;
    UnixThresholdDrainsFromStartIff(genesis);
    assert Drained(slot, now);
  }

  /** An eligible arrival plus the slack is before any run whose window holds the slot start. */
  lemma Deadline(start: int, arrival: int, now: int)
    requires InWindow(now, start)
    requires arrival < (start + 768) * NS_PER_S
    ensures arrival + SLACK * NS_PER_S < now * NS_PER_S
  {
  }

  /** One nanosecond more of slack would fail, for the last second of any hour and the earliest trigger. */
  lemma DeadlineIsTight(hour: int) returns (start: int, arrival: int, now: int)
    ensures InWindow(now, start) && start == HOUR * (hour + 1) - 1 && arrival < (start + 768) * NS_PER_S
    ensures arrival + SLACK * NS_PER_S + 1 == now * NS_PER_S
  {
    now := HOUR * (hour + 2) - 60;
    start := HOUR * (hour + 1) - 1;
    arrival := (start + 768) * NS_PER_S - 1;
    assert CurrentHour(now) == HOUR * (hour + 2);
  }

  /**
   * End-to-end completeness. Suppose saves succeed, each record is added at most `addDelay`
   * after its arrival stamp, and a pass begins and ends within `passBound` of that, with
   * addDelay + passBound <= 2773 s. Then a record whose true latency is in 0 to 768 s is saved,
   * with a latency the filter admits, before the one hourly run that considers its slot.
   */
  lemma StoredBeforeItsRollup(
    es: seq<Event>, times: seq<int>, genesis: nat, a: nat, i: nat, j: nat, rec: Record,
    addDelay: int, passBound: int, now: int)
    requires IsRun(es) && Timed(es, times) && ClockedSnapshots(es, times) && SavesSucceed(es)
    requires genesis >= 24 && rec.slot <= MAX_CLOCK_SLOT
    requires a < |es| && es[a].Process? && IsRun(es[..a + 1]) && rec in After(es[..a + 1]).accepted
    requires rec.arrival <= times[a] <= rec.arrival + addDelay
    requires FlushedWithin(es, times, a, i, j, passBound) && addDelay + passBound <= SLACK * NS_PER_S
    requires 0 <= TrueDelayNs(genesis, rec.slot, rec.arrival) < 768 * NS_PER_S
    requires InWindow(now, SlotStart(genesis, rec.slot))
    ensures IsRun(es[..j + 1]) && rec in After(es[..j + 1]).saved && times[j] < now * NS_PER_S
    ensures LatencyMs(genesis, rec.slot, rec.arrival) < LATENCY_LIMIT_MS
  {
    StartedIsCompleted(genesis, rec.slot, times[i]);
    SavedByNextPass(es, a, i, j, rec);
    Deadline(SlotStart(genesis, rec.slot), rec.arrival, now);
    LatencyFilterExact(genesis, rec.slot, rec.arrival);
  }

  // ---------------------------------------------------------------- the serving loop meets the bound

  /** While a pass runs, the latest snapshot has had no end since. */
  lemma {:induction false} RunningPass(es: seq<Event>, n: nat) returns (b: nat)
    requires IsRun(es) && n <= |es| && IsRun(es[..n]) && After(es[..n]).busy
    ensures b < n && es[b].Begin? && forall k :: b < k < n ==> !es[k].End?
    decreases n
  {
    StepAt(es, n - 1);
    if es[n - 1].Begin? {
      b := n - 1;
    } else {
      BusyStep(After(es[..n - 1]), es[n - 1]);
      b := RunningPass(es, n - 1);
    }
  }

  /** While no pass runs, the latest end (or the start) has had no snapshot since. */
  lemma {:induction false} IdleSince(es: seq<Event>, n: nat) returns (e: int)
    requires IsRun(es) && n <= |es| && IsRun(es[..n]) && !After(es[..n]).busy
    ensures -1 <= e < n && (e >= 0 ==> es[e].End?) && forall k :: e < k < n ==> !es[k].Begin?
    decreases n
  {
    if n == 0 {
      e := -1;
    } else {
      StepAt(es, n - 1);
      if es[n - 1].End? {
        e := n - 1;
      } else {
        BusyStep(After(es[..n - 1]), es[n - 1]);
        e := IdleSince(es, n - 1);
      }
    }
  }

  lemma BusyStep(s: State, e: Event)
    requires Enabled(s, e)
    ensures Next(s, e).busy == if e.Begin? then true else if e.End? then false else s.busy
  {
  }

  lemma NextBeginWhenIdle(es: seq<Event>, times: seq<int>, start: int, gap: int, pass: int, a: nat) returns (i: nat)
    requires IsRun(es) && Timed(es, times) && Serving(es, times, start, gap, pass)
    requires a < |es| && times[a] + gap <= times[|es| - 1]
    requires IsRun(es[..a + 1]) && !After(es[..a + 1]).busy
    ensures a < i < |es| && es[i].Begin? && times[i] <= times[a] + gap
  {
    var e := IdleSince(es, a + 1);
    var t := if e < 0 then start else times[e];
    assert t <= times[a];
    assert BeginsAfter(es, times, e, t, gap);
    i :| e < i < |es| && es[i].Begin? && times[i] <= t + gap;
  }

  lemma EndOfRunningPass(es: seq<Event>, times: seq<int>, start: int, gap: int, pass: int, a: nat) returns (e: nat)
    requires IsRun(es) && Timed(es, times) && Serving(es, times, start, gap, pass)
    requires a < |es| && times[a] + pass <= times[|es| - 1]
    requires IsRun(es[..a + 1]) && After(es[..a + 1]).busy
    ensures a < e < |es| && es[e].End? && times[e] <= times[a] + pass
  {
    var b := RunningPass(es, a + 1);
    assert times[b] <= times[a] && EndsAfter(es, times, b, pass);
    e :| b < e < |es| && es[e].End? && times[e] <= times[b] + pass;
  }

  lemma NextBegin(es: seq<Event>, times: seq<int>, start: int, gap: int, pass: int, a: nat) returns (i: nat)
    requires IsRun(es) && Timed(es, times) && Serving(es, times, start, gap, pass)
    requires a < |es| && times[a] + pass + gap <= times[|es| - 1]
    ensures a < i < |es| && es[i].Begin? && times[i] <= times[a] + pass + gap
  {
    PrefixIsRun(es, a + 1);
    if After(es[..a + 1]).busy {
      var e := EndOfRunningPass(es, times, start, gap, pass, a);
      assert BeginsAfter(es, times, e, times[e], gap);
      i :| e < i < |es| && es[i].Begin? && times[i] <= times[e] + gap;
    } else {
      i := NextBeginWhenIdle(es, times, start, gap, pass, a);
    }
  }

  /** After any event the serving loop begins and ends a whole pass within gap + 2 * pass. */
  lemma NextWholePass(es: seq<Event>, times: seq<int>, start: int, gap: int, pass: int, a: nat) returns (i: nat, j: nat)
    requires IsRun(es) && Timed(es, times) && Serving(es, times, start, gap, pass)
    requires a < |es| && times[a] + gap + 2 * pass <= times[|es| - 1]
    ensures FlushedWithin(es, times, a, i, j, gap + 2 * pass)
  {
    i := NextBegin(es, times, start, gap, pass, a);
    assert EndsAfter(es, times, i, pass);
    j :| i < j < |es| && es[j].End? && times[j] <= times[i] + pass;
  }

  /**
   * The whole pipeline: with a serving loop whose saves succeed and whose delays satisfy
   * addDelay + gap + 2 * pass <= 2773 s, every eligible record is saved before the hourly run that
   * considers its slot, so no eligible row arrives after its hour was aggregated.
   */
  lemma NoRowMissesItsRollup(
    es: seq<Event>, times: seq<int>, genesis: nat, a: nat, rec: Record,
    addDelay: int, start: int, gap: int, pass: int, now: int) returns (j: nat)
    requires IsRun(es) && Timed(es, times) && ClockedSnapshots(es, times) && SavesSucceed(es)
    requires Serving(es, times, start, gap, pass) && addDelay + gap + 2 * pass <= SLACK * NS_PER_S
    requires genesis >= 24 && rec.slot <= MAX_CLOCK_SLOT
    requires a < |es| && es[a].Process? && IsRun(es[..a + 1]) && rec in After(es[..a + 1]).accepted
    requires rec.arrival <= times[a] <= rec.arrival + addDelay
    requires 0 <= TrueDelayNs(genesis, rec.slot, rec.arrival) < 768 * NS_PER_S
    requires InWindow(now, SlotStart(genesis, rec.slot)) && now * NS_PER_S <= times[|es| - 1]
    ensures j < |es| && times[j] < now * NS_PER_S && IsRun(es[..j + 1]) && rec in After(es[..j + 1]).saved
    ensures LatencyMs(genesis, rec.slot, rec.arrival) < LATENCY_LIMIT_MS
  {
    Deadline(SlotStart(genesis, rec.slot), rec.arrival, now);
    var i, end := NextWholePass(es, times, start, gap, pass, a);
    StoredBeforeItsRollup(es, times, genesis, a, i, end, rec, addDelay, gap + 2 * pass, now);
    j := end;
  }

  // ---------------------------------------------------------------- from records to the rows a run selects

  /** What a node writes beside the record itself; `topicOf`, `groupOf` and `sizeOf` are per record. */
  datatype Node = Node(genesis: nat, alias: string, region: string,
                       groupOf: Record -> string, topicOf: Record -> string, sizeOf: Record -> nat)

  /** The stored row of a record, with the computed slot start. */
  function RowOf(node: Node, rec: Record, seen: u32): Row {
    Row(SlotStartNs(node.genesis, rec.slot) / NS_PER_S, node.alias, node.region, node.groupOf(rec), node.topicOf(rec),
        LatencyMs(node.genesis, rec.slot, rec.arrival), node.sizeOf(rec), seen)
  }

  /** The table has the row of every saved record, among whatever other nodes and earlier runs stored. */
  ghost predicate TableHolds(table: seq<Row>, s: State, node: Node) {
    forall rec :: rec in s.saved ==> rec in s.seen && RowOf(node, rec, s.seen[rec]) in table
  }

  ghost predicate IsOwnRow(row: Row, s: State, node: Node) {
    exists rec :: rec in s.saved && rec in s.seen && row == RowOf(node, rec, s.seen[rec])
  }

  /** Rows under the node's alias that this run did not store have slot starts. */
  ghost predicate ForeignOnGrid(table: seq<Row>, s: State, node: Node) {
    forall row :: row in table && row.alias == node.alias && !IsOwnRow(row, s, node) ==>
      OnGrid(node.genesis, row.slotStart)
  }

  lemma ClockSlotRow(node: Node, rec: Record, seen: u32)
    requires rec.slot <= MAX_CLOCK_SLOT
    ensures RowOf(node, rec, seen).slotStart == SlotStart(node.genesis, rec.slot)
    ensures OnGrid(node.genesis, RowOf(node, rec, seen).slotStart)
  {
    SlotClockExact(node.genesis, rec.slot);
  }

  /** The row of this record, with this count, as the chain's clock and the node's settings define it. */
  ghost predicate Describes(row: Row, node: Node, rec: Record, count: int) {
    var delay := rec.arrival - (node.genesis + 12 * rec.slot) * 1_000_000_000;
    && row.slotStart == node.genesis + 12 * rec.slot && row.alias == node.alias && row.region == node.region
    && row.topicGroup == node.groupOf(rec) && row.topic == node.topicOf(rec) && row.sizeBytes == node.sizeOf(rec)
    && (0 <= delay < TWO32 * 1_000_000 ==> row.latencyMs == delay / 1_000_000)
    && row.seenCount == count
  }

  lemma RowDescribes(node: Node, rec: Record, seen: u32)
    requires rec.slot <= MAX_CLOCK_SLOT
    ensures Describes(RowOf(node, rec, seen), node, rec, seen)
  {
    ClockSlotRow(node, rec, seen);
    LatencyExact(node.genesis, rec.slot, rec.arrival);
  }

  /** Beyond that the computed start leaves the grid: slots are not validated, and this one is 5 s off. */
  lemma WrappedRowIsOffGrid(node: Node, rec: Record, seen: u32)
    requires rec.slot == 2050477055857969
    ensures !OnGrid(node.genesis, RowOf(node, rec, seen).slotStart)
  {
    assert ToI64(2050477055857969 * NS_PER_S) == -7675143363628979712;
    assert SlotOffsetNs(2050477055857969) == 132000005_000001536;
    assert RowOf(node, rec, seen).slotStart == node.genesis + 132000005;
  }

  /**
   * Nothing else keeps such slots out of the table, but the flush threshold does: over every run with a
   * sane clock, a saved record has a slot the clock can express, so its row is on the grid.
   */
  lemma SavedRowsAreOnGrid(es: seq<Event>, times: seq<int>, node: Node, rec: Record, seen: u32)
    requires IsRun(es) && Timed(es, times) && ClockedSnapshots(es, times) && SaneClock(times)
    requires rec in After(es).saved
    ensures rec.slot <= MAX_CLOCK_SLOT && OnGrid(node.genesis, RowOf(node, rec, seen).slotStart)
  {
    var k := FlushedWasCompleted(es, rec);
    var now: u64 := times[k] / NS_PER_S;
    assert InClockRange(now);
    DrainsClockSlotsIff(now);
    assert Drained(rec.slot, now);
    ClockSlotRow(node, rec, seen);
  }

  /**
   * What the table says of a message: over every disciplined run with a sane clock, each saved record has a row
   * with its slot's start, its delay and the node's settings, whose seen_count is the number of times the
   * message had arrived when its counter was popped.
   */
  lemma SavedRowIsExact(es: seq<Event>, times: seq<int>, node: Node, rec: Record, table: seq<Row>)
    requires IsRun(es) && Timed(es, times) && ClockedSnapshots(es, times) && SaneClock(times) && Disciplined(es)
    requires TableHolds(table, After(es), node) && rec in After(es).saved
    ensures exists row :: row in table && Describes(row, node, rec, ArrivalsAtPop(es, rec) % TWO32)
  {
    var seen := After(es).seen[rec];
    SeenIsArrivalsAtPop(es, rec);
    SavedRowsAreOnGrid(es, times, node, rec, seen);
    RowDescribes(node, rec, seen);
  }

  lemma AliasIsOnGrid(es: seq<Event>, times: seq<int>, node: Node, m: nat, table: seq<Row>)
    requires IsRun(es) && Timed(es, times) && ClockedSnapshots(es, times) && SaneClock(times)
    requires m <= |es| && IsRun(es[..m]) && ForeignOnGrid(table, After(es[..m]), node)
    ensures AliasOnGrid(table, node.genesis, node.alias)
  {
    var s := After(es[..m]);
    forall row | row in table && row.alias == node.alias ensures OnGrid(node.genesis, row.slotStart) {
      if IsOwnRow(row, s, node) {
        var rec :| rec in s.saved && rec in s.seen && row == RowOf(node, rec, s.seen[rec]);
        SavedRowsAreOnGrid(es[..m], times[..m], node, rec, s.seen[rec]);
      }
    }
  }

  /** The run's events split at the trigger: the first m happened before it. */
  ghost predicate CutAt(times: seq<int>, now: int, m: nat) {
    && m <= |times|
    && (forall k :: 0 <= k < m ==> times[k] < now * NS_PER_S)
    && (forall k :: m <= k < |times| ==> times[k] >= now * NS_PER_S)
  }

  lemma BeforeTheCut(times: seq<int>, now: int, m: nat, j: nat)
    requires CutAt(times, now, m) && j < |times| && times[j] < now * NS_PER_S
    ensures j < m
  {
  }

  /** The pipeline's delays and the environment of the whole run. */
  datatype Delays = Delays(add: int, start: int, gap: int, pass: int)

  ghost predicate Healthy(es: seq<Event>, times: seq<int>, d: Delays) {
    && IsRun(es) && Timed(es, times) && ClockedSnapshots(es, times) && SaneClock(times) && SavesSucceed(es)
    && Serving(es, times, d.start, d.gap, d.pass) && d.add + d.gap + 2 * d.pass <= SLACK * NS_PER_S
  }

  /** A record accepted by event a, within the add delay of an arrival whose true latency is in 0 to 768 s. */
  ghost predicate AcceptedAt(es: seq<Event>, times: seq<int>, d: Delays, genesis: nat, rec: Record, a: nat)
    requires Healthy(es, times, d)
  {
    && a < |es| && es[a].Process? && IsRun(es[..a + 1]) && rec in After(es[..a + 1]).accepted
    && rec.arrival <= times[a] <= rec.arrival + d.add
    && 0 <= TrueDelayNs(genesis, rec.slot, rec.arrival) < 768 * NS_PER_S
  }

  ghost predicate Timely(es: seq<Event>, times: seq<int>, d: Delays, genesis: nat, rec: Record)
    requires Healthy(es, times, d)
  {
    exists a :: AcceptedAt(es, times, d, genesis, rec, a)
  }

  lemma TimelySlotIsOnClock(es: seq<Event>, times: seq<int>, d: Delays, genesis: nat, rec: Record, a: nat)
    requires Healthy(es, times, d) && genesis >= 24 && AcceptedAt(es, times, d, genesis, rec, a)
    ensures rec.slot <= MAX_CLOCK_SLOT
  {
    assert InClockRange(times[a] / NS_PER_S);
  }

  /** A timely record is among the saved records at the trigger of its hour's run, with an admitted latency. */
  lemma SavedAtTrigger(es: seq<Event>, times: seq<int>, d: Delays, genesis: nat, rec: Record, now: int, m: nat)
    requires Healthy(es, times, d) && genesis >= 24 && Timely(es, times, d, genesis, rec)
    requires InWindow(now, SlotStart(genesis, rec.slot)) && now * NS_PER_S <= times[|es| - 1] && CutAt(times, now, m)
    ensures IsRun(es[..m]) && rec in After(es[..m]).saved && rec.slot <= MAX_CLOCK_SLOT
    ensures LatencyMs(genesis, rec.slot, rec.arrival) < LATENCY_LIMIT_MS
  {
    var a :| AcceptedAt(es, times, d, genesis, rec, a);
    TimelySlotIsOnClock(es, times, d, genesis, rec, a);
    var j := NoRowMissesItsRollup(es, times, genesis, a, rec, d.add, d.start, d.gap, d.pass, now);
    BeforeTheCut(times, now, m, j);
    SavedStays(es, j + 1, m, rec);
  }

  /**
   * The row of a timely record is in the table when its hour's run triggers, and the run aggregates it
   * if and only if the hour is complete for the node by then.
   */
  lemma RecordIsAggregatedIff(es: seq<Event>, times: seq<int>, d: Delays, node: Node, rec: Record,
                              now: int, m: nat, table: seq<Row>)
    requires Healthy(es, times, d) && node.genesis >= 24 && Timely(es, times, d, node.genesis, rec)
    requires InWindow(now, SlotStart(node.genesis, rec.slot))
    requires now * NS_PER_S <= times[|es| - 1] && CutAt(times, now, m)
    requires IsRun(es[..m]) && TableHolds(table, After(es[..m]), node)
    requires ForeignOnGrid(table, After(es[..m]), node) && node.genesis <= CurrentHour(now) - 2 * HOUR
    ensures rec in After(es[..m]).seen
    ensures var row := RowOf(node, rec, After(es[..m]).seen[rec]);
            && row in table
            && (Selected(table, now, row) <==>
                HourCovered(table, node.genesis, node.alias, CurrentHour(now) - 2 * HOUR))
  {
    SavedAtTrigger(es, times, d, node.genesis, rec, now, m);
    AliasIsOnGrid(es, times, node, m, table);
    ClockSlotRow(node, rec, After(es[..m]).seen[rec]);
    SelectedIffCovered(table, node.genesis, now, RowOf(node, rec, After(es[..m]).seen[rec]));
  }

  /** The node accepted a timely record for every slot of the hour. */
  ghost predicate EverySlotTimely(es: seq<Event>, times: seq<int>, d: Delays, genesis: nat, hour: int)
    requires Healthy(es, times, d)
  {
    forall t :: hour <= t < hour + HOUR && OnGrid(genesis, t) ==>
      exists rec :: Timely(es, times, d, genesis, rec) && SlotStart(genesis, rec.slot) == t
  }

  /**
   * Gossip to rollup: if every slot of an hour had one timely record, the hour's one run aggregates
   * the row of every timely record of that hour.
   */
  lemma TimelyHourIsAggregated(es: seq<Event>, times: seq<int>, d: Delays, node: Node, rec: Record,
                               now: int, m: nat, table: seq<Row>)
    requires Healthy(es, times, d) && node.genesis >= 24 && Timely(es, times, d, node.genesis, rec)
    requires InWindow(now, SlotStart(node.genesis, rec.slot))
    requires now * NS_PER_S <= times[|es| - 1] && CutAt(times, now, m)
    requires IsRun(es[..m]) && TableHolds(table, After(es[..m]), node)
    requires ForeignOnGrid(table, After(es[..m]), node) && node.genesis <= CurrentHour(now) - 2 * HOUR
    requires EverySlotTimely(es, times, d, node.genesis, CurrentHour(now) - 2 * HOUR)
    ensures rec in After(es[..m]).seen && Selected(table, now, RowOf(node, rec, After(es[..m]).seen[rec]))
  {
    RecordIsAggregatedIff(es, times, d, node, rec, now, m, table);
    TimelyHourIsCovered(es, times, d, node, now, m, table);
  }

  lemma TimelyHourIsCovered(es: seq<Event>, times: seq<int>, d: Delays, node: Node, now: int, m: nat, table: seq<Row>)
    requires Healthy(es, times, d) && node.genesis >= 24
    requires now * NS_PER_S <= times[|es| - 1] && CutAt(times, now, m)
    requires IsRun(es[..m]) && TableHolds(table, After(es[..m]), node)
    requires EverySlotTimely(es, times, d, node.genesis, CurrentHour(now) - 2 * HOUR)
    ensures HourCovered(table, node.genesis, node.alias, CurrentHour(now) - 2 * HOUR)
  {
    var hour := CurrentHour(now) - 2 * HOUR;
    forall t | hour <= t < hour + HOUR && OnGrid(node.genesis, t)
      ensures exists row :: row in table && row.alias == node.alias && row.slotStart == t
    {
      var other :| Timely(es, times, d, node.genesis, other) && SlotStart(node.genesis, other.slot) == t;
      SavedAtTrigger(es, times, d, node.genesis, other, now, m);
      ClockSlotRow(node, other, After(es[..m]).seen[other]);
      assert RowOf(node, other, After(es[..m]).seen[other]) in table;
    }
  }

  // ---------------------------------------------------------------- what a run counts for the node

  /** The rows of one alias, in table order. */
  function AliasRows(table: seq<Row>, alias: string): seq<Row> {
    if table == [] then []
    else
      var n := |table| - 1;
      AliasRows(table[..n], alias) + if table[n].alias == alias then [table[n]] else []
  }

  /** `sum(seen_count)` of a run over the first m rows, all groups of one alias together. */
  function AliasTotal(table: seq<Row>, now: int, alias: string, m: nat): int
    requires m <= |table|
  {
    if m == 0 then 0
    else AliasTotal(table, now, alias, m - 1)
         + if table[m - 1].alias == alias && Selected(table, now, table[m - 1]) then table[m - 1].seenCount else 0
  }

  /** The same over a list of rows judged by the table. */
  function SelectedSum(rows: seq<Row>, table: seq<Row>, now: int): int {
    if rows == [] then 0
    else
      var n := |rows| - 1;
      SelectedSum(rows[..n], table, now) + if Selected(table, now, rows[n]) then rows[n].seenCount else 0
  }

  lemma {:induction false} AliasTotalIsSum(table: seq<Row>, now: int, alias: string, m: nat)
    requires m <= |table|
    ensures AliasTotal(table, now, alias, m) == SelectedSum(AliasRows(table[..m], alias), table, now)
  {
    if m > 0 {
      AliasTotalIsSum(table, now, alias, m - 1);
      assert table[..m][..m - 1] == table[..m - 1];
      var rows := AliasRows(table[..m - 1], alias);
      if table[m - 1].alias == alias {
        assert (rows + [table[m - 1]])[..|rows|] == rows;
      } else {
        assert rows + [] == rows;
      }
    }
  }

  /** The alias's rows are those of the node's saved records, each stored once, in some order. */
  ghost predicate StoredOnce(table: seq<Row>, s: State, node: Node, own: seq<Record>) {
    && Distinct(own) && Elems(own) == s.saved
    && |AliasRows(table, node.alias)| == |own|
    && forall i :: 0 <= i < |own| ==>
         own[i] in s.seen && AliasRows(table, node.alias)[i] == RowOf(node, own[i], s.seen[own[i]])
  }

  /** The arrivals, each up to its pop, of those of the first m records that are of the run's hour and not too late. */
  function HourArrivals(es: seq<Event>, genesis: int, own: seq<Record>, now: int, m: nat): int
    requires m <= |own|
  {
    if m == 0 then 0
    else
      var rec := own[m - 1];
      HourArrivals(es, genesis, own, now, m - 1)
      + if InWindow(now, genesis + 12 * rec.slot) && LatencyMs(genesis, rec.slot, rec.arrival) < 768000
        then ArrivalsAtPop(es, rec) % TWO32 else 0
  }

  lemma {:induction false} AliasRowsAre(table: seq<Row>, alias: string, row: Row)
    ensures row in AliasRows(table, alias) <==> row in table && row.alias == alias
  {
    if table != [] {
      var n := |table| - 1;
      AliasRowsAre(table[..n], alias, row);
      assert table == table[..n] + [table[n]];
    }
  }

  lemma StoredOnceHolds(table: seq<Row>, s: State, node: Node, own: seq<Record>)
    requires StoredOnce(table, s, node, own)
    ensures TableHolds(table, s, node) && ForeignOnGrid(table, s, node)
  {
    var rows := AliasRows(table, node.alias);
    forall rec | rec in s.saved ensures rec in s.seen && RowOf(node, rec, s.seen[rec]) in table {
      assert rec in Elems(own);
      var i :| 0 <= i < |own| && own[i] == rec;
      assert rows[i] in rows;
      AliasRowsAre(table, node.alias, rows[i]);
    }
    forall row | row in table && row.alias == node.alias ensures IsOwnRow(row, s, node) {
      AliasRowsAre(table, node.alias, row);
      var i :| 0 <= i < |rows| && rows[i] == row;
      assert own[i] in Elems(own);
    }
  }

  lemma OwnRowCounts(es: seq<Event>, times: seq<int>, node: Node, rec: Record, now: int, table: seq<Row>)
    requires IsRun(es) && Timed(es, times) && ClockedSnapshots(es, times) && SaneClock(times) && Disciplined(es)
    requires AliasOnGrid(table, node.genesis, node.alias) && node.genesis <= CurrentHour(now) - 2 * HOUR
    requires rec in After(es).saved && rec in After(es).seen
    ensures var row := RowOf(node, rec, After(es).seen[rec]);
            && row.seenCount == ArrivalsAtPop(es, rec) % TWO32
            && (Selected(table, now, row) <==>
                && HourCovered(table, node.genesis, node.alias, CurrentHour(now) - 2 * HOUR)
                && InWindow(now, node.genesis + 12 * rec.slot)
                && LatencyMs(node.genesis, rec.slot, rec.arrival) < 768000)
  {
    var row := RowOf(node, rec, After(es).seen[rec]);
    SeenIsArrivalsAtPop(es, rec);
    SavedRowsAreOnGrid(es, times, node, rec, After(es).seen[rec]);
    ClockSlotRow(node, rec, After(es).seen[rec]);
    if InWindow(now, row.slotStart) && row.latencyMs < LATENCY_LIMIT_MS {
      SelectedIffCovered(table, node.genesis, now, row);
    }
  }

  lemma {:induction false} OwnSum(es: seq<Event>, times: seq<int>, node: Node, own: seq<Record>, now: int,
                                  table: seq<Row>, rows: seq<Row>)
    requires IsRun(es) && Timed(es, times) && ClockedSnapshots(es, times) && SaneClock(times) && Disciplined(es)
    requires AliasOnGrid(table, node.genesis, node.alias) && node.genesis <= CurrentHour(now) - 2 * HOUR
    requires |rows| <= |own| && forall i :: 0 <= i < |own| ==> own[i] in After(es).saved && own[i] in After(es).seen
    requires forall i :: 0 <= i < |rows| ==> rows[i] == RowOf(node, own[i], After(es).seen[own[i]])
    ensures SelectedSum(rows, table, now) ==
      if HourCovered(table, node.genesis, node.alias, CurrentHour(now) - 2 * HOUR)
      then HourArrivals(es, node.genesis, own, now, |rows|) else 0
  {
    if rows != [] {
      var n := |rows| - 1;
      OwnSum(es, times, node, own, now, table, rows[..n]);
      OwnRowCounts(es, times, node, own[n], now, table);
    }
  }

  /**
   * The number the pipeline exists for: in a disciplined run whose saved records are stored once each, the
   * hourly run counts for the node exactly the arrivals, up to their pops, of its records of the hour
   * that are not too late, if the hour is complete for the node, and nothing otherwise.
   */
  lemma HourTotalIsArrivals(es: seq<Event>, times: seq<int>, node: Node, own: seq<Record>, now: int, table: seq<Row>)
    requires IsRun(es) && Timed(es, times) && ClockedSnapshots(es, times) && SaneClock(times) && Disciplined(es)
    requires StoredOnce(table, After(es), node, own) && node.genesis <= CurrentHour(now) - 2 * HOUR
    ensures AliasTotal(table, now, node.alias, |table|) ==
      if HourCovered(table, node.genesis, node.alias, CurrentHour(now) - 2 * HOUR)
      then HourArrivals(es, node.genesis, own, now, |own|) else 0
  {
    var s := After(es);
    StoredOnceHolds(table, s, node, own);
    assert es[..|es|] == es && times[..|es|] == times;
    AliasIsOnGrid(es, times, node, |es|, table);
    forall i | 0 <= i < |own| ensures own[i] in s.saved {
      assert own[i] in Elems(own);
    }
    AliasTotalIsSum(table, now, node.alias, |table|);
    assert table[..|table|] == table;
    OwnSum(es, times, node, own, now, table, AliasRows(table, node.alias));
  }

  lemma PrefixIsClocked(es: seq<Event>, times: seq<int>, m: nat)
    requires Timed(es, times) && ClockedSnapshots(es, times) && SaneClock(times) && m <= |es|
    ensures Timed(es[..m], times[..m]) && ClockedSnapshots(es[..m], times[..m]) && SaneClock(times[..m])
  {
  }

  lemma CoveredHourTotal(es: seq<Event>, times: seq<int>, node: Node, own: seq<Record>,
                         now: int, m: nat, table: seq<Row>)
    requires IsRun(es) && Timed(es, times) && ClockedSnapshots(es, times) && SaneClock(times) && Disciplined(es)
    requires m <= |es| && IsRun(es[..m]) && StoredOnce(table, After(es[..m]), node, own)
    requires node.genesis <= CurrentHour(now) - 2 * HOUR
    requires HourCovered(table, node.genesis, node.alias, CurrentHour(now) - 2 * HOUR)
    ensures AliasTotal(table, now, node.alias, |table|) == HourArrivals(es[..m], node.genesis, own, now, |own|)
  {
    PrefixDisciplined(es, m);
    PrefixIsClocked(es, times, m);
    HourTotalIsArrivals(es[..m], times[..m], node, own, now, table);
  }

  /** With a timely record for every slot of the hour, the hour's arrivals are counted. */
  lemma TimelyHourTotal(es: seq<Event>, times: seq<int>, d: Delays, node: Node, own: seq<Record>,
                        now: int, m: nat, table: seq<Row>)
    requires Healthy(es, times, d) && Disciplined(es) && node.genesis >= 24
    requires now * NS_PER_S <= times[|es| - 1] && CutAt(times, now, m) && IsRun(es[..m])
    requires StoredOnce(table, After(es[..m]), node, own) && node.genesis <= CurrentHour(now) - 2 * HOUR
    requires EverySlotTimely(es, times, d, node.genesis, CurrentHour(now) - 2 * HOUR)
    ensures AliasTotal(table, now, node.alias, |table|) == HourArrivals(es[..m], node.genesis, own, now, |own|)
  {
    StoredOnceHolds(table, After(es[..m]), node, own);
    TimelyHourIsCovered(es, times, d, node, now, m, table);
    CoveredHourTotal(es, times, node, own, now, m, table);
  }

  /**
   * The premises can be met: the run of one message of slot 0, all of it in second 24, is healthy and
   * disciplined, and a table with the message's row stores its records once.
   */
  lemma PremisesCanBeMet(raw: seq<u8>, node: Node, d: Delays)
    returns (es: seq<Event>, times: seq<int>, own: seq<Record>, table: seq<Row>)
    requires d.add >= 0 && d.start == 24 * NS_PER_S && d.gap > 0 && d.pass > 0
    requires d.add + d.gap + 2 * d.pass <= SLACK * NS_PER_S
    ensures Healthy(es, times, d) && Disciplined(es)
    ensures |own| == 1 && StoredOnce(table, After(es), node, own)
  {
    var rec;
    es, rec := OneMessage(raw, 24 * NS_PER_S);
    times := seq(|es|, _ => 24 * NS_PER_S);
    CountedFromTheStart(es, raw);
    own, table := [rec], [RowOf(node, rec, After(es).seen[rec])];
    assert table[..0] == [] && AliasRows(table, node.alias) == table;
    assert Elems(own) == {rec};
    assert times[|es| - 1] == times[0] == d.start;
  }
}
