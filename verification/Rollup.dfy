/** The hourly materialized-view query: its window, its completeness subquery and its row filter. */
module Rollup {
  import opened Collections
  import opened SlotTime

  /** The columns of `slot_message_stats` the query reads. Times are Unix seconds. */
  datatype Row = Row(slotStart: int, alias: string, region: string, topicGroup: string, topic: string,
                     latencyMs: int, sizeBytes: nat, seenCount: nat)

  const HOUR: int := 3600
  const SLOTS_PER_HOUR: int := 300

  function StartOfHour(t: int): int {
    t - t % HOUR
  }

  /** `toStartOfHour(now() + INTERVAL 1 MINUTE)`. */
  function CurrentHour(now: int): int {
    StartOfHour(now + 60)
  }

  predicate InWindow(now: int, t: int) {
    CurrentHour(now) - 2 * HOUR <= t < CurrentHour(now) - HOUR
  }

  /** The distinct slot starts the subquery counts for one alias and hour. */
  function SlotStarts(table: seq<Row>, now: int, alias: string, hour: int): set<int> {
    set row | row in table && row.alias == alias && InWindow(now, row.slotStart) && StartOfHour(row.slotStart) == hour
      :: row.slotStart
  }

  /** The rows one run aggregates. */
  predicate Selected(table: seq<Row>, now: int, row: Row) {
    && InWindow(now, row.slotStart)
    && |SlotStarts(table, now, row.alias, StartOfHour(row.slotStart))| == SLOTS_PER_HOUR
    && row.latencyMs < LATENCY_LIMIT_MS
  }

  // ---------------------------------------------------------------- the slot grid

  predicate OnGrid(genesis: int, t: int) {
    genesis <= t && (t - genesis) % SECONDS_PER_SLOT == 0
  }

  function GridIn(genesis: int, lo: int, hi: int): set<int> {
    set t | lo <= t < hi && OnGrid(genesis, t)
  }

  /** On the grid means being the start of some slot. */
  lemma OnGridIffSlotStart(genesis: int, t: int)
    ensures OnGrid(genesis, t) <==> exists slot: nat :: SlotStart(genesis, slot) == t
  {
    if OnGrid(genesis, t) {
      var slot: nat := (t - genesis) / SECONDS_PER_SLOT;
      assert SlotStart(genesis, slot) == t;
    }
  }

  /** n slot lengths after genesis hold n slot starts, wherever they begin. */
  lemma {:induction false} GridCount(genesis: int, lo: int, n: nat)
    requires genesis <= lo
    ensures |GridIn(genesis, lo, lo + SECONDS_PER_SLOT * n)| == n
  {
    if n == 0 {
      assert GridIn(genesis, lo, lo) == {};
    } else {
      var hi := lo + SECONDS_PER_SLOT * (n - 1);
      GridCount(genesis, lo, n - 1);
      var last := OnePointPerSlot(genesis, hi);
      assert GridIn(genesis, lo, hi + SECONDS_PER_SLOT) == GridIn(genesis, lo, hi) + {last};
    }
  }

  lemma OnePointPerSlot(genesis: int, lo: int) returns (point: int)
    requires genesis <= lo
    ensures lo <= point < lo + SECONDS_PER_SLOT && OnGrid(genesis, point)
    ensures forall t :: lo <= t < lo + SECONDS_PER_SLOT && OnGrid(genesis, t) ==> t == point
  {
    point := lo + (genesis - lo) % SECONDS_PER_SLOT;
  }

  lemma SamePhase(genesis: int, early: int, t: int)
    requires (genesis - early) % SECONDS_PER_SLOT == 0 && early <= t
    ensures OnGrid(genesis, t) <==> genesis <= t && OnGrid(early, t)
  {
    assert t - early == (t - genesis) + (genesis - early);
  }

  /** A full hour has exactly 300 slot starts if and only if genesis is before its first slot boundary. */
  lemma HourHas300SlotsIff(genesis: int, hour: int)
    ensures |GridIn(genesis, hour, hour + HOUR)| == SLOTS_PER_HOUR <==> genesis < hour + SECONDS_PER_SLOT
  {
    var early := hour - (hour - genesis) % SECONDS_PER_SLOT; // a grid point of the same phase, at or before the hour
    var mine, all := GridIn(genesis, hour, hour + HOUR), GridIn(early, hour, hour + HOUR);
    GridCount(early, hour, SLOTS_PER_HOUR);
    forall t | hour <= t ensures OnGrid(genesis, t) <==> genesis <= t && OnGrid(early, t) {
      SamePhase(genesis, early, t);
    }
    assert mine <= all;
    var first := OnePointPerSlot(early, hour);
    assert first in all;
    if genesis < hour + SECONDS_PER_SLOT {
      NoneBefore(genesis, early, hour);
      assert mine == all;
    } else {
      assert first !in mine;
      SubsetSize(mine, all - {first});
    }
  }

  lemma NoneBefore(genesis: int, early: int, hour: int)
    requires early <= hour && (genesis - early) % SECONDS_PER_SLOT == 0 && genesis < hour + SECONDS_PER_SLOT
    ensures forall t :: hour <= t && OnGrid(early, t) ==> genesis <= t
  {
    forall t | hour <= t && OnGrid(early, t) ensures genesis <= t {
      assert (t - genesis) % SECONDS_PER_SLOT == 0 by { assert t - early == (t - genesis) + (genesis - early); }
    }
  }

  ghost predicate TableOnGrid(table: seq<Row>, genesis: int) {
    forall row :: row in table ==> OnGrid(genesis, row.slotStart)
  }

  ghost predicate AliasOnGrid(table: seq<Row>, genesis: int, alias: string) {
    forall row :: row in table && row.alias == alias ==> OnGrid(genesis, row.slotStart)
  }

  /** Every slot of the hour has a stored row of this alias. */
  ghost predicate HourCovered(table: seq<Row>, genesis: int, alias: string, hour: int) {
    forall t :: hour <= t < hour + HOUR && OnGrid(genesis, t) ==>
      exists row :: row in table && row.alias == alias && row.slotStart == t
  }

  lemma StartOfHourIn(hour: int, t: int)
    requires hour % HOUR == 0 && hour <= t < hour + HOUR
    ensures StartOfHour(t) == hour
  {
  }

  /** The slot starts the subquery finds are the hour's grid points that have a row. */
  lemma StoredStarts(table: seq<Row>, genesis: int, now: int, alias: string, t: int)
    requires AliasOnGrid(table, genesis, alias)
    ensures var hour := CurrentHour(now) - 2 * HOUR;
            t in SlotStarts(table, now, alias, hour) <==>
              (t in GridIn(genesis, hour, hour + HOUR)
               && exists row :: row in table && row.alias == alias && row.slotStart == t)
  {
    var hour := CurrentHour(now) - 2 * HOUR;
    if hour <= t < hour + HOUR {
      StartOfHourIn(hour, t);
    }
  }

  /** `count(DISTINCT slot_start_time) = 300` means that no slot of the hour is missing. */
  lemma CompletenessCountIsCoverage(table: seq<Row>, genesis: int, now: int, alias: string)
    requires AliasOnGrid(table, genesis, alias)
    requires genesis <= CurrentHour(now) - 2 * HOUR
    ensures |SlotStarts(table, now, alias, CurrentHour(now) - 2 * HOUR)| == SLOTS_PER_HOUR
       <==> HourCovered(table, genesis, alias, CurrentHour(now) - 2 * HOUR)
  {
    var hour := CurrentHour(now) - 2 * HOUR;
    var stored, grid := SlotStarts(table, now, alias, hour), GridIn(genesis, hour, hour + HOUR);
    assert |grid| == SLOTS_PER_HOUR by { HourHas300SlotsIff(genesis, hour); }
    forall t ensures t in stored <==>
        (t in grid && exists row :: row in table && row.alias == alias && row.slotStart == t)
    {
      StoredStarts(table, genesis, now, alias, t);
    }
    SubsetSize(stored, grid);
    if HourCovered(table, genesis, alias, hour) {
      assert stored == grid;
    }
    if stored == grid {
      forall t | hour <= t < hour + HOUR && OnGrid(genesis, t)
        ensures exists row :: row in table && row.alias == alias && row.slotStart == t
      {
        assert t in grid;
      }
    }
  }

  // ---------------------------------------------------------------- hourly runs

  /** Run i is meant for hour mark firstHour + i; the one-minute margin shifts its trigger range. */
  ghost predicate OnSchedule(triggers: seq<int>, firstHour: int) {
    forall i :: 0 <= i < |triggers| ==>
      HOUR * (firstHour + i) - 60 <= triggers[i] < HOUR * (firstHour + i) + 3540
  }

  /** A run reads exactly hour h - 2 if and only if it triggers from 60 s before to 3540 s after mark h. */
  lemma TriggerRange(now: int, h: int)
    ensures (forall t :: InWindow(now, t) <==> HOUR * (h - 2) <= t < HOUR * (h - 1))
       <==> HOUR * h - 60 <= now < HOUR * h + 3540
  {
    var c := CurrentHour(now);
    if HOUR * h - 60 <= now < HOUR * h + 3540 {
      assert c == HOUR * h;
    } else {
      assert c != HOUR * h;
      assert InWindow(now, c - 2 * HOUR) && InWindow(now, c - HOUR - 1);
    }
  }

  /** Which run considers a slot start. */
  function RunOf(firstHour: int, t: int): int {
    t / HOUR + 2 - firstHour
  }

  /** Tiling: every instant is in the window of exactly one run of the schedule, with no gap or overlap. */
  lemma WindowsTile(triggers: seq<int>, firstHour: int, t: int, i: int)
    requires OnSchedule(triggers, firstHour) && 0 <= i < |triggers|
    ensures InWindow(triggers[i], t) <==> i == RunOf(firstHour, t)
  {
    TriggerRange(triggers[i], firstHour + i);
    assert InWindow(triggers[i], t) <==> HOUR * (firstHour + i - 2) <= t < HOUR * (firstHour + i - 1);
  }

  /** A run selects a row exactly if it is the run of the row's hour, the hour is complete and the latency counts. */
  lemma SelectedIff(table: seq<Row>, genesis: int, triggers: seq<int>, firstHour: int, i: int, row: Row)
    requires OnSchedule(triggers, firstHour) && TableOnGrid(table, genesis) && genesis <= HOUR * (firstHour - 2)
    requires 0 <= i < |triggers|
    ensures Selected(table, triggers[i], row) <==>
      (i == RunOf(firstHour, row.slotStart)
       && HourCovered(table, genesis, row.alias, StartOfHour(row.slotStart))
       && row.latencyMs < LATENCY_LIMIT_MS)
  {
    WindowsTile(triggers, firstHour, row.slotStart, i);
    if InWindow(triggers[i], row.slotStart) {
      assert StartOfHour(row.slotStart) == CurrentHour(triggers[i]) - 2 * HOUR;
      assert CurrentHour(triggers[i]) == HOUR * (firstHour + i);
      CompletenessCountIsCoverage(table, genesis, triggers[i], row.alias);
    }
  }

  /** The same for a single trigger. */
  lemma SelectedIffCovered(table: seq<Row>, genesis: int, now: int, row: Row)
    requires AliasOnGrid(table, genesis, row.alias) && genesis <= CurrentHour(now) - 2 * HOUR
    requires InWindow(now, row.slotStart) && row.latencyMs < LATENCY_LIMIT_MS
    ensures Selected(table, now, row) <==> HourCovered(table, genesis, row.alias, CurrentHour(now) - 2 * HOUR)
  {
    assert StartOfHour(row.slotStart) == CurrentHour(now) - 2 * HOUR;
    CompletenessCountIsCoverage(table, genesis, now, row.alias);
  }

  // ---------------------------------------------------------------- totals over a growing table

  /**
   * One history of the view: run i triggers at triggers[i] on tables[i]; rows are only appended, so
   * every table is a prefix of the final one.
   */
  datatype History = History(genesis: int, firstHour: int, triggers: seq<int>, tables: seq<seq<Row>>, final: seq<Row>)

  ghost predicate ValidHistory(h: History) {
    && OnSchedule(h.triggers, h.firstHour) && h.genesis <= HOUR * (h.firstHour - 2)
    && |h.tables| == |h.triggers| && TableOnGrid(h.final, h.genesis)
    && forall i :: 0 <= i < |h.tables| ==> h.tables[i] <= h.final
  }

  /** `sum(seen_count)` over the first m rows of the table that the run selects, all groups together. */
  function RunTotal(table: seq<Row>, now: int, m: nat): int
    requires m <= |table|
  {
    if m == 0 then 0
    else RunTotal(table, now, m - 1) + if Selected(table, now, table[m - 1]) then table[m - 1].seenCount else 0
  }

  /** What the first n runs count together, each on the table of its own time. */
  function ScheduleTotal(h: History, n: nat): int
    requires n <= |h.tables| == |h.triggers|
  {
    if n == 0 then 0
    else ScheduleTotal(h, n - 1) + RunTotal(h.tables[n - 1], h.triggers[n - 1], |h.tables[n - 1]|)
  }

  /** The run of row x's hour. */
  function RunOfRow(h: History, x: nat): int
    requires x < |h.final|
  {
    RunOf(h.firstHour, h.final[x].slotStart)
  }

  /** Row x was stored before the run of its hour, and by then every slot of the hour had a row of its alias. */
  ghost predicate InTime(h: History, x: nat)
    requires x < |h.final|
  {
    var i := RunOfRow(h, x);
    && 0 <= i < |h.tables| && x < |h.tables[i]|
    && HourCovered(h.tables[i], h.genesis, h.final[x].alias, StartOfHour(h.final[x].slotStart))
  }

  /** What the first n runs should count of row x. */
  ghost function Share(h: History, n: nat, x: nat): int
    requires x < |h.final|
  {
    if RunOfRow(h, x) < n && InTime(h, x) && h.final[x].latencyMs < LATENCY_LIMIT_MS then h.final[x].seenCount else 0
  }

  ghost function InTimeTotal(h: History, n: nat, m: nat): int
    requires m <= |h.final|
  {
    if m == 0 then 0 else InTimeTotal(h, n, m - 1) + Share(h, n, m - 1)
  }

  /** What run i counts of row x of the final table: nothing if the row was not stored by then. */
  function Cell(h: History, i: nat, x: nat): int
    requires i < |h.tables| == |h.triggers| && x < |h.final|
  {
    if x < |h.tables[i]| && Selected(h.tables[i], h.triggers[i], h.final[x]) then h.final[x].seenCount else 0
  }

  function CellSum(h: History, i: nat, m: nat): int
    requires i < |h.tables| == |h.triggers| && m <= |h.final|
  {
    if m == 0 then 0 else CellSum(h, i, m - 1) + Cell(h, i, m - 1)
  }

  lemma {:induction false} CellSumIsRunTotal(h: History, i: nat, m: nat)
    requires ValidHistory(h) && i < |h.tables| && m <= |h.final|
    ensures CellSum(h, i, m) ==
      RunTotal(h.tables[i], h.triggers[i], if m <= |h.tables[i]| then m else |h.tables[i]|)
  {
    if m > 0 {
      CellSumIsRunTotal(h, i, m - 1);
      if m <= |h.tables[i]| {
        assert h.tables[i][m - 1] == h.final[m - 1];
      }
    }
  }

  /** The sum over runs of the first m rows' cells. */
  function GridSum(h: History, n: nat, m: nat): int
    requires n <= |h.tables| == |h.triggers| && m <= |h.final|
  {
    if n == 0 then 0 else GridSum(h, n - 1, m) + CellSum(h, n - 1, m)
  }

  lemma {:induction false} GridSumIsScheduleTotal(h: History, n: nat)
    requires ValidHistory(h) && n <= |h.tables|
    ensures GridSum(h, n, |h.final|) == ScheduleTotal(h, n)
  {
    if n > 0 {
      GridSumIsScheduleTotal(h, n - 1);
      CellSumIsRunTotal(h, n - 1, |h.final|);
    }
  }

  /** Run i adds row x's share if it is the run of the row's hour. */
  lemma CellIsShare(h: History, i: nat, x: nat)
    requires ValidHistory(h) && i < |h.tables| && x < |h.final|
    ensures Share(h, i, x) + Cell(h, i, x) == Share(h, i + 1, x)
  {
    assert TableOnGrid(h.tables[i], h.genesis);
    SelectedIff(h.tables[i], h.genesis, h.triggers, h.firstHour, i, h.final[x]);
  }

  /** One more row adds its seen_count exactly once over all runs if it was in time, and nothing otherwise. */
  lemma {:induction false} RowAddsOnce(h: History, n: nat, m: nat)
    requires ValidHistory(h) && n <= |h.tables| && m < |h.final|
    ensures GridSum(h, n, m + 1) == GridSum(h, n, m) + Share(h, n, m)
  {
    if n > 0 {
      RowAddsOnce(h, n - 1, m);
      CellIsShare(h, n - 1, m);
    }
  }

  lemma {:induction false} GridSumIsInTimeTotal(h: History, n: nat, m: nat)
    requires ValidHistory(h) && n <= |h.tables| && m <= |h.final|
    ensures GridSum(h, n, m) == InTimeTotal(h, n, m)
  {
    if m == 0 {
      NoRows(h, n);
    } else {
      GridSumIsInTimeTotal(h, n, m - 1);
      RowAddsOnce(h, n, m - 1);
    }
  }

  lemma {:induction false} NoRows(h: History, n: nat)
    requires n <= |h.tables| == |h.triggers|
    ensures GridSum(h, n, 0) == 0
  {
    if n > 0 {
      NoRows(h, n - 1);
    }
  }

  /**
   * Conservation across runs while the table grows: summed over a schedule, the rollups count the
   * seen_count of every admissible row that was in time exactly once, and nothing else.
   */
  lemma RollupsCountEachRowOnce(h: History)
    requires ValidHistory(h)
    ensures ScheduleTotal(h, |h.tables|) == InTimeTotal(h, |h.tables|, |h.final|)
  {
    GridSumIsScheduleTotal(h, |h.tables|);
    GridSumIsInTimeTotal(h, |h.tables|, |h.final|);
  }

  // ---------------------------------------------------------------- what a late row costs

  /** Row x counts if one judges by the final table: its hour is complete, its latency counts, a run covers it. */
  ghost predicate Eligible(h: History, x: nat)
    requires x < |h.final|
  {
    && 0 <= RunOfRow(h, x) < |h.tables|
    && HourCovered(h.final, h.genesis, h.final[x].alias, StartOfHour(h.final[x].slotStart))
    && h.final[x].latencyMs < LATENCY_LIMIT_MS
  }

  ghost function EligibleTotal(h: History, m: nat): int
    requires m <= |h.final|
  {
    if m == 0 then 0
    else EligibleTotal(h, m - 1) + if Eligible(h, m - 1) then h.final[m - 1].seenCount else 0
  }

  lemma InTimeIsEligible(h: History, x: nat)
    requires ValidHistory(h) && x < |h.final| && InTime(h, x) && h.final[x].latencyMs < LATENCY_LIMIT_MS
    ensures Eligible(h, x)
  {
    var i, row := RunOfRow(h, x), h.final[x];
    var hour := StartOfHour(row.slotStart);
    forall t | hour <= t < hour + HOUR && OnGrid(h.genesis, t)
      ensures exists other :: other in h.final && other.alias == row.alias && other.slotStart == t
    {
      var other :| other in h.tables[i] && other.alias == row.alias && other.slotStart == t;
      assert other in h.final;
    }
  }

  /** Row x weighs something and the final table would count it, but it was not in time. */
  ghost predicate Lost(h: History, x: nat)
    requires x < |h.final|
  {
    Eligible(h, x) && h.final[x].seenCount > 0 && !InTime(h, x)
  }

  /** What the rows of the first m lose together. */
  ghost function LostTotal(h: History, m: nat): nat
    requires m <= |h.final|
  {
    if m == 0 then 0 else LostTotal(h, m - 1) + if Lost(h, m - 1) then h.final[m - 1].seenCount else 0
  }

  lemma LastRow(h: History, x: nat)
    requires ValidHistory(h) && x < |h.final|
    ensures (if Eligible(h, x) then h.final[x].seenCount else 0)
         == Share(h, |h.tables|, x) + if Lost(h, x) then h.final[x].seenCount else 0
  {
    if InTime(h, x) && h.final[x].latencyMs < LATENCY_LIMIT_MS {
      InTimeIsEligible(h, x);
    }
  }

  lemma {:induction false} EligibleIsInTimePlusLost(h: History, m: nat)
    requires ValidHistory(h) && m <= |h.final|
    ensures EligibleTotal(h, m) == InTimeTotal(h, |h.tables|, m) + LostTotal(h, m)
  {
    if m > 0 {
      EligibleIsInTimePlusLost(h, m - 1);
      LastRow(h, m - 1);
    }
  }

  lemma {:induction false} NothingLostIff(h: History, m: nat)
    requires m <= |h.final|
    ensures LostTotal(h, m) == 0 <==> forall x :: 0 <= x < m ==> !Lost(h, x)
  {
    if m > 0 {
      NothingLostIff(h, m - 1);
    }
  }

  /**
   * What the rollups count and what late rows lose is together what the final table justifies; nothing is
   * lost if and only if each row that matters was stored before its hour's run, as was a row of every
   * slot of its hour.
   */
  lemma RollupsMissNothingIff(h: History)
    requires ValidHistory(h)
    ensures ScheduleTotal(h, |h.tables|) + LostTotal(h, |h.final|) == EligibleTotal(h, |h.final|)
    ensures ScheduleTotal(h, |h.tables|) == EligibleTotal(h, |h.final|) <==>
            (forall x :: 0 <= x < |h.final| && Eligible(h, x) && h.final[x].seenCount > 0 ==> InTime(h, x))
  {
    RollupsCountEachRowOnce(h);
    EligibleIsInTimePlusLost(h, |h.final|);
    NothingLostIff(h, |h.final|);
    assert forall x :: 0 <= x < |h.final| ==>
      (Lost(h, x) <==> Eligible(h, x) && h.final[x].seenCount > 0 && !InTime(h, x));
  }

  /** No row of an hour is stored after that hour's run. */
  ghost predicate NoLateRows(h: History) {
    forall x :: 0 <= x < |h.final| && 0 <= RunOfRow(h, x) < |h.tables| ==> x < |h.tables[RunOfRow(h, x)]|
  }

  /** Without late rows nothing is lost. */
  lemma NoLateRowsLosesNothing(h: History)
    requires ValidHistory(h) && NoLateRows(h)
    ensures ScheduleTotal(h, |h.tables|) == EligibleTotal(h, |h.final|)
  {
    RollupsMissNothingIff(h);
    forall x | 0 <= x < |h.final| && Eligible(h, x) ensures InTime(h, x) {
      var i, row := RunOfRow(h, x), h.final[x];
      var hour := StartOfHour(row.slotStart);
      forall t | hour <= t < hour + HOUR && OnGrid(h.genesis, t)
        ensures exists other :: other in h.tables[i] && other.alias == row.alias && other.slotStart == t
      {
        var other :| other in h.final && other.alias == row.alias && other.slotStart == t;
        var y :| 0 <= y < |h.final| && h.final[y] == other;
        assert RunOfRow(h, y) == i;
        assert h.tables[i][y] == other;
      }
    }
  }

  /** One slot stored too late costs its alias the whole hour: no run ever counts any row of it. */
  lemma LateSlotLosesTheHour(h: History, t: int, row: Row, i: nat)
    requires ValidHistory(h) && i < |h.tables| && 0 <= RunOf(h.firstHour, t) < |h.tables|
    requires OnGrid(h.genesis, t) && StartOfHour(row.slotStart) == StartOfHour(t)
    requires !exists other ::
      other in h.tables[RunOf(h.firstHour, t)] && other.alias == row.alias && other.slotStart == t
    ensures !Selected(h.tables[i], h.triggers[i], row)
  {
    assert TableOnGrid(h.tables[i], h.genesis);
    SelectedIff(h.tables[i], h.genesis, h.triggers, h.firstHour, i, row);
    assert RunOf(h.firstHour, row.slotStart) == RunOf(h.firstHour, t);
  }
}
