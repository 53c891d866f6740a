/** The message processor's use of the two stores, one goroutine at a time. */
module Processor {
  import opened Collections
  import opened Ints
  import opened StoreSpec
  import opened SlotStores
  import SlotTime
  import Hex

  type Contents = Caches<SlotMessageStats>

  ghost function RecordsOf(contents: Contents, slots: set<u64>): set<SlotMessageStats> {
    set slot, id | slot in slots && slot in contents && id in contents[slot] :: contents[slot][id]
  }

  ghost function IdsOf(contents: Contents, slots: seq<u64>): set<string> {
    set slot, id | slot in slots && slot in contents && id in contents[slot] :: id
  }

  /** Each record of the slot exactly once, and at least one, so `stats[0]` exists. */
  ghost predicate IsBatch(stats: seq<SlotMessageStats>, contents: Contents, slot: u64) {
    Distinct(stats) && stats != [] && Elems(stats) == RecordsOf(contents, {slot})
  }

  /** One batch for each of the first k slots, in order. */
  ghost predicate AreBatches(batches: seq<seq<SlotMessageStats>>, contents: Contents, slots: seq<u64>, k: nat)
    requires k <= |slots|
  {
    |batches| == k && forall i {:trigger batches[i]} :: 0 <= i < k ==> IsBatch(batches[i], contents, slots[i])
  }

  lemma OneMoreBatch(batches: seq<seq<SlotMessageStats>>, stats: seq<SlotMessageStats>,
                     contents: Contents, slots: seq<u64>, k: nat)
    requires k < |slots| && AreBatches(batches, contents, slots, k) && IsBatch(stats, contents, slots[k])
    ensures AreBatches(batches + [stats], contents, slots, k + 1)
  {
  }

  /** What the record filed under the i-th slot gets: its counter, unless an earlier slot of the pass took it. */
  ghost function Due(contents: Contents, counts: Counts, slots: seq<u64>, i: nat, id: string): u32
    requires i <= |slots|
  {
    if id in IdsOf(contents, slots[..i]) then 1 else SeenCount(counts, id)
  }

  class BeaconMessageProcessor {
    const genesis: int
    const slotCache: SlotCacheStore
    const seenCounter: SeenCounter

    ghost predicate Valid()
      reads this, slotCache, slotCache.owned
    {
      slotCache.Valid() && WellFiled(slotCache.contents)
    }

    constructor (genesis: int)
      ensures Valid() && this.genesis == genesis
      ensures slotCache.contents == map[] && seenCounter.counts == map[]
      ensures fresh(slotCache) && fresh(seenCounter)
    {
      this.genesis := genesis;
      var cache := new SlotCacheStore();
      var counter := new SeenCounter();
      slotCache, seenCounter := cache, counter;
    }

    /** Files one fresh record under the message's slot and hexadecimal id. */
    method ProcessSlotMessage(raw: seq<u8>, slot: u64, arrival: int) returns (stat: SlotMessageStats, isNew: bool)
      requires Valid()
      modifies slotCache, slotCache.owned
      ensures Valid() && fresh(stat)
      ensures stat.slot == slot && stat.messageId == Hex.Encode(raw)
      ensures stat.latencyMs == SlotTime.LatencyMs(genesis, slot, arrival)
      ensures slot <= SlotTime.MAX_CLOCK_SLOT ==> stat.slotStart == genesis + 12 * slot
      ensures var delay := arrival - (genesis + 12 * slot) * 1_000_000_000;
              slot <= SlotTime.MAX_CLOCK_SLOT && 0 <= delay < TWO32 * 1_000_000 ==> stat.latencyMs == delay / 1_000_000
      ensures isNew == !Holds(old(slotCache.contents), slot, stat.messageId)
      ensures slotCache.contents == AddTo(old(slotCache.contents), slot, stat.messageId, stat)
      ensures fresh(slotCache.owned - old(slotCache.owned))
    {
      var start := SlotTime.SlotStartNs(genesis, slot) / SlotTime.NS_PER_S;
      stat := new SlotMessageStats(slot, Hex.Encode(raw), start, SlotTime.LatencyMs(genesis, slot, arrival));
      SlotTime.SlotClockExact(genesis, slot);
      if slot <= SlotTime.MAX_CLOCK_SLOT {
        SlotTime.LatencyExact(genesis, slot, arrival);
      }
      isNew := slotCache.Add(slot, stat.messageId, stat);
      AddKeepsWellFiled(old(slotCache.contents), stat);
    }

    /** Pops one counter per record of a batch and writes it, or 1, as the record's SeenCount. */
    method CountBatch(stats: seq<SlotMessageStats>)
      requires Distinct(stats)
      requires forall i, j :: 0 <= i < j < |stats| ==> stats[i].messageId != stats[j].messageId
      modifies seenCounter, stats
      ensures seenCounter.counts == old(seenCounter.counts) - (set i | 0 <= i < |stats| :: stats[i].messageId)
      ensures forall i :: 0 <= i < |stats| ==>
        stats[i].seenCount == SeenCount(old(seenCounter.counts), stats[i].messageId)
    {
      for k := 0 to |stats|
        invariant seenCounter.counts == old(seenCounter.counts) - (set i | 0 <= i < k :: stats[i].messageId)
        invariant forall i :: 0 <= i < k ==>
          stats[i].seenCount == SeenCount(old(seenCounter.counts), stats[i].messageId)
      {
        var seen, ok := seenCounter.Pop(stats[k].messageId);
        stats[k].seenCount := if ok then seen else 1;
      }
    }

    /** One round of the flush loop up to the save: drain a slot and count its records. */
    method DrainAndCount(slot: u64) returns (stats: seq<SlotMessageStats>)
      requires Valid() && slot in slotCache.contents
      modifies slotCache, seenCounter, RecordsOf(slotCache.contents, {slot})
      ensures Valid()
      ensures slotCache.contents == old(slotCache.contents) - {slot}
      ensures seenCounter.counts == old(seenCounter.counts) - old(slotCache.contents)[slot].Keys
      ensures IsBatch(stats, old(slotCache.contents), slot)
      ensures forall id :: id in old(slotCache.contents)[slot] ==>
        old(slotCache.contents)[slot][id].seenCount == SeenCount(old(seenCounter.counts), id)
    {
      ghost var before := slotCache.contents;
      stats := slotCache.DrainSlot(slot);
      ListedRecords(before, slot, stats);
      assert Valid();
      CountBatch(stats);
    }

    /** The stores and the records after k rounds of a pass that started from the given contents and counts. */
    ghost predicate Midway(contents: Contents, counts: Counts, slots: seq<u64>, k: nat)
      requires k <= |slots| && forall i :: 0 <= i < |slots| ==> slots[i] in contents
      reads this, slotCache, slotCache.owned, seenCounter, RecordsOf(contents, contents.Keys)
    {
      && Valid()
      && slotCache.contents == contents - Elems(slots[..k])
      && seenCounter.counts == counts - IdsOf(contents, slots[..k])
      && forall i, id :: 0 <= i < k && id in contents[slots[i]] ==>
           contents[slots[i]][id].seenCount == Due(contents, counts, slots, i, id)
    }

    method FlushRound(ghost contents: Contents, ghost counts: Counts, slots: seq<u64>, k: nat)
      returns (stats: seq<SlotMessageStats>)
      requires k < |slots| && Distinct(slots) && WellFiled(contents)
      requires forall i :: 0 <= i < |slots| ==> slots[i] in contents
      requires Midway(contents, counts, slots, k)
      modifies slotCache, seenCounter, RecordsOf(contents, {slots[k]})
      ensures Midway(contents, counts, slots, k + 1)
      ensures IsBatch(stats, contents, slots[k])
    {
      OneMoreSlot(contents, slots, k);
      RoundIsFramed(contents, counts, slots, k);
      stats := DrainAndCount(slots[k]);
    }

    /** The flush loop over a snapshot of slots: one batch per slot goes to the repository. */
    method FlushSlots(slots: seq<u64>) returns (batches: seq<seq<SlotMessageStats>>)
      requires Valid() && Distinct(slots)
      requires forall i :: 0 <= i < |slots| ==> slots[i] in slotCache.contents
      modifies slotCache, seenCounter, RecordsOf(slotCache.contents, slotCache.contents.Keys)
      ensures Midway(old(slotCache.contents), old(seenCounter.counts), slots, |slots|)
      ensures AreBatches(batches, old(slotCache.contents), slots, |slots|)
    {
      ghost var before, counts := slotCache.contents, seenCounter.counts;
      batches := [];
      for k := 0 to |slots|
        invariant Midway(before, counts, slots, k)
        invariant AreBatches(batches, before, slots, k)
      {
        var stats := FlushRound(before, counts, slots, k);
        OneMoreBatch(batches, stats, before, slots, k);
        batches := batches + [stats];
      }
    }

    /**
     * A whole pass without interleaving, in whatever order the snapshot lists the slots:
     * exactly the completed slots leave the cache, each as one batch for the repository, their
     * counters leave the counter store, and each record gets its counter, or 1 if an earlier
     * slot of the pass had taken it or it had none.
     */
    method FlushCompletedSlots(now: u64) returns (batches: seq<seq<SlotMessageStats>>, ghost order: seq<u64>)
      requires Valid()
      modifies slotCache, seenCounter, RecordsOf(slotCache.contents, slotCache.contents.Keys)
      ensures Valid() && Distinct(order)
      ensures forall slot :: slot in order <==> slot in old(slotCache.contents) && SlotTime.Drained(slot, now)
      ensures slotCache.contents == old(slotCache.contents) - Elems(order)
      ensures seenCounter.counts == old(seenCounter.counts) - IdsOf(old(slotCache.contents), order)
      ensures forall i, id :: 0 <= i < |order| && id in old(slotCache.contents)[order[i]] ==>
        old(slotCache.contents)[order[i]][id].seenCount ==
          Due(old(slotCache.contents), old(seenCounter.counts), order, i, id)
      ensures AreBatches(batches, old(slotCache.contents), order, |order|)
    {
      var slots := slotCache.CompletedSlots(SlotTime.UnixSlot(now));
      order := slots;
      assert forall i :: 0 <= i < |slots| ==> slots[i] in slots;
      batches := FlushSlots(slots);
      assert slots[..|slots|] == slots;
    }
  }

  lemma OneMoreSlot(contents: Contents, slots: seq<u64>, k: nat)
    requires Distinct(slots) && k < |slots| && slots[k] in contents
    ensures slots[k] in contents - Elems(slots[..k])
    ensures contents - Elems(slots[..k + 1]) == contents - Elems(slots[..k]) - {slots[k]}
    ensures IdsOf(contents, slots[..k + 1]) == IdsOf(contents, slots[..k]) + contents[slots[k]].Keys
    ensures RecordsOf(contents - Elems(slots[..k]), {slots[k]}) == RecordsOf(contents, {slots[k]})
  {
    assert slots[..k + 1] == slots[..k] + [slots[k]];
    assert slots[k] !in slots[..k];
    RecordsOfOne(contents, slots[k]);
    RecordsOfOne(contents - Elems(slots[..k]), slots[k]);
  }

  /** Earlier rounds' records are not touched by round k, and what round k pops is what is due. */
  lemma RoundIsFramed(contents: Contents, counts: Counts, slots: seq<u64>, k: nat)
    requires k < |slots| && Distinct(slots) && WellFiled(contents)
    requires forall i :: 0 <= i < |slots| ==> slots[i] in contents
    ensures forall i, id :: 0 <= i < k && id in contents[slots[i]] ==>
      contents[slots[i]][id] !in RecordsOf(contents, {slots[k]})
    ensures forall id :: SeenCount(counts - IdsOf(contents, slots[..k]), id) == Due(contents, counts, slots, k, id)
    ensures counts - IdsOf(contents, slots[..k]) - contents[slots[k]].Keys == counts - IdsOf(contents, slots[..k + 1])
  {
    OneMoreSlot(contents, slots, k);
    RemoveTwice(counts, IdsOf(contents, slots[..k]), contents[slots[k]].Keys);
    forall i, id | 0 <= i < k && id in contents[slots[i]]
      ensures contents[slots[i]][id] !in RecordsOf(contents, {slots[k]})
    {
      assert contents[slots[i]][id].slot == slots[i] != slots[k];
    }
  }

  lemma RecordsOfOne(contents: Contents, slot: u64)
    requires slot in contents
    ensures RecordsOf(contents, {slot}) == contents[slot].Values
  {
  }

  lemma RemoveTwice(counts: Counts, a: set<string>, b: set<string>)
    ensures counts - a - b == counts - (a + b)
  {
  }

  lemma ListedRecords(contents: Contents, slot: u64, stats: seq<SlotMessageStats>)
    requires WellFiled(contents) && slot in contents && Enumerates(stats, contents[slot])
    ensures stats != [] ==> IsBatch(stats, contents, slot)
    ensures contents[slot].Keys == set i | 0 <= i < |stats| :: stats[i].messageId
    ensures forall id :: id in contents[slot] ==> contents[slot][id] in stats
    ensures forall i, j :: 0 <= i < j < |stats| ==> stats[i].messageId != stats[j].messageId
  {
    var ids :| Lists(stats, ids, contents[slot]);
    ListedUnder(contents, slot, stats, ids);
  }

  lemma ListedUnder(contents: Contents, slot: u64, stats: seq<SlotMessageStats>, ids: seq<string>)
    requires WellFiled(contents) && slot in contents && Lists(stats, ids, contents[slot])
    ensures stats != [] ==> IsBatch(stats, contents, slot)
    ensures contents[slot].Keys == set i | 0 <= i < |stats| :: stats[i].messageId
    ensures forall id :: id in contents[slot] ==> contents[slot][id] in stats
    ensures forall i, j :: 0 <= i < j < |stats| ==> stats[i].messageId != stats[j].messageId
  {
    DrainedAreDistinct(contents, slot, stats, ids);
    RecordsOfOne(contents, slot);
    assert forall i :: 0 <= i < |stats| ==> stats[i].messageId == ids[i];
    forall id | id in contents[slot] ensures contents[slot][id] in stats {
      assert id in ids;
      var i :| 0 <= i < |ids| && ids[i] == id;
      assert stats[i] == contents[slot][id];
    }
    forall id | id in contents[slot] ensures exists i :: 0 <= i < |stats| && stats[i].messageId == id {
      var i :| 0 <= i < |ids| && ids[i] == id;
      assert stats[i].messageId == id;
    }
  }
}
