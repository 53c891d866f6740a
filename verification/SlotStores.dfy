/** The two mutex-protected stores as mutable objects. One method body is one critical section. */
module SlotStores {
  import opened Collections
  import opened Ints
  import opened StoreSpec
  import Hex

  /** One stored record. Only its SeenCount changes after it is built. */
  class SlotMessageStats {
    const slot: u64
    const messageId: string
    const slotStart: int       // Unix seconds
    const latencyMs: u32
    var seenCount: u32

    constructor (slot: u64, messageId: string, slotStart: int, latencyMs: u32)
      ensures this.slot == slot && this.messageId == messageId
      ensures this.slotStart == slotStart && this.latencyMs == latencyMs && seenCount == 0
    {
      this.slot, this.messageId := slot, messageId;
      this.slotStart, this.latencyMs, seenCount := slotStart, latencyMs, 0;
    }
  }

  /** The records of one slot, by message id. */
  class SlotCache {
    const slot: u64
    var messageStats: map<string, SlotMessageStats>

    constructor (slot: u64)
      ensures this.slot == slot && messageStats == map[]
    {
      this.slot, messageStats := slot, map[];
    }

    /** The part of a drain that runs after the lock is released. */
    method CopyOut() returns (stats: seq<SlotMessageStats>)
      ensures Enumerates(stats, messageStats)
      ensures NonEmpty(messageStats) ==> stats != []
    {
      stats := [];
      ghost var ids := [];
      var left := messageStats.Keys;
      while left != {}
        invariant left <= messageStats.Keys
        invariant |stats| == |ids| && Distinct(ids)
        invariant forall id :: id in ids <==> id in messageStats && id !in left
        invariant forall i :: 0 <= i < |ids| ==> ids[i] in messageStats && stats[i] == messageStats[ids[i]]
      {
        var id :| id in left;
        left := left - {id};
        stats, ids := stats + [messageStats[id]], ids + [id];
      }
      assert Lists(stats, ids, messageStats);
    }
  }

  ghost predicate NonEmpty<T>(m: map<string, T>) {
    exists id :: id in m
  }

  /** xs lists the values of m, one per key of m, each key once. */
  ghost predicate Lists<T>(xs: seq<T>, keys: seq<string>, m: map<string, T>) {
    && |xs| == |keys| && Distinct(keys)
    && (forall k :: k in keys <==> k in m)
    && (forall i :: 0 <= i < |xs| ==> keys[i] in m && xs[i] == m[keys[i]])
  }

  /** xs lists every value of m once per key. */
  ghost predicate Enumerates<T>(xs: seq<T>, m: map<string, T>) {
    exists keys :: Lists(xs, keys, m)
  }

  /** Every record carries the slot and the message id it is filed under. */
  ghost predicate WellFiled(view: Caches<SlotMessageStats>) {
    forall slot, id :: slot in view && id in view[slot] ==>
      view[slot][id].slot == slot && view[slot][id].messageId == id
  }

  lemma AddKeepsWellFiled(view: Caches<SlotMessageStats>, stat: SlotMessageStats)
    requires WellFiled(view)
    ensures WellFiled(AddTo(view, stat.slot, stat.messageId, stat))
  {
  }

  /** What `DrainSlot` lists are distinct objects, all of the drained slot. */
  lemma DrainedAreDistinct(view: Caches<SlotMessageStats>, slot: u64, stats: seq<SlotMessageStats>, ids: seq<string>)
    requires WellFiled(view) && slot in view && Lists(stats, ids, view[slot])
    ensures Distinct(stats)
    ensures forall stat :: stat in stats ==> stat.slot == slot && stat.messageId in ids
  {
    forall i | 0 <= i < |stats| ensures stats[i].slot == slot && stats[i].messageId == ids[i] {}
  }

  class SlotCacheStore {
    var caches: map<u64, SlotCache>
    ghost var owned: set<SlotCache>                  // the caches only this store refers to
    ghost var contents: Caches<SlotMessageStats>     // what it stores, as a value

    /** Ownership: each cache knows its slot, so no two slots share one, and no cache is empty. */
    ghost predicate Valid()
      reads this, owned
    {
      && contents.Keys == caches.Keys
      && forall slot :: slot in caches ==> Sound(slot)
    }

    ghost predicate Sound(slot: u64)
      requires slot in caches
      reads this, owned
    {
      && slot in contents && NonEmpty(contents[slot])
      && caches[slot] in owned && caches[slot].slot == slot && caches[slot].messageStats == contents[slot]
    }

    constructor ()
      ensures Valid() && contents == map[] && owned == {}
    {
      caches, owned, contents := map[], {}, map[];
    }

    /** True when the message was new; a duplicate leaves the store as it was. */
    method Add(slot: u64, msgId: string, stat: SlotMessageStats) returns (isNew: bool)
      requires Valid()
      modifies this, owned
      ensures Valid() && fresh(owned - old(owned))
      ensures isNew == !Holds(old(contents), slot, msgId)
      ensures contents == AddTo(old(contents), slot, msgId, stat)
    {
      var cache;
      if slot in caches {
        cache := caches[slot];
      } else {
        cache := new SlotCache(slot);
        caches, owned := caches[slot := cache], owned + {cache};
      }
      if msgId in cache.messageStats {
        return false;
      }
      cache.messageStats := cache.messageStats[msgId := stat];
      contents := AddTo(contents, slot, msgId, stat);
      isNew := true;
      forall other | other in caches ensures Sound(other) {
        if other == slot {
          assert msgId in contents[slot];
        } else {
          assert old(Sound(other));
        }
      }
    }

    /** The slots below the threshold, each once, in any order. */
    method CompletedSlots(currentSlot: u64) returns (slots: seq<u64>)
      requires Valid()
      ensures Distinct(slots)
      ensures forall slot :: slot in slots <==> slot in contents && Completed(slot, currentSlot)
    {
      slots := [];
      var left := caches.Keys;
      while left != {}
        invariant left <= caches.Keys
        invariant Distinct(slots)
        invariant forall slot :: slot in slots <==> slot in caches && slot !in left && Completed(slot, currentSlot)
      {
        var slot: u64 :| slot in left;
        left := left - {slot};
        if slot < Pred64(currentSlot) {
          slots := slots + [slot];
        }
      }
    }

    /** The locked part of a drain: afterwards no slot of the store refers to the cache. */
    method Detach(slot: u64) returns (cache: SlotCache?)
      requires Valid()
      modifies this
      ensures Valid() && owned <= old(owned) && cache !in owned
      ensures contents == old(contents) - {slot}
      ensures cache != null <==> slot in old(contents)
      ensures cache != null ==> cache in old(owned) && cache.messageStats == old(contents)[slot]
      ensures cache != null ==> NonEmpty(cache.messageStats)
    {
      if slot !in caches {
        assert contents == contents - {slot};
        return null;
      }
      assert Sound(slot);
      cache := caches[slot];
      caches, owned, contents := caches - {slot}, owned - {cache}, contents - {slot};
      forall other | other in caches ensures Sound(other) {
        assert old(Sound(other));
      }
    }

    /** Removes the slot and lists its records; the other slots keep theirs. */
    method DrainSlot(slot: u64) returns (stats: seq<SlotMessageStats>)
      requires Valid()
      modifies this
      ensures Valid() && owned <= old(owned)
      ensures contents == old(contents) - {slot}
      ensures if slot in old(contents) then Enumerates(stats, old(contents)[slot]) && stats != [] else stats == []
    {
      var cache := Detach(slot);
      if cache == null {
        return [];
      }
      stats := cache.CopyOut();
    }
  }

  class SeenCounter {
    var counts: Counts

    constructor ()
      ensures counts == map[]
    {
      counts := map[];
    }

    method IncreaseByRawId(raw: seq<u8>)
      modifies this
      ensures counts == Bump(old(counts), Hex.Encode(raw))
    {
      var id := Hex.Encode(raw);
      var old_ := if id in counts then counts[id] else 0;
      counts := counts[id := (old_ + 1) % TWO32];
    }

    method Pop(msgId: string) returns (value: u32, ok: bool)
      modifies this
      ensures counts == old(counts) - {msgId}
      ensures ok == (msgId in old(counts)) && value == CountOf(old(counts), msgId)
    {
      ok := msgId in counts;
      value := 0;
      if ok {
        value := counts[msgId];
        counts := counts - {msgId};
      }
    }
  }
}
