/**
 * What the two shared stores hold, as values. The classes of `SlotStores` are proved
 * against these functions and the state machines of `FlushSpec` and `FlushMachine`
 * step by them, so the locked code and the interleaving model share one meaning.
 */
module StoreSpec {
  import opened Ints

  /** Records by slot, then by message id. */
  type Caches<R> = map<u64, map<string, R>>

  type Counts = map<string, u32>

  predicate Holds<R>(caches: Caches<R>, slot: u64, id: string) {
    slot in caches && id in caches[slot]
  }

  /** The contents after `Add`: an entry that is already there wins. */
  function AddTo<R>(caches: Caches<R>, slot: u64, id: string, rec: R): Caches<R> {
    if Holds(caches, slot, id) then caches
    else if slot in caches then caches[slot := caches[slot][id := rec]]
    else caches[slot := map[id := rec]]
  }

  /** `slot < currentSlot-1` on uint64. */
  predicate Completed(slot: u64, currentSlot: u64) {
    slot < Pred64(currentSlot)
  }

  function CountOf(counts: Counts, id: string): u32 {
    if id in counts then counts[id] else 0
  }

  /** `counts[id]++` on uint32. */
  function Bump(counts: Counts, id: string): Counts {
    counts[id := ToU32(CountOf(counts, id) + 1)]
  }

  /** The SeenCount the flusher writes: the popped value, or 1 when there was no counter. */
  function SeenCount(counts: Counts, id: string): u32 {
    if id in counts then counts[id] else 1
  }
}
