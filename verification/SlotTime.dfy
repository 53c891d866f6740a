/** Slot clocks: start times, latencies with Go's wrap-arounds, and the flush threshold. */
module SlotTime {
  import opened Ints
  import opened StoreSpec

  const SECONDS_PER_SLOT: int := 12
  const NS_PER_MS: int := 1_000_000
  const NS_PER_S: int := 1_000_000_000

  /** Largest slot whose start still fits an int64 count of nanoseconds after genesis. */
  const MAX_CLOCK_SLOT: int := 768614336

  /** The rollup only keeps rows below this latency. */
  const LATENCY_LIMIT_MS: int := 768000

  /** `time.Duration(slot) * time.Second * time.Duration(SecondsPerSlot)`, each step on int64. */
  function SlotOffsetNs(slot: u64): int {
    ToI64(ToI64(ToI64(slot) * NS_PER_S) * SECONDS_PER_SLOT)
  }

  function SlotStartNs(genesis: int, slot: u64): int {
    genesis * NS_PER_S + SlotOffsetNs(slot)
  }

  /** Start of the slot in Unix seconds, as the beacon chain defines it. */
  function SlotStart(genesis: int, slot: int): int {
    genesis + SECONDS_PER_SLOT * slot
  }

  /** `Time.Sub` saturates at the ends of int64. */
  function Saturate(x: int): int {
    if x < -TWO63 then -TWO63 else if x >= TWO63 then TWO63 - 1 else x
  }

  function DelayNs(genesis: int, slot: u64, arrival: int): int {
    Saturate(arrival - SlotStartNs(genesis, slot))
  }

  /** `uint32(delay.Milliseconds())`. */
  function LatencyMs(genesis: int, slot: u64, arrival: int): u32 {
    ToU32(Quot(DelayNs(genesis, slot, arrival), NS_PER_MS))
  }

  /** The delay as the chain defines it, without any wrap-around. */
  function TrueDelayNs(genesis: int, slot: int, arrival: int): int {
    arrival - SlotStart(genesis, slot) * NS_PER_S
  }

  lemma ToI64InRange(x: int)
    ensures -TWO63 <= ToI64(x) < TWO63
    ensures -TWO63 <= x < TWO63 ==> ToI64(x) == x
  {
    if 0 <= x < TWO63 {
      assert x % TWO64 == x;
    } else if -TWO63 <= x < 0 {
      assert x % TWO64 == x + TWO64;
    }
  }

  /** The computed slot start is the chain's exactly up to slot 768614336; beyond it int64 wraps. */
  lemma SlotClockExact(genesis: int, slot: u64)
    ensures SlotStartNs(genesis, slot) == SlotStart(genesis, slot) * NS_PER_S <==> slot <= MAX_CLOCK_SLOT
  {
    ToI64InRange(slot);
    ToI64InRange(ToI64(slot) * NS_PER_S);
    ToI64InRange(ToI64(ToI64(slot) * NS_PER_S) * SECONDS_PER_SLOT);
  }

  /** For every slot: the computed offset is the int64 congruent to the true one modulo 2^64. */
  lemma SlotOffsetWraps(slot: u64) returns (turns: int)
    ensures -TWO63 <= SlotOffsetNs(slot) < TWO63
    ensures SlotOffsetNs(slot) == 12_000_000_000 * slot + TWO64 * turns
  {
    var a := WrapsBy(slot);
    var b := WrapsBy(ToI64(slot) * NS_PER_S);
    var c := WrapsBy(ToI64(ToI64(slot) * NS_PER_S) * SECONDS_PER_SLOT);
    turns := a * NS_PER_S * SECONDS_PER_SLOT + b * SECONDS_PER_SLOT + c;
  }

  lemma WrapsBy(x: int) returns (turns: int)
    ensures -TWO63 <= ToI64(x) < TWO63 && ToI64(x) == x + TWO64 * turns
  {
    turns := if x % TWO64 < TWO63 then -(x / TWO64) else -(x / TWO64) - 1;
  }

  /**
   * The stored latency for every delay: the true delay in whole milliseconds, truncated toward zero, modulo
   * 2^32, where delays beyond what int64 nanoseconds can hold count as the nearest one it can.
   */
  lemma LatencyExact(genesis: int, slot: u64, arrival: int)
    requires slot <= MAX_CLOCK_SLOT
    ensures var d := TrueDelayNs(genesis, slot, arrival);
            && (0 <= d < 4294967296 * NS_PER_MS ==> LatencyMs(genesis, slot, arrival) == d / 1000000)
            && (0 <= d < TWO63 ==> LatencyMs(genesis, slot, arrival) == d / 1000000 % 4294967296)
            && (-TWO63 <= d < 0 ==> LatencyMs(genesis, slot, arrival) == (-(-d / 1000000)) % 4294967296)
            && (d >= TWO63 ==> LatencyMs(genesis, slot, arrival) == 9223372036854 % 4294967296)
            && (d < -TWO63 ==> LatencyMs(genesis, slot, arrival) == -9223372036854 % 4294967296)
  {
    SlotClockExact(genesis, slot);
    var d := TrueDelayNs(genesis, slot, arrival);
    assert DelayNs(genesis, slot, arrival) == Saturate(d);
    if 0 <= d < 4294967296 * NS_PER_MS {
      assert d / 1000000 % 4294967296 == d / 1000000;
    }
  }

  /**
   * The wrapped uint32 latency passes the rollup's filter exactly when the true delay is
   * above -1 ms and below 768 s, for every delay of at least 768000 - 2^32 ms and below 2^32 ms.
   */
  lemma LatencyFilterExact(genesis: int, slot: u64, arrival: int)
    requires slot <= MAX_CLOCK_SLOT
    requires LATENCY_LIMIT_MS - TWO32 <= Quot(TrueDelayNs(genesis, slot, arrival), NS_PER_MS) < TWO32
    ensures LatencyMs(genesis, slot, arrival) < LATENCY_LIMIT_MS
       <==> -1_000_000 < TrueDelayNs(genesis, slot, arrival) < 768_000_000_000
  {
    SlotClockExact(genesis, slot);
    var d := TrueDelayNs(genesis, slot, arrival);
    assert DelayNs(genesis, slot, arrival) == d;
    var ms := Quot(d, NS_PER_MS);
    if ms >= 0 {
      assert ms % TWO32 == ms;
    } else {
      assert ms % TWO32 == ms + TWO32;
    }
  }

  /** That range cannot be widened on either side: its two neighbours pass the filter wrongly. */
  lemma LatencyRangeIsWidest(genesis: int, slot: u64)
    requires slot <= MAX_CLOCK_SLOT
    ensures LatencyMs(genesis, slot, SlotStartNs(genesis, slot) + TWO32 * NS_PER_MS) == 0
    ensures LatencyMs(genesis, slot, SlotStartNs(genesis, slot) + (LATENCY_LIMIT_MS - TWO32 - 1) * NS_PER_MS)
         == LATENCY_LIMIT_MS - 1
  {
  }

  // ---------------------------------------------------------------- flush threshold

  /** The current slot as the flusher computes it: from the Unix epoch. */
  function UnixSlot(now: u64): u64 {
    now / SECONDS_PER_SLOT
  }

  /** The current slot as slot start times define it: from genesis. */
  function ChainSlot(genesis: int, now: int): int
    requires genesis <= now
  {
    (now - genesis) / SECONDS_PER_SLOT
  }

  predicate Drained(slot: u64, now: u64) {
    Completed(slot, UnixSlot(now))
  }

  /** The seconds at which the flush threshold is at most one past the largest slot the clock can express. */
  predicate InClockRange(now: int) {
    SECONDS_PER_SLOT <= now < SECONDS_PER_SLOT * (MAX_CLOCK_SLOT + 3)
  }

  predicate Ended(genesis: int, slot: int, now: int) {
    SlotStart(genesis, slot + 1) <= now
  }

  /** Which slots a flush at `now` drains; in the first 12 seconds of 1970 `currentSlot-1` wraps. */
  lemma DrainedExactly(slot: u64, now: u64)
    ensures Drained(slot, now) <==>
      if now < SECONDS_PER_SLOT then slot < TWO64 - 1 else SECONDS_PER_SLOT * (slot + 2) <= now
  {
  }

  /** From second 12 of 1970 to the year 2262, and at no other time, a flush drains only slots the clock can express. */
  lemma DrainsClockSlotsIff(now: u64)
    ensures (forall slot: u64 :: Drained(slot, now) ==> slot <= MAX_CLOCK_SLOT) <==> InClockRange(now)
  {
    if !InClockRange(now) {
      assert Drained(MAX_CLOCK_SLOT + 1, now);
    }
  }

  /** With a genesis-relative current slot of at least 1, the threshold waits one slot past the end. */
  lemma ChainThreshold(genesis: nat, slot: u64, now: u64)
    requires genesis <= now && ChainSlot(genesis, now) >= 1
    ensures Completed(slot, ChainSlot(genesis, now)) <==> Ended(genesis, slot + 1, now)
    ensures Completed(slot, ChainSlot(genesis, now)) ==> Ended(genesis, slot, now)
  {
  }

  /** During slot 0 the unsigned decrement wraps and every slot but the last counts as completed. */
  lemma ChainThresholdWraps(genesis: nat, slot: u64, now: u64)
    requires genesis <= now && ChainSlot(genesis, now) == 0
    ensures Completed(slot, ChainSlot(genesis, now)) <==> slot < TWO64 - 1
  {
  }

  /** From second `since` on, no flush drains a slot that has not ended. */
  ghost predicate NeverDrainsEarly(genesis: nat, since: int) {
    forall slot: u64, now: u64 :: now >= since && Drained(slot, now) ==> Ended(genesis, slot, now)
  }

  /**
   * From the 12th second of 1970 on, the Unix-epoch current slot waits for slots to end exactly when
   * genesis is within 12 s of 1970. In the seconds before, where the decrement wraps, it waits for
   * no genesis.
   */
  lemma UnixThresholdWaitsIff(genesis: nat)
    ensures NeverDrainsEarly(genesis, SECONDS_PER_SLOT) <==> genesis <= SECONDS_PER_SLOT
    ensures forall since :: since < SECONDS_PER_SLOT ==> !NeverDrainsEarly(genesis, since)
  {
    if genesis > SECONDS_PER_SLOT {
      assert Drained(0, 24) && !Ended(genesis, 0, 24);
    }
    forall since | since < SECONDS_PER_SLOT ensures !NeverDrainsEarly(genesis, since) {
      var now: u64 := SECONDS_PER_SLOT - 1;
      assert Drained(0, now) && !Ended(genesis, 0, now);
    }
  }

  ghost predicate DrainsFromStart(genesis: nat) {
    forall slot: u64, now: u64 :: SlotStart(genesis, slot) <= now ==> Drained(slot, now)
  }

  /** For every genesis of at least 24 s, and no other, a slot is drained from the moment it starts. */
  lemma UnixThresholdDrainsFromStartIff(genesis: nat)
    ensures DrainsFromStart(genesis) <==> genesis >= 24
  {
    if genesis < 24 {
      var now: u64 := if genesis < 12 then 12 else genesis;
      assert SlotStart(genesis, 0) <= now && !Drained(0, now);
    }
  }
}
