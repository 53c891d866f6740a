# peekd: a Dafny model of its core logic

peekd listens to Ethereum consensus gossip, caches one record per message by slot, flushes the
records to ClickHouse, rolls them up by the hour, and manages its peers by score. This project
models the parts of it where correctness is not visible from one function, and proves what they
keep, lose and compute.

- **The cache / counter / flush protocol.** `FlushSpec` is the protocol as a state machine over the
  critical sections of the two stores, with the drain as one step; `FlushTheorems` proves
  conservation, the counter ledger, the coupling of the two stores and flush progress over every
  run. `FlushMachine` is the protocol at the granularity of the code, with cache objects on a heap
  and a drain that copies records out after unlocking; `FlushRefinement` proves that it refines
  `FlushSpec`. `SlotStores` and `Processor` are the same stores and flush loop as mutable objects,
  proved against the value-level functions of `StoreSpec` that the machines step by.
- **Slot clock and hourly rollup.** `SlotTime` has Go's integer wrap-arounds written out, `Rollup`
  the materialized-view query, `EndToEnd` the timed protocol up to the hourly run.
- **Peer scores.** `Decay`, `ScoreParams` and `Calibration` have the parameter arithmetic over the
  reals and the gossipsub v1.1 score function; `PeerScore` the parameter loop that overwrites a
  field it later reads; `ParamLaws` what that loop returns, in numbers.
- **Topics and pruning.** `Text`, `Topics` and `TopicList` have topic generation, parsing and
  substring dispatch; `Prune` the early-exit pruning loop. `Collections`, `Ints` and `Hex` are shared.

Beacon chain constants are the mainnet ones; subnet counts of the topic generator, genesis time,
clock readings, save results, map iteration orders and interleavings are parameters.

## Where the code differs from its evident intent

The model follows the code. The exact condition under which the two agree is proved.

- README.md:34 says a slot is flushed once complete. The flusher counts the current slot from the
  Unix epoch while slots count from genesis (processor/beacon_message_processor.go:266 against
  171), so every slot is drained from the moment it starts, for every genesis from 24 s on. From
  the 12th second of 1970 on, the threshold waits for the slot's end if and only if genesis is
  within 12 s of 1970; before, it waits for no genesis (`UnixThresholdDrainsFromStartIff`,
  `UnixThresholdWaitsIff`).
- `currentSlot-1` is unsigned and wraps at 0 (`DrainedExactly`, `ChainThresholdWraps`).
- A duplicate that arrives after its record was flushed leaves a counter that nothing ever removes,
  and so does every message that never enters the slot cache (`LateArrivalsStayForever`,
  `UnacceptedStayForever`).
- The hourly view runs once on a table that keeps growing. One slot stored after its hour's run costs
  the alias the whole hour (`LateSlotLosesTheHour`); what is lost, and when nothing is, is exact
  (`RollupsMissNothingIff`).
- The committee clamp maps every count up to the maximum to 1; it equals the beacon chain
  specification's committee count only below 8192 or from 266240 validators
  (`CommitteesMatchSpecIff`).
- Two mesh thresholds divide integers before converting, so they vanish and their penalty weight
  becomes infinite below 184320 and 360 validators (`AttestationThresholdIff`,
  `SyncSubnetThresholdIff`).
- Rates and decay factors are per slot, but the decay is applied once per epoch
  (`DecayPerEpochIsSlower`). The traffic of a peer at exactly the expected rate therefore passes the
  first-delivery cap and leaves no mesh deficit: `SteadyPeerAsCoded` says at which instants it has its
  full score, `SteadyPeerAroundDecays` that after the decay periods only those right after a decay are
  left out. The intended picture, `SteadyPeerIfDecayedPerSlot`, holds if and only if an epoch is one
  slot (`FirstStaysUnderCapIff`, `MeshStaysShortIff`).
- Slots of messages are not validated, and the start of one above 768614336 wraps off the slot grid. Only
  the flush threshold keeps such rows out of the table, from second 12 of 1970 to the year 2262
  (`SavedRowsAreOnGrid`, `WrappedRowIsOffGrid`, `DrainsClockSlotsIff`).
- Pruning reads scores twice. A peer that turned bad in between survives behind a good one
  (`BadSurvivesIff`, `StaleReadKeepsBadPeer`).
- `maxScore` adds the contribution weight twice and leaves out the sync committees'
  (gossip/peer_score.go:36-37); it is right if and only if the two weigh the same, and is 10 short
  (`MaxScoreShortfall`).
- The sync-committee builder overwrites the validator estimate (`ParamsAreOrderFreeIff`,
  `SecondCallPanics`).

## Model

| member | source | states |
|---|---|---|
| `FlushSpec.StepKeepsInv` | processor/beacon_message_processor.go:265-288 | every event of every goroutine keeps the protocol invariant: caches non-empty and filed under their own slot and id, snapshot slots still cached, one slot per batch, each accepted record in exactly one place |
| `FlushSpec.Conservation` | processor/slot_cache.go:22-73 | over every interleaving, a record is in exactly one of cache, in-flight batch before or after its pop, saved, failed if its Add returned true, and in none otherwise |
| `FlushTheorems.AcceptedWasProcessed` | processor/beacon_message_processor.go:171-189 | over every run an accepted record carries the slot, arrival time and hexadecimal id of a message that was processed |
| `FlushTheorems.ProcessedIsFiled` | processor/slot_cache.go:22-41 | once a message was processed its slot holds its id; it was accepted exactly if the slot did not hold the id before; no other entry of the cache changed |
| `FlushTheorems.NothingBlocks` | processor/beacon_message_processor.go:265-288 | messages arrive and are processed in every state, a pass can begin whenever none runs, and a running pass always has a next step, with either outcome of a save possible |
| `FlushTheorems.CounterIsPending` | processor/seen_counter.go:23-42 | a live counter is the arrivals of its id since the last pop modulo 2^32, and exists if and only if there were any |
| `FlushTheorems.LedgerBalances` | processor/seen_counter.go:23-42 | for every id, increments equal popped values plus the live count plus whole wrap-arounds |
| `FlushTheorems.AssignedIsConsumedPlusMisses` | processor/beacon_message_processor.go:274-281 | below 2^32 arrivals, the SeenCounts written for an id are its consumed increments plus one per missed pop |
| `FlushTheorems.SeenCountAtPop` | processor/beacon_message_processor.go:274-281 | in any run a record's SeenCount is the arrivals of its id since the previous pop of that id, or 1 if there were none |
| `FlushTheorems.Coupling` | gossip/gossipsub.go:181-185 | if messages are counted before they are processed and accepted once, every cached or unpopped record has a live counter holding all arrivals of its id |
| `FlushTheorems.FallbackUnreachable` | processor/beacon_message_processor.go:276-280 | in such runs every Pop finds a counter, so the SeenCount of 1 is never the fallback |
| `FlushTheorems.SeenCountIsArrivals` | processor/beacon_message_processor.go:274-281 | in such runs SeenCount is exactly the arrivals up to the pop (at least 1 below 2^32 of them) |
| `FlushTheorems.SeenIsArrivalsAtPop` | processor/beacon_message_processor.go:274-281 | the same with the arrivals up to the latest pop as a function of the run |
| `FlushTheorems.FallbackWithoutDiscipline` | processor/beacon_message_processor.go:189-191 | a concrete run family that reaches the fallback: an id accepted again after its flush |
| `FlushTheorems.LateArrivalsStayForever` | processor/seen_counter.go:23-42 | in disciplined runs, once an id was popped it has a live counter if and only if it arrived again, and the counter holds all those arrivals at every later point |
| `FlushTheorems.UnacceptedStayForever` | gossip/gossipsub.go:181-185 | in any run, an id never accepted into the cache keeps a counter of all its arrivals |
| `FlushTheorems.PassFlushesCompleted` | processor/beacon_message_processor.go:265-288 | every record cached at a snapshot in a slot below the threshold is saved or in a failed save when the flusher is idle again, and saved if no save failed |
| `FlushTheorems.FlushedWasCompleted` | processor/slot_cache.go:44-55 | conversely, over every run a record that left the cache had its slot below the threshold of an earlier snapshot |
| `FlushTheorems.PassKeepsOthers` | processor/slot_cache.go:44-55 | a record at or above the threshold is still cached when the pass ends |
| `FlushMachine.AcceptRefines` | processor/slot_cache.go:22-41 | Add through a heap reference changes one slot's contents and nothing else, because no two slots share a cache object |
| `FlushMachine.AcceptKeepsDetached` | processor/slot_cache.go:58-73 | no Add can reach or change a cache once it is detached |
| `FlushMachine.CopiedExactly` | processor/slot_cache.go:68-72 | when copying ends the slice holds each detached record once and nothing else, and is not empty |
| `FlushMachine.StepSimulates` | processor/beacon_message_processor.go:265-288 | each event of the code is a stutter or exactly one event of the specification and keeps the ownership invariant |
| `FlushRefinement.RunRefines` | processor/beacon_message_processor.go:265-310 | every run of the code, abstracted, is a run of the specification ending in the same state |
| `FlushRefinement.CodeConserves` | processor/slot_cache.go:22-73 | conservation for the code, with the unlocked copy |
| `FlushRefinement.CodeNeverFallsBack` | processor/beacon_message_processor.go:274-281 | in runs of the code that count messages before processing them and accept each id once, every Pop finds a counter |
| `FlushRefinement.CodeAcceptedWasProcessed` | processor/beacon_message_processor.go:171-189 | in every run of the code an accepted record carries the slot, arrival time and id of a message it processed |
| `FlushRefinement.CodeFilesWhatItProcesses` | processor/slot_cache.go:22-41 | after the code processed a message, the message's slot holds its id |
| `FlushRefinement.CodeSeenCountIsArrivals` | processor/beacon_message_processor.go:274-281 | in such runs a record's SeenCount is the number of times the code's callback had run for its id when the record was popped |
| `FlushRefinement.CodeSnapshotIsExact` | processor/slot_cache.go:44-55 | a snapshot of the code lists exactly the cached slots below its own threshold, each once |
| `FlushRefinement.CodeFlushedWasCompleted` | processor/slot_cache.go:44-55 | in every run of the code a record leaves the cache only if some snapshot found its slot completed |
| `FlushRefinement.CodeSavesAsTold` | processor/beacon_message_processor.go:283-287 | records are saved only by saves that succeed and fail only by saves that fail |
| `FlushRefinement.CodeNeverBlocks` | processor/beacon_message_processor.go:265-310 | in every reachable state of the code messages can arrive and be processed, and the flusher has its next step, with either outcome of a save possible |
| `FlushRefinement.DrainFindsItsSlot` | processor/beacon_message_processor.go:268-286 | a drain never meets a missing or empty slot and every record of a batch has the drained slot, so `stats[0]` is safe and names it |
| `FlushRefinement.DrainReturnsContentsAtDelete` | processor/slot_cache.go:58-73 | whatever Adds and arrivals run while it copies, DrainSlot returns exactly the slot's contents at the delete, each record once |
| `SlotStores.SlotCacheStore.Add` | processor/slot_cache.go:22-41 | the new contents are the old with one entry added unless present, the answer says which, and ownership is kept |
| `SlotStores.SlotCacheStore.CompletedSlots` | processor/slot_cache.go:44-55 | lists exactly the cached slots below the wrapped threshold, each once |
| `SlotStores.SlotCacheStore.Detach` | processor/slot_cache.go:59-66 | the locked half of a drain: the slot is gone and its cache is no longer owned by the store |
| `SlotStores.SlotCache.CopyOut` | processor/slot_cache.go:68-72 | lists every record of the cache once, one per message id |
| `SlotStores.SlotCacheStore.DrainSlot` | processor/slot_cache.go:58-73 | removes the slot and lists its records; a present slot gives at least one record, a missing one none |
| `SlotStores.SeenCounter.IncreaseByRawId` | processor/seen_counter.go:23-29 | bumps the uint32 counter of the hexadecimal id with wrap-around |
| `SlotStores.SeenCounter.Pop` | processor/seen_counter.go:31-42 | removes the counter and returns it, or 0 and false |
| `Hex.DecodeEncode` | processor/seen_counter.go:8-10 | decoding the hexadecimal text gives the bytes back |
| `Hex.EncodeAt` | processor/seen_counter.go:8-10 | byte i is written at characters 2i and 2i + 1 with the lower-case digits, high digit first |
| `Hex.EncodeInjective` | processor/seen_counter.go:8-10 | distinct raw ids never share a counter key |
| `Processor.BeaconMessageProcessor.ProcessSlotMessage` | processor/beacon_message_processor.go:165-200 | files a fresh record with the message's slot, hexadecimal id, the chain's slot start and, for delays from 0 to below 2^32 ms, exactly the delay in whole milliseconds, keeping every record under its own keys |
| `Processor.BeaconMessageProcessor.CountBatch` | processor/beacon_message_processor.go:274-281 | each record of a batch gets its own counter or 1, and exactly those counters are removed |
| `Processor.BeaconMessageProcessor.FlushSlots` | processor/beacon_message_processor.go:268-287 | one non-empty batch per snapshot slot, holding each of the slot's records once |
| `Processor.BeaconMessageProcessor.FlushCompletedSlots` | processor/beacon_message_processor.go:265-288 | a whole pass in any slot order: exactly the completed slots leave the cache, their counters leave the counter store, and each record gets its counter unless an earlier slot of the pass took it |
| `SlotTime.SlotClockExact` | processor/beacon_message_processor.go:171 | the int64 slot start equals the chain's if and only if the slot is at most 768614336 |
| `SlotTime.SlotOffsetWraps` | processor/beacon_message_processor.go:171 | for every slot the computed offset is the int64 that differs from the true one by a multiple of 2^64 |
| `SlotTime.LatencyExact` | processor/beacon_message_processor.go:226-233 | for every delay the stored latency is the true delay in milliseconds truncated toward zero, modulo 2^32, with delays beyond int64 nanoseconds saturated |
| `SlotTime.LatencyFilterExact` | migrations/002_define_mv.sql:63 | the wrapped uint32 latency passes the filter if and only if the true delay is above -1 ms and below 768 s, for delays from 768000 - 2^32 ms to below 2^32 ms |
| `SlotTime.LatencyRangeIsWidest` | processor/beacon_message_processor.go:184 | the two delays next to that range pass the filter wrongly |
| `SlotTime.DrainedExactly` | processor/beacon_message_processor.go:266 | the exact set of slots a flush at a given second drains, with the wrap in the first 12 s of 1970 |
| `SlotTime.DrainsClockSlotsIff` | processor/beacon_message_processor.go:266 | a flush drains only slots whose start fits the clock if and only if it happens from second 12 and before second 12 * 768614339 |
| `SlotTime.ChainThreshold` | processor/slot_cache.go:50 | with a genesis-relative current slot of at least 1 no slot is drained before one slot past its end |
| `SlotTime.ChainThresholdWraps` | processor/slot_cache.go:50 | at current slot 0 every slot but the largest counts as completed |
| `SlotTime.UnixThresholdWaitsIff` | processor/beacon_message_processor.go:266 | from the 12th second of 1970 on the Unix-epoch threshold waits for slots to end if and only if genesis is at most 12; from any earlier second it does for no genesis |
| `SlotTime.UnixThresholdDrainsFromStartIff` | processor/beacon_message_processor.go:266 | slots are drained from their very start if and only if genesis is at least 24 |
| `Rollup.OnGridIffSlotStart` | processor/beacon_message_processor.go:171 | an instant is on the 12-second grid from genesis if and only if it is the start of some slot |
| `Rollup.GridCount` | processor/beacon_message_processor.go:171 | any stretch of n slot lengths after genesis holds exactly n slot starts |
| `Rollup.HourHas300SlotsIff` | migrations/002_define_mv.sql:49-62 | an hour window holds exactly 300 slot starts if and only if genesis is less than one slot after its beginning |
| `Rollup.CompletenessCountIsCoverage` | migrations/002_define_mv.sql:49-62 | if the alias's rows are on the grid, counting 300 distinct slot starts means every slot of the hour has a row of that alias, and conversely |
| `Rollup.TriggerRange` | migrations/002_define_mv.sql:26-29 | a run reads exactly hour h - 2 if and only if it triggers from 60 s before to 3540 s after mark h |
| `Rollup.WindowsTile` | migrations/002_define_mv.sql:47-48 | on such a schedule every instant is in the window of exactly one run |
| `Rollup.SelectedIff` | migrations/002_define_mv.sql:46-63 | a run selects a row if and only if it is the run of the row's hour, the hour is complete for the alias in its table and the latency is below the limit |
| `Rollup.RollupsCountEachRowOnce` | migrations/002_define_mv.sql:30-64 | while the table grows, the runs of a schedule together count the seen_count of every admissible row stored in time, with its hour complete by then, exactly once and nothing else |
| `Rollup.RollupsMissNothingIff` | migrations/002_define_mv.sql:30-64 | what the runs count plus what late rows lose is what the final table justifies, and nothing is lost if and only if each weighty row, and a row of every slot of its hour, was stored before the hour's run |
| `Rollup.NoLateRowsLosesNothing` | migrations/002_define_mv.sql:46-63 | if no row of an hour is stored after that hour's run, the runs count the final table's total |
| `Rollup.LateSlotLosesTheHour` | migrations/002_define_mv.sql:49-62 | if one slot of an hour has no row when its run triggers, no run ever selects any row of that alias and hour |
| `EndToEnd.SavedByNextPass` | processor/beacon_message_processor.go:241-288 | if saves succeed, an accepted record is saved by the end of the next whole pass whose threshold it is below |
| `EndToEnd.NextWholePass` | processor/beacon_message_processor.go:241-262 | after any event the serving loop begins and ends a whole pass within the ticker gap plus twice the pass bound |
| `EndToEnd.Deadline` | migrations/002_define_mv.sql:29-48 | an eligible arrival plus 2773 s is before every run whose window holds its slot start |
| `EndToEnd.DeadlineIsTight` | migrations/002_define_mv.sql:29-48 | with one nanosecond more it is not |
| `EndToEnd.StoredBeforeItsRollup` | migrations/002_define_mv.sql:47-63 | with a pass within the 2773 s slack, a record with true latency in 0 to 768 s is saved, with an admitted latency, before the run that considers its slot |
| `EndToEnd.NoRowMissesItsRollup` | migrations/002_define_mv.sql:29-63 | the same for the serving loop: no eligible row arrives after its hour was aggregated |
| `EndToEnd.SavedRowsAreOnGrid` | processor/beacon_message_processor.go:171-190 | over every run in that time, a saved record has a slot whose start fits the clock, so its stored slot start is on the chain's grid |
| `EndToEnd.SavedRowIsExact` | repository/clickhouse.go:117-135 | in disciplined runs each saved record has a row with its slot's start, its delay in milliseconds, the node's settings, and a seen_count equal to the arrivals of the message up to its pop |
| `EndToEnd.WrappedRowIsOffGrid` | processor/beacon_message_processor.go:171 | the slot start stored for slot 2050477055857969 would be 5 s off the grid |
| `EndToEnd.RecordIsAggregatedIff` | migrations/002_define_mv.sql:46-63 | the row of a timely record is in the table when its hour's run triggers, and the run selects it if and only if the hour is complete for the node by then |
| `EndToEnd.TimelyHourIsAggregated` | migrations/002_define_mv.sql:46-63 | if every slot of an hour had one timely record, the hour's run selects the row of every timely record of the hour |
| `EndToEnd.HourTotalIsArrivals` | migrations/002_define_mv.sql:30-64 | if saved records are stored once each, the sum of seen_count a run takes over the node is exactly the arrivals of its records of the hour that are not too late, if the hour is complete, and 0 otherwise |
| `EndToEnd.TimelyHourTotal` | migrations/002_define_mv.sql:30-64 | with a timely record for every slot of the hour, it is those arrivals |
| `EndToEnd.PremisesCanBeMet` | processor/beacon_message_processor.go:265-310 | the assumptions on runs and tables are met by the run of one message |
| `Text.ContainsAcrossSlash` | gossip/handler.go:18-46 | a pattern without a slash occurs in a topic only inside one segment |
| `Text.DecimalIsPlain` | gossip/gossipsub.go:142-152 | subnet numbers are written without leading zeros |
| `Topics.NameContainsIff` | gossip/handler.go:18-46 | one message name occurs in another only where sync_committee begins the contribution name |
| `Topics.TopicContainsIff` | gossip/handler.go:18-46 | for every fork digest and subnet index a generated topic contains exactly its own name, and sync_committee for contributions |
| `Topics.ClassifiesIff` | gossip/handler.go:20-45 | a switch over all names, in any order, classifies every generated topic correctly if and only if it tests contributions before sync_committee |
| `Topics.DispatchersAgree` | processor/beacon_message_processor.go:313-337 | handler switch, score switch and topic group agree on every generated topic |
| `Topics.UnknownTopicIff` | processor/beacon_message_processor.go:313-337 | a topic has no handler, and the group unknown, if and only if no message name occurs in it |
| `Topics.ParsePanicsIff` | processor/beacon_message_processor.go:340-343 | parsing runs out of range if and only if the topic has fewer than three slashes |
| `Topics.ParseGenerated` | processor/beacon_message_processor.go:340-343 | parsing a generated topic returns the digest text and the name with its index |
| `Topics.TopicParts` | gossip/gossipsub.go:142-152 | a generated topic splits into an empty part, eth2, the digest text, the name with its index, and ssz_snappy |
| `Topics.LabelVectors` | gossip/gossipsub.go:126-152 | the name part of each kind of topic, with its subnet number where it has one |
| `Topics.TopicInjective` | gossip/gossipsub.go:142-152 | a topic determines its digest, kind and subnet index |
| `TopicList.GenerateTopics` | gossip/gossipsub.go:126-152 | the nested loops list every kind and subnet exactly once, in the generator's order |
| `TopicList.GeneratedAreDistinct` | gossip/gossipsub.go:142-152 | no topic is generated twice |
| `Decay.ThresholdClosedForm` | gossip/peer_score.go:431-433 | a counter fed before each decay is threshold * (1 - d^n) after n steps |
| `Decay.DeficitClosedForm` | gossip/peer_score.go:426-433 | at exactly the expected rate the deficit is threshold * d^n, never zero, and 1% of the threshold after cnt steps |
| `Decay.DistanceToLimit` | gossip/peer_score.go:435-440 | a counter fed after each decay is (limit - x) * d^n away from the decay limit |
| `Decay.NeverPassesLimit` | gossip/peer_score.go:435-440 | it is at or below the limit after n steps if and only if it started there |
| `Decay.DecayPerEpochIsSlower` | gossip/peer_score.go:426-429 | applied per epoch, what is left after the decay period is the slots-per-epoch-th root of 1%, which is 1% only for one-slot epochs |
| `Decay.SteadyMeshCounter` | gossip/peer_score.go:118 | with decay once per epoch of s slots, the uncut mesh traffic of a peer at the expected rate is s * threshold * (1 - d^n) just after decay n, at the threshold if and only if s * (1 - d^n) >= 1 |
| `Decay.SteadyFirstCounter` | gossip/peer_score.go:118 | likewise its uncut first-delivery traffic is s * cap * (1 - d^n) just before decay n, at or below the cap if and only if s * (1 - d^n) <= 1 |
| `Decay.FirstStaysUnderCapIff` | gossip/peer_score.go:118 | the uncut first-delivery traffic stays at or below the cap for ever if and only if an epoch is one slot |
| `Decay.MeshStaysShortIff` | gossip/peer_score.go:118 | the uncut mesh traffic is short of the threshold for ever if and only if an epoch is one slot |
| `Decay.CounterAt` | gossip/peer_score.go:118-119 | n decays and k slots on, a counter cut at its cap at every slot and dropped to zero below 0.01 is the uncut traffic, cut once at the last decay and once now, if the traffic makes up for a decay |
| `Decay.TooFewNeverAdd` | gossip/peer_score.go:118-119 | if a decay leaves less than 0.01 of an epoch's traffic, the counter never holds more than the current epoch's |
| `Decay.FirstFullIff` | gossip/peer_score.go:170-184 | at every instant the first-delivery counter is full if and only if a slot has passed since the last decay and s * (1 - d^n) * d + k * (1 - d) >= 1 |
| `Decay.MeshFullIff` | gossip/peer_score.go:173-188 | at every instant the mesh counter, cut at four thresholds, is at its threshold if and only if s * (1 - d^n) * d + k * (1 - d) >= d |
| `ScoreParams.CommitteesMatchSpecIff` | gossip/peer_score.go:161-167 | the committee clamp equals get_committee_count_per_slot if and only if the estimate is below 8192 or at least 266240 |
| `ScoreParams.AttestationPanicsIff` | gossip/peer_score.go:198-230 | which of the three panics is raised for which estimate; none if and only if it is at least 6144 |
| `ScoreParams.AttestationThresholdIff` | gossip/peer_score.go:235-236 | the mesh threshold is positive, and the penalty weight finite, if and only if the estimate is at least 184320 |
| `ScoreParams.AttestationDecayPeriods` | gossip/peer_score.go:212-225 | first and mesh deliveries decay over 4 and 16 epochs from 266240 validators on, over 1 and 4 below |
| `ScoreParams.SyncSubnetPanicsIff` | gossip/peer_score.go:289-308 | no panic if and only if the estimate is at least 12 |
| `ScoreParams.SyncSubnetThresholdIff` | gossip/peer_score.go:313-314 | the mesh threshold is positive, and the penalty weight finite, if and only if the estimate is at least 360 |
| `Calibration.TrafficIsCalibrated` | gossip/peer_score.go:170-195 | parameters built from a positive mesh rate satisfy the four calibration equations |
| `Calibration.BuildersAreCalibratedIff` | gossip/peer_score.go:160-336 | aggregate and contribution parameters always do; attestation and sync subnet parameters if and only if the estimate is at least 184320 and 360 |
| `Calibration.ScoreIsAtMostFifty` | gossip/peer_score.go:28-37 | under the gossipsub score function a calibrated topic pays at most 50 times its weight, and exactly that if and only if both credits are full and nothing is held against the peer |
| `Calibration.ScoreClosedForm` | gossip/peer_score.go:442-444 | the score of a calibrated topic in closed form: credits in proportion to time in mesh and first deliveries, less maxScore times the squared relative deficit, the failures over the squared threshold and the squared invalid messages |
| `Calibration.WorstCostsMaxScore` | gossip/peer_score.go:442-444 | a maximal mesh deficit and a single invalid message each cost exactly maxScore |
| `Calibration.SteadyPeerAsCoded` | gossip/peer_score.go:118-188 | as coded, a peer at exactly the expected rates has its topic's full score n decays and k slots on if and only if k >= 1 and 32 * (1 - d^n) * d + k * (1 - d) is at least 1 for the first decay and at least d for the mesh decay |
| `Calibration.SteadyPeerAroundDecays` | gossip/peer_score.go:118-188 | it is never full just after decay n, and full just before it if and only if 32 * (1 - d^n) is at least 1 for the first decay and at least d for the mesh decay; after both decay periods, with uncut traffic past four times its marks, it is full whenever a slot has passed since the last decay |
| `Calibration.SteadyPeerIfDecayedPerSlot` | gossip/peer_score.go:170-175 | the intended half: decayed once per slot, such a peer would respect the cap, be 1% short of the threshold after the period and lose a ten-thousandth of maxScore |
| `Calibration.MaxScoreShortfall` | gossip/peer_score.go:35-38 | for any weights, the maximum as written is 50 times all of them if and only if contributions and sync committees weigh the same, and is off by 50 times the difference; 10 short with the source's |
| `PeerScore.Scorer.Params` | gossip/peer_score.go:76-105 | the loop's result, first panic and final estimate are those of the fold over the topics |
| `PeerScore.BuildUnderOverwrite` | gossip/peer_score.go:289-292 | overwriting the estimate changes a topic's parameters exactly for attestations from 6144 and aggregates from 266240 validators |
| `PeerScore.ParamsAreOrderFreeIff` | gossip/peer_score.go:76-105 | the loop refines the order-free map if and only if no sync-committee topic precedes a topic it changes; if some builder panics on the configured estimate, so does the loop |
| `PeerScore.GeneratedIsNotStale` | gossip/gossipsub.go:126-152 | the generated list satisfies that condition |
| `PeerScore.SecondCallPanics` | gossip/peer_score.go:198-210 | on the generated list the first call succeeds and leaves 512 behind, and a second call panics for want of validators |
| `ParamLaws.BuildMeetsLaws` | gossip/peer_score.go:135-424 | what each builder returns, in numbers: weights, caps and thresholds as equations in the estimate and the decay, credits, penalties, decay periods, window and activation |
| `ParamLaws.UnknownIsUnscored` | gossip/peer_score.go:100-104 | a topic of no known kind never moves the score |
| `ParamLaws.LoopMeetsLaws` | gossip/peer_score.go:76-105 | on every list without a stale topic the map the loop returns gives every topic the parameters its kind promises |
| `ParamLaws.GeneratedMeetsLaws` | gossip/peer_score.go:76-105 | on the generated list, from 6144 validators on, every topic has the parameters of its own kind |
| `ParamLaws.GeneratedWeights` | gossip/gossipsub.go:126-152 | the generated list has 7 topics beside those of the subnets, and its topics weigh 1.7 plus 0.8, 1/64 and 1/10 per blob, attestation and sync-committee subnet |
| `Prune.TotalPeerCount` | host/host.go:201-207 | counts the distinct remote peers of the connection list |
| `Prune.CollectScores` | gossip/gossipsub.go:260-267 | one entry per connected peer, the lowest of the scores the snapshots gave when its connections were read, 0 where it had none |
| `Prune.BadPeerIff` | gossip/gossipsub.go:226-232 | a peer is bad if and only if it has a snapshot with a score below -100 |
| `Prune.SortByScore` | gossip/gossipsub.go:273-275 | a sorted permutation |
| `Prune.PrunePeers` | gossip/gossipsub.go:250-288 | whatever the score reads and the second connection list are, the closed peers are the longest prefix of a score order whose peers are within the excess or bad when looked at |
| `Prune.PrunesBadPlusExcess` | gossip/gossipsub.go:277-288 | if all reads see one snapshot and the connected peers do not change, exactly the bad peers and the excess first peers in score order are closed |
| `Prune.BadSurvivesIff` | gossip/gossipsub.go:226-232 | otherwise each peer that is bad while closing survives if and only if a still good peer beyond the excess stands before it in the order of the earlier scores |
| `Prune.StaleReadKeepsBadPeer` | gossip/gossipsub.go:280-283 | a concrete pair of snapshots under which a bad peer survives |
| `Prune.PruningMeetsItsGoals` | gossip/gossipsub.go:277-288 | said on the snapshots themselves: no peer below -100 survives, no closed peer's score is above a kept one's (without a snapshot it is 0), at most the target remains, and beyond the excess only peers below -100 are closed |
| `Prune.PruningIsDeterminedIff` | gossip/gossipsub.go:269-288 | under one snapshot, all prunings close the same peers, whatever the map iteration and the sort do, if and only if no good peer inside the excess ties with the first one outside it |

## Left out

- Prune.SortByScore: builds a sorted sequence instead of sorting a slice in place; only sortedness and permutation are used.
- FlushTheorems.Coupling: that messages are counted before they are processed and accepted once is an assumption about libp2p's duplicate suppression, which is not part of this model.
- EndToEnd.NoRowMissesItsRollup: assumes that saves succeed and takes the bounds on add delay, ticker gap and pass length as parameters; the 10 s save timeout is not derived from them.
- EndToEnd.HourTotalIsArrivals: takes as given that each saved record is stored once and that nothing else is stored under the node's alias.
- EndToEnd.TimelyHourIsAggregated: takes as given that the table holds the row of every saved record, and that rows which earlier processes or other nodes stored under the same alias lie on the slot grid.
- ScoreParams.AttestationThresholdIff: arithmetic is over the reals, so float64 rounding is not modelled; an infinite weight is a separate constructor.
- Calibration.SteadyPeerAsCoded: traffic comes in whole slots and decays fall between two of them; mesh rates are at least a ninetieth of a message per slot, as every non-zero one of the source is.
- Decay factors are any reals d with 0 < d < 1 and d^cnt = 1/100; the value of `math.Pow` is not computed.
- Slot decoding, SSZ and snappy, message-id hashing, per-fork handler tables and slot extractors: type tables and foreign code.
- General messages and their asynchronous save, logging, and the notification channel: no effect on flush results.
- ClickHouse itself, partial batch failures, retries, and the quantiles and averages of the rollup: a save succeeds or fails as a whole, and only `sum(seen_count)` is modelled.
- Time zones with a fractional-hour offset in `toStartOfHour`: hours are Unix hours.
- Discovery, dialing, request/response, command line, supervision, inbound and outbound peer counts, thresholds and the behaviour penalty of the score parameters: configuration and I/O.
