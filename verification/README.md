# Coppa: transmit audio path and closed-loop measurement core

A Dafny model of two parts of the Coppa modem, with proofs.

**The transmit audio path** (crate `coppa-audio`). A transmission's samples pass through a
resampling sink, a bounded ring and a device callback, and the transmitter may be released only
when the last of them has been played. The model covers the playback progress record (a
single-writer seqlock), the flush handshake between the stream's owner and the device callback,
the chunked callback with its lanes and deadlines, the resampling sink and source with their
accounting, and the raw PCM stream reader and writer.

**The measurement core** (crates `coppa-bench` and `coppa-ml`). The linear-fractional oracle that
bounds what any rate choice could have achieved, and the cyclic-prefix switching policy with the
placebo arm that must rebuild on exactly the frames the adaptive arm does.

The modules, each in the file of its name:

| module | what it holds |
|---|---|
| `Wrappers`, `Basics` | option and result types; arithmetic and sequence facts |
| `Goodput`, `Oracle`, `OracleLadder`, `OracleArms` | goodput, best arms, the oracle's iteration, its cut-off, its place above every arm and under wider candidate lists |
| `BenchCells` | the bench's own candidates (nine speed levels, one or two cyclic prefixes) and the oracle over them |
| `CpGate`, `CpPolicy`, `ClosedLoop` | the spread gate, the switching policy over whole runs, the arms' frame loop |
| `Seqlock` | publisher and readers, one step per atomic access |
| `FlushProtocol`, `FlushProgress` | owner, callback and error callback, one step per access to shared state; what uninterrupted calls do and that discards get served |
| `Lanes`, `Playout` | lane routing; ring, fill, deadlines and the chunked device callback |
| `Conversion`, `SinkBooks`, `Resampler` | converter and ledger; the sink's bookkeeping; the resampling source and sink |
| `RawPcm` | headerless PCM reader and writer |

Concurrent code is a transition system whose runs are arbitrary event lists, so a lemma about
`Run(events)` or `RunFrom(Start(capacity), events)` speaks of every interleaving. Code that updates
objects is a class whose methods are proved against specification functions. The block converter is
any deterministic function of the blocks since its last reset that keeps two laws (`Lawful`); inner
sinks and sources accept, play, fail and return as they please, and record what they were asked and
answered.

## What the proofs found

- The oracle's cap of 64 rounds can bite: on one frame with 66 candidates it reports 3/4489 bit/s
  where 1 bit/s is available (`CapOf64Understates`). Two conditions on the frames rule that out, and
  both are in the contract of `OracleGoodputBps`: fewer than 64 spare candidates in all, or fewer
  than 64 distinct prices at which some frame can move to cheaper air, however long the run. One
  round more than the spare candidates is always enough and on the ladder never one too many
  (`OptimalAfterEnoughRounds`, `LadderNeedsEveryRound`). What was returned is optimal exactly when
  one more round would not improve it (`OptimalIffNoImprovingRound`).
- "64 is far beyond any real bench schedule" holds: the bench's candidates, nine or eighteen a frame,
  have at most 52 such prices whatever was delivered, so its oracle is the true optimum for runs of any
  length (`BenchOracleIsOptimal`) and its comparator table is ordered as it should be (`Comparators`).
- More candidates can lower the oracle: a frame that had none has to spend air once it has one
  (`FillingAnEmptyFrameCanHurt`). It is not lowered exactly when the frames gain no less than nothing
  in worth at the old optimum (`MoreCandidatesHelpIff`); for one filled frame, exactly when some
  candidate is worth its air at that price (`FillingAnEmptyFrameHelpsIff`).
- A discard on a stream that has just failed reports zero at once, while a callback already past its
  failure check still hands its samples to the device (`FailedDiscardCanStillPlay`). This happens
  exactly when that callback has a valid timestamp and holds a sample or has one to read
  (`FailedStreamIsSilentIff`, `FailedDiscardIsFinalIff`).
- A published deadline may precede the exact end of a later chunk's samples, by less than a
  nanosecond (`LaterDeadlineCanBeEarly`, `DeadlineIsTight`); `DeadlineIsEarlyIff` says exactly when.
- After a failed flush that had fed padding, more samples and a second flush, progress can stop short
  of the accepted count forever (`PaddingCanHideSamples`, `OvershootHappens`). `ResamplingSink.Flush`
  states exactly when, as a condition on the state before it (`Overshot`).
- A device callback with an invalid delay and more than 1024 frames takes at most 1024 samples from
  the ring, those of its first chunk, where an unsplit fill would take as many as there are frames
  (`OutputCallback`); either way none is counted and the stream fails.
- A resampling sink at equal rates passes samples through but reports no drop and no progress
  (`ResamplingSink.DiscardBuffered`, `ResamplingSink.ProgressFromHardware`). `LiveSink::new`
  (crates/coppa-audio/src/cpal_backend.rs:1106-1113) never builds one at equal rates, so only direct
  users of the sink meet this.
- "Off by at most half a step" holds for a 16-bit write exactly when the value is not beyond full
  scale by more than half a step; +1.0 itself is off by a whole one (`HalfStep`, `FullScaleIsOffByOne`).

## Model

| member | source | states |
|---|---|---|
| Goodput.SlotIsCounted | crates/coppa-bench/src/adaptive_goodput.rs:126-134 | one more slot adds its airtime always and its payload bits only if it was delivered |
| Goodput.GoodputIsRatio | crates/coppa-bench/src/adaptive_goodput.rs:112-124 | goodput times airtime is delivered bits, and goodput is 0 where no air was spent |
| Goodput.ScoreIsWorth | crates/coppa-bench/src/adaptive_goodput.rs:97-105 | a slot is worth its payload if delivered, nothing otherwise, less the price of its air in either case |
| Goodput.PickedTotals | crates/coppa-bench/src/adaptive_goodput.rs:210-227 | the payload and air of a run of choices are those of the chosen slots, a missed index adding neither |
| Goodput.BestArm | crates/coppa-bench/src/adaptive_goodput.rs:138-155 | none for no arms; otherwise the lowest index among the arms of highest goodput, with that goodput |
| Goodput.BestArmByBits | crates/coppa-bench/src/adaptive_goodput.rs:248-263 | the same for delivered bits |
| Oracle.PickBest | crates/coppa-bench/src/adaptive_goodput.rs:196-207 | the lowest index of the highest shadow-priced score, 0 for a frame without candidates |
| Oracle.RoundChoosesBest | crates/coppa-bench/src/adaptive_goodput.rs:190-208 | one round's picks are worth at least as much, at its price, as any other choice function, over exponentially many |
| Oracle.OptimalIffFixedPoint | crates/coppa-bench/src/adaptive_goodput.rs:229-238 | a price is beaten by no choice function if and only if the round at that price achieves no more than it |
| Oracle.OracleNeverOverstates | crates/coppa-bench/src/adaptive_goodput.rs:161-167 | at any cut-off the returned goodput is exactly what the returned choices achieve |
| Oracle.OptimalIffNoImprovingRound | crates/coppa-bench/src/adaptive_goodput.rs:178-244 | the cut-off oracle is the maximum over all choice functions if and only if one more round would not improve on it |
| Oracle.ImprovingRoundShrinks | crates/coppa-bench/src/adaptive_goodput.rs:179-184 | a round that raises the price strictly lowers the chosen total airtime, and a natural measure bounded by the spare candidates |
| Oracle.OptimalAfterEnoughRounds | crates/coppa-bench/src/adaptive_goodput.rs:179-184 | cut off no earlier than one round after the number of spare candidates, the iteration is at the optimum over all choice functions |
| Oracle.SpareCandidates | crates/coppa-bench/src/adaptive_goodput.rs:179-184 | the spare candidates are all candidates less the frames that have any |
| Oracle.OptimalWhenRatesAreFew | crates/coppa-bench/src/adaptive_goodput.rs:179-189 | so it is one round after the number of prices at which some frame can move to cheaper air, independently of the number of frames |
| Oracle.AllTradesCover | crates/coppa-bench/src/adaptive_goodput.rs:97-105 | a list of every non-negative ratio of bits given up to air saved, between two candidates of one frame, holds all those prices |
| Oracle.OracleGoodputBps | crates/coppa-bench/src/adaptive_goodput.rs:178-244 | the capped loop computes the iteration; what it reports, times the air of the chosen slots, is the payload of those that were delivered; it is optimal when the spare candidates, or the prices at which a frame can move to cheaper air, number fewer than 64 |
| Oracle.OptimumBoundsBits | crates/coppa-bench/src/adaptive_goodput.rs:157-177 | no choice delivers more payload than the optimum makes of the air it spends, and the chosen one delivers just that |
| OracleLadder.CapTooSmall | crates/coppa-bench/src/adaptive_goodput.rs:179-189 | for every cap there is a one-frame input on which the capped result is not optimal, and what it is there |
| OracleLadder.LadderNeedsEveryRound | crates/coppa-bench/src/adaptive_goodput.rs:179-189 | on a ladder the result is optimal if and only if the cut-off is at least one round more than the spare candidates |
| OracleLadder.CapOf64Understates | crates/coppa-bench/src/adaptive_goodput.rs:184-189 | the cap of 64 on 66 candidates: 3/4489 reported, 1 available |
| OracleArms.OracleDominatesArms | crates/coppa-bench/src/adaptive_goodput.rs:169-177 | the optimum on the transposed matrix is at least every fixed arm's goodput |
| OracleArms.CappedOracleDominatesArms | crates/coppa-bench/src/adaptive_goodput.rs:169-189 | under either condition on the cap, the capped result is at least every fixed arm's goodput |
| OracleArms.MoreCandidatesNeverHurt | crates/coppa-bench/src/adaptive_goodput.rs:157-177 | adding candidates to frames that have some never lowers the optimum |
| OracleArms.MoreCandidatesHelpIff | crates/coppa-bench/src/adaptive_goodput.rs:157-177 | adding candidates to any frames, empty or not, does not lower the optimum if and only if the frames' best worth at the old optimum does not fall in sum |
| OracleArms.FillingAnEmptyFrameHelpsIff | crates/coppa-bench/src/adaptive_goodput.rs:213-227 | candidates on one frame that had none do not lower it if and only if one of them is worth its air at the old optimum |
| OracleArms.FillingAnEmptyFrameCanHurt | crates/coppa-bench/src/adaptive_goodput.rs:213-227 | a concrete candidate that does not pay lowers it from 2 to 1 |
| OracleArms.OracleBitsDominates | crates/coppa-bench/src/adaptive_goodput.rs:265-281 | the airtime-blind oracle is at least the delivered payload of every choice function |
| OracleArms.OracleBitsAttained | crates/coppa-bench/src/adaptive_goodput.rs:265-281 | and some choice function attains it |
| OracleArms.OracleBitsDominatesArms | crates/coppa-bench/src/adaptive_goodput.rs:265-281 | and so is at least every arm's delivered bits |
| BenchCells.NoSlotIff | crates/coppa-bench/src/adaptive_goodput.rs:75-94 | a slot is refused exactly for a level outside 1 to 9 or a profile without data carriers |
| BenchCells.CellTables | crates/coppa-bench/src/adaptive_goodput.rs:80-94 | the payload bits and airtime of every level on both profile pairs, from the level tables and the framing arithmetic |
| BenchCells.CellsCover | crates/coppa-bench/diagnostics/closed_loop_arq.rs:742-757 | frames of nine or eighteen cells, whatever was delivered, move to cheaper air only at prices of one list of fewer than 64 |
| BenchCells.BenchOracleIsOptimal | crates/coppa-bench/src/adaptive_goodput.rs:179-184 | so on such frames the cap of 64 gives the optimum over all choice functions, for runs of any length |
| BenchCells.OracleOfCells | crates/coppa-bench/diagnostics/closed_loop_arq.rs:735-739 | the oracle over the transposed cells is optimal and at least every cell's goodput |
| BenchCells.Comparators | crates/coppa-bench/diagnostics/closed_loop_arq.rs:1007-1010 | best long cell <= best cell <= joint oracle, and best long cell <= long oracle <= joint oracle, each the true maximum |
| CpGate.GateClosedForm | crates/coppa-ml/src/cp_gate.rs:85-107 | after any readings the gate recommends short CP if and only if the last `needed` are all below the threshold |
| CpPolicy.CpPolicy.constructor | crates/coppa-bench/src/cp_arm.rs:227-236 | a new policy boots on long CP with nothing pending |
| CpPolicy.CpPolicy.Observe | crates/coppa-bench/src/cp_arm.rs:246-292 | one outcome takes the policy's state to the specification's next state and returns a switch if one was recorded |
| CpPolicy.CpPolicy.ModeForFrame | crates/coppa-bench/src/cp_arm.rs:301-310 | asking for a frame's mode applies a due switch and nothing else |
| CpPolicy.GateSeesDecodedOnly | crates/coppa-bench/src/cp_arm.rs:252-256 | over any run the gate's state is that after the decoded readings alone |
| CpPolicy.RunIsCoherent | crates/coppa-bench/src/cp_arm.rs:246-310 | over any run: switches chain from long CP, each decided no earlier than the one before took effect, effective `latency + 1` frames after its decision |
| CpPolicy.RecommendedIff | crates/coppa-ml/src/cp_gate.rs:85-107 | over any run short CP is recommended if and only if the last four decoded readings were all below 2.5 ms |
| CpPolicy.ModeInClosedForm | crates/coppa-bench/src/cp_arm.rs:294-310 | the mode of every frame is the target of the last switch effective by then, long CP before any |
| CpPolicy.AppliedIffEffective | crates/coppa-bench/src/cp_arm.rs:312-327 | a frame applies a switch if and only if it is the effective frame of a recorded switch |
| CpPolicy.ModeChangesOnlyByApplication | crates/coppa-bench/src/cp_arm.rs:297-309 | the mode never changes without an application |
| CpPolicy.RecordedIffNotInFlight | crates/coppa-bench/src/cp_arm.rs:258-273 | a frame records a switch if and only if the recommendation moved on it and no switch was in flight |
| CpPolicy.SwitchFollowsTransition | crates/coppa-bench/src/cp_arm.rs:275-291 | every switch goes to what the gate newly recommended on its deciding frame, at that frame's level |
| CpPolicy.ShortNeedsFourCalmReadings | crates/coppa-bench/src/cp_arm.rs:137-143 | a switch to short CP implies the last four decoded readings were below the threshold, the last on the deciding frame |
| CpPolicy.LongNeedsOneHighReading | crates/coppa-ml/src/cp_gate.rs:102-105 | a switch to long CP implies a reading at or above the threshold on the deciding frame |
| CpPolicy.NoOpIffOddDrops | crates/coppa-bench/src/cp_arm.rs:267-291 | a switch keeps the mode if and only if an odd number of transitions was dropped since the switch before |
| CpPolicy.ZeroLatencyAlternates | crates/coppa-bench/src/cp_arm.rs:219-227 | without latency switch directions strictly alternate, starting with short CP |
| CpPolicy.SwitchCountBound | crates/coppa-bench/src/cp_arm.rs:282-286 | a run of n frames has at most ceil(n / (latency + 1)) switches and none in its first three frames |
| ClosedLoop.ProfileChangeIsApplication | crates/coppa-bench/diagnostics/closed_loop_arq.rs:536-551 | the profile-inequality test never triggers a rebuild by itself |
| ClosedLoop.RunArm | crates/coppa-bench/diagnostics/closed_loop_arq.rs:497-560 | for every arm kind and run: the recorded switches, a rebuild on exactly the due frames, the profile of its mode on every frame; a fixed arm keeps the mode it was given, the placebo long CP, and the adaptive arm starts on long CP |
| ClosedLoop.RebuildFramesAre | crates/coppa-bench/diagnostics/closed_loop_arq.rs:536-560 | the rebuild frames rise, and are the frames on the placebo's list, or those some recorded switch takes effect on |
| ClosedLoop.RunSwitchAndPlacebo | crates/coppa-bench/diagnostics/closed_loop_arq.rs:832-851 | the placebo arm rebuilds on exactly the adaptive arm's rebuild frames, whatever either measures, and sends every frame as the fixed long-CP arm does |
| ClosedLoop.NoOpSwitchRebuilds | crates/coppa-bench/diagnostics/closed_loop_arq.rs:538-545 | a concrete 19-frame run whose second switch goes from short CP to short CP and is rebuilt on all the same |
| Seqlock.RunKeepsInv | crates/coppa-audio/src/playout.rs:122-147 | every interleaving of publisher and readers keeps the protocol's invariant |
| Seqlock.SnapshotsAreCoherent | crates/coppa-audio/src/playout.rs:132-147 | a snapshot whose last attempt spans fewer than 2^63 publishes returns a pair published together (or the initial one), the latest when it returned, so at least as recent as any publish finished before it began |
| Seqlock.LogOnlyGrows | crates/coppa-audio/src/playout.rs:122-147 | what was published and returned by then stays the beginning of what is published and returned later |
| Seqlock.SnapshotsNeverGoBack | crates/coppa-audio/src/playout.rs:132-147 | a snapshot returned later shows a publish no earlier, so a count no lower |
| Seqlock.OnePublish | crates/coppa-audio/src/playout.rs:122-131 | five steps of the publisher leave the pair in place, one more publish in the history and the sequence number even again |
| Seqlock.SnapshotAlone | crates/coppa-audio/src/playout.rs:132-147 | a snapshot begun and finished with no publish under way returns the newest pair, in five steps |
| Seqlock.SnapshotReturns | crates/coppa-audio/src/playout.rs:132-147 | with no publish under way a reader anywhere in a snapshot returns within seven of its own steps |
| Seqlock.WrappedSnapshotTears | crates/coppa-audio/src/playout.rs:123-130 | with 2^63 publishes inside one attempt a pair nobody published is returned: the bound is needed |
| FlushProtocol.RunKeeps | crates/coppa-audio/src/playout.rs:98-120 | every interleaving of owner, callback and failure keeps the protocol's invariant |
| FlushProtocol.SettledForGood | crates/coppa-audio/src/playout.rs:204-239 | a sample once handed over, flushed or lost keeps that fate in every continuation |
| FlushProtocol.DiscardIsFinal | crates/coppa-audio/src/cpal_backend.rs:696-713 | once a served discard has reported, no sample accepted before its request is handed over or counted as consumed later, in any continuation |
| FlushProtocol.DropsAreExact | crates/coppa-audio/src/cpal_backend.rs:707-712 | reported drops never underflow and add up to what was reported of `flushed`; under the no-write contract handed, lost and reported account for every sample accepted before the request |
| FlushProtocol.Conservation | crates/coppa-audio/src/cpal_backend.rs:596-616 | capped writes never overflow; what writes returned was accepted; unfailed and at rest, accepted == consumed + flushed + in the ring |
| FlushProtocol.PlayedMeansNothingPending | crates/coppa-audio/src/playout.rs:37-59 | when the consumed count reaches accepted less reported drops, nothing is in the ring, in hand, or flushed and unreported |
| FlushProtocol.PlaysInOrder | crates/coppa-audio/src/playout.rs:204-239 | without flush and failure the device was handed exactly the samples popped, in the order accepted |
| FlushProtocol.DevicePlaysTheStream | crates/coppa-audio/src/cpal_backend.rs:596-616 | an owner that retries what was not accepted has a prefix of its stream played, nothing skipped or repeated, whether or not the stream fails |
| FlushProtocol.FailureFreezes | crates/coppa-audio/src/playout.rs:215-219 | after a failure with no callback past its check nothing more is handed over and the count is frozen |
| FlushProtocol.FailedStreamIsSilentIff | crates/coppa-audio/src/playout.rs:204-239 | on a failed stream, in any reachable state, nothing more is handed over or counted in any continuation if and only if no callback past its check, with a valid timestamp, holds a sample or has or gets one to read |
| FlushProtocol.FailedDiscardIsFinalIff | crates/coppa-audio/src/cpal_backend.rs:694-702 | a discard that finds the stream failed returns at once, and what was played by then is final if and only if the same holds at its check |
| FlushProtocol.FailedDiscardCanStillPlay | crates/coppa-audio/src/cpal_backend.rs:694-702 | a concrete interleaving in which it is not: a sample is handed over after the discard returned |
| FlushProgress.WriteAlone | crates/coppa-audio/src/cpal_backend.rs:599-616 | a write not interrupted accepts, in order, exactly what fits, and returns how much |
| FlushProgress.FailedWrite | crates/coppa-audio/src/cpal_backend.rs:602-608 | on a failed stream a write is refused and accepts nothing |
| FlushProgress.CallbackAlone | crates/coppa-audio/src/playout.rs:204-239 | a callback not interrupted drops and counts the whole ring if a flush is pending, then hands over as much as it has room for and the ring holds, or loses it and fails the stream when untimed, or touches nothing on a failed stream |
| FlushProgress.DiscardRequests | crates/coppa-audio/src/cpal_backend.rs:696-706 | a discard called on an unfailed stream makes one request, unless one is pending, at the accepted count of the moment |
| FlushProgress.ServedDiscardReports | crates/coppa-audio/src/cpal_backend.rs:707-712 | a discard whose request is served reports once, exactly what was flushed and not reported before, and is over |
| FlushProgress.UnservedDiscardWaits | crates/coppa-audio/src/playout.rs:106-110 | one whose request is not served reports nothing and keeps it |
| FlushProgress.ContractKeptIff | crates/coppa-audio/src/cpal_backend.rs:696-712 | the contract the drops are exact under is kept if and only if no write was called while a discard was pending |
| FlushProgress.CallbackServes | crates/coppa-audio/src/playout.rs:112-120 | in every interleaving a callback that begins after a request has served it by the time it reads the ring, failed stream or not |
| FlushProgress.DiscardCanReport | crates/coppa-audio/src/cpal_backend.rs:691-713 | from every reachable state of an unfailed stream, steps of owner and callback alone bring a discard to its report |
| Lanes.ExtractAfterRoute | crates/coppa-audio/src/cpal_backend.rs:999-1012 | what is routed into a lane is what is extracted from it, and every other value is silence |
| Lanes.LaneIsItsSlots | crates/coppa-audio/src/cpal_backend.rs:999-1005 | two buffers have the same lane if and only if they agree on the lane's slots, whatever else they carry |
| Lanes.RoutedAppend | crates/coppa-audio/src/cpal_backend.rs:1007-1012 | routing whole frames in two parts is routing them at once |
| Lanes.ExtractLane | crates/coppa-audio/src/cpal_backend.rs:999-1005 | fills as much of the mono buffer as there are whole frames with their lane and leaves the rest |
| Lanes.RouteLane | crates/coppa-audio/src/cpal_backend.rs:1007-1012 | the buffer becomes silence but for the lane, which carries as many samples as there are whole frames for; nothing outside it changes |
| Playout.AudioRing.Write | crates/coppa-audio/src/ringbuf.rs:43-55 | appends what fits, in order, and counts the rest as overflow |
| Playout.AudioRing.Read | crates/coppa-audio/src/ringbuf.rs:76-83 | moves the oldest samples into a prefix of the buffer and leaves the rest of it |
| Playout.AudioRing.Drain | crates/coppa-audio/src/ringbuf.rs:91-97 | empties the ring and returns how many samples it held |
| Playout.WriteCapped | crates/coppa-audio/src/cpal_backend.rs:599-616 | fails exactly when the stream is stopped, failed or abandoned; otherwise accepts the prefix that fits and never overflows |
| Playout.ProgressShared.ServeFlush | crates/coppa-audio/src/playout.rs:112-120 | serves a pending flush by dropping and counting everything in the ring, and otherwise does nothing |
| Playout.FillOutput | crates/coppa-audio/src/playout.rs:204-239 | real samples then silence; silence only on a failed stream or a delay that is invalid or over 10 s, which fails the stream; the count is published for the real prefix, with a deadline less than a nanosecond after the exact end of its samples, counted from the entry and the whole playback delay, or the 64-bit limit; nothing for silence |
| Playout.NanosCeilIsLeast | crates/coppa-audio/src/playout.rs:182-187 | the duration is the least whole nanosecond count not shorter than the samples |
| Playout.PlayedOnlyAfterDeadline | crates/coppa-audio/src/playout.rs:57-59 | progress is refused exactly on a failed stream; otherwise it shows the count and the time left, and the release test holds if and only if the count is reached and the published end has passed |
| Playout.DeadlineIsTheEnd | crates/coppa-audio/src/playout.rs:234-237 | a deadline is the least nanosecond at which the samples have played, starting at the entry (never before the base instant) plus the playback delay, or the 64-bit limit |
| Playout.DeadlinesRise | crates/coppa-audio/src/playout.rs:234-237 | a later non-empty chunk's deadline is never before an earlier one's, at any rate, chunk and fill |
| Playout.DeadlineIsTight | crates/coppa-audio/src/cpal_backend.rs:664-676 | a deadline is less than a nanosecond before the exact end of its last real sample, and never before it in the first chunk or when the offset rounded up |
| Playout.DeadlineIsEarlyIff | crates/coppa-audio/src/cpal_backend.rs:664-676 | a deadline precedes the exact end of its chunk's samples if and only if the chunk's start was rounded down by more than the samples' end was rounded up, in terms of the two remainders |
| Playout.LaterDeadlineCanBeEarly | crates/coppa-audio/src/cpal_backend.rs:667-675 | a concrete later chunk whose deadline is early |
| Playout.OutputCallback | crates/coppa-audio/src/cpal_backend.rs:649-669 | for every buffer length, lane, ring content, delay and failure: the chunked callback leaves in the buffer what one unsplit fill would, takes the ring prefix that fill would (with an invalid delay no more than the first chunk's 1024 samples of it), counts what it hands over, and publishes deadlines that never fall, the last for the last real sample, within one nanosecond before and one and a half after the exact end of all the samples handed over (in the first chunk never before it), delay included |
| Conversion.MapRealReaches | crates/coppa-audio/src/resampler.rs:209-258 | the ceiling used by flush and the floor used by the mapping fit: a segment's count is mapped in full if and only if the hardware count reaches what flush waits for |
| Conversion.MapRealIsGreatest | crates/coppa-audio/src/resampler.rs:209-216 | the mapped count is the most engine samples that last no longer than the hardware samples past the delay |
| Conversion.SegmentLedger | crates/coppa-audio/src/resampler.rs:200-215 | a segment's marks rise strictly in hardware, never fall in engine samples, and stay within the segment and what was accepted |
| Conversion.ShortOfTheEnd | crates/coppa-audio/src/resampler.rs:259-274 | every mark before the end of a segment's output is short of its accepted count |
| Conversion.Completion | crates/coppa-audio/src/resampler.rs:282-299 | once output reaches what is needed: below its end progress is strictly less than accepted, from its end on it is what the newest non-empty conversion credited |
| Conversion.AnswersAtBlocks | crates/coppa-audio/src/resampler.rs:200-215 | at the end of every block that returned something the answer is the mapped count of the output so far, capped by the samples accepted by then |
| Conversion.LookupPruned | crates/coppa-audio/src/resampler.rs:284-299 | looking up the pruned ledger equals looking up the never-pruned one |
| Conversion.LookupIsSafe | crates/coppa-audio/src/resampler.rs:282-299 | no answer exceeds the engine count proportional to the hardware count less the filter delay, across segments, flushes and discards |
| Conversion.LookupIsProportional | crates/coppa-audio/src/resampler.rs:209-216 | no answer exceeds what the delay-corrected mapping of the running segment makes of the queried count itself |
| Conversion.OutputIsDetermined | crates/coppa-audio/src/resampler.rs:219-280 | the blocks a finished segment is converted in are determined by its input alone |
| Conversion.CountingIsLawful | crates/coppa-audio/src/resampler.rs:147-155 | the converter laws can be met at any positive rates and delay |
| Conversion.PaddingCanHideSamples | crates/coppa-audio/src/resampler.rs:238-252 | a lawful converter and a padded, failed, resumed segment whose completion is never credited |
| SinkBooks.ConvertKeeps | crates/coppa-audio/src/resampler.rs:192-207 | converting a block, padded or not, keeps counters, ledger and the record of what went in and out consistent |
| SinkBooks.FinishingEnds | crates/coppa-audio/src/resampler.rs:253-279 | when finishing ends, progress is full from the end of the output if and only if the segment had not overshot when it began; without earlier padding it never has |
| SinkBooks.OvershootHappens | crates/coppa-audio/src/resampler.rs:238-258 | a lawful converter and a state that keeps the sink's whole invariant, after a padded flush that failed and one more sample, that has overshot |
| SinkBooks.KeptLedgerAnswers | crates/coppa-audio/src/resampler.rs:284-299 | for any query the kept ledger answers as the full one does at the later of the query and the last pruned mark |
| SinkBooks.ProgressIsMonotoneAndSafe | crates/coppa-audio/src/resampler.rs:282-299 | a later query is answered no smaller, no larger than the mapping of the queried count, and never ahead of the hardware less the delay |
| SinkBooks.ProgressSurvivesDiscard | crates/coppa-audio/src/resampler.rs:390-401 | no answer before a discard exceeds any answer after it, whatever is transmitted since |
| Resampler.ResamplingSource.Read | crates/coppa-audio/src/resampler.rs:57-103 | for any inner reads and buffer sizes: returned samples and residual are the converter's output on its blocks, inner samples are blocks and buffer; it returns as much of the residual, or of one newly converted block, as the buffer holds, and otherwise passes on the inner source's error or emptiness, losing nothing |
| Resampler.SourcesAgree | crates/coppa-audio/src/resampler.rs:57-103 | two sources fed from one stream return the same samples as far as both have got |
| Resampler.ResamplingSink.New | crates/coppa-audio/src/resampler.rs:140-175 | fails if and only if a rate is zero; otherwise an empty sink, in order at once over an unstarted inner sink and from its first start over any other |
| Resampler.ResamplingSink.DrainPending | crates/coppa-audio/src/resampler.rs:177-190 | keeps the sink's invariant; an error is a failed offer, and whatever is still pending was offered just so and not taken; over a sink that takes some of every offer nothing stays pending |
| Resampler.ResamplingSink.ConvertChunk | crates/coppa-audio/src/resampler.rs:192-207 | requires nothing pending; the books become those of one more block, and the invariant holds even when the inner write fails |
| Resampler.ResamplingSink.Write | crates/coppa-audio/src/resampler.rs:320-345 | accepts a prefix, exactly counted; short only after the pending rest was offered and none of it taken; an error only from a failed offer, after exactly a counted prefix; all of it over a sink that takes some of every offer; equal rates pass through |
| Resampler.ResamplingSink.PushThrough | crates/coppa-audio/src/resampler.rs:223-274 | delivers everything buffered and enough silence, or fails, leaving what was accepted intact, only after a failed offer or more fruitless offers than polls; terminates by the converter's bounded lag |
| Resampler.ResamplingSink.Flush | crates/coppa-audio/src/resampler.rs:219-280 | after success: engine progress is strictly less than accepted below the generated hardware count, and equal to it from there on if and only if, before the flush, it was not so that samples had been accepted since the newest mark while output already sufficed and the padded input added none; never so without an earlier failed, padded flush, and then the delivered samples are the converter's output on the padded input; it fails only after a failed offer or more fruitless offers than polls, and never over a sink that takes some of every offer |
| Resampler.ResamplingSink.Prune | crates/coppa-audio/src/resampler.rs:285-290 | forgets passed marks only, so no later answer changes |
| Resampler.ResamplingSink.MappedAt | crates/coppa-audio/src/resampler.rs:284-299 | answers as the never-pruned ledger does, for every query not older than an earlier one, and states what it answers otherwise |
| Resampler.ResamplingSink.ProgressFromHardware | crates/coppa-audio/src/resampler.rs:301-309 | translates the count, keeps the remaining time, and never exceeds the delay-corrected proportional count; at equal rates it reports none |
| Resampler.ResamplingSink.DiscardBuffered | crates/coppa-audio/src/resampler.rs:379-403 | dropped + played == accepted, dropped at least the held input, played is the progress at the consumed count; pending and failed discards change nothing; at equal rates it reports zero; an error or a wait is the inner sink's |
| Resampler.ResamplingSink.Start | crates/coppa-audio/src/resampler.rs:351-365 | forgets everything of the stream before, or changes nothing when the inner start fails, which alone makes it fail |
| Resampler.ResamplingSink.FinishInput | crates/coppa-audio/src/resampler.rs:372-374 | a transmission finished without an earlier failed flush completes exactly when all its output has played |
| Resampler.ResamplingSink.NothingIsLost | crates/coppa-audio/src/resampler.rs:120-137 | in every valid state: generated == consumed + inner buffer + pending; delivered and undelivered samples are the converter's output on what was fed; no mark credits a sample still buffered |
| Resampler.ResamplingSink.PlayedMeansNothingPending | crates/coppa-audio/src/resampler.rs:282-309 | after a complete finish, translated progress reaches the accepted count if and only if the device has consumed all output generated, and then nothing is buffered, pending or undelivered anywhere |
| Resampler.Transmit | crates/coppa-audio/src/resampler.rs:320-345 | a whole transmission offered in any pieces with retried suffixes and then finished is delivered as the converter's output on its padded blocks, and completes exactly at the end of its output; it succeeds over a sink that takes some of every offer, and otherwise fails only by a failed or fruitless offer, or for want of pieces |
| Resampler.TransmitTwice | crates/coppa-audio/src/resampler.rs:219-280 | one input through two sinks, in different pieces and with different delays, is delivered as the same samples |
| RawPcm.RoundTrip | crates/coppa-audio/src/file_backend.rs:358-369 | writing back what was read reproduces the bytes of the whole samples, in both formats |
| RawPcm.DecodedValue | crates/coppa-audio/src/file_backend.rs:358-369 | a 16-bit sample is the signed little-endian word over 32768, a float the little-endian bit pattern |
| RawPcm.WrittenValue | crates/coppa-audio/src/file_backend.rs:235-240 | a 16-bit write is the value times 32768 to the nearest integer, halves away from zero, clamped to 16 bits |
| RawPcm.HalfStep | crates/coppa-audio/src/file_backend.rs:235-240 | a 16-bit write is off by at most half a step if and only if the value is at most half a step beyond full scale |
| RawPcm.FullScaleIsOffByOne | crates/coppa-audio/src/file_backend.rs:235-240 | +1.0 is off by a whole step |
| RawPcm.PcmIsMonotone | crates/coppa-audio/src/file_backend.rs:238-240 | louder is never written softer |
| RawPcm.DecodeAppend | crates/coppa-audio/src/file_backend.rs:358-369 | decoding whole samples first and the rest later is decoding at once |
| RawPcm.RawPcmReader.Fill | crates/coppa-audio/src/file_backend.rs:340-356 | interruptions are retried; an error is a failed read and changes nothing; otherwise the carry grows or the stream has ended |
| RawPcm.RawPcmReader.StartsWithWavHeader | crates/coppa-audio/src/file_backend.rs:330-337 | true if and only if the rest of the stream starts with RIFF; nothing is lost |
| RawPcm.RawPcmReader.DecodeInto | crates/coppa-audio/src/file_backend.rs:358-369 | decodes as many whole samples as are carried and wanted, and keeps the rest |
| RawPcm.RawPcmReader.Read | crates/coppa-audio/src/file_backend.rs:373-394 | for any splits, buffers, interruptions and errors: what was returned is the decoding of a prefix of the stream, nothing of which is lost; a buffer is left unfilled only with less than a sample carried, and the stream is not read while a whole one is; nothing returned means the end of the whole stream, decoded, with the trailing count equal to its length modulo the width; errors are failed reads |
| RawPcm.RawPcmWriter.Write | crates/coppa-audio/src/file_backend.rs:434-448 | writes every sample's bytes in order, or fails after a prefix of them |
| RawPcm.CopyStream | crates/coppa-audio/src/file_backend.rs:373-448 | copying a stream through reader and writer reproduces all its bytes but for an incomplete last sample, and comes to its end when nothing fails |

## Left out

- CPAL devices, stream building, name resolution and error text: foreign calls and hardware.
- The `rtrb` queue's internals: the ring is a bounded FIFO; in `FlushProtocol` its pushes, pops and free-space reads are single steps.
- The rubato filter's sample values: only determinism, reset, and the two laws of `Lawful`; `process` errors are not modelled.
- f32 and f64 rounding: rates, airtimes, spreads and sample values are reals or integers; NaN is not modelled.
- Weak memory: steps are sequentially consistent; the fences of the seqlock and the flush handshake are not modelled.
- Wall clock: instants are nanoseconds after the stream's base; the 5 s limit of `flush` is a number of polls chosen by the caller.
- 64-bit wrap-around of sample and flush counters, and the saturating multiplications of the resampling sink's mapping: unbounded integers there; only the seqlock's sequence number wraps.
- Playout.OutputCallback: no write, flush request or failure arrives while the callback runs (in `FlushProtocol` they come between any two steps of it, a chunked callback being consecutive fills), and the callback is entered no earlier than the stream's base instant.
- Playout.ChunkOffset: the offset is rounded to the nearest nanosecond from exact arithmetic, without the double-precision division.
- Resampler.ResamplingSink.MappedAt: a field update of the program's shared-reference cells is an ordinary update here.
- RawPcm.RawPcmWriter.Write: samples are of the writer's own kind; writing float bit patterns as 16-bit levels is not modelled.
- RawPcm.RawPcmReader.Fill: a stream that interrupts forever is not modelled.
- BenchCells.ForLevel: one code block a frame, at the 960-point transform and 48 kHz clock that all four of the bench's profiles have.
- `RateLoop`, ARQ, LDPC, OFDM and the channel: levels, decodes and spreads are arbitrary inputs of the closed loop.
- `switch_airtime_s`, goodput with switch cost, histograms and report printing: they would only add easy members.
- WAV and raw f32 files, VOX, the C and Python bindings: the same.
