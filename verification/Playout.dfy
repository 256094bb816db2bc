/** Playback bookkeeping of one output stream: the sample ring, the shared
    progress record, and the device callback that fills its buffer in chunks.
    Instants are nanoseconds after the stream's base instant. */
module Playout {
  import opened Wrappers
  import opened Basics
  import opened Lanes

  const MAX_PLAYBACK_DELAY: nat := 10_000_000_000
  const U64_MAX: nat := 0xFFFF_FFFF_FFFF_FFFF

  // -------------------------------------------------------------------- ring

  /** The bounded single-producer single-consumer sample queue. */
  class AudioRing {
    const capacity: nat
    var queue: seq<Sample>
    var overflowCount: nat

    ghost predicate Valid()
      reads this
    {
      |queue| <= capacity
    }

    constructor (capacity: nat)
      ensures Valid() && this.capacity == capacity && queue == [] && overflowCount == 0
    {
      this.capacity := capacity;
      this.queue := [];
      this.overflowCount := 0;
    }

    function Available(): int
      reads this
    {
      capacity - |queue|
    }

    /** Takes what fits, in order; the rest is dropped and counted. */
    method Write(samples: seq<Sample>) returns (written: nat)
      requires Valid()
      modifies this
      ensures Valid() && written == Min(|samples|, capacity - |old(queue)|)
      ensures queue == old(queue) + samples[..written]
      ensures overflowCount == old(overflowCount) + |samples| - written
    {
      written := Min(|samples|, Available());
      overflowCount := overflowCount + (|samples| - written);
      for i := 0 to written
        invariant queue == old(queue) + samples[..i]
        invariant overflowCount == old(overflowCount) + |samples| - written
      {
        assert samples[..i + 1] == samples[..i] + [samples[i]];
        queue := queue + [samples[i]];
      }
    }

    /** Moves the oldest samples into `buf[..count]`. */
    method Read(buf: array<Sample>, count: nat) returns (read: nat)
      requires Valid() && count <= buf.Length
      modifies this, buf
      ensures Valid() && read == Min(count, |old(queue)|)
      ensures buf[..read] == old(queue)[..read] && queue == old(queue)[read..]
      ensures buf[read..] == old(buf[read..]) && overflowCount == old(overflowCount)
    {
      read := Min(count, |queue|);
      for i := 0 to read
        invariant queue == old(queue)[i..]
        invariant buf[..i] == old(queue)[..i] && buf[i..] == old(buf[i..])
        invariant overflowCount == old(overflowCount)
      {
        buf[i] := queue[0];
        queue := queue[1..];
      }
    }

    method Drain() returns (dropped: nat)
      requires Valid()
      modifies this
      ensures Valid() && dropped == |old(queue)| && queue == [] && overflowCount == old(overflowCount)
    {
      dropped := 0;
      while queue != []
        invariant dropped + |queue| == |old(queue)| <= capacity && overflowCount == old(overflowCount)
        decreases |queue|
      {
        queue := queue[1..];
        dropped := dropped + 1;
      }
    }
  }

  // ---------------------------------------------------------------- progress

  datatype Progress = Progress(consumed: nat, remaining: nat) {
    predicate HasPlayed(target: nat) {
      consumed >= target && remaining == 0
    }
  }

  /** Nanoseconds `samples` take at `rate`, rounded up. */
  function SamplesToNanosCeil(samples: nat, rate: nat): nat
    requires rate > 0
  {
    (samples * 1_000_000_000 + rate - 1) / rate
  }

  /** The least whole number of nanoseconds not shorter than the samples. */
  lemma NanosCeilIsLeast(samples: nat, rate: nat)
    requires rate > 0
    ensures var c := SamplesToNanosCeil(samples, rate);
            samples * 1_000_000_000 <= c * rate < samples * 1_000_000_000 + rate
  {
    var x := samples * 1_000_000_000 + rate - 1;
    DivBounds(x, rate);
  }

  /** A published end of playback, clamped to 64 bits. */
  function Clamped(nanos: nat): nat {
    Min(nanos, U64_MAX)
  }

  /** When the last of `read` samples entered at `entry` ends playing. */
  function DeadlineOf(entry: int, delay: nat, read: nat, rate: nat): nat
    requires rate > 0
  {
    Clamped((if entry < 0 then 0 else entry) + delay + SamplesToNanosCeil(read, rate))
  }

  /** `deadline` is the least whole nanosecond at which `samples` samples that
      start to play at `start` have all played, or 64 bits' worth when that is later. */
  ghost predicate EndsPlaying(deadline: nat, start: nat, samples: nat, rate: nat) {
    if deadline < 0xFFFF_FFFF_FFFF_FFFF then
      start <= deadline && samples * 1_000_000_000 <= (deadline - start) * rate < samples * 1_000_000_000 + rate
    else
      && deadline == 0xFFFF_FFFF_FFFF_FFFF
      && (start <= deadline ==> (deadline - start) * rate < samples * 1_000_000_000 + rate)
  }

  /** The published deadline is the end of the samples after the entry (not before
      the base instant) and the whole playback delay. */
  lemma DeadlineIsTheEnd(entry: int, delay: nat, read: nat, rate: nat)
    requires rate > 0
    ensures EndsPlaying(DeadlineOf(entry, delay, read, rate), (if entry < 0 then 0 else entry) + delay, read, rate)
  {
    NanosCeilIsLeast(read, rate);
    var start: nat := (if entry < 0 then 0 else entry) + delay;
    var ceil := SamplesToNanosCeil(read, rate);
    hide SamplesToNanosCeil;
    if start <= 0xFFFF_FFFF_FFFF_FFFF < start + ceil {
      MulLe(0xFFFF_FFFF_FFFF_FFFF - start, ceil, rate);
    }
  }

  class ProgressShared {
    var consumed: nat
    var deadlineNanos: nat
    var failed: bool
    var flushRequested: nat
    var flushServed: nat
    var flushed: nat
    /** Every deadline ever published, in order. */
    ghost var deadlines: seq<nat>

    constructor ()
      ensures consumed == 0 && deadlineNanos == 0 && !failed && deadlines == []
      ensures flushRequested == 0 && flushServed == 0 && flushed == 0
    {
      consumed, deadlineNanos, failed, deadlines := 0, 0, false, [];
      flushRequested, flushServed, flushed := 0, 0, 0;
    }

    predicate FlushPending()
      reads this
    {
      flushRequested != flushServed
    }

    method Publish(consumed: nat, deadlineNanos: nat)
      modifies this`consumed, this`deadlineNanos, this`deadlines
      ensures this.consumed == consumed && this.deadlineNanos == deadlineNanos
      ensures deadlines == old(deadlines) + [deadlineNanos]
    {
      this.consumed := consumed;
      this.deadlineNanos := deadlineNanos;
      deadlines := deadlines + [deadlineNanos];
    }

    /** Serves a pending flush by dropping what the ring holds. */
    method ServeFlush(ring: AudioRing)
      requires ring.Valid()
      modifies this`flushed, this`flushServed, ring
      ensures ring.Valid() && !FlushPending() && ring.overflowCount == old(ring.overflowCount)
      ensures ring.queue == if old(FlushPending()) then [] else old(ring.queue)
      ensures flushed == old(flushed) + if old(FlushPending()) then |old(ring.queue)| else 0
    {
      if flushRequested == flushServed {
        return;
      }
      var dropped := ring.Drain();
      flushed := flushed + dropped;
      flushServed := flushRequested;
    }

    /** Progress seen at `now`; none from a failed stream. */
    function ProgressAt(now: nat): Result<Progress>
      reads this
    {
      if failed then Err("output stream failed")
      else Ok(Progress(consumed, if deadlineNanos > now then deadlineNanos - now else 0))
    }
  }

  class CallbackState {
    var consumed: nat
    const sampleRate: nat

    constructor (sampleRate: nat)
      ensures consumed == 0 && this.sampleRate == (if sampleRate < 1 then 1 else sampleRate)
    {
      this.consumed := 0;
      this.sampleRate := if sampleRate < 1 then 1 else sampleRate;
    }
  }

  predicate DelayIsValid(delay: Option<nat>) {
    delay.Some? && delay.value <= MAX_PLAYBACK_DELAY
  }

  /** How many of `queue`'s samples a callback of `count` values hands over. */
  function HandedOver(queue: seq<Sample>, count: nat, failed: bool, delay: Option<nat>): (n: nat)
    ensures n <= |queue| && n <= count && (n > 0 ==> DelayIsValid(delay))
  {
    if failed || !DelayIsValid(delay) then 0 else Min(count, |queue|)
  }

  /** Reads what there is into `data[..count]` and pads it with silence. */
  method ReadAndPad(ring: AudioRing, data: array<Sample>, count: nat) returns (read: nat)
    requires ring.Valid() && count <= data.Length
    modifies ring, data
    ensures ring.Valid() && ring.overflowCount == old(ring.overflowCount) && read == Min(count, |old(ring.queue)|)
    ensures ring.queue == old(ring.queue)[read..]
    ensures data[..count] == old(ring.queue)[..read] + Zeros(count - read) && data[count..] == old(data[count..])
  {
    hide Zeros;
    read := ring.Read(data, count);
    ghost var filled := data[..];
    assert filled[..read] == old(ring.queue)[..read] && filled[read..] == old(data[read..]);
    Silence(data, read, count);
    assert data[..count] == data[..read] + data[read..count];
  }

  /** Silencing the real prefix too leaves only silence. */
  lemma AllSilenced(was: seq<Sample>, now: seq<Sample>, read: nat, count: nat)
    requires read <= count <= |was| == |now| && was[read..count] == Zeros(count - read)
    requires now[0..read] == Zeros(read) && now[read..] == was[read..]
    ensures now[..count] == Zeros(count) && now[count..] == was[count..]
  {
    hide Zeros;
    ZerosAppend(read, count - read);
    assert now[..count] == now[0..read] + now[read..][..count - read];
    assert now[read..][..count - read] == was[read..count];
    assert now[count..] == now[read..][count - read..] && was[count..] == was[read..][count - read..];
  }

  /** Fills `data[..count]` with real samples, then silence, and publishes the
      progress of the real prefix. */
  method FillOutput(ring: AudioRing, data: array<Sample>, count: nat, shared: ProgressShared, state: CallbackState,
                    entry: int, delay: Option<nat>)
    returns (handed: nat)
    requires ring.Valid() && count <= data.Length && state.sampleRate > 0
    modifies ring, data, shared, state
    ensures ring.Valid() && ring.overflowCount == old(ring.overflowCount)
    ensures !shared.FlushPending() && shared.flushRequested == old(shared.flushRequested)
    ensures shared.flushed == old(shared.flushed) + if old(shared.FlushPending()) then |old(ring.queue)| else 0
    ensures var queue := if old(shared.FlushPending()) then [] else old(ring.queue);
            && handed == HandedOver(queue, count, old(shared.failed), delay)
            && data[..count] == queue[..handed] + Zeros(count - handed)
            && data[count..] == old(data[count..])
            && ring.queue == (if old(shared.failed) then queue else queue[Min(count, |queue|)..])
            && shared.failed == (old(shared.failed) || (!DelayIsValid(delay) && Min(count, |queue|) > 0))
    ensures state.consumed == old(state.consumed) + handed
    ensures handed == 0 ==>
              && shared.consumed == old(shared.consumed) && shared.deadlineNanos == old(shared.deadlineNanos)
              && shared.deadlines == old(shared.deadlines)
    ensures handed > 0 ==>
              && shared.consumed == state.consumed
              && shared.deadlineNanos == DeadlineOf(entry, delay.value, handed, state.sampleRate)
              && shared.deadlines == old(shared.deadlines) + [shared.deadlineNanos]
    ensures handed > 0 ==>
              && delay.Some? && delay.value <= 10_000_000_000
              && EndsPlaying(shared.deadlineNanos, (if entry < 0 then 0 else entry) + delay.value, handed, state.sampleRate)
    ensures !old(shared.failed) && !old(shared.FlushPending()) && delay.Some? && delay.value <= 10_000_000_000 ==>
              handed == Min(count, |old(ring.queue)|)
  {
    hide DeadlineOf, Zeros, EndsPlaying;
    shared.ServeFlush(ring);
    if shared.failed {
      Silence(data, 0, count);
      return 0;
    }
    var read := ReadAndPad(ring, data, count);
    if read == 0 {
      return 0;
    }
    if !(delay.Some? && delay.value <= MAX_PLAYBACK_DELAY) {
      shared.failed := true;
      ghost var was := data[..];
      assert was[read..count] == was[..count][read..];
      Silence(data, 0, read);
      AllSilenced(was, data[..], read, count);
      return 0;
    }
    state.consumed := state.consumed + read;
    shared.Publish(state.consumed, DeadlineOf(entry, delay.value, read, state.sampleRate));
    DeadlineIsTheEnd(entry, delay.value, read, state.sampleRate);
    handed := read;
  }

  /** The release test is met only at or after the published end, and at every
      instant from then on. */
  lemma PlayedOnlyAfterDeadline(shared: ProgressShared, now: nat, target: nat)
    ensures shared.ProgressAt(now).Err? <==> shared.failed
    ensures !shared.failed ==>
              var seen := shared.ProgressAt(now).value;
              && (seen.HasPlayed(target) <==> shared.consumed >= target && now >= shared.deadlineNanos)
              && seen.consumed == shared.consumed
              && now + seen.remaining == if now < shared.deadlineNanos then shared.deadlineNanos else now
  {
  }

  /** The owner's write: refused unless the stream runs, unfailed, with its
      callback alive; otherwise it offers only what fits, so nothing overflows. */
  method WriteCapped(ring: AudioRing, abandoned: bool, running: bool, progress: Option<ProgressShared>, samples: seq<Sample>)
    returns (r: Result<nat>)
    requires ring.Valid()
    modifies ring
    ensures ring.Valid() && ring.overflowCount == old(ring.overflowCount)
    ensures r.Ok? <==> running && progress.Some? && !progress.value.failed && !abandoned
    ensures match r
      case Ok(n) => n == Min(|samples|, ring.capacity - |old(ring.queue)|) && ring.queue == old(ring.queue) + samples[..n]
      case Err(_) => ring.queue == old(ring.queue)
  {
    if !running || progress.None? {
      return Err("output stream is not running");
    }
    if progress.value.failed {
      return Err("output stream failed");
    }
    if abandoned {
      return Err("output stream callback is gone");
    }
    var take := Min(|samples|, ring.Available());
    var written := ring.Write(samples[..take]);
    assert samples[..take][..written] == samples[..written];
    return Ok(written);
  }

  // ------------------------------------------------------- chunked callback

  /** When chunk `k` of a device buffer starts, to the nearest nanosecond. */
  function ChunkOffset(k: nat, rate: nat): nat
    requires rate > 0
  {
    (2 * k * 1024 * 1_000_000_000 + rate) / (2 * rate)
  }

  lemma OffsetIsNearest(k: nat, rate: nat)
    requires rate > 0
    ensures 2 * k * 1024 * 1_000_000_000 < 2 * (ChunkOffset(k, rate) * rate) + rate
    ensures 2 * (ChunkOffset(k, rate) * rate) <= 2 * k * 1024 * 1_000_000_000 + rate
  {
    DivBounds(2 * k * 1024 * 1_000_000_000 + rate, 2 * rate);
  }

  /** Deadlines of successive non-empty chunks never decrease. */
  lemma DeadlinesRise(entry: nat, delay: nat, rate: nat, p: nat, m: nat, q: nat, n: nat)
    requires rate > 0 && p < q && m <= 1024 && n >= 1
    ensures DeadlineOf(entry + ChunkOffset(p, rate), delay, m, rate) <= DeadlineOf(entry + ChunkOffset(q, rate), delay, n, rate)
  {
    OffsetIsNearest(p, rate);
    OffsetIsNearest(q, rate);
    NanosCeilIsLeast(m, rate);
    NanosCeilIsLeast(n, rate);
    var a := ChunkOffset(p, rate) + SamplesToNanosCeil(m, rate);
    var b := ChunkOffset(q, rate) + SamplesToNanosCeil(n, rate);
    RiseByMultiplying(a, b, rate, p, m, q, n, ChunkOffset(p, rate), ChunkOffset(q, rate),
                      SamplesToNanosCeil(m, rate), SamplesToNanosCeil(n, rate));
  }

  lemma RiseByMultiplying(a: nat, b: nat, rate: nat, p: nat, m: nat, q: nat, n: nat, op: nat, oq: nat, cm: nat, cn: nat)
    requires rate > 0 && p < q && m <= 1024 && n >= 1 && a == op + cm && b == oq + cn
    requires 2 * (op * rate) <= 2 * p * 1024 * 1_000_000_000 + rate
    requires 2 * q * 1024 * 1_000_000_000 < 2 * (oq * rate) + rate
    requires cm * rate < m * 1_000_000_000 + rate && cn * rate >= n * 1_000_000_000
    ensures a <= b
  {
    AtLeastOnce(cn, rate);
    Distribute(op, cm, rate);
    Distribute(oq, cn, rate);
    var opR, oqR, cmR, cnR := op * rate, oq * rate, cm * rate, cn * rate;
    assert 2 * (opR + cmR) < 2 * (oqR + cnR) + 2 * rate;
    LessByFactor(a, b, rate);
  }

  lemma AtLeastOnce(c: nat, d: nat)
    requires c * d > 0
    ensures d <= c * d
  {
    MulLe(1, c, d);
  }

  lemma LessByFactor(a: nat, b: nat, d: nat)
    requires d > 0 && a * d < b * d + d
    ensures a <= b
  {
    if a > b {
      MulLe(b + 1, a, d);
    }
  }

  /** A deadline is never more than a nanosecond before the exact end of the
      chunk's last real sample, and in the first chunk it is never before it. */
  lemma DeadlineIsTight(k: nat, n: nat, rate: nat)
    requires rate > 0
    ensures (ChunkOffset(k, rate) + SamplesToNanosCeil(n, rate)) * rate > (k * 1024 + n) * 1_000_000_000 - rate
    ensures 2 * (ChunkOffset(k, rate) + SamplesToNanosCeil(n, rate)) * rate < 2 * (k * 1024 + n) * 1_000_000_000 + 3 * rate
    ensures k == 0 ==> (ChunkOffset(k, rate) + SamplesToNanosCeil(n, rate)) * rate >= n * 1_000_000_000
    ensures ChunkOffset(k, rate) * rate >= k * 1024 * 1_000_000_000 ==>
              (ChunkOffset(k, rate) + SamplesToNanosCeil(n, rate)) * rate >= (k * 1024 + n) * 1_000_000_000
  {
    OffsetIsNearest(k, rate);
    NanosCeilIsLeast(n, rate);
    var o, c := ChunkOffset(k, rate), SamplesToNanosCeil(n, rate);
    Distribute(o, c, rate);
  }

  /** `deadline` is at most one nanosecond before the exact end of `samples` samples
      that start to play at `start`, and at most one and a half after it. */
  ghost predicate EndsNear(deadline: nat, start: nat, samples: nat, rate: nat) {
    if deadline < 0xFFFF_FFFF_FFFF_FFFF then
      && start <= deadline && (deadline - start) * rate > samples * 1_000_000_000 - rate
      && 2 * (deadline - start) * rate < 2 * samples * 1_000_000_000 + 3 * rate
    else
      && deadline == 0xFFFF_FFFF_FFFF_FFFF
      && (start <= deadline ==> 2 * (deadline - start) * rate < 2 * samples * 1_000_000_000 + 3 * rate)
  }

  /** The deadline of chunk `k`'s `n` samples is that of all samples up to them. */
  lemma ChunkDeadlineIsNear(entry: nat, delay: nat, k: nat, n: nat, rate: nat)
    requires rate > 0
    ensures EndsNear(DeadlineOf(entry + ChunkOffset(k, rate), delay, n, rate), entry + delay, k * 1024 + n, rate)
    ensures k == 0 ==> EndsPlaying(DeadlineOf(entry + ChunkOffset(k, rate), delay, n, rate), entry + delay, n, rate)
  {
    DeadlineIsTight(k, n, rate);
    DeadlineIsTheEnd(entry + ChunkOffset(k, rate), delay, n, rate);
    if k == 0 {
      FirstOffset(rate);
    }
    var start, length := entry + delay, ChunkOffset(k, rate) + SamplesToNanosCeil(n, rate);
    hide SamplesToNanosCeil, ChunkOffset, EndsPlaying;
    if start <= 0xFFFF_FFFF_FFFF_FFFF < start + length {
      MulLe(0xFFFF_FFFF_FFFF_FFFF - start, length, rate);
    }
    Doubled(length, rate);
    Doubled(DeadlineOf(entry + ChunkOffset(k, rate), delay, n, rate) - start, rate);
  }

  lemma LastChunkIsNear(entry: nat, delay: Option<nat>, handed: nat, rate: nat)
    requires rate > 0 && handed > 0 && DelayIsValid(delay)
    ensures delay.Some? && delay.value <= 10_000_000_000
    ensures var k := (handed - 1) / 1024;
            var deadline := DeadlineOf(entry + ChunkOffset(k, rate), delay.value, handed - k * 1024, rate);
            && EndsNear(deadline, entry + delay.value, handed, rate)
            && (handed <= 1024 ==> EndsPlaying(deadline, entry + delay.value, handed, rate))
  {
    var k := (handed - 1) / 1024;
    hide DeadlineOf, ChunkOffset, EndsNear, EndsPlaying;
    ChunkDeadlineIsNear(entry, delay.value, k, handed - k * 1024, rate);
  }

  lemma Doubled(x: int, rate: nat)
    ensures 2 * x * rate == 2 * (x * rate)
  {
  }

  lemma FirstOffset(rate: nat)
    requires rate > 0
    ensures ChunkOffset(0, rate) == 0
  {
    DivModUnique(rate, 2 * rate, 0, rate);
  }

  /** Exactly when a deadline precedes the exact end of its samples: the chunk's
      start was rounded down, and by more than the samples' end was rounded up. */
  lemma DeadlineIsEarlyIff(k: nat, n: nat, rate: nat)
    requires rate > 0
    ensures var past, over := k * 1024 * 1_000_000_000 % rate, n * 1_000_000_000 % rate;
            (ChunkOffset(k, rate) + SamplesToNanosCeil(n, rate)) * rate < (k * 1024 + n) * 1_000_000_000 <==>
            2 * past < rate && past > if over == 0 then 0 else rate - over
  {
    NearestOf(k * 1024 * 1_000_000_000, rate);
    CeilOf(n * 1_000_000_000, rate);
    Distribute(ChunkOffset(k, rate), SamplesToNanosCeil(n, rate), rate);
  }

  lemma NearestOf(x: nat, rate: nat)
    requires rate > 0
    ensures (2 * x + rate) / (2 * rate) * rate == x - x % rate + if 2 * (x % rate) < rate then 0 else rate
  {
    var q, r := x / rate, x % rate;
    assert x == q * rate + r;
    if 2 * r < rate {
      DivModUnique(2 * x + rate, 2 * rate, q, 2 * r + rate);
    } else {
      Distribute(q, 1, rate);
      DivModUnique(2 * x + rate, 2 * rate, q + 1, 2 * r - rate);
    }
  }

  lemma CeilOf(x: nat, rate: nat)
    requires rate > 0
    ensures (x + rate - 1) / rate * rate == if x % rate == 0 then x else x - x % rate + rate
  {
    var q, r := x / rate, x % rate;
    assert x == q * rate + r;
    if r == 0 {
      DivModUnique(x + rate - 1, rate, q, rate - 1);
    } else {
      Distribute(q, 1, rate);
      DivModUnique(x + rate - 1, rate, q + 1, r - 1);
    }
  }

  /** A later chunk's deadline can precede the exact end of its samples: its
      offset rounds down and its samples take a whole number of nanoseconds. */
  lemma LaterDeadlineCanBeEarly()
    ensures (ChunkOffset(2, 44_100) + SamplesToNanosCeil(441, 44_100)) * 44_100 < (2 * 1024 + 441) * 1_000_000_000
  {
  }

  /** The real samples chunk `k` carries when `total` are handed over in all. */
  function ChunkReal(total: nat, k: nat): (n: nat)
    ensures n <= 1024
  {
    if total <= k * 1024 then 0 else Min(1024, total - k * 1024)
  }

  /** The deadlines the first `chunks` chunks publish, one per non-empty chunk. */
  function ChunkDeadlines(entry: int, delay: Option<nat>, total: nat, rate: nat, chunks: nat): seq<nat>
    requires rate > 0 && (total > 0 ==> delay.Some?)
  {
    if chunks == 0 then [] else
      var n := ChunkReal(total, chunks - 1);
      ChunkDeadlines(entry, delay, total, rate, chunks - 1) +
      if n == 0 then [] else [DeadlineOf(entry + ChunkOffset(chunks - 1, rate), delay.value, n, rate)]
  }

  /** No published deadline exceeds that of a later, non-empty chunk. */
  lemma {:induction false} DeadlinesBelow(entry: nat, delay: Option<nat>, total: nat, rate: nat, chunks: nat, k: nat, n: nat)
    requires rate > 0 && (total > 0 ==> delay.Some?) && chunks <= k && n >= 1 && delay.Some?
    ensures forall d :: d in ChunkDeadlines(entry, delay, total, rate, chunks) ==>
              d <= DeadlineOf(entry + ChunkOffset(k, rate), delay.value, n, rate)
  {
    hide DeadlineOf, ChunkOffset;
    if chunks > 0 {
      DeadlinesBelow(entry, delay, total, rate, chunks - 1, k, n);
      DeadlinesRise(entry, delay.value, rate, chunks - 1, ChunkReal(total, chunks - 1), k, n);
    }
  }

  ghost predicate Rising(ds: seq<nat>) {
    forall i, j :: 0 <= i < j < |ds| ==> ds[i] <= ds[j]
  }

  /** The progress published within one device buffer never goes back. */
  lemma {:induction false} DeadlinesNeverFall(entry: nat, delay: Option<nat>, total: nat, rate: nat, chunks: nat)
    requires rate > 0 && (total > 0 ==> delay.Some?)
    ensures Rising(ChunkDeadlines(entry, delay, total, rate, chunks))
  {
    hide DeadlineOf, ChunkOffset;
    if chunks > 0 {
      DeadlinesNeverFall(entry, delay, total, rate, chunks - 1);
      var n := ChunkReal(total, chunks - 1);
      if n > 0 {
        DeadlinesBelow(entry, delay, total, rate, chunks - 1, chunks - 1, n);
        var ds := ChunkDeadlines(entry, delay, total, rate, chunks - 1);
        assert forall i :: 0 <= i < |ds| ==> ds[i] in ds;
      }
    }
  }

  /** The last one published is that of the last real sample. */
  lemma {:induction false} LastDeadline(entry: int, delay: Option<nat>, total: nat, rate: nat, chunks: nat)
    requires rate > 0 && (total > 0 ==> delay.Some?) && total <= chunks * 1024
    ensures total > 0 ==>
              var k := (total - 1) / 1024;
              var ds := ChunkDeadlines(entry, delay, total, rate, chunks);
              && ds != []
              && ds[|ds| - 1] == DeadlineOf(entry + ChunkOffset(k, rate), delay.value, total - k * 1024, rate)
  {
    hide DeadlineOf, ChunkOffset;
    if 0 < total <= (chunks - 1) * 1024 {
      LastDeadline(entry, delay, total, rate, chunks - 1);
    }
  }

  /** One chunk `data[lo..hi]` of a device buffer: filled as mono, then routed. */
  method OutputChunk(ring: AudioRing, data: array<Sample>, lo: nat, hi: nat, channels: nat, channel: nat,
                     shared: ProgressShared, state: CallbackState, entry: int, delay: Option<nat>)
    returns (ghost handed: nat)
    requires ring.Valid() && state.sampleRate > 0 && channel < channels
    requires lo <= hi <= data.Length && FramesIn(hi - lo, channels) <= 1024
    modifies ring, data, shared, state
    ensures ring.Valid() && ring.overflowCount == old(ring.overflowCount)
    ensures !shared.FlushPending() && shared.flushRequested == old(shared.flushRequested)
    ensures shared.flushed == old(shared.flushed) + if old(shared.FlushPending()) then |old(ring.queue)| else 0
    ensures var queue := if old(shared.FlushPending()) then [] else old(ring.queue);
            var count := FramesIn(hi - lo, channels);
            && handed == HandedOver(queue, count, old(shared.failed), delay)
            && data[..hi] == old(data[..lo]) + Routed(queue[..handed] + Zeros(count - handed), hi - lo, channels, channel)
            && ring.queue == (if old(shared.failed) then queue else queue[Min(count, |queue|)..])
            && shared.failed == (old(shared.failed) || (!DelayIsValid(delay) && Min(count, |queue|) > 0))
    ensures data[hi..] == old(data[hi..])
    ensures state.consumed == old(state.consumed) + handed
    ensures shared.deadlines == old(shared.deadlines) +
              if handed == 0 then [] else [DeadlineOf(entry, delay.value, handed, state.sampleRate)]
    ensures if handed == 0 then shared.consumed == old(shared.consumed) && shared.deadlineNanos == old(shared.deadlineNanos)
            else shared.consumed == state.consumed && shared.deadlineNanos == DeadlineOf(entry, delay.value, handed, state.sampleRate)
  {
    var mono := new Sample[1024](_ => 0.0);
    var count := FramesIn(hi - lo, channels);
    handed := FillOutput(ring, mono, count, shared, state, entry, delay);
    DivBounds(hi - lo, channels);
    RouteLane(mono, count, data, lo, hi, channels, channel);
    assert data[..hi] == data[..lo] + data[lo..hi];
  }

  /** A chunk holds whole frames: `1024` of them unless it is the last. */
  lemma ChunkFrames(len: nat, lo: nat, hi: nat, done: nat, channels: nat)
    requires channels > 0 && lo < len && AtFrame(lo, done, channels) && hi == Min(lo + 1024 * channels, len)
    ensures var count := FramesIn(hi - lo, channels);
            && count <= 1024
            && done + count <= FramesIn(len, channels)
            && (hi < len ==> count == 1024 && AtFrame(hi, done + 1024, channels))
            && (hi == len ==> done + count == FramesIn(len, channels))
  {
    var count := (hi - lo) / channels;
    DivBounds(hi - lo, channels);
    Distribute(done, 1024, channels);
    DivModUnique(1024 * channels, channels, 1024, 0);
    if hi == len {
      ShiftFrames(hi - lo, done, channels);
      if count > 1024 {
        MulLe(1024 + 1, count, channels);
      }
    } else {
      DivBounds(len, channels);
      MulLess(done + 1024, len / channels + 1, channels);
    }
  }

  lemma RoutedChunk(front: seq<Sample>, hi: nat, queue: seq<Sample>, left: seq<Sample>, handed: nat, done: nat,
                    n: nat, count: nat, channels: nat, channel: nat)
    requires channel < channels && |front| <= hi && count == FramesIn(hi - |front|, channels)
    requires count <= done && AtFrame(|front|, done - count, channels)
    requires handed <= done - count && n <= count && handed + n <= |queue| && (handed < done - count ==> n == 0)
    requires n <= |left| && left[..n] == queue[handed..handed + n]
    requires front == Routed(queue[..handed] + Zeros(done - count - handed), |front|, channels, channel)
    ensures front + Routed(left[..n] + Zeros(count - n), hi - |front|, channels, channel) ==
            Routed(queue[..handed + n] + Zeros(done - (handed + n)), hi, channels, channel)
  {
    hide Routed, Zeros;
    DivBounds(hi - |front|, channels);
    PaddedAppend(queue, handed, done - count, n, count);
    RoutedAppend(queue[..handed] + Zeros(done - count - handed), left[..n] + Zeros(count - n), |front|, hi - |front|,
                 channels, channel);
  }

  /** What the callback has done to its queue after `done` frames: a valid
      delay takes one sample per frame, an invalid one loses a single chunk. */
  ghost predicate Served(queue: seq<Sample>, failed: bool, delay: Option<nat>, done: nat, left: seq<Sample>, nowFailed: bool) {
    if failed then
      left == queue && nowFailed
    else if DelayIsValid(delay) then
      left == queue[HandedOver(queue, done, failed, delay)..] && !nowFailed
    else
      left == queue[Min(Min(done, 1024), |queue|)..] && nowFailed == (Min(done, |queue|) > 0)
  }

  lemma ChunkServes(queue: seq<Sample>, failed: bool, delay: Option<nat>, done: nat, left: seq<Sample>, nowFailed: bool,
                    count: nat, n: nat, left': seq<Sample>, failed': bool)
    requires Served(queue, failed, delay, done, left, nowFailed) && count <= 1024 && (done > 0 ==> done >= 1024)
    requires n == HandedOver(left, count, nowFailed, delay)
    requires left' == (if nowFailed then left else left[Min(count, |left|)..])
    requires failed' == (nowFailed || (!DelayIsValid(delay) && Min(count, |left|) > 0))
    ensures Served(queue, failed, delay, done + count, left', failed')
    ensures var handed := HandedOver(queue, done, failed, delay);
            && handed + n == HandedOver(queue, done + count, failed, delay)
            && left[..n] == queue[handed..handed + n]
            && (handed < done ==> n == 0)
  {
  }

  /** Silence once begun stays: a chunk adds real samples only to unpadded ones. */
  lemma PaddedAppend(queue: seq<Sample>, handed: nat, done: nat, n: nat, count: nat)
    requires handed <= done && n <= count && handed + n <= |queue| && (handed < done ==> n == 0)
    ensures (queue[..handed] + Zeros(done - handed)) + (queue[handed..handed + n] + Zeros(count - n)) ==
            queue[..handed + n] + Zeros(done + count - (handed + n))
  {
  }

  /** What one device callback starts from. */
  datatype Job = Job(queue: seq<Sample>, failed: bool, delay: Option<nat>, len: nat, channels: nat, channel: nat,
                           entry: nat, rate: nat) {
    ghost predicate Valid() {
      channel < channels && rate > 0
    }

    ghost function Frames(): nat
      requires Valid()
    {
      FramesIn(len, channels)
    }

    ghost function Total(): nat
      requires Valid()
    {
      HandedOver(queue, Frames(), failed, delay)
    }

    ghost function Deadline(chunk: nat, n: nat): seq<nat>
      requires Valid() && (n > 0 ==> DelayIsValid(delay))
    {
      if n == 0 then [] else [DeadlineOf(entry + ChunkOffset(chunk, rate), delay.value, n, rate)]
    }
  }

  /** The frames filled after `chunk` chunks. */
  ghost function Done(job: Job, chunk: nat): nat
    requires job.Valid()
  {
    Min(chunk * 1024, job.Frames())
  }

  /** `lo` values are `chunk` chunks. */
  ghost predicate ChunksEnd(job: Job, lo: nat, chunk: nat)
    requires job.Valid()
  {
    && lo <= job.len
    && if lo < job.len then AtFrame(lo, Done(job, chunk), job.channels) && Done(job, chunk) == chunk * 1024
       else Done(job, chunk) == job.Frames()
  }

  /** Where the callback is once `chunk` chunks, `lo` values, are filled. */
  ghost predicate Midway(job: Job, lo: nat, chunk: nat, handed: nat, front: seq<Sample>, left: seq<Sample>, nowFailed: bool,
                         published: seq<nat>)
    requires job.Valid()
  {
    var done := Done(job, chunk);
    && ChunksEnd(job, lo, chunk)
    && handed == HandedOver(job.queue, done, job.failed, job.delay)
    && Served(job.queue, job.failed, job.delay, done, left, nowFailed)
    && front == Routed(job.queue[..handed] + Zeros(done - handed), lo, job.channels, job.channel)
    && published == ChunkDeadlines(job.entry, job.delay, job.Total(), job.rate, chunk)
  }

  lemma NoDeadlines(job: Job)
    requires job.Valid()
    ensures ChunkDeadlines(job.entry, job.delay, job.Total(), job.rate, 0) == []
  {
  }

  lemma {:induction false} MidwayAtStart(job: Job)
    requires job.Valid()
    ensures Midway(job, 0, 0, 0, [], job.queue, job.failed, [])
  {
    hide Routed, Zeros, Served, HandedOver, ChunkDeadlines, Done, ChunksEnd, Job.Total;
    NoDeadlines(job);
    NothingDone(job);
    NothingRouted(job);
    ServedNothing(job.queue, job.failed, job.delay);
  }

  lemma NothingRouted(job: Job)
    requires job.Valid()
    ensures Routed(job.queue[..0] + Zeros(0), 0, job.channels, job.channel) == []
  {
  }

  lemma NothingDone(job: Job)
    requires job.Valid()
    ensures Done(job, 0) == 0 && ChunksEnd(job, 0, 0)
  {
    RoutedNothing(job.len, job.channels, job.channel);
    hide FramesIn, AtFrame, Routed;
  }

  lemma NextChunk(job: Job, chunk: nat, n: nat)
    requires job.Valid()
    requires n == HandedOver(job.queue, Done(job, chunk + 1), job.failed, job.delay) -
                  HandedOver(job.queue, Done(job, chunk), job.failed, job.delay)
    ensures n > 0 ==> DelayIsValid(job.delay)
    ensures ChunkDeadlines(job.entry, job.delay, job.Total(), job.rate, chunk + 1) ==
            ChunkDeadlines(job.entry, job.delay, job.Total(), job.rate, chunk) + job.Deadline(chunk, n)
  {
    hide DeadlineOf, ChunkOffset, FramesIn;
    assert n == ChunkReal(job.Total(), chunk);
  }

  lemma NextEnd(job: Job, lo: nat, chunk: nat, hi: nat)
    requires job.Valid() && lo < job.len && ChunksEnd(job, lo, chunk) && hi == Min(lo + 1024 * job.channels, job.len)
    ensures lo < hi && ChunksEnd(job, hi, chunk + 1)
    ensures FramesIn(hi - lo, job.channels) == Done(job, chunk + 1) - Done(job, chunk) <= 1024
    ensures Done(job, chunk) > 0 ==> Done(job, chunk) >= 1024
    ensures AtFrame(lo, Done(job, chunk), job.channels)
  {
    ChunkFrames(job.len, lo, hi, chunk * 1024, job.channels);
    hide FramesIn, AtFrame;
  }

  lemma {:induction false} MidwayStep(job: Job, lo: nat, chunk: nat, handed: nat, front: seq<Sample>, left: seq<Sample>,
                                      nowFailed: bool, published: seq<nat>, hi: nat, n: nat, front': seq<Sample>,
                                      left': seq<Sample>, failed': bool)
    requires job.Valid() && lo < job.len && Midway(job, lo, chunk, handed, front, left, nowFailed, published)
    requires lo <= hi == Min(lo + 1024 * job.channels, job.len)
    requires var count := FramesIn(hi - lo, job.channels);
             && n == HandedOver(left, count, nowFailed, job.delay)
             && front' == front + Routed(left[..n] + Zeros(count - n), hi - lo, job.channels, job.channel)
             && left' == (if nowFailed then left else left[Min(count, |left|)..])
             && failed' == (nowFailed || (!DelayIsValid(job.delay) && Min(count, |left|) > 0))
    ensures Midway(job, hi, chunk + 1, handed + n, front', left', failed', published + job.Deadline(chunk, n))
  {
    hide Routed, Zeros, Served, ChunkDeadlines, FramesIn, AtFrame, HandedOver, DelayIsValid, Job.Deadline, Done, ChunksEnd;
    var count := FramesIn(hi - lo, job.channels);
    NextEnd(job, lo, chunk, hi);
    ChunkServes(job.queue, job.failed, job.delay, Done(job, chunk), left, nowFailed, count, n, left', failed');
    NextChunk(job, chunk, n);
    RoutedChunk(front, hi, job.queue, left, handed, Done(job, chunk + 1), n, count, job.channels, job.channel);
  }

  lemma ChunkFits(job: Job, lo: nat, chunk: nat, handed: nat, front: seq<Sample>, left: seq<Sample>, nowFailed: bool,
                  published: seq<nat>)
    requires job.Valid() && lo < job.len && Midway(job, lo, chunk, handed, front, left, nowFailed, published)
    ensures var hi := Min(lo + 1024 * job.channels, job.len);
            lo < hi && FramesIn(hi - lo, job.channels) <= 1024
  {
    hide Routed, Zeros, Served, ChunkDeadlines, HandedOver, ChunksEnd, Done;
    NextEnd(job, lo, chunk, Min(lo + 1024 * job.channels, job.len));
  }

  lemma {:induction false} MidwayAtEnd(job: Job, lo: nat, chunk: nat, handed: nat, front: seq<Sample>, left: seq<Sample>, nowFailed: bool,
                    published: seq<nat>)
    requires job.Valid() && lo >= job.len && Midway(job, lo, chunk, handed, front, left, nowFailed, published)
    ensures handed == job.Total()
    ensures front == Routed(job.queue[..handed] + Zeros(job.Frames() - handed), job.len, job.channels, job.channel)
    ensures job.failed ==> left == job.queue && nowFailed
    ensures !job.failed && DelayIsValid(job.delay) ==> left == job.queue[handed..] && !nowFailed
    ensures !job.failed && !DelayIsValid(job.delay) ==>
              && left == job.queue[Min(Min(job.Frames(), 1024), |job.queue|)..]
              && nowFailed == (Min(job.Frames(), |job.queue|) > 0)
    ensures Rising(published)
    ensures handed > 0 ==>
              var k := (handed - 1) / 1024;
              && published != []
              && published[|published| - 1] ==
                   DeadlineOf(job.entry + ChunkOffset(k, job.rate), job.delay.value, handed - k * 1024, job.rate)
  {
    hide Routed, Zeros, DeadlineOf, ChunkOffset, ChunkDeadlines, FramesIn, AtFrame, Rising;
    DeadlinesNeverFall(job.entry, job.delay, job.Total(), job.rate, chunk);
    LastDeadline(job.entry, job.delay, job.Total(), job.rate, chunk);
  }

  /** One step of the callback: the chunk `data[lo..hi]`. */
  method CallbackChunk(ring: AudioRing, data: array<Sample>, lo: nat, hi: nat, channels: nat, channel: nat,
                       shared: ProgressShared, state: CallbackState, entry: nat, delay: Option<nat>, chunk: nat,
                       ghost job: Job, ghost handed: nat, ghost published: seq<nat>)
    returns (ghost n: nat, ghost deadline: seq<nat>)
    requires ring.Valid() && state.sampleRate > 0 && channel < channels
    requires lo < data.Length && hi == Min(lo + 1024 * channels, data.Length)
    requires job == Job(job.queue, job.failed, delay, data.Length, channels, channel, entry, state.sampleRate)
    requires Midway(job, lo, chunk, handed, data[..lo], if shared.FlushPending() then [] else ring.queue, shared.failed, published)
    modifies ring, data, shared, state
    ensures ring.Valid() && ring.overflowCount == old(ring.overflowCount) && lo < hi <= data.Length
    ensures !shared.FlushPending() && shared.flushRequested == old(shared.flushRequested)
    ensures shared.flushed == old(shared.flushed) + if old(shared.FlushPending()) then |old(ring.queue)| else 0
    ensures Midway(job, hi, chunk + 1, handed + n, data[..hi], ring.queue, shared.failed, published + deadline)
    ensures state.consumed == old(state.consumed) + n && shared.deadlines == old(shared.deadlines) + deadline
    ensures if n == 0 then
              deadline == [] && shared.consumed == old(shared.consumed) && shared.deadlineNanos == old(shared.deadlineNanos)
            else shared.consumed == state.consumed && deadline == [shared.deadlineNanos]
  {
    hide DeadlineOf, ChunkOffset, ChunkDeadlines, Routed, Zeros, HandedOver, FramesIn, Midway, DelayIsValid;
    ghost var left, nowFailed, front := if shared.FlushPending() then [] else ring.queue, shared.failed, data[..lo];
    ChunkFits(job, lo, chunk, handed, front, left, nowFailed, published);
    n := OutputChunk(ring, data, lo, hi, channels, channel, shared, state, entry + ChunkOffset(chunk, state.sampleRate), delay);
    MidwayStep(job, lo, chunk, handed, front, left, nowFailed, published, hi, n, data[..hi], ring.queue, shared.failed);
    deadline := job.Deadline(chunk, n);
  }

  /** The whole device callback: `data` is filled chunk by chunk, yet carries
      what one unsplit fill would, and the samples leave the ring in order. */
  method OutputCallback(ring: AudioRing, data: array<Sample>, channels: nat, channel: nat,
                        shared: ProgressShared, state: CallbackState, entry: nat, delay: Option<nat>)
    returns (ghost handed: nat, ghost published: seq<nat>)
    requires ring.Valid() && state.sampleRate > 0 && channel < channels
    modifies ring, data, shared, state
    ensures ring.Valid() && ring.overflowCount == old(ring.overflowCount)
    ensures data.Length > 0 ==> !shared.FlushPending()
    ensures shared.flushRequested == old(shared.flushRequested)
    ensures shared.flushed == old(shared.flushed) +
              if data.Length > 0 && old(shared.FlushPending()) then |old(ring.queue)| else 0
    ensures var queue := if data.Length > 0 && old(shared.FlushPending()) then [] else old(ring.queue);
            var frames := FramesIn(data.Length, channels);
            && handed == HandedOver(queue, frames, old(shared.failed), delay)
            && data[..] == Routed(queue[..handed] + Zeros(frames - handed), data.Length, channels, channel)
            && (old(shared.failed) ==> ring.queue == queue && shared.failed)
            && (!old(shared.failed) && DelayIsValid(delay) ==> ring.queue == queue[handed..] && !shared.failed)
            && (!old(shared.failed) && !DelayIsValid(delay) ==>
                  && ring.queue == queue[Min(Min(frames, 1024), |queue|)..]
                  && shared.failed == (Min(frames, |queue|) > 0))
    ensures state.consumed == old(state.consumed) + handed
    ensures handed > 0 ==>
              var k := (handed - 1) / 1024;
              && shared.consumed == state.consumed
              && shared.deadlineNanos ==
                   DeadlineOf(entry + ChunkOffset(k, state.sampleRate), delay.value, handed - k * 1024, state.sampleRate)
    ensures handed > 0 ==>
              && delay.Some? && delay.value <= 10_000_000_000
              && EndsNear(shared.deadlineNanos, entry + delay.value, handed, state.sampleRate)
              && (handed <= 1024 ==> EndsPlaying(shared.deadlineNanos, entry + delay.value, handed, state.sampleRate))
    ensures handed == 0 ==> shared.consumed == old(shared.consumed) && shared.deadlineNanos == old(shared.deadlineNanos)
    ensures shared.deadlines == old(shared.deadlines) + published && Rising(published)
  {
    hide DeadlineOf, ChunkOffset, ChunkDeadlines, Routed, Rising, Zeros, HandedOver, FramesIn, Midway, DelayIsValid, EndsNear, EndsPlaying;
    var lo: nat, chunk: nat := 0, 0;
    ghost var queue := if data.Length > 0 && shared.FlushPending() then [] else ring.queue;
    ghost var failed := shared.failed;
    ghost var job := Job(queue, failed, delay, data.Length, channels, channel, entry, state.sampleRate);
    handed, published := 0, [];
    assert data[..0] == [];
    MidwayAtStart(job);
    while lo < data.Length
      invariant lo <= data.Length && ring.Valid() && ring.overflowCount == old(ring.overflowCount)
      invariant shared.flushRequested == old(shared.flushRequested) && (chunk == 0 <==> lo == 0)
      invariant if chunk > 0 then !shared.FlushPending() else
                  && shared.flushServed == old(shared.flushServed)
                  && ring.queue == old(ring.queue) && shared.flushed == old(shared.flushed)
      invariant chunk > 0 ==> shared.flushed == old(shared.flushed) + if old(shared.FlushPending()) then |old(ring.queue)| else 0
      invariant Midway(job, lo, chunk, handed, data[..lo],
                       if lo < data.Length && shared.FlushPending() then [] else ring.queue, shared.failed, published)
      invariant state.consumed == old(state.consumed) + handed
      invariant shared.deadlines == old(shared.deadlines) + published
      invariant if handed == 0 then shared.consumed == old(shared.consumed) && shared.deadlineNanos == old(shared.deadlineNanos)
                else shared.consumed == state.consumed && published != [] && published[|published| - 1] == shared.deadlineNanos
      decreases data.Length - lo
    {
      var hi := Min(lo + 1024 * channels, data.Length);
      ghost var n, deadline;
      n, deadline := CallbackChunk(ring, data, lo, hi, channels, channel, shared, state, entry, delay, chunk, job, handed, published);
      AppendAssoc(old(shared.deadlines), published, deadline);
      published := published + deadline;
      lo, chunk, handed := hi, chunk + 1, handed + n;
    }
    MidwayAtEnd(job, lo, chunk, handed, data[..lo], ring.queue, shared.failed, published);
    if handed > 0 {
      LastChunkIsNear(entry, delay, handed, state.sampleRate);
    }
    assert data[..data.Length] == data[..];
  }

  lemma ServedNothing(queue: seq<Sample>, failed: bool, delay: Option<nat>)
    ensures Served(queue, failed, delay, 0, queue, failed) && HandedOver(queue, 0, failed, delay) == 0
  {
  }
}
