/** The resampling wrappers between the engine's rate and the hardware's. */
module Resampler {
  import opened Wrappers
  import opened Basics
  import opened Lanes
  import opened Conversion
  import opened SinkBooks

  /** What the sink below was asked, and its answer. */
  datatype Answer =
    | Offered(samples: seq<Sample>, accepted: Result<nat>)
    | Dropped(count: Result<Option<nat>>)
    | Started(outcome: Result<()>)

  /** The newest offer failed. */
  ghost predicate OfferFailed(log: seq<Answer>) {
    log != [] && log[|log| - 1].Offered? && log[|log| - 1].accepted.Err?
  }

  /** The newest offer was of just these samples, and none of them was taken. */
  ghost predicate Stalled(log: seq<Answer>, samples: seq<Sample>) {
    log != [] && log[|log| - 1] == Offered(samples, Ok(0))
  }

  /** How many offers failed. */
  ghost function Failures(log: seq<Answer>): nat {
    if log == [] then 0
    else Failures(log[..|log| - 1]) + if log[|log| - 1].Offered? && log[|log| - 1].accepted.Err? then 1 else 0
  }

  lemma NewestOffer(first: seq<Answer>, before: seq<Answer>, samples: seq<Sample>, r: Result<nat>)
    requires first <= before
    ensures var log := before + [Offered(samples, r)];
            && first <= log && |log| > |first| && (r.Err? ==> OfferFailed(log)) && (r == Ok(0) ==> Stalled(log, samples))
            && Failures(log) == Failures(before) + if r.Err? then 1 else 0
  {
    assert (before + [Offered(samples, r)])[..|before|] == before;
  }

  /** How many offers were answered with nothing taken. */
  ghost function Stalls(log: seq<Answer>): nat {
    if log == [] then 0
    else
      Stalls(log[..|log| - 1]) + if log[|log| - 1].Offered? && log[|log| - 1].accepted == Ok(0) then 1 else 0
  }

  lemma {:induction false} StallsGrow(a: seq<Answer>, b: seq<Answer>)
    requires a <= b
    ensures Stalls(a) <= Stalls(b)
    ensures forall s :: |a| < |b| && Stalled(b, s) ==> Stalls(a) < Stalls(b)
  {
    if |a| < |b| {
      StallsGrow(a, b[..|b| - 1]);
    } else {
      assert a == b;
    }
  }

  /** The sink below: it accepts any prefix of what it is offered, plays at its
      own pace, may fail, and reports true drop counts. */
  class InnerSink {
    /** Never fails, and takes at least one sample of any offer. */
    const willing: bool
    /** Every sample accepted since the start. */
    var taken: seq<Sample>
    var buffered: nat
    /** Samples the device has consumed since the start. */
    var consumed: nat
    /** Everything it was asked, and what it answered. */
    ghost var log: seq<Answer>

    constructor (willing: bool)
      ensures View() == Inner([], 0, 0) && log == [] && this.willing == willing
    {
      this.willing := willing;
      taken, buffered, consumed, log := [], 0, 0, [];
    }

    ghost function View(): Inner
      reads this
    {
      Inner(taken, buffered, consumed)
    }

    method Play()
      modifies this`buffered, this`consumed
      ensures consumed >= old(consumed) && consumed + buffered == old(consumed + buffered)
    {
      var n: nat :| n <= buffered;
      consumed, buffered := consumed + n, buffered - n;
    }

    method Write(samples: seq<Sample>) returns (r: Result<nat>)
      modifies this
      ensures consumed >= old(consumed)
      ensures r.Ok? ==> r.value <= |samples|
      ensures var n := if r.Ok? then r.value else 0;
              taken == old(taken) + samples[..n] && consumed + buffered == old(consumed + buffered) + n
      ensures log == old(log) + [Offered(samples, r)]
      ensures willing ==> r.Ok? && (samples != [] ==> r.value > 0)
    {
      Play();
      var fails: bool := *;
      if fails && !willing {
        r := Err("inner sink failed");
        log := log + [Offered(samples, r)];
        return;
      }
      var n: nat :| n <= |samples| && (willing && samples != [] ==> n > 0);
      taken, buffered := taken + samples[..n], buffered + n;
      r := Ok(n);
      log := log + [Offered(samples, r)];
    }

    method DiscardBuffered() returns (r: Result<Option<nat>>)
      modifies this`buffered, this`consumed, this`log
      ensures consumed >= old(consumed)
      ensures if r.Ok? && r.value.Some? then buffered == 0 && consumed + r.value.value == old(consumed + buffered)
              else consumed + buffered == old(consumed + buffered)
      ensures log == old(log) + [Dropped(r)]
      ensures willing ==> r.Ok? && r.value.Some?
    {
      Play();
      var fails: bool := *;
      var waits: bool := *;
      if fails && !willing {
        r := Err("inner sink failed");
      } else if waits && !willing {
        r := Ok(None);
      } else {
        r := Ok(Some(buffered));
        buffered := 0;
      }
      log := log + [Dropped(r)];
    }

    method Start() returns (r: Result<()>)
      modifies this
      ensures if r.Ok? then taken == [] && buffered == 0 && consumed == 0
              else taken == old(taken) && buffered == old(buffered) && consumed == old(consumed)
      ensures log == old(log) + [Started(r)]
      ensures willing ==> r.Ok?
    {
      var fails: bool := *;
      r := Ok(());
      if fails && !willing {
        r := Err("inner sink failed");
      } else {
        taken, buffered, consumed := [], 0, 0;
      }
      log := log + [Started(r)];
    }
  }

  // ----------------------------------------------------------------- source

  /** The source below: it returns any number of samples, none at all when it
      has nothing yet, or fails. */
  class InnerSource {
    /** Every sample returned so far. */
    var given: seq<Sample>
    /** What each read returned, and how much it had been asked for. */
    ghost var answers: seq<Result<seq<Sample>>>
    ghost var asked: seq<nat>

    constructor ()
      ensures given == [] && answers == [] && asked == []
    {
      given, answers, asked := [], [], [];
    }

    method Read(count: nat) returns (r: Result<seq<Sample>>)
      modifies this
      ensures given == old(given) + if r.Ok? then r.value else []
      ensures r.Ok? ==> |r.value| <= count
      ensures answers == old(answers) + [r] && asked == old(asked) + [count]
    {
      var fails: bool := *;
      if fails {
        r := Err("inner source failed");
      } else {
        var captured: seq<Sample> := *;
        if |captured| > count {
          captured := captured[..count];
        }
        given := given + captured;
        r := Ok(captured);
      }
      answers, asked := answers + [r], asked + [count];
    }
  }

  /** `r` passes on what the inner source answered: its error, or how many samples. */
  ghost predicate AnswerOf(a: Result<seq<Sample>>, r: Result<nat>) {
    if a.Ok? then r == Ok(|a.value|) else r.Err?
  }

  /** Every block has the length the converter asked for. */
  ghost predicate WellCut(need: seq<Block> -> nat, hist: seq<Block>) {
    forall i :: 0 <= i < |hist| ==> |hist[i]| == need(hist[..i])
  }

  /** Reads at the hardware rate from the inner source and returns, converted
      block by block, samples at the engine rate. */
  class ResamplingSource {
    const inner: InnerSource
    const converter: Converter
    /** How many samples the converter takes next, given its blocks so far. */
    const need: seq<Block> -> nat
    /** The converter's state: the blocks it was given. */
    var hist: seq<Block>
    var hwBuf: seq<Sample>
    var residual: seq<Sample>
    /** Every sample returned so far. */
    ghost var delivered: seq<Sample>

    predicate Passthrough() {
      converter.hwRate == converter.targetRate
    }

    /** Nothing read is lost or repeated, and what was returned, followed by the
        residual, is the converter's output on the blocks it took. */
    ghost predicate Valid()
      reads this, inner
    {
      && WellCut(need, hist)
      && if Passthrough() then delivered == inner.given && hist == [] && hwBuf == [] && residual == [] else
           && Flatten(hist) + hwBuf == inner.given
           && delivered + residual == Stream(converter, hist)
    }

    constructor (inner: InnerSource, converter: Converter, need: seq<Block> -> nat)
      requires inner.given == []
      ensures Valid() && this.inner == inner && this.converter == converter && this.need == need && delivered == []
    {
      this.inner, this.converter, this.need := inner, converter, need;
      hist, hwBuf, residual, delivered := [], [], [], [];
    }

    /** Fills a prefix of `buf`: from the residual if there is one, otherwise by
        converting one block, for which it reads only what is missing, but not in
        pieces below 1024. At equal rates it passes samples through. */
    method Read(buf: array<Sample>) returns (r: Result<nat>)
      requires Valid()
      modifies this, inner, buf
      ensures Valid()
      ensures r.Ok? ==> r.value <= buf.Length && delivered == old(delivered) + buf[..r.value] && buf[r.value..] == old(buf[r.value..])
      ensures r.Err? ==> delivered == old(delivered) && hist == old(hist) && buf[..] == old(buf[..])
      ensures buf.Length == 0 || (!Passthrough() && old(residual) != []) ==>
                r.Ok? && inner.given == old(inner.given) && hist == old(hist) && hwBuf == old(hwBuf)
      ensures old(hist) <= hist && |hist| <= |old(hist)| + 1
      ensures buf.Length > 0 && !Passthrough() && old(residual) != [] ==> r == Ok(Min(buf.Length, |old(residual)|))
      ensures |hist| > |old(hist)| ==> r == Ok(Min(buf.Length, |Output(converter, hist)|))
      ensures buf.Length > 0 && !Passthrough() && old(residual) == [] && |hist| == |old(hist)| ==>
                && |inner.answers| > |old(inner.answers)|
                && AnswerOf(inner.answers[|inner.answers| - 1], r) && (r.Ok? ==> r.value == 0)
      ensures buf.Length > 0 && !Passthrough() && old(residual) == [] && |old(hwBuf)| >= need(old(hist)) ==>
                |hist| > |old(hist)| && inner.given == old(inner.given) && inner.asked == old(inner.asked)
      ensures old(inner.asked) <= inner.asked
      ensures buf.Length > 0 && !Passthrough() && old(residual) == [] && |old(hwBuf)| < need(old(hist)) ==>
                && |inner.asked| > |old(inner.asked)|
                && var missing := need(old(hist)) - |old(hwBuf)|;
                   inner.asked[|old(inner.asked)|] == if missing < 1024 then 1024 else missing
      ensures if converter.hwRate == converter.targetRate then delivered == inner.given
              else Flatten(hist) + hwBuf == inner.given && delivered + residual == Stream(converter, hist)
      ensures buf.Length > 0 && converter.hwRate == converter.targetRate ==> inner.asked == old(inner.asked) + [buf.Length]
      ensures buf.Length > 0 && Passthrough() ==>
                exists a :: inner.answers == old(inner.answers) + [a] && AnswerOf(a, r)
    {
      hide Flatten, Stream, Output;
      if buf.Length == 0 {
        return Ok(0);
      }
      if Passthrough() {
        var passed := inner.Read(buf.Length);
        if passed.Err? {
          return Err(passed.error);
        }
        Copy(buf, passed.value);
        delivered := delivered + passed.value;
        return Ok(|passed.value|);
      }
      if residual != [] {
        var n := Min(buf.Length, |residual|);
        Copy(buf, residual[..n]);
        AppendAssoc(delivered, residual[..n], residual[n..]);
        assert residual[..n] + residual[n..] == residual;
        delivered := delivered + residual[..n];
        residual := residual[n..];
        return Ok(n);
      }
      var needed := need(hist);
      while |hwBuf| < needed
        invariant Valid() && hist == old(hist) && delivered == old(delivered) && residual == [] && buf[..] == old(buf[..])
        invariant old(inner.answers) <= inner.answers && old(inner.asked) <= inner.asked
        invariant |old(hwBuf)| <= |hwBuf|
        invariant |old(hwBuf)| >= needed ==> inner.given == old(inner.given) && inner.asked == old(inner.asked)
        invariant if |inner.asked| > |old(inner.asked)| then
                    inner.asked[|old(inner.asked)|] ==
                      if needed - |old(hwBuf)| < 1024 then 1024 else needed - |old(hwBuf)|
                  else hwBuf == old(hwBuf)
        decreases needed - |hwBuf|
      {
        var missing := needed - |hwBuf|;
        var read := inner.Read(if missing < 1024 then 1024 else missing);
        if read.Err? {
          assert inner.given == Flatten(hist) + hwBuf;
          return Err(read.error);
        }
        AppendAssoc(Flatten(hist), hwBuf, read.value);
        if |read.value| == 0 {
          assert hwBuf + read.value == hwBuf;
          return Ok(0);
        }
        hwBuf := hwBuf + read.value;
      }
      var chunk := hwBuf[..needed];
      OneMoreBlock(converter, need, hist, chunk, hwBuf[needed..]);
      assert chunk + hwBuf[needed..] == hwBuf;
      hwBuf := hwBuf[needed..];
      hist := hist + [chunk];
      var resampled := Output(converter, hist);
      var n := Min(buf.Length, |resampled|);
      Copy(buf, resampled[..n]);
      AppendAssoc(delivered, resampled[..n], resampled[n..]);
      assert resampled[..n] + resampled[n..] == resampled;
      assert delivered + residual == delivered;
      delivered := delivered + resampled[..n];
      residual := resampled[n..];
      return Ok(n);
    }
  }

  method Copy(buf: array<Sample>, samples: seq<Sample>)
    requires |samples| <= buf.Length
    modifies buf
    ensures buf[..|samples|] == samples && buf[|samples|..] == old(buf[|samples|..])
  {
    for i := 0 to |samples|
      invariant buf[..i] == samples[..i] && buf[|samples|..] == old(buf[|samples|..])
    {
      buf[i] := samples[i];
    }
  }

  lemma OneMoreBlock(c: Converter, need: seq<Block> -> nat, hist: seq<Block>, block: Block, rest: seq<Sample>)
    requires WellCut(need, hist) && |block| == need(hist)
    ensures var hist' := hist + [block];
            && WellCut(need, hist')
            && Flatten(hist') + rest == Flatten(hist) + (block + rest)
            && Stream(c, hist') == Stream(c, hist) + Output(c, hist')
  {
    var hist' := hist + [block];
    assert hist'[..|hist|] == hist;
    AppendAssoc(Flatten(hist), block, rest);
    forall i | 0 <= i < |hist'|
      ensures |hist'[i]| == need(hist'[..i])
    {
      if i < |hist| {
        assert hist'[..i] == hist[..i];
      }
    }
  }

  /** The blocks are cut by the samples alone, however they arrived. */
  lemma {:induction false} CutsAgree(need: seq<Block> -> nat, a: seq<Block>, b: seq<Block>, all: seq<Sample>)
    requires WellCut(need, a) && WellCut(need, b) && |a| <= |b| && Flatten(a) <= all && Flatten(b) <= all
    ensures a == b[..|a|]
  {
    if a != [] {
      var n := |a| - 1;
      assert |a[n]| == need(a[..n]) && |b[n]| == need(b[..n]);
      FlattenFront(a, n);
      FlattenFront(b, n);
      FlattenFront(b, n + 1);
      CutFront(need, a, n);
      hide WellCut;
      CutsAgree(need, a[..n], b, all);
      FlattenLast(a, n);
      FlattenLast(b, n);
      hide Flatten;
      SamePiece(Flatten(a[..n]), a[n], b[n], all);
      assert a == a[..n] + [a[n]] && b[..|a|] == b[..n] + [b[n]];
    }
  }

  lemma FlattenLast(hist: seq<Block>, n: nat)
    requires n < |hist|
    ensures Flatten(hist[..n + 1]) == Flatten(hist[..n]) + hist[n]
  {
    assert hist[..n + 1][..n] == hist[..n];
  }

  lemma SamePiece(front: seq<Sample>, x: Block, y: Block, all: seq<Sample>)
    requires front + x <= all && front + y <= all && |x| == |y|
    ensures x == y
  {
    assert x == all[|front|..|front| + |x|];
    assert y == all[|front|..|front| + |y|];
  }

  lemma CutFront(need: seq<Block> -> nat, hist: seq<Block>, n: nat)
    requires WellCut(need, hist) && n <= |hist|
    ensures WellCut(need, hist[..n])
  {
    forall i | 0 <= i < n
      ensures |hist[..n][i]| == need(hist[..n][..i])
    {
      assert hist[..n][..i] == hist[..i];
    }
  }

  lemma {:induction false} FlattenFront(hist: seq<Block>, k: nat)
    requires k <= |hist|
    ensures Flatten(hist[..k]) <= Flatten(hist)
  {
    if k < |hist| {
      var front := hist[..|hist| - 1];
      FlattenFront(front, k);
      assert front[..k] == hist[..k];
    } else {
      assert hist[..k] == hist;
    }
  }

  /** Two sources fed from the same stream, by whatever inner reads and into
      whatever buffers, return the same samples as far as both have got. */
  lemma SourcesAgree(c: Converter, need: seq<Block> -> nat, all: seq<Sample>, a: seq<Block>, bufA: seq<Sample>,
                     outA: seq<Sample>, restA: seq<Sample>, b: seq<Block>, bufB: seq<Sample>, outB: seq<Sample>, restB: seq<Sample>)
    requires WellCut(need, a) && Flatten(a) + bufA <= all && outA + restA == Stream(c, a)
    requires WellCut(need, b) && Flatten(b) + bufB <= all && outB + restB == Stream(c, b)
    ensures outA <= outB || outB <= outA
  {
    if |a| <= |b| {
      CutsAgree(need, a, b, all);
      StreamPrefix(c, b, |a|);
      PrefixesAgree(outA, outB, Stream(c, b));
    } else {
      CutsAgree(need, b, a, all);
      StreamPrefix(c, a, |b|);
      PrefixesAgree(outA, outB, Stream(c, a));
    }
  }

  lemma PrefixesAgree(x: seq<Sample>, y: seq<Sample>, whole: seq<Sample>)
    requires x <= whole && y <= whole
    ensures x <= y || y <= x
  {
    assert x == whole[..|x|] && y == whole[..|y|];
  }

  // ------------------------------------------------------------------- sink

  /** Accepts samples at the engine rate and writes them, converted block by
      block, to the inner sink at the hardware rate. */
  class ResamplingSink {
    const inner: InnerSink
    const converter: Converter
    /** The converter's state: the blocks it was given since its last reset. */
    var hist: seq<Block>
    var inputBuf: seq<Sample>
    var pending: seq<Sample>
    var pendingOffset: nat
    var generatedHw: nat
    var acceptedEngine: nat
    var segmentStartHw: nat
    var segmentStartEngine: nat
    var segmentReal: nat
    var ledger: seq<Mark>
    var progressBaseEngine: nat
    ghost var books: Books

    predicate Passthrough() {
      converter.hwRate == converter.targetRate
    }

    ghost function View(): Fields
      reads this
    {
      Fields(hist, inputBuf, pending, pendingOffset, generatedHw, acceptedEngine, segmentStartHw, segmentStartEngine,
             segmentReal, ledger, progressBaseEngine)
    }

    /** The invariant between the steps of one operation. */
    ghost predicate Steady()
      reads this, inner
    {
      SinkOk(converter, books, View(), inner.View())
    }

    /** The invariant between operations. */
    ghost predicate Valid()
      reads this, inner
    {
      Steady() && |inputBuf| < 1024
    }

    /** Between transmissions: nothing was accepted since the last finished. */
    ghost predicate AtBoundary()
      reads this, inner
    {
      segmentReal == 0 && books.clean && books.fed == [] && books.finished == inner.taken
    }

    constructor (inner: InnerSink, converter: Converter)
      requires Lawful(converter)
      ensures this.inner == inner && this.converter == converter && books == UNSTARTED && View() == Emptied(0, 0)
      ensures inner.View() == Inner([], 0, 0) ==> Valid()
    {
      this.inner, this.converter := inner, converter;
      hist, inputBuf, pending, pendingOffset, ledger := [], [], [], 0, [];
      generatedHw, acceptedEngine, segmentStartHw, segmentStartEngine, segmentReal := 0, 0, 0, 0, 0;
      progressBaseEngine := 0;
      books := UNSTARTED;
      new;
      hide SinkOk;
      SinkStarts(converter);
    }

    /** Builds a sink, refusing a zero rate on either side. Over an inner sink in
        use it is in order from its first start. */
    static method New(inner: InnerSink, hwRate: nat, targetRate: nat, converter: Converter) returns (r: Result<ResamplingSink>)
      requires converter.hwRate == hwRate && converter.targetRate == targetRate
      requires hwRate > 0 && targetRate > 0 ==> Lawful(converter)
      ensures r.Err? <==> hwRate == 0 || targetRate == 0
      ensures r.Ok? ==>
                && fresh(r.value) && r.value.inner == inner && r.value.converter == converter
                && r.value.books == UNSTARTED && r.value.View() == Emptied(0, 0)
                && (inner.View() == Inner([], 0, 0) ==> r.value.Valid())
    {
      if hwRate == 0 || targetRate == 0 {
        return Err("audio sample rate must be positive");
      }
      var sink := new ResamplingSink(inner, converter);
      return Ok(sink);
    }

    /** What an operation's outcome says of the inner sink: an error is a failed
        offer, and what is still pending was offered just so and not taken. */
    ghost predicate Answered(before: seq<Answer>, ok: bool)
      reads this, inner
    {
      && (!ok ==> |inner.log| > |before| && OfferFailed(inner.log))
      && (ok ==> Failures(inner.log) == Failures(before))
      && (ok && pending != [] ==>
            && pendingOffset <= |pending| && |inner.log| > |before|
            && Stalled(inner.log, pending[pendingOffset..]))
    }

    /** Offers the rest of the pending block until it is taken, or none of it is, or
        an offer fails. */
    method OfferPending() returns (r: Result<()>)
      requires pendingOffset <= |pending|
      modifies this`pendingOffset, inner
      ensures old(pendingOffset) <= pendingOffset <= |pending| && inner.consumed >= old(inner.consumed)
      ensures inner.taken == old(inner.taken) + pending[old(pendingOffset)..pendingOffset]
      ensures inner.consumed + inner.buffered == old(inner.consumed + inner.buffered) + (pendingOffset - old(pendingOffset))
      ensures old(inner.log) <= inner.log && (pending == [] ==> r.Ok? && inner.log == old(inner.log))
      ensures r.Ok? ==> Failures(inner.log) == Failures(old(inner.log))
      ensures r.Err? ==> pendingOffset < |pending| && |inner.log| > |old(inner.log)| && OfferFailed(inner.log)
      ensures r.Ok? && pendingOffset < |pending| ==>
                |inner.log| > |old(inner.log)| && Stalled(inner.log, pending[pendingOffset..])
      ensures inner.willing ==> r.Ok? && pendingOffset == |pending|
    {
      hide OfferFailed, Stalled, Failures;
      assert pending[pendingOffset..pendingOffset] == [];
      while pendingOffset < |pending|
        invariant old(pendingOffset) <= pendingOffset <= |pending| && inner.consumed >= old(inner.consumed)
        invariant inner.taken == old(inner.taken) + pending[old(pendingOffset)..pendingOffset]
        invariant inner.consumed + inner.buffered == old(inner.consumed + inner.buffered) + (pendingOffset - old(pendingOffset))
        invariant old(inner.log) <= inner.log && (pending == [] ==> inner.log == old(inner.log))
        invariant Failures(inner.log) == Failures(old(inner.log))
        decreases |pending| - pendingOffset
      {
        ghost var before := inner.log;
        var w := inner.Write(pending[pendingOffset..]);
        NewestOffer(old(inner.log), before, pending[pendingOffset..], w);
        if w.Err? {
          return Err(w.error);
        }
        if w.value == 0 {
          break;
        }
        TakenGrows(old(inner.taken), pending, old(pendingOffset), pendingOffset, w.value);
        pendingOffset := pendingOffset + w.value;
      }
      return Ok(());
    }

    /** Offers the pending block to the inner sink until it takes no more. */
    method DrainPending() returns (r: Result<()>)
      requires Steady() && !Passthrough()
      modifies this`pending, this`pendingOffset, inner
      ensures Steady() && inner.consumed >= old(inner.consumed)
      ensures old(pending) == [] ==> pending == [] && r.Ok? && inner.log == old(inner.log)
      ensures old(inner.log) <= inner.log && Answered(old(inner.log), r.Ok?)
      ensures inner.willing ==> r.Ok? && pending == []
    {
      hide SinkOk, Stalled, OfferFailed, Failures;
      ghost var f, n := View(), inner.View();
      SinkFacts(converter, books, f, n);
      r := OfferPending();
      ghost var k := pendingOffset;
      if r.Ok? && pendingOffset == |pending| {
        pending, pendingOffset := [], 0;
      }
      DrainKeeps(converter, books, f, n, k, View(), inner.View());
    }

    /** Converts the input buffer, padded to a whole block, and records its mark. */
    method ProcessBlock()
      requires Steady() && !Passthrough() && pending == [] && segmentReal > 0
      requires inputBuf != [] || generatedHw < segmentStartHw + Needed(converter, segmentReal)
      modifies this
      ensures Steady() && inputBuf == [] && |hist| == old(|hist|) + 1
      ensures books == Converted(old(books), old(inputBuf), segmentReal)
      ensures segmentReal == old(segmentReal) && acceptedEngine == old(acceptedEngine)
      ensures segmentStartHw == old(segmentStartHw) && segmentStartEngine == old(segmentStartEngine)
    {
      hide SinkOk, Needed, Converted, Output, MapEngine, Zeros, LedgerOk, EndHw, Stream;
      ghost var f, b := View(), books;
      SinkFacts(converter, b, f, inner.View());
      inputBuf := inputBuf + Zeros(1024 - |inputBuf|);
      hist := hist + [inputBuf];
      pending := Output(converter, hist);
      generatedHw := generatedHw + |pending|;
      var mapped := MapEngine(converter, segmentStartHw, segmentStartEngine, segmentReal, generatedHw);
      if pending != [] {
        ledger := ledger + [Mark(generatedHw, mapped)];
      }
      inputBuf := [];
      books := Converted(b, f.inputBuf, segmentReal);
      ConvertKeeps(converter, b, f, inner.View(), books, View());
    }

    /** Processes a block and offers its output. Called only with nothing pending. */
    method ConvertChunk() returns (r: Result<()>)
      requires Steady() && !Passthrough() && pending == [] && segmentReal > 0
      requires inputBuf != [] || generatedHw < segmentStartHw + Needed(converter, segmentReal)
      modifies this, inner
      ensures Valid() && inputBuf == [] && inner.consumed >= old(inner.consumed) && |hist| == old(|hist|) + 1
      ensures books == Converted(old(books), old(inputBuf), segmentReal)
      ensures segmentReal == old(segmentReal) && acceptedEngine == old(acceptedEngine)
      ensures segmentStartHw == old(segmentStartHw) && segmentStartEngine == old(segmentStartEngine)
      ensures old(inner.log) <= inner.log && Answered(old(inner.log), r.Ok?)
      ensures inner.willing ==> r.Ok? && pending == []
    {
      BufferedIs();
      hide Steady, Converted, Needed;
      ProcessBlock();
      r := DrainPending();
    }

    lemma BufferedIs()
      requires Steady()
      ensures Rates(converter) && |inputBuf| <= 1024 && |books.seg.hist| == |books.seg.accepted|
    {
      hide SinkOk;
      SinkFacts(converter, books, View(), inner.View());
    }

    /** Takes samples into the input buffer and counts them. */
    method Accept(more: seq<Sample>)
      requires Steady() && !Passthrough() && |inputBuf| + |more| <= 1024
      modifies this`inputBuf, this`acceptedEngine, this`segmentReal, this`books
      ensures Steady() && inputBuf == old(inputBuf) + more && books == old(books).(fed := old(books.fed) + more)
      ensures acceptedEngine == old(acceptedEngine) + |more| && segmentReal == old(segmentReal) + |more|
    {
      ghost var f, b := View(), books;
      hide SinkOk;
      inputBuf := inputBuf + more;
      acceptedEngine := acceptedEngine + |more|;
      segmentReal := segmentReal + |more|;
      books := b.(fed := b.fed + more);
      FeedKeeps(converter, b, f, inner.View(), more, books, View());
    }

    /** Appends what of `samples` fits before the first backpressure. */
    method Write(samples: seq<Sample>) returns (r: Result<nat>)
      requires Valid()
      modifies this, inner
      ensures Valid() && inner.consumed >= old(inner.consumed)
      ensures r.Ok? ==> r.value <= |samples|
      ensures Passthrough() ==>
                && inner.taken == old(inner.taken) + samples[..if r.Ok? then r.value else 0]
                && acceptedEngine == old(acceptedEngine) && books == old(books)
      ensures !Passthrough() ==>
                var k := acceptedEngine - old(acceptedEngine);
                && 0 <= k <= |samples|
                && books.fed == old(books.fed) + samples[..k]
                && books == old(books).(seg := books.seg, fed := books.fed)
                && segmentReal == old(segmentReal) + k && segmentStartHw == old(segmentStartHw)
                && (r.Ok? ==> r.value == k && (k < |samples| ==> pending != []))
                && old(inner.log) <= inner.log && Answered(old(inner.log), r.Ok?)
      ensures converter.hwRate == converter.targetRate ==> inner.log == old(inner.log) + [Offered(samples, r)]
      ensures converter.hwRate != converter.targetRate && inner.willing ==> r == Ok(|samples|) && pending == []
    {
      hide SinkOk, Converted, OfferFailed, Stalled, Failures;
      if Passthrough() {
        ghost var n := inner.View();
        r := inner.Write(samples);
        PassesThrough(converter, books, View(), n, inner.View());
        return;
      }
      hide Steady;
      assert samples[..0] == [];
      var drained := DrainPending();
      if drained.Err? {
        return Err(drained.error);
      }
      if pending != [] {
        return Ok(0);
      }
      var accepted := 0;
      while accepted < |samples|
        invariant Valid() && inner.consumed >= old(inner.consumed) && pending == []
        invariant 0 <= accepted <= |samples| && acceptedEngine == old(acceptedEngine) + accepted
        invariant books.fed == old(books.fed) + samples[..accepted]
        invariant books == old(books).(seg := books.seg, fed := books.fed)
        invariant segmentReal == old(segmentReal) + accepted && segmentStartHw == old(segmentStartHw)
        invariant old(inner.log) <= inner.log && Failures(inner.log) == Failures(old(inner.log))
      {
        var take := Min(1024 - |inputBuf|, |samples| - accepted);
        Accept(samples[accepted..accepted + take]);
        TakenGrows(old(books.fed), samples, 0, accepted, take);
        accepted := accepted + take;
        if |inputBuf| == 1024 {
          WholeBlockAddsNothing(books, inputBuf, segmentReal);
          var converted := ConvertChunk();
          if converted.Err? {
            return Err(converted.error);
          }
          if pending != [] {
            break;
          }
        }
      }
      return Ok(accepted);
    }

    /** What a bounded wait's outcome says of the inner sink: of `polls` waits as
        many are left as were not spent on an offer of which nothing was taken; an
        error is a failed offer, or one such offer too many. */
    ghost predicate Waited(before: seq<Answer>, polls: nat, r: Result<nat>)
      reads inner
    {
      if r.Ok? then
        && r.value <= polls && Stalls(inner.log) >= Stalls(before) + (polls - r.value)
        && Failures(inner.log) == Failures(before)
      else (|inner.log| > |before| && OfferFailed(inner.log)) || Stalls(inner.log) > Stalls(before) + polls
    }

    /** Waits, at most `polls` times, for the pending block to be accepted. */
    method AwaitPending(polls: nat) returns (r: Result<nat>)
      requires Valid() && !Passthrough()
      modifies this`pending, this`pendingOffset, inner
      ensures Valid() && inner.consumed >= old(inner.consumed)
      ensures r.Ok? ==> pending == []
      ensures old(inner.log) <= inner.log && Waited(old(inner.log), polls, r)
      ensures inner.willing ==> r.Ok?
    {
      hide Steady, Stalls, Stalled, Failures;
      var left: nat := polls;
      while pending != []
        invariant Valid() && inner.consumed >= old(inner.consumed)
        invariant old(inner.log) <= inner.log && left <= polls
        invariant Stalls(inner.log) >= Stalls(old(inner.log)) + (polls - left)
        invariant Failures(inner.log) == Failures(old(inner.log))
        invariant inner.willing ==> left == polls && (pending == [] || pending == old(pending))
        decreases left
      {
        ghost var before := inner.log;
        var drained := DrainPending();
        StallsGrow(before, inner.log);
        if drained.Err? {
          return Err(drained.error);
        }
        if pending == [] {
          break;
        }
        if left == 0 {
          return Err("audio output stalled while finalizing resampled tail");
        }
        left := left - 1;
      }
      return Ok(left);
    }

    /** Converts one block while finishing and waits for it to be accepted. */
    method FinishBlock(polls: nat, ghost b0: Books, ghost i0: seq<Sample>) returns (r: Result<nat>)
      requires Valid() && !Passthrough() && pending == [] && segmentReal > 0 && Rates(converter)
      requires inputBuf != [] || generatedHw < segmentStartHw + Needed(converter, segmentReal)
      requires |b0.seg.hist| == |b0.seg.accepted| && |books.seg.hist| == |books.seg.accepted|
      requires Finishing(converter, b0, i0, books, inputBuf, segmentReal)
      modifies this, inner
      ensures Valid() && inputBuf == [] && inner.consumed >= old(inner.consumed) && |hist| == old(|hist|) + 1
      ensures segmentReal == old(segmentReal) && acceptedEngine == old(acceptedEngine)
      ensures segmentStartHw == old(segmentStartHw) && segmentStartEngine == old(segmentStartEngine)
      ensures |books.seg.hist| == |books.seg.accepted| && Finishing(converter, b0, i0, books, [], segmentReal)
      ensures r.Ok? ==> pending == []
      ensures old(inner.log) <= inner.log && Waited(old(inner.log), polls, r)
      ensures inner.willing ==> r.Ok?
    {
      hide SinkOk, Finishing, Converted, Needed;
      FinishingConverts(converter, b0, i0, books, View(), inner.View(), Converted(books, inputBuf, segmentReal));
      hide Steady, Stalls, Failures;
      var converted := ConvertChunk();
      if converted.Err? {
        return Err(converted.error);
      }
      StallsGrow(old(inner.log), inner.log);
      r := AwaitPending(polls);
    }

    /** Finishing was given up: an offer failed, or too many were not taken. */
    ghost predicate GaveUp(before: seq<Answer>, polls: nat)
      reads inner
    {
      (|inner.log| > |before| && OfferFailed(inner.log)) || Stalls(inner.log) > Stalls(before) + polls
    }

    /** Delivers what is buffered, and as much silence as it takes to push the
        segment's last sample through the converter. */
    method PushThrough(polls: nat) returns (r: Result<()>)
      requires Valid() && !Passthrough() && segmentReal > 0
      modifies this, inner
      ensures Valid() && inner.consumed >= old(inner.consumed)
      ensures Rates(converter) && |books.seg.hist| == |books.seg.accepted| && |old(books.seg.hist)| == |old(books.seg.accepted)|
      ensures segmentReal == old(segmentReal) && acceptedEngine == old(acceptedEngine)
      ensures segmentStartHw == old(segmentStartHw) && segmentStartEngine == old(segmentStartEngine)
      ensures OnlyPadded(old(books), books)
      ensures old(inner.log) <= inner.log && (r.Err? ==> GaveUp(old(inner.log), polls))
      ensures r.Ok? ==> Failures(inner.log) == Failures(old(inner.log))
      ensures inner.willing ==> r.Ok?
      ensures r.Ok? ==>
                && pending == [] && inputBuf == [] && generatedHw >= segmentStartHw + Needed(converter, segmentReal)
                && Finishing(converter, old(books), old(inputBuf), books, [], segmentReal)
    {
      hide SinkOk, Steady, Needed, Finishing, BlockBound, OnlyPadded, Stalls, OfferFailed, Failures;
      ghost var b0, i0, total := books, inputBuf, segmentReal;
      BufferedIs();
      NothingFed(books);
      var awaited := AwaitPending(polls);
      if awaited.Err? {
        return Err(awaited.error);
      }
      FinishOpens();
      if inputBuf != [] {
        awaited := FinishBlock(awaited.value, b0, i0);
        FinishingBooks(converter, b0, i0, books, total);
        if awaited.Err? {
          return Err(awaited.error);
        }
      }
      var needed := segmentStartHw + Needed(converter, segmentReal);
      while generatedHw < needed
        invariant Valid() && inner.consumed >= old(inner.consumed) && pending == [] && inputBuf == []
        invariant segmentReal == total && acceptedEngine == old(acceptedEngine) && segmentStartHw == old(segmentStartHw)
        invariant segmentStartEngine == old(segmentStartEngine)
        invariant old(inner.log) <= inner.log
        invariant awaited.Ok? && 0 <= awaited.value <= polls
        invariant Stalls(inner.log) >= Stalls(old(inner.log)) + (polls - awaited.value)
        invariant Failures(inner.log) == Failures(old(inner.log))
        invariant |books.seg.hist| == |books.seg.accepted| && Finishing(converter, b0, i0, books, [], total)
        decreases BlockBound(converter, total) - |hist|
      {
        OutputIsShort();
        awaited := FinishBlock(awaited.value, b0, i0);
        FinishingBooks(converter, b0, i0, books, total);
        if awaited.Err? {
          return Err(awaited.error);
        }
      }
      FinishingBooks(converter, b0, i0, books, total);
      return Ok(());
    }

    lemma FinishOpens()
      requires Valid() && !Passthrough() && pending == []
      ensures Rates(converter) && |books.seg.hist| == |books.seg.accepted|
      ensures Finishing(converter, books, inputBuf, books, inputBuf, segmentReal)
    {
      hide SinkOk, Finishing;
      FinishingOpens(converter, books, View(), inner.View());
    }

    lemma OutputIsShort()
      requires Valid() && Rates(converter) && generatedHw < segmentStartHw + Needed(converter, segmentReal)
      ensures |hist| <= BlockBound(converter, segmentReal)
    {
      hide SinkOk, Needed, BlockBound;
      ShortOutput(converter, books, View(), inner.View());
    }

    /** Starts the next segment where the finished one ended. */
    method CloseSegment(ghost b0: Books, ghost i0: seq<Sample>) returns (ghost blocks: seq<Block>)
      requires Valid() && !Passthrough() && pending == [] && inputBuf == [] && segmentReal > 0 && Rates(converter)
      requires |b0.seg.hist| == |b0.seg.accepted| && |books.seg.hist| == |books.seg.accepted|
      requires generatedHw >= segmentStartHw + Needed(converter, segmentReal)
      requires |i0| <= 1024 && Finishing(converter, b0, i0, books, [], segmentReal)
      modifies this
      ensures Valid() && acceptedEngine == old(acceptedEngine) && generatedHw == old(generatedHw)
      ensures pending == [] && inputBuf == [] && AtBoundary() && |books.seg.hist| == |books.seg.accepted|
      ensures segmentStartHw == generatedHw && segmentStartEngine == acceptedEngine && books.base == b0.base
      ensures NotBefore(books.base, Full(converter, books), generatedHw, acceptedEngine)
      ensures From(books.base, Full(converter, books), generatedHw, acceptedEngine) <==>
                !Overshot(converter, b0, i0, old(segmentReal))
      ensures b0.clean ==>
                && !Overshot(converter, b0, i0, old(segmentReal))
                && Finished(converter, b0.fed, blocks) && inner.taken == b0.finished + Stream(converter, blocks)
    {
      hide SinkOk, Needed, From, NotBefore, Finished, Overshot, Stream, Closed, Finishing, Full;
      ghost var f, b := View(), books;
      blocks := hist;
      hist := [];
      segmentStartHw := generatedHw;
      segmentStartEngine := acceptedEngine;
      segmentReal := 0;
      books := Closed(converter, b, inner.taken);
      FinishingCloses(converter, b0, i0, b, f, inner.View(), books, View());
    }

    /** Finishes the running segment. */
    method Flush(polls: nat) returns (r: Result<()>, ghost blocks: seq<Block>)
      requires Valid()
      modifies this, inner
      ensures Valid() && inner.consumed >= old(inner.consumed) && acceptedEngine == old(acceptedEngine)
      ensures Rates(converter) && |books.seg.hist| == |books.seg.accepted| && |old(books.seg.hist)| == |old(books.seg.accepted)|
      ensures |old(inputBuf)| <= 1024
      ensures Passthrough() || old(segmentReal) == 0 ==>
                r.Ok? && books == old(books) && inner.taken == old(inner.taken) && generatedHw == old(generatedHw)
      ensures !Passthrough() && old(segmentReal) > 0 && r.Ok? ==>
                && pending == [] && inputBuf == [] && AtBoundary()
                && segmentStartHw == generatedHw && segmentStartEngine == acceptedEngine && books.base == old(books.base)
                && NotBefore(books.base, Full(converter, books), generatedHw, acceptedEngine)
                && (From(books.base, Full(converter, books), generatedHw, acceptedEngine) <==>
                      !Overshot(converter, old(books), old(inputBuf), old(segmentReal)))
      ensures !Passthrough() && old(segmentReal) > 0 && r.Ok? && old(books.clean) ==>
                && !Overshot(converter, old(books), old(inputBuf), old(segmentReal))
                && Finished(converter, old(books.fed), blocks)
                && inner.taken == old(books.finished) + Stream(converter, blocks)
      ensures r.Err? ==>
                && segmentReal == old(segmentReal) && segmentStartHw == old(segmentStartHw)
                && OnlyPadded(old(books), books)
      ensures old(inner.log) <= inner.log && (r.Err? ==> GaveUp(old(inner.log), polls))
      ensures r.Ok? ==> Failures(inner.log) == Failures(old(inner.log))
      ensures inner.willing ==> r.Ok?
    {
      blocks := [];
      SinkFacts(converter, books, View(), inner.View());
      hide SinkOk, Steady, Full, From, NotBefore, Finished, Overshot, Stream, Finishing, Needed, LedgerOk;
      if Passthrough() || segmentReal == 0 {
        return Ok(()), [];
      }
      r := PushThrough(polls);
      if r.Ok? {
        blocks := CloseSegment(old(books), old(inputBuf));
      }
    }

    /** Forgets the marks passed at hardware count `hw`, all but the last. */
    method Prune(hw: nat)
      requires LedgerOk(converter, books, ledger, progressBaseEngine)
      modifies this`ledger, this`progressBaseEngine, this`books
      ensures LedgerOk(converter, books, ledger, progressBaseEngine)
      ensures Full(converter, books) == old(Full(converter, books))
      ensures books == old(books).(cut := books.cut, asked := Max(old(books.asked), hw))
      ensures Max(hw, Passed(Full(converter, books), books)) == Max(hw, old(Passed(Full(converter, books), books)))
      ensures old(ledger) == [] ==> ledger == [] && progressBaseEngine == old(progressBaseEngine)
      ensures |ledger| <= 1 || ledger[0].hwEnd > hw
    {
      hide Pruning, LedgerFits, WellFed, Precedes, Safe, Behind, Full, Passed, Max;
      PruningStarts(converter, books, ledger, progressBaseEngine, hw);
      ghost var full, b0 := Full(converter, books), books;
      hide LedgerOk, BooksOk;
      books := books.(asked := Max(books.asked, hw));
      while |ledger| > 1 && ledger[0].hwEnd <= hw
        invariant Pruning(converter, full, b0, books, ledger, progressBaseEngine, hw)
        invariant old(ledger) == [] ==> ledger == [] && progressBaseEngine == old(progressBaseEngine)
        decreases |ledger|
      {
        PruningStep(converter, full, b0, books, ledger, progressBaseEngine, hw);
        books := books.(cut := books.cut + 1);
        progressBaseEngine := ledger[0].engineEnd;
        ledger := ledger[1..];
      }
      PruningEnds(converter, full, b0, books, ledger, progressBaseEngine, hw);
    }

    /** The engine samples complete at hardware count `hw`. */
    method MappedAt(hw: nat) returns (engine: nat)
      requires LedgerOk(converter, books, ledger, progressBaseEngine)
      modifies this`ledger, this`progressBaseEngine, this`books
      ensures LedgerOk(converter, books, ledger, progressBaseEngine)
      ensures Full(converter, books) == old(Full(converter, books))
      ensures books == old(books).(cut := books.cut, asked := Max(old(books.asked), hw))
      ensures engine == Lookup(books.base, Full(converter, books), Max(hw, old(Passed(Full(converter, books), books))))
      ensures hw >= old(books.asked) ==> engine == Lookup(books.base, Full(converter, books), hw)
      ensures old(ledger) == [] ==> ledger == [] && engine == progressBaseEngine == old(progressBaseEngine)
    {
      hide WellFed, Precedes, Behind, Full, Lookup, Rising, Within, Safe, LedgerFits, Passed;
      PassedAsked(Full(converter, books), books, ledger, progressBaseEngine);
      Prune(hw);
      ghost var full := Full(converter, books);
      FullLedger(converter, books);
      engine := progressBaseEngine;
      var i := 0;
      while i < |ledger| && ledger[i].hwEnd <= hw
        invariant i <= |ledger| && (i > 0 ==> ledger[i - 1].hwEnd <= hw)
        invariant engine == if i == 0 then progressBaseEngine else ledger[i - 1].engineEnd
      {
        engine := ledger[i].engineEnd;
        i := i + 1;
      }
      KeptLedgerAnswers(full, books, ledger, progressBaseEngine, hw, i);
    }

    /** Playback progress in engine samples, from a snapshot of the hardware's. */
    method ProgressFromHardware(consumedSamples: nat, remaining: nat) returns (consumed: nat, left: nat)
      requires Valid() && consumedSamples <= inner.consumed
      modifies this`ledger, this`progressBaseEngine, this`books
      ensures Valid() && left == remaining
      ensures Passthrough() ==> consumed == 0
      ensures consumedSamples >= old(books.asked) ==> consumed == old(Lookup(books.base, Full(converter, books), consumedSamples))
      ensures consumedSamples >= old(books.asked) ==>
                consumed <= MapEngine(converter, segmentStartHw, segmentStartEngine, segmentReal - |inputBuf|, consumedSamples)
      ensures consumedSamples >= old(books.asked) && consumedSamples >= old(books.baseHw) ==>
                Behind(converter, consumed, consumedSamples)
    {
      ghost var f, b := View(), books;
      SinkFacts(converter, b, f, inner.View());
      ProgressIsMonotoneAndSafe(converter, books, consumedSamples, consumedSamples);
      AskedBelow(converter, b, f, inner.View());
      hide SinkOk, LedgerOk, Full, Lookup, Passed;
      consumed := MappedAt(consumedSamples);
      left := remaining;
      AskKeeps(converter, b, f, inner.View(), books, View());
    }

    /** Drops everything the device has not played, once the inner sink has. */
    method DiscardBuffered() returns (r: Result<Option<nat>>)
      requires Valid()
      modifies this, inner
      ensures Valid() && inner.consumed >= old(inner.consumed)
      ensures Rates(converter) && |books.seg.hist| == |books.seg.accepted| && |old(books.seg.hist)| == |old(books.seg.accepted)|
      ensures !(r.Ok? && r.value.Some?) ==>
                && books == old(books) && acceptedEngine == old(acceptedEngine) && generatedHw == old(generatedHw)
                && inputBuf == old(inputBuf) && pending == old(pending) && pendingOffset == old(pendingOffset)
      ensures r.Ok? && r.value.Some? ==>
                && inputBuf == [] && pending == [] && inner.buffered == 0 && AtBoundary()
                && Full(converter, books) == [] && books.base == acceptedEngine
      ensures r.Ok? && r.value.Some? && !Passthrough() ==>
                && r.value.value + acceptedEngine == old(acceptedEngine) && r.value.value >= |old(inputBuf)|
                && acceptedEngine == Lookup(old(books.base), old(Full(converter, books)), inner.consumed)
                && generatedHw == inner.consumed
      ensures r.Ok? && r.value.Some? && Passthrough() ==> r.value.value == 0 && acceptedEngine == 0
      ensures exists d ::
                && inner.log == old(inner.log) + [Dropped(d)] && (r.Err? <==> d.Err?)
                && (r.Ok? ==> (r.value.None? <==> d.value.None?))
      ensures inner.willing ==> r.Ok? && r.value.Some?
    {
      ghost var f, n := View(), inner.View();
      SinkFacts(converter, books, f, n);
      hide SinkOk, SinkFits, LedgerOk, Full, Lookup;
      var discarded := inner.DiscardBuffered();
      if discarded.Err? {
        InnerPlays(converter, books, f, n, inner.View());
        return Err(discarded.error);
      }
      if discarded.value.None? {
        InnerPlays(converter, books, f, n, inner.View());
        return Ok(None);
      }
      InnerDrops(converter, books, f, n, inner.View(), discarded.value.value);
      hide Steady;
      var dropped := Restart(discarded.value.value);
      return Ok(Some(dropped));
    }

    /** Restarts the counts from the progress made, once the inner sink has
        dropped what it held. */
    method Restart(innerDropped: nat) returns (dropped: nat)
      requires SinkFits(converter, books, View(), inner.View(), innerDropped) && inner.buffered == 0
      requires Rates(converter) && |books.seg.hist| == |books.seg.accepted|
      modifies this
      ensures Valid() && inputBuf == [] && pending == [] && AtBoundary() && |books.seg.hist| == |books.seg.accepted|
      ensures Full(converter, books) == [] && books.base == acceptedEngine
      ensures !Passthrough() ==>
                && dropped + acceptedEngine == old(acceptedEngine) && dropped >= |old(inputBuf)|
                && acceptedEngine == Lookup(old(books.base), old(Full(converter, books)), inner.consumed)
                && generatedHw == inner.consumed
      ensures Passthrough() ==> dropped == 0 && acceptedEngine == 0
    {
      hide SinkOk, SinkFits, LedgerOk, Full, Lookup, Restarted, Passed;
      ghost var f, b, n := View(), books, inner.View();
      UnplayedIs(converter, b, f, n, innerDropped);
      var held := |inputBuf|;
      inputBuf := [];
      var pendingHw := |pending| - pendingOffset;
      pending, pendingOffset := [], 0;
      var consumedHw := Monus(generatedHw, pendingHw + innerDropped);
      var played := MappedAt(consumedHw);
      ghost var next := Restarted(books, consumedHw, played, n.taken);
      DropRestarts(converter, b, f, n, innerDropped, books, consumedHw, played, next);
      dropped := Monus(acceptedEngine, played);
      assert !Passthrough() ==> dropped >= held;
      ResetTo(consumedHw, played, next);
    }

    /** Empties the sink, its counts at `hw` hardware and `engine` engine samples. */
    method ResetTo(hw: nat, engine: nat, ghost next: Books)
      requires SinkOk(converter, next, Emptied(hw, engine), inner.View())
      modifies this
      ensures Valid() && books == next && View() == Emptied(hw, engine)
    {
      hide SinkOk;
      inputBuf, pending, pendingOffset := [], [], 0;
      generatedHw, acceptedEngine := hw, engine;
      segmentStartHw, segmentStartEngine, segmentReal := hw, engine, 0;
      progressBaseEngine, ledger, hist, books := engine, [], [], next;
    }

    /** Starts the inner sink and forgets everything of the stream before. */
    method Start() returns (r: Result<()>)
      requires Lawful(converter)
      modifies this, inner
      ensures r.Ok? || old(Valid()) ==> Valid()
      ensures if r.Ok? then books == UNSTARTED && AtBoundary() && View() == Emptied(0, 0) && inner.View() == Inner([], 0, 0)
              else books == old(books) && View() == old(View()) && inner.View() == old(inner.View())
      ensures inner.log == old(inner.log) + [Started(r)] && (inner.willing ==> r.Ok?)
    {
      r := inner.Start();
      if r.Ok? {
        SinkStarts(converter);
        hide SinkOk;
        ResetTo(0, 0, UNSTARTED);
      }
    }

    method FinishInput(polls: nat) returns (r: Result<()>)
      requires Valid()
      modifies this, inner
      ensures Valid() && acceptedEngine == old(acceptedEngine) && Rates(converter) && |books.seg.hist| == |books.seg.accepted|
      ensures r.Ok? && !Passthrough() && old(segmentReal) > 0 && old(books.clean) ==>
                && AtBoundary()
                && NotBefore(books.base, Full(converter, books), generatedHw, acceptedEngine)
                && From(books.base, Full(converter, books), generatedHw, acceptedEngine)
      ensures r.Ok? && !Passthrough() && old(segmentReal) > 0 ==> AtBoundary() && pending == [] && inputBuf == []
      ensures old(inner.log) <= inner.log && (r.Err? ==> GaveUp(old(inner.log), polls))
      ensures r.Ok? ==> Failures(inner.log) == Failures(old(inner.log))
      ensures inner.willing ==> r.Ok?
    {
      hide SinkOk, NotBefore, From, Full, Overshot;
      ghost var blocks;
      r, blocks := Flush(polls);
    }

    /** What the sink's state always says: no hardware sample is unaccounted
        for, the delivered samples and the undelivered rest are the converter's
        output on what was fed, and no mark credits a sample still buffered. */
    lemma NothingIsLost()
      requires Valid() && !Passthrough()
      ensures pendingOffset <= |pending|
      ensures generatedHw == inner.consumed + inner.buffered + (|pending| - pendingOffset)
      ensures inner.taken + pending[pendingOffset..] == books.finished + Stream(converter, hist)
      ensures Flatten(hist) + inputBuf == books.fed
      ensures Rates(converter) && |books.seg.hist| == |books.seg.accepted| && Rising(Full(converter, books))
      ensures forall m :: m in Full(converter, books) ==>
                m.hwEnd <= generatedHw && m.engineEnd + |inputBuf| <= acceptedEngine
    {
      FullLedger(converter, books);
      hide LedgerFits, Lawful, BooksOk, Full, Rising, Stream, Flatten;
    }

    /** The release test through the sink, once a transmission has been finished
        in full: translated progress reaches what was accepted exactly when the
        device has played all of the output, and then nothing is left anywhere. */
    lemma PlayedMeansNothingPending(hw: nat)
      requires Valid() && !Passthrough() && segmentReal == 0 && hw <= inner.consumed
      requires Rates(converter) && |books.seg.hist| == |books.seg.accepted|
      requires NotBefore(books.base, Full(converter, books), generatedHw, acceptedEngine)
      requires From(books.base, Full(converter, books), generatedHw, acceptedEngine)
      ensures Lookup(books.base, Full(converter, books), hw) >= acceptedEngine <==> hw >= generatedHw
      ensures hw >= generatedHw ==>
                && hw == inner.consumed == generatedHw && inner.buffered == 0
                && pending == [] && inputBuf == [] && inner.taken == books.finished + Stream(converter, hist)
    {
      NothingIsLost();
      hide LedgerOk, Lawful, Full, Lookup, EndHw, Stream, Flatten;
      if hw >= generatedHw {
        assert pending[pendingOffset..] == [] && inner.taken + [] == inner.taken;
      }
    }
  }

  lemma TakenGrows(taken: seq<Sample>, samples: seq<Sample>, start: nat, at: nat, n: nat)
    requires start <= at && at + n <= |samples|
    ensures (taken + samples[start..at]) + samples[at..][..n] == taken + samples[start..at + n]
    ensures (taken + samples[start..at]) + samples[at..at + n] == taken + samples[start..at + n]
    ensures samples[..at] == samples[0..at] && samples[..at + n] == samples[0..at + n]
  {
  }

  function Total(sizes: seq<nat>): nat {
    if sizes == [] then 0 else Total(sizes[..|sizes| - 1]) + sizes[|sizes| - 1]
  }

  lemma SlicesJoin(samples: seq<Sample>, start: nat, end: nat, n: nat)
    requires start + n <= end <= |samples|
    ensures samples[..start] + samples[start..end][..n] == samples[..start + n]
  {
  }

  /** One transmission: `input` offered in pieces of the given sizes, each time
      from the first sample not yet accepted, then finished. */
  method Transmit(sink: ResamplingSink, input: seq<Sample>, sizes: seq<nat>, polls: nat) returns (done: bool, ghost blocks: seq<Block>)
    requires sink.Valid() && !sink.Passthrough() && sink.AtBoundary() && input != []
    modifies sink, sink.inner
    ensures sink.Valid()
    ensures done ==>
              && Finished(sink.converter, input, blocks)
              && sink.inner.taken == old(sink.inner.taken) + Stream(sink.converter, blocks)
              && sink.acceptedEngine == old(sink.acceptedEngine) + |input| && sink.AtBoundary()
              && NotBefore(sink.books.base, Full(sink.converter, sink.books), sink.generatedHw, sink.acceptedEngine)
              && From(sink.books.base, Full(sink.converter, sink.books), sink.generatedHw, sink.acceptedEngine)
    ensures old(sink.inner.log) <= sink.inner.log
    ensures done ==> Failures(sink.inner.log) == Failures(old(sink.inner.log))
    ensures !done ==>
              || Total(sizes) < |input| || OfferFailed(sink.inner.log)
              || Stalls(sink.inner.log) > Stalls(old(sink.inner.log))
    ensures sink.inner.willing && Total(sizes) >= |input| ==> done
  {
    hide ResamplingSink.Steady, Stalls, Failures, NotBefore, From, Full, Finished, Stream, Overshot;
    blocks := [];
    var accepted := 0;
    assert input[..0] == [];
    for i := 0 to |sizes|
      invariant sink.Valid() && 0 <= accepted <= |input|
      invariant sink.books.fed == input[..accepted] && sink.segmentReal == accepted
      invariant sink.books.clean && sink.books.finished == old(sink.inner.taken)
      invariant sink.acceptedEngine == old(sink.acceptedEngine) + accepted
      invariant old(sink.inner.log) <= sink.inner.log && Failures(sink.inner.log) == Failures(old(sink.inner.log))
      invariant accepted == Min(Total(sizes[..i]), |input|) || Stalls(sink.inner.log) > Stalls(old(sink.inner.log))
      invariant sink.inner.willing ==> accepted == Min(Total(sizes[..i]), |input|)
    {
      assert sizes[..i + 1][..i] == sizes[..i];
      ghost var before := sink.inner.log;
      var end := Min(accepted + sizes[i], |input|);
      var offered := input[accepted..end];
      var written := sink.Write(offered);
      if written.Err? {
        return false, [];
      }
      SlicesJoin(input, accepted, end, written.value);
      StallsGrow(old(sink.inner.log), before);
      StallsGrow(before, sink.inner.log);
      accepted := accepted + written.value;
    }
    assert sizes[..|sizes|] == sizes;
    if accepted < |input| {
      return false, [];
    }
    assert input[..accepted] == input;
    StallsGrow(old(sink.inner.log), sink.inner.log);
    var finished;
    finished, blocks := sink.Flush(polls);
    done := finished.Ok?;
  }

  /** One input through two sinks of the same converter, each in its own pieces
      and with its own delays: they deliver the same samples. */
  method TransmitTwice(a: ResamplingSink, b: ResamplingSink, input: seq<Sample>, sizesA: seq<nat>, sizesB: seq<nat>,
                       pollsA: nat, pollsB: nat)
    returns (doneA: bool, doneB: bool, ghost delivered: seq<Sample>)
    requires a != b && a.inner != b.inner && a.converter == b.converter && input != []
    requires a.Valid() && !a.Passthrough() && a.AtBoundary() && b.Valid() && b.AtBoundary()
    modifies a, a.inner, b, b.inner
    ensures a.Valid() && b.Valid()
    ensures doneA && doneB ==>
              && a.inner.taken == old(a.inner.taken) + delivered && b.inner.taken == old(b.inner.taken) + delivered
              && a.acceptedEngine - old(a.acceptedEngine) == b.acceptedEngine - old(b.acceptedEngine) == |input|
    ensures a.inner.willing && Total(sizesA) >= |input| ==> doneA
    ensures b.inner.willing && Total(sizesB) >= |input| ==> doneB
  {
    hide ResamplingSink.Steady, NotBefore, From, Full, Finished, Stream, Lawful, SinkOk;
    ghost var blocksA, blocksB;
    doneA, blocksA := Transmit(a, input, sizesA, pollsA);
    doneB, blocksB := Transmit(b, input, sizesB, pollsB);
    delivered := Stream(a.converter, blocksA);
    if doneA && doneB {
      RatesOf(b);
      OutputIsDetermined(a.converter, input, blocksA, blocksB);
    }
  }

  lemma RatesOf(sink: ResamplingSink)
    requires sink.Valid()
    ensures Rates(sink.converter)
  {
    hide SinkOk;
    SinkFacts(sink.converter, sink.books, sink.View(), sink.inner.View());
  }

  lemma NothingFed(b: Books)
    ensures OnlyPadded(b, b)
  {
    assert b.fed + Zeros(0) == b.fed;
  }

  lemma FinishingBooks(c: Converter, b0: Books, i0: seq<Sample>, b: Books, total: nat)
    requires c.targetRate > 0 && |b.seg.hist| == |b.seg.accepted| && |b0.seg.hist| == |b0.seg.accepted|
    requires Finishing(c, b0, i0, b, [], total)
    ensures OnlyPadded(b0, b)
  {
  }

  /** A whole block needs no padding. */
  lemma WholeBlockAddsNothing(b: Books, input: seq<Sample>, total: nat)
    requires |input| == 1024
    ensures Converted(b, input, total) == b.(seg := Converted(b, input, total).seg)
  {
    assert b.fed + Zeros(0) == b.fed;
  }
}
