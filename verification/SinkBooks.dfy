/** The resampling sink's bookkeeping as values, and what converting a block,
    finishing a segment and dropping the unplayed do to it. */
module SinkBooks {
  import opened Basics
  import opened Lanes
  import opened Conversion

  /** What the proof remembers beside the fields: the running segment, the marks
      of the segments before it, the progress every later answer starts from,
      how many marks were pruned and the largest query so far, the output of the
      finished segments, and everything fed to the running one. `clean` says no
      padding has been fed to it. */
  datatype Books = Books(seg: Segment, earlier: seq<Mark>, base: nat, baseHw: nat, cut: nat, asked: nat,
                         finished: seq<Sample>, fed: seq<Sample>, clean: bool)

  /** Every mark ever recorded, none of them pruned. */
  ghost function Full(c: Converter, b: Books): seq<Mark>
    requires c.hwRate > 0 && |b.seg.hist| == |b.seg.accepted|
  {
    b.earlier + LedgerOf(c, b.seg)
  }

  ghost predicate BooksOk(c: Converter, b: Books) {
    && Rates(c) && WellFed(c, b.seg) && Precedes(b.base, b.earlier, b.seg) && Safe(c, b.earlier)
    && Behind(c, b.base, b.baseHw) && Behind(c, b.seg.startEngine, b.seg.startHw)
  }

  /** The kept ledger is the full one without a front that was passed. */
  ghost predicate LedgerFits(full: seq<Mark>, b: Books, ledger: seq<Mark>, progressBase: nat) {
    && b.cut <= |full| && ledger == full[b.cut..] && (full != [] ==> b.cut < |full|)
    && progressBase == (if b.cut == 0 then b.base else full[b.cut - 1].engineEnd)
    && (b.cut > 0 ==> full[b.cut - 1].hwEnd <= b.asked)
  }

  /** What went in and out: the blocks hold what was fed, and the inner sink's
      samples followed by the undelivered rest are the converter's output. */
  ghost predicate FlowFits(c: Converter, b: Books, inputBuf: seq<Sample>, rest: seq<Sample>, taken: seq<Sample>)
    requires |b.seg.hist| == |b.seg.accepted|
  {
    && Flatten(b.seg.hist) + inputBuf == b.fed
    && taken + rest == b.finished + Stream(c, b.seg.hist)
    && (b.clean ==>
          && |b.fed| == b.seg.Covered() + |inputBuf|
          && NoLonger(|Stream(c, b.seg.hist)|, c.hwRate, Marked(c, b.seg), c.targetRate))
  }

  /** The latest hardware count whose marks were pruned. */
  ghost function Passed(full: seq<Mark>, b: Books): nat
    requires b.cut <= |full|
  {
    if b.cut == 0 then 0 else full[b.cut - 1].hwEnd
  }

  const UNSTARTED: Books := Books(Segment(0, 0, [], []), [], 0, 0, 0, 0, [], [], true)

  lemma StartFits(c: Converter)
    requires Rates(c)
    ensures BooksOk(c, UNSTARTED) && Full(c, UNSTARTED) == [] && LedgerFits([], UNSTARTED, [], 0) && FlowFits(c, UNSTARTED, [], [], [])
    ensures CountsFit(c, UNSTARTED, Emptied(0, 0))
  {
  }

  ghost function Converted(b: Books, input: seq<Sample>, total: nat): Books
    requires |input| <= 1024
  {
    var pad := 1024 - |input|;
    b.(seg := b.seg.Extended(input + Zeros(pad), total), fed := b.fed + Zeros(pad), clean := b.clean && pad == 0)
  }

  ghost function MarkFor(c: Converter, seg: Segment): seq<Mark>
    requires c.hwRate > 0
  {
    if Output(c, seg.hist) == [] then [] else [Mark(EndHw(c, seg), Top(c, seg))]
  }

  lemma MarkIs(c: Converter, seg: Segment, out: seq<Sample>, end: nat)
    requires c.hwRate > 0 && out == Output(c, seg.hist) && end == EndHw(c, seg)
    ensures MarkFor(c, seg) ==
            if out == [] then [] else [Mark(end, MapEngine(c, seg.startHw, seg.startEngine, seg.Covered(), end))]
  {
  }

  lemma ExtendedIs(c: Converter, seg: Segment, block: Block, total: nat)
    requires Rates(c) && WellFed(c, seg) && |block| == 1024 && total > 0 && total >= seg.Covered()
    requires total > seg.Covered() || |Stream(c, seg.hist)| < Needed(c, total)
    ensures var seg' := seg.Extended(block, total);
            && seg'.hist != [] && |seg'.hist| == |seg'.accepted| && seg'.Before() == seg && seg'.Covered() == total
            && WellFed(c, seg')
            && LedgerOf(c, seg') == LedgerOf(c, seg) + MarkFor(c, seg')
            && Stream(c, seg'.hist) == Stream(c, seg.hist) + Output(c, seg'.hist)
            && Flatten(seg'.hist) == Flatten(seg.hist) + block
            && EndHw(c, seg') == EndHw(c, seg) + |Output(c, seg'.hist)|
            && Marked(c, seg') == (if Output(c, seg'.hist) == [] then Marked(c, seg) else total)
  {
    var seg' := seg.Extended(block, total);
    assert seg'.hist[..|seg'.hist| - 1] == seg.hist && seg'.accepted[..|seg'.accepted| - 1] == seg.accepted;
    assert seg'.Before() == seg;
    hide Needed, MapEngine;
  }

  /** The sink's own fields, and those of the inner sink it can tell. */
  datatype Fields = Fields(hist: seq<Block>, inputBuf: seq<Sample>, pending: seq<Sample>, pendingOffset: nat,
                           generatedHw: nat, acceptedEngine: nat, segmentStartHw: nat, segmentStartEngine: nat,
                           segmentReal: nat, ledger: seq<Mark>, progressBase: nat)

  datatype Inner = Inner(taken: seq<Sample>, buffered: nat, consumed: nat)

  /** An empty sink at `hw` hardware and `engine` engine samples. */
  function Emptied(hw: nat, engine: nat): Fields {
    Fields([], [], [], 0, hw, engine, hw, engine, 0, [], engine)
  }

  /** The sink's counters agree with the books. */
  ghost predicate CountsFit(c: Converter, b: Books, f: Fields) {
    && f.hist == b.seg.hist && |f.hist| == |b.seg.accepted|
    && f.segmentStartHw == b.seg.startHw && f.segmentStartEngine == b.seg.startEngine
    && b.seg.Covered() + |f.inputBuf| == f.segmentReal && f.acceptedEngine == f.segmentStartEngine + f.segmentReal
    && f.generatedHw == EndHw(c, b.seg)
  }

  ghost predicate LedgerOk(c: Converter, b: Books, ledger: seq<Mark>, progressBase: nat) {
    && BooksOk(c, b) && |b.seg.hist| == |b.seg.accepted|
    && LedgerFits(Full(c, b), b, ledger, progressBase)
  }

  ghost predicate SameRates(c: Converter) {
    c.hwRate == c.targetRate
  }

  /** The invariant but for what the inner sink accounts for: of the samples
      generated it holds or has played all but the rest and `missing`. */
  ghost predicate SinkFits(c: Converter, b: Books, f: Fields, n: Inner, missing: nat) {
    && Lawful(c) && |f.inputBuf| <= 1024
    && f.pendingOffset <= |f.pending| && (f.pending != [] ==> f.pendingOffset < |f.pending|)
    && CountsFit(c, b, f) && LedgerOk(c, b, f.ledger, f.progressBase)
    && b.asked <= n.consumed && b.baseHw <= n.consumed
    && if SameRates(c) then
         f.generatedHw == 0 && f.acceptedEngine == 0 && f.inputBuf == [] && f.pending == [] && f.ledger == [] && f.progressBase == 0
       else
         && FlowFits(c, b, f.inputBuf, f.pending[f.pendingOffset..], n.taken)
         && f.generatedHw == n.consumed + n.buffered + missing + (|f.pending| - f.pendingOffset)
  }

  /** The sink's invariant. */
  ghost predicate SinkOk(c: Converter, b: Books, f: Fields, n: Inner) {
    SinkFits(c, b, f, n, 0)
  }

  lemma SinkFacts(c: Converter, b: Books, f: Fields, n: Inner)
    requires SinkOk(c, b, f, n)
    ensures Rates(c) && |b.seg.hist| == |b.seg.accepted| && |f.inputBuf| <= 1024
    ensures f.pendingOffset <= |f.pending| && LedgerOk(c, b, f.ledger, f.progressBase)
    ensures f.generatedHw == EndHw(c, b.seg)
    ensures SameRates(c) ==> f.ledger == [] && f.progressBase == 0
  {
    hide LedgerFits, FlowFits, EndHw;
  }

  lemma AskedBelow(c: Converter, b: Books, f: Fields, n: Inner)
    requires SinkOk(c, b, f, n)
    ensures b.asked <= n.consumed && b.baseHw <= n.consumed
  {
  }

  lemma SinkStarts(c: Converter)
    requires Lawful(c)
    ensures SinkOk(c, UNSTARTED, Emptied(0, 0), Inner([], 0, 0))
  {
    StartFits(c);
    hide BooksOk, LedgerFits, FlowFits, EndHw, Lawful;
  }

  /** A sink at equal rates does not look at what the inner sink does. */
  lemma PassesThrough(c: Converter, b: Books, f: Fields, n: Inner, n': Inner)
    requires SinkOk(c, b, f, n) && SameRates(c) && n'.consumed >= n.consumed
    ensures SinkOk(c, b, f, n')
  {
    hide LedgerOk, FlowFits, CountsFit, Lawful;
  }

  /** The pending block is taken up to offset `k`. */
  lemma DrainKeeps(c: Converter, b: Books, f: Fields, n: Inner, k: nat, f': Fields, n': Inner)
    requires SinkOk(c, b, f, n) && !SameRates(c) && f.pendingOffset <= k <= |f.pending|
    requires n'.taken == n.taken + f.pending[f.pendingOffset..k] && n'.consumed >= n.consumed
    requires n'.consumed + n'.buffered == n.consumed + n.buffered + (k - f.pendingOffset)
    requires f' == if k == |f.pending| then f.(pending := [], pendingOffset := 0) else f.(pendingOffset := k)
    ensures SinkOk(c, b, f', n')
  {
    hide LedgerOk, Lawful, EndHw;
    var rest := f.pending[f.pendingOffset..];
    AppendAssoc(n.taken, rest[..k - f.pendingOffset], rest[k - f.pendingOffset..]);
    assert rest[..k - f.pendingOffset] == f.pending[f.pendingOffset..k];
    assert rest[k - f.pendingOffset..] == f.pending[k..] == f'.pending[f'.pendingOffset..];
    assert rest[..k - f.pendingOffset] + rest[k - f.pendingOffset..] == rest;
    hide Stream, Flatten, NoLonger, Marked;
  }

  /** Samples are accepted into the input buffer. */
  lemma FeedKeeps(c: Converter, b: Books, f: Fields, n: Inner, more: seq<Sample>, b': Books, f': Fields)
    requires SinkOk(c, b, f, n) && !SameRates(c) && |f.inputBuf| + |more| <= 1024
    requires b' == b.(fed := b.fed + more)
    requires f' == f.(inputBuf := f.inputBuf + more, acceptedEngine := f.acceptedEngine + |more|,
                      segmentReal := f.segmentReal + |more|)
    ensures SinkOk(c, b', f', n)
  {
    AppendAssoc(Flatten(b.seg.hist), f.inputBuf, more);
    hide WellFed, Precedes, Safe, Behind, NoLonger, Stream, Flatten, LedgerOf, EndHw, Marked, Lawful;
  }

  /** Converting the input buffer, padded to a block, keeps the sink in order. */
  lemma ConvertKeeps(c: Converter, b: Books, f: Fields, n: Inner, b': Books, f': Fields)
    requires SinkOk(c, b, f, n) && !SameRates(c) && f.pending == [] && f.segmentReal > 0
    requires f.inputBuf != [] || f.generatedHw < f.segmentStartHw + Needed(c, f.segmentReal)
    requires b' == Converted(b, f.inputBuf, f.segmentReal)
    requires f' == f.(hist := f'.hist, inputBuf := [], pending := f'.pending, generatedHw := f'.generatedHw, ledger := f'.ledger)
    requires f'.hist == f.hist + [f.inputBuf + Zeros(1024 - |f.inputBuf|)]
    requires f'.pending == Output(c, f'.hist) && f'.generatedHw == f.generatedHw + |f'.pending|
    requires f'.ledger == f.ledger +
               if f'.pending == [] then []
               else [Mark(f'.generatedHw, MapEngine(c, f.segmentStartHw, f.segmentStartEngine, f.segmentReal, f'.generatedHw))]
    ensures SinkOk(c, b', f', n)
  {
    SinkFacts(c, b, f, n);
    assert f.pending[f.pendingOffset..] == [] && f'.pending[f'.pendingOffset..] == f'.pending;
    assert f.ledger + [] == f.ledger;
    hide Behind, NoLonger, Needed, LedgerOf, WellFed, Stream, Flatten, Marked, EndHw, Lawful, Safe, FlowFits, MapEngine, Output, Converted,
         LedgerFits, BooksOk;
    ConvertParts(c, b, f.inputBuf, f.segmentReal, n.taken, f.ledger, f.progressBase, f'.hist, f'.pending, f'.generatedHw,
                 f'.ledger, b');
  }

  lemma ConvertParts(c: Converter, b: Books, input: seq<Sample>, total: nat, taken: seq<Sample>, ledger: seq<Mark>,
                     progressBase: nat, hist: seq<Block>, out: seq<Sample>, end: nat, ledger': seq<Mark>, b': Books)
    requires Lawful(c) && LedgerOk(c, b, ledger, progressBase) && |input| <= 1024 && total > 0
    requires total == b.seg.Covered() + |input| && FlowFits(c, b, input, [], taken)
    requires input != [] || EndHw(c, b.seg) < b.seg.startHw + Needed(c, total)
    requires b' == Converted(b, input, total)
    requires hist == b.seg.hist + [input + Zeros(1024 - |input|)] && out == Output(c, hist) && end == EndHw(c, b.seg) + |out|
    requires ledger' == ledger +
               if out == [] then [] else [Mark(end, MapEngine(c, b.seg.startHw, b.seg.startEngine, total, end))]
    ensures b'.asked == b.asked && b'.baseHw == b.baseHw
    ensures b'.seg.hist == hist && |hist| == |b'.seg.accepted| && b'.seg.Covered() == total && end == EndHw(c, b'.seg)
    ensures b'.seg.startHw == b.seg.startHw && b'.seg.startEngine == b.seg.startEngine
    ensures LedgerOk(c, b', ledger', progressBase) && FlowFits(c, b', [], out, taken)
  {
    ExtendedIs(c, b.seg, input + Zeros(1024 - |input|), total);
    AppendAssoc(b.earlier, LedgerOf(c, b.seg), MarkFor(c, b'.seg));
    MarkIs(c, b'.seg, out, end);
    hide Behind, NoLonger, Needed, LedgerOf, MarkFor, WellFed, Stream, Flatten, Marked, EndHw, Lawful, Safe, FlowFits, MapEngine, Output;
    assert Full(c, b') == Full(c, b) + MarkFor(c, b'.seg);
    LedgerGrows(Full(c, b), b, ledger, progressBase, MarkFor(c, b'.seg), b');
    FlowConverted(c, b, input, taken, b');
  }

  lemma LedgerGrows(full: seq<Mark>, b: Books, ledger: seq<Mark>, progressBase: nat, more: seq<Mark>, b': Books)
    requires LedgerFits(full, b, ledger, progressBase) && b'.cut == b.cut && b'.base == b.base && b'.asked == b.asked
    ensures LedgerFits(full + more, b', ledger + more, progressBase)
  {
  }

  lemma FlowConverted(c: Converter, b: Books, input: seq<Sample>, taken: seq<Sample>, b': Books)
    requires Lawful(c) && |input| <= 1024 && WellFed(c, b.seg) && FlowFits(c, b, input, [], taken)
    requires b' == Converted(b, input, b.seg.Covered() + |input|) && WellFed(c, b'.seg)
    requires b'.seg.hist != [] && b'.seg.Before() == b.seg
    requires Stream(c, b'.seg.hist) == Stream(c, b.seg.hist) + Output(c, b'.seg.hist)
    requires Flatten(b'.seg.hist) == Flatten(b.seg.hist) + (input + Zeros(1024 - |input|))
    requires Marked(c, b'.seg) == (if Output(c, b'.seg.hist) == [] then Marked(c, b.seg) else b'.seg.Covered())
    ensures FlowFits(c, b', [], Output(c, b'.seg.hist), taken)
  {
    hide Behind, NoLonger, Stream, Flatten, Marked;
    AppendAssoc(Flatten(b.seg.hist), input, Zeros(1024 - |input|));
    AppendAssoc(b.finished, Stream(c, b.seg.hist), Output(c, b'.seg.hist));
    assert taken + [] == taken;
    assert Flatten(b'.seg.hist) + [] == b'.fed;
    if b'.clean {
      assert input + Zeros(0) == input;
      BlocksOf(c, b'.seg);
      FlattenLength(b'.seg.hist);
      hide Blocks, WellFed;
      if Output(c, b'.seg.hist) != [] {
        assert b'.seg.Covered() == 1024 * |b'.seg.hist|;
      }
    }
  }

  lemma {:induction false} BlocksOf(c: Converter, seg: Segment)
    requires c.targetRate > 0 && WellFed(c, seg)
    ensures Blocks(seg.hist)
    decreases |seg.hist|
  {
    if seg.hist != [] {
      BlocksOf(c, seg.Before());
    }
  }

  // ------------------------------------------------------ finishing, pruning

  /** The blocks once the input buffered when finishing begins is converted. */
  function FirstBlocks(b0: Books, i0: seq<Sample>): seq<Block>
    requires |i0| <= 1024
  {
    b0.seg.hist + if i0 == [] then [] else [i0 + Zeros(1024 - |i0|)]
  }

  /** Samples were accepted since the newest mark, yet output already reaches
      what they need and the buffered input, padded, adds none to it. */
  ghost predicate Overshot(c: Converter, b0: Books, i0: seq<Sample>, total: nat)
    requires c.targetRate > 0 && |b0.seg.hist| == |b0.seg.accepted| && |i0| <= 1024
  {
    && Marked(c, b0.seg) < total
    && |Stream(c, FirstBlocks(b0, i0))| == |Stream(c, b0.seg.hist)| >= Needed(c, total)
  }

  /** After `first`, blocks were added only while output was short. */
  ghost predicate PushedOn(c: Converter, first: seq<Block>, hist: seq<Block>, total: nat)
    requires c.targetRate > 0
  {
    first <= hist && (hist == first || |Stream(c, hist[..|hist| - 1])| < Needed(c, total))
  }

  lemma PushedOnce(c: Converter, first: seq<Block>, hist: seq<Block>, block: Block, total: nat)
    requires c.targetRate > 0 && PushedOn(c, first, hist, total) && |Stream(c, hist)| < Needed(c, total)
    ensures PushedOn(c, first, hist + [block], total)
  {
    assert (hist + [block])[..|hist|] == hist;
  }

  /** Midway through finishing a segment whose books were `b0` and whose buffered
      input was `i0` when it began. */
  ghost predicate Finishing(c: Converter, b0: Books, i0: seq<Sample>, b: Books, input: seq<Sample>, total: nat)
    requires c.targetRate > 0 && |b.seg.hist| == |b.seg.accepted| && |b0.seg.hist| == |b0.seg.accepted|
  {
    var hist := b.seg.hist;
    && |i0| <= 1024 && 1024 * |b0.seg.hist| + |i0| == |b0.fed| && Marked(c, b0.seg) <= total
    && b == b0.(seg := b.seg, fed := b.fed, clean := b.clean)
    && b.seg == b0.seg.(hist := hist, accepted := b.seg.accepted)
    && b.seg.Covered() + |input| == total
    && |b.fed| >= |b0.fed| && b.fed == b0.fed + Zeros(|b.fed| - |b0.fed|)
    && EndHw(c, b.seg) >= EndHw(c, b0.seg)
    && Marked(c, b.seg) == (if EndHw(c, b.seg) > EndHw(c, b0.seg) then total else Marked(c, b0.seg))
    && (if input != [] then b == b0 && input == i0 else
          PushedOn(c, FirstBlocks(b0, i0), hist, total))
    && (b0.clean ==>
          && |b0.fed| == total
          && (Marked(c, b.seg) == total || NoLonger(|Stream(c, hist)|, c.hwRate, Marked(c, b.seg), c.targetRate)))
  }

  lemma FinishingStarts(c: Converter, b: Books, input: seq<Sample>, taken: seq<Sample>)
    requires BooksOk(c, b) && FlowFits(c, b, input, [], taken) && |input| <= 1024
    ensures Finishing(c, b, input, b, input, b.seg.Covered() + |input|)
  {
    hide Behind, NoLonger, Needed, Marked, EndHw, Stream, Flatten;
    assert b.fed == b.fed + Zeros(0);
    NewestMark(c, b.seg);
    BlocksOf(c, b.seg);
    FlattenLength(b.seg.hist);
  }

  lemma FinishingStep(c: Converter, b0: Books, i0: seq<Sample>, b: Books, input: seq<Sample>, taken: seq<Sample>, total: nat)
    requires BooksOk(c, b) && |b0.seg.hist| == |b0.seg.accepted| && |input| <= 1024 && total > 0
    requires Finishing(c, b0, i0, b, input, total) && FlowFits(c, b, input, [], taken)
    requires |input| > 0 || |Stream(c, b.seg.hist)| < Needed(c, total)
    ensures var b' := Converted(b, input, total);
            |b'.seg.hist| == |b'.seg.accepted| && Finishing(c, b0, i0, b', [], total)
  {
    hide NoLonger, Needed, Marked, Stream, Flatten, WellFed, Zeros, EndHw, FlowFits, Precedes, Safe, Behind, Blocks, PushedOn, FirstBlocks;
    var b' := Converted(b, input, total);
    var block := input + Zeros(1024 - |input|);
    ExtendedIs(c, b.seg, block, total);
    FedIsPadded(b0.fed, b.fed, 1024 - |input|);
    StepPushes(c, b0, i0, b, input, total);
    assert b'.seg.hist == b.seg.hist + [block];
  }

  lemma StepPushes(c: Converter, b0: Books, i0: seq<Sample>, b: Books, input: seq<Sample>, total: nat)
    requires c.targetRate > 0 && |b.seg.hist| == |b.seg.accepted| && |b0.seg.hist| == |b0.seg.accepted|
    requires |input| <= 1024 && |i0| <= 1024
    requires if input != [] then b == b0 && input == i0 else
               PushedOn(c, FirstBlocks(b0, i0), b.seg.hist, total) && |Stream(c, b.seg.hist)| < Needed(c, total)
    ensures PushedOn(c, FirstBlocks(b0, i0), b.seg.hist + [input + Zeros(1024 - |input|)], total)
  {
    hide Stream, Needed, Zeros;
    if input == [] {
      PushedOnce(c, FirstBlocks(b0, i0), b.seg.hist, input + Zeros(1024 - |input|), total);
    }
  }

  lemma FedIsPadded(was: seq<Sample>, fed: seq<Sample>, pad: nat)
    requires |fed| >= |was| && fed == was + Zeros(|fed| - |was|)
    ensures fed + Zeros(pad) == was + Zeros(|fed| + pad - |was|)
  {
    ZerosAppend(|fed| - |was|, pad);
    AppendAssoc(was, Zeros(|fed| - |was|), Zeros(pad));
  }

  /** Progress reaches `engine` exactly at `end`, or not even then. */
  ghost predicate NotBefore(base: nat, full: seq<Mark>, end: nat, engine: nat) {
    forall hw: nat :: hw < end ==> Lookup(base, full, hw) < engine
  }

  ghost predicate From(base: nat, full: seq<Mark>, end: nat, engine: nat) {
    forall hw: nat :: hw >= end ==> Lookup(base, full, hw) == engine
  }

  /** Finished: no count below the end of the output completes the segment, and
      its end does unless the segment had overshot when finishing began. */
  lemma FinishingEnds(c: Converter, b0: Books, i0: seq<Sample>, b: Books, taken: seq<Sample>, total: nat)
    requires BooksOk(c, b) && |b0.seg.hist| == |b0.seg.accepted| && total > 0
    requires Finishing(c, b0, i0, b, [], total) && FlowFits(c, b, [], [], taken)
    requires |Stream(c, b.seg.hist)| >= Needed(c, total)
    ensures NotBefore(b.base, Full(c, b), EndHw(c, b.seg), b.seg.startEngine + total)
    ensures From(b.base, Full(c, b), EndHw(c, b.seg), b.seg.startEngine + total) <==> !Overshot(c, b0, i0, total)
    ensures b0.clean ==>
              && !Overshot(c, b0, i0, total)
              && Finished(c, b0.fed, b.seg.hist) && taken == b0.finished + Stream(c, b.seg.hist)
  {
    var end := EndHw(c, b.seg);
    forall hw: nat
      ensures if hw < end then Lookup(b.base, Full(c, b), hw) < b.seg.startEngine + total
              else Lookup(b.base, Full(c, b), hw) == b.seg.startEngine + Marked(c, b.seg)
    {
      Completion(c, b.base, b.earlier, b.seg, hw);
    }
    assert Lookup(b.base, Full(c, b), end) == b.seg.startEngine + Marked(c, b.seg);
    MarkedInFull(c, b0, i0, b, total);
    if b0.clean {
      if Marked(c, b.seg) != total {
        OutputIsMarked(c, |Stream(c, b.seg.hist)|, Marked(c, b.seg), total);
        NewestMark(c, b.seg);
      }
      FinishedBlocks(c, b0, i0, b, taken, total);
    }
  }

  /** The books after one sample was converted, padded, by a finish that then
      failed, and one more was accepted. */
  function Resumed(x: Sample, y: Sample): Books {
    Books(Segment(0, 0, [[x] + Zeros(1023)], [1]), [], 0, 0, 0, 0, [], [x] + Zeros(1023) + [y], false)
  }

  lemma ResumedSegment(x: Sample, y: Sample)
    ensures var c, seg := Skipping(), Resumed(x, y).seg;
            && WellFed(c, seg) && LedgerOf(c, seg) == [Mark(2048, 1)] && Marked(c, seg) == 1
            && Stream(c, seg.hist) == Zeros(2048) && Flatten(seg.hist) == [x] + Zeros(1023)
  {
    var c, seg := Skipping(), Resumed(x, y).seg;
    assert seg.hist[..0] == [] && seg.accepted[..0] == [] && seg.Before() == Segment(0, 0, [], []);
    assert WellFed(c, seg.Before()) && Flatten([]) == [];
    assert Stream(c, seg.hist) == [] + Zeros(2048);
  }

  /** It does happen, in a state that keeps the whole invariant: a converter that
      returns nothing for the second sample's block, padded. */
  lemma OvershootHappens(x: Sample, y: Sample)
    ensures var c, b := Skipping(), Resumed(x, y);
            var f := Fields(b.seg.hist, [y], [], 0, 2048, 2, 0, 0, 2, [Mark(2048, 1)], 0);
            && Lawful(c) && WellFed(c, b.seg)
            && SinkOk(c, b, f, Inner(Zeros(2048), 2048, 0)) && Overshot(c, b, [y], 2)
  {
    var c, b := Skipping(), Resumed(x, y);
    SkippingIsLawful();
    ResumedSegment(x, y);
    SkippingStream(FirstBlocks(b, [y]));
    assert b.earlier + [Mark(2048, 1)] == [Mark(2048, 1)] && Zeros(2048) + [] == b.finished + Zeros(2048);
    hide Stream, Flatten, WellFed, LedgerOf, Lawful, Marked, Skipping;
  }

  lemma MarkedInFull(c: Converter, b0: Books, i0: seq<Sample>, b: Books, total: nat)
    requires c.targetRate > 0 && |b.seg.hist| == |b.seg.accepted| && |b0.seg.hist| == |b0.seg.accepted|
    requires Finishing(c, b0, i0, b, [], total) && |Stream(c, b.seg.hist)| >= Needed(c, total)
    ensures |i0| <= 1024 && (Marked(c, b.seg) == total <==> !Overshot(c, b0, i0, total))
  {
    var hist, first := b.seg.hist, FirstBlocks(b0, i0);
    assert first[..|b0.seg.hist|] == b0.seg.hist && hist[..|first|] == first;
    StreamPrefix(c, first, |b0.seg.hist|);
    StreamPrefix(c, hist, |first|);
    if hist != first {
      assert hist[..|hist| - 1][..|first|] == first;
      StreamPrefix(c, hist[..|hist| - 1], |first|);
    }
    hide Stream, Marked, Needed, NoLonger, FirstBlocks;
  }

  lemma FinishedBlocks(c: Converter, b0: Books, i0: seq<Sample>, b: Books, taken: seq<Sample>, total: nat)
    requires BooksOk(c, b) && |b0.seg.hist| == |b0.seg.accepted| && b0.clean && total > 0
    requires Finishing(c, b0, i0, b, [], total) && FlowFits(c, b, [], [], taken)
    requires |Stream(c, b.seg.hist)| >= Needed(c, total)
    ensures Finished(c, b0.fed, b.seg.hist) && taken == b0.finished + Stream(c, b.seg.hist)
  {
    hide Behind, NoLonger, Needed, Marked, Stream, Flatten, LedgerOf, EndHw, Zeros, PushedOn, FirstBlocks, Precedes, Safe, Blocks;
    BlocksOf(c, b.seg);
    FlattenLength(b.seg.hist);
    FewBlocks(c, b0, i0, b, total);
    assert taken + [] == taken && Flatten(b.seg.hist) + [] == Flatten(b.seg.hist);
  }

  lemma FewBlocks(c: Converter, b0: Books, i0: seq<Sample>, b: Books, total: nat)
    requires c.targetRate > 0 && |b.seg.hist| == |b.seg.accepted| && |b0.seg.hist| == |b0.seg.accepted| && b0.clean && total > 0
    requires Finishing(c, b0, i0, b, [], total)
    ensures var hist := b.seg.hist;
            hist != [] ==> 1024 * (|hist| - 1) < total || |Stream(c, hist[..|hist| - 1])| < Needed(c, total)
  {
    hide Behind, NoLonger, Needed, Marked, Stream, EndHw, Zeros;
    assert |FirstBlocks(b0, i0)| == |b0.seg.hist| + if i0 == [] then 0 else 1;
  }

  ghost function Closed(c: Converter, b: Books, taken: seq<Sample>): Books
    requires c.hwRate > 0 && |b.seg.hist| == |b.seg.accepted|
  {
    Books(Segment(EndHw(c, b.seg), b.seg.startEngine + b.seg.Covered(), [], []), Full(c, b), b.base, b.baseHw, b.cut, b.asked,
          taken, [], true)
  }

  /** A finished segment's marks join those of the segments before it. */
  lemma CloseKeeps(c: Converter, b: Books, taken: seq<Sample>, ledger: seq<Mark>, progressBase: nat)
    requires BooksOk(c, b) && LedgerFits(Full(c, b), b, ledger, progressBase)
    requires |Stream(c, b.seg.hist)| >= Needed(c, b.seg.Covered())
    ensures var b' := Closed(c, b, taken);
            && BooksOk(c, b') && Full(c, b') == Full(c, b)
            && LedgerFits(Full(c, b'), b', ledger, progressBase) && FlowFits(c, b', [], [], taken)
            && EndHw(c, b'.seg) == EndHw(c, b.seg)
  {
    var b' := Closed(c, b, taken);
    FullLedger(c, b);
    FinishIsSafe(c, b.seg.startHw, b.seg.startEngine, |Stream(c, b.seg.hist)|, b.seg.Covered());
    assert Full(c, b') == Full(c, b);
    EmptySegment(c, b'.seg);
    hide Behind, NoLonger, Needed, LedgerOf, Rising, Within, Stream, Flatten, EndHw;
    assert taken + [] == taken && taken[..0] + [] == [];
  }

  lemma EmptySegment(c: Converter, seg: Segment)
    requires Rates(c) && seg.hist == [] && seg.accepted == []
    ensures WellFed(c, seg) && LedgerOf(c, seg) == [] && Stream(c, seg.hist) == [] && Flatten(seg.hist) == []
    ensures Marked(c, seg) == 0 && EndHw(c, seg) == seg.startHw && NoLonger(0, c.hwRate, 0, c.targetRate)
  {
  }

  /** The full ledger rises, stays within the books, and is never ahead of the
      hardware. */
  lemma FullLedger(c: Converter, b: Books)
    requires BooksOk(c, b)
    ensures Rising(Full(c, b)) && Safe(c, Full(c, b))
    ensures Within(Full(c, b), 0, EndHw(c, b.seg), b.base, b.seg.startEngine + b.seg.Covered())
  {
    WholeLedger(c, b.base, b.earlier, b.seg);
    SegmentIsSafe(c, b.seg);
  }

  lemma FullBounds(full: seq<Mark>, b: Books, hw: nat, bound: nat)
    requires b.base <= bound && forall m :: m in full ==> m.engineEnd <= bound
    ensures Lookup(b.base, full, hw) <= bound
  {
    assert forall i :: 0 <= i < |full| ==> full[i] in full;
    LookupBound(b.base, full, hw, bound);
  }

  lemma RestartedIs(c: Converter, b: Books)
    requires Rates(c) && b.seg.hist == [] && b.seg.accepted == [] && b.earlier == [] && b.base == b.seg.startEngine
    requires Behind(c, b.base, b.baseHw) && b.baseHw == b.seg.startHw
    ensures BooksOk(c, b) && Full(c, b) == []
  {
    hide Behind, NoLonger;
  }

  ghost function Restarted(b: Books, hw: nat, engine: nat, taken: seq<Sample>): Books {
    Books(Segment(hw, engine, [], []), [], engine, hw, 0, b.asked, taken, [], true)
  }

  /** Dropping everything unplayed restarts the books from the progress made. */
  lemma RestartKeeps(c: Converter, b: Books, hw: nat, taken: seq<Sample>)
    requires BooksOk(c, b) && b.baseHw <= hw
    ensures var engine := Lookup(b.base, Full(c, b), hw);
            var b' := Restarted(b, hw, engine, taken);
            && engine <= b.seg.startEngine + b.seg.Covered()
            && BooksOk(c, b') && Full(c, b') == [] && LedgerFits([], b', [], engine) && FlowFits(c, b', [], [], taken)
            && EndHw(c, b'.seg) == hw
  {
    var full := Full(c, b);
    var engine := Lookup(b.base, full, hw);
    var b' := Restarted(b, hw, engine, taken);
    EmptySegment(c, b'.seg);
    FullLedger(c, b);
    assert b.base <= b.seg.startEngine + b.seg.Covered();
    hide Full, NoLonger, Needed, LedgerOf, Stream, Flatten, EndHw, Safe, WellFed, Lookup, Precedes;
    LookupIsSafe(c, b.base, b.baseHw, full, hw);
    FullBounds(full, b, hw, b.seg.startEngine + b.seg.Covered());
    RestartedIs(c, b');
    assert taken + [] == taken && taken[..0] + [] == [];
  }

  /** Nothing was accepted between two books: only silence was fed and blocks
      were converted. */
  ghost predicate OnlyPadded(b0: Books, b: Books) {
    && b == b0.(seg := b.seg, fed := b.fed, clean := b.clean)
    && |b.fed| >= |b0.fed| && b.fed == b0.fed + Zeros(|b.fed| - |b0.fed|)
  }

  /** With nothing pending, finishing may begin. */
  lemma FinishingOpens(c: Converter, b: Books, f: Fields, n: Inner)
    requires SinkOk(c, b, f, n) && !SameRates(c) && f.pending == []
    ensures Rates(c) && |b.seg.hist| == |b.seg.accepted| && Finishing(c, b, f.inputBuf, b, f.inputBuf, f.segmentReal)
  {
    SinkFacts(c, b, f, n);
    hide Finishing, BooksOk, FlowFits, EndHw, LedgerFits, Lawful, Stream, Flatten, Marked;
    NothingPending(c, b, f, n);
    FinishingStarts(c, b, f.inputBuf, n.taken);
  }

  lemma NothingPending(c: Converter, b: Books, f: Fields, n: Inner)
    requires SinkOk(c, b, f, n) && !SameRates(c) && f.pending == []
    ensures |b.seg.hist| == |b.seg.accepted| && FlowFits(c, b, f.inputBuf, [], n.taken)
  {
    hide BooksOk, EndHw, LedgerFits, Lawful, FlowFits;
    assert f.pending[f.pendingOffset..] == [];
  }

  /** Finishing converts one more block. */
  lemma FinishingConverts(c: Converter, b0: Books, i0: seq<Sample>, b: Books, f: Fields, n: Inner, b': Books)
    requires SinkOk(c, b, f, n) && !SameRates(c) && f.pending == [] && f.segmentReal > 0 && Rates(c)
    requires |b0.seg.hist| == |b0.seg.accepted| && |b.seg.hist| == |b.seg.accepted|
    requires Finishing(c, b0, i0, b, f.inputBuf, f.segmentReal)
    requires f.inputBuf != [] || f.generatedHw < f.segmentStartHw + Needed(c, f.segmentReal)
    requires b' == Converted(b, f.inputBuf, f.segmentReal)
    ensures |b'.seg.hist| == |b'.seg.accepted| && Finishing(c, b0, i0, b', [], f.segmentReal)
  {
    hide Finishing, BooksOk, FlowFits, Needed, Converted, LedgerFits, Lawful;
    NothingPending(c, b, f, n);
    FinishingStep(c, b0, i0, b, f.inputBuf, n.taken, f.segmentReal);
  }

  /** No more blocks than this leave a segment's output short. */
  function BlockBound(c: Converter, total: nat): nat
    requires c.targetRate > 0
  {
    (Needed(c, total) + c.lag) * c.targetRate
  }

  /** A loop that keeps converting while output is short ends. */
  lemma ShortOutput(c: Converter, b: Books, f: Fields, n: Inner)
    requires SinkOk(c, b, f, n) && Rates(c) && f.generatedHw < f.segmentStartHw + Needed(c, f.segmentReal)
    ensures |f.hist| <= BlockBound(c, f.segmentReal)
  {
    hide Needed, Lawful, Precedes, Safe, Behind, NoLonger, Stream, FlowFits, LedgerFits;
    BlocksOf(c, b.seg);
    EnoughBlocks(c, f.hist, Needed(c, f.segmentReal));
  }

  /** A finished segment is closed: the next one starts where it ended. */
  lemma FinishingCloses(c: Converter, b0: Books, i0: seq<Sample>, b: Books, f: Fields, n: Inner, b': Books, f': Fields)
    requires SinkOk(c, b, f, n) && !SameRates(c) && Rates(c) && f.pending == [] && f.inputBuf == [] && f.segmentReal > 0
    requires |b.seg.hist| == |b.seg.accepted| && |b0.seg.hist| == |b0.seg.accepted| && |i0| <= 1024
    requires Finishing(c, b0, i0, b, [], f.segmentReal) && f.generatedHw >= f.segmentStartHw + Needed(c, f.segmentReal)
    requires b' == Closed(c, b, n.taken)
    requires f' == f.(hist := [], segmentStartHw := f.generatedHw, segmentStartEngine := f.acceptedEngine, segmentReal := 0)
    ensures SinkOk(c, b', f', n) && |b'.seg.hist| == |b'.seg.accepted|
    ensures b'.base == b0.base && b'.clean && b'.fed == [] && b'.finished == n.taken
    ensures NotBefore(b'.base, Full(c, b'), f.generatedHw, f.acceptedEngine)
    ensures From(b'.base, Full(c, b'), f.generatedHw, f.acceptedEngine) <==> !Overshot(c, b0, i0, f.segmentReal)
    ensures b0.clean ==>
              && !Overshot(c, b0, i0, f.segmentReal)
              && Finished(c, b0.fed, f.hist) && n.taken == b0.finished + Stream(c, f.hist)
  {
    hide BooksOk, LedgerFits, FlowFits, Needed, From, NotBefore, Stream, Finished, Full, Marked, Lawful, Overshot, PushedOn, FirstBlocks, NoLonger, Zeros;
    NothingPending(c, b, f, n);
    assert f'.pending[f'.pendingOffset..] == [];
    CloseKeeps(c, b, n.taken, f.ledger, f.progressBase);
    FinishingEnds(c, b0, i0, b, n.taken, f.segmentReal);
  }

  // ---------------------------------------------------------------- progress

  function Monus(a: nat, b: nat): nat {
    if a < b then 0 else a - b
  }

  function Max(a: nat, b: nat): nat {
    if a < b then b else a
  }

  /** How many marks were pruned, and what was asked, affect nothing else. */
  lemma AskKeeps(c: Converter, b: Books, f: Fields, n: Inner, b': Books, f': Fields)
    requires SinkOk(c, b, f, n) && b' == b.(cut := b'.cut, asked := b'.asked) && b'.asked <= n.consumed
    requires LedgerOk(c, b', f'.ledger, f'.progressBase) && f' == f.(ledger := f'.ledger, progressBase := f'.progressBase)
    requires SameRates(c) ==> f'.ledger == f.ledger && f'.progressBase == f.progressBase
    ensures SinkOk(c, b', f', n)
  {
    hide LedgerOk, Lawful, EndHw, Stream, Flatten, NoLonger, Marked;
  }

  lemma PruneKeeps(full: seq<Mark>, b: Books, ledger: seq<Mark>, progressBase: nat)
    requires LedgerFits(full, b, ledger, progressBase) && |ledger| > 1 && ledger[0].hwEnd <= b.asked
    ensures LedgerFits(full, b.(cut := b.cut + 1), ledger[1..], ledger[0].engineEnd)
    ensures b.cut < |full| && full[b.cut] == ledger[0]
  {
    assert ledger[0] == full[b.cut] && ledger[1..] == full[b.cut + 1..];
  }

  /** The kept ledger answers as the full one would, unless the query is older
      than what was pruned; then it answers as of the last pruned mark. */
  lemma KeptLedgerAnswers(full: seq<Mark>, b: Books, ledger: seq<Mark>, progressBase: nat, hw: nat, k: nat)
    requires Rising(full) && LedgerFits(full, b, ledger, progressBase) && k <= |ledger|
    requires k > 0 ==> ledger[k - 1].hwEnd <= hw
    requires k < |ledger| ==> hw < ledger[k].hwEnd
    ensures (if k == 0 then progressBase else ledger[k - 1].engineEnd) == Lookup(b.base, full, Max(hw, Passed(full, b)))
  {
    var cut, passed := b.cut, Passed(full, b);
    assert k > 0 ==> ledger[k - 1] == full[cut + k - 1];
    assert k < |ledger| ==> ledger[k] == full[cut + k];
    if k > 0 && cut > 0 {
      RisingAt(full, cut - 1, cut + k - 1);
      assert passed <= hw;
    }
    if cut > 0 && hw < passed {
      if cut < |full| {
        RisingAt(full, cut - 1, cut);
      }
      hide Rising, Lookup;
      LookupFinds(b.base, full, passed, cut);
    } else {
      hide Rising, Lookup;
      LookupFinds(b.base, full, hw, cut + k);
    }
  }

  lemma RisingAt(ledger: seq<Mark>, i: nat, j: nat)
    requires Rising(ledger) && i < j < |ledger|
    ensures ledger[i].hwEnd < ledger[j].hwEnd
  {
  }

  lemma PassedRises(full: seq<Mark>, b: Books, b': Books, hw: nat)
    requires Rising(full) && b.cut <= b'.cut <= |full| && (b'.cut > b.cut ==> full[b'.cut - 1].hwEnd <= hw)
    ensures Max(hw, Passed(full, b')) == Max(hw, Passed(full, b))
  {
  }

  lemma PassedAsked(full: seq<Mark>, b: Books, ledger: seq<Mark>, progressBase: nat)
    requires LedgerFits(full, b, ledger, progressBase)
    ensures b.cut <= |full| && Passed(full, b) <= b.asked
  {
  }

  /** A later answer is never smaller. No answer exceeds what the mapping makes of
      the queried count itself, nor is ahead of the hardware less the delay. */
  lemma ProgressIsMonotoneAndSafe(c: Converter, b: Books, earlierHw: nat, hw: nat)
    requires BooksOk(c, b) && earlierHw <= hw
    ensures b.base <= Lookup(b.base, Full(c, b), earlierHw) <= Lookup(b.base, Full(c, b), hw)
    ensures Lookup(b.base, Full(c, b), hw) <= MapEngine(c, b.seg.startHw, b.seg.startEngine, b.seg.Covered(), hw)
    ensures b.baseHw <= hw ==> Behind(c, Lookup(b.base, Full(c, b), hw), hw)
  {
    FullLedger(c, b);
    LookupIsProportional(c, b.base, b.earlier, b.seg, hw);
    hide Behind, MapEngine, Rising, Safe, Within, Precedes, WellFed;
    LookupMono(b.base, Full(c, b), earlierHw, hw);
    if b.baseHw <= hw {
      LookupIsSafe(c, b.base, b.baseHw, Full(c, b), hw);
    }
  }

  /** Progress never goes back across a drop: no answer before it is larger than
      any after it, whatever is transmitted since. */
  lemma ProgressSurvivesDiscard(c: Converter, b: Books, b': Books, consumed: nat, earlierHw: nat, laterHw: nat)
    requires BooksOk(c, b) && BooksOk(c, b') && earlierHw <= consumed
    requires b'.base == Lookup(b.base, Full(c, b), consumed)
    ensures Lookup(b.base, Full(c, b), earlierHw) <= Lookup(b'.base, Full(c, b'), laterHw)
  {
    ProgressIsMonotoneAndSafe(c, b, earlierHw, consumed);
    ProgressIsMonotoneAndSafe(c, b', laterHw, laterHw);
  }

  /** The inner sink drops all it holds. */
  lemma InnerDrops(c: Converter, b: Books, f: Fields, n: Inner, n': Inner, dropped: nat)
    requires SinkOk(c, b, f, n) && n'.taken == n.taken && n'.consumed >= n.consumed && n'.buffered == 0
    requires n'.consumed + dropped == n.consumed + n.buffered
    ensures SinkFits(c, b, f, n', dropped)
  {
    hide LedgerOk, Lawful, FlowFits, CountsFit;
  }

  lemma InnerPlays(c: Converter, b: Books, f: Fields, n: Inner, n': Inner)
    requires SinkOk(c, b, f, n) && n'.taken == n.taken && n'.consumed >= n.consumed
    requires n'.consumed + n'.buffered == n.consumed + n.buffered
    ensures SinkOk(c, b, f, n')
  {
    hide LedgerOk, Lawful, FlowFits, CountsFit;
  }

  /** What is unplayed then is what the sink holds and what was dropped. */
  lemma UnplayedIs(c: Converter, b: Books, f: Fields, n: Inner, dropped: nat)
    requires SinkFits(c, b, f, n, dropped) && n.buffered == 0
    ensures f.pendingOffset <= |f.pending| && LedgerOk(c, b, f.ledger, f.progressBase) && b.asked <= n.consumed
    ensures Rates(c) && |b.seg.hist| == |b.seg.accepted|
    ensures Monus(f.generatedHw, |f.pending| - f.pendingOffset + dropped) == if SameRates(c) then 0 else n.consumed
    ensures SameRates(c) ==> f.ledger == [] && f.progressBase == 0 && f.acceptedEngine == 0
  {
    hide Lawful, FlowFits, CountsFit, LedgerFits;
  }

  /** Dropping everything unplayed leaves an empty sink at the progress made. */
  lemma DropRestarts(c: Converter, b: Books, f: Fields, n: Inner, dropped: nat, b1: Books, hw: nat, played: nat, b': Books)
    requires SinkFits(c, b, f, n, dropped) && n.buffered == 0 && Rates(c) && |b.seg.hist| == |b.seg.accepted|
    requires b1 == b.(cut := b1.cut, asked := b1.asked) && b1.asked <= n.consumed
    requires hw == if SameRates(c) then 0 else n.consumed
    requires played == if SameRates(c) then 0 else Lookup(b.base, Full(c, b), hw)
    requires b' == Restarted(b1, hw, played, n.taken)
    ensures SinkOk(c, b', Emptied(hw, played), n)
    ensures |b'.seg.hist| == |b'.seg.accepted| && Full(c, b') == []
    ensures b'.base == played && b'.clean && b'.fed == [] && b'.finished == n.taken
    ensures !SameRates(c) ==> played + |f.inputBuf| <= f.acceptedEngine
  {
    hide FlowFits, LedgerFits, Lookup, Full, BooksOk, Lawful, EndHw, Restarted;
    if SameRates(c) {
      IdleRestarts(c, b1, n.taken);
      RestartedBase(b1, hw, played, n.taken);
    } else {
      AskedOnly(c, b, b1);
      RestartFits(c, b1, hw, n.taken);
      RestartedBase(b1, hw, played, n.taken);
    }
  }

  lemma AskedOnly(c: Converter, b: Books, b1: Books)
    requires |b.seg.hist| == |b.seg.accepted| && b1 == b.(cut := b1.cut, asked := b1.asked) && BooksOk(c, b)
    ensures BooksOk(c, b1) && Full(c, b1) == Full(c, b)
  {
  }

  lemma RestartedBase(b: Books, hw: nat, engine: nat, taken: seq<Sample>)
    ensures var b' := Restarted(b, hw, engine, taken);
            && b'.base == engine && b'.baseHw == hw && b'.asked == b.asked
            && b'.clean && b'.fed == [] && b'.finished == taken
  {
  }

  lemma RestartFits(c: Converter, b: Books, hw: nat, taken: seq<Sample>)
    requires BooksOk(c, b) && |b.seg.hist| == |b.seg.accepted| && b.baseHw <= hw
    ensures var played := Lookup(b.base, Full(c, b), hw);
            var b' := Restarted(b, hw, played, taken);
            && played <= b.seg.startEngine + b.seg.Covered()
            && LedgerOk(c, b', [], played) && Full(c, b') == [] && FlowFits(c, b', [], [], taken)
            && CountsFit(c, b', Emptied(hw, played))
  {
    hide BooksOk, LedgerFits, FlowFits, EndHw, Lookup, Full;
    RestartKeeps(c, b, hw, taken);
  }

  lemma IdleRestarts(c: Converter, b: Books, taken: seq<Sample>)
    requires Rates(c)
    ensures var b' := Restarted(b, 0, 0, taken);
            && BooksOk(c, b') && |b'.seg.hist| == |b'.seg.accepted| && Full(c, b') == []
            && CountsFit(c, b', Emptied(0, 0)) && LedgerFits([], b', [], 0)
  {
    var b' := Restarted(b, 0, 0, taken);
    EmptySegment(c, b'.seg);
    RestartedIs(c, b');
  }

  /** Midway through forgetting the marks passed at `hw`. */
  ghost predicate Pruning(c: Converter, full: seq<Mark>, b0: Books, b: Books, ledger: seq<Mark>, progressBase: nat, hw: nat) {
    && b == b0.(cut := b.cut, asked := Max(b0.asked, hw)) && b0.cut <= b.cut <= |full|
    && BooksOk(c, b) && |b.seg.hist| == |b.seg.accepted| && Full(c, b) == full
    && LedgerFits(full, b, ledger, progressBase)
    && (b.cut > b0.cut ==> full[b.cut - 1].hwEnd <= hw)
  }

  lemma PruningStarts(c: Converter, b: Books, ledger: seq<Mark>, progressBase: nat, hw: nat)
    requires LedgerOk(c, b, ledger, progressBase)
    ensures Pruning(c, Full(c, b), b, b.(asked := Max(b.asked, hw)), ledger, progressBase, hw)
  {
    hide WellFed, Precedes, Safe, Behind, NoLonger, LedgerOf;
  }

  lemma PruningStep(c: Converter, full: seq<Mark>, b0: Books, b: Books, ledger: seq<Mark>, progressBase: nat, hw: nat)
    requires Pruning(c, full, b0, b, ledger, progressBase, hw) && |ledger| > 1 && ledger[0].hwEnd <= hw
    ensures Pruning(c, full, b0, b.(cut := b.cut + 1), ledger[1..], ledger[0].engineEnd, hw)
  {
    hide WellFed, Precedes, Safe, Behind, NoLonger, LedgerOf;
    PruneKeeps(full, b, ledger, progressBase);
  }

  lemma PruningEnds(c: Converter, full: seq<Mark>, b0: Books, b: Books, ledger: seq<Mark>, progressBase: nat, hw: nat)
    requires Pruning(c, full, b0, b, ledger, progressBase, hw)
    ensures LedgerOk(c, b, ledger, progressBase) && Full(c, b) == full
    ensures b == b0.(cut := b.cut, asked := Max(b0.asked, hw)) && b0.cut <= |full|
    ensures b.cut <= |full| && Max(hw, Passed(full, b)) == Max(hw, Passed(full, b0))
  {
    FullLedger(c, b);
    hide BooksOk, LedgerFits, Full;
    PassedRises(full, b0, b, hw);
  }
}
