/** What a block converter makes of a segment of engine samples, and the ledger
    that maps hardware samples back to completed engine samples. */
module Conversion {
  import opened Basics
  import opened Lanes

  type Block = seq<Sample>

  /** A converter is deterministic from its last reset: `out(hist)` is what it
      returns for the newest block of `hist`. */
  datatype Converter = Converter(out: seq<Block> -> seq<Sample>, delay: nat, lag: nat, hwRate: nat, targetRate: nat)

  function Output(c: Converter, hist: seq<Block>): seq<Sample> {
    c.out(hist)
  }

  /** Everything returned since the reset. */
  function Stream(c: Converter, hist: seq<Block>): seq<Sample> {
    if hist == [] then [] else Stream(c, hist[..|hist| - 1]) + Output(c, hist)
  }

  function Flatten(hist: seq<Block>): seq<Sample> {
    if hist == [] then [] else Flatten(hist[..|hist| - 1]) + hist[|hist| - 1]
  }

  ghost predicate Blocks(hist: seq<Block>) {
    forall b :: b in hist ==> |b| == 1024
  }

  /** `a` samples at rate `ra` last no longer than `b` samples at rate `rb`. */
  predicate NoLonger(a: nat, ra: nat, b: nat, rb: nat) {
    a * rb <= b * ra
  }

  /** Never more out than went in, and only boundedly less. */
  ghost predicate Lawful(c: Converter) {
    && c.hwRate > 0 && c.targetRate > 0
    && forall hist :: Blocks(hist) ==>
         && NoLonger(|Stream(c, hist)|, c.hwRate, 1024 * |hist|, c.targetRate)
         && NoLonger(1024 * |hist|, c.targetRate, |Stream(c, hist)| + c.lag, c.hwRate)
  }

  // ------------------------------------------------------------ the mapping

  /** Hardware samples after which `engine` engine samples have fully played. */
  function Needed(c: Converter, engine: nat): nat
    requires c.targetRate > 0
  {
    (engine * c.hwRate + c.targetRate - 1) / c.targetRate + c.delay
  }

  /** Hardware samples past the converter's delay. */
  function Past(c: Converter, hw: nat): nat {
    if hw < c.delay then 0 else hw - c.delay
  }

  /** Engine samples complete after `hw` hardware samples of a segment. */
  function MapReal(c: Converter, hw: nat): nat
    requires c.hwRate > 0
  {
    Past(c, hw) * c.targetRate / c.hwRate
  }

  /** `engine` engine samples last no longer than what `hw` hardware samples have
      brought past the converter's delay. */
  predicate Behind(c: Converter, engine: nat, hw: nat) {
    NoLonger(engine, c.targetRate, Past(c, hw), c.hwRate)
  }

  lemma BehindLater(c: Converter, engine: nat, hw: nat, later: nat)
    requires Behind(c, engine, hw) && hw <= later
    ensures Behind(c, engine, later)
  {
    MulLe(Past(c, hw), Past(c, later), c.targetRate);
  }

  /** Delayed twice is at most delayed once. */
  lemma BehindAdds(c: Converter, a: nat, hwA: nat, b: nat, hwB: nat)
    requires Behind(c, a, hwA) && Behind(c, b, hwB)
    ensures Behind(c, a + b, hwA + hwB)
  {
    Distribute(a, b, c.hwRate);
    Distribute(Past(c, hwA), Past(c, hwB), c.targetRate);
    MulLe(Past(c, hwA) + Past(c, hwB), Past(c, hwA + hwB), c.targetRate);
  }

  /** The two directions of the mapping fit: rounding up one way and down the
      other loses nothing. */
  lemma MapRealReaches(c: Converter, hw: nat, engine: nat)
    requires c.hwRate > 0 && c.targetRate > 0 && engine > 0
    ensures MapReal(c, hw) >= engine <==> hw >= Needed(c, engine)
  {
    var x := Past(c, hw);
    var need := (engine * c.hwRate + c.targetRate - 1) / c.targetRate;
    CeilFloor(x, engine, c.hwRate, c.targetRate);
    if hw < c.delay {
      assert x * c.targetRate / c.hwRate == 0 by { ZeroDiv(c.targetRate, c.hwRate); }
    }
  }

  /** The mapped count is the most engine samples that last no longer than the
      hardware samples past the delay. */
  lemma MapRealIsGreatest(c: Converter, hw: nat, engine: nat)
    requires c.hwRate > 0
    ensures engine <= MapReal(c, hw) <==>
            engine * c.hwRate <= (if hw < c.delay then 0 else hw - c.delay) * c.targetRate
  {
    var past := Past(c, hw) * c.targetRate;
    DivBounds(past, c.hwRate);
    if engine <= MapReal(c, hw) {
      MulLe(engine, MapReal(c, hw), c.hwRate);
    } else {
      MulLe(MapReal(c, hw) + 1, engine, c.hwRate);
    }
  }

  lemma ZeroDiv(a: nat, d: nat)
    requires d > 0
    ensures 0 * a / d == 0
  {
  }

  lemma CeilFloor(x: nat, engine: nat, h: nat, t: nat)
    requires h > 0 && t > 0
    ensures x * t / h >= engine <==> x >= (engine * h + t - 1) / t
  {
    var f, n := x * t / h, (engine * h + t - 1) / t;
    DivBounds(x * t, h);
    DivBounds(engine * h + t - 1, t);
    if f >= engine {
      MulLe(engine, f, h);
      assert n * t < (x + 1) * t by { assert (x + 1) * t == x * t + t; }
      MulLess(n, x + 1, t);
    }
    if x >= n {
      MulLe(n, x, t);
      assert (n + 1) * t == n * t + t;
      assert engine * h < (f + 1) * h;
      MulLess(engine, f + 1, h);
    }
  }

  lemma MapRealMono(c: Converter, a: nat, b: nat)
    requires c.hwRate > 0 && a <= b
    ensures MapReal(c, a) <= MapReal(c, b)
  {
    var x, y := Past(c, a), Past(c, b);
    MulLe(x, y, c.targetRate);
    DivMono(x * c.targetRate, y * c.targetRate, c.hwRate);
  }

  lemma DivMono(x: nat, y: nat, d: nat)
    requires d > 0 && x <= y
    ensures x / d <= y / d
  {
    var p, q := x / d, y / d;
    assert p * d <= x by { DivBounds(x, d); }
    assert y < (q + 1) * d by { DivBounds(y, d); }
    QuotientsRise(p, q, x, y, d);
  }

  lemma QuotientsRise(p: nat, q: nat, x: nat, y: nat, d: nat)
    requires p * d <= x <= y < (q + 1) * d
    ensures p <= q
  {
    MulLess(p, q + 1, d);
  }

  /** A mapped count is never ahead of the hardware count it stands for, less the
      delay. */
  lemma MapRealIsSafe(c: Converter, hw: nat)
    requires c.hwRate > 0
    ensures Behind(c, MapReal(c, hw), hw)
  {
    DivBounds(Past(c, hw) * c.targetRate, c.hwRate);
  }

  // ------------------------------------------------------------ the segment

  /** One transmission's conversions: the blocks converted since it began, and
      how many engine samples it had accepted at each of them. */
  datatype Segment = Segment(startHw: nat, startEngine: nat, hist: seq<Block>, accepted: seq<nat>) {
    /** Engine samples covered by the blocks so far. */
    function Covered(): nat {
      if accepted == [] then 0 else accepted[|accepted| - 1]
    }

    function Before(): Segment
      requires |hist| == |accepted| > 0
    {
      this.(hist := hist[..|hist| - 1], accepted := accepted[..|accepted| - 1])
    }

    function Extended(block: Block, total: nat): Segment {
      this.(hist := hist + [block], accepted := accepted + [total])
    }
  }

  /** The hardware count when a segment's blocks have all been converted. */
  function EndHw(c: Converter, seg: Segment): nat {
    seg.startHw + |Stream(c, seg.hist)|
  }

  /** Every block was converted because it held new samples or because the
      segment's samples were not all through. */
  ghost predicate WellFed(c: Converter, seg: Segment)
    requires c.targetRate > 0
    decreases |seg.hist|
  {
    && |seg.hist| == |seg.accepted|
    && (seg.hist != [] ==>
          var before := seg.Before();
          && WellFed(c, before)
          && |seg.hist[|seg.hist| - 1]| == 1024
          && seg.Covered() > 0 && seg.Covered() >= before.Covered()
          && (seg.Covered() > before.Covered() || |Stream(c, before.hist)| < Needed(c, seg.Covered())))
  }

  datatype Mark = Mark(hwEnd: nat, engineEnd: nat)

  /** What `hwEnd` hardware samples of a segment complete when `total` engine
      samples have been accepted. */
  function MapEngine(c: Converter, startHw: nat, startEngine: nat, total: nat, hw: nat): nat
    requires c.hwRate > 0
  {
    startEngine + Min(MapReal(c, if hw < startHw then 0 else hw - startHw), total)
  }

  /** The marks a segment's conversions record, one per non-empty output. */
  function LedgerOf(c: Converter, seg: Segment): seq<Mark>
    requires c.hwRate > 0 && |seg.hist| == |seg.accepted|
    decreases |seg.hist|
  {
    if seg.hist == [] then [] else
      LedgerOf(c, seg.Before()) +
      if Output(c, seg.hist) == [] then []
      else [Mark(EndHw(c, seg), MapEngine(c, seg.startHw, seg.startEngine, seg.Covered(), EndHw(c, seg)))]
  }

  ghost predicate Rates(c: Converter) {
    c.hwRate > 0 && c.targetRate > 0
  }

  /** Hardware ends strictly increase and engine ends never decrease. */
  ghost predicate Rising(ledger: seq<Mark>) {
    forall i, j :: 0 <= i < j < |ledger| ==> ledger[i].hwEnd < ledger[j].hwEnd && ledger[i].engineEnd <= ledger[j].engineEnd
  }

  /** Every mark lies strictly after `loHw` and no later than `hiHw`, between
      the engine counts `loEngine` and `hiEngine`. */
  ghost predicate Within(ledger: seq<Mark>, loHw: nat, hiHw: nat, loEngine: nat, hiEngine: nat) {
    forall m :: m in ledger ==> loHw < m.hwEnd <= hiHw && loEngine <= m.engineEnd <= hiEngine
  }

  /** The engine count credited when all of the segment's output has played. */
  function Top(c: Converter, seg: Segment): nat
    requires c.hwRate > 0
  {
    MapEngine(c, seg.startHw, seg.startEngine, seg.Covered(), EndHw(c, seg))
  }

  lemma TopRises(c: Converter, seg: Segment)
    requires Rates(c) && WellFed(c, seg) && seg.hist != []
    ensures seg.startEngine <= Top(c, seg.Before()) && seg.startHw <= EndHw(c, seg.Before())
    ensures EndHw(c, seg.Before()) <= EndHw(c, seg) && Top(c, seg.Before()) <= Top(c, seg)
    ensures EndHw(c, seg) == EndHw(c, seg.Before()) + |Output(c, seg.hist)|
  {
    hide MapReal, Needed;
    MapRealMono(c, |Stream(c, seg.Before().hist)|, |Stream(c, seg.hist)|);
  }

  /** A segment's marks rise, stay inside the segment, and never credit more
      than its output so far stands for, nor more than was accepted. */
  lemma {:induction false} SegmentLedger(c: Converter, seg: Segment)
    requires Rates(c) && WellFed(c, seg)
    ensures Rising(LedgerOf(c, seg))
    ensures Within(LedgerOf(c, seg), seg.startHw, EndHw(c, seg), seg.startEngine, Top(c, seg))
    ensures Top(c, seg) <= seg.startEngine + seg.Covered()
    decreases |seg.hist|
  {
    hide MapReal, Needed;
    if seg.hist != [] {
      var before := seg.Before();
      SegmentLedger(c, before);
      TopRises(c, seg);
      hide Rising, Within;
      var prior := LedgerOf(c, before);
      var mark := Mark(EndHw(c, seg), Top(c, seg));
      WithinWidens(prior, seg.startHw, EndHw(c, before), EndHw(c, seg), seg.startEngine, Top(c, before), Top(c, seg));
      if Output(c, seg.hist) != [] {
        RisingAppend(prior, mark, seg.startHw, EndHw(c, before), seg.startEngine, Top(c, before));
      }
    } else {
      hide MapEngine;
    }
  }

  lemma WithinWidens(ledger: seq<Mark>, loHw: nat, hiHw: nat, hiHw': nat, loEngine: nat, hiEngine: nat, hiEngine': nat)
    requires Within(ledger, loHw, hiHw, loEngine, hiEngine) && hiHw <= hiHw' && hiEngine <= hiEngine'
    ensures Within(ledger, loHw, hiHw', loEngine, hiEngine')
  {
  }

  lemma RisingAppend(ledger: seq<Mark>, mark: Mark, loHw: nat, hiHw: nat, loEngine: nat, hiEngine: nat)
    requires Rising(ledger) && Within(ledger, loHw, hiHw, loEngine, hiEngine)
    requires loHw <= hiHw < mark.hwEnd && loEngine <= hiEngine <= mark.engineEnd
    ensures Rising(ledger + [mark])
    ensures Within(ledger + [mark], loHw, mark.hwEnd, loEngine, mark.engineEnd)
  {
    assert forall i :: 0 <= i < |ledger| ==> ledger[i] in ledger;
  }

  /** The engine samples accepted when the newest mark was recorded. */
  function Marked(c: Converter, seg: Segment): nat
    requires |seg.hist| == |seg.accepted|
    decreases |seg.hist|
  {
    if seg.hist == [] then 0
    else if Output(c, seg.hist) == [] then Marked(c, seg.Before())
    else seg.Covered()
  }

  /** The newest mark stands at the end of the segment's output. */
  lemma {:induction false} NewestMark(c: Converter, seg: Segment)
    requires Rates(c) && WellFed(c, seg)
    ensures Marked(c, seg) <= seg.Covered()
    ensures var ledger := LedgerOf(c, seg);
            if Stream(c, seg.hist) == [] then ledger == [] else
              && ledger != []
              && ledger[|ledger| - 1] == Mark(EndHw(c, seg), MapEngine(c, seg.startHw, seg.startEngine, Marked(c, seg), EndHw(c, seg)))
    decreases |seg.hist|
  {
    hide MapEngine, Needed;
    if seg.hist != [] {
      NewestMark(c, seg.Before());
    }
  }

  /** Short of the end of its output, a segment is never credited in full. */
  lemma {:induction false} ShortOfTheEnd(c: Converter, seg: Segment)
    requires Rates(c) && WellFed(c, seg)
    ensures forall m :: m in LedgerOf(c, seg) && m.hwEnd < EndHw(c, seg) ==> m.engineEnd < seg.startEngine + seg.Covered()
    decreases |seg.hist|
  {
    hide MapReal, Needed;
    if seg.hist != [] {
      var before := seg.Before();
      ShortOfTheEnd(c, before);
      TopRises(c, seg);
      if Output(c, seg.hist) != [] {
        SegmentLedger(c, before);
        MapRealReaches(c, |Stream(c, before.hist)|, seg.Covered());
        assert Top(c, before) < seg.startEngine + seg.Covered();
      }
    }
  }

  /** No mark is ahead of the hardware count it stands at, less the delay, if the
      segment's start was not. */
  lemma MarksAreSafe(c: Converter, startHw: nat, startEngine: nat, total: nat, hw: nat)
    requires Rates(c) && Behind(c, startEngine, startHw) && startHw <= hw
    ensures Behind(c, MapEngine(c, startHw, startEngine, total, hw), hw)
  {
    var x := MapReal(c, hw - startHw);
    MapRealIsSafe(c, hw - startHw);
    MulLe(Min(x, total), x, c.hwRate);
    BehindAdds(c, startEngine, startHw, Min(x, total), hw - startHw);
  }

  // -------------------------------------------------------------- the ledger

  /** The engine count of the last mark reached at `hw`, or `base`. */
  function Lookup(base: nat, ledger: seq<Mark>, hw: nat): nat {
    if ledger == [] then base
    else if ledger[|ledger| - 1].hwEnd <= hw then ledger[|ledger| - 1].engineEnd
    else Lookup(base, ledger[..|ledger| - 1], hw)
  }

  /** Progress never goes back as the hardware count advances. */
  lemma {:induction false} LookupMono(base: nat, ledger: seq<Mark>, a: nat, b: nat)
    requires Rising(ledger) && a <= b && forall m :: m in ledger ==> base <= m.engineEnd
    ensures base <= Lookup(base, ledger, a) <= Lookup(base, ledger, b)
  {
    if ledger != [] {
      var front, last := ledger[..|ledger| - 1], ledger[|ledger| - 1];
      assert last in ledger && forall m :: m in front ==> m in ledger;
      LookupMono(base, front, a, b);
      LookupBound(base, front, b, last.engineEnd);
    }
  }

  lemma {:induction false} LookupBound(base: nat, ledger: seq<Mark>, hw: nat, bound: nat)
    requires base <= bound && forall i :: 0 <= i < |ledger| && ledger[i].hwEnd <= hw ==> ledger[i].engineEnd <= bound
    ensures Lookup(base, ledger, hw) <= bound
  {
    if ledger != [] {
      LookupBound(base, ledger[..|ledger| - 1], hw, bound);
    }
  }

  /** A rising ledger answers with mark `k` from its hardware end until the next. */
  lemma {:induction false} LookupFinds(base: nat, ledger: seq<Mark>, hw: nat, k: nat)
    requires Rising(ledger) && k <= |ledger|
    requires k > 0 ==> ledger[k - 1].hwEnd <= hw
    requires k < |ledger| ==> hw < ledger[k].hwEnd
    ensures Lookup(base, ledger, hw) == if k == 0 then base else ledger[k - 1].engineEnd
  {
    if k < |ledger| {
      LookupFinds(base, ledger[..|ledger| - 1], hw, k);
    }
  }

  /** Dropping a front that has been passed does not change later answers. */
  lemma {:induction false} LookupPruned(base: nat, ledger: seq<Mark>, cut: nat, hw: nat)
    requires Rising(ledger) && cut <= |ledger| && (cut > 0 ==> ledger[cut - 1].hwEnd <= hw)
    ensures Lookup(base, ledger, hw) == Lookup(if cut == 0 then base else ledger[cut - 1].engineEnd, ledger[cut..], hw)
  {
    if cut < |ledger| {
      var n := |ledger| - 1;
      LookupPruned(base, ledger[..n], cut, hw);
      assert ledger[cut..][..n - cut] == ledger[..n][cut..];
    } else {
      LookupFinds(base, ledger, hw, cut);
    }
  }

  // ------------------------------------------------------------- completion

  /** Marks of earlier segments precede and never exceed the running one's. */
  ghost predicate Precedes(base: nat, earlier: seq<Mark>, seg: Segment) {
    && base <= seg.startEngine
    && Rising(earlier) && Within(earlier, 0, seg.startHw, base, seg.startEngine)
  }

  lemma WholeLedger(c: Converter, base: nat, earlier: seq<Mark>, seg: Segment)
    requires Rates(c) && WellFed(c, seg) && Precedes(base, earlier, seg)
    ensures Rising(earlier + LedgerOf(c, seg))
    ensures Within(earlier + LedgerOf(c, seg), 0, EndHw(c, seg), base, seg.startEngine + seg.Covered())
  {
    hide LedgerOf, EndHw, Top;
    SegmentLedger(c, seg);
    var own := LedgerOf(c, seg);
    assert forall i :: 0 <= i < |earlier| ==> earlier[i] in earlier;
    assert forall i :: 0 <= i < |own| ==> own[i] in own;
    assert EndHw(c, seg) >= seg.startHw by { Stretch(c, seg); }
  }

  lemma Stretch(c: Converter, seg: Segment)
    ensures EndHw(c, seg) == seg.startHw + |Stream(c, seg.hist)| >= seg.startHw
  {
  }

  /** Once a segment's output reaches what its samples need: nothing short of
      the whole output completes it, and the whole output credits exactly the
      samples accepted by the newest non-empty conversion. */
  lemma Completion(c: Converter, base: nat, earlier: seq<Mark>, seg: Segment, hw: nat)
    requires Rates(c) && WellFed(c, seg) && Precedes(base, earlier, seg)
    requires seg.Covered() > 0 && |Stream(c, seg.hist)| >= Needed(c, seg.Covered())
    ensures var engine := Lookup(base, earlier + LedgerOf(c, seg), hw);
            if hw < EndHw(c, seg) then engine < seg.startEngine + seg.Covered()
            else engine == seg.startEngine + Marked(c, seg)
  {
    var own := LedgerOf(c, seg);
    var full := earlier + own;
    if hw < EndHw(c, seg) {
      ShortOfTheEnd(c, seg);
      hide Needed, LedgerOf, EndHw;
      assert forall i :: 0 <= i < |earlier| ==> earlier[i] in earlier;
      assert forall i :: 0 <= i < |own| ==> own[i] in own;
      LookupBound(base, full, hw, seg.startEngine + seg.Covered() - 1);
    } else {
      WholeLedger(c, base, earlier, seg);
      NewestMark(c, seg);
      MapRealReaches(c, |Stream(c, seg.hist)|, seg.Covered());
      SomeIsNeeded(c, seg.Covered());
      LookupFinds(base, full, hw, |full|);
    }
  }

  /** At the end of every block that returned something, the answer is the mapped
      count of the hardware samples so far, capped by the engine samples accepted. */
  lemma {:induction false} AnswersAtBlocks(c: Converter, base: nat, earlier: seq<Mark>, seg: Segment, k: nat)
    requires Rates(c) && WellFed(c, seg) && Precedes(base, earlier, seg)
    requires 0 < k <= |seg.hist| && |seg.hist| == |seg.accepted| && Output(c, seg.hist[..k]) != []
    ensures var hw := |Stream(c, seg.hist[..k])|;
            Lookup(base, earlier + LedgerOf(c, seg), seg.startHw + hw) == seg.startEngine + Min(MapReal(c, hw), seg.accepted[k - 1])
    decreases |seg.hist|
  {
    var full := earlier + LedgerOf(c, seg);
    var hw := |Stream(c, seg.hist[..k])|;
    WholeLedger(c, base, earlier, seg);
    if k == |seg.hist| {
      assert seg.hist[..k] == seg.hist;
      NewestMark(c, seg);
      hide MapReal, Needed, WellFed, Rising, Within;
      assert full[|full| - 1].hwEnd == EndHw(c, seg);
    } else {
      var before := seg.Before();
      assert before.hist[..k] == seg.hist[..k];
      AnswersAtBlocks(c, base, earlier, before, k);
      StreamPrefix(c, before.hist, k);
      LedgerExtends(c, earlier, seg);
      hide MapReal, Needed, WellFed, Rising, Within, Stream, LedgerOf;
      if Output(c, seg.hist) != [] {
        assert full[..|full| - 1] == earlier + LedgerOf(c, before);
      }
    }
  }

  /** One more block appends at most one mark, past all output before it. */
  lemma LedgerExtends(c: Converter, earlier: seq<Mark>, seg: Segment)
    requires Rates(c) && |seg.hist| == |seg.accepted| > 0
    ensures var full := earlier + LedgerOf(c, seg);
            if Output(c, seg.hist) == [] then full == earlier + LedgerOf(c, seg.Before())
            else
              && full != [] && full[..|full| - 1] == earlier + LedgerOf(c, seg.Before())
              && full[|full| - 1].hwEnd > seg.startHw + |Stream(c, seg.Before().hist)|
  {
    hide MapEngine;
    var own := LedgerOf(c, seg.Before());
    assert earlier + (own + []) == earlier + own;
  }

  lemma SomeIsNeeded(c: Converter, engine: nat)
    requires Rates(c) && engine > 0
    ensures Needed(c, engine) > 0
  {
    MapRealReaches(c, 0, engine);
    ZeroDiv(c.targetRate, c.hwRate);
  }

  /** Output that lasts no longer than the samples marked cannot reach what
      more samples need. */
  lemma OutputIsMarked(c: Converter, out: nat, marked: nat, engine: nat)
    requires Rates(c) && NoLonger(out, c.hwRate, marked, c.targetRate) && out >= Needed(c, engine)
    ensures engine <= marked
  {
    var need := (engine * c.hwRate + c.targetRate - 1) / c.targetRate;
    DivBounds(engine * c.hwRate + c.targetRate - 1, c.targetRate);
    assert (need + 1) * c.targetRate == need * c.targetRate + c.targetRate;
    MulLe(need, out, c.targetRate);
    assert engine * c.hwRate < (marked + 1) * c.hwRate by { Distribute(marked, 1, c.hwRate); }
    MulLess(engine, marked + 1, c.hwRate);
  }

  /** No mark is ahead of the hardware count it stands at, less the delay. */
  ghost predicate Safe(c: Converter, ledger: seq<Mark>) {
    forall m :: m in ledger ==> Behind(c, m.engineEnd, m.hwEnd)
  }

  lemma {:induction false} SegmentIsSafe(c: Converter, seg: Segment)
    requires Rates(c) && WellFed(c, seg) && Behind(c, seg.startEngine, seg.startHw)
    ensures Safe(c, LedgerOf(c, seg))
    decreases |seg.hist|
  {
    hide Behind, MapEngine, Needed;
    if seg.hist != [] {
      SegmentIsSafe(c, seg.Before());
      MarksAreSafe(c, seg.startHw, seg.startEngine, seg.Covered(), EndHw(c, seg));
    }
  }

  /** Neither is any progress ever answered. */
  lemma {:induction false} LookupIsSafe(c: Converter, base: nat, baseHw: nat, ledger: seq<Mark>, hw: nat)
    requires Behind(c, base, baseHw) && Safe(c, ledger) && baseHw <= hw
    ensures Behind(c, Lookup(base, ledger, hw), hw)
  {
    hide Behind;
    if ledger == [] {
      BehindLater(c, base, baseHw, hw);
    } else {
      var last := ledger[|ledger| - 1];
      if last.hwEnd <= hw {
        assert last in ledger;
        BehindLater(c, last.engineEnd, last.hwEnd, hw);
      } else {
        LookupIsSafe(c, base, baseHw, ledger[..|ledger| - 1], hw);
      }
    }
  }

  lemma MapEngineMono(c: Converter, startHw: nat, startEngine: nat, total: nat, hw: nat, total': nat, hw': nat)
    requires c.hwRate > 0 && total <= total' && hw <= hw'
    ensures startEngine <= MapEngine(c, startHw, startEngine, total, hw) <= MapEngine(c, startHw, startEngine, total', hw')
  {
    MapRealMono(c, if hw < startHw then 0 else hw - startHw, if hw' < startHw then 0 else hw' - startHw);
    hide MapReal;
  }

  lemma {:induction false} SegmentCredits(c: Converter, seg: Segment, total: nat)
    requires Rates(c) && WellFed(c, seg) && total >= seg.Covered()
    ensures forall m :: m in LedgerOf(c, seg) ==> m.engineEnd <= MapEngine(c, seg.startHw, seg.startEngine, total, m.hwEnd)
    decreases |seg.hist|
  {
    hide MapEngine, Needed;
    if seg.hist != [] {
      SegmentCredits(c, seg.Before(), total);
      MapEngineMono(c, seg.startHw, seg.startEngine, seg.Covered(), EndHw(c, seg), total, EndHw(c, seg));
    }
  }

  /** No answer exceeds what the mapping makes of the queried count itself. */
  lemma LookupIsProportional(c: Converter, base: nat, earlier: seq<Mark>, seg: Segment, hw: nat)
    requires Rates(c) && WellFed(c, seg) && Precedes(base, earlier, seg)
    ensures Lookup(base, earlier + LedgerOf(c, seg), hw) <=
            MapEngine(c, seg.startHw, seg.startEngine, seg.Covered(), hw)
  {
    var own := LedgerOf(c, seg);
    var full, total := earlier + own, seg.Covered();
    SegmentCredits(c, seg, total);
    MapEngineMono(c, seg.startHw, seg.startEngine, total, 0, total, hw);
    hide MapEngine, LedgerOf, WellFed;
    forall i | 0 <= i < |full| && full[i].hwEnd <= hw
      ensures full[i].engineEnd <= MapEngine(c, seg.startHw, seg.startEngine, total, hw)
    {
      if i < |earlier| {
        assert earlier[i] in earlier;
      } else {
        assert own[i - |earlier|] in own;
        MapEngineMono(c, seg.startHw, seg.startEngine, total, full[i].hwEnd, total, hw);
      }
    }
    LookupBound(base, full, hw, MapEngine(c, seg.startHw, seg.startEngine, total, hw));
  }

  /** A finished segment leaves the next one safely behind the hardware. */
  lemma FinishIsSafe(c: Converter, startHw: nat, startEngine: nat, out: nat, engine: nat)
    requires Rates(c) && Behind(c, startEngine, startHw) && out >= Needed(c, engine)
    ensures Behind(c, startEngine + engine, startHw + out)
  {
    var need := (engine * c.hwRate + c.targetRate - 1) / c.targetRate;
    DivBounds(engine * c.hwRate + c.targetRate - 1, c.targetRate);
    assert (need + 1) * c.targetRate == need * c.targetRate + c.targetRate;
    MulLe(need, Past(c, out), c.targetRate);
    BehindAdds(c, startEngine, startHw, engine, out);
  }

  /** Converting more blocks in the end produces any number of samples. */
  lemma EnoughBlocks(c: Converter, hist: seq<Block>, need: nat)
    requires Lawful(c) && Blocks(hist) && |Stream(c, hist)| < need
    ensures |hist| <= (need + c.lag) * c.targetRate
  {
    assert NoLonger(1024 * |hist|, c.targetRate, |Stream(c, hist)| + c.lag, c.hwRate);
    BlocksWithin(|hist|, |Stream(c, hist)| + c.lag, need + c.lag, c.hwRate, c.targetRate);
  }

  lemma BlocksWithin(blocks: nat, out: nat, bound: nat, hwRate: nat, targetRate: nat)
    requires hwRate > 0 && out <= bound && 1024 * blocks * hwRate <= out * targetRate
    ensures blocks <= bound * targetRate
  {
    MulLe(out, bound, targetRate);
    MulLe(1, hwRate, 1024 * blocks);
    assert hwRate * (1024 * blocks) == 1024 * blocks * hwRate;
  }

  // ---------------------------------------------------------- the transcript

  lemma {:induction false} FlattenLength(hist: seq<Block>)
    requires Blocks(hist)
    ensures |Flatten(hist)| == 1024 * |hist|
  {
    if hist != [] {
      assert hist[|hist| - 1] in hist;
      FlattenLength(hist[..|hist| - 1]);
    }
  }

  lemma {:induction false} FlattenPrefix(hist: seq<Block>, k: nat)
    requires Blocks(hist) && k <= |hist|
    ensures 1024 * k <= |Flatten(hist)| && Flatten(hist[..k]) == Flatten(hist)[..1024 * k]
  {
    FlattenLength(hist);
    if k < |hist| {
      var front := hist[..|hist| - 1];
      FlattenLength(front);
      FlattenPrefix(front, k);
      assert front[..k] == hist[..k];
    } else {
      assert hist[..k] == hist;
    }
  }

  /** Equal transcripts were cut into equal blocks. */
  lemma {:induction false} FlattenInjective(a: seq<Block>, b: seq<Block>)
    requires Blocks(a) && Blocks(b) && Flatten(a) == Flatten(b)
    ensures a == b
  {
    FlattenLength(a);
    FlattenLength(b);
    if a != [] {
      var n := |a| - 1;
      FlattenPrefix(a, n);
      FlattenPrefix(b, n);
      assert a[n] in a && b[n] in b;
      FlattenInjective(a[..n], b[..n]);
      assert Flatten(a)[1024 * n..] == a[n] && Flatten(b)[1024 * n..] == b[n];
    }
  }

  lemma {:induction false} StreamPrefix(c: Converter, hist: seq<Block>, k: nat)
    requires k <= |hist|
    ensures Stream(c, hist[..k]) <= Stream(c, hist)
  {
    if k < |hist| {
      var front := hist[..|hist| - 1];
      StreamPrefix(c, front, k);
      assert front[..k] == hist[..k];
    } else {
      assert hist[..k] == hist;
    }
  }

  /** The blocks a finished segment is converted in: its input padded with
      silence, and just enough of them. */
  ghost predicate Finished(c: Converter, input: seq<Sample>, blocks: seq<Block>)
    requires c.targetRate > 0
  {
    && Blocks(blocks) && |input| <= 1024 * |blocks|
    && Flatten(blocks) == input + Zeros(1024 * |blocks| - |input|)
    && |Stream(c, blocks)| >= Needed(c, |input|)
    && (blocks != [] ==>
          1024 * (|blocks| - 1) < |input| || |Stream(c, blocks[..|blocks| - 1])| < Needed(c, |input|))
  }

  /** Hence a finished segment's output is a function of its input alone. */
  lemma OutputIsDetermined(c: Converter, input: seq<Sample>, a: seq<Block>, b: seq<Block>)
    requires c.targetRate > 0 && Finished(c, input, a) && Finished(c, input, b)
    ensures a == b
  {
    if |a| < |b| {
      FewerIsFinished(c, input, a, b);
    } else if |b| < |a| {
      FewerIsFinished(c, input, b, a);
    } else {
      FlattenInjective(a, b);
    }
  }

  lemma FewerIsFinished(c: Converter, input: seq<Sample>, a: seq<Block>, b: seq<Block>)
    requires c.targetRate > 0 && Finished(c, input, a) && Finished(c, input, b)
    ensures |a| >= |b|
  {
    hide Stream, Needed, Flatten;
    if |a| < |b| {
      var n := |b| - 1;
      FlattenPrefix(b, |a|);
      ZerosPrefix(1024 * |b| - |input|, 1024 * |a| - |input|);
      assert Flatten(b)[..1024 * |a|] == input + Zeros(1024 * |b| - |input|)[..1024 * |a| - |input|];
      FlattenInjective(a, b[..|a|]);
      assert b[..n][..|a|] == b[..|a|];
      StreamPrefix(c, b[..n], |a|);
      assert false;
    }
  }

  lemma ZerosPrefix(n: nat, k: nat)
    requires k <= n
    ensures Zeros(n)[..k] == Zeros(k)
  {
  }

  // -------------------------------------------------------------- converters

  /** Samples that `blocks` blocks may come to, rounded down. */
  function Allowed(blocks: nat, hwRate: nat, targetRate: nat): nat
    requires targetRate > 0
  {
    1024 * blocks * hwRate / targetRate
  }

  lemma AllowedMono(blocks: nat, hwRate: nat, targetRate: nat)
    requires targetRate > 0 && blocks > 0
    ensures Allowed(blocks - 1, hwRate, targetRate) <= Allowed(blocks, hwRate, targetRate)
  {
    MulLe(1024 * (blocks - 1), 1024 * blocks, hwRate);
    DivMono(1024 * (blocks - 1) * hwRate, 1024 * blocks * hwRate, targetRate);
  }

  function Fresh(blocks: nat, hwRate: nat, targetRate: nat): nat
    requires targetRate > 0
  {
    if blocks == 0 then 0 else
      AllowedMono(blocks, hwRate, targetRate);
      Allowed(blocks, hwRate, targetRate) - Allowed(blocks - 1, hwRate, targetRate)
  }

  /** A converter that returns silence, as much as the rates allow so far. */
  function Counting(hwRate: nat, targetRate: nat, delay: nat): Converter
    requires hwRate > 0 && targetRate > 0
  {
    Converter((hist: seq<Block>) => Zeros(Fresh(|hist|, hwRate, targetRate)), delay, 1, hwRate, targetRate)
  }

  /** The laws can be met, at any rates. */
  lemma CountingIsLawful(hwRate: nat, targetRate: nat, delay: nat)
    requires hwRate > 0 && targetRate > 0
    ensures Lawful(Counting(hwRate, targetRate, delay))
  {
    var c := Counting(hwRate, targetRate, delay);
    forall hist | Blocks(hist)
      ensures NoLonger(|Stream(c, hist)|, hwRate, 1024 * |hist|, targetRate)
      ensures NoLonger(1024 * |hist|, targetRate, |Stream(c, hist)| + 1, hwRate)
    {
      hide Allowed;
      CountingStream(hwRate, targetRate, delay, hist);
      AllowedFits(|hist|, hwRate, targetRate);
    }
  }

  lemma AllowedFits(blocks: nat, hwRate: nat, targetRate: nat)
    requires targetRate > 0
    ensures var n := Allowed(blocks, hwRate, targetRate);
            NoLonger(n, hwRate, 1024 * blocks, targetRate) && NoLonger(1024 * blocks, targetRate, n + 1, hwRate)
  {
    DivBounds(1024 * blocks * hwRate, targetRate);
  }

  lemma {:induction false} CountingStream(hwRate: nat, targetRate: nat, delay: nat, hist: seq<Block>)
    requires hwRate > 0 && targetRate > 0
    ensures |Stream(Counting(hwRate, targetRate, delay), hist)| == Allowed(|hist|, hwRate, targetRate)
  {
    if hist == [] {
      assert Allowed(0, hwRate, targetRate) == 0 by { ZeroDiv(hwRate, targetRate); }
    } else {
      CountingStream(hwRate, targetRate, delay, hist[..|hist| - 1]);
    }
  }

  /** A converter at twice the engine rate whose even blocks return nothing;
      the block after each makes up for it. */
  function Skipping(): Converter {
    Converter((hist: seq<Block>) =>
        if |hist| % 2 == 0 then [] else Zeros(if |hist| == 1 then 2048 else 4096),
      0, 2048, 2, 1)
  }

  lemma {:induction false} SkippingStream(hist: seq<Block>)
    ensures |Stream(Skipping(), hist)| == if |hist| % 2 == 0 then 2048 * |hist| - (if hist == [] then 0 else 2048) else 2048 * |hist|
  {
    if hist != [] {
      SkippingStream(hist[..|hist| - 1]);
    }
  }

  lemma SkippingIsLawful()
    ensures Lawful(Skipping())
  {
    var c := Skipping();
    forall hist | Blocks(hist)
      ensures NoLonger(|Stream(c, hist)|, 2, 1024 * |hist|, 1)
      ensures NoLonger(1024 * |hist|, 1, |Stream(c, hist)| + 2048, 2)
    {
      SkippingStream(hist);
    }
  }

  /** A segment of which one sample was converted, padded, by a finish that
      then failed, and one more, padded, by the next: the second block returned
      nothing, so its sample is never credited. */
  lemma PaddingCanHideSamples(x: Sample, y: Sample, hw: nat)
    ensures var c := Skipping();
            var seg := Segment(0, 0, [[x] + Zeros(1023), [y] + Zeros(1023)], [1, 2]);
            && Lawful(c) && WellFed(c, seg) && |Stream(c, seg.hist)| >= Needed(c, seg.Covered())
            && Lookup(0, LedgerOf(c, seg), hw) <= 1 < seg.Covered()
  {
    SkippingIsLawful();
    PaddedTwice(x, y);
    SomeLookup(hw);
  }

  lemma SomeLookup(hw: nat)
    ensures Lookup(0, [Mark(2048, 1)], hw) <= 1
  {
    assert [Mark(2048, 1)][..0] == [];
  }

  lemma PaddedTwice(x: Sample, y: Sample)
    ensures var c := Skipping();
            var seg := Segment(0, 0, [[x] + Zeros(1023), [y] + Zeros(1023)], [1, 2]);
            && WellFed(c, seg) && |Stream(c, seg.hist)| == 2048 && Needed(c, 2) == 4
            && LedgerOf(c, seg) == [Mark(2048, 1)]
  {
    var c := Skipping();
    var one, two := [[x] + Zeros(1023)], [[x] + Zeros(1023), [y] + Zeros(1023)];
    var first := Segment(0, 0, one, [1]);
    var seg := Segment(0, 0, two, [1, 2]);
    SkippingStream(one);
    SkippingStream(two);
    assert two[..1] == one && seg.accepted[..1] == [1] && seg.Before() == first;
    assert one[..0] == [] && first.accepted[..0] == [] && first.Before() == Segment(0, 0, [], []);
    assert WellFed(c, Segment(0, 0, [], []));
    assert WellFed(c, first);
    assert LedgerOf(c, first) == [Mark(2048, 1)];
    assert LedgerOf(c, seg) == [Mark(2048, 1)];
  }
}
