/** The per-frame oracle for the goodput metric, solved by Dinkelbach's
    iteration: at a price of air, every frame takes the candidate worth most, and
    the ratio so achieved is the next price. */
module Oracle {
  import opened Wrappers
  import opened Goodput

  const MAX_ITERS: nat := 64

  /** `idx` is the lowest index of the highest score, or 0 for no candidates. */
  ghost predicate IsArgmax(frame: Frame, price: real, idx: nat) {
    if frame == [] then idx == 0
    else
      && idx < |frame|
      && (forall j :: 0 <= j < |frame| ==> frame[j].Score(price) <= frame[idx].Score(price))
      && (forall j :: 0 <= j < idx ==> frame[j].Score(price) < frame[idx].Score(price))
  }

  lemma ArgmaxGrows(frame: Frame, price: real, n: nat, best: nat)
    requires 1 < n <= |frame| && IsArgmax(frame[..n - 1], price, best)
    ensures best < n - 1
    ensures IsArgmax(frame[..n], price, if frame[n - 1].Score(price) > frame[best].Score(price) then n - 1 else best)
  {
    hide FrameSlot.Score;
    assert forall k :: 0 <= k < n - 1 ==> frame[..n - 1][k] == frame[k] == frame[..n][k];
    assert frame[..n][n - 1] == frame[n - 1];
  }

  /** Argmax over the first `n` candidates. */
  function ArgmaxOf(frame: Frame, price: real, n: nat): (idx: nat)
    requires n <= |frame|
    ensures IsArgmax(frame[..n], price, idx)
  {
    if n <= 1 then 0
    else
      var best := ArgmaxOf(frame, price, n - 1);
      ArgmaxGrows(frame, price, n, best);
      if frame[n - 1].Score(price) > frame[best].Score(price) then n - 1 else best
  }

  function Argmax(frame: Frame, price: real): (idx: nat)
    ensures IsArgmax(frame, price, idx)
  {
    assert frame[..|frame|] == frame;
    ArgmaxOf(frame, price, |frame|)
  }

  /** The choice of one round: per frame, the candidate worth most at `price`. */
  function Round(frames: seq<Frame>, price: real): (picks: seq<nat>)
    ensures IsChoice(frames, picks)
    ensures forall f :: 0 <= f < |frames| ==> IsArgmax(frames[f], price, picks[f])
  {
    seq(|frames|, f requires 0 <= f < |frames| => Argmax(frames[f], price))
  }

  /** The iteration from a given shadow price, cut off after `rounds` rounds. */
  function Iterate(frames: seq<Frame>, price: real, choices: seq<nat>, rounds: nat): (real, seq<nat>)
    decreases rounds
  {
    if rounds == 0 then (price, choices)
    else
      var picks := Round(frames, price);
      var slots := Picked(frames, picks);
      if TotalAirtime(slots) <= 0.0 then (0.0, picks)
      else if GoodputBps(slots) <= price then (price, choices)
      else Iterate(frames, GoodputBps(slots), picks, rounds - 1)
  }

  function FirstOfEach(frames: seq<Frame>): seq<nat> {
    seq(|frames|, _ => 0)
  }

  /** What the oracle returns when cut off after `rounds` rounds. */
  function OracleAfter(frames: seq<Frame>, rounds: nat): (real, seq<nat>) {
    Iterate(frames, 0.0, FirstOfEach(frames), rounds)
  }

  /** No choice function whatever beats `price`. */
  ghost predicate UpperBound(frames: seq<Frame>, price: real) {
    forall c :: IsChoice(frames, c) ==> GoodputBps(Picked(frames, c)) <= price
  }

  /** `choices` attains `goodput`, and no choice function beats it. */
  ghost predicate Optimal(frames: seq<Frame>, goodput: real, choices: seq<nat>) {
    && IsChoice(frames, choices)
    && goodput == GoodputBps(Picked(frames, choices))
    && UpperBound(frames, goodput)
  }

  /** Total worth of a choice at price `price`. */
  ghost function Worth(slots: seq<FrameSlot>, price: real): real {
    DeliveredBits(slots) as real - price * TotalAirtime(slots)
  }

  lemma WorthAppend(a: seq<FrameSlot>, b: seq<FrameSlot>, price: real)
    ensures Worth(a + b, price) == Worth(a, price) + Worth(b, price)
  {
    TotalsAppend(a, b);
    hide DeliveredBits, TotalAirtime;
    PriceDistributes(price, TotalAirtime(a), TotalAirtime(b));
  }

  lemma PriceDistributes(price: real, x: real, y: real)
    ensures price * (x + y) == price * x + price * y
  {
  }

  lemma WorthPicked(frame: Frame, idx: nat, price: real)
    ensures idx < |frame| ==> Worth(PickedOn(frame, idx), price) == frame[idx].Score(price)
    ensures idx >= |frame| ==> Worth(PickedOn(frame, idx), price) == 0.0
  {
    if idx < |frame| {
      TotalsOfOne(frame[idx]);
    }
  }

  // ------------------------------------------------------------- optimality

  /** The per-frame argmax is the best of all choice functions at its price. */
  lemma {:induction false} RoundIsBest(frames: seq<Frame>, price: real, picks: seq<nat>, c: seq<nat>)
    requires |picks| == |frames| && IsChoice(frames, c)
    requires forall f :: 0 <= f < |frames| ==> IsArgmax(frames[f], price, picks[f])
    ensures Worth(Picked(frames, c), price) <= Worth(Picked(frames, picks), price)
  {
    if frames != [] {
      var n := |frames| - 1;
      RoundIsBest(frames[..n], price, picks[..n], c[..n]);
      WorthAppend(Picked(frames[..n], c[..n]), PickedOn(frames[n], c[n]), price);
      WorthAppend(Picked(frames[..n], picks[..n]), PickedOn(frames[n], picks[n]), price);
      WorthPicked(frames[n], c[n], price);
      WorthPicked(frames[n], picks[n], price);
    }
  }

  lemma RoundChoosesBest(frames: seq<Frame>, price: real, c: seq<nat>)
    requires IsChoice(frames, c)
    ensures var best := Picked(frames, Round(frames, price));
            var other := Picked(frames, c);
            DeliveredBits(other) as real - price * TotalAirtime(other)
              <= DeliveredBits(best) as real - price * TotalAirtime(best)
  {
    hide Picked, TotalAirtime, DeliveredBits;
    RoundIsBest(frames, price, Round(frames, price), c);
  }

  /** A ratio against a price: the worth at that price has the same sign. */
  lemma RatioAgainst(bits: real, air: real, price: real)
    requires air > 0.0
    ensures price <= bits / air <==> bits - price * air >= 0.0
    ensures price == bits / air <==> bits - price * air == 0.0
  {
    var r := bits / air;
    assert bits == r * air;
    assert bits - price * air == (r - price) * air;
    if r > price {
      assert (r - price) * air > 0.0;
    } else if r < price {
      assert (price - r) * air > 0.0;
    }
  }

  lemma RatioVersusPrice(bits: real, air: real, price: real)
    requires air > 0.0
    ensures bits / air <= price <==> bits - price * air <= 0.0
    ensures bits / air == price ==> bits - price * air == 0.0
  {
    RatioAgainst(bits, air, price);
  }

  lemma GoodputVersusPrice(slots: seq<FrameSlot>, price: real)
    requires TotalAirtime(slots) > 0.0
    ensures GoodputBps(slots) <= price <==> Worth(slots, price) <= 0.0
    ensures GoodputBps(slots) == price ==> Worth(slots, price) == 0.0
  {
    RatioVersusPrice(DeliveredBits(slots) as real, TotalAirtime(slots), price);
  }

  /** A price no choice beats is recognized by one more round at that price, and
      only by it: the loop's exit test decides optimality exactly. */
  lemma OptimalIffFixedPoint(frames: seq<Frame>, price: real)
    requires AirtimesPositive(frames) && price >= 0.0
    ensures UpperBound(frames, price) <==> GoodputBps(Picked(frames, Round(frames, price))) <= price
  {
    var picks := Round(frames, price);
    if GoodputBps(Picked(frames, picks)) <= price {
      forall c | IsChoice(frames, c)
        ensures GoodputBps(Picked(frames, c)) <= price
      {
        SomeAirOrNone(frames, c, picks);
        if TotalAirtime(Picked(frames, c)) > 0.0 {
          RoundIsBest(frames, price, picks, c);
          GoodputVersusPrice(Picked(frames, picks), price);
          GoodputVersusPrice(Picked(frames, c), price);
        }
      }
    }
  }

  /** At any cut-off the returned goodput is exactly what the returned choices
      achieve, so a cut-off never over-states it. */
  lemma {:induction false} IterateAchieves(frames: seq<Frame>, price: real, choices: seq<nat>, rounds: nat)
    requires AirtimesPositive(frames) && IsChoice(frames, choices)
    requires price == GoodputBps(Picked(frames, choices))
    ensures var (g, c) := Iterate(frames, price, choices, rounds);
            IsChoice(frames, c) && g == GoodputBps(Picked(frames, c)) && price <= g
    decreases rounds
  {
    hide GoodputBps, Picked, TotalAirtime, DeliveredBits, Round, AirtimesPositive;
    if rounds > 0 {
      var picks := Round(frames, price);
      SomeAirOrNone(frames, choices, picks);
      GoodputNonNegative(Picked(frames, choices));
      GoodputNonNegative(Picked(frames, picks));
      if TotalAirtime(Picked(frames, picks)) > 0.0 && GoodputBps(Picked(frames, picks)) > price {
        IterateAchieves(frames, GoodputBps(Picked(frames, picks)), picks, rounds - 1);
      }
    }
  }

  /** When the first round at price 0 finds no bits, no choice delivers any. */
  lemma NoBitsAtAll(frames: seq<Frame>, c: seq<nat>)
    requires AirtimesPositive(frames) && IsChoice(frames, c)
    requires GoodputBps(Picked(frames, Round(frames, 0.0))) <= 0.0
    ensures GoodputBps(Picked(frames, c)) == 0.0
  {
    OptimalIffFixedPoint(frames, 0.0);
    AirtimeSign(frames, c);
    GoodputNonNegative(Picked(frames, c));
  }

  lemma GoodputNonNegative(slots: seq<FrameSlot>)
    ensures GoodputBps(slots) >= 0.0
    ensures TotalAirtime(slots) <= 0.0 ==> GoodputBps(slots) == 0.0
  {
    if TotalAirtime(slots) > 0.0 {
      QuotientNonNegative(DeliveredBits(slots) as real, TotalAirtime(slots));
    }
  }

  lemma QuotientNonNegative(x: real, y: real)
    requires x >= 0.0 && y > 0.0
    ensures x / y >= 0.0
  {
  }

  /** After at least one round the returned goodput is what the returned choices
      achieve, whatever the cut-off. */
  lemma OracleNeverOverstates(frames: seq<Frame>, rounds: nat)
    requires AirtimesPositive(frames) && rounds >= 1
    ensures var (g, c) := OracleAfter(frames, rounds);
            IsChoice(frames, c) && g == GoodputBps(Picked(frames, c)) && g >= 0.0
  {
    hide GoodputBps, Picked, TotalAirtime, DeliveredBits, Round;
    var picks := Round(frames, 0.0);
    var slots := Picked(frames, picks);
    GoodputNonNegative(slots);
    if TotalAirtime(slots) > 0.0 {
      if GoodputBps(slots) <= 0.0 {
        NoBitsAtAll(frames, FirstOfEach(frames));
      } else {
        IterateAchieves(frames, GoodputBps(slots), picks, rounds - 1);
      }
    }
  }

  /** The capped oracle is optimal exactly when one more round would not improve
      on what it returned. */
  lemma OptimalIffNoImprovingRound(frames: seq<Frame>, rounds: nat)
    requires AirtimesPositive(frames) && rounds >= 1
    ensures var (g, c) := OracleAfter(frames, rounds);
            Optimal(frames, g, c) <==> GoodputBps(Picked(frames, Round(frames, g))) <= g
  {
    OracleNeverOverstates(frames, rounds);
    OptimalIffFixedPoint(frames, OracleAfter(frames, rounds).0);
  }

  // ------------------------------------------------------------ termination

  function CountBelow(frame: Frame, airtime: real): nat {
    if frame == [] then 0
    else CountBelow(frame[..|frame| - 1], airtime) + (if frame[|frame| - 1].airtime < airtime then 1 else 0)
  }

  /** How many times a choice could still move to a cheaper candidate. */
  function Shrinkage(frames: seq<Frame>, c: seq<nat>): nat
    requires |c| == |frames|
  {
    if frames == [] then 0
    else
      var n := |frames| - 1;
      Shrinkage(frames[..n], c[..n]) + (if c[n] < |frames[n]| then CountBelow(frames[n], frames[n][c[n]].airtime) else 0)
  }

  /** Candidates beyond the first, over all frames. */
  function Spare(frames: seq<Frame>): nat {
    if frames == [] then 0
    else
      var n := |frames| - 1;
      Spare(frames[..n]) + (if frames[n] == [] then 0 else |frames[n]| - 1)
  }

  /** Candidates in all, and frames that have any. */
  function Candidates(frames: seq<Frame>): nat {
    if frames == [] then 0 else Candidates(frames[..|frames| - 1]) + |frames[|frames| - 1]|
  }

  function Filled(frames: seq<Frame>): nat {
    if frames == [] then 0 else Filled(frames[..|frames| - 1]) + if frames[|frames| - 1] == [] then 0 else 1
  }

  lemma {:induction false} SpareCandidates(frames: seq<Frame>)
    ensures Spare(frames) == Candidates(frames) - Filled(frames)
  {
    if frames != [] {
      SpareCandidates(frames[..|frames| - 1]);
    }
  }

  lemma {:induction false} CountBelowGrows(frame: Frame, a: real, b: real, k: nat)
    requires k < |frame| && frame[k].airtime == a <= b
    ensures CountBelow(frame, a) <= CountBelow(frame, b) - (if a < b then 1 else 0)
    ensures CountBelow(frame, a) <= |frame| - 1
  {
    var n := |frame| - 1;
    if k < n {
      CountBelowGrows(frame[..n], a, b, k);
    } else {
      CountBelowMonotone(frame[..n], a, b);
    }
  }

  lemma {:induction false} CountBelowMonotone(frame: Frame, a: real, b: real)
    requires a <= b
    ensures CountBelow(frame, a) <= CountBelow(frame, b)
    ensures CountBelow(frame, a) <= |frame|
  {
    if frame != [] {
      CountBelowMonotone(frame[..|frame| - 1], a, b);
    }
  }

  lemma {:induction false} ShrinkageBounded(frames: seq<Frame>, c: seq<nat>)
    requires IsChoice(frames, c)
    ensures Shrinkage(frames, c) <= Spare(frames)
  {
    if frames != [] {
      var n := |frames| - 1;
      ShrinkageBounded(frames[..n], c[..n]);
      if frames[n] != [] {
        var a := frames[n][c[n]].airtime;
        CountBelowGrows(frames[n], a, a, c[n]);
      }
    }
  }

  /** A dearer price never picks a candidate with more airtime. */
  lemma DearerAirPicksLess(frame: Frame, low: real, high: real, p: nat, q: nat)
    requires low < high && frame != []
    requires IsArgmax(frame, low, p) && IsArgmax(frame, high, q)
    ensures frame[q].airtime <= frame[p].airtime
  {
    assert frame[q].Score(low) <= frame[p].Score(low);
    assert frame[p].Score(high) <= frame[q].Score(high);
    var d := frame[q].airtime - frame[p].airtime;
    SignOfProduct(high - low, d);
  }

  lemma SignOfProduct(k: real, d: real)
    requires k > 0.0 && k * d <= 0.0
    ensures d <= 0.0
  {
  }

  lemma {:induction false} DearerRoundShrinks(frames: seq<Frame>, low: real, high: real, p: seq<nat>, q: seq<nat>)
    requires low < high && |p| == |q| == |frames|
    requires forall f :: 0 <= f < |frames| ==> IsArgmax(frames[f], low, p[f]) && IsArgmax(frames[f], high, q[f])
    ensures TotalAirtime(Picked(frames, q)) <= TotalAirtime(Picked(frames, p))
    ensures Shrinkage(frames, q) <= Shrinkage(frames, p)
    ensures TotalAirtime(Picked(frames, q)) < TotalAirtime(Picked(frames, p)) ==>
              Shrinkage(frames, q) < Shrinkage(frames, p)
  {
    if frames != [] {
      var n := |frames| - 1;
      DearerRoundShrinks(frames[..n], low, high, p[..n], q[..n]);
      TotalsAppend(Picked(frames[..n], p[..n]), PickedOn(frames[n], p[n]));
      TotalsAppend(Picked(frames[..n], q[..n]), PickedOn(frames[n], q[n]));
      if frames[n] != [] {
        DearerAirPicksLess(frames[n], low, high, p[n], q[n]);
        TotalsOfOne(frames[n][p[n]]);
        TotalsOfOne(frames[n][q[n]]);
        CountBelowGrows(frames[n], frames[n][q[n]].airtime, frames[n][p[n]].airtime, q[n]);
      }
    }
  }

  /** Two rounds in a row that both improve: the second spends strictly less air. */
  lemma ImprovingRoundSpendsLess(bits: real, air: real, bits2: real, air2: real, low: real)
    requires air > 0.0 && air2 > 0.0 && low < bits / air < bits2 / air2
    requires bits2 - low * air2 <= bits - low * air
    ensures air2 < air
  {
    var mid, top := bits / air, bits2 / air2;
    assert bits == mid * air && bits2 == top * air2;
    assert (top - low) * air2 <= (mid - low) * air;
    if air2 >= air {
      MulMonotone(mid - low, air, air2);
      MulMonotone(air2, mid - low, top - low);
    }
  }

  lemma MulMonotone(k: real, x: real, y: real)
    requires k > 0.0 && x <= y
    ensures k * x <= k * y
    ensures x < y ==> k * x < k * y
  {
  }

  /** An improving round spends strictly less air, and so leaves its choices fewer
      moves to cheaper candidates. */
  lemma ImprovingRoundShrinks(frames: seq<Frame>, low: real, choices: seq<nat>, picks: seq<nat>)
    requires AirtimesPositive(frames) && choices == Round(frames, low) && |picks| == |frames|
    requires TotalAirtime(Picked(frames, choices)) > 0.0 && TotalAirtime(Picked(frames, picks)) > 0.0
    requires low < GoodputBps(Picked(frames, choices)) < GoodputBps(Picked(frames, picks))
    requires picks == Round(frames, GoodputBps(Picked(frames, choices)))
    ensures TotalAirtime(Picked(frames, picks)) < TotalAirtime(Picked(frames, choices))
    ensures Shrinkage(frames, picks) < Shrinkage(frames, choices)
  {
    hide Picked, TotalAirtime, DeliveredBits, Shrinkage, IsArgmax;
    var old_, new_ := Picked(frames, choices), Picked(frames, picks);
    assert TotalAirtime(new_) < TotalAirtime(old_) by {
      RoundChoosesBest(frames, low, picks);
      ImprovingRoundSpendsLess(DeliveredBits(old_) as real, TotalAirtime(old_),
                               DeliveredBits(new_) as real, TotalAirtime(new_), low);
    }
    DearerRoundShrinks(frames, low, GoodputBps(old_), choices, picks);
  }

  lemma {:induction false} IterateConverges(frames: seq<Frame>, low: real, choices: seq<nat>, rounds: nat)
    requires AirtimesPositive(frames) && low >= 0.0 && choices == Round(frames, low)
    requires TotalAirtime(Picked(frames, choices)) > 0.0
    requires low < GoodputBps(Picked(frames, choices))
    requires rounds >= Shrinkage(frames, choices)
    ensures UpperBound(frames, Iterate(frames, GoodputBps(Picked(frames, choices)), choices, rounds).0)
    decreases rounds
  {
    hide GoodputBps, Picked, TotalAirtime, DeliveredBits, Round, AirtimesPositive, Shrinkage, UpperBound;
    var price := GoodputBps(Picked(frames, choices));
    var picks := Round(frames, price);
    SomeAirOrNone(frames, choices, picks);
    if GoodputBps(Picked(frames, picks)) <= price {
      OptimalIffFixedPoint(frames, price);
    } else {
      ImprovingRoundShrinks(frames, low, choices, picks);
      IterateConverges(frames, price, picks, rounds - 1);
    }
  }

  /** Without the cap the iteration ends at the optimum over all choice
      functions, after at most one round more than there are spare candidates. */
  lemma OptimalAfterEnoughRounds(frames: seq<Frame>, rounds: nat)
    requires AirtimesPositive(frames) && rounds >= Spare(frames) + 1
    ensures Optimal(frames, OracleAfter(frames, rounds).0, OracleAfter(frames, rounds).1)
  {
    hide GoodputBps, Picked, TotalAirtime, DeliveredBits, Round, Shrinkage, Spare, UpperBound;
    OracleNeverOverstates(frames, rounds);
    var picks := Round(frames, 0.0);
    if TotalAirtime(Picked(frames, picks)) <= 0.0 {
      OptimalIffFixedPoint(frames, 0.0);
    } else if GoodputBps(Picked(frames, picks)) <= 0.0 {
      OptimalIffFixedPoint(frames, 0.0);
    } else {
      ShrinkageBounded(frames, picks);
      IterateConverges(frames, 0.0, picks, rounds - 1);
    }
  }

  // ---------------------------------------- termination, however long the run

  /** At price `price` the frame is indifferent between its dearer candidate `i`
      and its cheaper `j`, and has none better. */
  ghost predicate Tie(frame: Frame, price: real, i: nat, j: nat) {
    && i < |frame| && j < |frame| && frame[j].airtime < frame[i].airtime
    && frame[i].Score(price) == frame[j].Score(price)
    && forall k :: 0 <= k < |frame| ==> frame[k].Score(price) <= frame[i].Score(price)
  }

  /** `rates` lists every price at which some frame can move to cheaper air. */
  ghost predicate Covers(frames: seq<Frame>, rates: seq<real>) {
    forall f, i, j, price: real :: 0 <= f < |frames| && price >= 0.0 && Tie(frames[f], price, i, j) ==> price in rates
  }

  /** How many of the rates are at least `low`. */
  function CountFrom(rates: seq<real>, low: real): (n: nat)
    ensures n <= |rates|
  {
    if rates == [] then 0
    else CountFrom(rates[..|rates| - 1], low) + if rates[|rates| - 1] >= low then 1 else 0
  }

  lemma {:induction false} CountFalls(rates: seq<real>, low: real, high: real, rate: real)
    requires low < high
    ensures CountFrom(rates, high) <= CountFrom(rates, low)
    ensures rate in rates && low <= rate < high ==> CountFrom(rates, high) < CountFrom(rates, low)
  {
    if rates != [] {
      CountFalls(rates[..|rates| - 1], low, high, rate);
    }
  }

  /** Where the worth of candidates `i` and `j` crosses. */
  function Crossing(frame: Frame, i: nat, j: nat): real
    requires i < |frame| && j < |frame| && frame[j].airtime < frame[i].airtime
  {
    (frame[i].Bits() as real - frame[j].Bits() as real) / (frame[i].airtime - frame[j].airtime)
  }

  lemma ScoreAtCrossing(frame: Frame, i: nat, j: nat, price: real)
    requires i < |frame| && j < |frame| && frame[j].airtime < frame[i].airtime
    ensures frame[i].Score(price) >= frame[j].Score(price) <==> price <= Crossing(frame, i, j)
    ensures frame[i].Score(price) == frame[j].Score(price) <==> price == Crossing(frame, i, j)
  {
    var bits, air := frame[i].Bits() as real - frame[j].Bits() as real, frame[i].airtime - frame[j].airtime;
    RatioAgainst(bits, air, price);
    assert frame[i].Score(price) - frame[j].Score(price) == bits - price * air;
  }

  /** The first of the frame's first `n` candidates to overtake candidate `p` as
      air grows dearer, if any does below `high`. */
  lemma {:induction false} FirstToOvertake(frame: Frame, low: real, high: real, p: nat, n: nat) returns (q: nat)
    requires p < |frame| && n <= |frame| && low < high
    requires forall k :: 0 <= k < |frame| ==> frame[k].Score(low) <= frame[p].Score(low)
    requires exists k :: 0 <= k < n && frame[k].Score(high) > frame[p].Score(high)
    ensures q < n && frame[q].airtime < frame[p].airtime && low <= Crossing(frame, p, q) < high
    ensures forall k :: 0 <= k < n ==> frame[k].Score(Crossing(frame, p, q)) <= frame[p].Score(Crossing(frame, p, q))
  {
    hide FrameSlot.Score, Crossing;
    var last := n - 1;
    if exists k :: 0 <= k < last && frame[k].Score(high) > frame[p].Score(high) {
      q := FirstToOvertake(frame, low, high, p, last);
      var at := Crossing(frame, p, q);
      if frame[last].Score(at) > frame[p].Score(at) {
        Overtakes(frame, low, at, p, last);
        OthersWait(frame, low, Crossing(frame, p, last), at, p, last);
        q := last;
      }
    } else {
      q := last;
      Overtakes(frame, low, high, p, q);
      OthersWait(frame, low, Crossing(frame, p, q), high, p, last);
    }
  }

  /** A candidate that overtakes is cheaper in air and crosses in between. */
  lemma Overtakes(frame: Frame, low: real, high: real, p: nat, q: nat)
    requires p < |frame| && q < |frame| && low < high
    requires frame[q].Score(low) <= frame[p].Score(low) && frame[q].Score(high) > frame[p].Score(high)
    ensures frame[q].airtime < frame[p].airtime && low <= Crossing(frame, p, q) < high
    ensures frame[q].Score(Crossing(frame, p, q)) == frame[p].Score(Crossing(frame, p, q))
  {
    var d := frame[q].airtime - frame[p].airtime;
    assert (high - low) * d < 0.0;
    NegativeFactor(high - low, d);
    ScoreAtCrossing(frame, p, q, low);
    ScoreAtCrossing(frame, p, q, high);
    ScoreAtCrossing(frame, p, q, Crossing(frame, p, q));
  }

  lemma NegativeFactor(k: real, d: real)
    requires k > 0.0 && k * d < 0.0
    ensures d < 0.0
  {
  }

  /** Candidates not ahead of `p` at both ends of a price range are not ahead
      within it. */
  lemma OthersWait(frame: Frame, low: real, at: real, high: real, p: nat, n: nat)
    requires p < |frame| && n <= |frame| && low <= at <= high
    requires forall k :: 0 <= k < |frame| ==> frame[k].Score(low) <= frame[p].Score(low)
    requires forall k :: 0 <= k < n ==> frame[k].Score(high) <= frame[p].Score(high)
    ensures forall k :: 0 <= k < n ==> frame[k].Score(at) <= frame[p].Score(at)
  {
    forall k | 0 <= k < n
      ensures frame[k].Score(at) <= frame[p].Score(at)
    {
      StaysBehind(frame[k], frame[p], low, at, high);
    }
  }

  lemma StaysBehind(x: FrameSlot, y: FrameSlot, low: real, at: real, high: real)
    requires low <= at <= high && x.Score(low) <= y.Score(low) && x.Score(high) <= y.Score(high)
    ensures x.Score(at) <= y.Score(at)
  {
    CostDifference(low, x.airtime, y.airtime);
    CostDifference(at, x.airtime, y.airtime);
    CostDifference(high, x.airtime, y.airtime);
    CostInBetween(low, at, high, x.airtime - y.airtime);
    hide AirCost;
  }

  lemma CostDifference(price: real, a: real, b: real)
    ensures AirCost(price, a) - AirCost(price, b) == AirCost(price, a - b)
  {
  }

  /** The cost of some air, or the saving, is between those at either end. */
  lemma CostInBetween(low: real, at: real, high: real, air: real)
    requires low <= at <= high
    ensures AirCost(low, air) <= AirCost(at, air) || AirCost(high, air) <= AirCost(at, air)
  {
    if air >= 0.0 {
      assert (at - low) * air >= 0.0;
    } else {
      assert (high - at) * -air >= 0.0;
    }
  }

  /** When dearer air makes a frame prefer another candidate, it was tied at some
      price in between. */
  lemma TieInBetween(frame: Frame, low: real, high: real, p: nat, q: nat) returns (rate: real, i: nat, j: nat)
    requires low < high && p < |frame| && q < |frame| && IsArgmax(frame, low, p)
    requires frame[q].Score(high) > frame[p].Score(high)
    ensures low <= rate < high && Tie(frame, rate, i, j)
  {
    hide FrameSlot.Score, Crossing;
    i := p;
    j := FirstToOvertake(frame, low, high, p, |frame|);
    rate := Crossing(frame, p, j);
    ScoreAtCrossing(frame, p, j, rate);
  }

  /** If a whole run is worth more, so is some frame. */
  lemma {:induction false} SomeFrameGains(frames: seq<Frame>, price: real, p: seq<nat>, q: seq<nat>) returns (f: nat)
    requires IsChoice(frames, p) && IsChoice(frames, q)
    requires Worth(Picked(frames, p), price) < Worth(Picked(frames, q), price)
    ensures f < |frames| && frames[f] != []
    ensures frames[f][p[f]].Score(price) < frames[f][q[f]].Score(price)
  {
    hide FrameSlot.Score;
    assert frames != [];
    var n := |frames| - 1;
    WorthAppend(Picked(frames[..n], p[..n]), PickedOn(frames[n], p[n]), price);
    WorthAppend(Picked(frames[..n], q[..n]), PickedOn(frames[n], q[n]), price);
    WorthPicked(frames[n], p[n], price);
    WorthPicked(frames[n], q[n], price);
    hide Worth, PickedOn;
    if Worth(Picked(frames[..n], p[..n]), price) < Worth(Picked(frames[..n], q[..n]), price) {
      f := SomeFrameGains(frames[..n], price, p[..n], q[..n]);
    } else {
      f := n;
    }
  }

  /** An improving round passes at least one of the rates for good. */
  lemma ImprovingRoundPassesRate(frames: seq<Frame>, rates: seq<real>, low: real, choices: seq<nat>, picks: seq<nat>)
    requires AirtimesPositive(frames) && Covers(frames, rates) && low >= 0.0
    requires choices == Round(frames, low) && |picks| == |frames|
    requires TotalAirtime(Picked(frames, choices)) > 0.0 && TotalAirtime(Picked(frames, picks)) > 0.0
    requires low < GoodputBps(Picked(frames, choices)) < GoodputBps(Picked(frames, picks))
    requires picks == Round(frames, GoodputBps(Picked(frames, choices)))
    ensures CountFrom(rates, GoodputBps(Picked(frames, choices))) < CountFrom(rates, low)
  {
    var price := GoodputBps(Picked(frames, choices));
    GoodputVersusPrice(Picked(frames, choices), price);
    GoodputVersusPrice(Picked(frames, picks), price);
    hide GoodputBps, Picked, TotalAirtime, DeliveredBits, Worth, Tie, FrameSlot.Score;
    var f := SomeFrameGains(frames, price, choices, picks);
    assert IsArgmax(frames[f], low, choices[f]);
    var rate, i, j := TieInBetween(frames[f], low, price, choices[f], picks[f]);
    assert rate in rates;
    CountFalls(rates, low, price, rate);
  }

  lemma {:induction false} IteratePassesRates(frames: seq<Frame>, rates: seq<real>, low: real, choices: seq<nat>, rounds: nat)
    requires AirtimesPositive(frames) && Covers(frames, rates) && low >= 0.0 && choices == Round(frames, low)
    requires TotalAirtime(Picked(frames, choices)) > 0.0
    requires low < GoodputBps(Picked(frames, choices))
    requires rounds >= CountFrom(rates, low)
    ensures UpperBound(frames, Iterate(frames, GoodputBps(Picked(frames, choices)), choices, rounds).0)
    decreases rounds
  {
    hide GoodputBps, Picked, TotalAirtime, DeliveredBits, Round, AirtimesPositive, CountFrom, Covers, UpperBound;
    var price := GoodputBps(Picked(frames, choices));
    var picks := Round(frames, price);
    SomeAirOrNone(frames, choices, picks);
    if GoodputBps(Picked(frames, picks)) <= price {
      OptimalIffFixedPoint(frames, price);
    } else {
      ImprovingRoundPassesRate(frames, rates, low, choices, picks);
      IteratePassesRates(frames, rates, price, picks, rounds - 1);
    }
  }

  /** One round more than there are rates to move at is enough for the optimum,
      however many frames there are. */
  lemma OptimalWhenRatesAreFew(frames: seq<Frame>, rates: seq<real>, rounds: nat)
    requires AirtimesPositive(frames) && Covers(frames, rates) && rounds >= |rates| + 1
    ensures Optimal(frames, OracleAfter(frames, rounds).0, OracleAfter(frames, rounds).1)
  {
    hide GoodputBps, Picked, TotalAirtime, DeliveredBits, Round, Covers, UpperBound;
    OracleNeverOverstates(frames, rounds);
    var picks := Round(frames, 0.0);
    if TotalAirtime(Picked(frames, picks)) <= 0.0 {
      OptimalIffFixedPoint(frames, 0.0);
    } else if GoodputBps(Picked(frames, picks)) <= 0.0 {
      OptimalIffFixedPoint(frames, 0.0);
    } else {
      IteratePassesRates(frames, rates, 0.0, picks, rounds - 1);
    }
  }

  /** In particular any list of all trades of air for bits within a frame will do. */
  lemma AllTradesCover(frames: seq<Frame>, rates: seq<real>)
    requires forall f, i, j ::
               (0 <= f < |frames| && 0 <= i < |frames[f]| && 0 <= j < |frames[f]| &&
                frames[f][j].airtime < frames[f][i].airtime && Crossing(frames[f], i, j) >= 0.0) ==>
               Crossing(frames[f], i, j) in rates
    ensures Covers(frames, rates)
  {
    forall f, i, j, price: real | 0 <= f < |frames| && price >= 0.0 && Tie(frames[f], price, i, j)
      ensures price in rates
    {
      ScoreAtCrossing(frames[f], i, j, price);
    }
  }

  // ---------------------------------------------------------------- methods

  lemma ArgmaxIsUnique(frame: Frame, price: real, i: nat, j: nat)
    requires IsArgmax(frame, price, i) && IsArgmax(frame, price, j)
    ensures i == j
  {
    if frame != [] {
      assert frame[i].Score(price) <= frame[j].Score(price) && frame[j].Score(price) <= frame[i].Score(price);
    }
  }

  /** Best candidate of one frame; ties keep the lowest index. */
  method PickBest(frame: Frame, price: real) returns (bestIdx: nat)
    ensures bestIdx == Argmax(frame, price)
  {
    bestIdx := 0;
    var bestScore: Option<real> := None;
    for idx := 0 to |frame|
      invariant IsArgmax(frame[..idx], price, bestIdx)
      invariant bestScore == if idx == 0 then None else Some(frame[bestIdx].Score(price))
    {
      var score := frame[idx].Score(price);
      if bestScore.None? || score > bestScore.value {
        bestIdx, bestScore := idx, Some(score);
      }
    }
    assert frame[..|frame|] == frame;
    ArgmaxIsUnique(frame, price, bestIdx, Argmax(frame, price));
  }

  /** `goodput` is what the choices deliver over the air they spend. */
  ghost predicate IsRatio(frames: seq<Frame>, choices: seq<nat>, goodput: real)
    requires |choices| == |frames|
  {
    if ChosenAir(frames, choices) > 0.0 then goodput * ChosenAir(frames, choices) == ChosenBits(frames, choices) as real
    else goodput == 0.0
  }

  lemma ChoiceIsRatio(frames: seq<Frame>, choices: seq<nat>)
    requires |choices| == |frames|
    ensures IsRatio(frames, choices, GoodputBps(Picked(frames, choices)))
  {
    hide GoodputBps, Picked, DeliveredBits, TotalAirtime, ChosenBits, ChosenAir;
    PickedTotals(frames, choices);
    GoodputIsRatio(Picked(frames, choices));
  }

  lemma CappedOracle(frames: seq<Frame>)
    ensures var (g, c) := OracleAfter(frames, MAX_ITERS);
            && (AirtimesPositive(frames) ==> IsChoice(frames, c) && g == GoodputBps(Picked(frames, c)) && IsRatio(frames, c, g))
            && (AirtimesPositive(frames) && Spare(frames) < MAX_ITERS ==> Optimal(frames, g, c))
            && (forall rates :: AirtimesPositive(frames) && Covers(frames, rates) && |rates| < MAX_ITERS ==> Optimal(frames, g, c))
  {
    hide Iterate, Optimal, Spare, GoodputBps, Picked, Covers, IsRatio;
    if AirtimesPositive(frames) {
      OracleNeverOverstates(frames, MAX_ITERS);
      ChoiceIsRatio(frames, OracleAfter(frames, MAX_ITERS).1);
      if Spare(frames) < MAX_ITERS {
        OptimalAfterEnoughRounds(frames, MAX_ITERS);
      }
      forall rates | Covers(frames, rates) && |rates| < MAX_ITERS
        ensures Optimal(frames, OracleAfter(frames, MAX_ITERS).0, OracleAfter(frames, MAX_ITERS).1)
      {
        OptimalWhenRatesAreFew(frames, rates, MAX_ITERS);
      }
    }
  }

  /** What an optimum means in payload and air: no choice delivers more than the
      optimum makes of the air it spends, and the chosen one delivers just that. */
  lemma OptimumBoundsBits(frames: seq<Frame>, goodput: real, choices: seq<nat>, c: seq<nat>)
    requires AirtimesPositive(frames) && Optimal(frames, goodput, choices) && IsChoice(frames, c)
    ensures ChosenBits(frames, c) as real <= goodput * ChosenAir(frames, c)
    ensures ChosenBits(frames, choices) as real == goodput * ChosenAir(frames, choices)
  {
    hide GoodputBps, Picked, DeliveredBits, TotalAirtime, ChosenBits, ChosenAir;
    BitsAreRate(frames, choices);
    BitsAreRate(frames, c);
    var rate, air := GoodputBps(Picked(frames, c)), ChosenAir(frames, c);
    assert rate <= goodput;
    Scaled(rate, goodput, air);
  }

  lemma BitsAreRate(frames: seq<Frame>, c: seq<nat>)
    requires AirtimesPositive(frames) && |c| == |frames|
    ensures ChosenBits(frames, c) as real == GoodputBps(Picked(frames, c)) * ChosenAir(frames, c)
    ensures ChosenAir(frames, c) >= 0.0
  {
    hide GoodputBps, Picked, DeliveredBits, TotalAirtime, ChosenBits, ChosenAir, AirtimesPositive;
    AirtimeSign(frames, c);
    PickedTotals(frames, c);
    GoodputIsRatio(Picked(frames, c));
    NothingDelivered();
  }

  lemma NothingDelivered()
    ensures DeliveredBits([]) == 0
  {
  }

  lemma Scaled(x: real, y: real, k: real)
    requires x <= y && k >= 0.0
    ensures x * k <= y * k
  {
  }

  /** The capped oracle. It returns what its choices achieve, and the optimum
      over all choice functions when the cap exceeds the spare candidates, or the
      prices at which any frame can move to cheaper air. */
  method OracleGoodputBps(frames: seq<Frame>) returns (goodput: real, choices: seq<nat>)
    ensures (goodput, choices) == OracleAfter(frames, MAX_ITERS)
    ensures AirtimesPositive(frames) ==> IsChoice(frames, choices) && goodput == GoodputBps(Picked(frames, choices))
    ensures AirtimesPositive(frames) ==> IsRatio(frames, choices, goodput)
    ensures AirtimesPositive(frames) && Spare(frames) < MAX_ITERS ==> Optimal(frames, goodput, choices)
    ensures forall rates :: AirtimesPositive(frames) && Covers(frames, rates) && |rates| < MAX_ITERS ==>
              Optimal(frames, goodput, choices)
  {
    hide Covers, IsRatio, AirtimesPositive, Optimal, Spare, Picked, Iterate, Round, Rate, DeliveredBits, TotalAirtime;
    CappedOracle(frames);
    var price := 0.0;
    choices := FirstOfEach(frames);
    for iter := 0 to MAX_ITERS
      invariant Iterate(frames, price, choices, MAX_ITERS - iter) == OracleAfter(frames, MAX_ITERS)
    {
      IterateStep(frames, price, choices, MAX_ITERS - iter);
      var picks := PickAll(frames, price);
      var bits, airtime := Totals(frames, picks);
      if airtime <= 0.0 {
        return 0.0, picks;
      }
      var ratio := Rate(bits, airtime);
      if ratio <= price {
        return price, choices;
      }
      price, choices := ratio, picks;
    }
    IterateDone(frames, price, choices);
    goodput := price;
  }

  lemma IterateStep(frames: seq<Frame>, price: real, choices: seq<nat>, rounds: nat)
    requires rounds > 0
    ensures var picks := Round(frames, price);
            var bits, air := DeliveredBits(Picked(frames, picks)), TotalAirtime(Picked(frames, picks));
            Iterate(frames, price, choices, rounds) ==
            if air <= 0.0 then (0.0, picks)
            else if Rate(bits, air) <= price then (price, choices)
            else Iterate(frames, Rate(bits, air), picks, rounds - 1)
  {
    hide DeliveredBits, TotalAirtime, Picked, Round;
  }

  lemma IterateDone(frames: seq<Frame>, price: real, choices: seq<nat>)
    ensures Iterate(frames, price, choices, 0) == (price, choices)
  {
  }

  method PickAll(frames: seq<Frame>, price: real) returns (picks: seq<nat>)
    ensures picks == Round(frames, price) && |picks| == |frames|
  {
    picks := [];
    for f := 0 to |frames|
      invariant |picks| == f
      invariant forall g :: 0 <= g < f ==> picks[g] == Argmax(frames[g], price)
    {
      var best := PickBest(frames[f], price);
      picks := picks + [best];
    }
  }

  method Totals(frames: seq<Frame>, picks: seq<nat>) returns (bits: nat, airtime: real)
    requires |picks| == |frames|
    ensures bits == DeliveredBits(Picked(frames, picks)) && airtime == TotalAirtime(Picked(frames, picks))
  {
    bits, airtime := 0, 0.0;
    for f := 0 to |frames|
      invariant bits == DeliveredBits(Picked(frames[..f], picks[..f]))
      invariant airtime == TotalAirtime(Picked(frames[..f], picks[..f]))
    {
      PickedGrows(frames, picks, f);
      if picks[f] < |frames[f]| {
        var candidate := frames[f][picks[f]];
        if candidate.delivered {
          bits := bits + candidate.infoBits;
        }
        airtime := airtime + candidate.airtime;
      }
    }
    assert frames[..|frames|] == frames && picks[..|frames|] == picks;
  }

}
