/** The airtime-normalized goodput metric over transmitted frame slots. Bits are
    naturals and airtime is a real number of seconds. */
module Goodput {
  import opened Wrappers

  /** What `airtime` seconds cost at `price` bits per second. */
  function AirCost(price: real, airtime: real): real {
    price * airtime
  }

  /** A frame sent at some speed level: its airtime, its payload, and whether it decoded. */
  datatype FrameSlot = FrameSlot(level: nat, infoBits: nat, airtime: real, delivered: bool) {
    /** Payload bits this slot contributes; an undelivered one contributes none. */
    function Bits(): nat {
      if delivered then infoBits else 0
    }

    /** The slot's worth when a second of air costs `price` bits. */
    function Score(price: real): real {
      Bits() as real - AirCost(price, airtime)
    }
  }

  /** The candidates of one frame: what each cell actually did on it. */
  type Frame = seq<FrameSlot>

  function DeliveredBits(slots: seq<FrameSlot>): nat {
    if slots == [] then 0 else DeliveredBits(slots[..|slots| - 1]) + slots[|slots| - 1].Bits()
  }

  function TotalAirtime(slots: seq<FrameSlot>): real {
    if slots == [] then 0.0 else TotalAirtime(slots[..|slots| - 1]) + slots[|slots| - 1].airtime
  }

  function Rate(bits: nat, airtime: real): real
    requires airtime > 0.0
  {
    bits as real / airtime
  }

  function GoodputBps(slots: seq<FrameSlot>): real {
    if TotalAirtime(slots) <= 0.0 then 0.0 else Rate(DeliveredBits(slots), TotalAirtime(slots))
  }

  /** What one more slot adds: its airtime always, its payload only if it decoded. */
  lemma SlotIsCounted(slots: seq<FrameSlot>, s: FrameSlot)
    ensures s.delivered ==> DeliveredBits(slots + [s]) == DeliveredBits(slots) + s.infoBits
    ensures !s.delivered ==> DeliveredBits(slots + [s]) == DeliveredBits(slots)
    ensures TotalAirtime(slots + [s]) == TotalAirtime(slots) + s.airtime
    ensures DeliveredBits([]) == 0 && TotalAirtime([]) == 0.0
  {
    assert (slots + [s])[..|slots|] == slots;
  }

  /** Goodput is delivered bits over airtime, and 0 where no air was spent. */
  lemma GoodputIsRatio(slots: seq<FrameSlot>)
    ensures TotalAirtime(slots) > 0.0 ==> GoodputBps(slots) * TotalAirtime(slots) == DeliveredBits(slots) as real
    ensures TotalAirtime(slots) <= 0.0 ==> GoodputBps(slots) == 0.0
  {
  }

  /** An undelivered slot is worth its wasted air alone. */
  lemma ScoreIsWorth(s: FrameSlot, price: real)
    ensures s.Score(price) == (if s.delivered then s.infoBits as real else 0.0) - price * s.airtime
  {
  }

  /** One candidate index per frame; a frame without candidates takes any index. */
  ghost predicate IsChoice(frames: seq<Frame>, choices: seq<nat>) {
    |choices| == |frames| && forall f :: 0 <= f < |frames| && frames[f] != [] ==> choices[f] < |frames[f]|
  }

  /** The slot a choice selects on one frame, none when the index misses. */
  function PickedOn(frame: Frame, idx: nat): seq<FrameSlot> {
    if idx < |frame| then [frame[idx]] else []
  }

  /** The slots a choice transmits over the whole run. */
  function Picked(frames: seq<Frame>, choices: seq<nat>): (slots: seq<FrameSlot>)
    requires |choices| == |frames|
  {
    if frames == [] then []
    else
      var n := |frames| - 1;
      Picked(frames[..n], choices[..n]) + PickedOn(frames[n], choices[n])
  }

  /** The payload a choice delivers: that of the chosen slots that decoded. */
  function ChosenBits(frames: seq<Frame>, choices: seq<nat>): nat
    requires |choices| == |frames|
  {
    if frames == [] then 0
    else
      var n := |frames| - 1;
      ChosenBits(frames[..n], choices[..n]) +
      if choices[n] < |frames[n]| && frames[n][choices[n]].delivered then frames[n][choices[n]].infoBits else 0
  }

  /** The air a choice spends. */
  function ChosenAir(frames: seq<Frame>, choices: seq<nat>): real
    requires |choices| == |frames|
  {
    if frames == [] then 0.0
    else
      var n := |frames| - 1;
      ChosenAir(frames[..n], choices[..n]) + if choices[n] < |frames[n]| then frames[n][choices[n]].airtime else 0.0
  }

  lemma {:induction false} PickedTotals(frames: seq<Frame>, choices: seq<nat>)
    requires |choices| == |frames|
    ensures DeliveredBits(Picked(frames, choices)) == ChosenBits(frames, choices)
    ensures TotalAirtime(Picked(frames, choices)) == ChosenAir(frames, choices)
  {
    if frames == [] {
      assert Picked(frames, choices) == [];
    } else {
      var n := |frames| - 1;
      PickedTotals(frames[..n], choices[..n]);
      if choices[n] < |frames[n]| {
        SlotIsCounted(Picked(frames[..n], choices[..n]), frames[n][choices[n]]);
      } else {
        assert Picked(frames, choices) == Picked(frames[..n], choices[..n]);
      }
    }
  }

  /** Every slot the run could transmit occupies air. */
  ghost predicate AirtimesPositive(frames: seq<Frame>) {
    forall f, k :: 0 <= f < |frames| && 0 <= k < |frames[f]| ==> frames[f][k].airtime > 0.0
  }

  lemma {:induction false} TotalsAppend(a: seq<FrameSlot>, b: seq<FrameSlot>)
    ensures DeliveredBits(a + b) == DeliveredBits(a) + DeliveredBits(b)
    ensures TotalAirtime(a + b) == TotalAirtime(a) + TotalAirtime(b)
  {
    if b == [] {
      assert a + b == a;
    } else {
      var n := |b| - 1;
      assert (a + b)[..|a + b| - 1] == a + b[..n];
      TotalsAppend(a, b[..n]);
    }
  }

  lemma TotalsOfOne(s: FrameSlot)
    ensures DeliveredBits([s]) == s.Bits() && TotalAirtime([s]) == s.airtime
  {
    assert [s][..0] == [];
  }

  lemma {:induction false} AirtimeSign(frames: seq<Frame>, c: seq<nat>)
    requires AirtimesPositive(frames) && |c| == |frames|
    ensures TotalAirtime(Picked(frames, c)) >= 0.0
    ensures TotalAirtime(Picked(frames, c)) == 0.0 <==> Picked(frames, c) == []
  {
    if frames != [] {
      var n := |frames| - 1;
      AirtimeSign(frames[..n], c[..n]);
      TotalsAppend(Picked(frames[..n], c[..n]), PickedOn(frames[n], c[n]));
      if c[n] < |frames[n]| {
        TotalsOfOne(frames[n][c[n]]);
      }
    }
  }

  lemma {:induction false} EmptyPicks(frames: seq<Frame>, c: seq<nat>, d: seq<nat>)
    requires IsChoice(frames, c) && IsChoice(frames, d)
    ensures Picked(frames, c) == [] <==> Picked(frames, d) == []
  {
    if frames != [] {
      var n := |frames| - 1;
      EmptyPicks(frames[..n], c[..n], d[..n]);
    }
  }

  /** Whether any air is spent at all does not depend on the choice. */
  lemma SomeAirOrNone(frames: seq<Frame>, c: seq<nat>, d: seq<nat>)
    requires AirtimesPositive(frames) && IsChoice(frames, c) && IsChoice(frames, d)
    ensures TotalAirtime(Picked(frames, c)) > 0.0 <==> TotalAirtime(Picked(frames, d)) > 0.0
  {
    AirtimeSign(frames, c);
    AirtimeSign(frames, d);
    EmptyPicks(frames, c, d);
  }

  lemma PickedGrows(frames: seq<Frame>, picks: seq<nat>, f: nat)
    requires |picks| == |frames| && f < |frames|
    ensures var before, after := Picked(frames[..f], picks[..f]), Picked(frames[..f + 1], picks[..f + 1]);
            if picks[f] < |frames[f]| then
              var slot := frames[f][picks[f]];
              && DeliveredBits(after) == DeliveredBits(before) + slot.Bits()
              && TotalAirtime(after) == TotalAirtime(before) + slot.airtime
            else
              DeliveredBits(after) == DeliveredBits(before) && TotalAirtime(after) == TotalAirtime(before)
  {
    assert frames[..f + 1][..f] == frames[..f] && picks[..f + 1][..f] == picks[..f];
    TotalsAppend(Picked(frames[..f], picks[..f]), PickedOn(frames[f], picks[f]));
    if picks[f] < |frames[f]| {
      TotalsOfOne(frames[f][picks[f]]);
    }
  }

  /** Best fixed arm by goodput; ties go to the lowest index. */
  method BestArm(arms: seq<seq<FrameSlot>>) returns (best: Option<(nat, real)>)
    ensures best.None? <==> arms == []
    ensures best.Some? ==> best.value.0 < |arms| && best.value.1 == GoodputBps(arms[best.value.0])
    ensures best.Some? ==> forall a :: 0 <= a < |arms| ==> GoodputBps(arms[a]) <= best.value.1
    ensures best.Some? ==> forall a :: 0 <= a < best.value.0 ==> GoodputBps(arms[a]) < best.value.1
  {
    hide GoodputBps;
    if |arms| == 0 {
      return None;
    }
    var bestIdx, bestGoodput := 0, GoodputBps(arms[0]);
    for idx := 1 to |arms|
      invariant bestIdx < idx && bestGoodput == GoodputBps(arms[bestIdx])
      invariant forall a :: 0 <= a < idx ==> GoodputBps(arms[a]) <= bestGoodput
      invariant forall a :: 0 <= a < bestIdx ==> GoodputBps(arms[a]) < bestGoodput
    {
      var goodput := GoodputBps(arms[idx]);
      if goodput > bestGoodput {
        bestIdx, bestGoodput := idx, goodput;
      }
    }
    best := Some((bestIdx, bestGoodput));
  }

  /** Best fixed arm by delivered bits, with the same tie-break. */
  method BestArmByBits(arms: seq<seq<FrameSlot>>) returns (best: Option<(nat, nat)>)
    ensures best.None? <==> arms == []
    ensures best.Some? ==> best.value.0 < |arms| && best.value.1 == DeliveredBits(arms[best.value.0])
    ensures best.Some? ==> forall a :: 0 <= a < |arms| ==> DeliveredBits(arms[a]) <= best.value.1
    ensures best.Some? ==> forall a :: 0 <= a < best.value.0 ==> DeliveredBits(arms[a]) < best.value.1
  {
    hide DeliveredBits;
    if |arms| == 0 {
      return None;
    }
    var bestIdx, bestBits := 0, DeliveredBits(arms[0]);
    for idx := 1 to |arms|
      invariant bestIdx < idx && bestBits == DeliveredBits(arms[bestIdx])
      invariant forall a :: 0 <= a < idx ==> DeliveredBits(arms[a]) <= bestBits
      invariant forall a :: 0 <= a < bestIdx ==> DeliveredBits(arms[a]) < bestBits
    {
      var bits := DeliveredBits(arms[idx]);
      if bits > bestBits {
        bestIdx, bestBits := idx, bits;
      }
    }
    best := Some((bestIdx, bestBits));
  }
}
