/** The oracle against fixed arms and against wider candidate lists, and its
    airtime-blind counterpart. */
module OracleArms {
  import opened Goodput
  import opened Oracle

  /** `frames[f]` holds what every arm did on frame `f`. */
  function Transpose(arms: seq<seq<FrameSlot>>, n: nat): (frames: seq<Frame>)
    requires forall a :: 0 <= a < |arms| ==> |arms[a]| == n
    ensures |frames| == n && forall f :: 0 <= f < n ==> |frames[f]| == |arms|
  {
    seq(n, f requires 0 <= f < n => seq(|arms|, a requires 0 <= a < |arms| => arms[a][f]))
  }

  /** Staying with arm `a` on every frame transmits exactly arm `a`. */
  lemma {:induction false} FixedArmIsAChoice(arms: seq<seq<FrameSlot>>, n: nat, a: nat, k: nat)
    requires (forall i :: 0 <= i < |arms| ==> |arms[i]| == n) && a < |arms| && k <= n
    ensures Picked(Transpose(arms, n)[..k], seq(n, _ => a)[..k]) == arms[a][..k]
  {
    if k > 0 {
      FixedArmIsAChoice(arms, n, a, k - 1);
      var frames, c := Transpose(arms, n)[..k], seq(n, _ => a)[..k];
      assert frames[..k - 1] == Transpose(arms, n)[..k - 1] && c[..k - 1] == seq(n, _ => a)[..k - 1];
      assert PickedOn(frames[k - 1], c[k - 1]) == [arms[a][k - 1]];
    }
  }

  /** The optimum of the transposed matrix is never below any fixed arm. */
  lemma OracleDominatesArms(arms: seq<seq<FrameSlot>>, n: nat, goodput: real, choices: seq<nat>, a: nat)
    requires (forall i :: 0 <= i < |arms| ==> |arms[i]| == n) && a < |arms|
    requires Optimal(Transpose(arms, n), goodput, choices)
    ensures GoodputBps(arms[a]) <= goodput
  {
    hide GoodputBps, Picked;
    var frames, c := Transpose(arms, n), seq(n, _ => a);
    FixedArmIsAChoice(arms, n, a, n);
    assert frames[..n] == frames && c[..n] == c && arms[a][..n] == arms[a];
    assert IsChoice(frames, c);
  }

  /** The capped oracle is never below a fixed arm when the cap exceeds the spare
      candidates, or the prices at which some frame can move to cheaper air. */
  lemma CappedOracleDominatesArms(arms: seq<seq<FrameSlot>>, n: nat, rates: seq<real>, a: nat)
    requires (forall i :: 0 <= i < |arms| ==> |arms[i]| == n) && a < |arms|
    requires var frames := Transpose(arms, n);
             AirtimesPositive(frames) && (Spare(frames) < MAX_ITERS || (Covers(frames, rates) && |rates| < MAX_ITERS))
    ensures GoodputBps(arms[a]) <= OracleAfter(Transpose(arms, n), MAX_ITERS).0
  {
    hide GoodputBps, Spare, Covers, AirtimesPositive, Transpose, OracleAfter, Optimal;
    var frames := Transpose(arms, n);
    CappedOracle(frames);
    OracleDominatesArms(arms, n, OracleAfter(frames, MAX_ITERS).0, OracleAfter(frames, MAX_ITERS).1, a);
  }

  /** Every candidate of a frame is still offered, and no empty frame gains any. */
  ghost predicate Widens(frames: seq<Frame>, wider: seq<Frame>) {
    && |wider| == |frames|
    && forall f :: 0 <= f < |frames| ==> frames[f] <= wider[f] && (frames[f] == [] ==> wider[f] == [])
  }

  lemma {:induction false} WiderFramesPickTheSame(frames: seq<Frame>, wider: seq<Frame>, c: seq<nat>)
    requires Widens(frames, wider) && IsChoice(frames, c)
    ensures Picked(wider, c) == Picked(frames, c)
  {
    if frames != [] {
      var n := |frames| - 1;
      WiderFramesPickTheSame(frames[..n], wider[..n], c[..n]);
    }
  }

  /** More candidates never lower the optimum. */
  lemma MoreCandidatesNeverHurt(frames: seq<Frame>, wider: seq<Frame>, g: real, c: seq<nat>, g': real, c': seq<nat>)
    requires Widens(frames, wider) && Optimal(frames, g, c) && Optimal(wider, g', c')
    ensures g <= g'
  {
    hide GoodputBps, Picked;
    WiderFramesPickTheSame(frames, wider, c);
    assert IsChoice(wider, c);
  }

  /** Every candidate of a frame is still offered. */
  ghost predicate Extends(frames: seq<Frame>, wider: seq<Frame>) {
    |wider| == |frames| && forall f :: 0 <= f < |frames| ==> frames[f] <= wider[f]
  }

  /** The most a frame can be worth at `price`, 0 without candidates. */
  function BestScore(frame: Frame, price: real): (best: real)
    ensures forall k :: 0 <= k < |frame| ==> frame[k].Score(price) <= best
    ensures frame != [] ==> exists k :: 0 <= k < |frame| && frame[k].Score(price) == best
  {
    if frame == [] then 0.0 else frame[Argmax(frame, price)].Score(price)
  }

  /** What the frames gain in worth at `price` by being offered more. */
  function Gain(frames: seq<Frame>, wider: seq<Frame>, price: real): real
    requires |wider| == |frames|
  {
    if frames == [] then 0.0
    else
      var n := |frames| - 1;
      Gain(frames[..n], wider[..n], price) + (BestScore(wider[n], price) - BestScore(frames[n], price))
  }

  lemma ArgmaxScore(frame: Frame, price: real, idx: nat)
    requires IsArgmax(frame, price, idx)
    ensures Worth(PickedOn(frame, idx), price) == BestScore(frame, price)
  {
    WorthPicked(frame, idx, price);
    hide FrameSlot.Score, Worth;
    if frame != [] {
      ArgmaxIsUnique(frame, price, idx, Argmax(frame, price));
    }
  }

  lemma {:induction false} WorthGains(frames: seq<Frame>, wider: seq<Frame>, price: real, p: seq<nat>, q: seq<nat>)
    requires |wider| == |frames| == |p| == |q|
    requires forall f :: 0 <= f < |frames| ==> IsArgmax(frames[f], price, p[f]) && IsArgmax(wider[f], price, q[f])
    ensures Worth(Picked(wider, q), price) == Worth(Picked(frames, p), price) + Gain(frames, wider, price)
  {
    hide Worth, BestScore, IsArgmax, PickedOn;
    if frames == [] {
      assert Picked(frames, p) == Picked(wider, q);
    } else {
      var n := |frames| - 1;
      WorthGains(frames[..n], wider[..n], price, p[..n], q[..n]);
      WorthAppend(Picked(frames[..n], p[..n]), PickedOn(frames[n], p[n]), price);
      WorthAppend(Picked(wider[..n], q[..n]), PickedOn(wider[n], q[n]), price);
      ArgmaxScore(frames[n], price, p[n]);
      ArgmaxScore(wider[n], price, q[n]);
    }
  }

  /** A price is within the optimum exactly when a round at it is not worth less
      than nothing. */
  lemma WithinOptimumIff(frames: seq<Frame>, g: real, c: seq<nat>, price: real)
    requires AirtimesPositive(frames) && Optimal(frames, g, c) && TotalAirtime(Picked(frames, c)) > 0.0
    ensures price <= g <==> Worth(Picked(frames, Round(frames, price)), price) >= 0.0
  {
    hide Picked, TotalAirtime, DeliveredBits, Round, AirtimesPositive;
    var picks := Round(frames, price);
    SomeAirOrNone(frames, c, picks);
    RoundIsBest(frames, price, picks, c);
    hide IsArgmax;
    RatioAgainst(DeliveredBits(Picked(frames, c)) as real, TotalAirtime(Picked(frames, c)), price);
    RatioAgainst(DeliveredBits(Picked(frames, picks)) as real, TotalAirtime(Picked(frames, picks)), price);
    assert GoodputBps(Picked(frames, picks)) <= g;
  }

  /** At the optimum itself a round is worth exactly nothing. */
  lemma WorthAtOptimum(frames: seq<Frame>, g: real, c: seq<nat>)
    requires AirtimesPositive(frames) && Optimal(frames, g, c) && TotalAirtime(Picked(frames, c)) > 0.0
    ensures Worth(Picked(frames, Round(frames, g)), g) == 0.0
  {
    hide Picked, TotalAirtime, DeliveredBits, Round, AirtimesPositive;
    var picks := Round(frames, g);
    WithinOptimumIff(frames, g, c, g);
    SomeAirOrNone(frames, c, picks);
    GoodputVersusPrice(Picked(frames, picks), g);
  }

  /** A run that spends no air is worth nothing and delivers nothing. */
  lemma NoAir(frames: seq<Frame>, c: seq<nat>, d: seq<nat>, price: real)
    requires AirtimesPositive(frames) && IsChoice(frames, c) && IsChoice(frames, d)
    requires TotalAirtime(Picked(frames, c)) <= 0.0
    ensures GoodputBps(Picked(frames, c)) == 0.0 && Worth(Picked(frames, d), price) == 0.0
  {
    AirtimeSign(frames, c);
    AirtimeSign(frames, d);
    EmptyPicks(frames, c, d);
  }

  lemma {:induction false} ExtendedAir(frames: seq<Frame>, wider: seq<Frame>, c: seq<nat>, d: seq<nat>)
    requires Extends(frames, wider) && IsChoice(frames, c) && IsChoice(wider, d)
    ensures Picked(wider, d) == [] ==> Picked(frames, c) == []
  {
    if frames != [] {
      var n := |frames| - 1;
      ExtendedAir(frames[..n], wider[..n], c[..n], d[..n]);
    }
  }

  /** More candidates, on frames that had some or on frames that had none, do not
      lower the optimum exactly when at the old optimum they gain worth or lose none. */
  lemma MoreCandidatesHelpIff(frames: seq<Frame>, wider: seq<Frame>, g: real, c: seq<nat>, g': real, c': seq<nat>)
    requires Extends(frames, wider) && AirtimesPositive(wider) && Optimal(frames, g, c) && Optimal(wider, g', c')
    ensures g <= g' <==> Gain(frames, wider, g) >= 0.0
  {
    assert AirtimesPositive(frames) by {
      assert forall f, k :: 0 <= f < |frames| && 0 <= k < |frames[f]| ==> frames[f][k] == wider[f][k];
    }
    WorthGains(frames, wider, g, Round(frames, g), Round(wider, g));
    AirtimeSign(wider, c');
    AirtimeSign(frames, c);
    ExtendedAir(frames, wider, c, c');
    hide Picked, TotalAirtime, DeliveredBits, Round, AirtimesPositive, Gain, Worth, IsArgmax, GoodputBps, Extends;
    GoodputNonNegative(Picked(wider, c'));
    if TotalAirtime(Picked(frames, c)) > 0.0 {
      WorthAtOptimum(frames, g, c);
    } else {
      NoAir(frames, c, Round(frames, g), g);
    }
    if TotalAirtime(Picked(wider, c')) > 0.0 {
      WithinOptimumIff(wider, g', c', g);
    } else {
      NoAir(wider, c', Round(wider, g), g);
    }
  }

  /** Some candidate is worth its air at `price`. */
  ghost predicate Pays(candidates: Frame, price: real) {
    exists k :: 0 <= k < |candidates| && candidates[k].Score(price) >= 0.0
  }

  lemma {:induction false} GainOfOne(frames: seq<Frame>, f: nat, candidates: Frame, price: real, n: nat)
    requires f < |frames| && n <= |frames|
    ensures var wider := frames[f := candidates];
            Gain(frames[..n], wider[..n], price)
            == if f < n then BestScore(candidates, price) - BestScore(frames[f], price) else 0.0
  {
    hide BestScore;
    if n > 0 {
      GainOfOne(frames, f, candidates, price, n - 1);
      var wider := frames[f := candidates];
      assert frames[..n][..n - 1] == frames[..n - 1] && wider[..n][..n - 1] == wider[..n - 1];
    }
  }

  /** Giving candidates to a frame that had none, and so now has to spend air, does
      not lower the optimum exactly when one of them pays for its air at that price. */
  lemma FillingAnEmptyFrameHelpsIff(frames: seq<Frame>, f: nat, candidates: Frame, g: real, c: seq<nat>, g': real, c': seq<nat>)
    requires f < |frames| && frames[f] == [] && candidates != [] && AirtimesPositive(frames[f := candidates])
    requires Optimal(frames, g, c) && Optimal(frames[f := candidates], g', c')
    ensures g <= g' <==> Pays(candidates, g)
  {
    hide Gain, Optimal, AirtimesPositive, FrameSlot.Score;
    var wider := frames[f := candidates];
    MoreCandidatesHelpIff(frames, wider, g, c, g', c');
    GainOfOne(frames, f, candidates, g, |frames|);
    assert frames[..|frames|] == frames && wider[..|frames|] == wider;
  }

  /** It can lower the optimum: a frame on which the only candidate fails. */
  lemma FillingAnEmptyFrameCanHurt()
    ensures var slot, dead := FrameSlot(1, 2, 1.0, true), FrameSlot(1, 2, 1.0, false);
            && Optimal([[slot], []], 2.0, [0, 0]) && !Pays([dead], 2.0)
            && Optimal([[slot], [dead]], 1.0, [0, 0])
  {
    var slot, dead := FrameSlot(1, 2, 1.0, true), FrameSlot(1, 2, 1.0, false);
    TotalsOfOne(slot);
    TotalsOfOne(dead);
    TotalsAppend([slot], [dead]);
    hide DeliveredBits, TotalAirtime, Picked, PickedOn;
    SoleChoice([slot], []);
    SoleChoice([slot], [dead]);
    assert [[slot], []][1 := [dead]] == [[slot], [dead]];
    hide GoodputBps, Optimal, Pays, IsChoice;
    FillingAnEmptyFrameHelpsIff([[slot], []], 1, [dead], 2.0, [0, 0], 1.0, [0, 0]);
  }

  /** Two frames with at most one candidate each leave no choice. */
  lemma SoleChoice(first: Frame, second: Frame)
    requires |first| <= 1 && |second| <= 1
    ensures Optimal([first, second], GoodputBps(first + second), [0, 0])
  {
    hide GoodputBps;
    var frames := [first, second];
    assert IsChoice(frames, [0, 0]);
    forall c | IsChoice(frames, c)
      ensures Picked(frames, c) == first + second
    {
      assert (first != [] ==> c[0] < 1) && (second != [] ==> c[1] < 1) by {
        assert frames[0] == first && frames[1] == second;
      }
      PickedOnTwo(first, second, c);
    }
  }

  lemma PickedOnTwo(first: Frame, second: Frame, c: seq<nat>)
    requires |c| == 2
    ensures Picked([first, second], c) == PickedOn(first, c[0]) + PickedOn(second, c[1])
  {
    var frames := [first, second];
    assert frames[..1] == [first] && frames[..1][..0] == [];
    assert Picked(frames[..1], c[..1]) == Picked(frames[..1][..0], c[..1][..0]) + PickedOn(first, c[0]);
  }

  /** The most bits any cell delivered on one frame, 0 when none did. */
  function MostBits(frame: Frame): (bits: nat)
    ensures forall k :: 0 <= k < |frame| && frame[k].delivered ==> frame[k].infoBits <= bits
    ensures bits == 0 || exists k :: 0 <= k < |frame| && frame[k].delivered && frame[k].infoBits == bits
  {
    if frame == [] then 0
    else
      var n := |frame| - 1;
      var rest := MostBits(frame[..n]);
      assert rest == 0 || exists k :: 0 <= k < n && frame[k].Bits() == rest by {
        if rest != 0 {
          var k :| 0 <= k < n && frame[..n][k].Bits() == rest;
          assert frame[k].Bits() == rest;
        }
      }
      assert forall k :: 0 <= k < n ==> frame[k] == frame[..n][k];
      if frame[n].Bits() > rest then frame[n].Bits() else rest
  }

  /** The airtime-blind oracle. */
  function OracleBits(frames: seq<Frame>): nat {
    if frames == [] then 0 else OracleBits(frames[..|frames| - 1]) + MostBits(frames[|frames| - 1])
  }

  /** The airtime-blind oracle bounds the bits of every choice. */
  lemma {:induction false} OracleBitsDominates(frames: seq<Frame>, c: seq<nat>)
    requires |c| == |frames|
    ensures ChosenBits(frames, c) == DeliveredBits(Picked(frames, c)) <= OracleBits(frames)
  {
    PickedTotals(frames, c);
    if frames != [] {
      var n := |frames| - 1;
      OracleBitsDominates(frames[..n], c[..n]);
    }
  }

  lemma AppendPick(frames: seq<Frame>, prefix: seq<nat>, k: nat)
    requires |frames| == |prefix| + 1 && IsChoice(frames[..|prefix|], prefix)
    requires frames[|prefix|] != [] ==> k < |frames[|prefix|]|
    ensures IsChoice(frames, prefix + [k])
    ensures DeliveredBits(Picked(frames, prefix + [k])) == DeliveredBits(Picked(frames[..|prefix|], prefix))
              + (if k < |frames[|prefix|]| then frames[|prefix|][k].Bits() else 0)
  {
    hide DeliveredBits, TotalAirtime, Picked;
    var n, c := |prefix|, prefix + [k];
    assert c[..n] == prefix && c[..n + 1] == c && frames[..n + 1] == frames;
    assert forall f :: 0 <= f < n ==> frames[..n][f] == frames[f] && c[f] == prefix[f];
    PickedGrows(frames, c, n);
  }

  lemma NoFramesNoBits()
    ensures DeliveredBits(Picked([], [])) == 0
  {
  }

  /** Some choice attains it. */
  lemma {:induction false} OracleBitsAttained(frames: seq<Frame>) returns (c: seq<nat>)
    ensures IsChoice(frames, c) && ChosenBits(frames, c) == DeliveredBits(Picked(frames, c)) == OracleBits(frames)
  {
    hide DeliveredBits, Picked, ChosenBits;
    c := [];
    if frames == [] {
      NoFramesNoBits();
    } else {
      var n := |frames| - 1;
      var prefix := OracleBitsAttained(frames[..n]);
      var k := 0;
      if MostBits(frames[n]) != 0 {
        k :| 0 <= k < |frames[n]| && frames[n][k].Bits() == MostBits(frames[n]);
      }
      c := prefix + [k];
      AppendPick(frames, prefix, k);
    }
    PickedTotals(frames, c);
  }

  lemma OracleBitsDominatesArms(arms: seq<seq<FrameSlot>>, n: nat, a: nat)
    requires (forall i :: 0 <= i < |arms| ==> |arms[i]| == n) && a < |arms|
    ensures DeliveredBits(arms[a]) <= OracleBits(Transpose(arms, n))
  {
    var frames, c := Transpose(arms, n), seq(n, _ => a);
    FixedArmIsAChoice(arms, n, a, n);
    assert frames[..n] == frames && c[..n] == c && arms[a][..n] == arms[a];
    OracleBitsDominates(frames, c);
  }
}
