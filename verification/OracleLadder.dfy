/** Frames on which the capped oracle is cut off while still improving. */
module OracleLadder {
  import opened Goodput
  import opened Oracle

  /** `b` to the power `k`. */
  function Pow(b: real, k: nat): (p: real)
    requires b >= 1.0
    ensures p >= 1.0
  {
    if k == 0 then 1.0 else
      MulMonotone(b, 1.0, Pow(b, k - 1));
      b * Pow(b, k - 1)
  }

  function RungAir(n: nat, i: nat): (air: real)
    requires i < n
    ensures air >= 1.0
  {
    Pow((n + 1) as real, n - 1 - i)
  }

  /** One frame of `n` candidates, each rung one bit poorer and `n + 1` times
      cheaper than the one before. */
  function Ladder(n: nat): (frame: Frame)
    ensures |frame| == n
  {
    seq(n, j requires 0 <= j < n => FrameSlot(0, n - j, RungAir(n, j), true))
  }

  function Rung(n: nat, i: nat): (price: real)
    requires i < n
    ensures price > 0.0
  {
    QuotientPositive((n - i) as real, RungAir(n, i));
    (n - i) as real / RungAir(n, i)
  }

  lemma QuotientPositive(x: real, y: real)
    requires x > 0.0 && y > 0.0
    ensures x / y > 0.0
  {
  }

  lemma GoodputOfOne(s: FrameSlot)
    requires s.airtime > 0.0
    ensures TotalAirtime([s]) > 0.0 && GoodputBps([s]) == s.Bits() as real / s.airtime
  {
    TotalsOfOne(s);
  }

  lemma LadderPick(n: nat, i: nat)
    requires i < n
    ensures Picked([Ladder(n)], [i]) == [Ladder(n)[i]]
    ensures GoodputBps(Picked([Ladder(n)], [i])) == Rung(n, i)
    ensures TotalAirtime(Picked([Ladder(n)], [i])) > 0.0
  {
    hide TotalAirtime, DeliveredBits, GoodputBps, RungAir;
    assert [Ladder(n)][..0] == [] && [i][..0] == [];
    assert Picked([Ladder(n)], [i]) == [Ladder(n)[i]];
    GoodputOfOne(Ladder(n)[i]);
  }

  lemma RungAirStep(n: nat, i: nat)
    requires i + 1 < n
    ensures RungAir(n, i) == (n + 1) as real * RungAir(n, i + 1)
  {
  }

  lemma {:induction false} RungsFall(n: nat, i: nat, j: nat)
    requires i < j < n
    ensures RungAir(n, i) >= (n + 1) as real * RungAir(n, j)
    decreases j - i
  {
    hide RungAir;
    RungAirStep(n, i);
    if i + 1 < j {
      RungsFall(n, i + 1, j);
      MulMonotone((n + 1) as real, 1.0, RungAir(n, j));
      MulMonotone(RungAir(n, i + 1), 1.0, (n + 1) as real);
    }
  }

  /** The price rung `i` achieves, times its airtime, is its bits. */
  lemma RungPrice(n: nat, i: nat)
    requires i < n
    ensures AirCost(Rung(n, i), RungAir(n, i)) == (n - i) as real
  {
  }

  lemma DearerRung(n: nat, i: nat, j: nat)
    requires j < i < n
    ensures AirCost(Rung(n, i), RungAir(n, j)) >= (n + 1) as real
  {
    hide RungAir, Rung, AirCost;
    RungPrice(n, i);
    RungsFall(n, j, i);
    PriceOfDearer((n + 1) as real, (n - i) as real, Rung(n, i), RungAir(n, i), RungAir(n, j));
  }

  lemma NextRung(n: nat, i: nat)
    requires i + 1 < n
    ensures AirCost(Rung(n, i), RungAir(n, i + 1)) < 1.0
  {
    hide RungAir, Rung, AirCost;
    RungPrice(n, i);
    RungAirStep(n, i);
    PriceOfCheaper((n + 1) as real, (n - i) as real, Rung(n, i), RungAir(n, i), RungAir(n, i + 1));
  }

  lemma ScoreOfRung(n: nat, j: nat, price: real)
    requires j < n
    ensures Ladder(n)[j].Score(price) == (n - j) as real - AirCost(price, RungAir(n, j))
  {
  }

  /** The worth of rung `j` at the price rung `i` achieves. */
  lemma RungScore(n: nat, i: nat, j: nat)
    requires i + 1 < n && j < n
    ensures j <= i ==> Ladder(n)[j].Score(Rung(n, i)) <= 0.0
    ensures j == i + 1 ==> Ladder(n)[j].Score(Rung(n, i)) > (n - i - 2) as real
    ensures j >= i + 2 ==> Ladder(n)[j].Score(Rung(n, i)) <= (n - i - 2) as real
  {
    hide RungAir, Rung, Ladder, AirCost;
    ScoreOfRung(n, j, Rung(n, i));
    if j < i {
      DearerRung(n, i, j);
    } else if j == i {
      RungPrice(n, i);
    } else if j == i + 1 {
      NextRung(n, i);
    } else {
      PositiveProduct(Rung(n, i), RungAir(n, j));
    }
  }

  lemma PositiveProduct(x: real, y: real)
    requires x > 0.0 && y > 0.0
    ensures AirCost(x, y) > 0.0
  {
  }

  lemma PriceOfDearer(k: real, bits: real, price: real, air: real, other: real)
    requires bits >= 1.0 && k >= 1.0 && price > 0.0 && AirCost(price, air) == bits && other >= k * air
    ensures AirCost(price, other) >= k
  {
    MulMonotone(price, k * air, other);
    assert price * (k * air) == k * (price * air);
    MulMonotone(k, 1.0, bits);
  }

  lemma PriceOfCheaper(k: real, bits: real, price: real, air: real, other: real)
    requires 0.0 < k && bits < k && AirCost(price, air) == bits && air == k * other
    ensures AirCost(price, other) < 1.0
  {
    var x := price * other;
    assert k * x == price * (k * other);
    assert k * (x - 1.0) == k * x - k;
    NegativeFactor(k, x - 1.0);
  }

  lemma LadderRound(n: nat, i: nat)
    requires i + 1 < n
    ensures Round([Ladder(n)], Rung(n, i)) == [i + 1]
    ensures Rung(n, i + 1) > Rung(n, i)
  {
    hide RungAir, Rung, AirCost;
    var picks := Round([Ladder(n)], Rung(n, i));
    assert IsArgmax([Ladder(n)][0], Rung(n, i), picks[0]);
    RungScore(n, i, picks[0]);
    RungScore(n, i, i + 1);
    assert Ladder(n)[i + 1].Score(Rung(n, i)) <= Ladder(n)[picks[0]].Score(Rung(n, i));
    NextRungPaysMore(n, i);
  }

  lemma NextRungPaysMore(n: nat, i: nat)
    requires i + 1 < n
    ensures Rung(n, i + 1) > Rung(n, i)
  {
    RungScore(n, i, i + 1);
    ScoreOfRung(n, i + 1, Rung(n, i));
    RatioVersusPrice((n - i - 1) as real, RungAir(n, i + 1), Rung(n, i));
  }

  lemma {:induction false} LadderIterates(n: nat, i: nat, rounds: nat)
    requires i + rounds < n
    ensures Iterate([Ladder(n)], Rung(n, i), [i], rounds) == (Rung(n, i + rounds), [i + rounds])
    decreases rounds
  {
    hide Picked, TotalAirtime, DeliveredBits, GoodputBps, Rung, Round, Ladder;
    if rounds > 0 {
      LadderRound(n, i);
      LadderPick(n, i + 1);
      LadderIterates(n, i + 1, rounds - 1);
    }
  }

  /** No fixed cap suffices: on a ladder with more candidates than the cap, the
      capped iteration is still climbing when it is cut off. */
  lemma CapTooSmall(n: nat, rounds: nat)
    requires 1 <= rounds < n
    ensures AirtimesPositive([Ladder(n)])
    ensures OracleAfter([Ladder(n)], rounds) == (Rung(n, rounds - 1), [rounds - 1])
    ensures !Optimal([Ladder(n)], Rung(n, rounds - 1), [rounds - 1])
  {
    hide Picked, TotalAirtime, DeliveredBits, Rung, Round, Ladder, Iterate, GoodputBps;
    var frames := [Ladder(n)];
    LadderAirtimes(n);
    LadderStart(n);
    LadderIterates(n, 0, rounds - 1);
    assert IsChoice(frames, [rounds]) && GoodputBps(Picked(frames, [rounds])) > Rung(n, rounds - 1) by {
      LadderRound(n, rounds - 1);
      LadderPick(n, rounds);
    }
  }

  lemma LadderAirtimes(n: nat)
    ensures AirtimesPositive([Ladder(n)])
  {
    hide RungAir;
  }

  lemma LadderStart(n: nat)
    requires n >= 1
    ensures FirstOfEach([Ladder(n)]) == [0] && Round([Ladder(n)], 0.0) == [0]
    ensures forall r: nat :: r >= 1 ==> OracleAfter([Ladder(n)], r) == Iterate([Ladder(n)], Rung(n, 0), [0], r - 1)
  {
    hide Picked, TotalAirtime, DeliveredBits, GoodputBps, Rung, RungAir;
    var frames := [Ladder(n)];
    var picks := Round(frames, 0.0);
    assert IsArgmax(frames[0], 0.0, picks[0]);
    assert Ladder(n)[0].Score(0.0) <= Ladder(n)[picks[0]].Score(0.0);
    assert picks == [0];
    LadderPick(n, 0);
  }

  lemma LadderSpare(n: nat)
    requires n >= 1
    ensures Spare([Ladder(n)]) == n - 1
  {
    hide Ladder;
    assert [Ladder(n)][..0] == [];
  }

  /** One round more than the spare candidates is what a ladder takes, no less: the
      bound of `OptimalAfterEnoughRounds` is exact. */
  lemma LadderNeedsEveryRound(n: nat, rounds: nat)
    requires n >= 1 && rounds >= 1
    ensures var (g, c) := OracleAfter([Ladder(n)], rounds);
            Optimal([Ladder(n)], g, c) <==> rounds >= Spare([Ladder(n)]) + 1
  {
    hide Ladder, Optimal, OracleAfter, Spare, Rung;
    LadderSpare(n);
    LadderAirtimes(n);
    if rounds < n {
      CapTooSmall(n, rounds);
    } else {
      OptimalAfterEnoughRounds([Ladder(n)], rounds);
    }
  }

  /** The cap of 64 on a frame of 66 candidates: the oracle reports 3/4489 bit/s
      where 1 bit/s is available. */
  lemma CapOf64Understates()
    ensures OracleAfter([Ladder(66)], MAX_ITERS) == (3.0 / 4489.0, [63])
    ensures IsChoice([Ladder(66)], [65]) && GoodputBps(Picked([Ladder(66)], [65])) == 1.0
  {
    hide Picked, TotalAirtime, DeliveredBits, GoodputBps, Ladder, Iterate;
    CapTooSmall(66, 64);
    assert RungAir(66, 65) == 1.0;
    assert RungAir(66, 64) == 67.0;
    assert RungAir(66, 63) == 4489.0;
    LadderPick(66, 65);
  }
}
