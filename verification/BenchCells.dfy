/** The comparator cells the closed-loop bench offers the oracle: the nine speed
    levels on the long cyclic prefix, alone or followed by the nine on the short. */
module BenchCells {
  import opened Wrappers
  import opened Goodput
  import opened Oracle
  import opened OracleArms
  import opened ClosedLoop

  const HF_STANDARD: ProfilePair := ProfilePair(Profile(300, 1, 44), Profile(144, 4, 44))
  const HF_ROBUST: ProfilePair := ProfilePair(Profile(300, 3, 36), Profile(144, 5, 36))

  /** Constellation bits per symbol, by speed level. */
  function BitsPerSymbol(level: nat): Option<nat> {
    if level == 1 || level == 2 then Some(1)
    else if level == 3 || level == 4 then Some(2)
    else if level == 5 then Some(3)
    else if level == 6 || level == 7 then Some(4)
    else if level == 8 || level == 9 then Some(6)
    else None
  }

  /** Information bits of a coded block, its checksum included, by speed level. */
  function UsedBits(level: nat): Option<nat> {
    if level == 1 then Some(486)
    else if level == 2 || level == 3 || level == 6 then Some(972)
    else if level == 4 || level == 7 then Some(1458)
    else if level == 5 || level == 8 then Some(1296)
    else if level == 9 then Some(1620)
    else None
  }

  function CeilDiv(a: nat, b: nat): nat
    requires b > 0
  {
    (a + b - 1) / b
  }

  /** Symbols of one frame: preamble and probe, header, then the coded block. */
  function FrameSymbols(bitsPerSymbol: nat, carriers: nat): nat
    requires bitsPerSymbol > 0 && carriers > 0
  {
    3 + CeilDiv(144, carriers) + CeilDiv(CeilDiv(1944, bitsPerSymbol), carriers)
  }

  lemma CeilDivIs(a: nat, b: nat)
    requires b > 0
    ensures CeilDiv(a, b) * b >= a && CeilDiv(a, b) * b < a + b
  {
  }

  /** Three symbols of preamble, and as many as it takes for the 144 bits of header
      and for the constellation points of the 1944 coded bits. */
  lemma FrameSymbolsHold(bitsPerSymbol: nat, carriers: nat) returns (header: nat, points: nat, payload: nat)
    requires bitsPerSymbol > 0 && carriers > 0
    ensures FrameSymbols(bitsPerSymbol, carriers) == 3 + header + payload
    ensures 144 <= header * carriers < 144 + carriers
    ensures 1944 <= points * bitsPerSymbol < 1944 + bitsPerSymbol
    ensures points <= payload * carriers < points + carriers
  {
    header, points := CeilDiv(144, carriers), CeilDiv(1944, bitsPerSymbol);
    payload := CeilDiv(points, carriers);
    CeilDivIs(144, carriers);
    CeilDivIs(1944, bitsPerSymbol);
    CeilDivIs(points, carriers);
    hide CeilDiv;
  }

  /** Airtime of one frame in samples of the 48 kHz clock. */
  function FrameTicks(bitsPerSymbol: nat, profile: Profile): nat
    requires bitsPerSymbol > 0 && profile.dataCarriers > 0
  {
    FrameSymbols(bitsPerSymbol, profile.dataCarriers) * (960 + profile.cpSamples)
  }

  /** The slot of a frame sent at `level`; none for an invalid level or a profile
      without data carriers. */
  function ForLevel(level: nat, profile: Profile, delivered: bool): Option<FrameSlot> {
    if UsedBits(level).None? || BitsPerSymbol(level).None? || profile.dataCarriers == 0 then None
    else
      Some(FrameSlot(level, (UsedBits(level).value / 8 - 4) * 8,
                     FrameTicks(BitsPerSymbol(level).value, profile) as real / 48_000.0, delivered))
  }

  /** A slot is refused exactly for a level outside 1 to 9, or without data carriers. */
  lemma NoSlotIff(level: nat, profile: Profile, delivered: bool)
    ensures ForLevel(level, profile, delivered).None? <==> level < 1 || level > 9 || profile.dataCarriers == 0
    ensures ForLevel(level, profile, delivered).Some? ==>
              var slot := ForLevel(level, profile, delivered).value;
              slot.level == level && slot.delivered == delivered
  {
  }

  function CellLevel(i: nat): nat {
    if i < 9 then i + 1 else i - 8
  }

  function CellProfile(pair: ProfilePair, i: nat): Profile {
    if i < 9 then pair.long else pair.short
  }

  /** What the cells did on one frame: nine of them, or all eighteen. */
  ghost predicate IsCellFrame(pair: ProfilePair, frame: Frame) {
    && (|frame| == 9 || |frame| == 18)
    && forall i :: 0 <= i < |frame| ==>
         Some(frame[i]) == ForLevel(CellLevel(i), CellProfile(pair, i), frame[i].delivered)
  }

  // ----------------------------------------------------- bits and air per cell

  function CellBits(i: nat): nat
    requires i < 18
  {
    [448, 936, 936, 1424, 1264, 936, 1424, 1264, 1584][CellLevel(i) - 1]
  }

  function CellTicks(pair: ProfilePair, i: nat): nat
    requires i < 18
  {
    (if pair == HF_STANDARD then [52, 52, 30, 30, 22, 19, 19, 15, 15] else [61, 61, 34, 34, 25, 21, 21, 16, 16])[CellLevel(i) - 1]
    * if i < 9 then 1260 else 1104
  }

  /** Seconds of air of cell `i`. */
  function CellAir(pair: ProfilePair, i: nat): real
    requires i < 18
  {
    CellTicks(pair, i) as real / 48_000.0
  }

  lemma CellTables(pair: ProfilePair, i: nat, delivered: bool)
    requires (pair == HF_STANDARD || pair == HF_ROBUST) && i < 18
    ensures ForLevel(CellLevel(i), CellProfile(pair, i), delivered) ==
            Some(FrameSlot(CellLevel(i), CellBits(i), CellTicks(pair, i) as real / 48_000.0, delivered))
    ensures CellTicks(pair, i) > 0
  {
    SymbolTables();
    hide FrameSymbols;
    var level := CellLevel(i);
    assert level == 1 || level == 2 || level == 3 || level == 4 || level == 5 || level == 6 || level == 7 || level == 8 || level == 9;
  }

  lemma SymbolTables()
    ensures FrameSymbols(1, 44) == 52 && FrameSymbols(2, 44) == 30 && FrameSymbols(3, 44) == 22
    ensures FrameSymbols(4, 44) == 19 && FrameSymbols(6, 44) == 15
    ensures FrameSymbols(1, 36) == 61 && FrameSymbols(2, 36) == 34 && FrameSymbols(3, 36) == 25
    ensures FrameSymbols(4, 36) == 21 && FrameSymbols(6, 36) == 16
  {
  }

  /** The pairs of cells of which the first carries more bits at more air. */
  const DEARER: seq<(nat, nat)> := [
    (1, 9), (3, 4), (3, 5), (3, 7), (3, 11), (3, 13), (3, 14), (3, 16), (4, 5), (4, 14), (6, 7), (6, 14),
    (6, 16), (8, 16), (12, 4), (12, 5), (12, 7), (12, 13), (12, 14), (12, 16), (13, 5), (13, 14), (15, 7), (15, 16)]

  lemma DearerIsListed(pair: ProfilePair, i: nat, j: nat)
    requires (pair == HF_STANDARD || pair == HF_ROBUST) && i < 18 && j < 18
    requires CellBits(j) < CellBits(i) && CellTicks(pair, j) < CellTicks(pair, i)
    ensures (i, j) in DEARER
  {
  }

  // ------------------------------------------------------------------- rates

  /** Bits gained per second of air between two cells, 0 where none is lost. */
  function CellRate(pair: ProfilePair, bits: int, i: nat, j: nat): real
    requires i < 18 && j < 18
  {
    if CellTicks(pair, i) <= CellTicks(pair, j) then 0.0
    else bits as real / ((CellTicks(pair, i) - CellTicks(pair, j)) as real / 48_000.0)
  }

  /** The rates at which a frame of cells can move to cheaper air: for nothing,
      from a delivered cell to the cheapest one, or between delivered cells. */
  function CellRates(pair: ProfilePair): (rates: seq<real>)
    ensures |rates| < MAX_ITERS
  {
    [0.0]
    + seq(18, i requires 0 <= i < 18 => CellRate(pair, CellBits(i), i, 17))
    + seq(9, i requires 0 <= i < 9 => CellRate(pair, CellBits(i), i, 8))
    + TradeRates(pair, DEARER)
  }

  function TradeRates(pair: ProfilePair, trades: seq<(nat, nat)>): (rates: seq<real>)
    ensures |rates| == |trades|
  {
    seq(|trades|, k requires 0 <= k < |trades| => TradeRate(pair, trades[k]))
  }

  function TradeRate(pair: ProfilePair, cells: (nat, nat)): real {
    if cells.0 < 18 && cells.1 < 18 then CellRate(pair, CellBits(cells.0) - CellBits(cells.1), cells.0, cells.1) else 0.0
  }

  lemma ListedRates(pair: ProfilePair, i: nat)
    requires i < 18
    ensures 0.0 in CellRates(pair)
    ensures CellRate(pair, CellBits(i), i, 17) in CellRates(pair)
    ensures i < 9 ==> CellRate(pair, CellBits(i), i, 8) in CellRates(pair)
  {
    hide CellRate, CellBits, TradeRates;
    var rates := CellRates(pair);
    assert rates[0] == 0.0 && rates[1 + i] == CellRate(pair, CellBits(i), i, 17);
    if i < 9 {
      assert rates[19 + i] == CellRate(pair, CellBits(i), i, 8);
    }
  }

  lemma ListedTrade(pair: ProfilePair, i: nat, j: nat)
    requires i < 18 && j < 18 && (i, j) in DEARER
    ensures CellRate(pair, CellBits(i) - CellBits(j), i, j) in CellRates(pair)
  {
    hide CellRate, CellBits;
    InTrades(pair, DEARER, i, j);
    hide TradeRates;
  }

  lemma InTrades(pair: ProfilePair, trades: seq<(nat, nat)>, i: nat, j: nat)
    requires i < 18 && j < 18 && (i, j) in trades
    ensures CellRate(pair, CellBits(i) - CellBits(j), i, j) in TradeRates(pair, trades)
  {
    hide CellRate, CellBits;
    var k :| 0 <= k < |trades| && trades[k] == (i, j);
    assert TradeRates(pair, trades)[k] == TradeRate(pair, trades[k]);
  }

  /** The last cell of a frame is among its cheapest. */
  lemma LastIsCheapest(pair: ProfilePair, i: nat)
    requires (pair == HF_STANDARD || pair == HF_ROBUST) && i < 18
    ensures CellAir(pair, 17) <= CellAir(pair, i)
    ensures i < 9 ==> CellAir(pair, 8) <= CellAir(pair, i)
  {
  }

  /** The slot of cell `i` of such a frame. */
  lemma SlotOf(pair: ProfilePair, frame: Frame, i: nat)
    requires (pair == HF_STANDARD || pair == HF_ROBUST) && IsCellFrame(pair, frame) && i < |frame|
    ensures frame[i].airtime == CellAir(pair, i) > 0.0
    ensures frame[i].Bits() == 0 || frame[i].Bits() == CellBits(i)
  {
    CellTables(pair, i, frame[i].delivered);
    hide CellTicks, CellBits, ForLevel;
  }

  lemma TieForNothing(pair: ProfilePair, price: real, air: real)
    requires price * air == 0.0 && air > 0.0
    ensures price in CellRates(pair)
  {
    ListedRates(pair, 0);
    hide CellRates;
    ZeroProduct(price, air);
  }

  lemma TieWithEmpty(pair: ProfilePair, last: nat, price: real, i: nat)
    requires (last == 8 || last == 17) && i <= last && CellAir(pair, last) < CellAir(pair, i)
    requires price * (CellAir(pair, i) - CellAir(pair, last)) == CellBits(i) as real
    ensures price in CellRates(pair)
  {
    ListedRates(pair, i);
    hide CellRates, CellRate, CellBits, CellAir;
    RateOf(pair, i, last, CellBits(i), price);
  }

  lemma TieOfCarriers(pair: ProfilePair, price: real, i: nat, j: nat)
    requires (pair == HF_STANDARD || pair == HF_ROBUST) && i < 18 && j < 18
    requires price >= 0.0 && CellAir(pair, j) < CellAir(pair, i) && CellBits(i) != CellBits(j)
    requires price * (CellAir(pair, i) - CellAir(pair, j)) == (CellBits(i) - CellBits(j)) as real
    ensures price in CellRates(pair)
  {
    hide CellRates, CellRate, CellAir, CellBits, CellTicks;
    LessBits(price, CellBits(i) as real, CellBits(j) as real, CellAir(pair, i), CellAir(pair, j));
    TicksLess(pair, i, j);
    DearerIsListed(pair, i, j);
    ListedTrade(pair, i, j);
    RateOf(pair, i, j, CellBits(i) - CellBits(j), price);
  }

  /** Every price at which a frame of cells ties is listed. */
  lemma TieIsListed(pair: ProfilePair, frame: Frame, price: real, i: nat, j: nat)
    requires (pair == HF_STANDARD || pair == HF_ROBUST) && IsCellFrame(pair, frame)
    requires price >= 0.0 && Tie(frame, price, i, j)
    ensures price in CellRates(pair)
  {
    hide CellRates, IsCellFrame, FrameSlot.Bits, CellTicks, CellBits, CellRate, CellAir;
    LastIs(pair, frame);
    var last := |frame| - 1;
    SlotOf(pair, frame, i);
    SlotOf(pair, frame, j);
    SlotOf(pair, frame, last);
    var bi, bj := frame[i].Bits(), frame[j].Bits();
    TieRate(price, bi as real, bj as real, frame[i].airtime, frame[j].airtime);
    if bi == bj {
      TieForNothing(pair, price, frame[i].airtime - frame[j].airtime);
    } else if bj == 0 {
      LastIsCheapest(pair, j);
      assert frame[last].Score(price) <= frame[j].Score(price);
      NoDearer(price, frame[last].Bits() as real, frame[last].airtime, frame[j].airtime);
      if price > 0.0 {
        TieWithEmpty(pair, last, price, i);
      } else {
        TieForNothing(pair, price, frame[i].airtime - frame[j].airtime);
      }
    } else if bi == 0 {
      LessBits(price, bi as real, bj as real, frame[i].airtime, frame[j].airtime);
    } else {
      TieOfCarriers(pair, price, i, j);
    }
  }

  lemma LastIs(pair: ProfilePair, frame: Frame)
    requires IsCellFrame(pair, frame)
    ensures |frame| == 9 || |frame| == 18
  {
  }

  lemma TicksLess(pair: ProfilePair, i: nat, j: nat)
    requires i < 18 && j < 18 && CellAir(pair, j) < CellAir(pair, i)
    ensures CellTicks(pair, j) < CellTicks(pair, i)
  {
    hide CellTicks;
  }

  lemma RateOf(pair: ProfilePair, i: nat, j: nat, bits: int, price: real)
    requires i < 18 && j < 18
    requires CellAir(pair, j) < CellAir(pair, i)
    requires price * (CellAir(pair, i) - CellAir(pair, j)) == bits as real
    ensures price == CellRate(pair, bits, i, j)
  {
    hide CellAir, CellRate, CellTicks;
    TicksLess(pair, i, j);
    TicksOfAir(pair, i);
    TicksOfAir(pair, j);
    QuotientOfTicks(price, bits as real, CellTicks(pair, i), CellTicks(pair, j));
    RateOfTicks(pair, i, j, bits);
  }

  lemma TicksOfAir(pair: ProfilePair, i: nat)
    requires i < 18
    ensures CellAir(pair, i) == CellTicks(pair, i) as real / 48_000.0
  {
  }

  lemma RateOfTicks(pair: ProfilePair, i: nat, j: nat, bits: int)
    requires i < 18 && j < 18 && CellTicks(pair, j) < CellTicks(pair, i)
    ensures CellRate(pair, bits, i, j) == bits as real / ((CellTicks(pair, i) - CellTicks(pair, j)) as real / 48_000.0)
  {
  }

  lemma QuotientOfTicks(price: real, bits: real, dear: nat, cheap: nat)
    requires dear > cheap && price * (dear as real / 48_000.0 - cheap as real / 48_000.0) == bits
    ensures price == bits / ((dear - cheap) as real / 48_000.0)
  {
    QuotientIs(price, bits, (dear - cheap) as real / 48_000.0, dear as real / 48_000.0 - cheap as real / 48_000.0);
  }

  lemma QuotientIs(price: real, bits: real, d: real, e: real)
    requires d == e > 0.0 && price * e == bits
    ensures price == bits / d
  {
  }

  lemma TieRate(price: real, bi: real, bj: real, ai: real, aj: real)
    requires bi - AirCost(price, ai) == bj - AirCost(price, aj)
    ensures price * (ai - aj) == bi - bj
  {
  }

  lemma ZeroProduct(price: real, d: real)
    requires price * d == 0.0 && d > 0.0
    ensures price == 0.0
  {
  }

  /** A cell that carries nothing is preferred at a price only where it is cheapest. */
  lemma NoDearer(price: real, bits: real, cheapest: real, air: real)
    requires price >= 0.0 && bits >= 0.0 && cheapest <= air
    requires bits - AirCost(price, cheapest) <= 0.0 - AirCost(price, air)
    ensures price == 0.0 || air == cheapest
  {
    assert price * (air - cheapest) <= 0.0;
  }

  lemma LessBits(price: real, bi: real, bj: real, ai: real, aj: real)
    requires price >= 0.0 && ai > aj && bi != bj && price * (ai - aj) == bi - bj
    ensures bj < bi
  {
    assert price * (ai - aj) >= 0.0;
  }

  lemma CellsCover(pair: ProfilePair, frames: seq<Frame>)
    requires pair == HF_STANDARD || pair == HF_ROBUST
    requires forall f :: 0 <= f < |frames| ==> IsCellFrame(pair, frames[f])
    ensures Covers(frames, CellRates(pair)) && AirtimesPositive(frames)
  {
    forall f, i, j, price: real | 0 <= f < |frames| && price >= 0.0 && Tie(frames[f], price, i, j)
      ensures price in CellRates(pair)
    {
      TieIsListed(pair, frames[f], price, i, j);
    }
    forall f, k | 0 <= f < |frames| && 0 <= k < |frames[f]|
      ensures frames[f][k].airtime > 0.0
    {
      SlotOf(pair, frames[f], k);
    }
  }

  /** On the bench's own cells the cap never bites: it returns the optimum over all
      choice functions, whatever was delivered and however long the run. */
  lemma BenchOracleIsOptimal(pair: ProfilePair, frames: seq<Frame>)
    requires pair == HF_STANDARD || pair == HF_ROBUST
    requires forall f :: 0 <= f < |frames| ==> IsCellFrame(pair, frames[f])
    ensures Optimal(frames, OracleAfter(frames, MAX_ITERS).0, OracleAfter(frames, MAX_ITERS).1)
  {
    hide IsCellFrame, CellRates, Covers, AirtimesPositive, OracleAfter, Optimal;
    CellsCover(pair, frames);
    OptimalWhenRatesAreFew(frames, CellRates(pair), MAX_ITERS);
  }

  /** `cells[a][f]` is what cell `a` did on frame `f` of an `n`-frame run. */
  ghost predicate AreCells(pair: ProfilePair, cells: seq<seq<FrameSlot>>, n: nat) {
    && (|cells| == 9 || |cells| == 18)
    && (forall a :: 0 <= a < |cells| ==> |cells[a]| == n)
    && forall a, f :: 0 <= a < |cells| && 0 <= f < n ==>
         Some(cells[a][f]) == ForLevel(CellLevel(a), CellProfile(pair, a), cells[a][f].delivered)
  }

  /** The oracle over a set of cells: optimal, and so above each of them. */
  method OracleOfCells(pair: ProfilePair, cells: seq<seq<FrameSlot>>, n: nat) returns (goodput: real, choices: seq<nat>)
    requires (pair == HF_STANDARD || pair == HF_ROBUST) && AreCells(pair, cells, n)
    ensures Optimal(Transpose(cells, n), goodput, choices)
    ensures forall a :: 0 <= a < |cells| ==> GoodputBps(cells[a]) <= goodput
  {
    var frames := Transpose(cells, n);
    forall f | 0 <= f < n
      ensures IsCellFrame(pair, frames[f])
    {
      CellsMakeFrame(pair, cells, n, f);
    }
    hide Transpose, Optimal, AreCells, GoodputBps, IsCellFrame, ForLevel, CellLevel, CellProfile;
    goodput, choices := OracleGoodputBps(frames);
    BenchOracleIsOptimal(pair, frames);
    forall a | 0 <= a < |cells|
      ensures GoodputBps(cells[a]) <= goodput
    {
      OracleDominatesArms(cells, n, goodput, choices, a);
    }
  }

  lemma CellsMakeFrame(pair: ProfilePair, cells: seq<seq<FrameSlot>>, n: nat, f: nat)
    requires AreCells(pair, cells, n) && f < n
    ensures IsCellFrame(pair, Transpose(cells, n)[f])
  {
    hide ForLevel, CellLevel, CellProfile;
  }

  /** One seed's comparators: the best cell and the oracle, over the nine long
      cells and over all eighteen. Both are in the order they have to be in. */
  method Comparators(pair: ProfilePair, cells: seq<seq<FrameSlot>>, n: nat)
    returns (bestLong: real, bestJoint: real, oracleLong: real, oracleJoint: real)
    requires (pair == HF_STANDARD || pair == HF_ROBUST) && AreCells(pair, cells, n) && |cells| == 18
    ensures exists a :: 0 <= a < 9 && bestLong == GoodputBps(cells[a])
    ensures forall a :: 0 <= a < 9 ==> GoodputBps(cells[a]) <= bestLong
    ensures exists a :: 0 <= a < 18 && bestJoint == GoodputBps(cells[a])
    ensures forall a :: 0 <= a < 18 ==> GoodputBps(cells[a]) <= bestJoint
    ensures bestLong <= bestJoint <= oracleJoint && bestLong <= oracleLong <= oracleJoint
    ensures exists c :: Optimal(Transpose(cells[..9], n), oracleLong, c)
    ensures exists c :: Optimal(Transpose(cells, n), oracleJoint, c)
  {
    hide GoodputBps, Transpose, Optimal, ForLevel, CellLevel, CellProfile;
    var long := cells[..9];
    assert AreCells(pair, long, n);
    assert forall a :: 0 <= a < 9 ==> long[a] == cells[a];
    var best := BestArm(long);
    bestLong := best.value.1;
    best := BestArm(cells);
    bestJoint := best.value.1;
    var c, c';
    oracleLong, c := OracleOfCells(pair, long, n);
    oracleJoint, c' := OracleOfCells(pair, cells, n);
    LongWithinJoint(cells, n);
    MoreCandidatesNeverHurt(Transpose(long, n), Transpose(cells, n), oracleLong, c, oracleJoint, c');
  }

  lemma LongWithinJoint(cells: seq<seq<FrameSlot>>, n: nat)
    requires |cells| == 18 && forall a :: 0 <= a < 18 ==> |cells[a]| == n
    ensures Widens(Transpose(cells[..9], n), Transpose(cells, n))
  {
  }
}
