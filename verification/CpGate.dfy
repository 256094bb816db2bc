/** The spread-gated recommendation between a long and a short cyclic prefix. */
module CpGate {
  /** A cyclic-prefix mode, as recommended by the gate or in force on air. */
  datatype Mode = LongCp | ShortCp

  const THRESHOLD_MS: real := 2.5
  const CONSECUTIVE_NEEDED: nat := 4

  datatype Gate = Gate(thresholdMs: real, needed: nat, run: nat, recommendation: Mode) {
    /** Feed one measured delay spread: a calm frame lengthens the capped run,
        any other drops back to the long prefix at once. */
    function Observe(spreadMs: real): Gate {
      if spreadMs < thresholdMs then
        var longer := if run + 1 < needed then run + 1 else needed;
        this.(run := longer, recommendation := if longer >= needed then ShortCp else recommendation)
      else
        this.(run := 0, recommendation := LongCp)
    }
  }

  function NewGate(thresholdMs: real, needed: nat): Gate {
    Gate(thresholdMs, if needed < 1 then 1 else needed, 0, LongCp)
  }

  /** The gate after a whole history of readings. */
  function GateAfter(thresholdMs: real, needed: nat, readings: seq<real>): Gate {
    if readings == [] then NewGate(thresholdMs, needed)
    else GateAfter(thresholdMs, needed, readings[..|readings| - 1]).Observe(readings[|readings| - 1])
  }

  /** The last `k` readings exist and all lie strictly below the threshold. */
  ghost predicate LastCalm(thresholdMs: real, readings: seq<real>, k: nat) {
    k <= |readings| && forall i :: |readings| - k <= i < |readings| ==> readings[i] < thresholdMs
  }

  /** The gate's hysteresis in closed form: the run is the capped length of the
      trailing calm stretch, and short CP is recommended exactly when the last
      `needed` readings were all calm. */
  lemma {:induction false} GateClosedForm(thresholdMs: real, needed: nat, readings: seq<real>)
    ensures var g := GateAfter(thresholdMs, needed, readings);
            && g.thresholdMs == thresholdMs && g.needed == (if needed < 1 then 1 else needed)
            && g.run <= g.needed
            && (forall k: nat :: k <= g.needed ==> (LastCalm(thresholdMs, readings, k) <==> k <= g.run))
            && (g.recommendation == ShortCp <==> LastCalm(thresholdMs, readings, g.needed))
  {
    if readings != [] {
      var n := |readings| - 1;
      GateClosedForm(thresholdMs, needed, readings[..n]);
      var before := GateAfter(thresholdMs, needed, readings[..n]);
      forall k: nat | k <= before.needed
        ensures LastCalm(thresholdMs, readings, k) <==>
                k == 0 || (readings[n] < thresholdMs && LastCalm(thresholdMs, readings[..n], k - 1))
      {
        if k > 0 && LastCalm(thresholdMs, readings, k) {
          assert readings[n] < thresholdMs;
        }
      }
    }
  }
}
