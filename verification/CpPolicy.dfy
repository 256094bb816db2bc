/** The sender-side switch policy: act on gate transitions, never start a second
    switch while one is pending, and apply a switch `latency` frames late. */
module CpPolicy {
  import opened Wrappers
  import opened CpGate

  /** One decided switch. `effectiveFrom` is the first frame sent under `to`. */
  datatype Switch = Switch(from: Mode, to: Mode, decidedAt: nat, effectiveFrom: nat, level: nat)

  /** The policy's state as a value. */
  datatype State = State(gate: Gate, latency: nat, current: Mode, pending: Option<Switch>,
                         switches: seq<Switch>, appliedAt: Option<nat>)

  function Boot(latency: nat): State {
    State(NewGate(THRESHOLD_MS, CONSECUTIVE_NEEDED), latency, LongCp, None, [], None)
  }

  /** The effect of feeding one frame's outcome; `spreadMs` is absent when the
      frame did not decode. */
  function Observed(s: State, frame: nat, level: nat, spreadMs: Option<real>): State {
    if spreadMs.None? then s
    else
      var gate := s.gate.Observe(spreadMs.value);
      if gate.recommendation == s.gate.recommendation || s.pending.Some? then s.(gate := gate)
      else
        var sw := Switch(s.current, gate.recommendation, frame, frame + 1 + s.latency, level);
        s.(gate := gate, pending := Some(sw), switches := s.switches + [sw])
  }

  /** The effect of asking for a frame's mode: a due switch takes effect. */
  function Advanced(s: State, frame: nat): State {
    if s.pending.Some? && frame >= s.pending.value.effectiveFrom then
      s.(current := s.pending.value.to, pending := None, appliedAt := Some(frame))
    else s
  }

  class CpPolicy {
    var gate: Gate
    const latencyFrames: nat
    var current: Mode
    var pending: Option<Switch>
    var switches: seq<Switch>
    var appliedAt: Option<nat>

    function View(): State
      reads this
    {
      State(gate, latencyFrames, current, pending, switches, appliedAt)
    }

    constructor (latencyFrames: nat)
      ensures View() == Boot(latencyFrames)
    {
      this.gate := NewGate(THRESHOLD_MS, CONSECUTIVE_NEEDED);
      this.latencyFrames := latencyFrames;
      this.current := LongCp;
      this.pending := None;
      this.switches := [];
      this.appliedAt := None;
    }

    /** Returns the switch this frame decided, if it decided one. */
    method Observe(frame: nat, level: nat, spreadMs: Option<real>) returns (decided: Option<Switch>)
      modifies this
      ensures View() == Observed(old(View()), frame, level, spreadMs)
      ensures decided.Some? <==> switches != old(switches)
      ensures decided.Some? ==> switches == old(switches) + [decided.value] && pending == decided
    {
      if spreadMs.None? {
        return None;
      }
      var before := gate.recommendation;
      gate := gate.Observe(spreadMs.value);
      var after := gate.recommendation;
      if after == before {
        return None;
      }
      if pending.Some? {
        return None;
      }
      var sw := Switch(current, after, frame, frame + 1 + latencyFrames, level);
      pending := Some(sw);
      switches := switches + [sw];
      decided := Some(sw);
    }

    method ModeForFrame(frame: nat) returns (mode: Mode)
      modifies this
      ensures View() == Advanced(old(View()), frame)
      ensures mode == current
    {
      if pending.Some? {
        var sw := pending.value;
        if frame >= sw.effectiveFrom {
          current := sw.to;
          pending := None;
          appliedAt := Some(frame);
        }
      }
      mode := current;
    }

    function AppliedOn(frame: nat): bool
      reads this
    {
      appliedAt == Some(frame)
    }
  }

  // ------------------------------------------------------------- whole runs

  /** What one frame feeds the policy: any level, and any decode outcome. */
  datatype Input = Input(level: nat, spreadMs: Option<real>)

  /** The policy after a run that asked for each frame's mode and then fed that
      frame's outcome, as the ordering contract demands. */
  function After(latency: nat, run: seq<Input>): State
    decreases |run|, 0
  {
    if run == [] then Boot(latency)
    else
      var f := |run| - 1;
      Observed(OnFrame(latency, run[..f]), f, run[f].level, run[f].spreadMs)
  }

  /** The policy on frame `|run|`, its mode asked for but its outcome not yet fed. */
  function OnFrame(latency: nat, run: seq<Input>): State
    decreases |run|, 1
  {
    Advanced(After(latency, run), |run|)
  }

  /** The readings of the frames that decoded. */
  function Decoded(run: seq<Input>): seq<real> {
    if run == [] then []
    else
      var f := |run| - 1;
      Decoded(run[..f]) + (if run[f].spreadMs.Some? then [run[f].spreadMs.value] else [])
  }

  /** The gate sees the decoded readings and nothing else: undecoded frames, the
      levels and pending switches never affect it. */
  lemma {:induction false} GateSeesDecodedOnly(latency: nat, run: seq<Input>)
    ensures After(latency, run).gate == GateAfter(THRESHOLD_MS, CONSECUTIVE_NEEDED, Decoded(run))
    ensures OnFrame(latency, run).gate == After(latency, run).gate
  {
    if run != [] {
      var f := |run| - 1;
      GateSeesDecodedOnly(latency, run[..f]);
      if run[f].spreadMs.Some? {
        var d := Decoded(run);
        assert d[..|d| - 1] == Decoded(run[..f]) && d[|d| - 1] == run[f].spreadMs.value;
      } else {
        assert Decoded(run) == Decoded(run[..f]);
      }
    }
  }

  /** The switches chain: each starts from the mode the one before left, and is
      decided no earlier than that one took effect. */
  ghost predicate Chained(latency: nat, switches: seq<Switch>) {
    && (forall i :: 0 <= i < |switches| ==> switches[i].effectiveFrom == switches[i].decidedAt + 1 + latency)
    && (switches != [] ==> switches[0].from == LongCp)
    && (forall i :: 0 < i < |switches| ==>
          switches[i].from == switches[i - 1].to && switches[i].decidedAt >= switches[i - 1].effectiveFrom)
  }

  /** How a state after `frames` frames follows from its recorded switches. */
  ghost predicate Coherent(s: State, frames: nat) {
    && Chained(s.latency, s.switches)
    && (s.switches != [] ==> s.switches[|s.switches| - 1].decidedAt < frames)
    && s.pending == (if s.switches != [] && s.switches[|s.switches| - 1].effectiveFrom >= frames
                     then Some(s.switches[|s.switches| - 1]) else None)
    && s.current == (if s.switches == [] then LongCp
                     else if s.pending.Some? then s.switches[|s.switches| - 1].from
                     else s.switches[|s.switches| - 1].to)
    && (s.appliedAt.Some? ==> s.appliedAt.value < frames)
  }

  lemma {:induction false} RunIsCoherent(latency: nat, run: seq<Input>)
    ensures After(latency, run).latency == latency
    ensures Coherent(After(latency, run), |run|)
  {
    if run != [] {
      var f := |run| - 1;
      hide Coherent, Observed, Advanced;
      RunIsCoherent(latency, run[..f]);
      StepIsCoherent(After(latency, run[..f]), f, run[f].level, run[f].spreadMs);
    }
  }

  lemma StepIsCoherent(s: State, f: nat, level: nat, spreadMs: Option<real>)
    requires Coherent(s, f)
    ensures Coherent(Observed(Advanced(s, f), f, level, spreadMs), f + 1)
    ensures Observed(Advanced(s, f), f, level, spreadMs).latency == s.latency
  {
    hide Chained;
    var a := Advanced(s, f);
    if spreadMs.Some? {
      var gate := a.gate.Observe(spreadMs.value);
      if gate.recommendation != a.gate.recommendation && a.pending.None? {
        ChainGrows(s.latency, s.switches, Switch(a.current, gate.recommendation, f, f + 1 + s.latency, level));
      }
    }
  }

  lemma ChainGrows(latency: nat, switches: seq<Switch>, next: Switch)
    requires Chained(latency, switches) && next.effectiveFrom == next.decidedAt + 1 + latency
    requires switches == [] ==> next.from == LongCp
    requires switches != [] ==>
               next.from == switches[|switches| - 1].to && next.decidedAt >= switches[|switches| - 1].effectiveFrom
    ensures Chained(latency, switches + [next])
  {
  }

  /** A longer run only appends switches, decided at its later frames. */
  lemma {:induction false} SwitchesOnlyGrow(latency: nat, run: seq<Input>, f: nat)
    requires f <= |run|
    ensures After(latency, run[..f]).switches <= After(latency, run).switches
    ensures forall i :: |After(latency, run[..f]).switches| <= i < |After(latency, run).switches| ==>
              f <= After(latency, run).switches[i].decidedAt < |run|
    decreases |run|
  {
    if f == |run| {
      assert run[..f] == run;
    } else {
      var n := |run| - 1;
      SwitchesOnlyGrow(latency, run[..n], f);
      assert run[..n][..f] == run[..f];
    }
  }

  /** The mode frame `f` of a run is sent under. */
  function ModeAt(latency: nat, run: seq<Input>, f: nat): Mode
    requires f <= |run|
  {
    OnFrame(latency, run[..f]).current
  }

  /** Whether asking for frame `f`'s mode applied a switch. */
  function AppliedAt(latency: nat, run: seq<Input>, f: nat): bool
    requires f <= |run|
  {
    OnFrame(latency, run[..f]).appliedAt == Some(f)
  }

  lemma {:induction false} ChainIsOrdered(latency: nat, switches: seq<Switch>, i: nat, j: nat)
    requires Chained(latency, switches) && i < j < |switches|
    ensures switches[i].effectiveFrom <= switches[j].decidedAt < switches[j].effectiveFrom
    decreases j - i
  {
    if i + 1 < j {
      ChainIsOrdered(latency, switches, i, j - 1);
    }
  }

  /** Frame `f` seen from the switches of the whole run: the first `k` of them
      were decided before it, and the `k`-th alone says what is in force. */
  lemma FrameView(latency: nat, run: seq<Input>, f: nat) returns (k: nat)
    requires f <= |run|
    ensures var sw := After(latency, run).switches;
            && k <= |sw|
            && (forall i :: 0 <= i < k ==> sw[i].decidedAt < f)
            && (forall i :: k <= i < |sw| ==> f <= sw[i].decidedAt)
            && ModeAt(latency, run, f) ==
               (if k == 0 then LongCp else if f < sw[k - 1].effectiveFrom then sw[k - 1].from else sw[k - 1].to)
            && (OnFrame(latency, run[..f]).pending.Some? <==> k > 0 && f < sw[k - 1].effectiveFrom)
            && (AppliedAt(latency, run, f) <==> k > 0 && f == sw[k - 1].effectiveFrom)
            && k == |After(latency, run[..f]).switches|
  {
    var all, early := After(latency, run).switches, After(latency, run[..f]).switches;
    k := |early|;
    RunIsCoherent(latency, run[..f]);
    SwitchesOnlyGrow(latency, run, f);
    hide After;
    forall i | 0 <= i < k
      ensures all[i].decidedAt < f
    {
      if i < k - 1 {
        ChainIsOrdered(latency, early, i, k - 1);
      }
    }
  }

  /** The mode of every frame in closed form, from the switches of the whole run:
      the `to` of the last switch effective by then, long CP before any. */
  lemma ModeInClosedForm(latency: nat, run: seq<Input>, f: nat)
    requires f <= |run|
    ensures var sw := After(latency, run).switches;
            && ((forall i :: 0 <= i < |sw| ==> f < sw[i].effectiveFrom) ==> ModeAt(latency, run, f) == LongCp)
            && (forall i :: 0 <= i < |sw| && sw[i].effectiveFrom <= f
                            && (i + 1 < |sw| ==> f < sw[i + 1].effectiveFrom) ==>
                  ModeAt(latency, run, f) == sw[i].to)
  {
    var sw := After(latency, run).switches;
    RunIsCoherent(latency, run);
    var k := FrameView(latency, run, f);
    hide After, OnFrame, ModeAt, AppliedAt;
    if k >= 2 {
      assert sw[k - 2].effectiveFrom <= sw[k - 1].decidedAt < f;
    }
    forall i | 0 <= i < |sw| && sw[i].effectiveFrom <= f && (i + 1 < |sw| ==> f < sw[i + 1].effectiveFrom)
      ensures ModeAt(latency, run, f) == sw[i].to
    {
      assert i < k;
      if i + 2 < k {
        ChainIsOrdered(latency, sw, i + 1, k - 1);
      }
    }
  }

  /** `f` is the first frame of some switch. */
  ghost predicate EffectiveOn(switches: seq<Switch>, f: nat) {
    exists i :: 0 <= i < |switches| && switches[i].effectiveFrom == f
  }

  /** A frame applies a switch exactly when it is the `effectiveFrom` of a switch
      the run recorded. */
  lemma AppliedIffEffective(latency: nat, run: seq<Input>, f: nat)
    requires f <= |run|
    ensures AppliedAt(latency, run, f) <==> EffectiveOn(After(latency, run).switches, f)
  {
    var sw := After(latency, run).switches;
    RunIsCoherent(latency, run);
    var k := FrameView(latency, run, f);
    hide After, OnFrame, ModeAt, AppliedAt;
    forall i | 0 <= i < |sw| && sw[i].effectiveFrom == f
      ensures i == k - 1
    {
      assert i < k;
      if i < k - 1 {
        ChainIsOrdered(latency, sw, i, k - 1);
      }
    }
  }

  /** The mode never changes without a switch being applied. */
  lemma ModeChangesOnlyByApplication(latency: nat, run: seq<Input>, f: nat)
    requires 0 < f <= |run| && ModeAt(latency, run, f) != ModeAt(latency, run, f - 1)
    ensures AppliedAt(latency, run, f)
  {
    assert run[..f][..f - 1] == run[..f - 1];
  }

  // ---------------------------------------------------- history of decisions

  /** The gate's recommendation after the first `f` frames. */
  function Recommended(run: seq<Input>, f: nat): Mode
    requires f <= |run|
  {
    GateAfter(THRESHOLD_MS, CONSECUTIVE_NEEDED, Decoded(run[..f])).recommendation
  }

  /** Short CP is recommended exactly when the last four decoded readings were all
      below 2.5 ms. */
  lemma RecommendedIff(run: seq<Input>, f: nat)
    requires f <= |run|
    ensures Recommended(run, f) == ShortCp <==>
            var d := Decoded(run[..f]);
            |d| >= 4 && d[|d| - 4] < 2.5 && d[|d| - 3] < 2.5 && d[|d| - 2] < 2.5 && d[|d| - 1] < 2.5
  {
    GateClosedForm(THRESHOLD_MS, CONSECUTIVE_NEEDED, Decoded(run[..f]));
    hide GateAfter, Decoded;
  }

  /** Frame `f` moved the recommendation. */
  predicate Transition(run: seq<Input>, f: nat)
    requires f < |run|
  {
    Recommended(run, f + 1) != Recommended(run, f)
  }

  /** Some switch of the run was pending when frame `f`'s outcome was fed. */
  ghost predicate InFlight(switches: seq<Switch>, f: nat) {
    exists i :: 0 <= i < |switches| && switches[i].decidedAt < f < switches[i].effectiveFrom
  }

  ghost predicate DecidedOn(switches: seq<Switch>, f: nat) {
    exists i :: 0 <= i < |switches| && switches[i].decidedAt == f
  }

  lemma StepOfRun(latency: nat, run: seq<Input>, f: nat)
    requires f < |run|
    ensures After(latency, run[..f + 1]) ==
            Observed(OnFrame(latency, run[..f]), f, run[f].level, run[f].spreadMs)
    ensures After(latency, run[..f]).gate.recommendation == Recommended(run, f)
    ensures After(latency, run[..f + 1]).gate.recommendation == Recommended(run, f + 1)
    ensures OnFrame(latency, run[..f]).gate.recommendation == Recommended(run, f)
    ensures OnFrame(latency, run[..f]).switches == After(latency, run[..f]).switches
  {
    assert run[..f + 1][..f] == run[..f];
    GateSeesDecodedOnly(latency, run[..f]);
    GateSeesDecodedOnly(latency, run[..f + 1]);
  }

  /** An outcome records a switch exactly when it moves the recommendation with
      none pending. */
  lemma ObservedRecords(s: State, f: nat, level: nat, spreadMs: Option<real>)
    ensures var t := Observed(s, f, level, spreadMs);
            if t.gate.recommendation == s.gate.recommendation || s.pending.Some? then t.switches == s.switches
            else t.switches == s.switches + [Switch(s.current, t.gate.recommendation, f, f + 1 + s.latency, level)]
  {
  }

  /** A transition is recorded as a switch exactly when no switch is in flight;
      otherwise it is dropped for good. Nothing but a transition is recorded. */
  lemma RecordedIffNotInFlight(latency: nat, run: seq<Input>, f: nat)
    requires f < |run|
    ensures var sw := After(latency, run).switches;
            DecidedOn(sw, f) <==> Transition(run, f) && !InFlight(sw, f)
  {
    hide After, OnFrame, Recommended, ModeAt, AppliedAt, Observed;
    var sw := After(latency, run).switches;
    RunIsCoherent(latency, run);
    var k := FrameView(latency, run, f);
    var k' := FrameView(latency, run, f + 1);
    StepOfRun(latency, run, f);
    ObservedRecords(OnFrame(latency, run[..f]), f, run[f].level, run[f].spreadMs);
    InFlightIsLast(latency, sw, k, f);
    assert k' > k ==> sw[k].decidedAt == f;
  }

  lemma InFlightIsLast(latency: nat, sw: seq<Switch>, k: nat, f: nat)
    requires Chained(latency, sw) && k <= |sw|
    requires forall i :: 0 <= i < k ==> sw[i].decidedAt < f
    requires forall i :: k <= i < |sw| ==> f <= sw[i].decidedAt
    ensures InFlight(sw, f) <==> k > 0 && f < sw[k - 1].effectiveFrom
  {
    forall i | 0 <= i < |sw| && sw[i].decidedAt < f < sw[i].effectiveFrom
      ensures i == k - 1
    {
      assert i < k;
      if i < k - 1 {
        ChainIsOrdered(latency, sw, i, k - 1);
      }
    }
  }

  lemma RecommendedPrefix(run: seq<Input>, n: nat, f: nat)
    requires f <= n <= |run|
    ensures Recommended(run[..n], f) == Recommended(run, f)
  {
    assert run[..n][..f] == run[..f];
  }

  /** Every switch goes to what the gate newly recommended on its deciding frame. */
  lemma SwitchFollowsTransition(latency: nat, run: seq<Input>, i: nat)
    requires i < |After(latency, run).switches|
    ensures var sw := After(latency, run).switches[i];
            && sw.decidedAt < |run| && Transition(run, sw.decidedAt)
            && sw.to == Recommended(run, sw.decidedAt + 1)
            && sw.level == run[sw.decidedAt].level
    decreases |run|
  {
    var n := |run| - 1;
    SwitchesOnlyGrow(latency, run, n);
    if i < |After(latency, run[..n]).switches| {
      SwitchFollowsTransition(latency, run[..n], i);
      var d := After(latency, run[..n]).switches[i].decidedAt;
      hide After, Recommended;
      RecommendedPrefix(run, n, d);
      RecommendedPrefix(run, n, d + 1);
    } else {
      LastSwitchFollowsTransition(latency, run, i);
    }
  }

  lemma LastSwitchFollowsTransition(latency: nat, run: seq<Input>, i: nat)
    requires run != [] && |After(latency, run[..|run| - 1]).switches| <= i < |After(latency, run).switches|
    ensures var sw := After(latency, run).switches[i];
            && sw.decidedAt == |run| - 1 && Transition(run, sw.decidedAt)
            && sw.to == Recommended(run, |run|) && sw.level == run[sw.decidedAt].level
  {
    hide After, OnFrame, Recommended, Observed;
    var n := |run| - 1;
    assert run[..n + 1] == run;
    StepOfRun(latency, run, n);
    ObservedRecords(OnFrame(latency, run[..n]), n, run[n].level, run[n].spreadMs);
  }

  /** A switch to short CP is decided only on four calm decoded readings in a row,
      the last of them on the deciding frame itself. */
  lemma ShortNeedsFourCalmReadings(latency: nat, run: seq<Input>, i: nat)
    requires i < |After(latency, run).switches| && After(latency, run).switches[i].to == ShortCp
    ensures var f := After(latency, run).switches[i].decidedAt;
            && f < |run| && run[f].spreadMs.Some? && run[f].spreadMs.value < 2.5
            && LastCalm(2.5, Decoded(run[..f + 1]), 4)
  {
    SwitchFollowsTransition(latency, run, i);
    var f := After(latency, run).switches[i].decidedAt;
    GateClosedForm(THRESHOLD_MS, CONSECUTIVE_NEEDED, Decoded(run[..f + 1]));
    DecodedStep(run, f);
  }

  lemma DecodedStep(run: seq<Input>, f: nat)
    requires f < |run|
    ensures Decoded(run[..f + 1]) == Decoded(run[..f]) + (if run[f].spreadMs.Some? then [run[f].spreadMs.value] else [])
    ensures run[f].spreadMs.None? ==> Recommended(run, f + 1) == Recommended(run, f)
    ensures run[f].spreadMs.Some? && run[f].spreadMs.value < THRESHOLD_MS && Recommended(run, f + 1) == LongCp ==>
              Recommended(run, f) == LongCp
    ensures run[f].spreadMs.Some? && run[f].spreadMs.value >= THRESHOLD_MS ==> Recommended(run, f + 1) == LongCp
  {
    assert run[..f + 1][..f] == run[..f];
    var d := Decoded(run[..f + 1]);
    if run[f].spreadMs.Some? {
      assert d[..|d| - 1] == Decoded(run[..f]) && d[|d| - 1] == run[f].spreadMs.value;
      GateClosedForm(THRESHOLD_MS, CONSECUTIVE_NEEDED, Decoded(run[..f]));
    } else {
      assert d == Decoded(run[..f]);
    }
  }

  /** A switch to long CP is decided on one reading at or above the threshold. */
  lemma LongNeedsOneHighReading(latency: nat, run: seq<Input>, i: nat)
    requires i < |After(latency, run).switches| && After(latency, run).switches[i].to == LongCp
    ensures var f := After(latency, run).switches[i].decidedAt;
            && f < |run| && run[f].spreadMs.Some? && run[f].spreadMs.value >= 2.5
  {
    SwitchFollowsTransition(latency, run, i);
    DecodedStep(run, After(latency, run).switches[i].decidedAt);
  }

  /** Transitions on frames `a` to `b - 1`. */
  function Transitions(run: seq<Input>, a: nat, b: nat): nat
    requires a <= b <= |run|
  {
    if a == b then 0 else Transitions(run, a, b - 1) + (if Transition(run, b - 1) then 1 else 0)
  }

  lemma {:induction false} RecommendationFlips(run: seq<Input>, a: nat, b: nat)
    requires a <= b <= |run|
    ensures Recommended(run, a) == Recommended(run, b) <==> Transitions(run, a, b) % 2 == 0
  {
    if a < b {
      RecommendationFlips(run, a, b - 1);
    }
  }

  /** A switch leaves the mode unchanged exactly when an odd number of transitions
      was dropped since the switch before it; the first switch never does. */
  lemma NoOpIffOddDrops(latency: nat, run: seq<Input>, i: nat)
    requires i < |After(latency, run).switches|
    ensures var sw := After(latency, run).switches;
            && (i == 0 ==> sw[i].from != sw[i].to)
            && (i > 0 ==>
                  && sw[i - 1].decidedAt + 1 <= sw[i].decidedAt < |run|
                  && (sw[i].from == sw[i].to <==>
                      Transitions(run, sw[i - 1].decidedAt + 1, sw[i].decidedAt) % 2 == 1))
  {
    var sw := After(latency, run).switches;
    RunIsCoherent(latency, run);
    SwitchFollowsTransition(latency, run, i);
    if i > 0 {
      SwitchFollowsTransition(latency, run, i - 1);
      RecommendationFlips(run, sw[i - 1].decidedAt + 1, sw[i].decidedAt);
    } else {
      NothingBeforeFirst(latency, run, sw[0].decidedAt);
    }
  }

  /** Up to the first decision the recommendation has never moved. */
  lemma {:induction false} NothingBeforeFirst(latency: nat, run: seq<Input>, f: nat)
    requires After(latency, run).switches != [] && f <= After(latency, run).switches[0].decidedAt
    ensures f <= |run| && Recommended(run, f) == LongCp
    decreases f
  {
    SwitchFollowsTransition(latency, run, 0);
    if f > 0 {
      NothingBeforeFirst(latency, run, f - 1);
      var sw := After(latency, run).switches;
      RunIsCoherent(latency, run);
      RecordedIffNotInFlight(latency, run, f - 1);
      forall i | 0 <= i < |sw|
        ensures sw[i].decidedAt > f - 1
      {
        if i > 0 {
          ChainIsOrdered(latency, sw, 0, i);
        }
      }
    }
  }

  /** Without latency nothing is ever dropped, so directions strictly alternate
      from the first switch, which goes to short CP. */
  lemma {:induction false} ZeroLatencyAlternates(run: seq<Input>, i: nat)
    requires i < |After(0, run).switches|
    ensures var sw := After(0, run).switches[i];
            sw.from != sw.to && (sw.to == ShortCp <==> i % 2 == 0)
    decreases i
  {
    var sw := After(0, run).switches;
    RunIsCoherent(0, run);
    NoOpIffOddDrops(0, run, i);
    if i > 0 {
      ZeroLatencyAlternates(run, i - 1);
      NoTransitionsBetween(run, i, sw[i].decidedAt);
    }
  }

  lemma {:induction false} NoTransitionsBetween(run: seq<Input>, i: nat, f: nat)
    requires 0 < i < |After(0, run).switches|
    requires After(0, run).switches[i - 1].decidedAt + 1 <= f <= After(0, run).switches[i].decidedAt < |run|
    ensures Transitions(run, After(0, run).switches[i - 1].decidedAt + 1, f) == 0
    decreases f
  {
    var sw := After(0, run).switches;
    if sw[i - 1].decidedAt + 1 < f {
      NoTransitionsBetween(run, i, f - 1);
      RunIsCoherent(0, run);
      RecordedIffNotInFlight(0, run, f - 1);
      forall j | 0 <= j < |sw|
        ensures sw[j].decidedAt != f - 1 && !(sw[j].decidedAt < f - 1 < sw[j].effectiveFrom)
      {
        if j < i - 1 {
          ChainIsOrdered(0, sw, j, i - 1);
        } else if i < j {
          ChainIsOrdered(0, sw, i, j);
        }
      }
    }
  }

  /** Decisions are at least `latency + 1` frames apart and the first needs four
      frames, which bounds their number. */
  lemma {:induction false} DecisionsAreSpaced(latency: nat, run: seq<Input>, i: nat)
    requires i < |After(latency, run).switches|
    ensures After(latency, run).switches[i].decidedAt >= CONSECUTIVE_NEEDED - 1 + i * (latency + 1)
    decreases i
  {
    RunIsCoherent(latency, run);
    if i > 0 {
      DecisionsAreSpaced(latency, run, i - 1);
      assert i * (latency + 1) == (i - 1) * (latency + 1) + latency + 1;
    } else {
      NoOpIffOddDrops(latency, run, 0);
      ShortNeedsFourCalmReadings(latency, run, 0);
      DecodedIsShort(run[..After(latency, run).switches[0].decidedAt + 1]);
    }
  }

  lemma {:induction false} DecodedIsShort(run: seq<Input>)
    ensures |Decoded(run)| <= |run|
  {
    if run != [] {
      DecodedIsShort(run[..|run| - 1]);
    }
  }

  /** A run of `n` frames records at most `ceil(n / (latency + 1))` switches, and
      none in its first three frames. */
  lemma SwitchCountBound(latency: nat, run: seq<Input>)
    ensures var k := |After(latency, run).switches|;
            && (k > 0 ==> CONSECUTIVE_NEEDED + (k - 1) * (latency + 1) <= |run|)
            && k <= (|run| + latency) / (latency + 1)
  {
    var k := |After(latency, run).switches|;
    if k > 0 {
      DecisionsAreSpaced(latency, run, k - 1);
      SwitchFollowsTransition(latency, run, k - 1);
      CeilBound(k, |run|, latency + 1);
    }
  }

  lemma CeilBound(k: nat, n: nat, d: nat)
    requires d >= 1 && k >= 1 && (k - 1) * d < n
    ensures k <= (n + d - 1) / d
  {
    var q, r := (n + d - 1) / d, (n + d - 1) % d;
    assert n + d - 1 == q * d + r;
    assert (k - 1 - q) * d < 1;
    NonPositiveFactor(k - 1 - q, d);
  }

  lemma NonPositiveFactor(x: int, d: int)
    requires d >= 1 && x * d < 1
    ensures x <= 0
  {
  }
}
