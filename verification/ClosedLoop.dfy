/** The per-frame loop of one measurement arm, and the placebo arm that must
    rebuild its transceiver on exactly the frames the adaptive arm did. Level
    choices and decode outcomes are arbitrary inputs. */
module ClosedLoop {
  import opened Wrappers
  import opened CpGate
  import opened CpPolicy

  const SWITCH_LATENCY_FRAMES: nat := 5

  /** The profile fields the loop can tell apart, and one it does not compare. */
  datatype Profile = Profile(cpSamples: nat, bandwidthId: nat, dataCarriers: nat)

  predicate SameProfile(a: Profile, b: Profile) {
    a.cpSamples == b.cpSamples && a.bandwidthId == b.bandwidthId
  }

  datatype ProfilePair = ProfilePair(long: Profile, short: Profile) {
    function ForMode(mode: Mode): Profile {
      match mode
      case LongCp => long
      case ShortCp => short
    }
  }

  datatype ArmKind =
    | Fixed(level: nat, mode: Mode)
    | FixedCpAdaptiveRate(mode: Mode)
    | Placebo(rebuildAt: seq<nat>)
    | CpAdaptive(latency: nat)

  function BootMode(kind: ArmKind): Mode {
    match kind
    case Fixed(_, mode) => mode
    case FixedCpAdaptiveRate(mode) => mode
    case Placebo(_) => LongCp
    case CpAdaptive(_) => LongCp
  }

  /** The switches an arm records over a run. */
  function ArmSwitches(kind: ArmKind, run: seq<Input>): seq<Switch> {
    if kind.CpAdaptive? then After(kind.latency, run).switches else []
  }

  /** The mode an arm sends frame `f` under. */
  function ArmMode(kind: ArmKind, run: seq<Input>, f: nat): Mode
    requires f <= |run|
  {
    if kind.CpAdaptive? then ModeAt(kind.latency, run, f) else BootMode(kind)
  }

  /** The frames a rebuild is due on: a recorded switch's first frame, or a frame
      on the placebo's list. */
  ghost predicate RebuildDue(kind: ArmKind, run: seq<Input>, f: nat) {
    match kind
    case Fixed(_, _) => false
    case FixedCpAdaptiveRate(_) => false
    case Placebo(rebuildAt) => f in rebuildAt
    case CpAdaptive(latency) => EffectiveOn(After(latency, run).switches, f)
  }

  /** The frames below `n` on which a rebuild is due, in order. */
  ghost function RebuildFrames(kind: ArmKind, run: seq<Input>, n: nat): seq<nat> {
    if n == 0 then []
    else RebuildFrames(kind, run, n - 1) + (if RebuildDue(kind, run, n - 1) then [n - 1] else [])
  }

  /** On a frame whose wanted profile differs from the current one a switch has
      just been applied: the inequality test never triggers a rebuild by itself. */
  lemma ProfileChangeIsApplication(latency: nat, pair: ProfilePair, run: seq<Input>, f: nat, tx: Profile)
    requires f <= |run|
    requires tx == pair.ForMode(if f == 0 then LongCp else ModeAt(latency, run, f - 1))
    requires !SameProfile(tx, pair.ForMode(ModeAt(latency, run, f)))
    ensures AppliedAt(latency, run, f)
  {
    if f > 0 {
      ModeChangesOnlyByApplication(latency, run, f);
    } else {
      assert run[..0] == [];
    }
  }

  /** What asking for frame `f`'s mode leaves behind. */
  lemma FrameStep(latency: nat, run: seq<Input>, f: nat, s: State)
    requires f < |run| && s == OnFrame(latency, run[..f])
    ensures s.current == ModeAt(latency, run, f)
    ensures s.appliedAt == Some(f) <==> AppliedAt(latency, run, f)
    ensures Observed(s, f, run[f].level, run[f].spreadMs) == After(latency, run[..f + 1])
  {
    assert run[..f + 1][..f] == run[..f];
  }

  lemma AtBoot(kind: ArmKind, run: seq<Input>)
    ensures kind.CpAdaptive? ==> After(kind.latency, run[..0]) == Boot(kind.latency)
    ensures kind.CpAdaptive? ==> ModeAt(kind.latency, run, 0) == LongCp
  {
    assert run[..0] == [];
  }

  lemma ForModeIs(pair: ProfilePair)
    ensures forall mode :: pair.ForMode(mode) == if mode == LongCp then pair.long else pair.short
  {
  }

  lemma AskedIs(latency: nat, run: seq<Input>, f: nat)
    requires f <= |run|
    ensures OnFrame(latency, run[..f]) == Advanced(After(latency, run[..f]), f)
  {
  }

  /** The rebuild frames rise, and are those on the placebo's list, or those some
      recorded switch of the adaptive arm takes effect on. */
  lemma {:induction false} RebuildFramesAre(kind: ArmKind, run: seq<Input>, n: nat)
    ensures var frames := RebuildFrames(kind, run, n);
            && (forall i, j :: 0 <= i < j < |frames| ==> frames[i] < frames[j])
            && forall f: nat :: f in frames <==>
                 && f < n
                 && ((kind.Placebo? && f in kind.rebuildAt) ||
                     (kind.CpAdaptive? && EffectiveOn(After(kind.latency, run).switches, f)))
  {
    hide After, EffectiveOn;
    if n > 0 {
      RebuildFramesAre(kind, run, n - 1);
      var before := RebuildFrames(kind, run, n - 1);
      assert forall i :: 0 <= i < |before| ==> before[i] in before;
    }
  }

  /** One arm over one run: the profile each frame is `sent` under is that of its
      mode, whatever was rebuilt. */
  method RunArm(kind: ArmKind, pair: ProfilePair, run: seq<Input>)
    returns (switches: seq<Switch>, rebuiltAt: seq<nat>, modes: seq<Mode>, sent: seq<Profile>)
    ensures switches == ArmSwitches(kind, run)
    ensures rebuiltAt == RebuildFrames(kind, run, |run|)
    ensures |modes| == |run| && forall f :: 0 <= f < |run| ==> modes[f] == ArmMode(kind, run, f)
    ensures kind.Fixed? || kind.FixedCpAdaptiveRate? ==> forall f :: 0 <= f < |run| ==> modes[f] == kind.mode
    ensures kind.Placebo? ==> forall f :: 0 <= f < |run| ==> modes[f] == LongCp
    ensures kind.CpAdaptive? && run != [] ==> modes[0] == LongCp
    ensures |sent| == |run|
    ensures forall f :: 0 <= f < |run| ==> sent[f] == if modes[f] == LongCp then pair.long else pair.short
  {
    ForModeIs(pair);
    hide After, OnFrame, ModeAt, Observed, Advanced, AppliedAt, EffectiveOn, ProfilePair.ForMode, SameProfile;
    AtBoot(kind, run);
    var bootMode := BootMode(kind);
    var tx := pair.ForMode(bootMode);
    var policy := new CpPolicy(if kind.CpAdaptive? then kind.latency else 0);
    rebuiltAt, modes, sent := [], [], [];
    for f := 0 to |run|
      invariant kind.CpAdaptive? ==> policy.View() == After(kind.latency, run[..f])
      invariant tx == pair.ForMode(if f == 0 then bootMode else ArmMode(kind, run, f - 1))
      invariant |modes| == f && forall g :: 0 <= g < f ==> modes[g] == ArmMode(kind, run, g)
      invariant rebuiltAt == RebuildFrames(kind, run, f)
      invariant |sent| == f && forall g :: 0 <= g < f ==> sent[g] == pair.ForMode(modes[g])
    {
      var mode, appliedThisFrame := bootMode, false;
      if kind.CpAdaptive? {
        mode := policy.ModeForFrame(f);
        appliedThisFrame := policy.AppliedOn(f);
        AskedIs(kind.latency, run, f);
        FrameStep(kind.latency, run, f, policy.View());
        AppliedIffEffective(kind.latency, run, f);
        assert appliedThisFrame == RebuildDue(kind, run, f);
      }
      if kind.CpAdaptive? {
        var want := pair.ForMode(mode);
        assert !SameProfile(tx, want) ==> appliedThisFrame by {
          if !SameProfile(tx, want) {
            ProfileChangeIsApplication(kind.latency, pair, run, f, tx);
          }
        }
        assert !appliedThisFrame ==> ModeUnchanged(kind, run, f, mode) by {
          if !appliedThisFrame && f > 0 && ModeAt(kind.latency, run, f) != ModeAt(kind.latency, run, f - 1) {
            ModeChangesOnlyByApplication(kind.latency, run, f);
          }
        }
        if appliedThisFrame || !SameProfile(tx, want) {
          tx := want;
          rebuiltAt := rebuiltAt + [f];
        }
      }
      if kind.Placebo? {
        if f in kind.rebuildAt {
          tx := pair.ForMode(bootMode);
          rebuiltAt := rebuiltAt + [f];
        }
      }
      modes, sent := modes + [mode], sent + [tx];
      if kind.CpAdaptive? {
        var _ := policy.Observe(f, run[f].level, run[f].spreadMs);
      }
    }
    assert run[..|run|] == run;
    switches := if kind.CpAdaptive? then policy.switches else [];
  }

  ghost predicate ModeUnchanged(kind: ArmKind, run: seq<Input>, f: nat, mode: Mode)
    requires f <= |run|
  {
    mode == if f == 0 then BootMode(kind) else ArmMode(kind, run, f - 1)
  }

  lemma {:induction false} SameDueSameFrames(a: ArmKind, runA: seq<Input>, b: ArmKind, runB: seq<Input>, n: nat)
    requires forall f :: 0 <= f < n ==> (RebuildDue(a, runA, f) <==> RebuildDue(b, runB, f))
    ensures RebuildFrames(a, runA, n) == RebuildFrames(b, runB, n)
  {
    if n > 0 {
      SameDueSameFrames(a, runA, b, runB, n - 1);
    }
  }

  /** Runs the adaptive arm, then the placebo on the adaptive arm's switch frames:
      whatever each of them measured, both rebuild on the same frames, and the
      placebo sends every frame as the fixed long-prefix arm does. */
  method RunSwitchAndPlacebo(pair: ProfilePair, runB: seq<Input>, runP: seq<Input>)
    returns (rebuiltB: seq<nat>, rebuiltP: seq<nat>, modesP: seq<Mode>, sentP: seq<Profile>)
    requires |runB| == |runP|
    ensures rebuiltB == rebuiltP
    ensures rebuiltB == RebuildFrames(CpAdaptive(SWITCH_LATENCY_FRAMES), runB, |runB|)
    ensures |modesP| == |sentP| == |runP|
    ensures forall f :: 0 <= f < |runP| ==>
              && modesP[f] == ArmMode(FixedCpAdaptiveRate(LongCp), runP, f) == LongCp
              && sentP[f] == pair.long
  {
    var armB := CpAdaptive(SWITCH_LATENCY_FRAMES);
    var switches, modesB, sentB, none;
    switches, rebuiltB, modesB, sentB := RunArm(armB, pair, runB);
    var rebuildAt := seq(|switches|, i requires 0 <= i < |switches| => switches[i].effectiveFrom);
    none, rebuiltP, modesP, sentP := RunArm(Placebo(rebuildAt), pair, runP);
    forall f | 0 <= f < |runB|
      ensures RebuildDue(armB, runB, f) <==> RebuildDue(Placebo(rebuildAt), runP, f)
    {
      if RebuildDue(armB, runB, f) {
        var i :| 0 <= i < |switches| && switches[i].effectiveFrom == f;
        assert rebuildAt[i] == f;
      }
    }
    SameDueSameFrames(armB, runB, Placebo(rebuildAt), runP, |runB|);
  }

  /** Nineteen frames, the spread high on five of the first nine. */
  function NoOpRun(): (run: seq<Input>)
    ensures |run| == 19
  {
    seq(19, f => Input(2, Some(if 4 <= f < 9 then 3.0 else 0.5)))
  }

  /** The case a profile comparison alone would miss: the second switch leaves the
      mode as the first one made it, and its first frame is rebuilt on all the same. */
  lemma NoOpSwitchRebuilds()
    ensures var kind, run := CpAdaptive(SWITCH_LATENCY_FRAMES), NoOpRun();
            && ArmSwitches(kind, run) == [Switch(LongCp, ShortCp, 3, 9, 2), Switch(ShortCp, ShortCp, 12, 18, 2)]
            && ArmMode(kind, run, 17) == ArmMode(kind, run, 18) == ShortCp
            && RebuildFrames(kind, run, 19) == [9, 18]
  {
    var kind, run := CpAdaptive(SWITCH_LATENCY_FRAMES), NoOpRun();
    assert run[..0] == [] && run[..19] == run;
    var s := Boot(SWITCH_LATENCY_FRAMES);
    for f := 0 to 19
      invariant s == After(SWITCH_LATENCY_FRAMES, run[..f])
      invariant s == NoOpTrace(f)
      invariant f == 18 ==> ArmMode(kind, run, 17) == ShortCp
      invariant f == 19 ==> ArmMode(kind, run, 17) == ArmMode(kind, run, 18) == ShortCp
    {
      NextOfTrace(f);
      FrameStep(SWITCH_LATENCY_FRAMES, run, f, Advanced(s, f));
      s := Observed(Advanced(s, f), f, run[f].level, run[f].spreadMs);
    }
    TwoRebuilds(kind, run, 19);
  }

  lemma {:induction false} TwoRebuilds(kind: ArmKind, run: seq<Input>, n: nat)
    requires kind.CpAdaptive? && ArmSwitches(kind, run) == [FIRST_SWITCH, NO_OP_SWITCH]
    ensures RebuildFrames(kind, run, n) == (if n > 9 then [9] else []) + (if n > 18 then [18] else [])
  {
    if n > 0 {
      TwoRebuilds(kind, run, n - 1);
      var switches := ArmSwitches(kind, run);
      assert switches[0].effectiveFrom == 9 && switches[1].effectiveFrom == 18;
    }
  }

  const FIRST_SWITCH: Switch := Switch(LongCp, ShortCp, 3, 9, 2)
  const NO_OP_SWITCH: Switch := Switch(ShortCp, ShortCp, 12, 18, 2)

  /** The policy's state before frame `f` of that run. */
  function NoOpTrace(f: nat): State {
    State(Gate(THRESHOLD_MS, CONSECUTIVE_NEEDED,
               if f <= 4 then f else if f <= 9 then 0 else if f <= 13 then f - 9 else 4,
               if f == 4 || f >= 13 then ShortCp else LongCp),
          SWITCH_LATENCY_FRAMES,
          if f <= 9 then LongCp else ShortCp,
          if f < 4 || 10 <= f < 13 || f > 18 then None else if f >= 13 then Some(NO_OP_SWITCH) else Some(FIRST_SWITCH),
          if f < 4 then [] else if f < 13 then [FIRST_SWITCH] else [FIRST_SWITCH, NO_OP_SWITCH],
          if f <= 9 then None else if f <= 18 then Some(9) else Some(18))
  }

  lemma NextOfTrace(f: nat)
    requires f < 19
    ensures Observed(Advanced(NoOpTrace(f), f), f, 2, Some(if 4 <= f < 9 then 3.0 else 0.5)) == NoOpTrace(f + 1)
  {
  }
}
