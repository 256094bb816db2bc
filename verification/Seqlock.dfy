/** The single-writer seqlock that publishes (count, deadline) pairs, one atomic
    access per step, under every interleaving of the publisher with any number of
    readers. The sequence number wraps at 64 bits. */
module Seqlock {
  const WORD: nat := 0x1_0000_0000_0000_0000
  const HALF_WORD: nat := 0x8000_0000_0000_0000

  /** What one publish writes. */
  datatype Pair = Pair(consumed: nat, deadline: nat)

  /** Where the publisher stands between two of its atomic accesses. */
  datatype Publisher =
    | Resting
    | Loaded(s: nat, pair: Pair)
    | MarkedOdd(s: nat, pair: Pair)
    | StoredConsumed(s: nat, pair: Pair)
    | StoredBoth(s: nat, pair: Pair)

  /** Where a reader stands. `began` is how many pairs had been published when
      the snapshot began, `seen` how many when its sequence number was loaded. */
  datatype Reader =
    | Away
    | Spinning(began: nat)
    | GotSeq(began: nat, seen: nat, s1: nat)
    | GotConsumed(began: nat, seen: nat, s1: nat, consumed: nat)
    | GotBoth(began: nat, seen: nat, s1: nat, pair: Pair)

  /** A returned snapshot, with the number of pairs published before it began,
      when it last loaded the sequence number, and when it returned. */
  datatype Snapshot = Snapshot(reader: nat, pair: Pair, began: nat, seen: nat, ended: nat)

  /** The shared words, the threads, and the history of publishes (the initial
      pair first) and of returned snapshots. */
  datatype State = State(seqNo: nat, consumed: nat, deadline: nat, publisher: Publisher,
                         readers: map<nat, Reader>, log: seq<Pair>, returned: seq<Snapshot>)

  const START: State := State(0, 0, 0, Resting, map[], [Pair(0, 0)], [])

  /** One scheduling decision: the publisher, or some reader, takes its next
      atomic access. A resting publisher starts on the given pair. */
  datatype Event = Publish(pair: Pair) | Read(reader: nat)

  function PublisherStep(s: State, pair: Pair): State {
    match s.publisher
    case Resting => s.(publisher := Loaded(s.seqNo, pair))
    case Loaded(n, p) => s.(publisher := MarkedOdd(n, p), seqNo := (n + 1) % WORD)
    case MarkedOdd(n, p) => s.(publisher := StoredConsumed(n, p), consumed := p.consumed)
    case StoredConsumed(n, p) => s.(publisher := StoredBoth(n, p), deadline := p.deadline)
    case StoredBoth(n, p) => s.(publisher := Resting, seqNo := (n + 2) % WORD, log := s.log + [p])
  }

  function ReaderOf(s: State, r: nat): Reader {
    if r in s.readers then s.readers[r] else Away
  }

  function ReaderStep(s: State, r: nat): State {
    match ReaderOf(s, r)
    case Away => s.(readers := s.readers[r := Spinning(|s.log|)])
    case Spinning(began) =>
      if s.seqNo % 2 == 1 then s
      else s.(readers := s.readers[r := GotSeq(began, |s.log|, s.seqNo)])
    case GotSeq(began, seen, s1) =>
      s.(readers := s.readers[r := GotConsumed(began, seen, s1, s.consumed)])
    case GotConsumed(began, seen, s1, consumed) =>
      s.(readers := s.readers[r := GotBoth(began, seen, s1, Pair(consumed, s.deadline))])
    case GotBoth(began, seen, s1, pair) =>
      if s.seqNo == s1 then
        s.(readers := s.readers[r := Away], returned := s.returned + [Snapshot(r, pair, began, seen, |s.log|)])
      else s.(readers := s.readers[r := Spinning(began)])
  }

  function Step(s: State, e: Event): State {
    match e
    case Publish(pair) => PublisherStep(s, pair)
    case Read(r) => ReaderStep(s, r)
  }

  /** The state after an interleaving, from the initial state. */
  function Run(events: seq<Event>): State {
    if events == [] then START else Step(Run(events[..|events| - 1]), events[|events| - 1])
  }

  // -------------------------------------------------------------- invariant

  predicate Writing(s: State) {
    s.publisher.MarkedOdd? || s.publisher.StoredConsumed? || s.publisher.StoredBoth?
  }

  /** Since `seen` pairs had been published, no publish has touched the words. */
  predicate Quiet(s: State, seen: nat) {
    |s.log| == seen && !Writing(s)
  }

  /** The sequence number at rest after `k` publishes. */
  function EvenNo(k: nat): nat {
    2 * k % WORD
  }

  lemma EvenNoSteps(k: nat)
    ensures EvenNo(k) % 2 == 0 && EvenNo(k) + 1 < WORD
    ensures (EvenNo(k) + 1) % WORD == EvenNo(k) + 1
    ensures (EvenNo(k) + 2) % WORD == EvenNo(k + 1)
  {
  }

  ghost predicate PublisherInv(s: State) {
    && s.log != []
    && s.seqNo == EvenNo(|s.log| - 1) + (if Writing(s) then 1 else 0)
    && (!s.publisher.Resting? ==> s.publisher.s == EvenNo(|s.log| - 1))
    && s.consumed == (if s.publisher.StoredConsumed? || s.publisher.StoredBoth? then s.publisher.pair
                      else s.log[|s.log| - 1]).consumed
    && s.deadline == (if s.publisher.StoredBoth? then s.publisher.pair else s.log[|s.log| - 1]).deadline
  }

  /** What a reader holds is current as long as nothing was written meanwhile. */
  ghost predicate ReaderInv(s: State, reader: Reader) {
    match reader
    case Away => true
    case Spinning(began) => began <= |s.log|
    case GotSeq(began, seen, s1) => SeenInv(s, began, seen, s1)
    case GotConsumed(began, seen, s1, consumed) =>
      SeenInv(s, began, seen, s1) && (Quiet(s, seen) ==> consumed == s.log[seen - 1].consumed)
    case GotBoth(began, seen, s1, pair) =>
      SeenInv(s, began, seen, s1) && (Quiet(s, seen) ==> pair == s.log[seen - 1])
  }

  ghost predicate SeenInv(s: State, began: nat, seen: nat, s1: nat) {
    began <= seen <= |s.log| && 1 <= seen && s1 == EvenNo(seen - 1)
  }

  /** A snapshot whose last attempt spanned fewer than 2^63 publishes spanned none,
      and returned the last pair published. */
  ghost predicate SnapshotInv(s: State, snap: Snapshot) {
    && 1 <= snap.seen && snap.began <= snap.seen <= snap.ended <= |s.log|
    && (snap.ended - snap.seen < HALF_WORD ==> snap.ended == snap.seen && snap.pair == s.log[snap.ended - 1])
  }

  /** Each thread's snapshots follow one another. */
  ghost predicate InOrder(s: State) {
    && (forall i, j :: 0 <= i < j < |s.returned| ==> s.returned[i].ended <= s.returned[j].ended)
    && (forall i, j :: 0 <= i < j < |s.returned| && s.returned[i].reader == s.returned[j].reader ==>
          s.returned[i].ended <= s.returned[j].began)
    && (forall i, r :: 0 <= i < |s.returned| && r in s.readers && s.returned[i].reader == r && !s.readers[r].Away? ==>
          s.returned[i].ended <= s.readers[r].began)
  }

  ghost predicate Inv(s: State) {
    && PublisherInv(s)
    && (forall r :: r in s.readers ==> ReaderInv(s, s.readers[r]))
    && (forall i :: 0 <= i < |s.returned| ==> SnapshotInv(s, s.returned[i]))
    && InOrder(s)
  }

  /** A sequence number seen before is seen again only with nothing written in
      between, unless 2^63 publishes went by. */
  lemma SameNumberIsQuiet(s: State, seen: nat, s1: nat)
    requires PublisherInv(s) && 1 <= seen <= |s.log| && s1 == EvenNo(seen - 1)
    requires s.seqNo == s1 && |s.log| - seen < HALF_WORD
    ensures Quiet(s, seen)
  {
    var d := |s.log| - seen;
    EvenNoSteps(|s.log| - 1);
    EvenNoSteps(seen - 1);
    assert !Writing(s);
    EvenNoRepeats(seen - 1, d);
  }

  lemma EvenNoRepeats(k: nat, d: nat)
    requires EvenNo(k + d) == EvenNo(k) && d < HALF_WORD
    ensures d == 0
  {
  }

  lemma PublisherKeepsOwnInv(s: State, pair: Pair)
    requires PublisherInv(s)
    ensures PublisherInv(PublisherStep(s, pair))
  {
    EvenNoSteps(|s.log| - 1);
    hide EvenNo;
  }

  lemma PublisherKeepsReader(s: State, pair: Pair, reader: Reader)
    requires ReaderInv(s, reader) && PublisherInv(s)
    ensures ReaderInv(PublisherStep(s, pair), reader)
  {
    hide EvenNo;
  }

  lemma PublisherKeepsInv(s: State, pair: Pair)
    requires Inv(s)
    ensures Inv(PublisherStep(s, pair))
  {
    hide EvenNo, ReaderInv, PublisherInv;
    PublisherKeepsOwnInv(s, pair);
    var t := PublisherStep(s, pair);
    forall r | r in t.readers
      ensures ReaderInv(t, t.readers[r])
    {
      PublisherKeepsReader(s, pair, s.readers[r]);
    }
  }

  lemma ReaderKeepsItself(s: State, r: nat)
    requires PublisherInv(s) && ReaderInv(s, ReaderOf(s, r))
    ensures ReaderInv(ReaderStep(s, r), ReaderOf(ReaderStep(s, r), r))
  {
    EvenNoSteps(|s.log| - 1);
    hide EvenNo;
  }

  lemma ReaderKeepsOther(s: State, r: nat, reader: Reader)
    requires ReaderInv(s, reader)
    ensures ReaderInv(ReaderStep(s, r), reader)
  {
    var t := ReaderStep(s, r);
    assert t.log == s.log && t.publisher == s.publisher;
    hide ReaderStep, EvenNo;
  }

  lemma ReaderKeepsSnapshots(s: State, r: nat, i: nat)
    requires Inv(s) && i < |ReaderStep(s, r).returned|
    ensures SnapshotInv(ReaderStep(s, r), ReaderStep(s, r).returned[i])
  {
    hide EvenNo, InOrder;
    var reader := ReaderOf(s, r);
    if i == |s.returned| && |s.log| - reader.seen < HALF_WORD {
      assert ReaderInv(s, reader);
      SameNumberIsQuiet(s, reader.seen, reader.s1);
    }
  }

  lemma ReaderKeepsOrder(s: State, r: nat)
    requires Inv(s)
    ensures InOrder(ReaderStep(s, r))
  {
    hide EvenNo, PublisherInv, ReaderInv;
    assert forall i :: 0 <= i < |s.returned| ==> SnapshotInv(s, s.returned[i]);
    assert forall i :: 0 <= i < |s.returned| ==> s.returned[i].ended <= |s.log|;
    hide Inv, SnapshotInv;
    var t := ReaderStep(s, r);
    if |t.returned| > |s.returned| {
      SnapshotAppends(s, r, t);
    }
  }

  lemma SnapshotAppends(s: State, r: nat, t: State)
    requires InOrder(s) && t == ReaderStep(s, r) && |t.returned| > |s.returned|
    requires forall i :: 0 <= i < |s.returned| ==> s.returned[i].ended <= |s.log|
    ensures InOrder(t)
  {
    assert t.returned[..|s.returned|] == s.returned;
    assert forall i :: 0 <= i < |s.returned| ==> t.returned[i] == s.returned[i];
  }

  lemma ReaderKeepsInv(s: State, r: nat)
    requires Inv(s)
    ensures Inv(ReaderStep(s, r))
  {
    var t := ReaderStep(s, r);
    forall q | q in t.readers
      ensures ReaderInv(t, t.readers[q])
    {
      if q == r {
        ReaderKeepsItself(s, r);
      } else {
        ReaderKeepsOther(s, r, s.readers[q]);
      }
    }
    forall i | 0 <= i < |t.returned|
      ensures SnapshotInv(t, t.returned[i])
    {
      ReaderKeepsSnapshots(s, r, i);
    }
    ReaderKeepsOrder(s, r);
    hide InOrder, SnapshotInv, ReaderInv;
  }

  lemma {:induction false} RunKeepsInv(events: seq<Event>)
    ensures Inv(Run(events))
  {
    if events != [] {
      var last := events[|events| - 1];
      RunKeepsInv(events[..|events| - 1]);
      match last
      case Publish(pair) => PublisherKeepsInv(Run(events[..|events| - 1]), pair);
      case Read(r) => ReaderKeepsInv(Run(events[..|events| - 1]), r);
    }
  }

  // --------------------------------------------------------------- theorems

  /** Coherence and recency, in every interleaving: a returned pair was published
      as a pair (or is the initial one), and is the latest published when the
      snapshot returned, so at least as recent as any finished before it began.
      Only the last of its attempts has to span fewer than 2^63 publishes. */
  lemma SnapshotsAreCoherent(events: seq<Event>, i: nat)
    requires i < |Run(events).returned|
    requires Run(events).returned[i].ended - Run(events).returned[i].seen < HALF_WORD
    ensures var s, snap := Run(events), Run(events).returned[i];
            && 1 <= snap.ended <= |s.log| && snap.began <= snap.seen == snap.ended
            && snap.pair == s.log[snap.ended - 1]
  {
    RunKeepsInv(events);
  }

  lemma {:induction false} LogOnlyGrows(events: seq<Event>, k: nat)
    requires k <= |events|
    ensures Run(events[..k]).log <= Run(events).log && Run(events[..k]).returned <= Run(events).returned
    decreases |events|
  {
    hide Step;
    if k == |events| {
      assert events[..k] == events;
    } else {
      var front := events[..|events| - 1];
      LogOnlyGrows(front, k);
      assert front[..k] == events[..k];
      StepGrows(Run(front), events[|events| - 1]);
    }
  }

  lemma StepGrows(s: State, e: Event)
    ensures s.log <= Step(s, e).log && s.returned <= Step(s, e).returned
  {
  }

  /** Successive snapshots never go back: a later one, by the same reader or by
      one that began after the earlier returned, shows a pair published no
      earlier, and so a count no lower when published counts never fall. */
  lemma SnapshotsNeverGoBack(events: seq<Event>, i: nat, j: nat)
    requires i < j < |Run(events).returned|
    requires forall k | k in {i, j} :: Run(events).returned[k].ended - Run(events).returned[k].seen < HALF_WORD
    requires forall a, b :: 0 <= a <= b < |Run(events).log| ==> Run(events).log[a].consumed <= Run(events).log[b].consumed
    ensures var s := Run(events);
            && s.returned[i].ended <= s.returned[j].ended
            && (s.returned[i].reader == s.returned[j].reader ==> s.returned[i].ended <= s.returned[j].began)
            && s.returned[i].pair.consumed <= s.returned[j].pair.consumed
  {
    RunKeepsInv(events);
    assert i in {i, j} && j in {i, j};
  }

  // -------------------------------------------- what the 2^63 bound excludes

  /** A publisher at rest completes `k` publishes of the same pair. */
  function Publishes(pair: Pair, k: nat): seq<Event> {
    seq(5 * k, _ => Publish(pair))
  }

  function RunFrom(s: State, events: seq<Event>): State {
    if events == [] then s else Step(RunFrom(s, events[..|events| - 1]), events[|events| - 1])
  }

  lemma {:induction false} RunSplits(a: seq<Event>, b: seq<Event>)
    ensures Run(a + b) == RunFrom(Run(a), b)
  {
    if b == [] {
      assert a + b == a;
    } else {
      assert (a + b)[..|a + b| - 1] == a + b[..|b| - 1];
      RunSplits(a, b[..|b| - 1]);
    }
  }

  lemma {:induction false} PublishesRun(s: State, pair: Pair, k: nat)
    requires s.publisher.Resting? && PublisherInv(s)
    ensures var t := RunFrom(s, Publishes(pair, k));
            && t.publisher.Resting? && PublisherInv(t)
            && t.readers == s.readers && t.returned == s.returned
            && |t.log| == |s.log| + k && s.log <= t.log
            && (forall i :: |s.log| <= i < |t.log| ==> t.log[i] == pair)
  {
    if k > 0 {
      PublishesRun(s, pair, k - 1);
      OnePublish(s, pair, k - 1);
    } else {
      assert Publishes(pair, 0) == [];
    }
  }

  lemma OnePublish(s: State, pair: Pair, k: nat)
    requires RunFrom(s, Publishes(pair, k)).publisher.Resting? && PublisherInv(RunFrom(s, Publishes(pair, k)))
    ensures var before, after := RunFrom(s, Publishes(pair, k)), RunFrom(s, Publishes(pair, k + 1));
            && after == before.(seqNo := (before.seqNo + 2) % WORD, consumed := pair.consumed,
                                deadline := pair.deadline, log := before.log + [pair])
            && PublisherInv(after)
  {
    hide RunFrom, Step, PublisherInv;
    assert Publishes(pair, k + 1) == Publishes(pair, k) + Steps(pair, 5);
    StepsRun(s, Publishes(pair, k), pair, 5);
    FivePublisherSteps(RunFrom(s, Publishes(pair, k)), pair);
  }

  function Steps(pair: Pair, n: nat): seq<Event> {
    seq(n, _ => Publish(pair))
  }

  /** The state `n` steps of the publisher later. */
  function Stepped(s: State, pair: Pair, n: nat): State {
    if n == 0 then s else Step(Stepped(s, pair, n - 1), Publish(pair))
  }

  lemma {:induction false} StepsRun(s: State, e: seq<Event>, pair: Pair, n: nat)
    ensures RunFrom(s, e + Steps(pair, n)) == Stepped(RunFrom(s, e), pair, n)
  {
    hide Step;
    if n == 0 {
      assert e + Steps(pair, 0) == e;
    } else {
      StepsRun(s, e, pair, n - 1);
      assert e + Steps(pair, n) == e + Steps(pair, n - 1) + [Publish(pair)];
      OneStep(s, e + Steps(pair, n - 1), Publish(pair));
    }
  }

  lemma OneStep(s: State, e: seq<Event>, p: Event)
    ensures RunFrom(s, e + [p]) == Step(RunFrom(s, e), p)
  {
    assert (e + [p])[..|e|] == e;
  }

  lemma OneMore(s: State, pair: Pair, n: nat)
    ensures Stepped(s, pair, 0) == s && Stepped(s, pair, n + 1) == PublisherStep(Stepped(s, pair, n), pair)
  {
  }

  lemma FivePublisherSteps(s: State, pair: Pair)
    requires s.publisher.Resting? && PublisherInv(s)
    ensures Stepped(s, pair, 5) == s.(seqNo := (s.seqNo + 2) % WORD, consumed := pair.consumed,
                                      deadline := pair.deadline, log := s.log + [pair])
    ensures PublisherInv(Stepped(s, pair, 5))
  {
    var marked := s.(publisher := MarkedOdd(s.seqNo, pair), seqNo := (s.seqNo + 1) % WORD);
    var both := marked.(publisher := StoredBoth(s.seqNo, pair), consumed := pair.consumed, deadline := pair.deadline);
    PublishedInv(s, pair);
    hide EvenNo, Stepped, PublisherInv;
    OneMore(s, pair, 0);
    OneMore(s, pair, 1);
    OneMore(s, pair, 2);
    OneMore(s, pair, 3);
    OneMore(s, pair, 4);
    assert Stepped(s, pair, 2) == marked && Stepped(s, pair, 4) == both;
  }

  lemma PublishedInv(s: State, pair: Pair)
    requires s.publisher.Resting? && PublisherInv(s)
    ensures PublisherInv(s.(seqNo := (s.seqNo + 2) % WORD, consumed := pair.consumed,
                            deadline := pair.deadline, log := s.log + [pair]))
  {
    EvenNoSteps(|s.log| - 1);
    hide EvenNo;
  }

  // ------------------------------------------------- snapshots come to an end

  function Reads(r: nat, n: nat): seq<Event> {
    seq(n, _ => Read(r))
  }

  lemma OneRead(s: State, r: nat, n: nat)
    ensures RunFrom(s, Reads(r, n + 1)) == ReaderStep(RunFrom(s, Reads(r, n)), r)
    ensures RunFrom(s, Reads(r, 0)) == s
  {
    assert Reads(r, n + 1)[..n] == Reads(r, n);
  }

  lemma {:induction false} ReadsAppend(s: State, r: nat, a: nat, b: nat)
    ensures RunFrom(s, Reads(r, a + b)) == RunFrom(RunFrom(s, Reads(r, a)), Reads(r, b))
  {
    hide RunFrom, ReaderStep;
    OneRead(RunFrom(s, Reads(r, a)), r, 0);
    if b > 0 {
      ReadsAppend(s, r, a, b - 1);
      OneRead(s, r, a + (b - 1));
      OneRead(RunFrom(s, Reads(r, a)), r, b - 1);
    }
  }

  /** `s` with reader `r` elsewhere. */
  function With(s: State, r: nat, reader: Reader): State {
    s.(readers := s.readers[r := reader])
  }

  lemma WithIs(s: State, r: nat, reader: Reader, other: Reader)
    ensures ReaderOf(With(s, r, reader), r) == reader
    ensures With(With(s, r, reader), r, other) == With(s, r, other)
  {
    assert s.readers[r := reader][r := other] == s.readers[r := other];
  }

  /** One access of a reader, with no publish under way. */
  lemma ReadStep(s: State, r: nat, reader: Reader)
    requires PublisherInv(s) && !Writing(s)
    ensures var last := s.log[|s.log| - 1];
            ReaderStep(With(s, r, reader), r) == match reader
              case Away => With(s, r, Spinning(|s.log|))
              case Spinning(began) => With(s, r, GotSeq(began, |s.log|, s.seqNo))
              case GotSeq(began, seen, s1) => With(s, r, GotConsumed(began, seen, s1, last.consumed))
              case GotConsumed(began, seen, s1, consumed) => With(s, r, GotBoth(began, seen, s1, Pair(consumed, last.deadline)))
              case GotBoth(began, seen, s1, pair) =>
                if s.seqNo == s1 then
                  With(s, r, Away).(returned := s.returned + [Snapshot(r, pair, began, seen, |s.log|)])
                else With(s, r, Spinning(began))
  {
    EvenNoSteps(|s.log| - 1);
    hide EvenNo;
    WithIs(s, r, reader, ReaderOf(ReaderStep(With(s, r, reader), r), r));
    assert s.readers[r := reader][r := Away] == s.readers[r := Away];
  }

  /** A reader that has yet to load the sequence number, with no publish under way,
      returns the newest pair four steps later. */
  lemma SpinningReturns(s: State, r: nat, began: nat)
    requires PublisherInv(s) && !Writing(s)
    ensures RunFrom(With(s, r, Spinning(began)), Reads(r, 4)) ==
            With(s, r, Away).(returned := s.returned + [Snapshot(r, s.log[|s.log| - 1], began, |s.log|, |s.log|)])
  {
    var seen, last := |s.log|, s.log[|s.log| - 1];
    ReadStep(s, r, Spinning(began));
    ReadStep(s, r, GotSeq(began, seen, s.seqNo));
    ReadStep(s, r, GotConsumed(began, seen, s.seqNo, last.consumed));
    ReadStep(s, r, GotBoth(began, seen, s.seqNo, last));
    var start := With(s, r, Spinning(began));
    hide *;
    OneRead(start, r, 0);
    OneRead(start, r, 1);
    OneRead(start, r, 2);
    OneRead(start, r, 3);
  }

  /** A snapshot begun and finished with no publish under way returns the newest
      pair, in five steps. */
  lemma SnapshotAlone(s: State, r: nat)
    requires Inv(s) && !Writing(s) && ReaderOf(s, r).Away?
    ensures RunFrom(s, Reads(r, 5)) ==
            s.(readers := s.readers[r := Away],
               returned := s.returned + [Snapshot(r, s.log[|s.log| - 1], |s.log|, |s.log|, |s.log|)])
  {
    FirstRead(s, r);
    SpinningReturns(s, r, |s.log|);
    hide RunFrom, ReaderStep, Inv;
    OneRead(s, r, 0);
    ReadsAppend(s, r, 1, 4);
  }

  lemma FirstRead(s: State, r: nat)
    requires ReaderOf(s, r).Away?
    ensures ReaderStep(s, r) == With(s, r, Spinning(|s.log|))
  {
  }

  /** The steps a reader in the middle of an attempt has left in it. */
  function StepsLeft(reader: Reader): nat {
    match reader
    case GotSeq(_, _, _) => 3
    case GotConsumed(_, _, _, _) => 2
    case GotBoth(_, _, _, _) => 1
    case _ => 0
  }

  /** An attempt ends by returning, or by starting over. */
  lemma AttemptEnds(s: State, r: nat)
    requires StepsLeft(ReaderOf(s, r)) > 0
    ensures var t := RunFrom(s, Reads(r, StepsLeft(ReaderOf(s, r))));
            && t.log == s.log && t.publisher == s.publisher && t.seqNo == s.seqNo
            && t.consumed == s.consumed && t.deadline == s.deadline
            && if s.seqNo == ReaderOf(s, r).s1 then |t.returned| == |s.returned| + 1
               else t.returned == s.returned && ReaderOf(t, r).Spinning?
    decreases StepsLeft(ReaderOf(s, r))
  {
    var n := StepsLeft(ReaderOf(s, r));
    var t := ReaderStep(s, r);
    OneRead(s, r, 0);
    hide RunFrom;
    if n > 1 {
      AttemptEnds(t, r);
      ReadsAppend(s, r, 1, n - 1);
    }
  }

  /** No reader is stuck: with no publish under way, a snapshot in progress returns
      within seven steps of its own. */
  lemma SnapshotReturns(s: State, r: nat) returns (n: nat)
    requires Inv(s) && !Writing(s) && !ReaderOf(s, r).Away?
    ensures n <= 7 && |RunFrom(s, Reads(r, n)).returned| == |s.returned| + 1 && RunFrom(s, Reads(r, n)).log == s.log
  {
    hide RunFrom, EvenNo, InOrder;
    if ReaderOf(s, r).Spinning? {
      n := 4;
      AsItIs(s, r);
      SpinningReturns(s, r, ReaderOf(s, r).began);
    } else {
      n := StepsLeft(ReaderOf(s, r));
      AttemptEnds(s, r);
      if s.seqNo != ReaderOf(s, r).s1 {
        var again := RunFrom(s, Reads(r, n));
        AsItIs(again, r);
        SpinningReturns(again, r, ReaderOf(again, r).began);
        ReadsAppend(s, r, n, 4);
        n := n + 4;
      }
    }
  }

  lemma AsItIs(s: State, r: nat)
    requires !ReaderOf(s, r).Away?
    ensures With(s, r, ReaderOf(s, r)) == s
  {
    assert s.readers[r := s.readers[r]] == s.readers;
  }

  /** With 2^63 publishes inside one attempt the wrapped sequence number matches
      again, and the snapshot returns a pair nobody ever published. */
  lemma WrappedSnapshotTears()
    ensures var reading, closing := [Read(0), Read(0), Read(0)], [Read(0), Read(0)];
            var s := Run(reading + Publishes(Pair(1, 3), HALF_WORD) + closing);
            && |s.returned| == 1 && s.returned[0].ended - s.returned[0].seen == HALF_WORD
            && s.returned[0].pair == Pair(0, 3) && Pair(0, 3) !in s.log
  {
    var reading, closing := [Read(0), Read(0), Read(0)], [Read(0), Read(0)];
    var flood := Publishes(Pair(1, 3), HALF_WORD);
    var s0, s1 := Run(reading), Run(reading + flood);
    hide Publishes, Run, EvenNo, Step;
    ThreeReads();
    RunSplits(reading, flood);
    PublishesRun(s0, Pair(1, 3), HALF_WORD);
    RunSplits(reading + flood, closing);
    EvenNoWraps();
    TwoReads(s1);
    forall k | 0 <= k < |s1.log|
      ensures s1.log[k] != Pair(0, 3)
    {
      assert k == 0 || s1.log[k] == Pair(1, 3);
    }
  }

  lemma TwoReads(s: State)
    requires s.readers == map[0 := GotConsumed(1, 1, 0, 0)] && s.seqNo == 0 && s.deadline == 3 && s.returned == []
    ensures var t := RunFrom(s, [Read(0), Read(0)]);
            t.log == s.log && t.returned == [Snapshot(0, Pair(0, 3), 1, 1, |s.log|)]
  {
    assert [Read(0), Read(0)] == [] + [Read(0)] + [Read(0)];
    OneStep(s, [], Read(0));
    OneStep(s, [] + [Read(0)], Read(0));
    var t := ReaderStep(s, 0);
    assert t.readers[0] == GotBoth(1, 1, 0, Pair(0, 3));
  }

  lemma EvenNoWraps()
    ensures EvenNo(HALF_WORD) == 0
  {
  }

  lemma ThreeReads()
    ensures Run([Read(0), Read(0), Read(0)]) == START.(readers := map[0 := GotConsumed(1, 1, 0, 0)])
  {
    var e := [Read(0), Read(0), Read(0)];
    assert e[..2] == [Read(0), Read(0)] && [Read(0), Read(0)][..1] == [Read(0)] && [Read(0)][..0] == [];
    assert Run([Read(0)]) == START.(readers := map[0 := Spinning(1)]);
    assert Run([Read(0), Read(0)]) == START.(readers := map[0 := GotSeq(1, 1, 0)]);
  }
}
