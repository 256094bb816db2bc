/** That the output stream's parties get on: what one uninterrupted call does, and
    that a discard can always report and a callback always serves it. */
module FlushProgress {
  import opened Wrappers
  import opened Basics
  import opened FlushProtocol

  lemma {:induction false} RunAppend(s: State, a: seq<Event>, b: seq<Event>)
    ensures RunFrom(s, a + b) == RunFrom(RunFrom(s, a), b)
  {
    hide Step;
    if b == [] {
      assert a + b == a;
    } else {
      var n := |b| - 1;
      RunAppend(s, a, b[..n]);
      assert (a + b)[..|a| + n] == a + b[..n];
    }
  }

  lemma RunOne(s: State, e: Event)
    ensures RunFrom(s, [e]) == Step(s, e)
  {
    assert [e][..0] == [];
  }

  lemma RunTwo(s: State, e: Event, d: Event)
    ensures RunFrom(s, [e, d]) == Step(Step(s, e), d)
  {
    hide Step;
    RunOne(s, e);
    assert [e, d][..1] == [e];
  }

  /** The steps of one thread and nothing else. */
  function Steps(e: Event, n: nat): seq<Event> {
    seq(n, _ => e)
  }

  lemma RunSteps(s: State, e: Event, n: nat)
    ensures RunFrom(s, Steps(e, n + 1)) == RunFrom(Step(s, e), Steps(e, n))
    ensures RunFrom(s, Steps(e, 0)) == s
  {
    hide Step;
    RunCons(s, e, Steps(e, n));
    assert Steps(e, n + 1) == [e] + Steps(e, n);
  }

  lemma StepsAppend(s: State, e: Event, a: nat, b: nat)
    ensures RunFrom(s, Steps(e, a + b)) == RunFrom(RunFrom(s, Steps(e, a)), Steps(e, b))
  {
    hide RunFrom;
    RunAppend(s, Steps(e, a), Steps(e, b));
    assert Steps(e, a) + Steps(e, b) == Steps(e, a + b);
  }

  // ------------------------------------------------------------------ write

  /** A write that is not interrupted accepts, in order, exactly what fits, and
      returns how much that was. */
  lemma WriteAlone(s: State, samples: seq<Sample>)
    requires Inv(s) && s.owner.Idle? && !s.failed
    ensures var n := Min(|samples|, s.capacity - |s.ring|);
            var w := Step(s, CallWrite(samples));
            RunFrom(w, Steps(OwnerRuns, 4 + n)) == w.(owner := Idle, ring := s.ring + samples[..n], returned := s.returned + n)
  {
    var n := Min(|samples|, s.capacity - |s.ring|);
    var w := Step(s, CallWrite(samples));
    WriteStarts(s, samples);
    hide Inv, Step, RunFrom;
    RunSteps(w, OwnerRuns, 3 + n);
    RunSteps(Step(w, OwnerRuns), OwnerRuns, 2 + n);
    RunSteps(Step(Step(w, OwnerRuns), OwnerRuns), OwnerRuns, 1 + n);
    PushesAll(w.(owner := Pushing(samples[..n], n)));
  }

  /** On a failed stream a write is refused and accepts nothing. */
  lemma FailedWrite(s: State, samples: seq<Sample>)
    requires Inv(s) && s.owner.Idle? && s.failed
    ensures var w := Step(s, CallWrite(samples));
            RunFrom(w, [OwnerRuns]) == w.(owner := Idle) && w.ring == s.ring && w.returned == s.returned
  {
    WriteStarts(s, samples);
    RunOne(Step(s, CallWrite(samples)), OwnerRuns);
    hide Inv, RunFrom;
  }

  /** A write checks the flag, caps its offer and offers it. */
  lemma WriteStarts(s: State, samples: seq<Sample>)
    requires Inv(s) && s.owner.Idle?
    ensures var n := Min(|samples|, s.capacity - |s.ring|);
            var w := Step(s, CallWrite(samples));
            && n <= s.Free() && w == s.(owner := Writing(samples), contractKept := w.contractKept)
            && (s.failed ==> Step(w, OwnerRuns) == w.(owner := Idle))
            && (!s.failed ==> Step(Step(Step(w, OwnerRuns), OwnerRuns), OwnerRuns) == w.(owner := Pushing(samples[..n], n)))
  {
    hide PlayInv, RequestInv, DropInv, WriteInv;
    var n := Min(|samples|, s.capacity - |s.ring|);
    var w := Step(s, CallWrite(samples));
    if !s.failed {
      var capping, offering := w.(owner := Capping(samples)), w.(owner := Offering(samples[..n]));
      assert Step(w, OwnerRuns) == capping;
      assert WriteStep(capping) == offering;
      assert samples[..n][..n] == samples[..n];
    }
  }

  lemma PushStep(s: State)
    requires s.owner.Pushing? && |s.owner.left| <= s.Free()
    ensures var left, count := s.owner.left, s.owner.count;
            Step(s, OwnerRuns) ==
            if left == [] then s.(owner := Idle, returned := s.returned + count)
            else s.(ring := s.ring + [left[0]], owner := Pushing(left[1..], count))
  {
  }

  /** Everything offered is pushed, and then returned. */
  lemma {:induction false} PushesAll(s: State)
    requires s.owner.Pushing? && |s.owner.left| <= s.Free()
    ensures var t := RunFrom(s, Steps(OwnerRuns, |s.owner.left| + 1));
            t == s.(owner := Idle, ring := s.ring + s.owner.left, returned := s.returned + s.owner.count)
    decreases |s.owner.left|
  {
    hide Step, RunFrom;
    var left := s.owner.left;
    PushStep(s);
    RunSteps(s, OwnerRuns, |left|);
    if left == [] {
      RunSteps(Step(s, OwnerRuns), OwnerRuns, 0);
      assert s.ring + [] == s.ring;
    } else {
      PushesAll(Step(s, OwnerRuns));
      assert (s.ring + [left[0]]) + left[1..] == s.ring + left;
    }
  }

  // ---------------------------------------------------------------- discard

  /** A discard that finds its request served collects: it reports, once, all that
      was flushed and not reported before, and is over. */
  lemma ServedDiscardReports(s: State)
    requires Inv(s) && s.owner.Polling? && s.pendingRequest.Some? && s.served >= s.pendingRequest.value
    ensures s.marks != []
    ensures RunFrom(s, [OwnerRuns, OwnerRuns]) ==
            s.(owner := Idle, pendingRequest := None, reported := s.flushed,
               drops := s.drops + [Drop(s.marks[|s.marks| - 1], s.flushed - s.reported, s.flushed, s.contractKept)])
  {
    hide Inv, RunFrom, Step;
    RequestIsMarked(s);
    RunTwo(s, OwnerRuns, OwnerRuns);
    PollCollects(s);
    CollectReports(s.(owner := Collecting));
  }

  lemma RequestIsMarked(s: State)
    requires Inv(s) && (s.pendingRequest.Some? || s.owner.Collecting?)
    ensures s.marks != []
  {
    hide RingInv, PlayInv, WriteInv, DropInv;
  }

  lemma PollCollects(s: State)
    requires s.owner.Polling? && s.pendingRequest.Some? && s.served >= s.pendingRequest.value
    ensures Step(s, OwnerRuns) == s.(owner := Collecting)
  {
  }

  lemma CollectReports(s: State)
    requires s.owner.Collecting? && s.marks != []
    ensures Step(s, OwnerRuns) ==
            s.(owner := Idle, pendingRequest := None, reported := s.flushed,
               drops := s.drops + [Drop(s.marks[|s.marks| - 1], s.flushed - s.reported, s.flushed, s.contractKept)])
  {
  }

  /** A discard called on an unfailed stream asks for a flush, unless one is still
      wanted, and waits for it. */
  lemma DiscardRequests(s: State)
    requires Inv(s) && s.owner.Idle? && !s.failed
    ensures s.pendingRequest.Some? ==> s.pendingRequest.value == s.requested
    ensures RunFrom(Step(s, CallDiscard), [OwnerRuns, OwnerRuns]) ==
            if s.pendingRequest.Some? then s.(owner := Polling)
            else s.(requested := s.requested + 1, pendingRequest := Some(s.requested + 1),
                    marks := s.marks + [|s.taken| + |s.ring|], owner := Polling)
  {
    hide *;
    RequestOf(s);
    DiscardCalled(s);
    RunTwo(Step(s, CallDiscard), OwnerRuns, OwnerRuns);
    RequestMade(s.(owner := Requesting));
  }

  lemma DiscardCalled(s: State)
    requires s.owner.Idle? && !s.failed
    ensures Step(s, CallDiscard) == s.(owner := Discarding)
    ensures Step(s.(owner := Discarding), OwnerRuns) == s.(owner := Requesting)
  {
  }

  lemma RequestOf(s: State)
    requires Inv(s)
    ensures s.pendingRequest.Some? ==> s.pendingRequest.value == s.requested
  {
    hide RingInv, PlayInv, WriteInv, DropInv;
  }

  lemma RequestMade(s: State)
    requires s.owner.Requesting?
    ensures Step(s, OwnerRuns) ==
            if s.pendingRequest.Some? then s.(owner := Polling)
            else s.(requested := s.requested + 1, pendingRequest := Some(s.requested + 1),
                    marks := s.marks + [|s.taken| + |s.ring|], owner := Polling)
  {
  }

  /** A discard whose request is not served yet reports nothing and keeps asking. */
  lemma UnservedDiscardWaits(s: State)
    requires Inv(s) && s.owner.Polling? && s.pendingRequest.Some? && s.served < s.pendingRequest.value
    ensures RunFrom(s, [OwnerRuns]) == s.(owner := Idle)
  {
    RunOne(s, OwnerRuns);
  }

  /** No write was called while a discard was pending. */
  ghost predicate NoWritePending(s: State, events: seq<Event>) {
    forall k :: 0 <= k < |events| && events[k].CallWrite? && RunFrom(s, events[..k]).owner.Idle? ==>
      RunFrom(s, events[..k]).pendingRequest.None?
  }

  lemma NoWriteSplits(s: State, events: seq<Event>)
    requires events != []
    ensures var n := |events| - 1;
            var t := RunFrom(s, events[..n]);
            NoWritePending(s, events) <==>
            NoWritePending(s, events[..n]) && (events[n].CallWrite? && t.owner.Idle? ==> t.pendingRequest.None?)
  {
    hide RunFrom;
    var n := |events| - 1;
    assert forall k :: 0 <= k < n ==> events[..n][..k] == events[..k] && events[..n][k] == events[k];
  }

  /** The contract the drops are exact under is just that. */
  lemma {:induction false} ContractKeptIff(capacity: nat, events: seq<Event>)
    ensures RunFrom(Start(capacity), events).contractKept <==> NoWritePending(Start(capacity), events)
  {
    if events != [] {
      hide Step, NoWritePending;
      var n := |events| - 1;
      ContractKeptIff(capacity, events[..n]);
      NoWriteSplits(Start(capacity), events);
      ContractStep(RunFrom(Start(capacity), events[..n]), events[n]);
    }
  }

  lemma ContractStep(s: State, e: Event)
    ensures Step(s, e).contractKept <==> s.contractKept && (e.CallWrite? && s.owner.Idle? ==> s.pendingRequest.None?)
  {
    WriteFrame(s);
    DiscardFrame(s);
    ServeFrame(s);
    FillFrame(s);
    hide WriteStep, DiscardStep, ServeStep, FillStep;
  }

  // -------------------------------------------------- a callback and a flush

  /** The callback will look for request `q`, has found one no older, or has served it. */
  ghost predicate WillServe(s: State, q: nat) {
    && s.requested >= q
    && (s.served >= q || s.callback.Waiting? || s.callback.Entering? ||
        ((s.callback.Comparing? || Flushing(s)) && s.callback.request >= q))
  }

  lemma OwnerServes(s: State, q: nat)
    requires WillServe(s, q) && RequestInv(s)
    ensures WillServe(WriteStep(s), q) && WillServe(DiscardStep(s), q)
  {
    WriteFrame(s);
    DiscardFrame(s);
    assert DiscardStep(s).requested >= s.requested;
    hide WriteStep, DiscardStep, RequestInv;
  }

  lemma CallbackPartServes(s: State, q: nat)
    requires RequestInv(s) && WillServe(s, q)
    ensures InServe(s) ==> WillServe(ServeStep(s), q)
    ensures !InServe(s) ==> WillServe(FillStep(s), q)
  {
    FillFrame(s);
    hide Settle, Samples;
  }

  lemma StepServes(s: State, e: Event, q: nat)
    requires RequestInv(s) && WillServe(s, q)
    ensures WillServe(Step(s, e), q)
  {
    hide WriteStep, DiscardStep, ServeStep, FillStep, RequestInv;
    OwnerServes(s, q);
    CallbackPartServes(s, q);
  }

  lemma {:induction false} RunServes(s: State, events: seq<Event>, q: nat)
    requires Inv(s) && WillServe(s, q)
    ensures WillServe(RunFrom(s, events), q)
  {
    hide Step, Inv, WillServe;
    if events != [] {
      var n := |events| - 1;
      RunServes(s, events[..n], q);
      RunKeeps(s, events[..n]);
      InvRequests(RunFrom(s, events[..n]));
      StepServes(RunFrom(s, events[..n]), events[n], q);
    }
  }

  lemma InvRequests(s: State)
    requires Inv(s)
    ensures RequestInv(s)
  {
  }

  /** In every interleaving: a callback that begins after a request was made has
      served it once it gets to reading the ring, failed stream or not. */
  lemma CallbackServes(s: State, events: seq<Event>)
    requires Inv(s) && s.callback.Waiting?
    ensures var t := RunFrom(s, events);
            t.callback.Checking? || PastCheck(t) ==> t.served >= s.requested
  {
    hide Inv, RunFrom;
    RunServes(s, events, s.requested);
  }

  // ------------------------------------------------- a discard can be served

  /** How far the callback is from having served the pending request. */
  function ToServing(s: State): (nat, nat)
    requires s.pendingRequest.Some?
  {
    var stale := (s.callback.Comparing? || Flushing(s)) && s.callback.request < s.pendingRequest.value;
    match s.callback
    case Waiting => (5, 0)
    case Entering(_, _) => (4, 0)
    case Comparing(_, _, _) => (if stale then 13 else 3, 0)
    case Draining(_, _, _, _) => (if stale then 12 else 2, |s.ring|)
    case Counting(_, _, _, _) => (if stale then 11 else 1, 0)
    case Serving(_, _, _) => (if stale then 10 else 0, 0)
    case Checking(_, _) => (9, 0)
    case Sizing(_, _) => (8, 0)
    case Popping(left, _, _) => (7, left)
    case Finishing(_, _) => (6, 0)
  }

  function Onward(s: State): Event {
    if s.callback.Waiting? then CallFill(0, true) else CallbackRuns
  }

  ghost predicate Closer(s: State, t: State)
    requires s.pendingRequest.Some?
  {
    && t.owner == s.owner && t.pendingRequest == s.pendingRequest && t.drops == s.drops
    && (t.served < s.pendingRequest.value ==>
          ToServing(t).0 < ToServing(s).0 || (ToServing(t).0 == ToServing(s).0 && ToServing(t).1 < ToServing(s).1))
  }

  lemma ServeOnward(s: State)
    requires RequestInv(s) && InServe(s) && s.pendingRequest.Some? && s.served < s.pendingRequest.value
    ensures Closer(s, ServeStep(s))
  {
  }

  lemma FillOnward(s: State)
    requires !InServe(s) && !s.callback.Waiting? && s.pendingRequest.Some? && s.served < s.pendingRequest.value
    ensures Closer(s, FillStep(s))
  {
    hide Settle, Samples;
  }

  lemma OnwardServes(s: State)
    requires Inv(s) && s.owner.Polling? && s.pendingRequest.Some? && s.served < s.pendingRequest.value
    ensures Closer(s, Step(s, Onward(s)))
  {
    hide ServeStep, FillStep;
    InvRequests(s);
    hide Inv, RequestInv;
    if s.callback.Waiting? {
    } else if InServe(s) {
      ServeOnward(s);
    } else {
      FillOnward(s);
    }
  }

  /** Owner steps, callback steps, and calls of a discard or a callback. */
  predicate Undisturbed(events: seq<Event>) {
    forall e :: e in events ==> e.OwnerRuns? || e.CallbackRuns? || e.CallDiscard? || e.CallFill?
  }

  lemma {:induction false} GetsServed(s: State) returns (events: seq<Event>)
    requires Inv(s) && s.owner.Polling? && s.pendingRequest.Some?
    ensures Undisturbed(events)
    ensures var t := RunFrom(s, events);
            t.owner.Polling? && t.pendingRequest == s.pendingRequest && t.served >= s.pendingRequest.value && t.drops == s.drops
    decreases ToServing(s).0, ToServing(s).1
  {
    events := [];
    if s.served < s.pendingRequest.value {
      var next := Step(s, Onward(s));
      OnwardServes(s);
      StepKeeps(s, Onward(s));
      hide Inv, Step, ToServing, RunFrom;
      if next.served < s.pendingRequest.value {
        events := GetsServed(next);
      } else {
        RunNothing(next);
      }
      RunCons(s, Onward(s), events);
      events := [Onward(s)] + events;
    }
  }

  /** The write in progress comes to its end. */
  lemma {:induction false} WriteEnds(s: State) returns (events: seq<Event>)
    requires Inv(s) && InWrite(s) && !s.failed
    ensures Undisturbed(events)
    ensures var t := RunFrom(s, events); t.owner.Idle? && !t.failed && t.drops == s.drops
    decreases match s.owner case Writing(_) => 3 case Capping(_) => 2 case Offering(_) => 1 case _ => 0,
              if s.owner.Pushing? then |s.owner.left| else 0
  {
    WriteFrame(s);
    StepKeeps(s, OwnerRuns);
    var next := Step(s, OwnerRuns);
    assert next == WriteStep(s);
    RunOne(s, OwnerRuns);
    if next.owner.Idle? {
      events := [OwnerRuns];
    } else {
      WriteAdvances(s);
      hide Inv, Step, RunFrom, WriteStep;
      var rest := WriteEnds(next);
      RunCons(s, OwnerRuns, rest);
      events := [OwnerRuns] + rest;
    }
  }

  lemma WriteAdvances(s: State)
    requires InWrite(s) && !s.failed && !WriteStep(s).owner.Idle?
    ensures match s.owner
      case Writing(_) => WriteStep(s).owner.Capping?
      case Capping(_) => WriteStep(s).owner.Offering?
      case Offering(_) => WriteStep(s).owner.Pushing?
      case Pushing(left, _) => WriteStep(s).owner.Pushing? && |WriteStep(s).owner.left| < |left|
      case _ => true
  {
  }

  /** The discard in progress, or a new one, comes to wait for its request. */
  lemma ComesToPoll(s: State) returns (events: seq<Event>)
    requires Inv(s) && !s.failed && !s.owner.Collecting?
    ensures Undisturbed(events)
    ensures var t := RunFrom(s, events); Inv(t) && t.owner.Polling? && t.pendingRequest.Some? && t.drops == s.drops
  {
    hide Inv, RunFrom, Step;
    InvRequests(s);
    events := [];
    var t := s;
    RunNothing(s);
    if InWrite(s) {
      events := WriteEnds(s);
      t := RunFrom(s, events);
      RunKeeps(s, events);
    }
    if t.owner.Idle? {
      RunAppend(s, events, [CallDiscard]);
      RunOne(t, CallDiscard);
      DiscardRequests(t);
      RunAppend(s, events + [CallDiscard], [OwnerRuns, OwnerRuns]);
      events := events + [CallDiscard] + [OwnerRuns, OwnerRuns];
    } else if t.owner.Discarding? {
      RunAppend(s, events, [OwnerRuns, OwnerRuns]);
      DiscardGoesOn(t);
      events := events + [OwnerRuns, OwnerRuns];
    } else if t.owner.Requesting? {
      RunAppend(s, events, [OwnerRuns]);
      DiscardGoesOn(t);
      events := events + [OwnerRuns];
    }
    RunKeeps(s, events);
  }

  lemma DiscardGoesOn(s: State)
    requires RequestInv(s) && !s.failed
    ensures s.owner.Discarding? ==>
              var t := RunFrom(s, [OwnerRuns, OwnerRuns]); t.owner.Polling? && t.pendingRequest.Some? && t.drops == s.drops
    ensures s.owner.Requesting? ==>
              var t := RunFrom(s, [OwnerRuns]); t.owner.Polling? && t.pendingRequest.Some? && t.drops == s.drops
  {
    RunOne(s, OwnerRuns);
    RunTwo(s, OwnerRuns, OwnerRuns);
    if s.owner.Discarding? {
      assert Step(s, OwnerRuns) == s.(owner := Requesting);
    }
  }

  /** No state of an unfailed stream is stuck: steps of the owner and the callback
      alone bring a discard to its report. */
  lemma DiscardCanReport(s: State) returns (events: seq<Event>)
    requires Inv(s) && !s.failed
    ensures Undisturbed(events) && |RunFrom(s, events).drops| == |s.drops| + 1
  {
    hide Inv, RunFrom, Step;
    if s.owner.Collecting? {
      events := [OwnerRuns];
      RunOne(s, OwnerRuns);
      RequestIsMarked(s);
      CollectReports(s);
    } else {
      var first := ComesToPoll(s);
      var waiting := RunFrom(s, first);
      var second := GetsServed(waiting);
      RunKeeps(waiting, second);
      RunAppend(s, first, second);
      ServedDiscardReports(RunFrom(waiting, second));
      RunAppend(s, first + second, [OwnerRuns, OwnerRuns]);
      events := first + second + [OwnerRuns, OwnerRuns];
    }
  }

  // --------------------------------------------------------------- callback

  function TakenAs(samples: seq<Sample>, fate: Fate): seq<Taken> {
    seq(|samples|, i requires 0 <= i < |samples| => Taken(samples[i], fate))
  }

  lemma TakenFirst(taken: seq<Taken>, ring: seq<Sample>, n: nat, fate: Fate)
    requires 0 < n <= |ring|
    ensures taken + [Taken(ring[0], fate)] + TakenAs(ring[1..][..n - 1], fate) == taken + TakenAs(ring[..n], fate)
    ensures ring[1..][n - 1..] == ring[n..]
  {
  }

  lemma DrainOne(s: State)
    requires s.callback.Draining? && s.ring != []
    ensures Step(s, CallbackRuns) ==
            s.(taken := s.taken + [Taken(s.ring[0], Flushed)], ring := s.ring[1..],
               callback := Draining(s.callback.len, s.callback.timed, s.callback.request, s.callback.dropped + 1))
  {
  }

  lemma DrainEnds(s: State)
    requires s.callback.Draining? && s.ring == []
    ensures Step(s, CallbackRuns) ==
            s.(callback := Counting(s.callback.len, s.callback.timed, s.callback.request, s.callback.dropped))
  {
  }

  /** A drain takes the whole ring. */
  lemma {:induction false} DrainsAll(s: State)
    requires s.callback.Draining?
    ensures RunFrom(s, Steps(CallbackRuns, |s.ring| + 1)) ==
            s.(taken := s.taken + TakenAs(s.ring, Flushed), ring := [],
               callback := Counting(s.callback.len, s.callback.timed, s.callback.request, s.callback.dropped + |s.ring|))
    decreases |s.ring|
  {
    hide Step, RunFrom;
    RunSteps(s, CallbackRuns, |s.ring|);
    if s.ring == [] {
      DrainEnds(s);
      RunSteps(Step(s, CallbackRuns), CallbackRuns, 0);
      assert s.taken + TakenAs([], Flushed) == s.taken;
    } else {
      DrainOne(s);
      DrainsAll(Step(s, CallbackRuns));
      TakenFirst(s.taken, s.ring, |s.ring|, Flushed);
      assert s.ring[..|s.ring|] == s.ring && s.ring[1..][..|s.ring| - 1] == s.ring[1..];
    }
  }

  lemma PopOne(s: State)
    requires s.callback.Popping? && s.callback.left > 0 && s.ring != []
    ensures Step(s, CallbackRuns) ==
            s.(taken := s.taken + [Taken(s.ring[0], InHand)], ring := s.ring[1..],
               callback := s.callback.(left := s.callback.left - 1))
  {
  }

  lemma PopEnds(s: State)
    requires s.callback.Popping? && s.callback.left == 0
    ensures Step(s, CallbackRuns) == s.(callback := Finishing(s.callback.timed, s.callback.start))
  {
  }

  /** A read pops as many samples as were there. */
  lemma {:induction false} PopsAll(s: State, left: nat)
    requires s.callback.Popping? && left == s.callback.left <= |s.ring|
    ensures RunFrom(s, Steps(CallbackRuns, left + 1)) ==
            s.(taken := s.taken + TakenAs(s.ring[..left], InHand), ring := s.ring[left..],
               callback := Finishing(s.callback.timed, s.callback.start))
    decreases left
  {
    hide Step, RunFrom;
    RunSteps(s, CallbackRuns, left);
    if left == 0 {
      PopEnds(s);
      RunSteps(Step(s, CallbackRuns), CallbackRuns, 0);
      assert s.taken + TakenAs([], InHand) == s.taken;
    } else {
      PopOne(s);
      PopsAll(Step(s, CallbackRuns), left - 1);
      TakenFirst(s.taken, s.ring, left, InHand);
    }
  }

  lemma SettlesHand(taken: seq<Taken>, hand: seq<Sample>, fate: Fate)
    ensures var all := taken + TakenAs(hand, InHand);
            Settle(all, |taken|, fate) == taken + TakenAs(hand, fate) && Samples(all[|taken|..]) == hand
  {
  }

  /** What a callback's fill leaves behind, of a ring that holds `queue`. */
  ghost function Filled(s: State, len: nat, timed: bool): State {
    var k := Min(len, |s.ring|);
    if s.failed then s.(callback := Waiting)
    else if timed then
      s.(callback := Waiting, ring := s.ring[k..], taken := s.taken + TakenAs(s.ring[..k], Handed),
         device := s.device + s.ring[..k], consumed := s.consumed + k)
    else
      s.(callback := Waiting, ring := s.ring[k..], taken := s.taken + TakenAs(s.ring[..k], Lost), failed := k > 0)
  }

  lemma FillEnds(s: State, taken: seq<Taken>, hand: seq<Sample>)
    requires s.callback.Finishing? && s.callback.start == |taken| && s.taken == taken + TakenAs(hand, InHand)
    ensures Step(s, CallbackRuns) ==
            if hand == [] then s.(callback := Waiting)
            else if s.callback.timed then
              s.(callback := Waiting, taken := taken + TakenAs(hand, Handed), device := s.device + hand,
                 consumed := s.consumed + |hand|)
            else s.(callback := Waiting, taken := taken + TakenAs(hand, Lost), failed := true)
  {
    SettlesHand(taken, hand, Handed);
    SettlesHand(taken, hand, Lost);
    hide Settle, Samples;
  }

  lemma FillStarts(s: State)
    requires s.callback.Checking?
    ensures var c := s.callback;
            if s.failed then Step(s, CallbackRuns) == s.(callback := Waiting)
            else Step(Step(s, CallbackRuns), CallbackRuns) ==
                 s.(callback := Popping(Min(c.len, |s.ring|), c.timed, |s.taken|))
  {
    if !s.failed {
      var sizing := s.(callback := Sizing(s.callback.len, s.callback.timed));
      assert Step(s, CallbackRuns) == sizing;
    }
  }

  /** From its check of the flag, a callback that is not interrupted hands over, in
      order, as much as it has room for and the ring holds, or loses it when its
      timestamp is invalid; on a failed stream it leaves the ring alone. */
  lemma FillAlone(s: State) returns (n: nat)
    requires s.callback.Checking?
    ensures RunFrom(s, Steps(CallbackRuns, n)) == Filled(s, s.callback.len, s.callback.timed)
  {
    var len, timed := s.callback.len, s.callback.timed;
    FillStarts(s);
    hide Step, RunFrom;
    if s.failed {
      n := 1;
      RunSteps(s, CallbackRuns, 0);
      RunSteps(Step(s, CallbackRuns), CallbackRuns, 0);
    } else {
      var k := Min(len, |s.ring|);
      var popping := s.(callback := Popping(k, timed, |s.taken|));
      var popped := RunFrom(popping, Steps(CallbackRuns, k + 1));
      PopsAll(popping, k);
      FillEnds(popped, s.taken, s.ring[..k]);
      OneMoreStep(popping, CallbackRuns, k + 1);
      RunSteps(Step(s, CallbackRuns), CallbackRuns, k + 2);
      RunSteps(s, CallbackRuns, k + 3);
      n := k + 4;
      if k == 0 {
        assert s.taken + TakenAs([], Handed) == s.taken == s.taken + TakenAs([], Lost) && s.device + [] == s.device;
      }
    }
  }

  lemma OneMoreStep(s: State, e: Event, n: nat)
    ensures RunFrom(s, Steps(e, n + 1)) == Step(RunFrom(s, Steps(e, n)), e)
  {
    hide Step;
    assert Steps(e, n + 1)[..n] == Steps(e, n);
  }

  lemma ServeStarts(s: State, len: nat, timed: bool)
    requires s.callback.Waiting?
    ensures Step(Step(Step(s, CallFill(len, timed)), CallbackRuns), CallbackRuns) ==
            s.(callback := if s.requested == s.served then Checking(len, timed) else Draining(len, timed, s.requested, 0))
  {
    var comparing := s.(callback := Comparing(len, timed, s.requested));
    assert Step(Step(s, CallFill(len, timed)), CallbackRuns) == comparing;
  }

  lemma ServeEnds(s: State)
    requires s.callback.Counting?
    ensures var c := s.callback;
            Step(Step(s, CallbackRuns), CallbackRuns) ==
            s.(flushed := s.flushed + c.dropped, served := c.request, callback := Checking(c.len, c.timed))
  {
    var serving := s.(flushed := s.flushed + s.callback.dropped, callback := Serving(s.callback.len, s.callback.timed, s.callback.request));
    assert Step(s, CallbackRuns) == serving;
  }

  /** The state once a callback has looked for a flush and served it. */
  ghost function Checked(s: State, len: nat, timed: bool): (t: State)
    ensures t.callback == Checking(len, timed)
  {
    if s.requested == s.served then s.(callback := Checking(len, timed))
    else
      s.(taken := s.taken + TakenAs(s.ring, Flushed), ring := [], flushed := s.flushed + |s.ring|, served := s.requested,
         callback := Checking(len, timed))
  }

  lemma ServeAlone(s: State, len: nat, timed: bool) returns (n: nat)
    requires s.callback.Waiting?
    ensures RunFrom(Step(s, CallFill(len, timed)), Steps(CallbackRuns, n)) == Checked(s, len, timed)
  {
    hide *;
    var entering := Step(s, CallFill(len, timed));
    var next := Step(Step(entering, CallbackRuns), CallbackRuns);
    ServeStarts(s, len, timed);
    RunSteps(entering, CallbackRuns, 1);
    RunSteps(Step(entering, CallbackRuns), CallbackRuns, 0);
    RunSteps(next, CallbackRuns, 0);
    CheckedIs(s, len, timed);
    n := 2;
    if s.requested != s.served {
      DrainServes(next);
      StepsAppend(entering, CallbackRuns, 2, |s.ring| + 3);
      n := 2 + (|s.ring| + 3);
    }
  }

  lemma CheckedIs(s: State, len: nat, timed: bool)
    ensures s.requested == s.served ==> Checked(s, len, timed) == s.(callback := Checking(len, timed))
    ensures s.requested != s.served ==>
              Checked(s, len, timed) ==
              s.(taken := s.taken + TakenAs(s.ring, Flushed), ring := [], flushed := s.flushed + 0 + |s.ring|, served := s.requested,
                 callback := Checking(len, timed))
  {
  }

  /** A drain empties the ring, counts it and marks the request served. */
  lemma DrainServes(s: State)
    requires s.callback.Draining?
    ensures var c := s.callback;
            RunFrom(s, Steps(CallbackRuns, |s.ring| + 3)) ==
            s.(taken := s.taken + TakenAs(s.ring, Flushed), ring := [], flushed := s.flushed + c.dropped + |s.ring|,
               served := c.request, callback := Checking(c.len, c.timed))
  {
    DrainsAll(s);
    hide Step, RunFrom;
    ServeEnds(RunFrom(s, Steps(CallbackRuns, |s.ring| + 1)));
    OneMoreStep(s, CallbackRuns, |s.ring| + 1);
    OneMoreStep(s, CallbackRuns, |s.ring| + 2);
  }

  /** What a whole callback of `len` values makes of `s`. */
  ghost predicate CalledBack(s: State, len: nat, timed: bool, t: State) {
    var queue := if s.requested == s.served then s.ring else [];
    var k := Min(len, |queue|);
    && t.callback.Waiting? && t.served == s.requested
    && t.flushed == s.flushed + |s.ring| - |queue|
    && t.ring == (if s.failed then queue else queue[k..])
    && t.device == (if s.failed || !timed then s.device else s.device + queue[..k])
    && t.consumed == (if s.failed || !timed then s.consumed else s.consumed + k)
    && t.failed == (s.failed || (!timed && k > 0))
    && t.owner == s.owner && t.requested == s.requested && t.drops == s.drops
  }

  lemma FilledIs(s: State, len: nat, timed: bool)
    ensures CalledBack(s, len, timed, Filled(Checked(s, len, timed), len, timed))
  {
  }

  /** A whole callback that is not interrupted: it first serves a pending flush by
      dropping and counting the whole ring, and then fills. */
  lemma CallbackAlone(s: State, len: nat, timed: bool) returns (n: nat)
    requires s.callback.Waiting?
    ensures CalledBack(s, len, timed, RunFrom(Step(s, CallFill(len, timed)), Steps(CallbackRuns, n)))
  {
    hide *;
    var a := ServeAlone(s, len, timed);
    FilledIs(s, len, timed);
    var entering := Step(s, CallFill(len, timed));
    var b := FillAlone(Checked(s, len, timed));
    StepsAppend(entering, CallbackRuns, a, b);
    n := a + b;
  }
}
