/** The output stream's shared state under every interleaving of its three
    parties: the owner that writes and discards, the device callback that drains
    and plays, and the error callback that fails the stream. One step is one
    access to shared state. */
module FlushProtocol {
  import opened Wrappers

  type Sample = real

  /** What became of a sample taken out of the ring. */
  datatype Fate = InHand | Handed | Flushed | Lost

  datatype Taken = Taken(sample: Sample, fate: Fate)

  /** The owner between two accesses: a write checks the failure flag, caps its
      offer, offers and pushes; a discard checks the flag, requests a flush,
      polls for it to be served and collects the count. */
  datatype Owner =
    | Idle
    | Writing(samples: seq<Sample>)
    | Capping(samples: seq<Sample>)
    | Offering(samples: seq<Sample>)
    | Pushing(left: seq<Sample>, count: nat)
    | Discarding
    | Requesting
    | Polling
    | Collecting

  /** The device callback between two accesses: `len` is its buffer length, and
      `timed` whether its timestamp is valid. */
  datatype Callback =
    | Waiting
    | Entering(len: nat, timed: bool)
    | Comparing(len: nat, timed: bool, request: nat)
    | Draining(len: nat, timed: bool, request: nat, dropped: nat)
    | Counting(len: nat, timed: bool, request: nat, dropped: nat)
    | Serving(len: nat, timed: bool, request: nat)
    | Checking(len: nat, timed: bool)
    | Sizing(len: nat, timed: bool)
    | Popping(left: nat, timed: bool, start: nat)
    | Finishing(timed: bool, start: nat)

  /** A discard that reported its drop: the samples accepted before its request
      (`mark`), the drop reported, and the total reported so far. */
  datatype Drop = Drop(mark: nat, amount: int, total: nat, contractKept: bool)

  /** `taken` are the samples popped from the ring so far. `marks[q - 1]` is how
      many samples had been accepted when flush request `q` was made, `returned`
      the sum of all write results, `device` what the device was handed. */
  datatype State = State(
    capacity: nat, taken: seq<Taken>, ring: seq<Sample>, overflow: nat,
    requested: nat, served: nat, flushed: nat, failed: bool, consumed: nat, device: seq<Sample>,
    owner: Owner, pendingRequest: Option<nat>, reported: nat, returned: nat,
    callback: Callback,
    marks: seq<nat>, drops: seq<Drop>, contractKept: bool, lostPushes: nat, phantoms: nat)
  {
    function Accepted(): nat {
      |taken| + |ring|
    }

    function Free(): int {
      capacity - |ring|
    }

    /** The samples below this index have met their fate for good. */
    function Settled(): nat {
      if callback.Popping? || callback.Finishing? then callback.start else |taken|
    }
  }

  function Start(capacity: nat): State {
    State(capacity, [], [], 0, 0, 0, 0, false, 0, [], Idle, None, 0, 0, Waiting, [], [], true, 0, 0)
  }

  /** One scheduling decision. A call begins only when its thread is at rest. */
  datatype Event =
    | CallWrite(samples: seq<Sample>)
    | CallDiscard
    | OwnerRuns
    | CallFill(len: nat, timed: bool)
    | CallbackRuns
    | StreamFails

  /** `n` limited to what lies between 0 and `limit`. */
  function Clip(n: int, limit: nat): (c: nat)
    ensures c <= limit && (0 <= n ==> c <= n)
  {
    if n < 0 then 0 else if n < limit then n else limit
  }

  /** A write in progress: check the flag, cap the offer, offer, push. */
  function WriteStep(s: State): State {
    match s.owner
    case Writing(samples) => s.(owner := if s.failed then Idle else Capping(samples))
    case Capping(samples) => s.(owner := Offering(samples[..Clip(s.Free(), |samples|)]))
    case Offering(samples) =>
      var n := Clip(s.Free(), |samples|);
      s.(owner := Pushing(samples[..n], n), overflow := s.overflow + |samples| - n)
    case Pushing(left, count) =>
      if left == [] then s.(owner := Idle, returned := s.returned + count)
      else if s.Free() > 0 then s.(ring := s.ring + [left[0]], owner := Pushing(left[1..], count))
      else s.(lostPushes := s.lostPushes + 1, owner := Pushing(left[1..], count))
    case _ => s
  }

  /** A discard in progress: check the flag, request, poll, collect. */
  function DiscardStep(s: State): State {
    match s.owner
    case Discarding =>
      if s.failed then s.(pendingRequest := None, owner := Idle) else s.(owner := Requesting)
    case Requesting =>
      if s.pendingRequest.Some? then s.(owner := Polling)
      else s.(requested := s.requested + 1, pendingRequest := Some(s.requested + 1),
              marks := s.marks + [s.Accepted()], owner := Polling)
    case Polling =>
      s.(owner := if s.pendingRequest.Some? && s.served >= s.pendingRequest.value then Collecting else Idle)
    case Collecting =>
      s.(pendingRequest := None, reported := s.flushed, owner := Idle,
         drops := s.drops + [Drop(if s.marks == [] then 0 else s.marks[|s.marks| - 1],
                                  s.flushed - s.reported, s.flushed, s.contractKept)])
    case _ => s
  }

  /** All samples in hand since `start` meet one fate. */
  function Settle(taken: seq<Taken>, start: nat, fate: Fate): (settled: seq<Taken>)
    requires start <= |taken|
    ensures |settled| == |taken|
  {
    taken[..start] + seq(|taken| - start, i requires 0 <= i < |taken| - start => taken[start + i].(fate := fate))
  }

  function Samples(taken: seq<Taken>): (samples: seq<Sample>)
    ensures |samples| == |taken|
  {
    seq(|taken|, i requires 0 <= i < |taken| => taken[i].sample)
  }

  /** The callback's first part: serve a pending flush by draining the ring. */
  function ServeStep(s: State): State {
    match s.callback
    case Entering(len, timed) => s.(callback := Comparing(len, timed, s.requested))
    case Comparing(len, timed, request) =>
      s.(callback := if request == s.served then Checking(len, timed) else Draining(len, timed, request, 0))
    case Draining(len, timed, request, dropped) =>
      if s.ring != [] then
        s.(taken := s.taken + [Taken(s.ring[0], Flushed)], ring := s.ring[1..],
           callback := Draining(len, timed, request, dropped + 1))
      else s.(callback := Counting(len, timed, request, dropped))
    case Counting(len, timed, request, dropped) =>
      s.(flushed := s.flushed + dropped, callback := Serving(len, timed, request))
    case Serving(len, timed, request) => s.(served := request, callback := Checking(len, timed))
    case _ => s
  }

  /** The callback's second part: unless the stream failed, read the ring, then
      hand the samples to the device and count them, or silence them. */
  function FillStep(s: State): State {
    match s.callback
    case Checking(len, timed) => s.(callback := if s.failed then Waiting else Sizing(len, timed))
    case Sizing(len, timed) => s.(callback := Popping(Clip(|s.ring|, len), timed, |s.taken|))
    case Popping(left, timed, start) =>
      if left == 0 then s.(callback := Finishing(timed, start))
      else if s.ring != [] then
        s.(taken := s.taken + [Taken(s.ring[0], InHand)], ring := s.ring[1..], callback := Popping(left - 1, timed, start))
      else s.(phantoms := s.phantoms + 1, callback := Popping(left - 1, timed, start))
    case Finishing(timed, start) =>
      if start >= |s.taken| then s.(callback := Waiting)
      else if !timed then s.(failed := true, taken := Settle(s.taken, start, Lost), callback := Waiting)
      else s.(consumed := s.consumed + |s.taken| - start, device := s.device + Samples(s.taken[start..]),
              taken := Settle(s.taken, start, Handed), callback := Waiting)
    case _ => s
  }

  predicate InWrite(s: State) {
    s.owner.Writing? || s.owner.Capping? || s.owner.Offering? || s.owner.Pushing?
  }

  /** The callback has seen a request it has not served yet. */
  predicate Flushing(s: State) {
    s.callback.Draining? || s.callback.Counting? || s.callback.Serving?
  }

  predicate InServe(s: State) {
    s.callback.Entering? || s.callback.Comparing? || Flushing(s)
  }

  /** The callback has passed its check of the failure flag. */
  predicate PastCheck(s: State) {
    s.callback.Sizing? || s.callback.Popping? || s.callback.Finishing?
  }

  function Step(s: State, e: Event): State {
    match e
    case CallWrite(samples) =>
      if s.owner.Idle? then
        s.(owner := Writing(samples), contractKept := s.contractKept && s.pendingRequest.None?)
      else s
    case CallDiscard => if s.owner.Idle? then s.(owner := Discarding) else s
    case OwnerRuns => if InWrite(s) then WriteStep(s) else DiscardStep(s)
    case CallFill(len, timed) => if s.callback.Waiting? then s.(callback := Entering(len, timed)) else s
    case CallbackRuns => if InServe(s) then ServeStep(s) else FillStep(s)
    case StreamFails => s.(failed := true)
  }

  function RunFrom(s: State, events: seq<Event>): State {
    if events == [] then s else Step(RunFrom(s, events[..|events| - 1]), events[|events| - 1])
  }

  // -------------------------------------------------------------- invariant

  /** The samples that met a fate, in ring order. */
  function Select(taken: seq<Taken>, fate: Fate): seq<Sample> {
    if taken == [] then []
    else
      var n := |taken| - 1;
      Select(taken[..n], fate) + (if taken[n].fate == fate then [taken[n].sample] else [])
  }

  function Count(taken: seq<Taken>, fate: Fate): nat {
    |Select(taken, fate)|
  }

  ghost predicate RingInv(s: State) {
    && |s.ring| <= s.capacity
    && s.Settled() <= |s.taken|
    && (forall i :: 0 <= i < s.Settled() ==> s.taken[i].fate != InHand)
    && (forall i :: s.Settled() <= i < |s.taken| ==> s.taken[i].fate == InHand)
    && (s.callback.Popping? ==> s.callback.left <= |s.ring|)
    && s.phantoms == 0
  }

  ghost predicate PlayInv(s: State) {
    && s.device == Select(s.taken, Handed)
    && s.consumed == |s.device|
    && (Select(s.taken, Lost) != [] ==> s.failed)
    && Count(s.taken, Flushed) ==
       s.flushed + (if s.callback.Draining? || s.callback.Counting? then s.callback.dropped else 0)
  }

  /** Nothing offered is dropped on the way into the ring. */
  ghost predicate WriteInv(s: State) {
    && s.overflow == 0 && s.lostPushes == 0
    && (s.owner.Offering? ==> |s.owner.samples| <= s.Free())
    && (s.owner.Pushing? ==> |s.owner.left| <= s.Free() && |s.owner.left| <= s.owner.count)
    && s.returned + (if s.owner.Pushing? then s.owner.count - |s.owner.left| else 0) == s.Accepted()
  }

  ghost predicate RequestInv(s: State) {
    && |s.marks| == s.requested && s.served <= s.requested && (s.requested == 0 ==> s.flushed == 0)
    && (forall q :: 0 <= q < |s.marks| ==> s.marks[q] <= s.Accepted())
    && (s.callback.Comparing? ==> s.served <= s.callback.request <= s.requested)
    && (Flushing(s) ==> s.served < s.callback.request <= s.requested)
    && (s.callback.Counting? || s.callback.Serving? ==> s.marks[s.callback.request - 1] <= |s.taken|)
    && (s.served > 0 ==> s.marks[s.served - 1] <= s.Settled())
    && (s.pendingRequest.Some? ==> s.pendingRequest.value == s.requested > 0)
    && (s.owner.Polling? ==> s.pendingRequest.Some?)
    && (s.owner.Collecting? ==> s.pendingRequest.Some? && s.served == s.requested)
    && (s.contractKept && s.pendingRequest.Some? ==> s.marks[s.requested - 1] == s.Accepted() && !InWrite(s))
  }

  function Total(drops: seq<Drop>): int {
    if drops == [] then 0 else Total(drops[..|drops| - 1]) + drops[|drops| - 1].amount
  }

  /** A reported drop is non-negative, is about samples whose fate is sealed, and
      under the no-write contract brings the total to all samples flushed. */
  ghost predicate DropOk(s: State, d: Drop) {
    && d.amount >= 0 && d.mark <= s.Settled() <= |s.taken|
    && (d.contractKept ==> d.total == Count(s.taken[..d.mark], Flushed))
  }

  ghost predicate DropInv(s: State) {
    && s.reported <= s.flushed && s.reported == Total(s.drops)
    && forall k :: 0 <= k < |s.drops| ==> DropOk(s, s.drops[k])
  }

  ghost predicate Inv(s: State) {
    RingInv(s) && PlayInv(s) && WriteInv(s) && RequestInv(s) && DropInv(s)
  }

  // ------------------------------------------------------------------- fates

  lemma SelectGrows(taken: seq<Taken>, t: Taken, fate: Fate)
    ensures Select(taken + [t], fate) == Select(taken, fate) + (if t.fate == fate then [t.sample] else [])
  {
    assert (taken + [t])[..|taken|] == taken;
  }

  lemma {:induction false} SelectAppend(a: seq<Taken>, b: seq<Taken>, fate: Fate)
    ensures Select(a + b, fate) == Select(a, fate) + Select(b, fate)
  {
    if b == [] {
      assert a + b == a;
    } else {
      assert (a + b)[..|a + b| - 1] == a + b[..|b| - 1];
      SelectAppend(a, b[..|b| - 1], fate);
    }
  }

  lemma {:induction false} SelectUniform(taken: seq<Taken>, fate: Fate, wanted: Fate)
    requires forall i :: 0 <= i < |taken| ==> taken[i].fate == fate
    ensures Select(taken, wanted) == if wanted == fate then Samples(taken) else []
  {
    if taken != [] {
      SelectUniform(taken[..|taken| - 1], fate, wanted);
      assert wanted == fate ==> Samples(taken) == Samples(taken[..|taken| - 1]) + [taken[|taken| - 1].sample];
    }
  }

  /** Settling what is in hand moves it to one fate and touches no other. */
  lemma SelectSettled(taken: seq<Taken>, start: nat, fate: Fate, wanted: Fate)
    requires start <= |taken| && fate != InHand && wanted != InHand
    requires forall i :: start <= i < |taken| ==> taken[i].fate == InHand
    ensures Select(Settle(taken, start, fate), wanted) ==
            Select(taken, wanted) + (if wanted == fate then Samples(taken[start..]) else [])
  {
    SettledTail(taken, start, fate);
    var head, tail, settled := taken[..start], taken[start..], Settle(taken, start, fate)[start..];
    hide Select, Settle, Samples;
    SelectTails(head, tail, settled, fate, wanted);
    assert taken == head + tail;
  }

  lemma SelectTails(head: seq<Taken>, tail: seq<Taken>, settled: seq<Taken>, fate: Fate, wanted: Fate)
    requires fate != InHand && wanted != InHand && Samples(settled) == Samples(tail)
    requires forall i :: 0 <= i < |tail| ==> tail[i].fate == InHand
    requires forall i :: 0 <= i < |settled| ==> settled[i].fate == fate
    ensures Select(head + settled, wanted) ==
            Select(head + tail, wanted) + (if wanted == fate then Samples(tail) else [])
  {
    hide Select, Samples;
    SelectAppend(head, tail, wanted);
    SelectAppend(head, settled, wanted);
    SelectUniform(tail, InHand, wanted);
    SelectUniform(settled, fate, wanted);
  }

  lemma SettledTail(taken: seq<Taken>, start: nat, fate: Fate)
    requires start <= |taken|
    ensures var settled := Settle(taken, start, fate)[start..];
            && Settle(taken, start, fate) == taken[..start] + settled
            && (forall i :: 0 <= i < |settled| ==> settled[i].fate == fate)
            && Samples(settled) == Samples(taken[start..])
  {
    assert Settle(taken, start, fate)[..start] == taken[..start];
  }

  // ------------------------------------------------------------ preservation

  // Which part of the state each of the four step functions leaves alone.

  lemma WriteFrame(s: State)
    ensures var t := WriteStep(s);
            && t.capacity == s.capacity && t.taken == s.taken && t.callback == s.callback && t.phantoms == s.phantoms
            && t.device == s.device && t.consumed == s.consumed && t.failed == s.failed && t.flushed == s.flushed
            && t.requested == s.requested && t.served == s.served && t.pendingRequest == s.pendingRequest
            && t.reported == s.reported && t.marks == s.marks && t.drops == s.drops && t.contractKept == s.contractKept
            && s.ring <= t.ring && (|t.ring| == |s.ring| || (|t.ring| == |s.ring| + 1 && s.Free() > 0))
            && (InWrite(s) ==> InWrite(t) || t.owner.Idle?)
  {
  }

  lemma DiscardFrame(s: State)
    ensures var t := DiscardStep(s);
            && t.capacity == s.capacity && t.taken == s.taken && t.ring == s.ring && t.callback == s.callback
            && t.overflow == s.overflow && t.lostPushes == s.lostPushes && t.phantoms == s.phantoms
            && t.device == s.device && t.consumed == s.consumed && t.failed == s.failed && t.flushed == s.flushed
            && t.served == s.served && t.returned == s.returned && t.contractKept == s.contractKept
            && (!InWrite(s) ==> !InWrite(t))
            && (!s.owner.Collecting? ==> t.drops == s.drops && t.reported == s.reported)
            && (!s.owner.Requesting? ==> t.requested == s.requested && t.marks == s.marks)
  {
  }

  lemma ServeFrame(s: State)
    ensures var t := ServeStep(s);
            && t.capacity == s.capacity && t.overflow == s.overflow && t.lostPushes == s.lostPushes
            && t.phantoms == s.phantoms && t.failed == s.failed && t.consumed == s.consumed && t.device == s.device
            && t.owner == s.owner && t.returned == s.returned && t.requested == s.requested && t.marks == s.marks
            && t.pendingRequest == s.pendingRequest && t.reported == s.reported && t.drops == s.drops
            && t.contractKept == s.contractKept && t.Accepted() == s.Accepted() && |t.ring| <= |s.ring|
            && s.taken <= t.taken && s.flushed <= t.flushed
  {
    hide Settle, Samples, Select, Count, Total;
    match s.callback
    case Draining(len, timed, request, dropped) =>
    case _ =>
  }

  lemma FillFrame(s: State)
    ensures var t := FillStep(s);
            && t.capacity == s.capacity && t.overflow == s.overflow && t.lostPushes == s.lostPushes
            && t.owner == s.owner && t.returned == s.returned && t.requested == s.requested && t.served == s.served
            && t.marks == s.marks && t.flushed == s.flushed && t.pendingRequest == s.pendingRequest
            && t.reported == s.reported && t.drops == s.drops && t.contractKept == s.contractKept
            && t.Accepted() == s.Accepted() && |t.ring| <= |s.ring| && (s.failed ==> t.failed)
  {
    hide Samples, Select, Count, Total;
    match s.callback
    case Popping(left, timed, start) =>
    case _ =>
  }

  lemma WriteKeepsWrite(s: State)
    requires RingInv(s) && WriteInv(s)
    ensures WriteInv(WriteStep(s))
  {
  }

  lemma WriteKeeps(s: State)
    requires InWrite(s) && Inv(s)
    ensures Inv(WriteStep(s))
  {
    WriteKeepsWrite(s);
    WriteFrame(s);
    hide WriteStep, Select, WriteInv, Total;
  }

  lemma RequestKeepsRequests(s: State)
    requires s.owner.Requesting? && RingInv(s) && RequestInv(s)
    ensures RequestInv(DiscardStep(s))
  {
    DiscardFrame(s);
    if s.pendingRequest.None? {
      var t := DiscardStep(s);
      assert t.requested == s.requested + 1 && t.marks == s.marks + [s.Accepted()];
      assert t.owner == Polling && t.pendingRequest == Some(t.requested);
      hide DiscardStep;
    }
  }

  lemma OtherDiscardKeepsRequests(s: State)
    requires !s.owner.Requesting? && !InWrite(s) && RequestInv(s)
    ensures RequestInv(DiscardStep(s))
  {
    DiscardFrame(s);
    var t := DiscardStep(s);
    assert t.pendingRequest == s.pendingRequest || t.pendingRequest.None?;
    assert (t.owner.Polling? ==> false) && (t.owner.Collecting? ==> s.owner.Polling? && s.served >= s.pendingRequest.value && t.pendingRequest == s.pendingRequest);
    hide DiscardStep;
  }

  lemma CollectKeepsDrops(s: State)
    requires s.owner.Collecting? && RingInv(s) && PlayInv(s) && RequestInv(s) && DropInv(s)
    ensures DropInv(DiscardStep(s))
  {
    DiscardFrame(s);
    var d := CollectedDrop(s);
    hide DiscardStep, Select, Total, DropOk, PlayInv, RequestInv, RingInv;
    TotalGrows(s.drops, d);
    DropsOkFrame(s, DiscardStep(s), s.drops + [d]);
  }

  lemma CollectedDrop(s: State) returns (d: Drop)
    requires s.owner.Collecting? && RingInv(s) && PlayInv(s) && RequestInv(s) && s.reported <= s.flushed
    ensures DiscardStep(s).drops == s.drops + [d] && DiscardStep(s).reported == s.flushed
    ensures d.amount == s.flushed - s.reported && DropOk(s, d)
    ensures s.Settled() <= |s.taken| && DiscardStep(s).Settled() == s.Settled()
  {
    d := Drop(s.marks[s.requested - 1], s.flushed - s.reported, s.flushed, s.contractKept);
    CollectedIsOk(s, d);
    hide Select, DropOk, PlayInv;
  }

  lemma CollectedIsOk(s: State, d: Drop)
    requires s.owner.Collecting? && RingInv(s) && PlayInv(s) && RequestInv(s) && s.reported <= s.flushed
    requires d == Drop(s.marks[s.requested - 1], s.flushed - s.reported, s.flushed, s.contractKept)
    ensures DropOk(s, d)
  {
    hide Select;
    if s.contractKept {
      assert d.mark == s.Accepted() && s.taken[..d.mark] == s.taken;
    }
  }

  lemma TotalGrows(drops: seq<Drop>, d: Drop)
    ensures Total(drops + [d]) == Total(drops) + d.amount
  {
    assert (drops + [d])[..|drops|] == drops;
  }

  /** A reported drop stays accounted for while the settled samples stay put. */
  lemma DropOkFrame(s: State, t: State, d: Drop)
    requires DropOk(s, d) && s.Settled() <= t.Settled() <= |t.taken|
    requires s.taken[..s.Settled()] == t.taken[..s.Settled()]
    ensures DropOk(t, d)
  {
    assert s.taken[..d.mark] == s.taken[..s.Settled()][..d.mark] == t.taken[..d.mark];
    hide Select;
  }

  lemma DropsOkFrame(s: State, t: State, drops: seq<Drop>)
    requires s.Settled() <= t.Settled() <= |t.taken| && s.Settled() <= |s.taken|
    requires s.taken[..s.Settled()] == t.taken[..s.Settled()]
    requires forall k :: 0 <= k < |drops| ==> DropOk(s, drops[k])
    ensures forall k :: 0 <= k < |drops| ==> DropOk(t, drops[k])
  {
    forall k | 0 <= k < |drops|
      ensures DropOk(t, drops[k])
    {
      DropOkFrame(s, t, drops[k]);
    }
  }

  lemma DiscardKeeps(s: State)
    requires !InWrite(s) && Inv(s)
    ensures Inv(DiscardStep(s))
  {
    if s.owner.Requesting? {
      RequestKeepsRequests(s);
    } else {
      OtherDiscardKeepsRequests(s);
    }
    DiscardFrame(s);
    if s.owner.Collecting? {
      CollectKeepsDrops(s);
    }
    hide DiscardStep, Select, RequestInv, Total, Count;
  }

  lemma ServeKeepsRing(s: State)
    requires RingInv(s) && InServe(s)
    ensures RingInv(ServeStep(s)) && ServeStep(s).Settled() == |ServeStep(s).taken|
  {
  }

  lemma ServeKeepsPlay(s: State)
    requires RingInv(s) && PlayInv(s) && InServe(s)
    ensures PlayInv(ServeStep(s))
  {
    hide Select;
    if s.callback.Draining? && s.ring != [] {
      var t := Taken(s.ring[0], Flushed);
      SelectGrows(s.taken, t, Handed);
      SelectGrows(s.taken, t, Flushed);
      SelectGrows(s.taken, t, Lost);
    }
  }

  lemma ServeKeepsRequests(s: State)
    requires RingInv(s) && RequestInv(s) && InServe(s)
    ensures RequestInv(ServeStep(s))
  {
    ServeKeepsRing(s);
    ServeFrame(s);
    var t := ServeStep(s);
    assert t.served == if s.callback.Serving? then s.callback.request else s.served;
    assert t.callback.Comparing? ==> t.callback.request == s.requested;
    assert Flushing(t) ==> t.callback.request == s.callback.request && t.callback.request > s.served && !s.callback.Serving?;
    assert t.callback.Counting? ==> |t.taken| == t.Accepted();
    assert t.callback.Serving? ==> s.callback.Counting?;
    hide ServeStep, Select, RingInv;
  }

  lemma ServeKeeps(s: State)
    requires InServe(s) && Inv(s)
    ensures Inv(ServeStep(s))
  {
    ServeKeepsRing(s);
    ServeKeepsPlay(s);
    ServeKeepsRequests(s);
    ServeFrame(s);
    var t := ServeStep(s);
    hide ServeStep, Select, RequestInv, DropOk, PlayInv, RingInv;
    ServeKeepsDrops(s);
  }

  lemma ServeKeepsDrops(s: State)
    requires InServe(s) && RingInv(s) && DropInv(s)
    ensures DropInv(ServeStep(s))
  {
    ServeKeepsRing(s);
    ServeFrame(s);
    var t := ServeStep(s);
    hide ServeStep, DropOk, RingInv, Total;
    DropsOkFrame(s, t, t.drops);
  }

  lemma FillKeepsRing(s: State)
    requires RingInv(s) && !InServe(s)
    ensures RingInv(FillStep(s)) && s.Settled() <= FillStep(s).Settled()
    ensures s.taken[..s.Settled()] == FillStep(s).taken[..s.Settled()]
  {
  }

  lemma FillKeepsPlay(s: State)
    requires RingInv(s) && PlayInv(s) && !InServe(s)
    ensures PlayInv(FillStep(s))
  {
    hide Select;
    if s.callback.Popping? && s.callback.left > 0 {
      var t := Taken(s.ring[0], InHand);
      SelectGrows(s.taken, t, Handed);
      SelectGrows(s.taken, t, Flushed);
      SelectGrows(s.taken, t, Lost);
    } else if s.callback.Finishing? && s.callback.start < |s.taken| {
      var fate := if s.callback.timed then Handed else Lost;
      SelectSettled(s.taken, s.callback.start, fate, Handed);
      SelectSettled(s.taken, s.callback.start, fate, Flushed);
      SelectSettled(s.taken, s.callback.start, fate, Lost);
    }
  }

  lemma FillKeepsRequests(s: State)
    requires RingInv(s) && RequestInv(s) && !InServe(s)
    ensures RequestInv(FillStep(s))
  {
    FillKeepsRing(s);
    FillFrame(s);
    var t := FillStep(s);
    assert !t.callback.Comparing? && !Flushing(t);
    hide FillStep, RingInv;
  }

  lemma FillKeeps(s: State)
    requires !InServe(s) && Inv(s)
    ensures Inv(FillStep(s))
  {
    FillKeepsRing(s);
    FillKeepsPlay(s);
    FillKeepsRequests(s);
    FillFrame(s);
    FillKeepsDrops(s);
    hide FillStep, Select, RequestInv, DropInv, PlayInv, RingInv;
  }

  lemma FillKeepsDrops(s: State)
    requires !InServe(s) && RingInv(s) && DropInv(s)
    ensures DropInv(FillStep(s))
  {
    FillKeepsRing(s);
    FillFrame(s);
    var t := FillStep(s);
    assert t.Settled() <= |t.taken|;
    hide FillStep, DropOk, RingInv, Total;
    DropsOkFrame(s, t, t.drops);
  }

  lemma CallKeeps(s: State, e: Event)
    requires Inv(s) && (e.CallWrite? || e.CallDiscard? || e.CallFill? || e.StreamFails?)
    ensures Inv(Step(s, e))
  {
    hide Select, Total, Count;
  }

  lemma StepKeeps(s: State, e: Event)
    requires Inv(s)
    ensures Inv(Step(s, e))
  {
    hide Inv, WriteStep, DiscardStep, ServeStep, FillStep;
    if e.OwnerRuns? {
      if InWrite(s) { WriteKeeps(s); } else { DiscardKeeps(s); }
    } else if e.CallbackRuns? {
      if InServe(s) { ServeKeeps(s); } else { FillKeeps(s); }
    } else {
      CallKeeps(s, e);
    }
  }

  lemma {:induction false} RunKeeps(s: State, events: seq<Event>)
    requires Inv(s)
    ensures Inv(RunFrom(s, events))
  {
    hide Inv, Step;
    if events != [] {
      RunKeeps(s, events[..|events| - 1]);
      StepKeeps(RunFrom(s, events[..|events| - 1]), events[|events| - 1]);
    }
  }

  lemma StartInv(capacity: nat)
    ensures Inv(Start(capacity))
  {
  }

  // ---------------------------------------------------------------- theorems

  /** The settled samples of `s` are settled in `t`, with the same fates. */
  ghost predicate Settles(s: State, t: State) {
    s.Settled() <= t.Settled() <= |t.taken| && s.Settled() <= |s.taken| && s.taken[..s.Settled()] == t.taken[..s.Settled()]
  }

  lemma OwnerSettles(s: State)
    requires RingInv(s)
    ensures Settles(s, WriteStep(s)) && Settles(s, DiscardStep(s))
  {
    WriteFrame(s);
    DiscardFrame(s);
    hide WriteStep, DiscardStep;
  }

  lemma CallbackSettles(s: State)
    requires RingInv(s)
    ensures InServe(s) ==> Settles(s, ServeStep(s))
    ensures !InServe(s) ==> Settles(s, FillStep(s))
  {
    if InServe(s) {
      ServeKeepsRing(s);
      ServeFrame(s);
    } else {
      FillKeepsRing(s);
    }
    hide ServeStep, FillStep;
  }

  lemma StepSettles(s: State, e: Event)
    requires RingInv(s)
    ensures Settles(s, Step(s, e))
  {
    hide WriteStep, DiscardStep, ServeStep, FillStep;
    if e.OwnerRuns? {
      OwnerSettles(s);
    } else if e.CallbackRuns? {
      CallbackSettles(s);
    }
  }

  /** A settled sample keeps its fate in every continuation. */
  lemma {:induction false} SettledForGood(s: State, events: seq<Event>)
    requires Inv(s)
    ensures Settles(s, RunFrom(s, events))
  {
    hide Step, PlayInv, WriteInv, RequestInv, DropInv;
    if events != [] {
      var before := events[..|events| - 1];
      var m, t := RunFrom(s, before), RunFrom(s, events);
      SettledForGood(s, before);
      RunKeeps(s, before);
      StepSettles(m, events[|events| - 1]);
      assert t.taken[..s.Settled()] == t.taken[..m.Settled()][..s.Settled()];
      assert m.taken[..s.Settled()] == m.taken[..m.Settled()][..s.Settled()];
    }
  }

  /** Once a discard has reported its drop, no sample accepted before its request
      is handed to the device or counted as consumed afterwards, in any
      continuation: all of them have met their final fate. The owner may even
      break the no-write contract. */
  lemma DiscardIsFinal(capacity: nat, before: seq<Event>, after: seq<Event>, k: nat)
    requires k < |RunFrom(Start(capacity), before).drops|
    ensures var s := RunFrom(Start(capacity), before);
            var t, mark := RunFrom(s, after), s.drops[k].mark;
            && mark <= |s.taken| && mark <= |t.taken| && t.taken[..mark] == s.taken[..mark]
            && (forall i :: 0 <= i < mark ==> t.taken[i].fate != InHand)
            && t.device == Select(s.taken[..mark], Handed) + Select(t.taken[mark..], Handed)
            && t.consumed == |t.device|
  {
    var s := RunFrom(Start(capacity), before);
    var t := RunFrom(s, after);
    hide RunFrom, Select, WriteInv, RequestInv, PlayInv, RingInv, DropOk;
    StartInv(capacity);
    RunKeeps(Start(capacity), before);
    RunKeeps(s, after);
    SettledForGood(s, after);
    SettledFates(s, t, s.drops[k]);
  }

  lemma SettledFates(s: State, t: State, d: Drop)
    requires DropOk(s, d) && Settles(s, t) && RingInv(t) && PlayInv(t)
    ensures d.mark <= |s.taken| && d.mark <= |t.taken| && t.taken[..d.mark] == s.taken[..d.mark]
    ensures forall i :: 0 <= i < d.mark ==> t.taken[i].fate != InHand
    ensures t.device == Select(s.taken[..d.mark], Handed) + Select(t.taken[d.mark..], Handed)
    ensures t.consumed == |t.device|
  {
    hide Select;
    var mark := d.mark;
    assert t.taken[..mark] == t.taken[..s.Settled()][..mark] && s.taken[..mark] == s.taken[..s.Settled()][..mark];
    assert t.taken == t.taken[..mark] + t.taken[mark..];
    SelectAppend(t.taken[..mark], t.taken[mark..], Handed);
  }

  /** Every settled sample was handed over, flushed or lost to a failure. */
  lemma {:induction false} FatesPartition(taken: seq<Taken>)
    requires forall i :: 0 <= i < |taken| ==> taken[i].fate != InHand
    ensures Count(taken, Handed) + Count(taken, Flushed) + Count(taken, Lost) == |taken|
  {
    if taken != [] {
      FatesPartition(taken[..|taken| - 1]);
    }
  }

  /** The reported drops add up to what was flushed, never below zero. Under the
      no-write contract they are exact: of the samples accepted before a request,
      every one not handed over (or lost to a failure) has been reported. */
  lemma DropsAreExact(capacity: nat, events: seq<Event>, k: nat)
    requires k < |RunFrom(Start(capacity), events).drops|
    ensures var s := RunFrom(Start(capacity), events);
            var d := s.drops[k];
            && d.amount >= 0 && s.reported == Total(s.drops) <= s.flushed && d.mark <= |s.taken|
            && (d.contractKept ==>
                  Count(s.taken[..d.mark], Handed) + Count(s.taken[..d.mark], Lost) + d.total == d.mark)
  {
    var s := RunFrom(Start(capacity), events);
    StartInv(capacity);
    RunKeeps(Start(capacity), events);
    assert DropOk(s, s.drops[k]);
    hide RunFrom, Select, Total, WriteInv, RequestInv, PlayInv;
    FatesPartition(s.taken[..s.drops[k].mark]);
  }

  /** On an unfailed stream, between calls and callbacks, every accepted sample is
      counted as consumed, counted as flushed, or still in the ring; every sample
      a write claimed was accepted, and none was dropped as overflow. */
  lemma Conservation(capacity: nat, events: seq<Event>)
    ensures var s := RunFrom(Start(capacity), events);
            && s.overflow == 0 && s.lostPushes == 0 && s.phantoms == 0 && |s.ring| <= capacity
            && (s.owner.Idle? ==> s.returned == s.Accepted())
            && (!s.failed && s.callback.Waiting? ==> s.Accepted() == s.consumed + s.flushed + |s.ring|)
  {
    var s := RunFrom(Start(capacity), events);
    StartInv(capacity);
    RunKeeps(Start(capacity), events);
    CapacityIsFixed(capacity, events);
    hide RunFrom, Select, Total, RequestInv, DropInv;
    if s.callback.Waiting? {
      FatesPartition(s.taken);
    }
  }

  lemma {:induction false} CapacityIsFixed(capacity: nat, events: seq<Event>)
    ensures RunFrom(Start(capacity), events).capacity == capacity
  {
    if events != [] {
      CapacityIsFixed(capacity, events[..|events| - 1]);
      var s := RunFrom(Start(capacity), events[..|events| - 1]);
      WriteFrame(s);
      DiscardFrame(s);
      ServeFrame(s);
      FillFrame(s);
      hide WriteStep, DiscardStep, ServeStep, FillStep;
    }
  }

  /** The release test: on an unfailed stream, with the owner between calls, a
      consumed count that reaches the accepted samples less the reported drops
      leaves nothing in the ring, in hand, or flushed but unreported. */
  lemma PlayedMeansNothingPending(capacity: nat, events: seq<Event>)
    requires var s := RunFrom(Start(capacity), events);
             !s.failed && s.owner.Idle? && s.consumed >= s.returned - s.reported
    ensures var s := RunFrom(Start(capacity), events);
            && s.ring == [] && s.reported == s.flushed
            && (forall i :: 0 <= i < |s.taken| ==> s.taken[i].fate == Handed || s.taken[i].fate == Flushed)
  {
    StartInv(capacity);
    RunKeeps(Start(capacity), events);
    hide RunFrom;
    NothingPending(RunFrom(Start(capacity), events));
  }

  lemma NothingPending(s: State)
    requires RingInv(s) && PlayInv(s) && WriteInv(s) && DropInv(s)
    requires !s.failed && s.owner.Idle? && s.consumed >= s.returned - s.reported
    ensures s.ring == [] && s.reported == s.flushed
    ensures forall i :: 0 <= i < |s.taken| ==> s.taken[i].fate == Handed || s.taken[i].fate == Flushed
  {
    var settled := s.taken[..s.Settled()];
    SelectIgnoresInHand(s, Handed);
    SelectIgnoresInHand(s, Flushed);
    SelectIgnoresInHand(s, Lost);
    hide Select, DropOk, Total;
    FatesPartition(settled);
    NoneOf(settled, Lost);
  }

  lemma SelectIgnoresInHand(s: State, fate: Fate)
    requires RingInv(s) && fate != InHand
    ensures Select(s.taken, fate) == Select(s.taken[..s.Settled()], fate)
  {
    hide Select;
    var settled, inHand := s.taken[..s.Settled()], s.taken[s.Settled()..];
    assert s.taken == settled + inHand;
    SelectAppend(settled, inHand, fate);
    SelectUniform(inHand, InHand, fate);
  }

  lemma {:induction false} NoneOf(taken: seq<Taken>, fate: Fate)
    requires Select(taken, fate) == []
    ensures forall i :: 0 <= i < |taken| ==> taken[i].fate != fate
  {
    if taken != [] {
      NoneOf(taken[..|taken| - 1], fate);
      assert forall i :: 0 <= i < |taken| - 1 ==> taken[i] == taken[..|taken| - 1][i];
    }
  }

  /** Without a flush and without a failure, what the device was handed is exactly
      the settled samples, in the order they were accepted. */
  lemma PlaysInOrder(capacity: nat, events: seq<Event>)
    requires RunFrom(Start(capacity), events).requested == 0 && !RunFrom(Start(capacity), events).failed
    ensures var s := RunFrom(Start(capacity), events);
            s.Settled() <= |s.taken| && s.device == Samples(s.taken[..s.Settled()])
  {
    var s := RunFrom(Start(capacity), events);
    StartInv(capacity);
    RunKeeps(Start(capacity), events);
    hide RunFrom, Total, DropInv, Select;
    var settled := s.taken[..s.Settled()];
    SelectIgnoresInHand(s, Handed);
    SelectIgnoresInHand(s, Flushed);
    SelectIgnoresInHand(s, Lost);
    NoneOf(settled, Lost);
    NoneOf(settled, Flushed);
    SelectUniform(settled, Handed, Handed);
  }

  // ------------------------------------------------- one stream of samples

  /** What the owner still holds of the write in progress. */
  function Held(owner: Owner): seq<Sample> {
    match owner
    case Writing(samples) => samples
    case Capping(samples) => samples
    case Offering(samples) => samples
    case Pushing(left, _) => left
    case _ => []
  }

  function AcceptedSamples(s: State): seq<Sample> {
    Samples(s.taken) + s.ring
  }

  /** Every write offers the part of `stream` that follows what writes returned. */
  ghost predicate OffersFrom(stream: seq<Sample>, s: State, events: seq<Event>) {
    forall k :: 0 <= k < |events| && events[k].CallWrite? && RunFrom(s, events[..k]).owner.Idle? ==>
      events[k].samples <= stream[Clip(RunFrom(s, events[..k]).returned, |stream|)..]
  }

  ghost predicate StreamInv(stream: seq<Sample>, s: State) {
    AcceptedSamples(s) + Held(s.owner) <= stream
  }

  lemma WriteKeepsStream(stream: seq<Sample>, s: State)
    requires StreamInv(stream, s) && WriteInv(s)
    ensures StreamInv(stream, WriteStep(s))
  {
    var t := WriteStep(s);
    if s.owner.Pushing? && s.owner.left != [] && s.Free() > 0 {
      assert AcceptedSamples(t) + Held(t.owner) == AcceptedSamples(s) + Held(s.owner);
    } else {
      assert t.taken == s.taken && t.ring == s.ring;
      assert Held(t.owner) <= Held(s.owner);
    }
  }

  lemma PopKeepsSamples(taken: seq<Taken>, ring: seq<Sample>, fate: Fate)
    requires ring != []
    ensures Samples(taken + [Taken(ring[0], fate)]) == Samples(taken) + [ring[0]]
    ensures Samples(taken + [Taken(ring[0], fate)]) + ring[1..] == Samples(taken) + ring
  {
  }

  lemma SettleKeepsSamples(taken: seq<Taken>, start: nat, fate: Fate)
    requires start <= |taken|
    ensures Samples(Settle(taken, start, fate)) == Samples(taken) == Samples(taken)[..start] + Samples(taken[start..])
  {
  }

  lemma CallbackKeepsStream(s: State)
    requires RingInv(s)
    ensures InServe(s) ==> AcceptedSamples(ServeStep(s)) == AcceptedSamples(s) && ServeStep(s).owner == s.owner
    ensures !InServe(s) ==> AcceptedSamples(FillStep(s)) == AcceptedSamples(s) && FillStep(s).owner == s.owner
  {
    if s.callback.Draining? && s.ring != [] {
      PopKeepsSamples(s.taken, s.ring, Flushed);
    } else if s.callback.Popping? && s.callback.left > 0 {
      PopKeepsSamples(s.taken, s.ring, InHand);
    } else if s.callback.Finishing? {
      SettleKeepsSamples(s.taken, s.callback.start, if s.callback.timed then Handed else Lost);
    }
    hide Samples, Settle;
  }

  lemma StepKeepsStream(stream: seq<Sample>, s: State, e: Event)
    requires Inv(s) && StreamInv(stream, s)
    requires e.CallWrite? && s.owner.Idle? ==> e.samples <= stream[Clip(s.returned, |stream|)..]
    ensures StreamInv(stream, Step(s, e))
  {
    hide WriteStep, DiscardStep, ServeStep, FillStep, PlayInv, RequestInv, DropInv;
    if e.OwnerRuns? {
      if InWrite(s) {
        WriteKeepsStream(stream, s);
      } else {
        DiscardFrame(s);
        DiscardHoldsNothing(s);
      }
    } else if e.CallbackRuns? {
      CallbackKeepsStream(s);
    } else if e.CallWrite? && s.owner.Idle? {
      assert stream[..s.Accepted()] == AcceptedSamples(s);
      assert stream == stream[..s.Accepted()] + stream[s.Accepted()..];
    }
  }

  lemma DiscardHoldsNothing(s: State)
    requires !InWrite(s)
    ensures Held(s.owner) == [] && Held(DiscardStep(s).owner) == []
  {
  }

  lemma OffersPrefix(stream: seq<Sample>, s: State, events: seq<Event>)
    requires OffersFrom(stream, s, events) && events != []
    ensures var n := |events| - 1;
            && OffersFrom(stream, s, events[..n])
            && (events[n].CallWrite? && RunFrom(s, events[..n]).owner.Idle? ==>
                  events[n].samples <= stream[Clip(RunFrom(s, events[..n]).returned, |stream|)..])
  {
    hide RunFrom;
    var n := |events| - 1;
    assert forall k :: 0 <= k < n ==> events[..n][..k] == events[..k];
  }

  lemma {:induction false} RunKeepsStream(stream: seq<Sample>, s: State, events: seq<Event>)
    requires Inv(s) && StreamInv(stream, s) && OffersFrom(stream, s, events)
    ensures StreamInv(stream, RunFrom(s, events))
  {
    hide Step, StreamInv, Inv, OffersFrom;
    if events != [] {
      var n := |events| - 1;
      OffersPrefix(stream, s, events);
      RunKeepsStream(stream, s, events[..n]);
      RunKeeps(s, events[..n]);
      StepKeepsStream(stream, RunFrom(s, events[..n]), events[n]);
    }
  }

  /** Without a flush the device holds the settled samples, or a prefix of them
      once a batch was lost: no callback gets past its check again. */
  ghost predicate OrderInv(s: State) {
    s.requested == 0 && s.Settled() <= |s.taken| ==>
      || s.device == Samples(s.taken)[..s.Settled()]
      || (s.failed && !PastCheck(s) && s.device <= Samples(s.taken))
  }

  lemma FillKeepsOrder(s: State)
    requires RingInv(s) && OrderInv(s) && !InServe(s)
    ensures OrderInv(FillStep(s))
  {
    if s.callback.Popping? && s.callback.left > 0 {
      PopKeepsSamples(s.taken, s.ring, InHand);
    } else if s.callback.Finishing? {
      SettleKeepsSamples(s.taken, s.callback.start, if s.callback.timed then Handed else Lost);
    }
    hide Samples, Settle;
  }

  lemma StepKeepsOrder(s: State, e: Event)
    requires Inv(s) && OrderInv(s)
    ensures OrderInv(Step(s, e))
  {
    hide Samples, PlayInv, WriteInv, DropInv, FillStep;
    if e.OwnerRuns? {
      WriteFrame(s);
      DiscardFrame(s);
      assert DiscardStep(s).requested >= s.requested;
      hide WriteStep, DiscardStep;
    } else if e.CallbackRuns? {
      hide WriteStep, DiscardStep;
      if InServe(s) {
        ServeFrame(s);
      } else {
        FillKeepsOrder(s);
      }
    }
  }

  lemma {:induction false} RunKeepsOrder(s: State, events: seq<Event>)
    requires Inv(s) && OrderInv(s)
    ensures OrderInv(RunFrom(s, events))
  {
    hide Step, OrderInv, Inv;
    if events != [] {
      RunKeepsOrder(s, events[..|events| - 1]);
      RunKeeps(s, events[..|events| - 1]);
      StepKeepsOrder(RunFrom(s, events[..|events| - 1]), events[|events| - 1]);
    }
  }

  /** First in, first out: an owner that retries what was not accepted gets its
      stream played from the start, with nothing skipped, repeated or invented,
      whether or not the stream fails. */
  lemma DevicePlaysTheStream(capacity: nat, stream: seq<Sample>, events: seq<Event>)
    requires OffersFrom(stream, Start(capacity), events) && RunFrom(Start(capacity), events).requested == 0
    ensures RunFrom(Start(capacity), events).device <= stream
  {
    var s := RunFrom(Start(capacity), events);
    StartInv(capacity);
    RunKeeps(Start(capacity), events);
    RunKeepsStream(stream, Start(capacity), events);
    RunKeepsOrder(Start(capacity), events);
    hide RunFrom, OffersFrom, Samples, Held, PlayInv, WriteInv, RequestInv, DropInv;
    assert s.device <= Samples(s.taken) <= AcceptedSamples(s) <= stream;
  }

  // ---------------------------------------------------------------- failure

  lemma StepAfterFailure(s: State, e: Event)
    requires s.failed && !PastCheck(s)
    ensures var t := Step(s, e); t.failed && !PastCheck(t) && t.device == s.device && t.consumed == s.consumed
  {
    WriteFrame(s);
    DiscardFrame(s);
    hide WriteStep, DiscardStep, Settle, Samples;
  }

  /** Once the stream has failed with no callback past its check, nothing more is
      handed to the device and the count is frozen, whatever happens next. */
  lemma {:induction false} FailureFreezes(s: State, events: seq<Event>)
    requires s.failed && !PastCheck(s)
    ensures var t := RunFrom(s, events); t.failed && !PastCheck(t) && t.device == s.device && t.consumed == s.consumed
  {
    hide Step;
    if events != [] {
      FailureFreezes(s, events[..|events| - 1]);
      StepAfterFailure(RunFrom(s, events[..|events| - 1]), events[|events| - 1]);
    }
  }

  /** A write that passed its check of the flag will still push a sample. */
  predicate WillPush(s: State) {
    match s.owner
    case Capping(samples) => samples != [] && s.Free() > 0
    case Offering(samples) => samples != []
    case Pushing(left, _) => left != []
    case _ => false
  }

  /** The callback, past its check of the flag, can still hand over a sample: its
      timestamp is valid, and it holds one or finds one when it reads the ring. */
  predicate WillHand(s: State) {
    match s.callback
    case Sizing(len, timed) => timed && len > 0 && (s.ring != [] || WillPush(s))
    case Popping(left, timed, start) => timed && (left > 0 || start < |s.taken|)
    case Finishing(timed, start) => timed && start < |s.taken|
    case _ => false
  }

  lemma StepHandsNothing(s: State, e: Event)
    requires s.failed && !WillHand(s)
    ensures var t := Step(s, e); t.failed && !WillHand(t) && t.device == s.device && t.consumed == s.consumed
  {
    hide Settle, Samples;
    if e.OwnerRuns? {
      OwnerHandsNothing(s);
      hide WriteStep, DiscardStep, WillHand;
    } else {
      hide WriteStep, DiscardStep, ServeStep;
      ServeFrame(s);
      if e.CallbackRuns? && InServe(s) {
        ServeStaysOut(s);
      }
    }
  }

  lemma ServeStaysOut(s: State)
    requires InServe(s)
    ensures !PastCheck(ServeStep(s))
  {
  }

  lemma OwnerHandsNothing(s: State)
    requires s.failed && !WillHand(s)
    ensures InWrite(s) ==> !WillHand(WriteStep(s)) && WriteStep(s).failed && WriteStep(s).device == s.device && WriteStep(s).consumed == s.consumed
    ensures !InWrite(s) ==> !WillHand(DiscardStep(s)) && DiscardStep(s).failed && DiscardStep(s).device == s.device && DiscardStep(s).consumed == s.consumed
  {
  }

  lemma {:induction false} RunHandsNothing(s: State, events: seq<Event>)
    requires s.failed && !WillHand(s)
    ensures var t := RunFrom(s, events); t.failed && !WillHand(t) && t.device == s.device && t.consumed == s.consumed
  {
    hide Step;
    if events != [] {
      RunHandsNothing(s, events[..|events| - 1]);
      StepHandsNothing(RunFrom(s, events[..|events| - 1]), events[|events| - 1]);
    }
  }

  lemma {:induction false} RunCons(s: State, e: Event, events: seq<Event>)
    ensures RunFrom(s, [e] + events) == RunFrom(Step(s, e), events)
  {
    hide Step;
    if events == [] {
      assert [e] + events == [e] && [e][..0] == [];
    } else {
      var n := |events| - 1;
      RunCons(s, e, events[..n]);
      assert ([e] + events)[..n + 1] == [e] + events[..n];
    }
  }

  /** How far the callback is from handing over what it can. */
  function Distance(s: State): (nat, nat) {
    match s.callback
    case Sizing(_, _) =>
      (2, if s.ring != [] then 0 else match s.owner case Capping(_) => 3 case Offering(_) => 2 case _ => 1)
    case Popping(left, _, _) => (1, left)
    case _ => (0, 0)
  }

  /** Whose step brings it closer. */
  function Closer(s: State): Event {
    if s.callback.Sizing? && s.ring == [] then OwnerRuns else CallbackRuns
  }

  lemma CloserIsCloser(s: State)
    requires Inv(s) && WillHand(s)
    ensures var t := Step(s, Closer(s));
            if s.callback.Finishing? then |t.device| > |s.device|
            else
              && WillHand(t) && t.device == s.device
              && (Distance(t).0 < Distance(s).0 || (Distance(t).0 == Distance(s).0 && Distance(t).1 < Distance(s).1))
  {
    hide PlayInv, RequestInv, DropInv, Settle, Select;
  }

  lemma {:induction false} HandsOver(s: State) returns (events: seq<Event>)
    requires Inv(s) && WillHand(s)
    ensures |RunFrom(s, events).device| > |s.device|
    decreases Distance(s).0, Distance(s).1
  {
    var e := Closer(s);
    CloserIsCloser(s);
    StepKeeps(s, e);
    hide Inv, WillHand, Step, Distance, Closer;
    if s.callback.Finishing? {
      events := [e];
      RunCons(s, e, []);
      assert [e] + [] == [e];
    } else {
      var rest := HandsOver(Step(s, e));
      events := [e] + rest;
      RunCons(s, e, rest);
    }
  }

  /** On a failed stream, what the device was handed is final in every
      continuation exactly when the callback is not about to hand over. */
  lemma FailedStreamIsSilentIff(s: State)
    requires Inv(s) && s.failed
    ensures (forall events :: RunFrom(s, events).device == s.device && RunFrom(s, events).consumed == s.consumed) <==> !WillHand(s)
  {
    hide Inv, WillHand, RunFrom;
    if WillHand(s) {
      var events := HandsOver(s);
      assert RunFrom(s, events).device != s.device;
    } else {
      forall events
        ensures RunFrom(s, events).device == s.device && RunFrom(s, events).consumed == s.consumed
      {
        RunHandsNothing(s, events);
      }
    }
  }

  /** So a discard that finds the stream failed reports at once that nothing was
      dropped, and more is played after it exactly when, at its check, a timed
      callback past its own check holds a sample or has one to read. */
  lemma FailedDiscardIsFinalIff(s: State)
    requires Inv(s) && s.failed && s.owner.Discarding?
    ensures var t := Step(s, OwnerRuns);
            && t.owner.Idle? && t.pendingRequest.None? && t.device == s.device
            && ((forall events :: RunFrom(t, events).device == s.device) <==> !WillHand(s))
  {
    var t := Step(s, OwnerRuns);
    StepKeeps(s, OwnerRuns);
    FailedStreamIsSilentIff(t);
    if WillHand(t) {
      var events := HandsOver(t);
      assert |RunFrom(t, events).device| > |t.device|;
    }
    hide Inv, RunFrom;
  }

  /** A failure that strikes while a callback is past its check does not stop that
      callback: a discard that finds the flag set reports at once that nothing was
      dropped, and a sample accepted long before still reaches the device. */
  lemma FailedDiscardCanStillPlay()
    ensures var s := RunFrom(Start(1), [
                CallWrite([0.5]), OwnerRuns, OwnerRuns, OwnerRuns, OwnerRuns, OwnerRuns,
                CallFill(1, true), CallbackRuns, CallbackRuns, CallbackRuns,
                StreamFails, CallDiscard]);
            var t := RunFrom(s, [OwnerRuns]);
            && s.failed && s.owner == Discarding && s.device == []
            && t.owner == Idle && t.pendingRequest == None && WillHand(t)
            && RunFrom(t, [CallbackRuns, CallbackRuns, CallbackRuns, CallbackRuns]).device == [0.5]
  {
    var e := [CallWrite([0.5]), OwnerRuns, OwnerRuns, OwnerRuns, OwnerRuns, OwnerRuns,
              CallFill(1, true), CallbackRuns, CallbackRuns, CallbackRuns, StreamFails, CallDiscard];
    WritesOneSample(e);
    FailsWhilePlaying(e);
    assert e[..12] == e;
    var s := Start(1).(ring := [0.5], returned := 1, callback := Sizing(1, true), failed := true, owner := Discarding);
    hide RunFrom;
    OneOwnerStep(s);
    PlaysWhatItHolds(s.(owner := Idle));
  }

  lemma WritesOneSample(e: seq<Event>)
    requires |e| >= 6 && e[..6] == [CallWrite([0.5]), OwnerRuns, OwnerRuns, OwnerRuns, OwnerRuns, OwnerRuns]
    ensures RunFrom(Start(1), e[..6]) == Start(1).(ring := [0.5], returned := 1)
  {
    var s0 := Start(1);
    assert e[0] == e[..6][0] && e[1] == e[..6][1] && e[2] == e[..6][2] && e[3] == e[..6][3] && e[4] == e[..6][4] && e[5] == e[..6][5];
    assert [0.5][..1] == [0.5] && [0.5][1..] == [];
    assert e[..0] == [];
    var s1 := Next(s0, e, 0);
    assert s1 == s0.(owner := Writing([0.5]));
    var s2 := Next(s1, e, 1);
    assert s2 == s0.(owner := Capping([0.5]));
    var s3 := Next(s2, e, 2);
    assert s3 == s0.(owner := Offering([0.5]));
    var s4 := Next(s3, e, 3);
    assert s4 == s0.(owner := Pushing([0.5], 1));
    var s5 := Next(s4, e, 4);
    assert s5 == s0.(ring := [0.5], owner := Pushing([], 1));
    var s6 := Next(s5, e, 5);
    assert RunFrom(s0, e[..0]) == s0;
  }

  lemma FailsWhilePlaying(e: seq<Event>)
    requires |e| == 12 && e[6..] == [CallFill(1, true), CallbackRuns, CallbackRuns, CallbackRuns, StreamFails, CallDiscard]
    requires RunFrom(Start(1), e[..6]) == Start(1).(ring := [0.5], returned := 1)
    ensures RunFrom(Start(1), e[..12]) == Start(1).(ring := [0.5], returned := 1, callback := Sizing(1, true),
                                                    failed := true, owner := Discarding)
  {
    var s0 := Start(1).(ring := [0.5], returned := 1);
    assert e[6] == e[6..][0] && e[7] == e[6..][1] && e[8] == e[6..][2] && e[9] == e[6..][3] && e[10] == e[6..][4] && e[11] == e[6..][5];
    var s1 := Next(s0, e, 6);
    assert s1 == s0.(callback := Entering(1, true));
    var s2 := Next(s1, e, 7);
    assert s2 == s0.(callback := Comparing(1, true, 0));
    var s3 := Next(s2, e, 8);
    assert s3 == s0.(callback := Checking(1, true));
    var s4 := Next(s3, e, 9);
    assert s4 == s0.(callback := Sizing(1, true));
    var s5 := Next(s4, e, 10);
    assert s5 == s4.(failed := true);
    var s6 := Next(s5, e, 11);
  }

  lemma OneOwnerStep(s: State)
    requires s.owner == Discarding && s.failed
    ensures RunFrom(s, [OwnerRuns]) == s.(owner := Idle, pendingRequest := None)
  {
    assert [OwnerRuns][..0] == [];
  }

  /** One step of a fixed schedule, remembering how the run unfolds. */
  function Next(s: State, e: seq<Event>, k: nat): (t: State)
    requires k < |e|
    ensures t == Step(s, e[k])
    ensures forall s0 :: RunFrom(s0, e[..k]) == s ==> RunFrom(s0, e[..k + 1]) == t
  {
    assert e[..k + 1][..k] == e[..k];
    Step(s, e[k])
  }

  lemma PlaysWhatItHolds(s: State)
    requires s.callback == Sizing(1, true) && |s.ring| == 1 && s.taken == [] && s.device == []
    ensures RunFrom(s, [CallbackRuns, CallbackRuns, CallbackRuns, CallbackRuns]).device == s.ring
  {
    var c := CallbackRuns;
    var popping := s.(callback := Popping(1, true, 0));
    var popped := s.(taken := [Taken(s.ring[0], InHand)], ring := [], callback := Popping(0, true, 0));
    var finishing := popped.(callback := Finishing(true, 0));
    assert Step(s, c) == popping && Step(popping, c) == popped && Step(popped, c) == finishing;
    FinishHandsOver(finishing);
    hide Step, RunFrom;
    assert [c, c, c, c] == [c] + [c, c, c] && [c, c, c] == [c] + [c, c] && [c, c] == [c] + [c] && [c] == [c] + [];
    RunCons(s, c, [c, c, c]);
    RunCons(popping, c, [c, c]);
    RunCons(popped, c, [c]);
    RunCons(finishing, c, []);
    RunNothing(Step(finishing, c));
  }

  lemma RunNothing(s: State)
    ensures RunFrom(s, []) == s
  {
  }

  lemma FinishHandsOver(s: State)
    requires s.callback == Finishing(true, 0) && |s.taken| == 1 && s.device == []
    ensures Step(s, CallbackRuns).device == [s.taken[0].sample]
  {
    assert Samples(s.taken[0..]) == [s.taken[0].sample];
  }
}
