/** Guests lent to many requests at once (imports/http_handler/middleware.go).
    Each request's own calls follow one another; those of different requests
    interleave in any order. */
module HttpHandler {
  import opened Results
  import opened RequestStates

  /** Where a request is. Running: the guest is in handle_request. Releasing: the
      request body is being released before next is called. Waiting: next has been
      called. Responding: the guest is in handle_response. Closing: the state is
      being closed. Returned: likewise, with the guest already in the pool but not
      yet forgotten. */
  datatype Phase = Running | Releasing | Waiting | Responding | Closing | Returned | Done

  datatype Request = Request(phase: Phase, f: Fields)

  /** handles lists, for every reader and writer ever opened, the request and the
      slot it was opened for. */
  datatype Sys = Sys(pool: multiset<nat>, guests: nat, requests: seq<Request>, handles: seq<(nat, Slot)>, log: seq<Event>)

  datatype Action =
    | Start(taken: Option<nat>, features: set<Feature>)
    | HostCall(request: nat, call: Call)
    | Enable(request: nat, features: set<Feature>)
    | Return(request: nat, next: bool)
    | Respond(request: nat)
    | Finish(request: nat)
    | Release(request: nat)
    | Drop(guest: nat)

  /** One guest is created and pooled to begin with. */
  const INITIAL := Sys(multiset{0}, 1, [], [], [])

  predicate InPhase(s: Sys, r: nat, p: Phase) {
    r < |s.requests| && s.requests[r].phase == p
  }

  predicate GuestRuns(s: Sys, r: nat) {
    InPhase(s, r, Running) || InPhase(s, r, Responding)
  }

  predicate Enabled(s: Sys, a: Action) {
    match a
    case Start(taken, _) => taken.Some? ==> taken.value in s.pool
    case HostCall(r, _) => GuestRuns(s, r)
    case Enable(r, _) => GuestRuns(s, r)
    case Return(r, _) => InPhase(s, r, Running)
    case Respond(r) => InPhase(s, r, Waiting) || InPhase(s, r, Done)
    case Finish(r) => InPhase(s, r, Responding)
    case Release(r) => InPhase(s, r, Releasing) || InPhase(s, r, Closing) || InPhase(s, r, Returned)
    case Drop(g) => g in s.pool
  }

  function Update(s: Sys, r: nat, q: Request, events: seq<Event>): Sys
    requires r < |s.requests|
  {
    s.(requests := s.requests[r := q], log := s.log + events)
  }

  /** The pool may give any guest it holds, or none; then one is created. */
  function Started(s: Sys, taken: Option<nat>, features: set<Feature>): Sys
    requires taken.Some? ==> taken.value in s.pool
  {
    var g := if taken.Some? then taken.value else s.guests;
    s.(pool := if taken.Some? then s.pool - multiset{g} else s.pool,
       guests := if taken.Some? then s.guests else s.guests + 1,
       requests := s.requests + [Request(Running, Fields(false, None, None, None, None, features, Some(g)))],
       log := s.log + [Taken(|s.requests|, g)])
  }

  /** A call that is not allowed ends the guest with an error. */
  function Called(s: Sys, r: nat, c: Call): Sys
    requires r < |s.requests|
  {
    var q := s.requests[r];
    if !Allowed(q.f, c) then Update(s, r, q.(phase := Closing), [])
    else match SlotOf(c)
      case None => Update(s, r, q, Wrote(r, c))
      case Some(slot) => Working(s, r, slot, Wrote(r, c))
  }

  function Working(s: Sys, r: nat, slot: Slot, wrote: seq<Event>): Sys
    requires r < |s.requests|
  {
    var q, handle := s.requests[r], |s.handles|;
    var f := Opening(q.f, slot, handle);
    Update(s, r, q.(f := f), WorkEvents(s, r, slot, wrote)).(handles := if At(q.f, slot).Some? then s.handles else s.handles + [(r, slot)])
  }

  function WorkEvents(s: Sys, r: nat, slot: Slot, wrote: seq<Event>): seq<Event>
    requires r < |s.requests|
  {
    var f, handle := s.requests[r].f, |s.handles|;
    OpeningEvents(f, r, slot, handle) + [Used(At(Opening(f, slot, handle), slot).value)] + wrote
  }

  function FirstOpen(f: Fields, slots: seq<Slot>): (r: Option<Slot>)
    ensures r.Some? ==> r.value in slots && At(f, r.value).Some?
    ensures r.None? ==> forall s :: s in slots ==> At(f, s).None?
  {
    if slots == [] then None
    else
      var last := |slots| - 1;
      var r := FirstOpen(f, slots[..last]);
      if r.Some? then r else if At(f, slots[last]).Some? then Some(slots[last]) else None
  }

  function ReleasedSlot(s: Sys, r: nat, slot: Slot): Sys
    requires r < |s.requests|
  {
    var q := s.requests[r];
    Update(s, r, q.(f := Emptied(q.f, slot)), ReleaseEvents(q.f, slot))
  }

  /** One step of releasing or closing. */
  function ReleaseStep(s: Sys, r: nat): Sys
    requires r < |s.requests|
  {
    var q := s.requests[r];
    match q.phase
    case Releasing =>
      var slot := FirstOpen(q.f, REQUEST_SLOTS);
      if slot.Some? then ReleasedSlot(s, r, slot.value)
      else Update(s, r, q.(phase := Waiting), [CalledNext(r)])
    case Closing =>
      if q.f.guest.Some? then
        Update(s, r, q.(phase := Returned), [Pooled(r, q.f.guest.value)]).(pool := s.pool + multiset{q.f.guest.value})
      else
        var slot := FirstOpen(q.f, ALL_SLOTS);
        if slot.Some? then ReleasedSlot(s, r, slot.value) else Update(s, r, q.(phase := Done), [])
    case Returned => Update(s, r, q.(f := q.f.(guest := None), phase := Closing), [])
    case _ => s
  }

  function Apply(s: Sys, a: Action): Sys
    requires Enabled(s, a)
  {
    match a
    case Start(taken, features) => Started(s, taken, features)
    case HostCall(r, c) => Called(s, r, c)
    case Enable(r, features) => var q := s.requests[r]; Update(s, r, q.(f := q.f.(features := features)), [])
    case Return(r, next) => Update(s, r, s.requests[r].(phase := if next then Releasing else Closing), [])
    case Respond(r) =>
      var q := s.requests[r];
      Update(s, r, Request(if q.phase == Waiting then Responding else Closing, q.f.(afterNext := true)), [])
    case Finish(r) => Update(s, r, s.requests[r].(phase := Closing), [])
    case Release(r) => ReleaseStep(s, r)
    case Drop(g) => s.(pool := s.pool - multiset{g})
  }

  /** The state after a run, if every action is enabled in its turn. */
  function Run(s: Sys, actions: seq<Action>): Option<Sys>
    decreases |actions|
  {
    if actions == [] then Some(s)
    else
      var before := Run(s, actions[..|actions| - 1]);
      var a := actions[|actions| - 1];
      if before.Some? && Enabled(before.value, a) then Some(Apply(before.value, a)) else None
  }

  // ----- guests

  /** Whether a request has the use of the guest. */
  predicate Holds(q: Request, g: nat) {
    q.f.guest == Some(g) && q.phase != Returned
  }

  /** No guest is held by two requests, or held and pooled, or pooled twice. */
  ghost predicate Exclusive(s: Sys) {
    && (forall g :: s.pool[g] <= 1)
    && (forall r, g :: 0 <= r < |s.requests| && Holds(s.requests[r], g) ==> s.pool[g] == 0)
    && forall r, t, g :: 0 <= r < t < |s.requests| && Holds(s.requests[r], g) ==> !Holds(s.requests[t], g)
  }

  ghost predicate GuestsKnown(s: Sys) {
    && (forall g :: g in s.pool ==> g < s.guests)
    && forall r :: 0 <= r < |s.requests| && s.requests[r].f.guest.Some? ==> s.requests[r].f.guest.value < s.guests
  }

  /** Where a request is fits its fields. */
  ghost predicate PhaseOk(q: Request) {
    && (q.phase in {Running, Releasing, Waiting} ==> !q.f.afterNext && q.f.guest.Some?)
    && (q.phase == Responding ==> q.f.afterNext && q.f.guest.Some?)
    && (q.phase == Returned ==> q.f.guest.Some?)
    && (q.phase == Waiting ==> q.f.requestReader.None? && q.f.requestWriter.None?)
    && (q.phase == Done ==> q.f.guest.None? && forall s :: At(q.f, s).None?)
  }

  ghost predicate GuestsOk(s: Sys) {
    && Exclusive(s) && GuestsKnown(s)
    && forall r :: 0 <= r < |s.requests| ==> PhaseOk(s.requests[r])
  }

  lemma AllSlots(s: Slot)
    ensures s in ALL_SLOTS
    ensures s == RequestReader || s == RequestWriter ==> s in REQUEST_SLOTS
  {
    assert ALL_SLOTS[0] == RequestWriter && ALL_SLOTS[1] == RequestReader;
    assert ALL_SLOTS[2] == ResponseWriter && ALL_SLOTS[3] == ResponseReader;
    assert REQUEST_SLOTS[0] == RequestWriter && REQUEST_SLOTS[1] == RequestReader;
  }

  /** A request that changes takes no guest it did not have. */
  lemma NoGuestGained(s: Sys, s': Sys, r: nat)
    requires GuestsOk(s) && r < |s.requests| && |s'.requests| == |s.requests|
    requires s'.pool == s.pool && s'.guests == s.guests && s'.requests == s.requests[r := s'.requests[r]]
    requires PhaseOk(s'.requests[r])
    requires s'.requests[r].f.guest.None? || (s'.requests[r].f.guest == s.requests[r].f.guest && s.requests[r].phase != Returned)
    ensures GuestsOk(s')
  {
    hide PhaseOk;
    forall t, g | 0 <= t < |s'.requests| && Holds(s'.requests[t], g) ensures Holds(s.requests[t], g) {}
  }

  lemma StartKeepsGuests(s: Sys, taken: Option<nat>, features: set<Feature>)
    requires GuestsOk(s) && Enabled(s, Start(taken, features))
    ensures GuestsOk(Started(s, taken, features))
  {
    var s', n := Started(s, taken, features), |s.requests|;
    assert PhaseOk(s'.requests[n]);
    hide PhaseOk;
    StartIsExclusive(s, taken, features);
    hide Exclusive;
    forall r | 0 <= r < |s'.requests| ensures PhaseOk(s'.requests[r]) {
      if r < n {
        assert PhaseOk(s.requests[r]);
      }
    }
  }

  /** A guest taken from the pool, or a new one, is held by no one else. */
  lemma StartIsExclusive(s: Sys, taken: Option<nat>, features: set<Feature>)
    requires Exclusive(s) && GuestsKnown(s) && Enabled(s, Start(taken, features))
    ensures Exclusive(Started(s, taken, features))
    // The request starts before next with the guest, the features given and nothing
    // open; a guest that was not in the pool is a new one.
    ensures var q := Started(s, taken, features).requests[|s.requests|];
            && q == Request(Running, Fields(false, None, None, None, None, features, q.f.guest)) && q.f.guest.Some?
            && (taken.Some? ==> q.f.guest == taken) && (taken.None? ==> q.f.guest.value >= s.guests)
  {
    var s', n := Started(s, taken, features), |s.requests|;
    var g := s'.requests[n].f.guest.value;
    assert s'.pool[g] == 0 && forall h :: s'.pool[h] <= s.pool[h];
    forall r | 0 <= r < n ensures s'.requests[r] == s.requests[r] && !Holds(s.requests[r], g) {}
    hide Started;
    forall r, h | 0 <= r < |s'.requests| && Holds(s'.requests[r], h) ensures s'.pool[h] == 0 {
      assert r < n ==> Holds(s.requests[r], h);
    }
    forall r, t, h | 0 <= r < t < |s'.requests| && Holds(s'.requests[r], h) ensures !Holds(s'.requests[t], h) {
      assert t < n ==> !Holds(s.requests[t], h);
    }
  }

  lemma PoolingKeepsGuests(s: Sys, r: nat)
    requires GuestsOk(s) && InPhase(s, r, Closing) && s.requests[r].f.guest.Some?
    ensures GuestsOk(ReleaseStep(s, r))
  {
    var s', g := ReleaseStep(s, r), s.requests[r].f.guest.value;
    assert Holds(s.requests[r], g);
    forall t, h | 0 <= t < |s'.requests| && Holds(s'.requests[t], h) ensures t != r && Holds(s.requests[t], h) {}
    forall t | 0 <= t < |s'.requests| ensures PhaseOk(s'.requests[t]) {
      assert PhaseOk(s.requests[t]);
    }
  }

  lemma DropKeepsGuests(s: Sys, g: nat)
    requires GuestsOk(s) && g in s.pool
    ensures GuestsOk(s.(pool := s.pool - multiset{g}))
  {
    hide PhaseOk;
  }

  lemma ReleasingKeepsGuests(s: Sys, r: nat)
    requires GuestsOk(s) && Enabled(s, Release(r))
    ensures GuestsOk(ReleaseStep(s, r))
  {
    assert PhaseOk(s.requests[r]);
    var s' := ReleaseStep(s, r);
    if s.requests[r].phase == Closing && s.requests[r].f.guest.Some? {
      PoolingKeepsGuests(s, r);
    } else {
      forall t: Slot ensures t in ALL_SLOTS && (t == RequestReader || t == RequestWriter ==> t in REQUEST_SLOTS) {
        AllSlots(t);
      }
      assert At(s.requests[r].f, RequestReader) == s.requests[r].f.requestReader;
      assert At(s.requests[r].f, RequestWriter) == s.requests[r].f.requestWriter;
      hide GuestsOk;
      NoGuestGained(s, s', r);
    }
  }

  lemma GuestsStayOk(s: Sys, a: Action)
    requires GuestsOk(s) && Enabled(s, a)
    ensures GuestsOk(Apply(s, a))
  {
    match a
    case Start(taken, features) => StartKeepsGuests(s, taken, features);
    case Drop(g) => DropKeepsGuests(s, g);
    case Release(r) => ReleasingKeepsGuests(s, r);
    case _ =>
      assert PhaseOk(s.requests[a.request]);
      hide GuestsOk;
      NoGuestGained(s, Apply(s, a), a.request);
  }

  // ----- readers and writers

  /** Whether the handle is still in the slot it was opened for. */
  ghost predicate IsOpen(s: Sys, h: nat) {
    && h < |s.handles| && s.handles[h].0 < |s.requests|
    && At(s.requests[s.handles[h].0].f, s.handles[h].1) == Some(h)
  }

  ghost predicate SlotOk(s: Sys, r: nat, slot: Slot) {
    r < |s.requests| && At(s.requests[r].f, slot).Some? ==>
      var h := At(s.requests[r].f, slot).value; h < |s.handles| && s.handles[h] == (r, slot)
  }

  ghost function OpenedCount(s: Sys, r: nat, slot: Slot, h: nat): nat {
    if h < |s.handles| && s.handles[h] == (r, slot) then 1 else 0
  }

  ghost function ReleasedCount(s: Sys, h: nat): nat {
    if h < |s.handles| && !IsOpen(s, h) then 1 else 0
  }

  /** The log opens each handle once, for the request and the slot that have it,
      and releases it once, when it leaves that slot. */
  ghost predicate HandlesOk(s: Sys) {
    && (forall h: nat :: h < |s.handles| ==> s.handles[h].0 < |s.requests|)
    && (forall r: nat, slot :: SlotOk(s, r, slot))
    && (forall r: nat, slot, h: nat :: multiset(s.log)[Opened(r, slot, h)] == OpenedCount(s, r, slot, h))
    && forall h: nat :: multiset(s.log)[Released(h)] == ReleasedCount(s, h)
  }

  predicate AboutHandles(e: Event) { e.Opened? || e.Released? }

  /** Nothing that concerns handles happens. */
  lemma HandlesAlone(s: Sys, s': Sys, events: seq<Event>)
    requires HandlesOk(s) && s'.handles == s.handles && s'.log == s.log + events
    requires |s.requests| <= |s'.requests|
    requires forall r: nat, slot :: r < |s'.requests| ==>
                                      At(s'.requests[r].f, slot) == if r < |s.requests| then At(s.requests[r].f, slot) else None
    requires forall e :: e in events ==> !AboutHandles(e)
    ensures HandlesOk(s')
  {
    forall h: nat ensures IsOpen(s', h) <==> IsOpen(s, h) {
      if h < |s.handles| {
        var (r, slot) := s.handles[h];
        assert r < |s.requests|;
      }
    }
    forall r: nat, slot ensures SlotOk(s', r, slot) {
      assert SlotOk(s, r, slot);
    }
    forall r: nat, slot, h: nat ensures multiset(s'.log)[Opened(r, slot, h)] == OpenedCount(s', r, slot, h) {
      assert Opened(r, slot, h) !in events;
      assert multiset(s.log)[Opened(r, slot, h)] == OpenedCount(s, r, slot, h);
    }
    forall h: nat ensures multiset(s'.log)[Released(h)] == ReleasedCount(s', h) {
      assert Released(h) !in events;
      assert multiset(s.log)[Released(h)] == ReleasedCount(s, h);
    }
  }

  lemma OpeningKeepsHandles(s: Sys, s': Sys, r: nat, slot: Slot, events: seq<Event>)
    requires HandlesOk(s) && r < |s.requests| && At(s.requests[r].f, slot).None?
    requires s'.requests == s.requests[r := s.requests[r].(f := With(s.requests[r].f, slot, Some(|s.handles|)))]
    requires s'.handles == s.handles + [(r, slot)] && s'.log == s.log + ([Opened(r, slot, |s.handles|)] + events)
    requires forall e :: e in events ==> !AboutHandles(e)
    ensures HandlesOk(s')
  {
    var n := |s.handles|;
    forall h: nat ensures IsOpen(s', h) <==> IsOpen(s, h) || h == n {
      if h < n {
        assert s'.handles[h] == s.handles[h];
        assert s.handles[h].0 < |s.requests|;
      }
    }
    forall t: nat, u ensures SlotOk(s', t, u) {
      assert SlotOk(s, t, u);
    }
    forall t: nat, u, h: nat ensures multiset(s'.log)[Opened(t, u, h)] == OpenedCount(s', t, u, h) {
      assert Opened(t, u, h) !in events;
      assert multiset(s.log)[Opened(t, u, h)] == OpenedCount(s, t, u, h);
    }
    forall h: nat ensures multiset(s'.log)[Released(h)] == ReleasedCount(s', h) {
      assert Released(h) !in events;
      assert multiset(s.log)[Released(h)] == ReleasedCount(s, h);
    }
  }

  lemma EmptyingKeepsHandles(s: Sys, r: nat, slot: Slot)
    requires HandlesOk(s) && r < |s.requests| && At(s.requests[r].f, slot).Some?
    ensures HandlesOk(ReleasedSlot(s, r, slot))
  {
    var s', n := ReleasedSlot(s, r, slot), At(s.requests[r].f, slot).value;
    assert SlotOk(s, r, slot);
    forall h: nat ensures IsOpen(s', h) <==> IsOpen(s, h) && h != n {
      if h < |s.handles| {
        var (t, u) := s.handles[h];
        assert t < |s.requests|;
      }
    }
    forall t: nat, u ensures SlotOk(s', t, u) {
      assert SlotOk(s, t, u);
    }
    forall t: nat, u, h: nat ensures multiset(s'.log)[Opened(t, u, h)] == OpenedCount(s', t, u, h) {
      assert multiset(s.log)[Opened(t, u, h)] == OpenedCount(s, t, u, h);
    }
    forall h: nat ensures multiset(s'.log)[Released(h)] == ReleasedCount(s', h) {
      assert multiset(s.log)[Released(h)] == ReleasedCount(s, h);
    }
  }

  lemma WorkingKeepsHandles(s: Sys, r: nat, slot: Slot, wrote: seq<Event>)
    requires HandlesOk(s) && r < |s.requests| && forall e :: e in wrote ==> !AboutHandles(e)
    ensures HandlesOk(Working(s, r, slot, wrote))
  {
    hide HandlesOk;
    var s', q, n := Working(s, r, slot, wrote), s.requests[r], |s.handles|;
    var used := [Used(At(s'.requests[r].f, slot).value)] + wrote;
    if At(q.f, slot).Some? {
      assert [] + [Used(At(q.f, slot).value)] + wrote == used;
      HandlesAlone(s, s', used);
    } else {
      assert [Opened(r, slot, n)] + [Used(n)] + wrote == [Opened(r, slot, n)] + used;
      OpeningKeepsHandles(s, s', r, slot, used);
    }
  }

  lemma HandlesStayOk(s: Sys, a: Action)
    requires HandlesOk(s) && Enabled(s, a)
    ensures HandlesOk(Apply(s, a))
  {
    hide HandlesOk, Called, Started, ReleaseStep;
    match a
    case Start(taken, features) => StartKeepsHandles(s, taken, features);
    case HostCall(r, c) => CallKeepsHandles(s, r, c);
    case Release(r) => ReleasingKeepsHandles(s, r);
    case _ => HandlesAlone(s, Apply(s, a), []);
  }

  lemma StartKeepsHandles(s: Sys, taken: Option<nat>, features: set<Feature>)
    requires HandlesOk(s) && Enabled(s, Start(taken, features))
    ensures HandlesOk(Started(s, taken, features))
  {
    hide HandlesOk;
    var s' := Started(s, taken, features);
    HandlesAlone(s, s', [s'.log[|s.log|]]);
  }

  lemma CallKeepsHandles(s: Sys, r: nat, c: Call)
    requires HandlesOk(s) && r < |s.requests|
    ensures HandlesOk(Called(s, r, c))
  {
    hide HandlesOk, Working, Allowed;
    if Allowed(s.requests[r].f, c) && SlotOf(c).Some? {
      WorkingKeepsHandles(s, r, SlotOf(c).value, Wrote(r, c));
    } else {
      HandlesAlone(s, Called(s, r, c), if Allowed(s.requests[r].f, c) then Wrote(r, c) else []);
    }
  }

  lemma ReleasingKeepsHandles(s: Sys, r: nat)
    requires HandlesOk(s) && Enabled(s, Release(r))
    ensures HandlesOk(ReleaseStep(s, r))
  {
    hide HandlesOk;
    var q, s' := s.requests[r], ReleaseStep(s, r);
    var slot := FirstOpen(q.f, if q.phase == Releasing then REQUEST_SLOTS else ALL_SLOTS);
    if q.phase == Returned || (q.phase == Closing && q.f.guest.Some?) || slot.None? {
      HandlesAlone(s, s', s'.log[|s.log|..]);
    } else {
      EmptyingKeepsHandles(s, r, slot.value);
    }
  }

  // ----- the order of events

  /** Nothing is used once released. */
  ghost predicate NoUseAfterRelease(log: seq<Event>) {
    forall i, j :: 0 <= i < j < |log| && log[i].Released? ==> log[j] != Used(log[i].handle)
  }

  /** A request is not written once next has been called for it. */
  ghost predicate NoWriteAfterNext(log: seq<Event>) {
    forall i, j :: 0 <= i < j < |log| && log[i].CalledNext? ==> log[j] != WroteRequest(log[i].request)
  }

  ghost predicate NextMeans(s: Sys) {
    forall r: nat :: CalledNext(r) in s.log ==> r < |s.requests| && s.requests[r].phase !in {Running, Releasing}
  }

  ghost predicate OrderOk(s: Sys) {
    NoUseAfterRelease(s.log) && NoWriteAfterNext(s.log) && NextMeans(s)
  }

  /** Events that use nothing released and write nothing after next go on in order. */
  ghost predicate InOrder(log: seq<Event>, events: seq<Event>) {
    forall e :: e in events ==>
                  && (e.Used? ==> Released(e.handle) !in log + events)
                  && (e.WroteRequest? ==> CalledNext(e.request) !in log + events)
  }

  lemma OrderGoesOn(log: seq<Event>, events: seq<Event>)
    requires NoUseAfterRelease(log) && NoWriteAfterNext(log) && InOrder(log, events)
    ensures NoUseAfterRelease(log + events) && NoWriteAfterNext(log + events)
  {
    var all := log + events;
    forall i, j | 0 <= i < j < |all|
      ensures all[i].Released? ==> all[j] != Used(all[i].handle)
      ensures all[i].CalledNext? ==> all[j] != WroteRequest(all[i].request)
    {
      assert all[i] in all;
      if j < |log| {
        assert all[i] == log[i] && all[j] == log[j];
      } else {
        assert all[j] in events;
      }
    }
  }

  /** What is open has not been released, and what is not opened yet neither. */
  lemma NotReleased(s: Sys, h: nat)
    requires HandlesOk(s) && (IsOpen(s, h) || h >= |s.handles|)
    ensures Released(h) !in s.log
  {
    assert multiset(s.log)[Released(h)] == ReleasedCount(s, h);
  }

  /** A guest that may write the request runs before next. */
  lemma NotYetNext(s: Sys, r: nat)
    requires GuestsOk(s) && NextMeans(s) && GuestRuns(s, r) && !s.requests[r].f.afterNext
    ensures CalledNext(r) !in s.log
  {
    assert PhaseOk(s.requests[r]);
  }

  lemma WorkInOrder(s: Sys, r: nat, c: Call, slot: Slot)
    requires GuestsOk(s) && HandlesOk(s) && NextMeans(s) && GuestRuns(s, r) && Allowed(s.requests[r].f, c)
    ensures InOrder(s.log, WorkEvents(s, r, slot, Wrote(r, c)))
  {
    hide GuestsOk, HandlesOk, NextMeans, WorkEvents, Opening, Wrote;
    var f, n := s.requests[r].f, |s.handles|;
    var h, events := At(Opening(f, slot, n), slot).value, WorkEvents(s, r, slot, Wrote(r, c));
    SlotIsOpen(s, r, slot);
    OpeningIs(f, slot, n);
    NotReleased(s, h);
    if WritesRequest(c) {
      NotYetNext(s, r);
    }
    forall e | e in events ensures (e.Used? ==> e.handle == h) && (e.WroteRequest? ==> e.request == r && WritesRequest(c))
      ensures !e.Released? && !e.CalledNext?
    {
      WorkEvent(s, r, slot, c, e);
    }
  }

  lemma OpeningIs(f: Fields, slot: Slot, n: nat)
    ensures At(Opening(f, slot, n), slot) == if At(f, slot).Some? then At(f, slot) else Some(n)
  {
  }

  lemma WorkEvent(s: Sys, r: nat, slot: Slot, c: Call, e: Event)
    requires r < |s.requests| && e in WorkEvents(s, r, slot, Wrote(r, c))
    ensures e.Used? ==> e.handle == At(Opening(s.requests[r].f, slot, |s.handles|), slot).value
    ensures e.WroteRequest? ==> e.request == r && WritesRequest(c)
    ensures !e.Released? && !e.CalledNext?
  {
    hide WritesRequest, Opening;
  }

  lemma SetInOrder(s: Sys, r: nat, c: Call)
    requires GuestsOk(s) && NextMeans(s) && GuestRuns(s, r) && Allowed(s.requests[r].f, c)
    ensures InOrder(s.log, Wrote(r, c))
  {
    hide GuestsOk, NextMeans;
    if WritesRequest(c) {
      NotYetNext(s, r);
    }
  }

  lemma CallKeepsOrder(s: Sys, r: nat, c: Call)
    requires GuestsOk(s) && HandlesOk(s) && OrderOk(s) && GuestRuns(s, r)
    ensures NoUseAfterRelease(Called(s, r, c).log) && NoWriteAfterNext(Called(s, r, c).log)
  {
    hide GuestsOk, HandlesOk, NoUseAfterRelease, NoWriteAfterNext, InOrder, NextMeans, WorkEvents;
    if !Allowed(s.requests[r].f, c) {
      assert s.log + [] == s.log;
    } else if SlotOf(c).None? {
      SetInOrder(s, r, c);
      OrderGoesOn(s.log, Wrote(r, c));
    } else {
      WorkInOrder(s, r, c, SlotOf(c).value);
      OrderGoesOn(s.log, WorkEvents(s, r, SlotOf(c).value, Wrote(r, c)));
    }
  }

  lemma SlotIsOpen(s: Sys, r: nat, slot: Slot)
    requires HandlesOk(s) && r < |s.requests|
    ensures At(s.requests[r].f, slot).Some? ==> IsOpen(s, At(s.requests[r].f, slot).value)
  {
    assert SlotOk(s, r, slot);
  }

  predicate Quiet(e: Event) { !e.Used? && !e.WroteRequest? }

  /** Any other action neither uses a handle nor writes a request. */
  lemma OthersAreQuiet(s: Sys, a: Action)
    requires Enabled(s, a) && !a.HostCall?
    ensures s.log <= Apply(s, a).log
    ensures forall k :: |s.log| <= k < |Apply(s, a).log| ==> Quiet(Apply(s, a).log[k])
  {
  }

  lemma QuietKeepsOrder(log: seq<Event>, log': seq<Event>)
    requires NoUseAfterRelease(log) && NoWriteAfterNext(log) && log <= log'
    requires forall k :: |log| <= k < |log'| ==> Quiet(log'[k])
    ensures NoUseAfterRelease(log') && NoWriteAfterNext(log')
  {
    forall i, j | 0 <= i < j < |log'|
      ensures log'[i].Released? ==> log'[j] != Used(log'[i].handle)
      ensures log'[i].CalledNext? ==> log'[j] != WroteRequest(log'[i].request)
    {
      if j < |log| {
        assert log'[i] == log[i] && log'[j] == log[j];
      } else {
        assert Quiet(log'[j]);
      }
    }
  }

  lemma NextMeansStays(s: Sys, a: Action)
    requires NextMeans(s) && Enabled(s, a)
    ensures NextMeans(Apply(s, a))
  {
    var s' := Apply(s, a);
    forall r: nat | CalledNext(r) in s'.log ensures r < |s'.requests| && s'.requests[r].phase !in {Running, Releasing} {
      NextLogged(s, a, r);
    }
  }

  /** Next is logged only when a request goes on to wait for it. */
  lemma NextLogged(s: Sys, a: Action, r: nat)
    requires Enabled(s, a) && CalledNext(r) in Apply(s, a).log
    ensures CalledNext(r) in s.log || (a == Release(r) && InPhase(Apply(s, a), r, Waiting))
  {
  }

  lemma OrderStaysOk(s: Sys, a: Action)
    requires GuestsOk(s) && HandlesOk(s) && OrderOk(s) && Enabled(s, a)
    ensures OrderOk(Apply(s, a))
  {
    hide GuestsOk, HandlesOk, NoUseAfterRelease, NoWriteAfterNext, NextMeans, Apply;
    NextMeansStays(s, a);
    if a.HostCall? {
      CallApplied(s, a);
      CallKeepsOrder(s, a.request, a.call);
    } else {
      OthersAreQuiet(s, a);
      QuietKeepsOrder(s.log, Apply(s, a).log);
    }
  }

  lemma CallApplied(s: Sys, a: Action)
    requires Enabled(s, a) && a.HostCall?
    ensures GuestRuns(s, a.request) && Apply(s, a) == Called(s, a.request, a.call)
  {
  }

  // ----- every run

  ghost predicate Invariant(s: Sys) {
    GuestsOk(s) && HandlesOk(s) && OrderOk(s)
  }

  lemma {:induction false} RunKeepsInvariant(actions: seq<Action>)
    ensures var s := Run(INITIAL, actions); s.Some? ==> Invariant(s.value)
    decreases |actions|
  {
    hide GuestsOk, HandlesOk, OrderOk;
    if actions == [] {
      InitialInvariant();
    } else {
      var before, a := actions[..|actions| - 1], actions[|actions| - 1];
      RunKeepsInvariant(before);
      var s := Run(INITIAL, before);
      if s.Some? && Enabled(s.value, a) {
        GuestsStayOk(s.value, a);
        HandlesStayOk(s.value, a);
        OrderStaysOk(s.value, a);
      }
    }
  }

  lemma InitialInvariant()
    ensures Invariant(INITIAL)
  {
  }

  /** In every interleaving: no guest is held twice, held while pooled, or pooled
      twice; no reader or writer is opened, or released, more than once, or used
      once released; no request is written after next; and a closed request has
      released everything it opened, each exactly once. */
  lemma EveryRunIsSafe(actions: seq<Action>)
    requires Run(INITIAL, actions).Some?
    ensures var s := Run(INITIAL, actions).value;
            && Exclusive(s)
            && NoUseAfterRelease(s.log) && NoWriteAfterNext(s.log)
            && (forall h: nat :: multiset(s.log)[Released(h)] <= 1)
            && forall r: nat, slot, h: nat :: InPhase(s, r, Done) && Opened(r, slot, h) in s.log ==>
                                                multiset(s.log)[Opened(r, slot, h)] == 1 == multiset(s.log)[Released(h)]
  {
    RunKeepsInvariant(actions);
    var s := Run(INITIAL, actions).value;
    forall h: nat ensures multiset(s.log)[Released(h)] <= 1 {
      assert multiset(s.log)[Released(h)] == ReleasedCount(s, h);
    }
    forall r: nat, slot, h: nat | InPhase(s, r, Done) && Opened(r, slot, h) in s.log
      ensures multiset(s.log)[Opened(r, slot, h)] == 1 == multiset(s.log)[Released(h)]
    {
      assert PhaseOk(s.requests[r]);
      assert multiset(s.log)[Opened(r, slot, h)] == OpenedCount(s, r, slot, h);
      assert multiset(s.log)[Released(h)] == ReleasedCount(s, h);
    }
  }

  // ----- what a guest's calls do

  /** The call works through this reader or writer: that of the body it names. */
  ghost predicate WorksThrough(c: Call, slot: Slot) {
    match slot
    case RequestReader => c == ReadBody(RequestBody)
    case RequestWriter => c == WriteBody(RequestBody)
    case ResponseReader => c == ReadBody(ResponseBody)
    case ResponseWriter => c == WriteBody(ResponseBody)
  }

  /** What a step adds to the log. */
  function Added(s: Sys, s': Sys): seq<Event>
    requires s.log <= s'.log
  {
    s'.log[|s.log|..]
  }

  /** A call that is refused, one that only sets something, and one to a body. */
  lemma CalledIs(s: Sys, r: nat, c: Call)
    requires Enabled(s, HostCall(r, c))
    ensures var q := s.requests[r];
            Apply(s, HostCall(r, c)) ==
            if !Allowed(q.f, c) then Update(s, r, q.(phase := Closing), [])
            else if c.Set? then Update(s, r, q, Wrote(r, c))
            else Working(s, r, SlotOf(c).value, Wrote(r, c))
  {
    hide Allowed, Working, Update, Wrote;
  }

  lemma AddedBy(s: Sys, r: nat, q: Request, events: seq<Event>)
    requires r < |s.requests|
    ensures var s' := Update(s, r, q, events); s.log <= s'.log && Added(s, s') == events && s'.requests == s.requests[r := q]
  {
  }

  lemma WroteOnly(r: nat, c: Call, e: Event)
    requires e in Wrote(r, c)
    ensures !e.Used? && !AboutHandles(e)
  {
  }

  /** A call to a body uses a handle exactly when it is allowed, and the handle was
      opened for that body of that request and is still in its place. */
  lemma CallUsesItsBody(s: Sys, r: nat, c: Call, h: nat)
    requires HandlesOk(s) && Enabled(s, HostCall(r, c))
    ensures var s' := Apply(s, HostCall(r, c));
            && s.log <= s'.log
            && (Used(h) in Added(s, s') ==>
                  exists slot :: WorksThrough(c, slot) && At(s'.requests[r].f, slot) == Some(h) && Opened(r, slot, h) in s'.log)
            && (!c.Set? && Allowed(s.requests[r].f, c) ==> exists g :: Used(g) in Added(s, s'))
            && (!Allowed(s.requests[r].f, c) ==> Added(s, s') == [] && InPhase(s', r, Closing))
  {
    hide HandlesOk, Allowed, Apply, Working, Update, Wrote, Added, SlotOf;
    var s', q := Apply(s, HostCall(r, c)), s.requests[r];
    CalledIs(s, r, c);
    forall e | e in Wrote(r, c) ensures !e.Used? {
      WroteOnly(r, c, e);
    }
    if !Allowed(q.f, c) {
      AddedBy(s, r, q.(phase := Closing), []);
    } else if c.Set? {
      AddedBy(s, r, q, Wrote(r, c));
    } else {
      SlotIsItsBodys(c);
      var slot := SlotOf(c).value;
      WorkUses(s, r, slot, Wrote(r, c), h);
      HandlesStayOk(s, HostCall(r, c));
      WhatIsInASlot(s', r, slot);
    }
  }

  lemma SlotIsItsBodys(c: Call)
    requires !c.Set?
    ensures SlotOf(c).Some? && WorksThrough(c, SlotOf(c).value)
  {
  }

  lemma WorkUses(s: Sys, r: nat, slot: Slot, wrote: seq<Event>, h: nat)
    requires r < |s.requests| && forall e :: e in wrote ==> !e.Used?
    ensures var s' := Working(s, r, slot, wrote);
            && s.log <= s'.log && |s'.requests| == |s.requests| && At(s'.requests[r].f, slot).Some?
            && (Used(h) in Added(s, s') <==> At(s'.requests[r].f, slot) == Some(h))
            && Used(At(s'.requests[r].f, slot).value) in Added(s, s')
  {
    var s' := Working(s, r, slot, wrote);
    var f, handle := s.requests[r].f, |s.handles|;
    var used := Used(At(Opening(f, slot, handle), slot).value);
    assert Added(s, s') == OpeningEvents(f, r, slot, handle) + [used] + wrote;
    assert used in [used];
  }

  lemma WhatIsInASlot(s: Sys, r: nat, slot: Slot)
    requires HandlesOk(s) && r < |s.requests| && At(s.requests[r].f, slot).Some?
    ensures Opened(r, slot, At(s.requests[r].f, slot).value) in s.log
  {
    var h := At(s.requests[r].f, slot).value;
    assert SlotOk(s, r, slot);
    assert multiset(s.log)[Opened(r, slot, h)] == OpenedCount(s, r, slot, h);
  }

  /** The same at any point of any run. */
  lemma EveryCallUsesItsBody(actions: seq<Action>, r: nat, c: Call, h: nat)
    requires Run(INITIAL, actions).Some? && Enabled(Run(INITIAL, actions).value, HostCall(r, c))
    ensures var s := Run(INITIAL, actions).value;
            var s' := Apply(s, HostCall(r, c));
            && s.log <= s'.log
            && (Used(h) in Added(s, s') ==>
                  exists slot :: WorksThrough(c, slot) && At(s'.requests[r].f, slot) == Some(h) && Opened(r, slot, h) in s'.log)
  {
    hide GuestsOk, HandlesOk, OrderOk, Apply, Enabled;
    RunKeepsInvariant(actions);
    CallUsesItsBody(Run(INITIAL, actions).value, r, c, h);
  }

  /** A call that is let through writes what it is to write: the request or the
      response, and nothing when it reads. */
  lemma CallWrites(s: Sys, r: nat, c: Call)
    requires Enabled(s, HostCall(r, c)) && Allowed(s.requests[r].f, c)
    ensures var s' := Apply(s, HostCall(r, c));
            && s.log <= s'.log
            && (WroteRequest(r) in Added(s, s') <==>
                c in {WriteBody(RequestBody), Set(Method), Set(Uri), Set(RequestHeader), Set(RequestTrailer)})
            && (WroteResponse(r) in Added(s, s') <==>
                c in {WriteBody(ResponseBody), Set(ResponseHeader), Set(ResponseTrailer), Set(StatusCode)})
  {
    hide Allowed, Apply, Working, Update, Added, SlotOf, WorkEvents;
    CalledIs(s, r, c);
    if c.Set? {
      AddedBy(s, r, s.requests[r], Wrote(r, c));
    } else {
      SlotIsItsBodys(c);
      var slot := SlotOf(c).value;
      AddedByWork(s, r, slot, Wrote(r, c));
      AmongWork(s, r, slot, Wrote(r, c), WroteRequest(r));
      AmongWork(s, r, slot, Wrote(r, c), WroteResponse(r));
    }
  }

  lemma AddedByWork(s: Sys, r: nat, slot: Slot, wrote: seq<Event>)
    requires r < |s.requests|
    ensures var s' := Working(s, r, slot, wrote); s.log <= s'.log && Added(s, s') == WorkEvents(s, r, slot, wrote)
  {
    hide WorkEvents, Opening;
  }

  lemma AmongWork(s: Sys, r: nat, slot: Slot, wrote: seq<Event>, e: Event)
    requires r < |s.requests| && !e.Opened? && !e.Used?
    ensures e in WorkEvents(s, r, slot, wrote) <==> e in wrote
  {
    hide Opening;
  }

  /** What a guest enables for its request counts from then on. */
  lemma EnablingAllows(s: Sys, r: nat, features: set<Feature>)
    requires Enabled(s, Enable(r, features)) && s.requests[r].f.afterNext
    ensures var f := Apply(s, Enable(r, features)).requests[r].f;
            && (Allowed(f, WriteBody(ResponseBody)) <==> BufferResponse in features)
            && (Allowed(f, ReadBody(RequestBody)) <==> BufferRequest in features)
            && forall slot :: At(f, slot) == At(s.requests[r].f, slot)
  {
  }

  // ----- the next handler

  /** Next is called only for a request whose guest asked for it. */
  lemma {:induction false} NextIsAskedFor(actions: seq<Action>, r: nat)
    requires Run(INITIAL, actions).Some?
    ensures var s := Run(INITIAL, actions).value;
            CalledNext(r) in s.log || InPhase(s, r, Releasing) ==> Return(r, true) in actions
    decreases |actions|
  {
    if actions != [] {
      var before, a := actions[..|actions| - 1], actions[|actions| - 1];
      NextIsAskedFor(before, r);
      var s := Run(INITIAL, before).value;
      NextSteps(s, a, r);
      assert a in actions;
      assert Return(r, true) in before ==> Return(r, true) in actions;
    }
  }

  lemma NextSteps(s: Sys, a: Action, r: nat)
    requires Enabled(s, a)
    ensures CalledNext(r) in Apply(s, a).log || InPhase(Apply(s, a), r, Releasing) ==>
              CalledNext(r) in s.log || InPhase(s, r, Releasing) || a == Return(r, true)
  {
    if CalledNext(r) in Apply(s, a).log && CalledNext(r) !in s.log {
      NextLogged(s, a, r);
    }
  }

  /** What happens once the guest has returned, if the request is left alone: it
      waits for the next handler with its guest, what it needed for the request
      body released, when it asked for that; otherwise it is closed. */
  lemma ReturnEnds(s: Sys, r: nat, next: bool) returns (n: nat)
    requires Enabled(s, Return(r, next)) && GuestsOk(s)
    ensures var end, q := Steps(Apply(s, Return(r, next)), r, n), s.requests[r];
            && r < |end.requests| && end.log != []
            && (next ==>
                  && end.requests[r].phase == Waiting && end.requests[r].f.guest == q.f.guest && end.pool == s.pool
                  && end.requests[r].f.requestReader.None? && end.requests[r].f.requestWriter.None?
                  && end.requests[r].f.responseReader == q.f.responseReader && end.requests[r].f.responseWriter == q.f.responseWriter
                  && end.log[|end.log| - 1] == CalledNext(r))
            && (!next ==>
                  && end.requests[r].phase == Done && q.f.guest.Some? && end.pool == s.pool + multiset{q.f.guest.value}
                  && Pooled(r, q.f.guest.value) in end.log)
  {
    var q, s1 := s.requests[r], Apply(s, Return(r, next));
    assert PhaseOk(q);
    if next {
      n := SlotsRelease(s1, r);
      ReleaseAllClears(q.f, REQUEST_SLOTS);
      var (f, events) := ReleaseAll(q.f, REQUEST_SLOTS);
      SlotsOfBodies(q.f, f);
    } else {
      n := CloseEnds(s1, r);
    }
  }

  /** The response goes to the guest that had the request, which knows that next has
      been called; once it is through, the request, left alone, ends closed and its
      guest pooled. */
  lemma ResponseEnds(s: Sys, r: nat) returns (n: nat)
    requires GuestsOk(s) && InPhase(s, r, Waiting)
    ensures Enabled(s, Respond(r)) && Enabled(Apply(s, Respond(r)), Finish(r))
    ensures var s1, q := Apply(s, Respond(r)), s.requests[r];
            var end := Steps(Apply(s1, Finish(r)), r, n);
            && GuestRuns(s1, r) && s1.requests[r].f == q.f.(afterNext := true) && s1.pool == s.pool && s1.log == s.log
            && r < |end.requests| && end.requests[r].phase == Done
            && q.f.guest.Some? && end.pool == s.pool + multiset{q.f.guest.value} && Pooled(r, q.f.guest.value) in end.log
  {
    assert PhaseOk(s.requests[r]);
    var s1 := Apply(s, Respond(r));
    assert s1.log == s.log + [] == s.log;
    n := CloseEnds(Apply(s1, Finish(r)), r);
  }

  lemma SlotsOfBodies(f: Fields, f': Fields)
    requires forall s :: At(f', s) == if s in REQUEST_SLOTS then None else At(f, s)
    ensures f'.requestReader.None? && f'.requestWriter.None?
    ensures f'.responseReader == f.responseReader && f'.responseWriter == f.responseWriter
  {
    AllSlots(RequestReader);
    AllSlots(RequestWriter);
    assert At(f', RequestReader) == f'.requestReader && At(f', RequestWriter) == f'.requestWriter;
    assert At(f', ResponseReader) == f'.responseReader && At(f', ResponseWriter) == f'.responseWriter;
  }

  // ----- the steps of closing are the method Close

  function Steps(s: Sys, r: nat, n: nat): (s': Sys)
    requires r < |s.requests|
    ensures |s'.requests| == |s.requests|
    decreases n
  {
    if n == 0 then s else Steps(ReleaseStep(s, r), r, n - 1)
  }

  lemma {:induction false} NothingToRelease(f: Fields, slots: seq<Slot>)
    requires FirstOpen(f, slots).None?
    ensures ReleaseAll(f, slots) == (f, [])
    decreases |slots|
  {
    if slots != [] {
      NothingToRelease(f, slots[..|slots| - 1]);
      var none: seq<Event> := [];
      assert none + ReleaseEvents(f, slots[|slots| - 1]) == none;
    }
  }

  lemma {:induction false} ReleaseFirst(f: Fields, slots: seq<Slot>)
    requires FirstOpen(f, slots).Some?
    ensures var s := FirstOpen(f, slots).value;
            var rest := ReleaseAll(Emptied(f, s), slots);
            ReleaseAll(f, slots) == (rest.0, ReleaseEvents(f, s) + rest.1)
    decreases |slots|
  {
    var s, last := FirstOpen(f, slots).value, |slots| - 1;
    var f', init := Emptied(f, s), slots[..last];
    if FirstOpen(f, init).Some? {
      ReleaseFirst(f, init);
      var (mid, events) := ReleaseAll(f', init);
      var end := ReleaseEvents(mid, slots[last]);
      assert ReleaseEvents(f, s) + events + end == ReleaseEvents(f, s) + (events + end);
    } else {
      NothingToRelease(f, init);
      StillNothing(f, init, s);
      NothingToRelease(f', init);
      var none: seq<Event> := [];
      assert none + ReleaseEvents(f, s) == ReleaseEvents(f, s) + none;
      assert none + ReleaseEvents(f', s) == none;
    }
  }

  lemma {:induction false} StillNothing(f: Fields, slots: seq<Slot>, s: Slot)
    requires FirstOpen(f, slots).None?
    ensures FirstOpen(Emptied(f, s), slots).None?
    decreases |slots|
  {
    if slots != [] {
      StillNothing(f, slots[..|slots| - 1], s);
    }
  }

  function OpenSlots(f: Fields): nat {
    (if f.requestReader.Some? then 1 else 0) + (if f.requestWriter.Some? then 1 else 0)
    + (if f.responseReader.Some? then 1 else 0) + (if f.responseWriter.Some? then 1 else 0)
  }

  /** Step by step, the slots are released as the methods release them. */
  lemma {:induction false} SlotsRelease(s: Sys, r: nat) returns (n: nat)
    requires InPhase(s, r, Releasing) || (InPhase(s, r, Closing) && s.requests[r].f.guest.None?)
    ensures var q := s.requests[r];
            var (f, events) := ReleaseAll(q.f, if q.phase == Releasing then REQUEST_SLOTS else ALL_SLOTS);
            Steps(s, r, n) ==
            if q.phase == Releasing then Update(s, r, Request(Waiting, f), events + [CalledNext(r)])
            else Update(s, r, Request(Done, f), events)
    decreases OpenSlots(s.requests[r].f)
  {
    hide ReleaseAll;
    var q := s.requests[r];
    var slots := if q.phase == Releasing then REQUEST_SLOTS else ALL_SLOTS;
    var slot := FirstOpen(q.f, slots);
    if slot.None? {
      NothingToRelease(q.f, slots);
      assert Steps(s, r, 1) == Steps(ReleaseStep(s, r), r, 0);
      n := 1;
    } else {
      ReleaseFirst(q.f, slots);
      var q' := q.(f := Emptied(q.f, slot.value));
      var first := ReleaseEvents(q.f, slot.value);
      var s' := Update(s, r, q', first);
      assert s' == ReleaseStep(s, r);
      var m := SlotsRelease(s', r);
      n := m + 1;
      var (f, events) := ReleaseAll(q'.f, slots);
      UpdateTwice(s, r, q', first, Request(Done, f), events);
      UpdateTwice(s, r, q', first, Request(Waiting, f), events + [CalledNext(r)]);
      assert first + events + [CalledNext(r)] == first + (events + [CalledNext(r)]);
    }
  }

  lemma UpdateTwice(s: Sys, r: nat, q: Request, a: seq<Event>, q': Request, b: seq<Event>)
    requires r < |s.requests|
    ensures Update(Update(s, r, q, a), r, q', b) == Update(s, r, q', a + b)
  {
    assert s.log + a + b == s.log + (a + b);
  }

  /** Left alone, a request that is closing ends closed, with the pool, the fields
      and the log as the method Close leaves them. */
  lemma CloseEnds(s: Sys, r: nat) returns (n: nat)
    requires InPhase(s, r, Closing)
    ensures var f := s.requests[r].f;
            Steps(s, r, n) ==
            Update(s, r, Request(Done, ReleaseAll(f.(guest := None), ALL_SLOTS).0), CloseEvents(r, f))
            .(pool := s.pool + GuestIn(f))
  {
    var f := s.requests[r].f;
    if f.guest.None? {
      n := SlotsRelease(s, r);
      assert PoolEvents(r, f) + ReleaseAll(f, ALL_SLOTS).1 == ReleaseAll(f, ALL_SLOTS).1;
    } else {
      var s1 := ReleaseStep(s, r);
      var s2 := ReleaseStep(s1, r);
      var m := SlotsRelease(s2, r);
      n := m + 2;
      assert Steps(s, r, n) == Steps(s1, r, m + 1) == Steps(s2, r, m);
      assert s2.log == s.log + PoolEvents(r, f);
    }
  }
}
