/** poll_oneoff: waiting for the first of a guest's subscriptions
    (imports/wasi_snapshot_preview1/poll.go). */
module PollOneoff {
  import opened Results
  import opened Bytes
  import opened Polling
  import opened PollScripts
  import opened Sequences

  // ----- the guest's memory

  /** The guest's memory before any event is written, and where its
      subscriptions are and its events go. */
  ghost predicate GuestOk(m: seq<byte>, table: nat, out: nat, subs: seq<seq<byte>>) {
    && table + SUB_SIZE * |subs| <= |m| && out + EVENT_SIZE * |subs| <= |m|
    && Separate(table, SUB_SIZE * |subs|, out, EVENT_SIZE * |subs|)
    && subs == SubsAt(m, table, |subs|)
  }

  /** The guest's memory with events written. */
  ghost predicate Shows(now: seq<byte>, m: seq<byte>, out: nat, subs: seq<seq<byte>>, es: seq<Event>) {
    && EventsFor(subs, es) && |es| <= |subs| && out + EVENT_SIZE * |subs| <= |m|
    && now == Written(m, out, Array(subs, es))
  }

  lemma WriteWithin(m: seq<byte>, at: nat, a: seq<byte>, k: nat, data: seq<byte>)
    requires at + |a| <= |m| && k + |data| <= |a|
    ensures Written(Written(m, at, a), at + k, data) == Written(m, at, Written(a, k, data))
  {
  }

  /** The subscriptions stay as they were. */
  lemma SubKept(now: seq<byte>, m: seq<byte>, table: nat, out: nat, subs: seq<seq<byte>>, es: seq<Event>, i: nat)
    requires GuestOk(m, table, out, subs) && Shows(now, m, out, subs, es) && i < |subs|
    ensures |now| == |m| && table + SUB_SIZE * (i + 1) <= |now| && SubAt(now, table, i) == subs[i]
  {
    hide Array;
    ReadApart(m, out, Array(subs, es), table + SUB_SIZE * i, SUB_SIZE);
  }

  /** Writes the next event. */
  method WriteEvent(mem: array<byte>, table: nat, out: nat, nevents: nat, i: nat, errno: byte,
                    ghost m: seq<byte>, ghost subs: seq<seq<byte>>, ghost es: seq<Event>)
    requires GuestOk(m, table, out, subs) && Shows(mem[..], m, out, subs, es)
    requires nevents == |es| < |subs| && i < |subs|
    modifies mem
    ensures Shows(mem[..], m, out, subs, es + [Event(i, errno)])
  {
    hide Array, Written, Head;
    SubKept(mem[..], m, table, out, subs, es, i);
    var at := table + SUB_SIZE * i;
    var sub := mem[at..at + SUB_SIZE];
    assert sub == subs[i];
    ghost var e := Event(i, errno);
    WriteRecord(subs, es, e);
    WriteWithin(m, out, Array(subs, es), EVENT_SIZE * nevents, Head(sub[..8], errno, sub[8]));
    Write(mem, out + EVENT_SIZE * nevents, Head(sub[..8], errno, sub[8]));
  }

  // ----- polling files

  ghost predicate SubsBelow(polls: seq<Sub>, n: nat) {
    forall k :: 0 <= k < |polls| ==> polls[k].index < n
  }

  /** Reports each file by its answer, up to one that fails. */
  method ReportAll(mem: array<byte>, table: nat, out: nat, nevents: nat, polls: seq<Sub>, answers: Answers,
                   ghost m: seq<byte>, ghost subs: seq<seq<byte>>, ghost es: seq<Event>)
    returns (n: nat, failed: Option<nat>, ghost es': seq<Event>)
    requires GuestOk(m, table, out, subs) && Shows(mem[..], m, out, subs, es)
    requires nevents == |es| && |es| + |polls| <= |subs| && SubsBelow(polls, |subs|)
    modifies mem
    ensures Shows(mem[..], m, out, subs, es') && n == |es'|
    ensures failed == FailureOf(answers, |polls|)
    ensures failed.None? ==> es' == es + Reports(polls, answers)
  {
    NoReports(answers);
    hide GuestOk, Shows, Reports;
    n, es' := nevents, es;
    for i := 0 to |polls|
      invariant Shows(mem[..], m, out, subs, es') && n == |es'|
      invariant es' == es + Reports(polls[..i], answers) && FailureOf(answers, i).None?
    {
      ReportNext(polls, i, answers);
      var a := answers(i);
      Extend(es, Reports(polls[..i], answers), Report(polls[i], a));
      if a.Failed? {
        FailureStays(answers, i + 1, |polls|);
        return n, Some(a.code), es';
      }
      if a.Ready? || a.Unsupported? {
        var errno := if a.Ready? then SUCCESS else NOTSUP;
        WriteEvent(mem, table, out, n, polls[i].index, errno, m, subs, es');
        n, es' := n + 1, es' + [Event(polls[i].index, errno)];
      }
    }
    assert polls[..|polls|] == polls;
    failed := None;
  }

  datatype Outcome = Counted(nevents: nat) | PollFails(code: nat) | StillWaiting

  /** The answers that decide the call give this outcome, with es' written after es. */
  ghost predicate Gives(last: Option<Answers>, polls: seq<Sub>, es: seq<Event>, r: Outcome, es': seq<Event>) {
    match last
    case None => r == StillWaiting && es' == es
    case Some(answers) =>
      match FailureOf(answers, |polls|)
      case Some(code) => r == PollFails(code)
      case None => r == Counted(|es'|) && es' == es + Reports(polls, answers)
  }

  /** Tells the files that cannot be polled so, and lists the others. */
  method TellUnpollable(mem: array<byte>, table: nat, out: nat, nevents: nat, deferred: seq<Sub>,
                        ghost m: seq<byte>, ghost subs: seq<seq<byte>>, ghost es: seq<Event>)
    returns (n: nat, polls: seq<Sub>, ghost es': seq<Event>)
    requires GuestOk(m, table, out, subs) && Shows(mem[..], m, out, subs, es)
    requires nevents == |es| && |es| + |deferred| <= |subs| && SubsBelow(deferred, |subs|)
    requires forall k :: 0 <= k < |deferred| ==> deferred[k].kind.Deferred?
    modifies mem
    ensures Shows(mem[..], m, out, subs, es') && n == |es'|
    ensures es' == es + Told(Keep(deferred, IsUnpollable)) && polls == Keep(deferred, IsPollable)
    ensures |es'| + |polls| <= |subs| && SubsBelow(polls, |subs|)
  {
    hide GuestOk, Shows, Told, Keep, SplitSoFar;
    n, polls, es' := nevents, [], es;
    SplitStarts(deferred, |subs|, es);
    for i := 0 to |deferred|
      invariant Shows(mem[..], m, out, subs, es') && n == |es'| && n + |polls| == nevents + i
      invariant SplitSoFar(deferred[..i], |subs|, es, es', polls)
    {
      var sub := deferred[i];
      SplitNext(deferred, i, |subs|, es, es', polls);
      if !sub.kind.pollable {
        WriteEvent(mem, table, out, n, sub.index, NOTSUP, m, subs, es');
        n, es' := n + 1, es' + [Event(sub.index, NOTSUP)];
      } else {
        polls := polls + [sub];
      }
    }
    SplitEnds(deferred, |subs|, es, es', polls);
  }

  ghost predicate SplitSoFar(deferred: seq<Sub>, nsubs: nat, es: seq<Event>, es': seq<Event>, polls: seq<Sub>) {
    es' == es + Told(Keep(deferred, IsUnpollable)) && polls == Keep(deferred, IsPollable) && SubsBelow(polls, nsubs)
  }

  lemma SplitStarts(deferred: seq<Sub>, nsubs: nat, es: seq<Event>)
    ensures SplitSoFar(deferred[..0], nsubs, es, es, [])
  {
  }

  lemma SplitNext(deferred: seq<Sub>, i: nat, nsubs: nat, es: seq<Event>, es': seq<Event>, polls: seq<Sub>)
    requires i < |deferred| && deferred[i].kind.Deferred? && deferred[i].index < nsubs
    requires SplitSoFar(deferred[..i], nsubs, es, es', polls)
    ensures var sub, next := deferred[i], deferred[..i + 1];
            if sub.kind.pollable then SplitSoFar(next, nsubs, es, es', polls + [sub])
            else SplitSoFar(next, nsubs, es, es' + [Event(sub.index, NOTSUP)], polls)
  {
    hide Told, Keep;
    KeepNext(deferred, i, IsUnpollable);
    KeepNext(deferred, i, IsPollable);
    ToldNext(Keep(deferred[..i], IsUnpollable), deferred[i]);
    Extend(es, Told(Keep(deferred[..i], IsUnpollable)), [EventFor(deferred[i])]);
  }

  lemma SplitEnds(deferred: seq<Sub>, nsubs: nat, es: seq<Event>, es': seq<Event>, polls: seq<Sub>)
    requires SplitSoFar(deferred[..|deferred|], nsubs, es, es', polls)
    ensures es' == es + Told(Keep(deferred, IsUnpollable)) && polls == Keep(deferred, IsPollable) && SubsBelow(polls, nsubs)
  {
    assert deferred[..|deferred|] == deferred;
  }

  lemma ToldNext(subs: seq<Sub>, s: Sub)
    ensures Told(subs + [s]) == Told(subs) + [EventFor(s)]
  {
  }

  /** Looks at each file in turn, round after round, until there is something to
      report or the time is up; sleeps in between. */
  method PollRounds(mem: array<byte>, table: nat, out: nat, nevents: nat, polls: seq<Sub>,
                    hasClock: bool, timeout: int, rounds: seq<Round>,
                    ghost m: seq<byte>, ghost subs: seq<seq<byte>>, ghost es: seq<Event>)
    returns (r: Outcome, waits: seq<Wait>, ghost es': seq<Event>)
    requires GuestOk(m, table, out, subs) && Shows(mem[..], m, out, subs, es)
    requires nevents == |es| && |es| + |polls| <= |subs| && SubsBelow(polls, |subs|)
    modifies mem
    ensures Shows(mem[..], m, out, subs, es')
    ensures var k := EndFrom(polls, hasClock, timeout, es != [], rounds, 0);
            && Gives(if k < |rounds| then Some(rounds[k].answers) else None, polls, es, r, es')
            && waits == RoundWaits(hasClock, timeout, rounds, k)
  {
    StartInterval();
    hide GuestOk, Shows, Reports, Interval, FailureOf, EndFrom, RoundWaits;
    ghost var end := EndFrom(polls, hasClock, timeout, es != [], rounds, 0);
    var n := nevents;
    var wait := MIN_INTERVAL;
    waits, es' := [], es;
    for i := 0 to |rounds|
      invariant Shows(mem[..], m, out, subs, es') && es' == es && n == |es'|
      invariant i <= end && (i > 0 ==> es == [])
      invariant waits == RoundWaits(hasClock, timeout, rounds, i) && wait == Interval(i)
    {
      var before, failed := n, None;
      n, failed, es' := ReportAll(mem, table, out, n, polls, rounds[i].answers, m, subs, es');
      if failed.Some? {
        return PollFails(failed.value), waits, es';
      }
      if n > before || before > 0 {
        return Counted(n), waits, es';
      }
      var remaining := timeout - rounds[i].at;
      if hasClock && remaining <= 0 {
        return Counted(n), waits, es';
      }
      var sleep := if hasClock && remaining < wait then remaining else wait;
      OneMoreSleep(hasClock, timeout, rounds, i);
      waits := waits + [Slept(sleep, n)];
      IntervalNext(i);
      wait := if wait < MAX_INTERVAL then wait * 2 else wait;
    }
    r := StillWaiting;
  }

  lemma OneMoreSleep(hasClock: bool, left: int, rounds: seq<Round>, i: nat)
    requires i < |rounds|
    ensures RoundWaits(hasClock, left, rounds, i + 1) ==
            RoundWaits(hasClock, left, rounds, i) + [Slept(SleepAfter(hasClock, left, rounds[i], i), 0)]
  {
  }

  lemma StartInterval()
    ensures Interval(0) == MIN_INTERVAL
  {
  }

  lemma IntervalNext(i: nat)
    ensures Interval(i + 1) == NextInterval(Interval(i))
  {
  }

  /** Polls the deferred files: waits for one to be ready, for as long as the
      timeout says, unless an event is already written. */
  method PollBlocking(mem: array<byte>, table: nat, out: nat, nevents: nat, deferred: seq<Sub>,
                      timeout: int, hasClock: bool, script: Script,
                      ghost m: seq<byte>, ghost subs: seq<seq<byte>>, ghost es: seq<Event>)
    returns (r: Outcome, waits: seq<Wait>, ghost es': seq<Event>)
    requires GuestOk(m, table, out, subs) && Shows(mem[..], m, out, subs, es)
    requires nevents == |es| && |es| + |deferred| <= |subs| && SubsBelow(deferred, |subs|)
    requires forall k :: 0 <= k < |deferred| ==> deferred[k].kind.Deferred?
    modifies mem
    ensures Shows(mem[..], m, out, subs, es')
    ensures var told, polls := es + Told(Keep(deferred, IsUnpollable)), Keep(deferred, IsPollable);
            && Gives(LastAnswers(script, polls, hasClock, timeout, told != []), polls, told, r, es')
            && waits == PollWaits(script, polls, hasClock, timeout, |told|)
  {
    hide GuestOk, Shows, Keep;
    var n, polls;
    n, polls, es' := TellUnpollable(mem, table, out, nevents, deferred, m, subs, es);
    if |polls| == 0 {
      return Counted(n), [], es';
    }
    if |polls| > 1 && script.batch.NotBatched? {
      r, waits, es' := PollRounds(mem, table, out, n, polls, hasClock, timeout, script.rounds, m, subs, es');
      return;
    }
    var said := if |polls| > 1 then AnswersOf(script.batch) else Always(script.single);
    waits := [Polled(PollMillis(timeout, hasClock, n > 0), n)];
    var failed;
    n, failed, es' := ReportAll(mem, table, out, n, polls, said, m, subs, es');
    r := if failed.Some? then PollFails(failed.value) else Counted(n);
  }

  // ----- the subscriptions

  /** The error of the first subscription that is refused. */
  ghost function FirstRefusal(kinds: seq<Kind>): Option<Errno> {
    if kinds == [] then None
    else
      var before, last := FirstRefusal(kinds[..|kinds| - 1]), kinds[|kinds| - 1];
      if before.Some? then before else if last.Refused? then Some(last.error) else None
  }

  ghost predicate RefusedFirst(kinds: seq<Kind>, i: nat, e: Errno) {
    i < |kinds| && kinds[i] == Refused(e) && forall j :: 0 <= j < i ==> !kinds[j].Refused?
  }

  lemma {:induction false} FirstRefusalIs(kinds: seq<Kind>)
    ensures FirstRefusal(kinds).None? <==> forall i :: 0 <= i < |kinds| ==> !kinds[i].Refused?
    ensures FirstRefusal(kinds).Some? ==> exists i: nat :: RefusedFirst(kinds, i, FirstRefusal(kinds).value)
  {
    if kinds != [] {
      var last := |kinds| - 1;
      var init := kinds[..last];
      FirstRefusalIs(init);
      if FirstRefusal(init).Some? {
        var i: nat :| RefusedFirst(init, i, FirstRefusal(init).value);
        assert RefusedFirst(kinds, i, FirstRefusal(init).value);
      } else if kinds[last].Refused? {
        assert RefusedFirst(kinds, last, kinds[last].error);
      }
    }
  }

  lemma {:induction false} RefusalStays(kinds: seq<Kind>, i: nat)
    requires i <= |kinds| && FirstRefusal(kinds[..i]).Some?
    ensures FirstRefusal(kinds) == FirstRefusal(kinds[..i])
  {
    if i == |kinds| {
      assert kinds[..i] == kinds;
    } else {
      var init := kinds[..|kinds| - 1];
      assert init[..i] == kinds[..i];
      RefusalStays(init, i);
    }
  }

  /** The first i subscriptions are told, or set aside for later. */
  ghost predicate SetAside(kinds: seq<Kind>, i: nat, es: seq<Event>, deferred: seq<Sub>, clocks: seq<Sub>, timeout: int) {
    && i <= |kinds| && FirstRefusal(kinds[..i]).None? && |es| <= i
    && es == Told(Picked(kinds[..i], IsAtOnce)) && deferred == Picked(kinds[..i], IsDeferred)
    && clocks == Picked(kinds[..i], IsClock) && timeout == Earliest(kinds[..i])
  }

  lemma NothingSetAside(kinds: seq<Kind>)
    ensures SetAside(kinds, 0, [], [], [], NO_TIMEOUT)
  {
  }

  lemma OneMoreSetAside(kinds: seq<Kind>, i: nat, es: seq<Event>, deferred: seq<Sub>, clocks: seq<Sub>, timeout: int)
    requires SetAside(kinds, i, es, deferred, clocks, timeout) && i < |kinds| && !kinds[i].Refused?
    ensures var k := kinds[i];
            var s := [Sub(i, k)];
            SetAside(kinds, i + 1,
                     if k.AtOnce? then es + [EventFor(s[0])] else es,
                     if k.Deferred? then deferred + s else deferred,
                     if k.Clock? then clocks + s else clocks,
                     if k.Clock? && k.timeout < timeout then k.timeout else timeout)
  {
    hide Picked, Earliest;
    PickNext(kinds, i, IsAtOnce);
    PickNext(kinds, i, IsDeferred);
    PickNext(kinds, i, IsClock);
    EarliestNext(kinds, i);
    assert kinds[..i + 1][..i] == kinds[..i];
    ToldNext(Picked(kinds[..i], IsAtOnce), Sub(i, kinds[i]));
  }

  lemma AllSetAside(kinds: seq<Kind>, es: seq<Event>, deferred: seq<Sub>, clocks: seq<Sub>, timeout: int)
    requires SetAside(kinds, |kinds|, es, deferred, clocks, timeout)
    ensures es == Told(Picked(kinds, IsAtOnce)) && deferred == Picked(kinds, IsDeferred)
    ensures clocks == Picked(kinds, IsClock) && timeout == Earliest(kinds) && FirstRefusal(kinds).None?
    ensures clocks != [] <==> HasClock(kinds)
    ensures |es| + |deferred| + |clocks| <= |kinds|
    ensures SubsBelow(deferred, |kinds|) && SubsBelow(clocks, |kinds|)
    ensures forall k :: 0 <= k < |deferred| ==> deferred[k].kind.Deferred?
    ensures forall k :: 0 <= k < |clocks| ==> clocks[k].kind.Clock?
  {
    assert kinds[..|kinds|] == kinds;
    KindsShare(kinds);
    PickedAreBelow(kinds, IsDeferred);
    PickedAreBelow(kinds, IsClock);
    SomePicked(kinds, IsClock);
  }

  lemma SomePicked(kinds: seq<Kind>, p: Kind -> bool)
    ensures Picked(kinds, p) != [] <==> exists i :: 0 <= i < |kinds| && p(kinds[i])
  {
    var r := Picked(kinds, p);
    if r != [] {
      PickedHas(kinds, p, r[0]);
    }
    if i :| 0 <= i < |kinds| && p(kinds[i]) {
      PickedHas(kinds, p, Sub(i, kinds[i]));
    }
  }

  lemma PickedAreBelow(kinds: seq<Kind>, p: Kind -> bool)
    ensures SubsBelow(Picked(kinds, p), |kinds|)
    ensures forall k :: 0 <= k < |Picked(kinds, p)| ==> p(Picked(kinds, p)[k].kind)
  {
    var r := Picked(kinds, p);
    forall k | 0 <= k < |r| ensures r[k].index < |kinds| && p(r[k].kind) {
      PickedHas(kinds, p, r[k]);
    }
  }

  ghost predicate AreKinds(kinds: seq<Kind>, subs: seq<seq<byte>>, files: Files) {
    (forall i :: 0 <= i < |subs| ==> |subs[i]| == SUB_SIZE) && kinds == Kinds(subs, files)
  }

  lemma KindKept(now: seq<byte>, m: seq<byte>, table: nat, out: nat, subs: seq<seq<byte>>, es: seq<Event>, i: nat,
                 files: Files, kinds: seq<Kind>)
    requires GuestOk(m, table, out, subs) && Shows(now, m, out, subs, es) && i < |subs| == |kinds| && AreKinds(kinds, subs, files)
    ensures table + SUB_SIZE * (i + 1) <= |now| && KindAt(SubAt(now, table, i), files) == kinds[i]
  {
    SubKept(now, m, table, out, subs, es, i);
  }

  /** Takes the subscriptions in order: tells those that can be told at once, and
      sets the rest aside. */
  method ReadSubs(mem: array<byte>, table: nat, out: nat, nsubs: nat, files: Files,
                  ghost m: seq<byte>, ghost subs: seq<seq<byte>>, ghost kinds: seq<Kind>)
    returns (refused: Option<Errno>, n: nat, deferred: seq<Sub>, clocks: seq<Sub>, timeout: int, ghost es: seq<Event>)
    requires GuestOk(m, table, out, subs) && Shows(mem[..], m, out, subs, [])
    requires nsubs == |subs| == |kinds| && AreKinds(kinds, subs, files)
    modifies mem
    ensures Shows(mem[..], m, out, subs, es) && n == |es|
    ensures refused.None? ==> SetAside(kinds, nsubs, es, deferred, clocks, timeout)
    ensures refused.Some? ==> FirstRefusal(kinds) == refused
  {
    hide GuestOk, Shows, SetAside, KindAt, SubAt, AreKinds, FirstRefusal;
    n, deferred, clocks, timeout, es := 0, [], [], NO_TIMEOUT, [];
    NothingSetAside(kinds);
    for i := 0 to nsubs
      invariant Shows(mem[..], m, out, subs, es) && n == |es| <= i
      invariant SetAside(kinds, i, es, deferred, clocks, timeout)
    {
      KindKept(mem[..], m, table, out, subs, es, i, files, kinds);
      var kind := KindAt(SubAt(mem[..], table, i), files);
      match kind
      case Refused(e) =>
        RefusedHere(kinds, i, es, deferred, clocks, timeout);
        return Some(e), n, deferred, clocks, timeout, es;
      case AtOnce(errno) =>
        OneMoreSetAside(kinds, i, es, deferred, clocks, timeout);
        WriteEvent(mem, table, out, n, i, errno, m, subs, es);
        n, es := n + 1, es + [Event(i, errno)];
      case Deferred(_) =>
        OneMoreSetAside(kinds, i, es, deferred, clocks, timeout);
        deferred := deferred + [Sub(i, kind)];
      case Clock(t) =>
        OneMoreSetAside(kinds, i, es, deferred, clocks, timeout);
        clocks := clocks + [Sub(i, kind)];
        if t < timeout {
          timeout := t;
        }
    }
    refused := None;
  }

  lemma RefusedHere(kinds: seq<Kind>, i: nat, es: seq<Event>, deferred: seq<Sub>, clocks: seq<Sub>, timeout: int)
    requires SetAside(kinds, i, es, deferred, clocks, timeout) && i < |kinds| && kinds[i].Refused?
    ensures FirstRefusal(kinds) == Some(kinds[i].error)
  {
    assert kinds[..i + 1][..i] == kinds[..i];
    RefusalStays(kinds, i + 1);
  }

  /** Tells the clocks whose time is up. */
  method TellDue(mem: array<byte>, table: nat, out: nat, nevents: nat, clocks: seq<Sub>, expired: int,
                 ghost m: seq<byte>, ghost subs: seq<seq<byte>>, ghost es: seq<Event>)
    returns (n: nat, ghost es': seq<Event>)
    requires GuestOk(m, table, out, subs) && Shows(mem[..], m, out, subs, es)
    requires nevents == |es| && |es| + |clocks| <= |subs| && SubsBelow(clocks, |subs|)
    requires forall k :: 0 <= k < |clocks| ==> clocks[k].kind.Clock?
    modifies mem
    ensures Shows(mem[..], m, out, subs, es') && n == |es'|
    ensures es' == es + Told(Keep(clocks, DueBy(expired)))
  {
    hide GuestOk, Shows;
    n, es' := nevents, es;
    for i := 0 to |clocks|
      invariant Shows(mem[..], m, out, subs, es') && n == |es'| <= nevents + i
      invariant es' == es + Told(Keep(clocks[..i], DueBy(expired)))
    {
      KeepNext(clocks, i, DueBy(expired));
      if clocks[i].kind.timeout <= expired {
        ToldNext(Keep(clocks[..i], DueBy(expired)), clocks[i]);
        Extend(es, Told(Keep(clocks[..i], DueBy(expired))), [EventFor(clocks[i])]);
        WriteEvent(mem, table, out, n, clocks[i].index, SUCCESS, m, subs, es');
        n, es' := n + 1, es' + [Event(clocks[i].index, SUCCESS)];
      }
    }
    assert clocks[..|clocks|] == clocks;
  }

  datatype Reply = Success | Failure(error: Errno) | Waiting

  predicate ArraysFit(size: nat, table: nat, out: nat, nsubs: nat) {
    nsubs * SUB_SIZE < U32 && InMemory(size, table, SUB_SIZE * nsubs) && InMemory(size, out, EVENT_SIZE * nsubs)
  }

  ghost predicate Fits(size: nat, table: nat, out: nat, nsubs: nat, result: nat) {
    ArraysFit(size, table, out, nsubs) && InMemory(size, result, 4)
  }

  /** The guest's subscriptions, its events and its count do not overlap. */
  ghost predicate AllApart(table: nat, out: nat, nsubs: nat, result: nat) {
    && Separate(table, SUB_SIZE * nsubs, out, EVENT_SIZE * nsubs)
    && Separate(table, SUB_SIZE * nsubs, result, 4) && Separate(out, EVENT_SIZE * nsubs, result, 4)
  }

  lemma WriteOver(m: seq<byte>, at: nat, a: seq<byte>, b: seq<byte>)
    requires |a| == |b| && at + |a| <= |m|
    ensures Written(Written(m, at, a), at, b) == Written(m, at, b)
  {
  }

  /** Clears the guest's array and stores the most events there can be, if there
      is a place for their count. */
  method Prepare(mem: array<byte>, table: nat, out: nat, nsubs: nat, result: nat)
    returns (ok: bool, ghost m: seq<byte>, ghost subs: seq<seq<byte>>)
    requires ArraysFit(mem.Length, table, out, nsubs)
    requires Fits(mem.Length, table, out, nsubs, result) ==> AllApart(table, out, nsubs, result)
    modifies mem
    ensures ok == InMemory(mem.Length, result, 4) && subs == SubsAt(old(mem[..]), table, nsubs)
    ensures !ok ==> mem[..] == Written(old(mem[..]), out, Zeros(EVENT_SIZE * nsubs))
    ensures ok ==>
              && m == Written(old(mem[..]), result, LeBytes(nsubs, 4))
              && GuestOk(m, table, out, subs) && Shows(mem[..], m, out, subs, [])
  {
    hide Written, LeBytes;
    ghost var before := mem[..];
    m, subs := before, SubsAt(before, table, nsubs);
    Write(mem, out, Zeros(EVENT_SIZE * nsubs));
    ok := InMemory(mem.Length, result, 4);
    if !ok {
      return;
    }
    m := Written(before, result, LeBytes(nsubs, 4));
    Write(mem, result, LeBytes(nsubs, 4));
    WriteApart(before, out, Zeros(EVENT_SIZE * nsubs), result, LeBytes(nsubs, 4));
    assert Array(subs, []) == Zeros(EVENT_SIZE * nsubs);
    forall i | 0 <= i < nsubs ensures SubAt(m, table, i) == subs[i] {
      ReadApart(before, result, LeBytes(nsubs, 4), table + SUB_SIZE * i, SUB_SIZE);
    }
  }

  /** The guest's memory at the end: the events, and how many there are. */
  ghost predicate Delivered(before: seq<byte>, after: seq<byte>, out: nat, result: nat, subs: seq<seq<byte>>, es: seq<Event>) {
    && EventsFor(subs, es) && |es| <= |subs|
    && out + EVENT_SIZE * |subs| <= |before| && result + 4 <= |before|
    && after == Written(Written(before, out, Array(subs, es)), result, LeBytes(|es|, 4))
  }

  lemma FinalMemory(before: seq<byte>, now: seq<byte>, table: nat, out: nat, result: nat, subs: seq<seq<byte>>, es: seq<Event>)
    requires Fits(|before|, table, out, |subs|, result) && AllApart(table, out, |subs|, result)
    requires Shows(now, Written(before, result, LeBytes(|subs|, 4)), out, subs, es)
    ensures |now| == |before|
    ensures Delivered(before, Written(now, result, LeBytes(|es|, 4)), out, result, subs, es)
    ensures |es| == |subs| ==> Delivered(before, now, out, result, subs, es)
  {
    hide Written, LeBytes, Array;
    WriteApart(before, result, LeBytes(|subs|, 4), out, Array(subs, es));
    WriteOver(Written(before, out, Array(subs, es)), result, LeBytes(|subs|, 4), LeBytes(|es|, 4));
  }

  // ----- what the call comes to

  /** What is told before any file is polled. */
  ghost function BeforePoll(kinds: seq<Kind>): seq<Event> {
    Told(Picked(kinds, IsAtOnce)) + Told(Picked(kinds, IsUnpollable))
  }

  /** The time left to the earliest clock when the files are polled, untilPoll
      after the call began. */
  ghost function TimeLeft(kinds: seq<Kind>, untilPoll: int): int {
    Minus64(Earliest(kinds), untilPoll)
  }

  /** The answers that decide the call; none while it waits. */
  ghost function AnswersFor(kinds: seq<Kind>, script: Script, untilPoll: int): Option<Answers> {
    LastAnswers(script, Picked(kinds, IsPollable), HasClock(kinds), TimeLeft(kinds, untilPoll), BeforePoll(kinds) != [])
  }

  /** The waits of the call: for the files, or for the earliest clock alone. */
  ghost function WaitsFor(kinds: seq<Kind>, script: Script, untilPoll: int): seq<Wait> {
    if FirstRefusal(kinds).Some? then []
    else if Picked(kinds, IsDeferred) == [] then
      if Picked(kinds, IsAtOnce) == [] && Earliest(kinds) > 0 then [Slept(Earliest(kinds), 0)] else []
    else
      PollWaits(script, Picked(kinds, IsPollable), HasClock(kinds), TimeLeft(kinds, untilPoll), |BeforePoll(kinds)|)
  }

  /** The reply: the first refusal's error, the first failing answer's, or
      success once the deciding answers are in. */
  ghost function ReplyFor(kinds: seq<Kind>, script: Script, untilPoll: int): Reply {
    match FirstRefusal(kinds)
    case Some(e) => Failure(e)
    case None =>
      match AnswersFor(kinds, script, untilPoll)
      case None => Waiting
      case Some(answers) =>
        match FailureOf(answers, |Picked(kinds, IsPollable)|)
        case Some(code) => Failure(PollFailed(code))
        case None => Success
  }

  /** What is told before the clocks are looked at. */
  ghost function BeforeClocks(kinds: seq<Kind>, answers: Answers): seq<Event> {
    BeforePoll(kinds) + Reports(Picked(kinds, IsPollable), answers)
  }

  /** The time that counts as gone by: at least the earliest clock's, when only a
      clock can have ended the call. */
  ghost function Expired(kinds: seq<Kind>, first: seq<Event>, elapsed: int): int {
    if first == [] && elapsed < Earliest(kinds) then Earliest(kinds) else elapsed
  }

  /** The events a call reports when these answers decide it. */
  ghost function Reported(kinds: seq<Kind>, answers: Answers, elapsed: int): seq<Event> {
    var first := BeforeClocks(kinds, answers);
    first + Told(Picked(kinds, DueBy(Expired(kinds, first, elapsed))))
  }

  /** Splitting what was set aside is picking by the finer kinds. */
  lemma Resort(kinds: seq<Kind>, expired: int)
    ensures Keep(Picked(kinds, IsDeferred), IsUnpollable) == Picked(kinds, IsUnpollable)
    ensures Keep(Picked(kinds, IsDeferred), IsPollable) == Picked(kinds, IsPollable)
    ensures Keep(Picked(kinds, IsClock), DueBy(expired)) == Picked(kinds, DueBy(expired))
  {
    KeepPicked(kinds, IsDeferred, IsUnpollable);
    KeepPicked(kinds, IsDeferred, IsPollable);
    KeepPicked(kinds, IsClock, DueBy(expired));
  }

  /** Waits for the deferred files, or sleeps until the earliest clock when there
      is nothing else. */
  method AwaitFiles(mem: array<byte>, table: nat, out: nat, nevents: nat, deferred: seq<Sub>,
                    timeout: int, hasClock: bool, script: Script, untilPoll: int,
                    ghost m: seq<byte>, ghost subs: seq<seq<byte>>, ghost kinds: seq<Kind>, ghost es: seq<Event>)
    returns (r: Outcome, waits: seq<Wait>, ghost es': seq<Event>)
    requires GuestOk(m, table, out, subs) && Shows(mem[..], m, out, subs, es) && |kinds| == |subs|
    requires nevents == |es| && es == Told(Picked(kinds, IsAtOnce)) && deferred == Picked(kinds, IsDeferred)
    requires timeout == Earliest(kinds) && hasClock == HasClock(kinds) && FirstRefusal(kinds).None?
    requires |es| + |deferred| <= |subs| && SubsBelow(deferred, |subs|)
    requires forall k :: 0 <= k < |deferred| ==> deferred[k].kind.Deferred?
    modifies mem
    ensures Shows(mem[..], m, out, subs, es')
    ensures Gives(AnswersFor(kinds, script, untilPoll), Picked(kinds, IsPollable), BeforePoll(kinds), r, es')
    ensures r.Counted? ==> |es'| <= nevents + |deferred|
    ensures waits == WaitsFor(kinds, script, untilPoll)
  {
    hide GuestOk, Shows, Picked, Keep, Earliest, FirstRefusal, HasClock;
    Resort(kinds, 0);
    KeepsSplit(deferred);
    if |deferred| > 0 {
      r, waits, es' := PollBlocking(mem, table, out, nevents, deferred, Minus64(timeout, untilPoll), hasClock, script, m, subs, es);
    } else {
      NothingDeferred(Always(NotReady));
      es', waits := es, [];
      if nevents == 0 && timeout > 0 {
        waits := [Slept(timeout, 0)];
      }
      r := Counted(nevents);
    }
  }

  lemma NothingDeferred(answers: Answers)
    ensures Keep([], IsUnpollable) == Keep([], IsPollable) == []
    ensures Reports([], answers) == []
  {
  }

  lemma {:induction false} KeepsSplit(deferred: seq<Sub>)
    ensures |Keep(deferred, IsUnpollable)| + |Keep(deferred, IsPollable)| <= |deferred|
  {
    if deferred != [] {
      KeepsSplit(deferred[..|deferred| - 1]);
    }
  }

  /** The call: the reply and the waits are those the subscriptions and the host's
      answers decide; on success the guest's array holds the events reported, with
      no gaps, and the count how many they are. With a place for the arrays but
      none for the count, the events are cleared all the same. */
  method PollOneoff(mem: array<byte>, files: Files, table: nat, out: nat, nsubs: nat, result: nat,
                    script: Script, untilPoll: int, elapsed: int)
    returns (r: Reply, waits: seq<Wait>)
    requires nsubs < U32
    requires Fits(mem.Length, table, out, nsubs, result) ==> AllApart(table, out, nsubs, result)
    modifies mem
    ensures nsubs == 0 ==> r == Failure(EINVAL) && waits == [] && mem[..] == old(mem[..])
    ensures nsubs > 0 && !Fits(mem.Length, table, out, nsubs, result) ==> r == Failure(EFAULT) && waits == []
    ensures nsubs > 0 && !ArraysFit(mem.Length, table, out, nsubs) ==> mem[..] == old(mem[..])
    ensures nsubs > 0 && ArraysFit(mem.Length, table, out, nsubs) && !InMemory(mem.Length, result, 4) ==>
              mem[..] == Written(old(mem[..]), out, Zeros(EVENT_SIZE * nsubs))
    ensures nsubs > 0 && Fits(mem.Length, table, out, nsubs, result) ==>
              var subs := old(SubsAt(mem[..], table, nsubs));
              RightAnswer(Kinds(subs, files), script, untilPoll, elapsed, r, waits, old(mem[..]), mem[..], out, result, subs)
  {
    waits := [];
    if nsubs == 0 {
      return Failure(EINVAL), waits;
    }
    if !ArraysFit(mem.Length, table, out, nsubs) {
      return Failure(EFAULT), waits;
    }
    ghost var kinds := Kinds(SubsAt(mem[..], table, nsubs), files);
    hide GuestOk, Shows, Delivered, SetAside, FirstRefusal, SubsAt, Kinds, AllApart, Written, LeBytes, WaitsFor, ReplyFor, Zeros;
    var ready;
    ghost var m, subs;
    ready, m, subs := Prepare(mem, table, out, nsubs, result);
    if !ready {
      return Failure(EFAULT), waits;
    }
    ghost var es;
    var refused, n, deferred, clocks, timeout;
    refused, n, deferred, clocks, timeout, es := ReadSubs(mem, table, out, nsubs, files, m, subs, kinds);
    if refused.Some? {
      RefusedReply(kinds, script, untilPoll);
      return Failure(refused.value), waits;
    }
    r, waits := Conclude(mem, table, out, nsubs, result, n, deferred, clocks, timeout, script, untilPoll, elapsed,
                         m, subs, kinds, es, old(mem[..]));
  }

  /** The guest's memory when the call gives up: some events are written, and the
      count is still that of all subscriptions. */
  ghost predicate GivenUp(before: seq<byte>, after: seq<byte>, out: nat, result: nat, subs: seq<seq<byte>>) {
    && result + 4 <= |before|
    && exists es :: Shows(after, Written(before, result, LeBytes(|subs|, 4)), out, subs, es)
  }

  /** The reply and the waits are right, and so is the memory. */
  ghost predicate RightAnswer(kinds: seq<Kind>, script: Script, untilPoll: int, elapsed: int, r: Reply, waits: seq<Wait>,
                              before: seq<byte>, after: seq<byte>, out: nat, result: nat, subs: seq<seq<byte>>)
  {
    && r == ReplyFor(kinds, script, untilPoll) && waits == WaitsFor(kinds, script, untilPoll)
    && (r.Success? ==>
          && AnswersFor(kinds, script, untilPoll).Some?
          && Delivered(before, after, out, result, subs,
                       Reported(kinds, AnswersFor(kinds, script, untilPoll).value, elapsed)))
    && (!r.Success? ==> GivenUp(before, after, out, result, subs))
  }

  lemma RefusedReply(kinds: seq<Kind>, script: Script, untilPoll: int)
    requires FirstRefusal(kinds).Some?
    ensures ReplyFor(kinds, script, untilPoll) == Failure(FirstRefusal(kinds).value)
    ensures WaitsFor(kinds, script, untilPoll) == []
  {
  }

  /** Waits, tells the clocks that are due, and stores the count. */
  method Conclude(mem: array<byte>, table: nat, out: nat, nsubs: nat, result: nat, told: nat,
                  deferred: seq<Sub>, clocks: seq<Sub>, timeout: int, script: Script, untilPoll: int, elapsed: int,
                  ghost m: seq<byte>, ghost subs: seq<seq<byte>>, ghost kinds: seq<Kind>, ghost first: seq<Event>, ghost before: seq<byte>)
    returns (r: Reply, waits: seq<Wait>)
    requires |before| == mem.Length && Fits(|before|, table, out, nsubs, result) && AllApart(table, out, nsubs, result)
    requires |subs| == |kinds| == nsubs
    requires m == Written(before, result, LeBytes(nsubs, 4))
    requires GuestOk(m, table, out, subs) && Shows(mem[..], m, out, subs, first) && told == |first|
    requires SetAside(kinds, nsubs, first, deferred, clocks, timeout)
    modifies mem
    ensures RightAnswer(kinds, script, untilPoll, elapsed, r, waits, before, mem[..], out, result, subs)
  {
    hide GuestOk, Shows, Delivered, SetAside, Picked, Keep, BeforePoll, AnswersFor, WaitsFor, Earliest, HasClock,
         FirstRefusal, FailureOf, Reports, Written, LeBytes;
    AllSetAside(kinds, first, deferred, clocks, timeout);
    ghost var es;
    var outcome;
    outcome, waits, es :=
      AwaitFiles(mem, table, out, told, deferred, timeout, |clocks| > 0, script, untilPoll, m, subs, kinds, first);
    if outcome.PollFails? {
      return Failure(PollFailed(outcome.code)), waits;
    } else if outcome.StillWaiting? {
      return Waiting, waits;
    }
    var n := outcome.nevents;
    var expired := if n == 0 && elapsed < timeout then timeout else elapsed;
    Resort(kinds, expired);
    n, es := TellDue(mem, table, out, n, clocks, expired, m, subs, es);
    FinalMemory(before, mem[..], table, out, result, subs, es);
    if n != nsubs {
      Write(mem, result, LeBytes(n, 4));
    }
    r := Success;
  }
}
