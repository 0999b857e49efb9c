/** What every poll_oneoff guarantees, whatever the host's files and clocks
    answer (imports/wasi_snapshot_preview1/poll.go). */
module PollLaws {
  import opened Results
  import opened Bytes
  import opened DepGraphs
  import opened Polling
  import opened PollScripts
  import opened PollOneoff

  // ----- the events of a successful call

  function Class(k: Kind): nat {
    match k
    case Refused(_) => 0
    case AtOnce(_) => 1
    case Deferred(pollable) => if pollable then 3 else 2
    case Clock(_) => 4
  }

  /** The events are for different subscriptions, of the classes from lo up to hi. */
  ghost predicate OfClasses(kinds: seq<Kind>, es: seq<Event>, lo: nat, hi: nat) {
    && (forall k :: 0 <= k < |es| ==> es[k].sub < |kinds| && lo <= Class(kinds[es[k].sub]) < hi)
    && forall i, j :: 0 <= i < j < |es| ==> es[i].sub != es[j].sub
  }

  lemma JoinClasses(kinds: seq<Kind>, a: seq<Event>, b: seq<Event>, lo: nat, mid: nat, hi: nat)
    requires OfClasses(kinds, a, lo, mid) && OfClasses(kinds, b, mid, hi) && lo <= mid <= hi
    ensures OfClasses(kinds, a + b, lo, hi)
  {
  }

  lemma ToldOfClass(kinds: seq<Kind>, p: Kind -> bool, c: nat)
    requires forall k :: p(k) ==> Class(k) == c
    ensures OfClasses(kinds, Told(Picked(kinds, p)), c, c + 1)
  {
    PickedIs(kinds, p);
    var r := Picked(kinds, p);
    forall k | 0 <= k < |r| ensures r[k].index < |kinds| && Class(kinds[r[k].index]) == c {
      assert r[k] in r;
    }
  }

  /** Who is reported, and in order, comes from the files polled and their answers. */
  ghost predicate Answered(polls: seq<Sub>, answers: Answers, e: Event) {
    exists j: nat :: j < |polls| && AnsweredAt(polls, answers, e, j)
  }

  ghost predicate AnsweredAt(polls: seq<Sub>, answers: Answers, e: Event, j: nat)
    requires j < |polls|
  {
    && polls[j].index == e.sub
    && ((answers(j).Ready? && e.errno == SUCCESS) || (answers(j).Unsupported? && e.errno == NOTSUP))
  }

  lemma {:induction false} ReportsAnswer(polls: seq<Sub>, answers: Answers)
    requires Increasing(polls)
    ensures forall k :: 0 <= k < |Reports(polls, answers)| ==> Answered(polls, answers, Reports(polls, answers)[k])
    ensures forall i, j :: 0 <= i < j < |Reports(polls, answers)| ==> Reports(polls, answers)[i].sub < Reports(polls, answers)[j].sub
  {
    if polls != [] {
      var last := |polls| - 1;
      var init := polls[..last];
      ReportsAnswer(init, answers);
      var r := Reports(init, answers);
      forall k | 0 <= k < |r| ensures Answered(polls, answers, r[k]) && r[k].sub < polls[last].index {
        assert Answered(init, answers, r[k]);
        var j: nat :| j < |init| && AnsweredAt(init, answers, r[k], j);
        assert AnsweredAt(polls, answers, r[k], j);
      }
      forall e | e in Report(polls[last], answers(last)) ensures Answered(polls, answers, e) {
        assert AnsweredAt(polls, answers, e, last);
      }
    }
  }

  lemma ReportsOfClass(kinds: seq<Kind>, answers: Answers)
    ensures OfClasses(kinds, Reports(Picked(kinds, IsPollable), answers), 3, 4)
  {
    hide Picked, Reports, Answered;
    var polls := Picked(kinds, IsPollable);
    PickedIs(kinds, IsPollable);
    ReportsAnswer(polls, answers);
    var r := Reports(polls, answers);
    forall k | 0 <= k < |r| ensures r[k].sub < |kinds| && Class(kinds[r[k].sub]) == 3 {
      AnsweredIsPolled(kinds, polls, answers, r[k]);
    }
  }

  lemma AnsweredIsPolled(kinds: seq<Kind>, polls: seq<Sub>, answers: Answers, e: Event)
    requires polls == Picked(kinds, IsPollable) && Answered(polls, answers, e)
    ensures e.sub < |kinds| && Class(kinds[e.sub]) == 3
  {
    hide Picked;
    var j: nat :| j < |polls| && AnsweredAt(polls, answers, e, j);
    assert polls[j] in polls;
    PickedHas(kinds, IsPollable, polls[j]);
  }

  lemma BeforeClocksOfClasses(kinds: seq<Kind>, answers: Answers)
    ensures OfClasses(kinds, BeforeClocks(kinds, answers), 1, 4)
  {
    hide OfClasses, Picked, Reports;
    var a, b, c := Told(Picked(kinds, IsAtOnce)), Told(Picked(kinds, IsUnpollable)), Reports(Picked(kinds, IsPollable), answers);
    ToldOfClass(kinds, IsAtOnce, 1);
    ToldOfClass(kinds, IsUnpollable, 2);
    ReportsOfClass(kinds, answers);
    JoinClasses(kinds, a, b, 1, 2, 3);
    JoinClasses(kinds, a + b, c, 1, 3, 4);
  }

  /** The events are for different subscriptions, so there are no more of them. */
  lemma EventsAreDistinct(kinds: seq<Kind>, answers: Answers, elapsed: int, es: seq<Event>)
    requires es == Reported(kinds, answers, elapsed)
    ensures Distinct(Subs(es)) && |es| <= |kinds| && forall k :: 0 <= k < |es| ==> es[k].sub < |kinds|
  {
    var first := BeforeClocks(kinds, answers);
    var expired := Expired(kinds, first, elapsed);
    BeforeClocksOfClasses(kinds, answers);
    ToldOfClass(kinds, DueBy(expired), 4);
    JoinClasses(kinds, first, Told(Picked(kinds, DueBy(expired))), 1, 4, 5);
    assert OfClasses(kinds, es, 1, 5);
    AtMostBelow(Subs(es), |kinds|);
  }

  /** First what is told at once, then the files that cannot be polled, then those
      that were, then the clocks, and in each class as the guest listed them. */
  ghost predicate InOrder(kinds: seq<Kind>, es: seq<Event>) {
    && (forall k :: 0 <= k < |es| ==> es[k].sub < |kinds|)
    && forall i, j :: 0 <= i < j < |es| ==> Comes(kinds, es[i].sub, es[j].sub)
  }

  ghost predicate Comes(kinds: seq<Kind>, a: nat, b: nat)
    requires a < |kinds| && b < |kinds|
  {
    Class(kinds[a]) < Class(kinds[b]) || (Class(kinds[a]) == Class(kinds[b]) && a < b)
  }

  lemma JoinInOrder(kinds: seq<Kind>, a: seq<Event>, b: seq<Event>, lo: nat, mid: nat, hi: nat)
    requires OfClasses(kinds, a, lo, mid) && OfClasses(kinds, b, mid, hi) && InOrder(kinds, a) && InOrder(kinds, b)
    ensures InOrder(kinds, a + b)
  {
    var all := a + b;
    forall k | 0 <= k < |all| ensures all[k].sub < |kinds| {}
    forall i, j | 0 <= i < j < |all| ensures Comes(kinds, all[i].sub, all[j].sub) {
      if j < |a| {
        assert Comes(kinds, a[i].sub, a[j].sub);
      } else if i >= |a| {
        assert Comes(kinds, b[i - |a|].sub, b[j - |a|].sub);
      }
    }
  }

  lemma ToldInOrder(kinds: seq<Kind>, p: Kind -> bool, c: nat)
    requires forall k :: p(k) ==> Class(k) == c
    ensures InOrder(kinds, Told(Picked(kinds, p)))
  {
    hide Picked;
    PickedIs(kinds, p);
    ToldOfClass(kinds, p, c);
  }

  lemma ReportsInOrder(kinds: seq<Kind>, answers: Answers)
    ensures InOrder(kinds, Reports(Picked(kinds, IsPollable), answers))
  {
    hide Picked, Reports;
    PickedIs(kinds, IsPollable);
    ReportsAnswer(Picked(kinds, IsPollable), answers);
    ReportsOfClass(kinds, answers);
  }

  lemma EventsAreInOrder(kinds: seq<Kind>, answers: Answers, elapsed: int, es: seq<Event>)
    requires es == Reported(kinds, answers, elapsed)
    ensures InOrder(kinds, es)
  {
    hide OfClasses, Picked, Reports, InOrder;
    var a, b, c := Told(Picked(kinds, IsAtOnce)), Told(Picked(kinds, IsUnpollable)), Reports(Picked(kinds, IsPollable), answers);
    var due := DueBy(Expired(kinds, BeforeClocks(kinds, answers), elapsed));
    ToldOfClass(kinds, IsAtOnce, 1);
    ToldInOrder(kinds, IsAtOnce, 1);
    ToldOfClass(kinds, IsUnpollable, 2);
    ToldInOrder(kinds, IsUnpollable, 2);
    ReportsOfClass(kinds, answers);
    ReportsInOrder(kinds, answers);
    ToldOfClass(kinds, due, 4);
    ToldInOrder(kinds, due, 4);
    JoinClasses(kinds, a, b, 1, 2, 3);
    JoinInOrder(kinds, a, b, 1, 2, 3);
    JoinClasses(kinds, a + b, c, 1, 3, 4);
    JoinInOrder(kinds, a + b, c, 1, 3, 4);
    JoinInOrder(kinds, a + b + c, Told(Picked(kinds, due)), 1, 4, 5);
  }

  lemma ToldIn(subs: seq<Sub>, s: Sub)
    requires s in subs
    ensures EventFor(s) in Told(subs)
  {
    var k :| 0 <= k < |subs| && subs[k] == s;
    assert Told(subs)[k] == EventFor(s);
  }

  /** Whatever can be told at once is, and so is every clock that is due. */
  lemma NothingDueIsLeftOut(kinds: seq<Kind>, answers: Answers, elapsed: int, es: seq<Event>, i: nat)
    requires es == Reported(kinds, answers, elapsed) && i < |kinds|
    ensures kinds[i].AtOnce? ==> Event(i, kinds[i].errno) in es
    ensures IsUnpollable(kinds[i]) ==> Event(i, NOTSUP) in es
    ensures kinds[i].Clock? && kinds[i].timeout <= elapsed ==> Event(i, SUCCESS) in es
  {
    hide Picked, Reports;
    var s := Sub(i, kinds[i]);
    var expired := Expired(kinds, BeforeClocks(kinds, answers), elapsed);
    PickedHas(kinds, IsAtOnce, s);
    PickedHas(kinds, IsUnpollable, s);
    PickedHas(kinds, DueBy(expired), s);
    if kinds[i].AtOnce? {
      ToldIn(Picked(kinds, IsAtOnce), s);
    } else if IsUnpollable(kinds[i]) {
      ToldIn(Picked(kinds, IsUnpollable), s);
    } else if kinds[i].Clock? && kinds[i].timeout <= elapsed {
      ToldIn(Picked(kinds, DueBy(expired)), s);
    }
  }

  /** With a clock, or with no file to wait for, the guest is told something. */
  lemma SomethingIsTold(kinds: seq<Kind>, answers: Answers, elapsed: int, es: seq<Event>)
    requires TimeoutsOk(kinds) && kinds != [] && FirstRefusal(kinds).None? && es == Reported(kinds, answers, elapsed)
    requires HasClock(kinds) || forall i :: 0 <= i < |kinds| ==> !kinds[i].Deferred?
    ensures es != []
  {
    hide Picked, Reports, Reported;
    if HasClock(kinds) {
      EarliestIs(kinds);
      var i :| 0 <= i < |kinds| && kinds[i] == Clock(Earliest(kinds));
      EarliestTold(kinds, answers, elapsed, es, i);
    } else {
      FirstKind(kinds);
      NothingDueIsLeftOut(kinds, answers, elapsed, es, 0);
    }
  }

  lemma FirstKind(kinds: seq<Kind>)
    requires FirstRefusal(kinds).None? && kinds != [] && !kinds[0].Deferred? && !kinds[0].Clock?
    ensures kinds[0].AtOnce?
  {
    FirstRefusalIs(kinds);
  }

  lemma EarliestTold(kinds: seq<Kind>, answers: Answers, elapsed: int, es: seq<Event>, i: nat)
    requires es == Reported(kinds, answers, elapsed) && i < |kinds| && kinds[i] == Clock(Earliest(kinds))
    ensures es != []
  {
    hide Picked, Reports;
    var first := BeforeClocks(kinds, answers);
    if first == [] {
      var due := DueBy(Expired(kinds, first, elapsed));
      PickedHas(kinds, due, Sub(i, kinds[i]));
      ToldIn(Picked(kinds, due), Sub(i, kinds[i]));
    }
  }

  /** A clock is told only if its time is up, or if it is the earliest and nothing
      but clocks is told. */
  lemma ClocksAreDue(kinds: seq<Kind>, answers: Answers, elapsed: int, es: seq<Event>, k: nat)
    requires TimeoutsOk(kinds) && es == Reported(kinds, answers, elapsed)
    requires k < |es| && es[k].sub < |kinds| && kinds[es[k].sub].Clock?
    ensures var t := kinds[es[k].sub].timeout;
            || t <= elapsed
            || (t == Earliest(kinds) && forall j :: 0 <= j < |es| ==> es[j].sub < |kinds| && kinds[es[j].sub].Clock?)
  {
    hide Picked, Reports, BeforeClocks, DueBy;
    var first := BeforeClocks(kinds, answers);
    var expired := Expired(kinds, first, elapsed);
    if k < |first| {
      FirstIsNoClock(kinds, answers, k);
    } else {
      DueEvent(kinds, expired, k - |first|);
    }
    EarliestIs(kinds);
    if first == [] {
      forall j | 0 <= j < |es| ensures es[j].sub < |kinds| && kinds[es[j].sub].Clock? {
        DueEvent(kinds, expired, j);
      }
    }
  }

  lemma FirstIsNoClock(kinds: seq<Kind>, answers: Answers, k: nat)
    requires k < |BeforeClocks(kinds, answers)|
    ensures var e := BeforeClocks(kinds, answers)[k]; e.sub < |kinds| && !kinds[e.sub].Clock?
  {
    BeforeClocksOfClasses(kinds, answers);
  }

  lemma DueEvent(kinds: seq<Kind>, expired: int, j: nat)
    requires j < |Told(Picked(kinds, DueBy(expired)))|
    ensures var e := Told(Picked(kinds, DueBy(expired)))[j];
            e.sub < |kinds| && kinds[e.sub].Clock? && kinds[e.sub].timeout <= expired && e.errno == SUCCESS
  {
    var r := Picked(kinds, DueBy(expired));
    assert r[j] in r;
    PickedHas(kinds, DueBy(expired), r[j]);
  }

  /** A file that is polled is told only what the host answered. */
  lemma FilesAreAnswered(kinds: seq<Kind>, answers: Answers, elapsed: int, es: seq<Event>, k: nat)
    requires es == Reported(kinds, answers, elapsed) && k < |es|
    requires es[k].sub < |kinds| && IsPollable(kinds[es[k].sub])
    ensures Answered(Picked(kinds, IsPollable), answers, es[k])
  {
    hide Picked, Reports, Told, Answered, BeforePoll, DueBy, Expired;
    var before, reports := BeforePoll(kinds), Reports(Picked(kinds, IsPollable), answers);
    var due := Told(Picked(kinds, DueBy(Expired(kinds, before + reports, elapsed))));
    WhichOf(before, reports, due, k);
    if k < |before| {
      BeforePollIsNotPolled(kinds, k);
    } else if k < |before + reports| {
      ReportIsAnswered(kinds, answers, k - |before|);
    } else {
      DueEvent(kinds, Expired(kinds, before + reports, elapsed), k - |before + reports|);
    }
  }

  lemma WhichOf<T>(a: seq<T>, b: seq<T>, c: seq<T>, k: nat)
    requires k < |a + b + c|
    ensures (a + b + c)[k] == if k < |a| then a[k] else if k < |a + b| then b[k - |a|] else c[k - |a + b|]
  {
  }

  lemma ReportIsAnswered(kinds: seq<Kind>, answers: Answers, j: nat)
    requires j < |Reports(Picked(kinds, IsPollable), answers)|
    ensures Answered(Picked(kinds, IsPollable), answers, Reports(Picked(kinds, IsPollable), answers)[j])
  {
    PickedIs(kinds, IsPollable);
    ReportsAnswer(Picked(kinds, IsPollable), answers);
  }

  lemma BeforePollIsNotPolled(kinds: seq<Kind>, k: nat)
    requires k < |BeforePoll(kinds)|
    ensures var e := BeforePoll(kinds)[k]; e.sub < |kinds| && !IsPollable(kinds[e.sub])
  {
    hide Picked, Told;
    ToldOfClass(kinds, IsAtOnce, 1);
    ToldOfClass(kinds, IsUnpollable, 2);
    JoinClasses(kinds, Told(Picked(kinds, IsAtOnce)), Told(Picked(kinds, IsUnpollable)), 1, 2, 3);
  }

  // ----- exactly what is told

  /** A file is reported exactly when the host answers that it is ready, or that it
      cannot be polled after all. */
  lemma {:induction false} ReportedIffAnswered(polls: seq<Sub>, answers: Answers, e: Event)
    ensures e in Reports(polls, answers) <==> Answered(polls, answers, e)
  {
    if polls != [] {
      var last := |polls| - 1;
      var init := polls[..last];
      ReportedIffAnswered(init, answers, e);
      if Answered(init, answers, e) {
        var j: nat :| j < |init| && AnsweredAt(init, answers, e, j);
        assert AnsweredAt(polls, answers, e, j);
      }
      if Answered(polls, answers, e) {
        var j: nat :| j < |polls| && AnsweredAt(polls, answers, e, j);
        assert j < last ==> AnsweredAt(init, answers, e, j);
      }
      assert e in Report(polls[last], answers(last)) <==> AnsweredAt(polls, answers, e, last);
    }
  }

  /** The host says nothing of any of the files. */
  ghost predicate AllQuiet(polls: seq<Sub>, answers: Answers) {
    forall j: nat :: j < |polls| ==> answers(j).NotReady?
  }

  lemma NothingReportedIff(polls: seq<Sub>, answers: Answers)
    ensures Reports(polls, answers) == [] <==> forall j: nat :: j < |polls| ==> !answers(j).Ready? && !answers(j).Unsupported?
  {
    hide Reports;
    var r := Reports(polls, answers);
    if r == [] {
      forall j: nat | j < |polls| ensures !answers(j).Ready? && !answers(j).Unsupported? {
        var e := Event(polls[j].index, if answers(j).Ready? then SUCCESS else NOTSUP);
        ReportedIffAnswered(polls, answers, e);
        assert !AnsweredAt(polls, answers, e, j);
      }
    } else {
      ReportedIffAnswered(polls, answers, r[0]);
      var j: nat :| j < |polls| && AnsweredAt(polls, answers, r[0], j);
    }
  }

  /** A round is the last exactly when there was an event before it, the host says
      something of a file, or the time is up: a ready file always ends the wait. */
  lemma EndsIff(polls: seq<Sub>, hasClock: bool, left: int, told: bool, round: Round)
    ensures Ends(polls, hasClock, left, told, round) <==>
            told || !AllQuiet(polls, round.answers) || (hasClock && left <= round.at)
  {
    hide Reports, FailureOf;
    NothingReportedIff(polls, round.answers);
    FailureOfIs(round.answers, |polls|);
  }

  /** Nothing but a clock can have ended the call. */
  ghost predicate OnlyClocks(kinds: seq<Kind>, answers: Answers) {
    && (forall i :: 0 <= i < |kinds| ==> !kinds[i].AtOnce? && !IsUnpollable(kinds[i]))
    && forall j: nat :: j < |Picked(kinds, IsPollable)| ==> !answers(j).Ready? && !answers(j).Unsupported?
  }

  /** What subscription i is told, if anything: at once, that its file cannot be
      polled, what its file answers, or that its time is up. The earliest clocks
      are up when nothing else can have ended the call. */
  ghost predicate IsTold(kinds: seq<Kind>, answers: Answers, elapsed: int, i: nat, errno: byte)
    requires i < |kinds|
  {
    match kinds[i]
    case Refused(_) => false
    case AtOnce(e) => errno == e
    case Deferred(pollable) =>
      if pollable then Answered(Picked(kinds, IsPollable), answers, Event(i, errno)) else errno == 58
    case Clock(t) =>
      && errno == 0
      && (t <= elapsed || (OnlyClocks(kinds, answers) && forall j :: 0 <= j < |kinds| && kinds[j].Clock? ==> t <= kinds[j].timeout))
  }

  lemma ToldHas(kinds: seq<Kind>, p: Kind -> bool, i: nat, errno: byte)
    requires i < |kinds|
    ensures Event(i, errno) in Told(Picked(kinds, p)) <==> p(kinds[i]) && errno == ErrnoFor(kinds[i])
  {
    hide Picked;
    var subs, s := Picked(kinds, p), Sub(i, kinds[i]);
    PickedHas(kinds, p, s);
    if p(kinds[i]) {
      ToldIn(subs, s);
    }
    if Event(i, errno) in Told(subs) {
      var k :| 0 <= k < |subs| && Told(subs)[k] == Event(i, errno);
      PickedHas(kinds, p, subs[k]);
    }
  }

  lemma AnsweredIsPollable(kinds: seq<Kind>, answers: Answers, i: nat, errno: byte)
    requires i < |kinds| && Answered(Picked(kinds, IsPollable), answers, Event(i, errno))
    ensures IsPollable(kinds[i])
  {
    hide Picked;
    var polls := Picked(kinds, IsPollable);
    var j: nat :| j < |polls| && AnsweredAt(polls, answers, Event(i, errno), j);
    PickedHas(kinds, IsPollable, polls[j]);
  }

  lemma NothingToldIff(kinds: seq<Kind>, p: Kind -> bool)
    ensures Told(Picked(kinds, p)) == [] <==> forall i :: 0 <= i < |kinds| ==> !p(kinds[i])
  {
    hide Picked;
    var subs := Picked(kinds, p);
    if subs != [] {
      PickedHas(kinds, p, subs[0]);
    } else {
      forall i | 0 <= i < |kinds| ensures !p(kinds[i]) {
        PickedHas(kinds, p, Sub(i, kinds[i]));
      }
    }
  }

  lemma OnlyClocksIff(kinds: seq<Kind>, answers: Answers)
    ensures BeforeClocks(kinds, answers) == [] <==> OnlyClocks(kinds, answers)
  {
    hide Picked, Reports;
    NothingToldIff(kinds, IsAtOnce);
    NothingToldIff(kinds, IsUnpollable);
    NothingReportedIff(Picked(kinds, IsPollable), answers);
  }

  lemma DueIff(kinds: seq<Kind>, answers: Answers, elapsed: int, i: nat)
    requires TimeoutsOk(kinds) && i < |kinds| && kinds[i].Clock?
    ensures kinds[i].timeout <= Expired(kinds, BeforeClocks(kinds, answers), elapsed) <==> IsTold(kinds, answers, elapsed, i, 0)
  {
    hide Picked, Reports, BeforeClocks, OnlyClocks;
    OnlyClocksIff(kinds, answers);
    EarliestIs(kinds);
  }

  /** Every subscription is told exactly what it should be. */
  lemma ToldIff(kinds: seq<Kind>, answers: Answers, elapsed: int, i: nat, errno: byte)
    requires TimeoutsOk(kinds) && i < |kinds|
    ensures Event(i, errno) in Reported(kinds, answers, elapsed) <==> IsTold(kinds, answers, elapsed, i, errno)
  {
    hide Picked, Reports, Told, Answered, OnlyClocks, TimeoutsOk, Earliest, Expired;
    var polls, e := Picked(kinds, IsPollable), Event(i, errno);
    var due := DueBy(Expired(kinds, BeforeClocks(kinds, answers), elapsed));
    ToldHas(kinds, IsAtOnce, i, errno);
    ToldHas(kinds, IsUnpollable, i, errno);
    ToldHas(kinds, due, i, errno);
    ReportedIffAnswered(polls, answers, e);
    if Answered(polls, answers, e) {
      AnsweredIsPollable(kinds, answers, i, errno);
    }
    if kinds[i].Clock? {
      DueIff(kinds, answers, elapsed, i);
    }
  }

  // ----- the answers that decide

  /** Several files polled at once: those the poll says are ready are told, all are
      told when it cannot be made, and its failure is the call's. */
  lemma BatchDecides(kinds: seq<Kind>, script: Script, untilPoll: int, elapsed: int, j: nat)
    requires FirstRefusal(kinds).None? && TimeoutsOk(kinds) && !script.batch.NotBatched?
    requires j < |Picked(kinds, IsPollable)| && |Picked(kinds, IsPollable)| > 1
    ensures var reply, i := ReplyFor(kinds, script, untilPoll), Picked(kinds, IsPollable)[j].index;
            match script.batch
            case NotBatched => true
            case BatchFailed(code) => reply == Failure(PollFailed(code))
            case BatchReady(ready) =>
              && reply == Success && AnswersFor(kinds, script, untilPoll).Some?
              && var es := Reported(kinds, AnswersFor(kinds, script, untilPoll).value, elapsed);
                 (Event(i, 0) in es <==> ready.Some? && ready.value(j)) && Event(i, 58) !in es
            case BatchUnsupported =>
              && reply == Success && AnswersFor(kinds, script, untilPoll).Some?
              && Event(i, 58) in Reported(kinds, AnswersFor(kinds, script, untilPoll).value, elapsed)
  {
    hide Picked, Reported, FirstRefusal;
    var polls := Picked(kinds, IsPollable);
    var answers := AnswersOf(script.batch);
    assert AnswersFor(kinds, script, untilPoll) == Some(answers);
    FailureOfIs(answers, |polls|);
    assert answers(0) == answers(0);
    PolledIsTold(kinds, answers, elapsed, j);
  }

  /** What the file in place j of those polled is told. */
  lemma PolledIsTold(kinds: seq<Kind>, answers: Answers, elapsed: int, j: nat)
    requires TimeoutsOk(kinds) && j < |Picked(kinds, IsPollable)|
    ensures var i, es := Picked(kinds, IsPollable)[j].index, Reported(kinds, answers, elapsed);
            (Event(i, 0) in es <==> answers(j).Ready?) && (Event(i, 58) in es <==> answers(j).Unsupported?)
  {
    hide Picked, Reported;
    var polls := Picked(kinds, IsPollable);
    var i := polls[j].index;
    PickedIs(kinds, IsPollable);
    PickedHas(kinds, IsPollable, polls[j]);
    ToldIff(kinds, answers, elapsed, i, 0);
    ToldIff(kinds, answers, elapsed, i, 58);
    forall e: Event | e.sub == i ensures Answered(polls, answers, e) <==> AnsweredAt(polls, answers, e, j) {
      OnlyAnswer(polls, answers, e, j);
    }
  }

  lemma OnlyAnswer(polls: seq<Sub>, answers: Answers, e: Event, j: nat)
    requires Increasing(polls) && j < |polls| && polls[j].index == e.sub
    ensures Answered(polls, answers, e) <==> AnsweredAt(polls, answers, e, j)
  {
    if Answered(polls, answers, e) {
      var k: nat :| k < |polls| && AnsweredAt(polls, answers, e, k);
      assert k == j;
    }
  }

  /** One file: what its poll says is what it is told, and its failure the call's. */
  lemma SingleDecides(kinds: seq<Kind>, script: Script, untilPoll: int, elapsed: int)
    requires FirstRefusal(kinds).None? && TimeoutsOk(kinds) && |Picked(kinds, IsPollable)| == 1
    ensures var reply, i := ReplyFor(kinds, script, untilPoll), Picked(kinds, IsPollable)[0].index;
            if script.single.Failed? then reply == Failure(PollFailed(script.single.code))
            else
              && reply == Success && AnswersFor(kinds, script, untilPoll).Some?
              && var es := Reported(kinds, AnswersFor(kinds, script, untilPoll).value, elapsed);
                 (Event(i, 0) in es <==> script.single.Ready?) && (Event(i, 58) in es <==> script.single.Unsupported?)
  {
    hide Picked, Reported, FirstRefusal;
    var answers := Always(script.single);
    assert AnswersFor(kinds, script, untilPoll) == Some(answers);
    FailureOfIs(answers, 1);
    assert answers(0) == script.single;
    PolledIsTold(kinds, answers, elapsed, 0);
  }

  /** Files looked at in rounds: the first look at which one is ready, cannot be
      polled or fails decides, unless an event or the clock ends the call before. */
  lemma RoundDecides(kinds: seq<Kind>, script: Script, untilPoll: int, k: nat)
    requires var polls := Picked(kinds, IsPollable); InRounds(script, polls)
    requires k < |script.rounds| && Decisive(kinds, script, untilPoll, k)
    requires forall m :: 0 <= m < k ==> !Decisive(kinds, script, untilPoll, m)
    ensures AnswersFor(kinds, script, untilPoll) == Some(script.rounds[k].answers)
  {
    hide Picked, Ends, HasClock, TimeLeft, BeforePoll;
    var polls, told := Picked(kinds, IsPollable), BeforePoll(kinds) != [];
    forall m | 0 <= m <= k
      ensures Ends(polls, HasClock(kinds), TimeLeft(kinds, untilPoll), told, script.rounds[m]) <==> Decisive(kinds, script, untilPoll, m)
    {
      EndsIff(polls, HasClock(kinds), TimeLeft(kinds, untilPoll), told, script.rounds[m]);
    }
  }

  ghost predicate Decisive(kinds: seq<Kind>, script: Script, untilPoll: int, k: nat)
    requires k < |script.rounds|
  {
    || BeforePoll(kinds) != [] || !AllQuiet(Picked(kinds, IsPollable), script.rounds[k].answers)
    || (HasClock(kinds) && TimeLeft(kinds, untilPoll) <= script.rounds[k].at)
  }

  // ----- when the call waits

  ghost predicate Waits(waits: seq<Wait>) {
    exists k :: 0 <= k < |waits| && Blocks(waits[k])
  }

  /** The first look at the files, when they are looked at in rounds, is the last. */
  ghost predicate EndsAtOnce(kinds: seq<Kind>, script: Script, untilPoll: int) {
    var polls := Picked(kinds, IsPollable);
    InRounds(script, polls) &&
    (script.rounds == [] || Ends(polls, HasClock(kinds), TimeLeft(kinds, untilPoll), false, script.rounds[0]))
  }

  /** A call that polls files waits exactly when nothing is told before, some file
      can be polled, and there is no clock or there is time left to the earliest.
      It never waits once an event is written. */
  lemma WaitsIff(kinds: seq<Kind>, script: Script, untilPoll: int)
    requires FirstRefusal(kinds).None?
    ensures WaitsOk(WaitsFor(kinds, script, untilPoll))
    ensures Picked(kinds, IsDeferred) != [] ==>
              (Waits(WaitsFor(kinds, script, untilPoll)) <==>
               && BeforePoll(kinds) == [] && Picked(kinds, IsPollable) != []
               && (HasClock(kinds) ==> TimeLeft(kinds, untilPoll) > 0) && !EndsAtOnce(kinds, script, untilPoll))
    ensures Picked(kinds, IsDeferred) == [] ==>
              (Waits(WaitsFor(kinds, script, untilPoll)) <==> Picked(kinds, IsAtOnce) == [] && Earliest(kinds) > 0)
  {
    hide Picked, Reports, Earliest, HasClock, FirstRefusal, BeforePoll, Ends;
    var waits := WaitsFor(kinds, script, untilPoll);
    if Picked(kinds, IsDeferred) != [] {
      PollWaitsIff(script, Picked(kinds, IsPollable), HasClock(kinds), TimeLeft(kinds, untilPoll), |BeforePoll(kinds)|);
    } else if waits != [] {
      assert Blocks(waits[0]);
    }
  }

  /** With only clocks, the wait is for as long as the earliest says, if that is any
      time at all; with files that are polled at once, it is one poll. */
  lemma WaitsAre(kinds: seq<Kind>, script: Script, untilPoll: int, i: nat)
    requires FirstRefusal(kinds).None? && TimeoutsOk(kinds) && i < |kinds|
    requires forall j :: 0 <= j < |kinds| && kinds[j].Clock? ==> kinds[i].Clock? && kinds[i].timeout <= kinds[j].timeout
    ensures (forall j :: 0 <= j < |kinds| ==> kinds[j].Clock?) ==>
              WaitsFor(kinds, script, untilPoll) == if kinds[i].timeout > 0 then [Slept(kinds[i].timeout, 0)] else []
    ensures (exists j :: 0 <= j < |kinds| && kinds[j].AtOnce?) ==>
              forall k :: 0 <= k < |WaitsFor(kinds, script, untilPoll)| ==> !Blocks(WaitsFor(kinds, script, untilPoll)[k])
    ensures Picked(kinds, IsPollable) != [] && !InRounds(script, Picked(kinds, IsPollable)) ==>
              var told := |BeforePoll(kinds)|;
              WaitsFor(kinds, script, untilPoll) == [Polled(PollMillis(TimeLeft(kinds, untilPoll), HasClock(kinds), told > 0), told)]
  {
    hide Picked, Reports, BeforePoll, FirstRefusal;
    EarliestIs(kinds);
    if forall j :: 0 <= j < |kinds| ==> kinds[j].Clock? {
      NonePicked(kinds, IsDeferred);
      NonePicked(kinds, IsAtOnce);
    }
    if j :| 0 <= j < |kinds| && kinds[j].AtOnce? {
      PickedHas(kinds, IsAtOnce, Sub(j, kinds[j]));
      ToldBefore(kinds, j);
      WaitsIff(kinds, script, untilPoll);
      var waits := WaitsFor(kinds, script, untilPoll);
      forall k | 0 <= k < |waits| ensures !Blocks(waits[k]) {
        assert !Waits(waits);
      }
    }
    if Picked(kinds, IsPollable) != [] {
      var s := Picked(kinds, IsPollable)[0];
      PickedHas(kinds, IsPollable, s);
      PickedHas(kinds, IsDeferred, s);
    }
  }

  lemma NonePicked(kinds: seq<Kind>, p: Kind -> bool)
    requires forall j :: 0 <= j < |kinds| ==> !p(kinds[j])
    ensures Picked(kinds, p) == []
  {
    NothingToldIff(kinds, p);
  }

  lemma ToldBefore(kinds: seq<Kind>, j: nat)
    requires j < |kinds| && kinds[j].AtOnce?
    ensures BeforePoll(kinds) != []
  {
    hide Picked;
    PickedHas(kinds, IsAtOnce, Sub(j, kinds[j]));
  }

  /** The call is still waiting exactly when its files are looked at in rounds and
      none of the rounds there are is the last; nothing is told then. */
  lemma StillWaitingIff(kinds: seq<Kind>, script: Script, untilPoll: int)
    requires FirstRefusal(kinds).None?
    ensures ReplyFor(kinds, script, untilPoll) == Waiting <==>
            var polls := Picked(kinds, IsPollable);
            InRounds(script, polls) &&
            forall k :: 0 <= k < |script.rounds| ==>
                          !Ends(polls, HasClock(kinds), TimeLeft(kinds, untilPoll), BeforePoll(kinds) != [], script.rounds[k])
    ensures ReplyFor(kinds, script, untilPoll) == Waiting && script.rounds != [] ==> BeforePoll(kinds) == []
  {
    hide Picked, Reports, HasClock, FirstRefusal, BeforePoll, TimeLeft, FailureOf;
  }

  /** A clock that is due when the files are polled is waited for exactly when the
      time left wraps, nothing is told before, a file can be polled and the first
      look at the files is not the last. */
  lemma DueClockIsWaitedForIff(kinds: seq<Kind>, script: Script, untilPoll: nat)
    requires FirstRefusal(kinds).None? && TimeoutsOk(kinds) && HasClock(kinds) && Picked(kinds, IsDeferred) != []
    requires Earliest(kinds) <= untilPoll < U64 / 2
    ensures Waits(WaitsFor(kinds, script, untilPoll)) <==>
            && Earliest(kinds) - untilPoll < -(U64 / 2)
            && BeforePoll(kinds) == [] && Picked(kinds, IsPollable) != [] && !EndsAtOnce(kinds, script, untilPoll)
  {
    hide Picked, Reports, FirstRefusal, BeforePoll, WaitsFor, EndsAtOnce, Waits;
    WaitsIff(kinds, script, untilPoll);
    EarliestIs(kinds);
  }

  /** A call with files to poll sleeps past the limit exactly when nothing is told
      before, it looks at them in rounds, and the seventh, or a later one, is not the
      last and leaves that time. */
  lemma CallPassesLimitIff(kinds: seq<Kind>, script: Script, untilPoll: int)
    requires FirstRefusal(kinds).None? && Picked(kinds, IsDeferred) != []
    ensures SleepsPastLimit(WaitsFor(kinds, script, untilPoll)) <==>
            var polls := Picked(kinds, IsPollable);
            && BeforePoll(kinds) == [] && InRounds(script, polls)
            && GoesLong(polls, HasClock(kinds), TimeLeft(kinds, untilPoll), script.rounds)
  {
    hide Picked, HasClock, FirstRefusal, BeforePoll, TimeLeft, PollWaits, GoesLong, SleepsPastLimit;
    PollPassesLimitIff(script, Picked(kinds, IsPollable), HasClock(kinds), TimeLeft(kinds, untilPoll), |BeforePoll(kinds)|);
  }

  /** The record of a clock with a timeout of 2^63 nanoseconds. */
  const OVERDUE_CLOCK: seq<byte> := Zeros(31) + [0x80] + Zeros(16)

  /** The record of a subscription to standard input. */
  const READ_STDIN: seq<byte> := Zeros(8) + [FD_READ] + Zeros(39)

  lemma {:induction false} ZerosValue(n: nat, b: seq<byte>)
    requires |b| == n && forall k :: 0 <= k < n ==> b[k] == 0
    ensures LeValue(b) == 0
  {
    if n > 0 {
      ZerosValue(n - 1, b[1..]);
    }
  }

  lemma {:induction false} TopByte(n: nat, x: byte)
    ensures LeValue(Zeros(n) + [x]) == x * Pow256(n)
  {
    var b := Zeros(n) + [x];
    if n == 0 {
      assert b[1..] == [];
    } else {
      TopByte(n - 1, x);
      assert b[1..] == Zeros(n - 1) + [x];
    }
  }

  lemma OverdueKind(files: Files)
    ensures KindAt(OVERDUE_CLOCK, files) == Clock(-(U64 / 2))
  {
    hide LeValue;
    var arg := OVERDUE_CLOCK[16..];
    assert arg[8..16] == Zeros(7) + [0x80];
    TopByte(7, 0x80);
    Pow256Widths();
    assert Pow256(8) == 256 * Pow256(7);
    ZerosValue(2, arg[24..26]);
  }

  lemma StdinKind(files: Files)
    requires files == map[STDIN := FileInfo(false, true)]
    ensures KindAt(READ_STDIN, files) == Deferred(true)
  {
    hide LeValue;
    ZerosValue(4, READ_STDIN[16..][..4]);
  }

  /** A call that waits as long as it can for a clock that is due: two
      subscriptions, one nanosecond after the call began. */
  lemma OverdueClockIsWaitedFor(script: Script)
    ensures var files: Files := map[STDIN := FileInfo(false, true)];
            var kinds := Kinds([OVERDUE_CLOCK, READ_STDIN], files);
            && Earliest(kinds) <= 1
            && WaitsFor(kinds, script, 1) == [Polled(MAX_MILLIS, 0)]
  {
    var files: Files := map[STDIN := FileInfo(false, true)];
    OverdueKind(files);
    StdinKind(files);
    hide KindAt, WaitsFor, Earliest;
    assert Kinds([OVERDUE_CLOCK, READ_STDIN], files) == [Clock(-(U64 / 2)), Deferred(true)];
    OverdueWaits(script);
  }

  lemma EarlierOfTwo(t: int)
    requires t <= NO_TIMEOUT
    ensures Earliest([Clock(t), Deferred(true)]) == t
  {
    var kinds := [Clock(t), Deferred(true)];
    assert kinds[..1] == [Clock(t)] && [Clock(t)][..0] == [];
    assert Earliest([Clock(t)]) == t;
  }

  lemma OverdueWaits(script: Script)
    ensures var kinds := [Clock(-(U64 / 2)), Deferred(true)];
            Earliest(kinds) <= 1 && WaitsFor(kinds, script, 1) == [Polled(MAX_MILLIS, 0)]
  {
    hide Earliest, Picked, FirstRefusal;
    var clock, stdin := Clock(-(U64 / 2)), Deferred(true);
    var kinds := [clock, stdin];
    EarlierOfTwo(-(U64 / 2));
    assert kinds[0].Clock?;
    PickTwo(clock, stdin, IsAtOnce);
    PickTwo(clock, stdin, IsUnpollable);
    PickTwo(clock, stdin, IsPollable);
    PickTwo(clock, stdin, IsDeferred);
    FirstRefusalIs(kinds);
    assert TimeLeft(kinds, 1) == U64 / 2 - 1;
  }

  lemma PickTwo(a: Kind, b: Kind, p: Kind -> bool)
    ensures Picked([a, b], p) == (if p(a) then [Sub(0, a)] else []) + (if p(b) then [Sub(1, b)] else [])
  {
    assert [a, b][..1] == [a] && [a][..0] == [];
    assert Picked([a], p) == if p(a) then [Sub(0, a)] else [];
  }

  /** Seven looks at the files, none of which is ready. */
  const QUIET_ROUNDS: seq<Round> := seq(7, k => Round(Always(NotReady), 0))

  lemma QuietGoesOn(polls: seq<Sub>)
    requires |polls| == 2
    ensures EndFrom(polls, false, NO_TIMEOUT, false, QUIET_ROUNDS, 0) == 7
  {
    FailureOfIs(Always(NotReady), 2);
    assert polls[..1][..0] == [];
    assert Reports(polls[..1], Always(NotReady)) == [];
    assert Reports(polls, Always(NotReady)) == [];
    forall k | 0 <= k < 7 ensures !Ends(polls, false, NO_TIMEOUT, false, QUIET_ROUNDS[k]) {}
  }

  /** A call that sleeps for 64 milliseconds: two subscriptions to a file that
      cannot be polled with others, no clock, and seven looks that find nothing. */
  lemma LongSleepIsReached()
    ensures var files: Files := map[STDIN := FileInfo(false, true)];
            var waits := WaitsFor(Kinds([READ_STDIN, READ_STDIN], files), Script(NotBatched, NotReady, QUIET_ROUNDS), 0);
            |waits| == 7 && waits[6] == Slept(64 * MILLISECOND, 0) && PastLimit(waits[6])
  {
    var files: Files := map[STDIN := FileInfo(false, true)];
    StdinKind(files);
    hide KindAt, WaitsFor, QUIET_ROUNDS;
    assert Kinds([READ_STDIN, READ_STDIN], files) == [Deferred(true), Deferred(true)];
    TwoFilesSleepLong();
  }

  lemma TwoFilesSleepLong()
    ensures var waits := WaitsFor([Deferred(true), Deferred(true)], Script(NotBatched, NotReady, QUIET_ROUNDS), 0);
            |waits| == 7 && waits[6] == Slept(64 * MILLISECOND, 0) && PastLimit(waits[6])
  {
    hide Picked, FirstRefusal, Earliest, Interval, EndFrom;
    var stdin := Deferred(true);
    var kinds := [stdin, stdin];
    PickTwo(stdin, stdin, IsAtOnce);
    PickTwo(stdin, stdin, IsUnpollable);
    PickTwo(stdin, stdin, IsPollable);
    PickTwo(stdin, stdin, IsDeferred);
    FirstRefusalIs(kinds);
    EarliestIs(kinds);
    assert TimeLeft(kinds, 0) == NO_TIMEOUT;
    assert BeforePoll(kinds) == [];
    QuietGoesOn(Picked(kinds, IsPollable));
    IntervalExceeds(6);
  }
}
