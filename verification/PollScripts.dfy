/** What the host's files and clocks answer during one poll_oneoff, and what
    follows from it: which answers end the call, and how long it waits
    (imports/wasi_snapshot_preview1/poll.go). */
module PollScripts {
  import opened Results
  import opened Polling

  // ----- answers

  /** What polling one file says. */
  datatype Answer = Ready | NotReady | Unsupported | Failed(code: nat)

  type Answers = nat -> Answer

  /** What polling all files at once says; it may not be possible. */
  datatype Batch = NotBatched | BatchReady(ready: Option<nat -> bool>) | BatchUnsupported | BatchFailed(code: nat)

  function AnswersOf(b: Batch): Answers {
    match b
    case NotBatched => Always(NotReady)
    case BatchReady(ready) => (i: nat) => if ready.Some? && ready.value(i) then Ready else NotReady
    case BatchUnsupported => Always(Unsupported)
    case BatchFailed(code) => Always(Failed(code))
  }

  function Always(a: Answer): Answers { (_: nat) => a }

  /** One look at every file, and how long after the first it ends. */
  datatype Round = Round(answers: Answers, at: nat)

  /** What the host answers during one call: to a poll of several files at once,
      to one of a single file, and to round after round of looking at each. */
  datatype Script = Script(batch: Batch, single: Answer, rounds: seq<Round>)

  // ----- what is reported

  ghost function Report(s: Sub, a: Answer): seq<Event> {
    if a.Ready? then [Event(s.index, SUCCESS)] else if a.Unsupported? then [Event(s.index, NOTSUP)] else []
  }

  /** The events for the files that are ready, or cannot be polled after all. */
  ghost function Reports(polls: seq<Sub>, answers: Answers): (r: seq<Event>)
    ensures |r| <= |polls|
  {
    if polls == [] then [] else var last := |polls| - 1; Reports(polls[..last], answers) + Report(polls[last], answers(last))
  }

  lemma ReportNext(polls: seq<Sub>, i: nat, answers: Answers)
    requires i < |polls|
    ensures Reports(polls[..i + 1], answers) == Reports(polls[..i], answers) + Report(polls[i], answers(i))
  {
    assert polls[..i + 1][..i] == polls[..i];
  }

  lemma NoReports(answers: Answers)
    ensures Reports([], answers) == []
  {
  }

  /** The code of the first of n answers that is a failure. */
  ghost function FailureOf(answers: Answers, n: nat): Option<nat> {
    if n == 0 then None
    else
      var before := FailureOf(answers, n - 1);
      if before.Some? then before
      else if answers(n - 1).Failed? then Some(answers(n - 1).code) else None
  }

  ghost predicate FirstFailure(answers: Answers, n: nat, i: nat, code: nat) {
    i < n && answers(i) == Failed(code) && forall j: nat :: j < i ==> !answers(j).Failed?
  }

  lemma {:induction false} FailureOfIs(answers: Answers, n: nat)
    ensures FailureOf(answers, n).None? <==> forall i: nat :: i < n ==> !answers(i).Failed?
    ensures FailureOf(answers, n).Some? ==> exists i: nat :: FirstFailure(answers, n, i, FailureOf(answers, n).value)
  {
    if n > 0 {
      FailureOfIs(answers, n - 1);
      var f := FailureOf(answers, n - 1);
      if f.Some? {
        var i: nat :| FirstFailure(answers, n - 1, i, f.value);
        assert FirstFailure(answers, n, i, f.value);
      } else if answers(n - 1).Failed? {
        assert FirstFailure(answers, n, n - 1, answers(n - 1).code);
      }
    }
  }

  lemma {:induction false} FailureStays(answers: Answers, i: nat, n: nat)
    requires i <= n && FailureOf(answers, i).Some?
    ensures FailureOf(answers, n) == FailureOf(answers, i)
    decreases n
  {
    if i < n {
      FailureStays(answers, i, n - 1);
    }
  }

  // ----- which answers end the call

  /** Whether a round is the last: there is an event, there is a failure, or the
      time is up. left is the time there was when the rounds began. */
  ghost predicate Ends(polls: seq<Sub>, hasClock: bool, left: int, told: bool, round: Round) {
    || told || FailureOf(round.answers, |polls|).Some? || Reports(polls, round.answers) != []
    || (hasClock && left - round.at <= 0)
  }

  /** The first round from i on that is the last, or how many there are. */
  ghost function EndFrom(polls: seq<Sub>, hasClock: bool, left: int, told: bool, rounds: seq<Round>, i: nat): (k: nat)
    requires i <= |rounds|
    ensures i <= k <= |rounds| && (k < |rounds| ==> Ends(polls, hasClock, left, told, rounds[k]))
    ensures forall j :: i <= j < k ==> !Ends(polls, hasClock, left, told, rounds[j])
    decreases |rounds| - i
  {
    if i == |rounds| || Ends(polls, hasClock, left, told, rounds[i]) then i
    else EndFrom(polls, hasClock, left, told, rounds, i + 1)
  }

  /** Whether the files are looked at in rounds. */
  predicate InRounds(script: Script, polls: seq<Sub>) {
    |polls| > 1 && script.batch.NotBatched?
  }

  /** The answers that decide the call: those of the one poll, or of the last
      round. None while the rounds go on. */
  ghost function LastAnswers(script: Script, polls: seq<Sub>, hasClock: bool, left: int, told: bool): Option<Answers> {
    if |polls| == 0 then Some(Always(NotReady))
    else if InRounds(script, polls) then
      var k := EndFrom(polls, hasClock, left, told, script.rounds, 0);
      if k < |script.rounds| then Some(script.rounds[k].answers) else None
    else Some(if |polls| > 1 then AnswersOf(script.batch) else Always(script.single))
  }

  // ----- waits

  /** A wait: for how long, negative for no limit and zero for none, and how many
      events were written by then. */
  datatype Wait = Polled(millis: int, written: nat) | Slept(nanos: int, written: nat)

  predicate Blocks(w: Wait) {
    if w.Polled? then w.millis != 0 else w.nanos != 0
  }

  /** There is no waiting once an event is written. */
  ghost predicate WaitsOk(waits: seq<Wait>) {
    forall k :: 0 <= k < |waits| && Blocks(waits[k]) ==> waits[k].written == 0
  }

  /** How long the sleep after the k-th round takes. */
  function SleepAfter(hasClock: bool, left: int, round: Round, k: nat): int {
    if hasClock && left - round.at < Interval(k) then left - round.at else Interval(k)
  }

  ghost function RoundWaits(hasClock: bool, left: int, rounds: seq<Round>, n: nat): (r: seq<Wait>)
    requires n <= |rounds|
    ensures |r| == n && forall k :: 0 <= k < n ==> r[k] == Slept(SleepAfter(hasClock, left, rounds[k], k), 0)
  {
    seq(n, k requires 0 <= k < n => Slept(SleepAfter(hasClock, left, rounds[k], k), 0))
  }

  /** The waits of polling files when told events are written already. */
  ghost function PollWaits(script: Script, polls: seq<Sub>, hasClock: bool, left: int, told: nat): seq<Wait> {
    if |polls| == 0 then []
    else if InRounds(script, polls) then
      RoundWaits(hasClock, left, script.rounds, EndFrom(polls, hasClock, left, told > 0, script.rounds, 0))
    else [Polled(PollMillis(left, hasClock, told > 0), told)]
  }

  // ----- the time between rounds

  const MIN_INTERVAL: int := MILLISECOND
  const MAX_INTERVAL: int := 50 * MILLISECOND

  /** How long the k-th sleep between rounds may take. */
  function Interval(k: nat): int {
    if k == 0 then MIN_INTERVAL else NextInterval(Interval(k - 1))
  }

  function NextInterval(wait: int): int {
    if wait < MAX_INTERVAL then wait * 2 else wait
  }

  /** The interval doubles past the limit it is compared with: from number six,
      counting from zero, it stays at 64 milliseconds, not 50. */
  lemma {:induction false} IntervalExceeds(k: nat)
    ensures 0 < Interval(k) < 2 * MAX_INTERVAL
    ensures Interval(k) > MAX_INTERVAL <==> k >= 6
    ensures k >= 6 ==> Interval(k) == 64_000_000
    ensures Interval(0) == 1_000_000 && (k < 6 ==> Interval(k + 1) == 2 * Interval(k))
  {
    if k >= 7 {
      IntervalExceeds(k - 1);
    } else {
      assert Interval(1) == 2 * MILLISECOND && Interval(2) == 4 * MILLISECOND && Interval(3) == 8 * MILLISECOND;
      assert Interval(4) == 16 * MILLISECOND && Interval(5) == 32 * MILLISECOND && Interval(6) == 64 * MILLISECOND;
    }
  }

  /** Every sleep between rounds is for some time, and no longer than its interval. */
  lemma SleepsAreBounded(polls: seq<Sub>, hasClock: bool, left: int, rounds: seq<Round>, k: nat)
    requires k < EndFrom(polls, hasClock, left, false, rounds, 0)
    ensures 0 < SleepAfter(hasClock, left, rounds[k], k) <= Interval(k)
  {
    IntervalExceeds(k);
    assert !Ends(polls, hasClock, left, false, rounds[k]);
  }

  /** Polling files waits exactly when nothing is told, there is no clock or its
      time is not up, and the first round, if there are rounds, is not the last. */
  lemma PollWaitsIff(script: Script, polls: seq<Sub>, hasClock: bool, left: int, told: nat)
    ensures var waits := PollWaits(script, polls, hasClock, left, told);
            && WaitsOk(waits)
            && ((exists k :: 0 <= k < |waits| && Blocks(waits[k])) <==>
                && told == 0 && polls != [] && (hasClock ==> left > 0)
                && (InRounds(script, polls) ==> script.rounds != [] && !Ends(polls, hasClock, left, false, script.rounds[0])))
  {
    var waits := PollWaits(script, polls, hasClock, left, told);
    PollMillisIs(left, hasClock, told > 0);
    if InRounds(script, polls) {
      if waits != [] {
        SleepsAreBounded(polls, hasClock, left, script.rounds, 0);
        assert Blocks(waits[0]);
      }
    } else if polls != [] {
      assert Blocks(waits[0]) <==> PollMillis(left, hasClock, told > 0) != 0;
    }
  }

  /** A sleep that the limit is meant to bound is longer than it. */
  predicate PastLimit(w: Wait) {
    w.Slept? && w.nanos > MAX_INTERVAL
  }

  /** The sleep after a round is past the limit exactly from the seventh on, where
      no clock cuts it short. */
  lemma SleepPassesLimitIff(hasClock: bool, left: int, rounds: seq<Round>, k: nat)
    requires k < |rounds|
    ensures SleepAfter(hasClock, left, rounds[k], k) > MAX_INTERVAL <==>
            k >= 6 && (hasClock ==> left - rounds[k].at > 50_000_000)
  {
    IntervalExceeds(k);
  }

  /** The seventh round, or a later one, is not the last, and a clock leaves more
      time than the limit after it. */
  ghost predicate LongRound(polls: seq<Sub>, hasClock: bool, left: int, rounds: seq<Round>, k: nat) {
    6 <= k < EndFrom(polls, hasClock, left, false, rounds, 0) && (hasClock ==> left - rounds[k].at > MAX_INTERVAL)
  }

  ghost predicate GoesLong(polls: seq<Sub>, hasClock: bool, left: int, rounds: seq<Round>) {
    exists k: nat :: LongRound(polls, hasClock, left, rounds, k)
  }

  ghost predicate SleepsPastLimit(waits: seq<Wait>) {
    exists i :: 0 <= i < |waits| && PastLimit(waits[i])
  }

  /** Polling files sleeps past the limit exactly when nothing is told before and
      the rounds go on that long. */
  lemma PollPassesLimitIff(script: Script, polls: seq<Sub>, hasClock: bool, left: int, told: nat)
    ensures SleepsPastLimit(PollWaits(script, polls, hasClock, left, told)) <==>
            told == 0 && InRounds(script, polls) && GoesLong(polls, hasClock, left, script.rounds)
  {
    var waits, rounds := PollWaits(script, polls, hasClock, left, told), script.rounds;
    if InRounds(script, polls) && told == 0 {
      forall k: nat | k < |waits| ensures PastLimit(waits[k]) <==> LongRound(polls, hasClock, left, rounds, k) {
        SleepPassesLimitIff(hasClock, left, rounds, k);
      }
      if GoesLong(polls, hasClock, left, rounds) {
        var k: nat :| LongRound(polls, hasClock, left, rounds, k);
        assert PastLimit(waits[k]);
      }
      if SleepsPastLimit(waits) {
        var k: nat :| k < |waits| && PastLimit(waits[k]);
        assert LongRound(polls, hasClock, left, rounds, k);
      }
    }
  }
}
