/** What a guest subscribes to and what it is told: the records of poll_oneoff
    (imports/wasi_snapshot_preview1/poll.go). */
module Polling {
  import opened Bytes

  datatype Errno = EINVAL | EFAULT | EBADF | ENOTSUP | PollFailed(code: nat)

  const SUCCESS: byte := 0
  const BADF: byte := 8
  const NOTSUP: byte := 58

  const SUB_SIZE: nat := 48
  const EVENT_SIZE: nat := 32

  const CLOCK: byte := 0
  const FD_READ: byte := 1
  const FD_WRITE: byte := 2

  const STDIN: nat := 0
  const NO_TIMEOUT: int := 0x7fff_ffff_ffff_ffff
  const MILLISECOND: int := 1_000_000
  const MAX_MILLIS: int := 0x7fff_ffff

  // ----- durations

  /** A 64-bit word read as a signed number. */
  function Signed64(v: nat): int {
    if v % U64 >= U64 / 2 then v % U64 - U64 else v % U64
  }

  /** A difference of durations, which wraps in 64 bits. */
  function Minus64(a: int, b: int): int {
    var d := a - b;
    if d < -(U64 / 2) then d + U64 else if d >= U64 / 2 then d - U64 else d
  }

  /** The time to poll for, in milliseconds; negative for no limit. */
  function PollMillis(d: int, hasClock: bool, haveEvents: bool): int {
    if haveEvents then 0
    else if !hasClock then -1
    else if d <= 0 then 0
    else if d >= MAX_MILLIS * MILLISECOND then MAX_MILLIS
    else (d + MILLISECOND - 1) / MILLISECOND
  }

  /** The poll waits exactly when nothing is written and there is no clock or its
      time is not up; it then lasts for the time left, rounded up by less than a
      millisecond, unless that is too long to ask for. */
  lemma PollMillisIs(d: int, hasClock: bool, haveEvents: bool)
    ensures var m := PollMillis(d, hasClock, haveEvents);
            && (m != 0 <==> !haveEvents && (hasClock ==> d > 0))
            && (m < 0 <==> !haveEvents && !hasClock)
            && m <= 0x7fff_ffff
            && (m > 0 && m < 0x7fff_ffff ==> d <= m * 1_000_000 < d + 1_000_000)
            && (m == 0x7fff_ffff ==> d > 0x7fff_fffe * 1_000_000)
  {
    var up := d + MILLISECOND - 1;
    assert up == (up / MILLISECOND) * MILLISECOND + up % MILLISECOND;
  }

  // ----- subscriptions

  /** A file as polling sees it. */
  datatype FileInfo = FileInfo(nonblock: bool, pollable: bool)

  type Files = map<nat, FileInfo>

  /** How a subscription is answered: with an error for the whole call, at once,
      after polling its file, or when its time is up. */
  datatype Kind =
    | Refused(error: Errno)
    | AtOnce(errno: byte)
    | Deferred(pollable: bool)
    | Clock(timeout: int)

  function ClockKind(timeout: nat, flags: nat): Kind {
    if flags == 0 then Clock(Signed64(timeout)) else if flags == 1 then Refused(ENOTSUP) else Refused(EINVAL)
  }

  /** A descriptor is a signed number: from half the range on it is negative. */
  function ReadKind(files: Files, fd: nat): Kind {
    if fd >= U32 / 2 then Refused(EBADF)
    else if fd !in files then AtOnce(BADF)
    else if fd != STDIN && files[fd].nonblock then AtOnce(SUCCESS)
    else Deferred(files[fd].pollable)
  }

  function WriteKind(files: Files, fd: nat): Kind {
    if fd >= U32 / 2 then Refused(EBADF) else if fd !in files then AtOnce(BADF) else AtOnce(SUCCESS)
  }

  /** The record of one subscription: user data, type, and what goes with it. */
  function KindAt(sub: seq<byte>, files: Files): Kind
    requires |sub| == SUB_SIZE
  {
    var eventType, arg := sub[8], sub[16..];
    if eventType == CLOCK then ClockKind(LeValue(arg[8..16]), LeValue(arg[24..26]))
    else if eventType == FD_READ then ReadKind(files, LeValue(arg[..4]))
    else if eventType == FD_WRITE then WriteKind(files, LeValue(arg[..4]))
    else Refused(EINVAL)
  }

  /** The i-th record of the table of subscriptions at an address. */
  function SubAt(mem: seq<byte>, table: nat, i: nat): (r: seq<byte>)
    requires table + SUB_SIZE * (i + 1) <= |mem|
    ensures |r| == SUB_SIZE
  {
    mem[table + SUB_SIZE * i..table + SUB_SIZE * (i + 1)]
  }

  ghost function SubsAt(mem: seq<byte>, table: nat, n: nat): (r: seq<seq<byte>>)
    requires table + SUB_SIZE * n <= |mem|
    ensures |r| == n && forall i :: 0 <= i < n ==> |r[i]| == SUB_SIZE && r[i] == SubAt(mem, table, i)
  {
    seq(n, i requires 0 <= i < n => SubAt(mem, table, i))
  }

  ghost function Kinds(subs: seq<seq<byte>>, files: Files): (r: seq<Kind>)
    requires forall i :: 0 <= i < |subs| ==> |subs[i]| == SUB_SIZE
    ensures TimeoutsOk(r)
    ensures |r| == |subs| && forall i :: 0 <= i < |subs| ==> r[i] == KindAt(subs[i], files)
  {
    seq(|subs|, i requires 0 <= i < |subs| => KindAt(subs[i], files))
  }

  // ----- choosing subscriptions by their kind

  /** A subscription: its place and its kind. */
  datatype Sub = Sub(index: nat, kind: Kind)

  predicate IsAtOnce(k: Kind) { k.AtOnce? }
  predicate IsDeferred(k: Kind) { k.Deferred? }
  predicate IsPollable(k: Kind) { k.Deferred? && k.pollable }
  predicate IsUnpollable(k: Kind) { k.Deferred? && !k.pollable }
  predicate IsClock(k: Kind) { k.Clock? }

  /** Whether a clock's time is up. */
  function DueBy(expired: int): Kind -> bool {
    (k: Kind) => k.Clock? && k.timeout <= expired
  }

  /** The subscriptions, in order, whose kinds satisfy p. */
  ghost function Picked(kinds: seq<Kind>, p: Kind -> bool): (r: seq<Sub>)
  {
    if kinds == [] then []
    else
      var last := |kinds| - 1;
      Picked(kinds[..last], p) + if p(kinds[last]) then [Sub(last, kinds[last])] else []
  }

  ghost function Keep(subs: seq<Sub>, p: Kind -> bool): (r: seq<Sub>)
  {
    if subs == [] then []
    else
      var last := |subs| - 1;
      Keep(subs[..last], p) + if p(subs[last].kind) then [subs[last]] else []
  }

  ghost predicate Increasing(r: seq<Sub>) {
    forall i, j :: 0 <= i < j < |r| ==> r[i].index < r[j].index
  }

  lemma {:induction false} PickedHas(kinds: seq<Kind>, p: Kind -> bool, s: Sub)
    ensures s in Picked(kinds, p) <==> s.index < |kinds| && s.kind == kinds[s.index] && p(s.kind)
  {
    if kinds != [] {
      PickedHas(kinds[..|kinds| - 1], p, s);
    }
  }

  /** Exactly the subscriptions that satisfy p are picked, each once, in order. */
  lemma {:induction false} PickedIs(kinds: seq<Kind>, p: Kind -> bool)
    ensures Increasing(Picked(kinds, p))
    ensures forall s :: s in Picked(kinds, p) <==> s.index < |kinds| && s.kind == kinds[s.index] && p(s.kind)
  {
    forall s ensures s in Picked(kinds, p) <==> s.index < |kinds| && s.kind == kinds[s.index] && p(s.kind) {
      PickedHas(kinds, p, s);
    }
    if kinds != [] {
      var init := kinds[..|kinds| - 1];
      PickedIs(init, p);
      var r := Picked(init, p);
      forall k | 0 <= k < |r| ensures r[k].index < |init| {
        PickedHas(init, p, r[k]);
      }
    }
  }

  lemma PickNext(kinds: seq<Kind>, i: nat, p: Kind -> bool)
    requires i < |kinds|
    ensures Picked(kinds[..i + 1], p) == Picked(kinds[..i], p) + if p(kinds[i]) then [Sub(i, kinds[i])] else []
  {
    assert kinds[..i + 1][..i] == kinds[..i];
  }

  lemma KeepNext(subs: seq<Sub>, i: nat, p: Kind -> bool)
    requires i < |subs|
    ensures Keep(subs[..i + 1], p) == Keep(subs[..i], p) + if p(subs[i].kind) then [subs[i]] else []
  {
    assert subs[..i + 1][..i] == subs[..i];
  }

  lemma {:induction false} KeepPicked(kinds: seq<Kind>, p: Kind -> bool, q: Kind -> bool)
    requires forall k :: q(k) ==> p(k)
    ensures Keep(Picked(kinds, p), q) == Picked(kinds, q)
  {
    if kinds != [] {
      var last := |kinds| - 1;
      KeepPicked(kinds[..last], p, q);
      var init := Picked(kinds[..last], p);
      if p(kinds[last]) {
        assert (init + [Sub(last, kinds[last])])[..|init|] == init;
      } else {
        assert Picked(kinds, p) == init;
      }
    }
  }

  /** No subscription is of two kinds. */
  lemma {:induction false} KindsShare(kinds: seq<Kind>)
    ensures |Picked(kinds, IsAtOnce)| + |Picked(kinds, IsDeferred)| + |Picked(kinds, IsClock)| <= |kinds|
  {
    if kinds != [] {
      KindsShare(kinds[..|kinds| - 1]);
    }
  }

  /** The earliest of the clocks, or no timeout. */
  ghost function Earliest(kinds: seq<Kind>): int {
    if kinds == [] then NO_TIMEOUT
    else
      var t, k := Earliest(kinds[..|kinds| - 1]), kinds[|kinds| - 1];
      if k.Clock? && k.timeout < t then k.timeout else t
  }

  lemma EarliestNext(kinds: seq<Kind>, i: nat)
    requires i < |kinds|
    ensures var t := Earliest(kinds[..i]);
            Earliest(kinds[..i + 1]) == if kinds[i].Clock? && kinds[i].timeout < t then kinds[i].timeout else t
  {
    assert kinds[..i + 1][..i] == kinds[..i];
  }

  ghost predicate TimeoutsOk(kinds: seq<Kind>) {
    forall i :: 0 <= i < |kinds| && kinds[i].Clock? ==> -(U64 / 2) <= kinds[i].timeout <= NO_TIMEOUT
  }

  ghost predicate HasClock(kinds: seq<Kind>) {
    exists i :: 0 <= i < |kinds| && kinds[i].Clock?
  }

  /** It is no later than any clock, and it is one of them if there is any. */
  lemma {:induction false} EarliestIs(kinds: seq<Kind>)
    requires TimeoutsOk(kinds)
    ensures forall i :: 0 <= i < |kinds| && kinds[i].Clock? ==> Earliest(kinds) <= kinds[i].timeout
    ensures if HasClock(kinds) then exists i :: 0 <= i < |kinds| && kinds[i] == Clock(Earliest(kinds))
            else Earliest(kinds) == NO_TIMEOUT
  {
    if kinds != [] {
      var last := |kinds| - 1;
      var init := kinds[..last];
      EarliestIs(init);
      if HasClock(init) {
        var i :| 0 <= i < last && init[i] == Clock(Earliest(init));
        assert kinds[i] == Clock(Earliest(init));
      }
      if kinds[last].Clock? {
        assert kinds[last] == Clock(kinds[last].timeout);
      }
      assert HasClock(kinds) <==> HasClock(init) || kinds[last].Clock? by {
        if i :| 0 <= i < |kinds| && kinds[i].Clock? {
          assert i < last ==> init[i].Clock?;
        }
      }
    }
  }

  // ----- events

  /** An event: which subscription it is for, and its error number. */
  datatype Event = Event(sub: nat, errno: byte)

  ghost function Subs(es: seq<Event>): (r: seq<nat>)
    ensures |r| == |es| && forall k :: 0 <= k < |es| ==> r[k] == es[k].sub
  {
    seq(|es|, k requires 0 <= k < |es| => es[k].sub)
  }

  /** The error number a subscription is told outright. */
  function ErrnoFor(k: Kind): byte {
    if k.AtOnce? then k.errno else if k.Deferred? then NOTSUP else SUCCESS
  }

  function EventFor(s: Sub): Event { Event(s.index, ErrnoFor(s.kind)) }

  ghost function Told(subs: seq<Sub>): (r: seq<Event>)
    ensures |r| == |subs| && forall k :: 0 <= k < |subs| ==> r[k] == EventFor(subs[k])
  {
    seq(|subs|, k requires 0 <= k < |subs| => EventFor(subs[k]))
  }

  function Zeros(n: nat): (r: seq<byte>)
    ensures |r| == n && forall k :: 0 <= k < n ==> r[k] == 0
  {
    seq(n, _ => 0)
  }

  /** What is written of an event: user data, error number, type. */
  function Head(userdata: seq<byte>, errno: byte, eventType: byte): (r: seq<byte>)
    requires |userdata| == 8
    ensures |r| == 14
  {
    userdata + [errno, 0] + LeBytes(eventType, 4)
  }

  ghost function Record(subs: seq<seq<byte>>, e: Event): (r: seq<byte>)
    requires e.sub < |subs| && |subs[e.sub]| == SUB_SIZE
    ensures |r| == EVENT_SIZE
  {
    Head(subs[e.sub][..8], e.errno, subs[e.sub][8]) + Zeros(18)
  }

  ghost predicate EventsFor(subs: seq<seq<byte>>, es: seq<Event>) {
    && (forall i :: 0 <= i < |subs| ==> |subs[i]| == SUB_SIZE)
    && forall k :: 0 <= k < |es| ==> es[k].sub < |subs|
  }

  /** The events one after another, with no gaps. */
  ghost function Records(subs: seq<seq<byte>>, es: seq<Event>): (r: seq<byte>)
    requires EventsFor(subs, es)
    ensures |r| == EVENT_SIZE * |es|
  {
    if es == [] then [] else Records(subs, es[..|es| - 1]) + Record(subs, es[|es| - 1])
  }

  /** The whole of the guest's array: the events, then zeros. */
  ghost function Array(subs: seq<seq<byte>>, es: seq<Event>): (r: seq<byte>)
    requires EventsFor(subs, es) && |es| <= |subs|
    ensures |r| == EVENT_SIZE * |subs|
  {
    Records(subs, es) + Zeros(EVENT_SIZE * (|subs| - |es|))
  }

  lemma WriteRecord(subs: seq<seq<byte>>, es: seq<Event>, e: Event)
    requires EventsFor(subs, es) && |es| < |subs| && e.sub < |subs|
    ensures EventsFor(subs, es + [e])
    ensures Written(Array(subs, es), EVENT_SIZE * |es|, Head(subs[e.sub][..8], e.errno, subs[e.sub][8]))
            == Array(subs, es + [e])
  {
    hide Head, Record;
    var head := Head(subs[e.sub][..8], e.errno, subs[e.sub][8]);
    RecordIs(subs, e);
    assert (es + [e])[..|es|] == es;
    var left := EVENT_SIZE * (|subs| - |es|);
    assert Zeros(left)[14..] == Zeros(18) + Zeros(left - EVENT_SIZE);
    Overwrite(Records(subs, es), Zeros(left), head);
  }

  lemma RecordIs(subs: seq<seq<byte>>, e: Event)
    requires e.sub < |subs| && |subs[e.sub]| == SUB_SIZE
    ensures Record(subs, e) == Head(subs[e.sub][..8], e.errno, subs[e.sub][8]) + Zeros(18)
  {
  }

  lemma Overwrite(a: seq<byte>, b: seq<byte>, data: seq<byte>)
    requires |data| <= |b|
    ensures Written(a + b, |a|, data) == a + data + b[|data|..]
  {
  }

  /** The event at a place reads back as it was reported. */
  lemma {:induction false} RecordReadsBack(subs: seq<seq<byte>>, es: seq<Event>, k: nat)
    requires EventsFor(subs, es) && k < |es|
    ensures Records(subs, es)[EVENT_SIZE * k..EVENT_SIZE * k + EVENT_SIZE] == Record(subs, es[k])
  {
    hide Record;
    var last := |es| - 1;
    var init := Records(subs, es[..last]);
    if k < last {
      RecordReadsBack(subs, es[..last], k);
      assert Records(subs, es)[EVENT_SIZE * k..EVENT_SIZE * k + EVENT_SIZE] == init[EVENT_SIZE * k..EVENT_SIZE * k + EVENT_SIZE];
    }
  }
}
