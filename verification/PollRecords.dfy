/** The records of poll_oneoff as a guest lays them out (section "subscription" and
    "event" of the WASI snapshot preview 1 documentation): what a subscription
    written byte by byte is taken for, and what an event says. */
module PollRecords {
  import opened Bytes
  import opened Polling

  /** user data, tag, padding, clock, padding, timeout, precision, flags, padding. */
  ghost function ClockRecord(userdata: seq<byte>, id: nat, timeout: nat, precision: nat, flags: nat, pad: seq<byte>): seq<byte>
    requires |pad| == 17
  {
    userdata + [0] + pad[..7] + LeBytes(id, 4) + pad[7..11] + LeBytes(timeout, 8) + LeBytes(precision, 8) + LeBytes(flags, 2) + pad[11..]
  }

  /** user data, tag, padding, descriptor, the rest of the space. */
  ghost function FdRecord(userdata: seq<byte>, tag: byte, fd: nat, pad: seq<byte>): seq<byte>
    requires |pad| == 35
  {
    userdata + [tag] + pad[..7] + LeBytes(fd, 4) + pad[7..]
  }

  /** A clock's timeout is signed; one with an absolute time, or an unknown flag, is
      refused. */
  lemma ClockIsRead(userdata: seq<byte>, id: nat, timeout: nat, precision: nat, flags: nat, pad: seq<byte>, files: Files)
    requires |userdata| == 8 && |pad| == 17 && timeout < U64 && flags < 0x1_0000
    ensures var sub := ClockRecord(userdata, id, timeout, precision, flags, pad);
            && |sub| == 48
            && KindAt(sub, files) ==
               if flags == 1 then Refused(ENOTSUP) else if flags > 1 then Refused(EINVAL)
               else Clock(if timeout < 0x8000_0000_0000_0000 then timeout else timeout - 0x1_0000_0000_0000_0000)
  {
    hide LeBytes, LeValue;
    var sub := ClockRecord(userdata, id, timeout, precision, flags, pad);
    var arg := sub[16..];
    var a := userdata + [0] + pad[..7] + LeBytes(id, 4) + pad[7..11];
    var b := a + LeBytes(timeout, 8) + LeBytes(precision, 8);
    Middle(a, LeBytes(timeout, 8), LeBytes(precision, 8) + LeBytes(flags, 2) + pad[11..]);
    Middle(b, LeBytes(flags, 2), pad[11..]);
    assert sub == a + LeBytes(timeout, 8) + (LeBytes(precision, 8) + LeBytes(flags, 2) + pad[11..]);
    assert sub == b + LeBytes(flags, 2) + pad[11..];
    assert sub[8] == 0;
    assert arg[8..16] == sub[24..32] && arg[24..26] == sub[40..42];
    LeRoundTrip64(timeout);
    TwoBytes();
    LeRoundTrip(flags, 2);
  }

  lemma Middle(a: seq<byte>, b: seq<byte>, c: seq<byte>)
    ensures (a + b + c)[|a|..|a| + |b|] == b
  {
  }

  lemma TwoBytes()
    ensures Pow256(2) == 0x1_0000
  {
    assert Pow256(1) == 256;
  }

  /** A file to be read is waited for if it blocks; standard input always is. A file
      to be written is ready. Either is told when there is no such file, and a
      negative descriptor, or an unknown tag, fails the call. */
  lemma FdIsRead(userdata: seq<byte>, tag: byte, fd: nat, pad: seq<byte>, files: Files)
    requires |userdata| == 8 && |pad| == 35 && fd < U32 && tag != 0
    ensures var sub := FdRecord(userdata, tag, fd, pad);
            && |sub| == 48
            && KindAt(sub, files) ==
               if tag > 2 then Refused(EINVAL)
               else if fd >= 0x8000_0000 then Refused(EBADF)
               else if fd !in files then AtOnce(8)
               else if tag == 2 then AtOnce(0)
               else if files[fd].nonblock && fd > 0 then AtOnce(0)
               else Deferred(files[fd].pollable)
  {
    hide LeBytes, LeValue;
    var sub := FdRecord(userdata, tag, fd, pad);
    assert sub[8] == tag && sub[16..][..4] == LeBytes(fd, 4);
    LeRoundTrip32(fd);
  }

  /** The records are the guest's, one after another. */
  lemma RecordsAreRead(mem: seq<byte>, table: nat, records: seq<seq<byte>>)
    requires table + 48 * |records| <= |mem|
    requires forall i :: 0 <= i < |records| ==> mem[table + 48 * i..table + 48 * i + 48] == records[i]
    ensures SubsAt(mem, table, |records|) == records
  {
    forall i | 0 <= i < |records| ensures SubsAt(mem, table, |records|)[i] == records[i] {}
  }

  /** An event says whose it is, its error and its type. */
  lemma EventSays(subs: seq<seq<byte>>, es: seq<Event>, k: nat)
    requires EventsFor(subs, es) && k < |es| <= |subs|
    ensures 32 * k + 32 <= |Array(subs, es)|
    ensures var r, sub := Array(subs, es)[32 * k..32 * k + 32], subs[es[k].sub];
            && r[..8] == sub[..8] && LeValue(r[8..10]) == es[k].errno && r[10] == sub[8]
            && forall j :: 11 <= j < 32 ==> r[j] == 0
  {
    hide Records, Record;
    RecordReadsBack(subs, es, k);
    assert Array(subs, es)[32 * k..32 * k + 32] == Records(subs, es)[32 * k..32 * k + 32];
    RecordSays(subs, es[k]);
  }

  lemma RecordSays(subs: seq<seq<byte>>, e: Event)
    requires e.sub < |subs| && |subs[e.sub]| == 48
    ensures var r, sub := Record(subs, e), subs[e.sub];
            && r[..8] == sub[..8] && LeValue(r[8..10]) == e.errno && r[10] == sub[8]
            && forall j :: 11 <= j < 32 ==> r[j] == 0
  {
    var r, sub := Record(subs, e), subs[e.sub];
    assert r[8..10] == [e.errno, 0];
    assert [e.errno, 0][1..] == [0] && [0][1..] == [];
    assert LeValue([0]) == 0 && LeValue([e.errno, 0]) == e.errno;
    var t := LeBytes(sub[8], 4);
    assert t == [sub[8] % 256] + LeBytes(sub[8] / 256, 3) && LeBytes(0, 3) == [0] + LeBytes(0, 2) && LeBytes(0, 2) == [0] + LeBytes(0, 1);
    assert LeBytes(0, 1) == [0];
    assert r[10..14] == t;
    forall j | 10 <= j < 14 ensures r[j] == t[j - 10] {
      assert r[10..14][j - 10] == t[j - 10];
    }
  }
}
