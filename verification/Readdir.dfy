/** fd_readdir (imports/wasi_snapshot_preview1/fs.go): packing directory entries
into a guest's buffer, the last one cut short to say that there are more, and
what a guest reads by resuming from the last entry it got whole.
*/
module Readdir {
  import opened Results
  import opened Bytes
  import opened DirentCaches
  import opened Sequences

  const DIRENT_SIZE: nat := 24

  /** The longest entry the source encodes. */
  const LARGEST_DIRENT: nat := U32 - 1 - DIRENT_SIZE

  function EntrySize(e: Dirent): nat {
    DIRENT_SIZE + |e.name|
  }

  /** A name is never empty, nor too long to encode; numbers fit their fields. */
  ghost predicate DirentOk(e: Dirent) {
    |e.name| > 0 && EntrySize(e) <= LARGEST_DIRENT && e.ino < U64 && e.filetype < U32
  }

  ghost predicate DirentsOk(es: seq<Dirent>) {
    forall k :: 0 <= k < |es| ==> DirentOk(es[k])
  }

  /** The header of entry e, whose successor is at position next. */
  function Header(next: nat, e: Dirent): (b: seq<byte>)
    ensures |b| == DIRENT_SIZE
  {
    LeBytes(next % U64, 8) + LeBytes(e.ino, 8) + LeBytes(|e.name|, 4) + LeBytes(e.filetype, 4)
  }

  // ----- how much fits

  /** What of a list of entries is written: the bytes, the entries, and how much
      of a last entry that does not fit. */
  datatype Fit = Fit(bytes: nat, count: nat, truncated: nat)

  function FitIn(es: seq<Dirent>, room: nat): Fit {
    if es == [] || room == 0 then Fit(0, 0, 0)
    else if EntrySize(es[0]) > room then
      var cut := if room >= DIRENT_SIZE then DIRENT_SIZE else room;
      Fit(cut, 1, cut)
    else
      var rest := FitIn(es[1..], room - EntrySize(es[0]));
      Fit(EntrySize(es[0]) + rest.bytes, 1 + rest.count, rest.truncated)
  }

  /** The entries to write, counted as the source does. */
  method MaxDirents(es: seq<Dirent>, bufLen: nat) returns (bytes: nat, count: nat, truncated: nat)
    requires DirentsOk(es) && bufLen < U32
    ensures Fit(bytes, count, truncated) == FitIn(es, bufLen)
  {
    var room: nat := bufLen;
    bytes, count, truncated := 0, 0, 0;
    for i := 0 to |es|
      invariant count == i && truncated == 0 && bytes + room == bufLen
      invariant FitIn(es, bufLen) ==
                var rest := FitIn(es[i..], room); Fit(bytes + rest.bytes, count + rest.count, rest.truncated)
    {
      if room == 0 {
        break;
      }
      count := count + 1;
      assert DirentOk(es[i]);
      var size := EntrySize(es[i]);
      assert es[i..][1..] == es[i + 1..] && es[i..][0] == es[i];
      if size > room {
        truncated := if room >= DIRENT_SIZE then DIRENT_SIZE else room;
        bytes := bytes + truncated;
        break;
      }
      room := room - size;
      bytes := bytes + size;
    }
  }

  /** The entries that fit whole. */
  function Whole(f: Fit): int {
    if f.truncated > 0 then f.count - 1 else f.count
  }

  /** Entries packed one after another, the first followed by position next. */
  function Packed(es: seq<Dirent>, next: nat): seq<byte> {
    if es == [] then [] else Header(next, es[0]) + es[0].name + Packed(es[1..], next + 1)
  }

  /** What is written: the whole entries, then the header of one cut short if
      there is room for a header. */
  function Payload(es: seq<Dirent>, next: nat, f: Fit): seq<byte>
    requires 0 <= Whole(f) <= f.count <= |es| && (f.truncated > 0 ==> f.count > 0)
  {
    Packed(es[..Whole(f)], next) + (if f.truncated == DIRENT_SIZE then Header(next + Whole(f), es[Whole(f)]) else [])
  }

  lemma {:induction false} FitFacts(es: seq<Dirent>, room: nat)
    ensures var f := FitIn(es, room);
            && f.count <= |es| && f.bytes <= room
            && (f.truncated > 0 ==> f.count > 0 && f.truncated <= DIRENT_SIZE)
            && |Packed(es[..Whole(f)], 0)| + f.truncated == f.bytes
            && (f.truncated == 0 ==> f.count == |es| || f.bytes == room)
            && (f.truncated > 0 ==> EntrySize(es[Whole(f)]) > room - (f.bytes - f.truncated) >= f.truncated)
            && (0 < f.truncated < DIRENT_SIZE ==> f.bytes == room)
  {
    NonePacked();
    hide Header, Packed;
    if es != [] && room > 0 && EntrySize(es[0]) <= room {
      var rest := FitIn(es[1..], room - EntrySize(es[0]));
      FitFacts(es[1..], room - EntrySize(es[0]));
      var whole := Whole(FitIn(es, room));
      PackedFirst(es[..whole]);
      assert es[..whole][1..] == es[1..][..Whole(rest)];
    }
  }

  lemma NonePacked()
    ensures Packed([], 0) == []
  {
  }

  lemma PackedFirst(es: seq<Dirent>)
    requires es != []
    ensures |Packed(es, 0)| == EntrySize(es[0]) + |Packed(es[1..], 0)|
  {
    hide Header;
    PackedLength(es[1..], 0, 1);
  }

  lemma {:induction false} PackedLength(es: seq<Dirent>, m: nat, n: nat)
    ensures |Packed(es, m)| == |Packed(es, n)|
  {
    if es != [] {
      PackedLength(es[1..], m + 1, n + 1);
    }
  }

  lemma {:induction false} PackedAppend(es: seq<Dirent>, e: Dirent, next: nat)
    ensures Packed(es + [e], next) == Packed(es, next) + Header(next + |es|, e) + e.name
  {
    hide Header;
    if es == [] {
      assert [e][1..] == [] && Packed([e][1..], next + 1) == [];
    } else {
      assert (es + [e])[1..] == es[1..] + [e];
      PackedAppend(es[1..], e, next + 1);
      assert next + 1 + |es[1..]| == next + |es|;
    }
  }

  lemma NonePackedFrom(next: nat)
    ensures Packed([], next) == []
  {
  }

  lemma PackedNext(es: seq<Dirent>, i: nat, next: nat)
    requires i < |es|
    ensures Packed(es[..i + 1], next) == Packed(es[..i], next) + Header(next + i, es[i]) + es[i].name
  {
    hide Header, Packed;
    PackedAppend(es[..i], es[i], next);
    assert es[..i + 1] == es[..i] + [es[i]];
  }

  /** Writes the entries into memory at an offset, in place. */
  method WriteDirents(mem: array<byte>, at: nat, es: seq<Dirent>, next: nat, f: Fit)
    requires 0 <= Whole(f) <= f.count <= |es| && (f.truncated > 0 ==> f.count > 0)
    requires at + |Payload(es, next, f)| <= mem.Length
    modifies mem
    ensures mem[..] == Written(old(mem[..]), at, Payload(es, next, f))
  {
    NonePackedFrom(next);
    hide Header, Written, Packed;
    var whole := Whole(f);
    var pos := 0;
    NothingWritten(mem[..], at);
    for i := 0 to whole
      invariant pos == |Packed(es[..i], next)| && at + pos <= mem.Length
      invariant mem[..] == Written(old(mem[..]), at, Packed(es[..i], next))
    {
      PrefixFits(es, next, i, whole);
      PackedNext(es, i, next);
      WriteMore(old(mem[..]), at, Packed(es[..i], next), Header(next + i, es[i]));
      Write(mem, at + pos, Header(next + i, es[i]));
      pos := pos + DIRENT_SIZE;
      WriteMore(old(mem[..]), at, Packed(es[..i], next) + Header(next + i, es[i]), es[i].name);
      Write(mem, at + pos, es[i].name);
      pos := pos + |es[i].name|;
    }
    if f.truncated == DIRENT_SIZE {
      WriteMore(old(mem[..]), at, Packed(es[..whole], next), Header(next + whole, es[whole]));
      Write(mem, at + pos, Header(next + whole, es[whole]));
    } else {
      assert Payload(es, next, f) == Packed(es[..whole], next);
    }
  }

  lemma {:induction false} PrefixFits(es: seq<Dirent>, next: nat, i: nat, n: nat)
    requires i < n <= |es|
    ensures |Packed(es[..i + 1], next)| <= |Packed(es[..n], next)|
    decreases n
  {
    hide Header, Packed;
    if i + 1 < n {
      PrefixFits(es, next, i, n - 1);
      assert es[..n] == es[..n - 1] + [es[n - 1]];
      PackedAppend(es[..n - 1], es[n - 1], next);
    }
  }

  // ----- one call

  /** How many entries are asked for: one more than can fit, and the dot
      entries at least. */
  function Wanted(bufLen: nat): nat {
    var n := bufLen / (DIRENT_SIZE + 1) + 1;
    if n > 2 then n else 2
  }

  /** A full buffer says there are more entries. */
  function Used(f: Fit, bufLen: nat): nat {
    if f.truncated > 0 then bufLen else f.bytes
  }

  /** The entries one call considers, those from the cookie on. */
  function Considered(all: seq<Dirent>, cookie: nat, bufLen: nat): seq<Dirent>
    requires cookie <= |all|
  {
    Slice(all, cookie, Wanted(bufLen))
  }

  ghost predicate ListingOk(all: seq<Dirent>) {
    2 <= |all| < U64 && DirentsOk(all)
  }

  /** What one call writes into the buffer, and how much of it it reports. */
  function Reply(all: seq<Dirent>, cookie: nat, bufLen: nat): (r: (seq<byte>, nat))
    requires cookie <= |all|
    ensures |r.0| <= r.1 <= bufLen
  {
    Packing(Considered(all, cookie, bufLen), cookie + 1, bufLen)
  }

  /** What is written for the entries es, the first one's successor at next,
      and how much of the room is reported used. */
  function Packing(es: seq<Dirent>, next: nat, room: nat): (r: (seq<byte>, nat))
    ensures |r.0| <= r.1 <= room
  {
    PayloadLength(es, next, room);
    FitFacts(es, room);
    (Payload(es, next, FitIn(es, room)), Used(FitIn(es, room), room))
  }

  ghost predicate Replied(before: seq<byte>, after: seq<byte>, reply: (seq<byte>, nat), buf: nat, resultBufused: nat) {
    && (reply.0 != [] ==> buf + |reply.0| <= |before|)
    && resultBufused + 4 <= |before|
    && after == Written(if reply.0 == [] then before else Written(before, buf, reply.0), resultBufused, LeBytes(reply.1, 4))
  }

  /** The function itself: reads entries from the cookie on, packs them into the
      guest's buffer and stores how much of it is used. */
  method FdReaddir(mem: array<byte>, dir: DirentCache, buf: nat, bufLen: nat, cookie: nat, resultBufused: nat)
    returns (r: Result<(), Errno>)
    requires mem.Length <= U32 && buf < U32 && bufLen < U32 && cookie < U64 && resultBufused < U32
    requires dir.Valid() && ListingOk(dir.all)
    modifies mem, dir
    ensures dir.Valid()
    ensures r.Ok? ==>
              && Readable(old(dir.View()), cookie) && cookie <= |dir.all|
              && Replied(old(mem[..]), mem[..], Reply(dir.all, cookie, bufLen), buf, resultBufused)
              && dir.View().Window? && dir.View().start == cookie
              && dir.View().count >= cookie + |Considered(dir.all, cookie, bufLen)|
    ensures r.Ok? <==>
            && bufLen >= DIRENT_SIZE && Readable(old(dir.View()), cookie) && cookie <= |dir.all|
            && var f := FitIn(Considered(dir.all, cookie, bufLen), bufLen);
               (f.bytes > 0 ==> InMemory(mem.Length, buf, f.bytes)) && InMemory(mem.Length, resultBufused, 4)
    ensures r == Err(EINVAL) <==> bufLen < DIRENT_SIZE
    ensures r == Err(ENOENT) <==> bufLen >= DIRENT_SIZE && !Readable(old(dir.View()), cookie)
  {
    hide Header, Written, FitIn, Payload, DirentsOk, LeBytes, Replied;
    if bufLen < DIRENT_SIZE {
      return Err(EINVAL);
    }
    var read := dir.Read(cookie, Wanted(bufLen));
    if read.Err? {
      return Err(read.error);
    }
    var es := read.value;
    SliceOk(dir.all, cookie, Wanted(bufLen));
    r := Answer(mem, es, cookie + 1, buf, bufLen, resultBufused);
  }

  /** Packs the entries into the buffer and stores how much of it is used. */
  method Answer(mem: array<byte>, es: seq<Dirent>, next: nat, buf: nat, bufLen: nat, resultBufused: nat)
    returns (r: Result<(), Errno>)
    requires mem.Length <= U32 && buf < U32 && DIRENT_SIZE <= bufLen < U32 && resultBufused < U32
    requires DirentsOk(es)
    modifies mem
    ensures var f := FitIn(es, bufLen);
            && (r.Ok? <==> (f.bytes > 0 ==> InMemory(mem.Length, buf, f.bytes)) && InMemory(mem.Length, resultBufused, 4))
            && (r.Ok? ==> Replied(old(mem[..]), mem[..], Packing(es, next, bufLen), buf, resultBufused))
    ensures r.Err? ==> r.error == EFAULT
  {
    hide Header, Written, FitIn, Payload, DirentsOk, LeBytes;
    PayloadLength(es, next, bufLen);
    SomethingWritten(es, next, bufLen);
    var bytes, count, truncated := MaxDirents(es, bufLen);
    var f := Fit(bytes, count, truncated);
    if bytes > 0 {
      if !InMemory(mem.Length, buf, bytes) {
        return Err(EFAULT);
      }
      WriteDirents(mem, buf, es, next, f);
    }
    var bufused := if truncated > 0 then bufLen else bytes;
    if !InMemory(mem.Length, resultBufused, 4) {
      return Err(EFAULT);
    }
    Write(mem, resultBufused, LeBytes(bufused, 4));
    r := Ok(());
  }

  lemma SomethingWritten(es: seq<Dirent>, next: nat, room: nat)
    requires room >= DIRENT_SIZE
    ensures var f := FitIn(es, room);
            && 0 <= Whole(f) <= f.count <= |es| && (f.truncated > 0 ==> f.count > 0)
            && (f.bytes > 0 <==> Payload(es, next, f) != [])
  {
    hide Header;
    PayloadLength(es, next, room);
    if es != [] && EntrySize(es[0]) <= room {
      var f := FitIn(es, room);
      assert f.count >= 1 && es[..Whole(f)][0] == es[0];
    }
  }

  lemma SliceOk(all: seq<Dirent>, pos: nat, n: nat)
    requires DirentsOk(all) && pos <= |all|
    ensures DirentsOk(Slice(all, pos, n))
  {
    var es := Slice(all, pos, n);
    forall k | 0 <= k < |es| ensures DirentOk(es[k]) {
      assert es[k] == all[pos + k];
    }
  }

  lemma PayloadLength(es: seq<Dirent>, next: nat, room: nat)
    ensures var f := FitIn(es, room);
            && 0 <= Whole(f) <= f.count <= |es| && (f.truncated > 0 ==> f.count > 0)
            && |Payload(es, next, f)| == f.bytes - (if f.truncated < DIRENT_SIZE then f.truncated else 0)
            && |Payload(es, next, f)| <= f.bytes <= room
  {
    hide Header;
    FitFacts(es, room);
    PackedLength(es[..Whole(FitIn(es, room))], 0, next);
  }

  // ----- what the guest reads

  datatype Decoded = Decoded(next: nat, ino: nat, name: seq<byte>, filetype: nat)

  /** The entries a guest reads out of a buffer: up to the first one that is not
      there whole. */
  function DecodeAll(b: seq<byte>): seq<Decoded>
    decreases |b|
  {
    if |b| < DIRENT_SIZE then []
    else
      var nameLen := LeValue(b[16..20]);
      if |b| < DIRENT_SIZE + nameLen then []
      else
        [Decoded(LeValue(b[0..8]), LeValue(b[8..16]), b[DIRENT_SIZE..DIRENT_SIZE + nameLen], LeValue(b[20..24]))]
        + DecodeAll(b[DIRENT_SIZE + nameLen..])
  }

  /** Entries as a guest should read them, the first followed by position next. */
  function Expected(es: seq<Dirent>, next: nat): (r: seq<Decoded>)
    ensures |r| == |es|
  {
    seq(|es|, k requires 0 <= k < |es| => Decoded(next + k, es[k].ino, es[k].name, es[k].filetype))
  }

  lemma HeaderFields(next: nat, e: Dirent, tail: seq<byte>)
    requires next < U64 && DirentOk(e)
    ensures var b := Header(next, e) + tail;
            && LeValue(b[0..8]) == next && LeValue(b[8..16]) == e.ino
            && LeValue(b[16..20]) == |e.name| && LeValue(b[20..24]) == e.filetype
            && b[DIRENT_SIZE..] == tail
  {
    hide LeBytes, LeValue;
    var b := Header(next, e) + tail;
    assert b[0..8] == LeBytes(next, 8) && b[8..16] == LeBytes(e.ino, 8);
    assert b[16..20] == LeBytes(|e.name|, 4) && b[20..24] == LeBytes(e.filetype, 4);
    LeRoundTrip64(next);
    LeRoundTrip64(e.ino);
    LeRoundTrip32(|e.name|);
    LeRoundTrip32(e.filetype);
  }

  lemma ExpectedHead(es: seq<Dirent>, next: nat)
    requires es != []
    ensures Expected(es, next) == [Decoded(next, es[0].ino, es[0].name, es[0].filetype)] + Expected(es[1..], next + 1)
  {
  }

  lemma DecodeOne(next: nat, e: Dirent, rest: seq<byte>)
    requires next < U64 && DirentOk(e)
    ensures DecodeAll(Header(next, e) + (e.name + rest)) ==
            [Decoded(next, e.ino, e.name, e.filetype)] + DecodeAll(rest)
  {
    hide Header, LeValue, LeBytes;
    var b := Header(next, e) + (e.name + rest);
    HeaderFields(next, e, e.name + rest);
    assert b[DIRENT_SIZE..DIRENT_SIZE + |e.name|] == e.name && b[DIRENT_SIZE + |e.name|..] == rest;
  }

  lemma {:induction false} DecodePacked(es: seq<Dirent>, next: nat, tail: seq<byte>)
    requires DirentsOk(es) && next + |es| <= U64
    ensures DecodeAll(Packed(es, next) + tail) == Expected(es, next) + DecodeAll(tail)
  {
    hide Header, DecodeAll, Expected;
    if es == [] {
      assert Packed(es, next) + tail == tail;
      assert Expected(es, next) + DecodeAll(tail) == DecodeAll(tail);
    } else {
      var e, packed := es[0], Packed(es[1..], next + 1);
      assert DirentOk(e);
      Regroup(Header(next, e), e.name, packed, tail);
      DecodeOne(next, e, packed + tail);
      DecodePacked(es[1..], next + 1, tail);
      ExpectedHead(es, next);
      Regroup([Decoded(next, e.ino, e.name, e.filetype)], [], Expected(es[1..], next + 1), DecodeAll(tail));
    }
  }

  /** A last entry with less room than it needs is not read. */
  lemma CutShortIsNotRead(next: nat, e: Dirent, tail: seq<byte>)
    requires next < U64 && DirentOk(e)
    requires |tail| < DIRENT_SIZE || (Header(next, e) <= tail && |tail| < EntrySize(e))
    ensures DecodeAll(tail) == []
  {
    hide Header, LeValue, LeBytes;
    if |tail| >= DIRENT_SIZE {
      assert tail == Header(next, e) + tail[DIRENT_SIZE..];
      HeaderFields(next, e, tail[DIRENT_SIZE..]);
    }
  }

  lemma TailOf(buffer: seq<byte>, packed: seq<byte>, header: seq<byte>, used: nat)
    requires packed + header <= buffer && |packed| + |header| <= used <= |buffer|
    ensures buffer[..used] == packed + buffer[|packed|..used] && header <= buffer[|packed|..used]
  {
    assert buffer[..|packed| + |header|] == packed + header;
    assert buffer[|packed|..used][..|header|] == buffer[..|packed| + |header|][|packed|..];
  }

  /** A guest never takes an entry that was cut short for a whole one. */
  lemma DecodeReply(es: seq<Dirent>, next: nat, bufLen: nat, buffer: seq<byte>)
    requires DirentsOk(es) && next + |es| <= U64 && |buffer| == bufLen
    requires var f := FitIn(es, bufLen);
             && 0 <= Whole(f) <= f.count <= |es| && (f.truncated > 0 ==> f.count > 0)
             && Payload(es, next, f) <= buffer
    ensures var f := FitIn(es, bufLen);
            Used(f, bufLen) <= bufLen && DecodeAll(buffer[..Used(f, bufLen)]) == Expected(es[..Whole(f)], next)
  {
    hide Header, LeValue, LeBytes, DecodeAll, Expected, FitIn, Packed;
    var f := FitIn(es, bufLen);
    var whole := es[..Whole(f)];
    FitFacts(es, bufLen);
    PackedLength(whole, 0, next);
    var used, packed := Used(f, bufLen), Packed(whole, next);
    var header := if f.truncated == DIRENT_SIZE then Header(next + Whole(f), es[Whole(f)]) else [];
    TailOf(buffer, packed, header, used);
    var tail := buffer[|packed|..used];
    DecodePacked(whole, next, tail);
    if f.truncated > 0 {
      assert DirentOk(es[Whole(f)]);
      CutShortIsNotRead(next + Whole(f), es[Whole(f)], tail);
    } else {
      NothingToRead(tail);
    }
  }

  lemma NothingToRead(tail: seq<byte>)
    requires |tail| < DIRENT_SIZE
    ensures DecodeAll(tail) == []
  {
  }

  /** A buffer not filled means the directory ended: as many entries as are
      asked for never all fit. */
  lemma EndOfDirectory(es: seq<Dirent>, bufLen: nat)
    requires DirentsOk(es) && Used(FitIn(es, bufLen), bufLen) < bufLen
    ensures |es| < Wanted(bufLen)
    ensures FitIn(es, bufLen).count == |es| && FitIn(es, bufLen).truncated == 0
  {
    FitFacts(es, bufLen);
    var f := FitIn(es, bufLen);
    assert es[..Whole(f)] == es;
    PackedIsLong(es);
    WantedDoNotFit(bufLen, |es|);
  }

  lemma WantedDoNotFit(bufLen: nat, n: nat)
    requires 25 * n <= bufLen
    ensures n < Wanted(bufLen)
  {
    assert n <= bufLen / 25;
  }

  lemma {:induction false} PackedIsLong(es: seq<Dirent>)
    requires DirentsOk(es)
    ensures |Packed(es, 0)| >= 25 * |es|
  {
    hide Header;
    if es != [] {
      assert DirentOk(es[0]);
      PackedIsLong(es[1..]);
      PackedLength(es[1..], 0, 1);
    }
  }

  /** More entries than fit, at 25 bytes each or more, make no difference. */
  lemma {:induction false} FitOfPrefix(es: seq<Dirent>, m: nat, room: nat)
    requires DirentsOk(es) && m <= |es| && room < 25 * m
    ensures FitIn(es[..m], room) == FitIn(es, room)
  {
    if room > 0 && EntrySize(es[0]) <= room {
      assert DirentOk(es[0]);
      assert es[..m][1..] == es[1..][..m - 1];
      FitOfPrefix(es[1..], m - 1, room - EntrySize(es[0]));
    }
  }

  /** What is asked for is enough: the reply is the one that all entries from the
      cookie on would give. */
  lemma EnoughIsAsked(all: seq<Dirent>, cookie: nat, bufLen: nat)
    requires ListingOk(all) && cookie <= |all|
    ensures Reply(all, cookie, bufLen) == Packing(all[cookie..], cookie + 1, bufLen)
  {
    hide Header, Packed, FitIn;
    var rest, es := all[cookie..], Considered(all, cookie, bufLen);
    var m := |es|;
    SlicePrefix(all, cookie, Wanted(bufLen), m);
    assert es == rest[..m];
    if m == |rest| {
      assert es == rest;
    } else {
      assert DirentsOk(rest);
      assert bufLen < 25 * (bufLen / 25 + 1);
      FitOfPrefix(rest, m, bufLen);
      FitFacts(es, bufLen);
      var f := FitIn(es, bufLen);
      assert es[..Whole(f)] == rest[..Whole(f)];
    }
  }

  /** What a call writes: as many entries as fit, packed, and the header of the next
      if there is room for that. All that is left, with its length, when that fits;
      otherwise the buffer is said to be full. */
  lemma ReplyIs(all: seq<Dirent>, cookie: nat, bufLen: nat) returns (n: nat)
    requires ListingOk(all) && cookie <= |all|
    ensures n <= |all| - cookie
    ensures var rest, next := all[cookie..], cookie + 1;
            var whole := Packed(rest[..n], next);
            && |whole| <= bufLen && (n < |rest| ==> |whole| + 24 + |rest[n].name| > bufLen)
            && Reply(all, cookie, bufLen) ==
               if n == |rest| then (whole, |whole|)
               else (whole + (if |whole| + 24 <= bufLen then Header(next + n, rest[n]) else []), bufLen)
  {
    hide Header, Packed, FitIn;
    var rest, next := all[cookie..], cookie + 1;
    EnoughIsAsked(all, cookie, bufLen);
    FitFacts(rest, bufLen);
    var f := FitIn(rest, bufLen);
    n := Whole(f);
    PackedLength(rest[..n], 0, next);
    var whole := Packed(rest[..n], next);
    assert whole + [] == whole;
    if n < |rest| {
      assert f.truncated == DIRENT_SIZE <==> |whole| + 24 <= bufLen;
      assert Used(f, bufLen) == bufLen;
    } else {
      assert f.truncated == 0;
    }
  }

  lemma ExpectedMore(all: seq<Dirent>, cookie: nat, n: nat)
    requires cookie + n <= |all|
    ensures Expected(all[..cookie + n], 1) == Expected(all[..cookie], 1) + Expected(all[cookie..][..n], cookie + 1)
  {
  }

  lemma FirstFits(es: seq<Dirent>, room: nat)
    requires es != [] && EntrySize(es[0]) <= room
    ensures Whole(FitIn(es, room)) >= 1
  {
    FitFacts(es[1..], room - EntrySize(es[0]));
  }

  lemma SlicePrefix(all: seq<Dirent>, pos: nat, m: nat, n: nat)
    requires pos <= |all| && n <= |Slice(all, pos, m)|
    ensures Slice(all, pos, m)[..n] == all[pos..][..n]
    ensures |Slice(all, pos, m)| == Min(m, |all| - pos)
    ensures Slice(all, pos, m) != [] ==> Slice(all, pos, m)[0] == all[pos]
  {
  }

  /** One call of a run gives the guest the next n entries, one at least, and
      all that are left if the buffer is not full. */
  lemma OneCall(all: seq<Dirent>, bufLen: nat, cookie: nat, buffer: seq<byte>) returns (n: nat)
    requires ListingOk(all) && |buffer| == bufLen && cookie <= |all|
    requires bufLen >= DIRENT_SIZE && forall k :: 0 <= k < |all| ==> EntrySize(all[k]) <= bufLen
    ensures n <= |Considered(all, cookie, bufLen)| <= |all| - cookie
    ensures var reply := Reply(all, cookie, bufLen);
            && DecodeAll((reply.0 + buffer[|reply.0|..])[..reply.1]) == Expected(all[cookie..][..n], cookie + 1)
            && (if reply.1 < bufLen then n == |all| - cookie else n >= 1)
  {
    hide Header, LeValue, LeBytes, FitIn, Payload, Packed, DecodeAll, DirentsOk, Expected, Slice;
    var es := Considered(all, cookie, bufLen);
    var f := FitIn(es, bufLen);
    var reply := Reply(all, cookie, bufLen);
    var buffer' := reply.0 + buffer[|reply.0|..];
    SliceOk(all, cookie, Wanted(bufLen));
    SlicePrefix(all, cookie, Wanted(bufLen), 0);
    PayloadLength(es, cookie + 1, bufLen);
    DecodeReply(es, cookie + 1, bufLen, buffer');
    n := Whole(f);
    SlicePrefix(all, cookie, Wanted(bufLen), n);
    if reply.1 < bufLen {
      EndOfDirectory(es, bufLen);
    } else {
      assert es != [] by { NothingFits(bufLen); }
      FirstFits(es, bufLen);
    }
  }

  lemma NothingFits(room: nat)
    ensures FitIn([], room) == Fit(0, 0, 0)
  {
  }

  // ----- a guest

  /** What the guest finds in its buffer and its count after a call. */
  lemma AfterReply(before: seq<byte>, after: seq<byte>, reply: (seq<byte>, nat), buf: nat, bufLen: nat, result: nat)
    requires Replied(before, after, reply, buf, result) && |reply.0| <= reply.1 <= bufLen < U32
    requires buf + bufLen <= |before| && Separate(buf, bufLen, result, 4)
    ensures |after| == |before| && LeValue(after[result..result + 4]) == reply.1
    ensures var buffer := before[buf..buf + bufLen];
            after[buf..buf + reply.1] == (reply.0 + buffer[|reply.0|..])[..reply.1]
  {
    hide LeValue, LeBytes, Written;
    var written := if reply.0 == [] then before else Written(before, buf, reply.0);
    var count := LeBytes(reply.1, 4);
    ReadBack(written, result, count);
    LeRoundTrip32(reply.1);
    ReadOver(before, buf, reply.0, bufLen);
    if reply.0 == [] {
      NothingWritten(before, buf);
    }
    ReadApart(written, result, count, buf, bufLen);
    assert after[buf..buf + reply.1] == after[buf..buf + bufLen][..reply.1];
  }

  /** A guest that reads a directory: from cookie 0 on, each time from after the
      last entry it read whole, until a buffer comes back not full. With a buffer
      that holds the longest entry it reads every entry once, in order, and stops,
      whatever was in its memory before. */
  method ReadDirectory(mem: array<byte>, dir: DirentCache, buf: nat, bufLen: nat, resultBufused: nat)
    returns (got: seq<Decoded>)
    requires mem.Length <= U32 && bufLen < U32 && buf + bufLen <= mem.Length && resultBufused + 4 <= mem.Length
    requires Separate(buf, bufLen, resultBufused, 4) && dir.Valid() && ListingOk(dir.all)
    requires bufLen >= DIRENT_SIZE && forall k :: 0 <= k < |dir.all| ==> EntrySize(dir.all[k]) <= bufLen
    modifies mem, dir
    ensures got == Expected(dir.all, 1)
  {
    hide DecodeAll, DirentsOk, Reply, Considered, EntrySize, Replied, FitIn, LeValue, Expected;
    ghost var all := dir.all;
    var cookie := 0;
    got := [];
    NothingExpected(all);
    while true
      invariant dir.Valid() && cookie <= |all| && Readable(dir.View(), cookie)
      invariant got == Expected(all[..cookie], 1)
      decreases |all| - cookie
    {
      ghost var before := mem[..];
      BytesFit(all, cookie, bufLen);
      var r := FdReaddir(mem, dir, buf, bufLen, cookie, resultBufused);
      ghost var n := OneCall(all, bufLen, cookie, before[buf..buf + bufLen]);
      AfterReply(before, mem[..], Reply(all, cookie, bufLen), buf, bufLen, resultBufused);
      var used := LeValue(mem[resultBufused..resultBufused + 4]);
      var read := DecodeAll(mem[buf..buf + used]);
      ExpectedMore(all, cookie, n);
      if n > 0 {
        ExpectedLast(all, cookie, n);
      }
      got := got + read;
      if used < bufLen {
        assert all[..cookie + n] == all;
        return;
      }
      cookie := read[|read| - 1].next;
    }
  }

  lemma NothingExpected(all: seq<Dirent>)
    ensures Expected(all[..0], 1) == []
  {
  }

  lemma ExpectedLast(all: seq<Dirent>, cookie: nat, n: nat)
    requires cookie + n <= |all| && n > 0
    ensures Expected(all[cookie..][..n], cookie + 1)[n - 1].next == cookie + n
  {
  }

  lemma BytesFit(all: seq<Dirent>, cookie: nat, bufLen: nat)
    requires cookie <= |all|
    ensures FitIn(Considered(all, cookie, bufLen), bufLen).bytes <= bufLen
  {
    FitFacts(Considered(all, cookie, bufLen), bufLen);
  }
}
