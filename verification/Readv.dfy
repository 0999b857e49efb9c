/** Vectored reads: fd_pread into a list of guest buffers
    (imports/wasi_snapshot_preview1/fs.go). */
module Readv {
  import opened Results
  import opened Bytes
  import opened DepGraphs

  datatype Errno = EBADF | EFAULT | ENOSYS | OtherErrno(code: nat)

  // ----- files

  /** What one positioned read reports. */
  datatype Answer = Answer(n: nat, errno: Option<Errno>)

  /** A file with fixed content. answer gives what a read of len bytes at an
      offset reports: it may be short, and it may be an error. */
  datatype File = File(content: seq<byte>, answer: (int, nat) -> Answer)

  ghost predicate FileOk(f: File) {
    forall off, len :: AnswerOk(f, off, len, f.answer(off, len))
  }

  ghost predicate AnswerOk(f: File, off: int, len: nat, a: Answer) {
    a.n <= len && Holds(f, off, a.n)
  }

  ghost predicate Holds(f: File, off: int, n: nat) {
    n > 0 ==> 0 <= off && off + n <= |f.content|
  }

  /** The n bytes of the file from an offset on. */
  ghost function Contiguous(f: File, off: int, n: nat): (r: seq<byte>)
    requires Holds(f, off, n)
    ensures |r| == n
  {
    if n == 0 then [] else f.content[off..off + n]
  }

  // ----- vectors

  datatype Iovec = Iovec(at: nat, len: nat)

  function IovecAt(mem: seq<byte>, at: nat): Iovec
    requires at + 8 <= |mem|
  {
    Iovec(LeValue(mem[at..at + 4]), LeValue(mem[at + 4..at + 8]))
  }

  /** The vectors a table of records in memory lists. */
  ghost function IovecsAt(mem: seq<byte>, table: nat, count: nat): (v: seq<Iovec>)
    requires table + 8 * count <= |mem|
    ensures |v| == count && forall j :: 0 <= j < count ==> v[j] == IovecAt(mem, table + 8 * j)
  {
    seq(count, j requires 0 <= j < count => IovecAt(mem, table + 8 * j))
  }

  /** The guest has written these vectors at table: each its address, then its
      length. */
  ghost predicate Lists(mem: seq<byte>, table: nat, vs: seq<Iovec>) {
    && table + 8 * |vs| <= |mem|
    && forall j :: 0 <= j < |vs| ==> RecordOf(vs[j], mem[table + 8 * j..table + 8 * j + 8])
  }

  lemma ListsFit(mem: seq<byte>, table: nat, vs: seq<Iovec>)
    requires Lists(mem, table, vs)
    ensures table + 8 * |vs| <= |mem|
  {
  }

  ghost predicate RecordOf(v: Iovec, record: seq<byte>) {
    v.at < U32 && v.len < U32 && record == LeBytes(v.at, 4) + LeBytes(v.len, 4)
  }

  /** The vectors a guest writes are the ones that are read. */
  lemma ListedAreRead(mem: seq<byte>, table: nat, vs: seq<Iovec>)
    requires Lists(mem, table, vs)
    ensures IovecsAt(mem, table, |vs|) == vs
  {
    hide LeBytes, LeValue;
    forall j | 0 <= j < |vs| ensures IovecAt(mem, table + 8 * j) == vs[j] {
      var at := table + 8 * j;
      var record := mem[at..at + 8];
      assert RecordOf(vs[j], record);
      assert mem[at..at + 4] == record[..4] == LeBytes(vs[j].at, 4);
      assert mem[at + 4..at + 8] == record[4..] == LeBytes(vs[j].len, 4);
      LeRoundTrip32(vs[j].at);
      LeRoundTrip32(vs[j].len);
    }
  }

  ghost predicate Faults(size: nat, v: Iovec) {
    v.len > 0 && !InMemory(size, v.at, v.len)
  }

  ghost function Capacity(vs: seq<Iovec>): nat {
    if vs == [] then 0 else Capacity(vs[..|vs| - 1]) + vs[|vs| - 1].len
  }

  ghost function Run(at: nat, len: nat): (r: seq<nat>)
    ensures |r| == len && forall k :: 0 <= k < len ==> r[k] == at + k
  {
    seq(len, k requires 0 <= k < len => at + k)
  }

  lemma InRun(at: nat, len: nat, a: nat)
    ensures a in Run(at, len) <==> at <= a < at + len
  {
    if at <= a < at + len {
      assert Run(at, len)[a - at] == a;
    }
  }

  lemma NotInRun(addrs: seq<nat>, at: nat, len: nat, k: nat)
    requires Distinct(addrs + Run(at, len)) && k < |addrs|
    ensures !(at <= addrs[k] < at + len)
  {
    var all := addrs + Run(at, len);
    forall i | 0 <= i < len ensures Run(at, len)[i] != addrs[k] {
      assert all[k] == addrs[k] && all[|addrs| + i] == Run(at, len)[i];
    }
    InRun(at, len, addrs[k]);
  }

  /** The addresses the vectors name, in order. */
  ghost function Addresses(vs: seq<Iovec>): (r: seq<nat>)
    ensures |r| == Capacity(vs)
  {
    if vs == [] then []
    else var last := |vs| - 1; Addresses(vs[..last]) + Run(vs[last].at, vs[last].len)
  }

  lemma NextAddresses(vs: seq<Iovec>, i: nat)
    requires i < |vs|
    ensures Addresses(vs[..i + 1]) == Addresses(vs[..i]) + Run(vs[i].at, vs[i].len)
    ensures Capacity(vs[..i + 1]) == Capacity(vs[..i]) + vs[i].len
  {
    assert vs[..i + 1][..i] == vs[..i];
  }

  lemma {:induction false} AddressesPrefix(vs: seq<Iovec>, i: nat)
    requires i <= |vs|
    ensures Addresses(vs[..i]) <= Addresses(vs) && Capacity(vs[..i]) <= Capacity(vs)
  {
    if i == |vs| {
      assert vs[..i] == vs;
    } else {
      var last := |vs| - 1;
      AddressesPrefix(vs[..last], i);
      assert vs[..last][..i] == vs[..i];
    }
  }

  /** No address is named twice, by the vectors read or by the table. */
  ghost predicate Apart(size: nat, vs: seq<Iovec>, table: nat) {
    forall k :: 0 <= k <= |vs| && NoFault(size, vs, k) ==> Distinct(Addresses(vs[..k]) + Run(table, 8 * |vs|))
  }

  /** The first k vectors lie in memory. */
  ghost predicate NoFault(size: nat, vs: seq<Iovec>, k: nat) {
    k <= |vs| && forall j :: 0 <= j < k ==> !Faults(size, vs[j])
  }

  lemma {:induction false} AddressesInMemory(size: nat, vs: seq<Iovec>, i: nat)
    requires i <= |vs| && NoFault(size, vs, i)
    ensures forall k :: 0 <= k < |Addresses(vs[..i])| ==> Addresses(vs[..i])[k] < size
  {
    if i > 0 {
      AddressesInMemory(size, vs, i - 1);
      NextAddresses(vs, i - 1);
      assert !Faults(size, vs[i - 1]);
    }
  }

  /** Vectors that keep apart from their table leave room for it. */
  lemma CapacityFits(size: nat, vs: seq<Iovec>, i: nat, table: nat)
    requires i <= |vs| && NoFault(size, vs, i) && Apart(size, vs, table) && table + 8 * |vs| <= size
    ensures Capacity(vs[..i]) + 8 * |vs| <= size
  {
    var all := Addresses(vs[..i]) + Run(table, 8 * |vs|);
    assert Distinct(all);
    AddressesInMemory(size, vs, i);
    AtMostBelow(all, size);
  }

  // ----- scattering

  /** after is before with data laid out at the addresses, and nothing else changed. */
  ghost predicate Scattered(before: seq<byte>, after: seq<byte>, addrs: seq<nat>, data: seq<byte>) {
    && |after| == |before| && |addrs| == |data|
    && (forall k :: 0 <= k < |addrs| ==> addrs[k] < |after| && after[addrs[k]] == data[k])
    && forall a :: 0 <= a < |before| && a !in addrs ==> after[a] == before[a]
  }

  lemma ScatterMore(before: seq<byte>, mid: seq<byte>, addrs: seq<nat>, data: seq<byte>, at: nat, piece: seq<byte>)
    requires Scattered(before, mid, addrs, data) && at + |piece| <= |mid|
    requires Distinct(addrs + Run(at, |piece|))
    ensures Scattered(before, Written(mid, at, piece), addrs + Run(at, |piece|), data + piece)
  {
    var after, more := Written(mid, at, piece), addrs + Run(at, |piece|);
    forall k | 0 <= k < |more| ensures more[k] < |after| && after[more[k]] == (data + piece)[k] {
      if k < |addrs| {
        NotInRun(addrs, at, |piece|, k);
      }
    }
    forall a | 0 <= a < |before| && a !in more ensures after[a] == before[a] {
      assert a !in addrs && a !in Run(at, |piece|);
      InRun(at, |piece|, a);
    }
  }

  lemma DistinctPrefix(a: seq<nat>, b: seq<nat>)
    requires Distinct(a) && b <= a
    ensures Distinct(b)
  {
    forall i, j | 0 <= i < j < |b| ensures b[i] != b[j] {
      assert a[i] == b[i] && a[j] == b[j];
    }
  }

  /** Scattering away from a region leaves it alone. */
  lemma RegionKept(before: seq<byte>, after: seq<byte>, addrs: seq<nat>, data: seq<byte>, at: nat, len: nat)
    requires Scattered(before, after, addrs, data) && Distinct(addrs + Run(at, len)) && at + len <= |before|
    ensures after[at..at + len] == before[at..at + len]
  {
    var all := addrs + Run(at, len);
    forall a | at <= a < at + len ensures after[a] == before[a] {
      assert all[|addrs| + (a - at)] == a;
      forall k | 0 <= k < |addrs| ensures addrs[k] != a {
        assert all[k] == addrs[k];
      }
    }
  }

  // ----- one vectored read

  /** The first k vectors lie in memory and are read in full. */
  ghost predicate ReadInFull(f: File, off: int, size: nat, vs: seq<Iovec>, k: nat) {
    NoFault(size, vs, k) && forall j :: 0 <= j < k ==> FullAt(f, off, vs, j)
  }

  ghost predicate FullAt(f: File, off: int, vs: seq<Iovec>, j: nat) {
    j < |vs| && (vs[j].len > 0 ==> f.answer(off + Capacity(vs[..j]), vs[j].len) == Answer(vs[j].len, None))
  }

  /** Vector k, the first not read in full, decides the outcome; with no such
      vector all are full. */
  ghost predicate Decides(f: File, off: int, size: nat, vs: seq<Iovec>, k: nat, r: Result<nat, Errno>) {
    && ReadInFull(f, off, size, vs, k)
    && if k == |vs| then r == Ok(Capacity(vs))
       else
         && vs[k].len > 0
         && if Faults(size, vs[k]) then r == Err(EFAULT)
            else
              var done := Capacity(vs[..k]); Stops(f.answer(off + done, vs[k].len), vs[k].len, done, r)
  }

  /** An answer that ends the call, done bytes after its start, with r. */
  ghost predicate Stops(a: Answer, len: nat, done: nat, r: Result<nat, Errno>) {
    match a.errno
    case Some(ENOSYS) => r == Err(EBADF)
    case Some(e) => r == Err(e)
    case None => a.n < len && r == Ok(done + a.n)
  }

  lemma DecidedBy(f: File, off: int, size: nat, vs: seq<Iovec>, k: nat, a: Answer, done: nat, r: Result<nat, Errno>)
    requires ReadInFull(f, off, size, vs, k) && k < |vs| && vs[k].len > 0 && !Faults(size, vs[k])
    requires done == Capacity(vs[..k]) && a == f.answer(off + done, vs[k].len) && Stops(a, vs[k].len, done, r)
    ensures Decides(f, off, size, vs, k, r)
  {
  }

  lemma DecidedByFault(f: File, off: int, size: nat, vs: seq<Iovec>, k: nat)
    requires ReadInFull(f, off, size, vs, k) && k < |vs| && Faults(size, vs[k])
    ensures Decides(f, off, size, vs, k, Err(EFAULT))
  {
  }

  /** Reads a file from an offset on, over several calls. */
  class Preader {
    const file: File
    var offset: int

    constructor (file: File, offset: int)
      ensures this.file == file && this.offset == offset
    {
      this.file, this.offset := file, offset;
    }

    /** Reads into memory at an address; nothing is asked of the file for no bytes. */
    method Read(mem: array<byte>, at: nat, len: nat) returns (n: nat, errno: Option<Errno>)
      requires FileOk(file) && at + len <= mem.Length
      modifies this`offset, mem
      ensures len == 0 ==> n == 0 && errno == None
      ensures len > 0 ==> Answer(n, errno) == file.answer(old(offset), len)
      ensures n <= len && offset == old(offset) + n && Holds(file, old(offset), n)
      ensures mem[..] == Written(old(mem[..]), at, Contiguous(file, old(offset), n))
    {
      if len == 0 {
        assert mem[..] == Written(mem[..], at, []);
        return 0, None;
      }
      var a := file.answer(offset, len);
      assert AnswerOk(file, offset, len, a);
      if a.n == 0 {
        assert mem[..] == Written(mem[..], at, []);
      } else {
        Write(mem, at, file.content[offset..offset + a.n]);
      }
      offset := offset + a.n;
      return a.n, a.errno;
    }
  }

  // ----- the call

  ghost predicate TableIn(size: nat, table: nat, count: nat) {
    8 * count < U32 && InMemory(size, table, 8 * count)
  }

  /** The first n addresses of the vectors hold the n bytes of the file from the
      offset on, as one read of n bytes would give them, and nothing else changed. */
  ghost predicate Delivered(before: seq<byte>, after: seq<byte>, vs: seq<Iovec>, f: File, off: int, n: nat) {
    && n <= Capacity(vs) && Holds(f, off, n)
    && Scattered(before, after, Addresses(vs)[..n], Contiguous(f, off, n))
  }

  /** The first i vectors are full, with the file's bytes from off on. */
  ghost predicate Filled(before: seq<byte>, now: seq<byte>, vs: seq<Iovec>, f: File, off: int, i: nat, done: nat) {
    && i <= |vs| && done == Capacity(vs[..i]) && Holds(f, off, done)
    && ReadInFull(f, off, |before|, vs, i)
    && Scattered(before, now, Addresses(vs[..i]), Contiguous(f, off, done))
  }

  lemma NoneFilled(before: seq<byte>, vs: seq<Iovec>, f: File, off: int)
    ensures Filled(before, before, vs, f, off, 0, 0)
  {
  }

  lemma AllFilled(before: seq<byte>, now: seq<byte>, vs: seq<Iovec>, f: File, off: int, done: nat)
    requires Filled(before, now, vs, f, off, |vs|, done)
    ensures Decides(f, off, |before|, vs, |vs|, Ok(done)) && Delivered(before, now, vs, f, off, done)
  {
    assert vs[..|vs|] == vs;
    assert Addresses(vs)[..done] == Addresses(vs);
  }

  lemma EmptyFilled(before: seq<byte>, now: seq<byte>, vs: seq<Iovec>, f: File, off: int, i: nat, done: nat)
    requires Filled(before, now, vs, f, off, i, done) && i < |vs| && vs[i].len == 0
    ensures Filled(before, now, vs, f, off, i + 1, done)
  {
    NextAddresses(vs, i);
    assert FullAt(f, off, vs, i);
  }

  /** Reading all of vector i fills it. */
  lemma OneMoreFilled(before: seq<byte>, mid: seq<byte>, now: seq<byte>, vs: seq<Iovec>,
                      f: File, off: int, i: nat, done: nat)
    requires Filled(before, mid, vs, f, off, i, done) && i < |vs| && NoFault(|before|, vs, i + 1)
    requires f.answer(off + done, vs[i].len) == Answer(vs[i].len, None)
    requires Holds(f, off, done + vs[i].len) && done + vs[i].len <= Capacity(vs[..i + 1])
    requires Scattered(before, now, Addresses(vs[..i + 1])[..done + vs[i].len], Contiguous(f, off, done + vs[i].len))
    ensures Filled(before, now, vs, f, off, i + 1, done + vs[i].len)
  {
    hide Scattered;
    NextAddresses(vs, i);
    assert FullAt(f, off, vs, i);
    assert Addresses(vs[..i + 1])[..done + vs[i].len] == Addresses(vs[..i + 1]);
  }

  /** A short read into vector i ends the call with what was delivered. */
  lemma ShortDelivers(before: seq<byte>, now: seq<byte>, vs: seq<Iovec>, f: File, off: int, i: nat, n: nat)
    requires i < |vs| && n <= Capacity(vs[..i + 1]) && Holds(f, off, n)
    requires Scattered(before, now, Addresses(vs[..i + 1])[..n], Contiguous(f, off, n))
    ensures Delivered(before, now, vs, f, off, n)
  {
    AddressesPrefix(vs, i + 1);
    assert Addresses(vs)[..n] == Addresses(vs[..i + 1])[..n];
  }

  /** How reading into a vector ends the call, if it does. */
  function EndsWith(a: Answer, len: nat, nread: nat): Option<Result<nat, Errno>> {
    if a.errno == Some(ENOSYS) then Some(Err(EBADF))
    else if a.errno.Some? then Some(Err(a.errno.value))
    else if a.n < len then Some(Ok(nread))
    else None
  }

  /** What reading into one vector does, wherever it lies. */
  ghost predicate StepIs(f: File, off: int, off': int, before: seq<byte>, after: seq<byte>, v: Iovec,
                         nread: nat, done: Option<Result<nat, Errno>>, nread': nat)
  {
    if v.len == 0 then done == None && nread' == nread && off' == off && after == before
    else if Faults(|before|, v) then done == Some(Err(EFAULT)) && off' == off && after == before
    else
      var a := f.answer(off, v.len);
      && a.n <= v.len && Holds(f, off, a.n) && off' == off + a.n
      && after == Written(before, v.at, Contiguous(f, off, a.n))
      && nread' == (nread + a.n) % U32 && done == EndsWith(a, v.len, nread')
  }

  /** Reads into a vector. The count is kept in 32 bits. */
  method ReadInto(mem: array<byte>, v: Iovec, nread: nat, p: Preader)
    returns (done: Option<Result<nat, Errno>>, nread': nat)
    requires FileOk(p.file)
    modifies mem, p
    ensures StepIs(p.file, old(p.offset), p.offset, old(mem[..]), mem[..], v, nread, done, nread')
  {
    hide FileOk, Written, Contiguous;
    if v.len == 0 {
      return None, nread;
    }
    if !InMemory(mem.Length, v.at, v.len) {
      return Some(Err(EFAULT)), nread;
    }
    var n, errno := p.Read(mem, v.at, v.len);
    nread' := (nread + n) % U32;
    if errno == Some(ENOSYS) {
      return Some(Err(EBADF)), nread';
    } else if errno.Some? {
      return Some(Err(errno.value)), nread';
    } else if n < v.len {
      return Some(Ok(nread')), nread';
    }
    done := None;
  }

  /** Reading into vector i, when the vectors are apart, fills it, or decides the
      call with what is delivered. */
  lemma StepFills(before: seq<byte>, mid: seq<byte>, after: seq<byte>, vs: seq<Iovec>, table: nat, f: File, off: int, off': int,
                  i: nat, nread: nat, done: Option<Result<nat, Errno>>, nread': nat)
    requires |before| == |mid| <= U32 && Apart(|before|, vs, table) && table + 8 * |vs| <= |before|
    requires i < |vs| && Filled(before, mid, vs, f, off, i, nread)
    requires StepIs(f, off + nread, off', mid, after, vs[i], nread, done, nread')
    ensures done.None? ==> Filled(before, after, vs, f, off, i + 1, nread') && off' == off + nread'
    ensures done.Some? ==>
              && Decides(f, off, |before|, vs, i, done.value)
              && (done.value.Ok? ==> Delivered(before, after, vs, f, off, done.value.value))
  {
    hide Scattered, Apart, ReadInFull, Delivered, Addresses, Capacity, Filled, NoFault, Decides, Written, Contiguous;
    var v := vs[i];
    InFullSoFar(before, mid, vs, f, off, i, nread);
    if v.len == 0 {
      EmptyFilled(before, mid, vs, f, off, i, nread);
    } else if Faults(|before|, v) {
      DecidedByFault(f, off, |before|, vs, i);
    } else {
      var a := f.answer(off + nread, v.len);
      CapacityFits(|before|, vs, i + 1, table);
      Piece(before, mid, vs, i, table, f, off, nread, a.n);
      if done.Some? {
        DecidedBy(f, off, |before|, vs, i, a, nread, done.value);
        if done.value.Ok? {
          ShortDelivers(before, after, vs, f, off, i, nread');
        }
      } else {
        OneMoreFilled(before, mid, after, vs, f, off, i, nread);
      }
    }
  }

  /** What reading from vector i on comes to, the table read as it then is: for
      vectors that may overlap one another and the table. */
  ghost function ReadsFrom(f: File, off: int, mem: seq<byte>, table: nat, count: nat, i: nat, nread: nat)
    : (r: (Result<nat, Errno>, seq<byte>))
    requires FileOk(f) && table + 8 * count <= |mem| && i <= count
    ensures |r.1| == |mem|
    decreases count - i
  {
    if i == count then (Ok(nread), mem)
    else
      var v := IovecAt(mem, table + 8 * i);
      if v.len == 0 then ReadsFrom(f, off, mem, table, count, i + 1, nread)
      else if Faults(|mem|, v) then (Err(EFAULT), mem)
      else
        var a := f.answer(off, v.len);
        assert AnswerOk(f, off, v.len, a);
        var after, nread' := Written(mem, v.at, Contiguous(f, off, a.n)), (nread + a.n) % U32;
        var done := EndsWith(a, v.len, nread');
        if done.Some? then (done.value, after)
        else ReadsFrom(f, off + a.n, after, table, count, i + 1, nread')
  }

  lemma ReadsNext(f: File, off: int, off': int, mem: seq<byte>, after: seq<byte>, table: nat, count: nat, i: nat,
                  nread: nat, done: Option<Result<nat, Errno>>, nread': nat)
    requires FileOk(f) && table + 8 * count <= |mem| && i < count
    requires StepIs(f, off, off', mem, after, IovecAt(mem, table + 8 * i), nread, done, nread')
    ensures |after| == |mem|
    ensures ReadsFrom(f, off, mem, table, count, i, nread) ==
            if done.Some? then (done.value, after) else ReadsFrom(f, off', after, table, count, i + 1, nread')
  {
    hide Written, IovecAt;
    var v := IovecAt(mem, table + 8 * i);
    assert AnswerOk(f, off, v.len, f.answer(off, v.len));
  }

  lemma InFullSoFar(before: seq<byte>, now: seq<byte>, vs: seq<Iovec>, f: File, off: int, i: nat, done: nat)
    requires Filled(before, now, vs, f, off, i, done) && i < |vs|
    ensures done == Capacity(vs[..i])
    ensures ReadInFull(f, off, |before|, vs, i) && (NoFault(|before|, vs, i + 1) <==> !Faults(|before|, vs[i]))
  {
  }

  /** Fills the vectors in order until one is not filled. What it does is said for
      all vectors; that it is a scattered read, for those that keep apart. */
  method Readv(mem: array<byte>, table: nat, count: nat, p: Preader) returns (r: Result<nat, Errno>)
    requires mem.Length <= U32 && FileOk(p.file)
    modifies mem, p
    ensures !TableIn(mem.Length, table, count) ==> r == Err(EFAULT) && mem[..] == old(mem[..])
    ensures TableIn(mem.Length, table, count) ==>
              (r, mem[..]) == ReadsFrom(p.file, old(p.offset), old(mem[..]), table, count, 0, 0)
    ensures r.Ok? ==> r.value < U32
    ensures TableIn(mem.Length, table, count) && Apart(mem.Length, old(IovecsAt(mem[..], table, count)), table) ==>
              var vs := old(IovecsAt(mem[..], table, count));
              && (exists k :: Decides(p.file, old(p.offset), mem.Length, vs, k, r))
              && (r.Ok? ==> Delivered(old(mem[..]), mem[..], vs, p.file, old(p.offset), r.value))
  {
    hide Filled, Decides, Delivered, Apart, FileOk, StepIs, ReadsFrom;
    var tableSize := count * 8;
    if tableSize > 0xffff_ffff || !InMemory(mem.Length, table, tableSize) {
      return Err(EFAULT);
    }
    ghost var vs, off, i := IovecsAt(mem[..], table, count), p.offset, 0;
    ghost var apart, whole := Apart(mem.Length, vs, table), ReadsFrom(p.file, off, mem[..], table, count, 0, 0);
    var nread: nat, pos: nat := 0, 0;
    NoneFilled(mem[..], vs, p.file, off);
    while pos < tableSize
      invariant pos == 8 * i && 0 <= i <= count && nread < U32
      invariant ReadsFrom(p.file, p.offset, mem[..], table, count, i, nread) == whole
      invariant apart ==> Filled(old(mem[..]), mem[..], vs, p.file, off, i, nread) && p.offset == off + nread
    {
      ghost var mid, at, before := mem[..], p.offset, nread;
      if apart {
        TableKept(old(mem[..]), mid, vs, i, table, p.file, off, nread);
      }
      var v := IovecAt(mem[..], table + pos);
      var done;
      done, nread := ReadInto(mem, v, nread, p);
      ReadsNext(p.file, at, p.offset, mid, mem[..], table, count, i, before, done, nread);
      CountStays(p.file, at, p.offset, mid, mem[..], v, before, done, nread);
      if apart {
        StepFills(old(mem[..]), mid, mem[..], vs, table, p.file, off, p.offset, i, before, done, nread);
      }
      if done.Some? {
        return done.value;
      }
      pos, i := pos + 8, i + 1;
    }
    AllRead(p.file, p.offset, mem[..], table, count, nread);
    if apart {
      AllFilled(old(mem[..]), mem[..], vs, p.file, off, nread);
    }
    return Ok(nread);
  }

  lemma CountStays(f: File, off: int, off': int, before: seq<byte>, after: seq<byte>, v: Iovec,
                   nread: nat, done: Option<Result<nat, Errno>>, nread': nat)
    requires StepIs(f, off, off', before, after, v, nread, done, nread') && nread < U32
    ensures done.None? ==> nread' < U32
    ensures done.Some? && done.value.Ok? ==> done.value.value < U32
  {
  }

  lemma AllRead(f: File, off: int, mem: seq<byte>, table: nat, count: nat, nread: nat)
    requires FileOk(f) && table + 8 * count <= |mem|
    ensures ReadsFrom(f, off, mem, table, count, count, nread) == (Ok(nread), mem)
  {
  }

  /** What has been delivered leaves the table as it was. */
  lemma TableKept(before: seq<byte>, after: seq<byte>, vs: seq<Iovec>, i: nat, table: nat,
                  f: File, off: int, done: nat)
    requires table + 8 * |vs| <= |before| && vs == IovecsAt(before, table, |vs|) && Apart(|before|, vs, table)
    requires Filled(before, after, vs, f, off, i, done)
    ensures |after| == |before| && vs == IovecsAt(after, table, |vs|)
  {
    RegionKept(before, after, Addresses(vs[..i]), Contiguous(f, off, done), table, 8 * |vs|);
    forall j | 0 <= j < |vs| ensures vs[j] == IovecAt(after, table + 8 * j) {
      RecordKept(before, after, table, 8 * |vs|, 8 * j);
    }
  }

  lemma RecordKept(before: seq<byte>, after: seq<byte>, at: nat, len: nat, pos: nat)
    requires |after| == |before| && at + len <= |before| && pos + 8 <= len
    requires after[at..at + len] == before[at..at + len]
    ensures IovecAt(after, at + pos) == IovecAt(before, at + pos)
  {
    forall a | at <= a < at + len ensures after[a] == before[a] {
      assert after[a] == after[at..at + len][a - at] && before[a] == before[at..at + len][a - at];
    }
    assert after[at + pos..at + pos + 4] == before[at + pos..at + pos + 4];
    assert after[at + pos + 4..at + pos + 8] == before[at + pos + 4..at + pos + 8];
  }

  /** One more piece, read into vector i, carries the delivery on. */
  lemma Piece(before: seq<byte>, mid: seq<byte>, vs: seq<Iovec>, i: nat, table: nat,
              f: File, off: int, done: nat, n: nat)
    requires i < |vs| && NoFault(|before|, vs, i + 1) && Apart(|before|, vs, table)
    requires Filled(before, mid, vs, f, off, i, done)
    requires |mid| == |before| && n <= vs[i].len && vs[i].at + vs[i].len <= |before| && Holds(f, off + done, n)
    ensures Holds(f, off, done + n)
    ensures done + n <= Capacity(vs[..i + 1]) == done + vs[i].len
    ensures Scattered(before, Written(mid, vs[i].at, Contiguous(f, off + done, n)),
                      Addresses(vs[..i + 1])[..done + n], Contiguous(f, off, done + n))
  {
    hide Scattered;
    var addrs, at := Addresses(vs[..i]), vs[i].at;
    NextAddresses(vs, i);
    ContiguousAppend(f, off, done, n);
    var more := addrs + Run(at, n);
    assert more == Addresses(vs[..i + 1])[..done + n];
    DistinctPrefix(Addresses(vs[..i + 1]) + Run(table, 8 * |vs|), more);
    ScatterMore(before, mid, addrs, Contiguous(f, off, done), at, Contiguous(f, off + done, n));
  }

  lemma ContiguousAppend(f: File, off: int, m: nat, n: nat)
    requires Holds(f, off, m) && Holds(f, off + m, n)
    ensures Holds(f, off, m + n) && Contiguous(f, off, m) + Contiguous(f, off + m, n) == Contiguous(f, off, m + n)
  {
    assert m > 0 && n > 0 ==> f.content[off..off + m] + f.content[off + m..off + m + n] == f.content[off..off + m + n];
  }

  // ----- a file that reads all it can

  /** How much of the file there is from an offset on. */
  ghost function Left(f: File, off: nat): nat {
    if off <= |f.content| then |f.content| - off else 0
  }

  /** Every read gives as many bytes as there are, and no error. */
  ghost predicate Plain(f: File) {
    forall off: nat, len: nat :: PlainAt(f, off, len, f.answer(off, len))
  }

  ghost predicate PlainAt(f: File, off: nat, len: nat, a: Answer) {
    a == Answer(Min(len, Left(f, off)), None)
  }

  /** Vector j is not in memory though the bytes before it do not use the file up. */
  ghost predicate ReachedFault(f: File, off: nat, size: nat, vs: seq<Iovec>, j: nat) {
    j < |vs| && Faults(size, vs[j]) && Capacity(vs[..j]) <= Left(f, off)
  }

  lemma CapacityGrows(vs: seq<Iovec>, i: nat, j: nat)
    requires i <= j <= |vs|
    ensures Capacity(vs[..i]) <= Capacity(vs[..j])
  {
    AddressesPrefix(vs[..j], i);
    assert vs[..j][..i] == vs[..i];
  }

  lemma {:induction false} FullFits(f: File, off: nat, size: nat, vs: seq<Iovec>, k: nat)
    requires Plain(f) && ReadInFull(f, off, size, vs, k) && k <= |vs|
    ensures Capacity(vs[..k]) <= Left(f, off)
  {
    if k > 0 {
      FullFits(f, off, size, vs, k - 1);
      NextAddresses(vs, k - 1);
      assert FullAt(f, off, vs, k - 1);
      var at: nat := off + Capacity(vs[..k - 1]);
      assert PlainAt(f, at, vs[k - 1].len, f.answer(at, vs[k - 1].len));
    }
  }

  /** Scattered over any vectors, the read counts what one read of their whole
      capacity counts, unless it reaches a vector that is not in memory. */
  lemma ScatteredIsOneRead(f: File, off: nat, size: nat, vs: seq<Iovec>, k: nat, r: Result<nat, Errno>)
    requires Plain(f) && Decides(f, off, size, vs, k, r)
    ensures r.Ok? ==> Answer(r.value, None) == f.answer(off, Capacity(vs))
    ensures r.Err? ==> r.error == EFAULT
    ensures r.Err? <==> exists j :: ReachedFault(f, off, size, vs, j)
  {
    FullFits(f, off, size, vs, k);
    assert PlainAt(f, off, Capacity(vs), f.answer(off, Capacity(vs)));
    if k == |vs| {
      assert vs[..k] == vs;
    } else {
      var at: nat := off + Capacity(vs[..k]);
      assert PlainAt(f, at, vs[k].len, f.answer(at, vs[k].len));
      NextAddresses(vs, k);
      CapacityGrows(vs, k + 1, |vs|);
      assert vs[..|vs|] == vs;
      if r.Ok? {
        forall j | k < j < |vs| ensures !ReachedFault(f, off, size, vs, j) {
          CapacityGrows(vs, k + 1, j);
        }
      } else {
        assert ReachedFault(f, off, size, vs, k);
      }
    }
  }

  /** fd_pread: a scattered read at an offset, the count stored for the guest. */
  method FdPread(mem: array<byte>, file: Option<File>, table: nat, count: nat, offset: int, resultNread: nat)
    returns (r: Result<(), Errno>)
    requires mem.Length <= U32 && (file.Some? ==> FileOk(file.value))
    modifies mem
    ensures file.None? ==> r == Err(EBADF)
    ensures file.Some? && !TableIn(mem.Length, table, count) ==> r == Err(EFAULT)
    ensures file.Some? && TableIn(mem.Length, table, count) ==>
              var (nread, after) := ReadsFrom(file.value, offset, old(mem[..]), table, count, 0, 0);
              && (r.Ok? <==> nread.Ok? && InMemory(mem.Length, resultNread, 4))
              && (r.Err? ==> r.error == if nread.Err? then nread.error else EFAULT)
              && (r.Ok? ==> mem[..] == Written(after, resultNread, LeBytes(nread.value, 4)))
              && forall vs :: |vs| == count && Lists(old(mem[..]), table, vs) && Apart(mem.Length, vs, table) ==>
                   PreadGives(old(mem[..]), after, vs, file.value, offset, nread)
  {
    hide Decides, Delivered, Apart, FileOk, ReadsFrom, Written, LeBytes, Lists;
    forall vs | |vs| == count && Lists(mem[..], table, vs) ensures table + 8 * count <= mem.Length && IovecsAt(mem[..], table, count) == vs {
      ListsFit(mem[..], table, vs);
      ListedAreRead(mem[..], table, vs);
    }
    if file.None? {
      return Err(EBADF);
    }
    var p := new Preader(file.value, offset);
    var nread := Readv(mem, table, count, p);
    if nread.Err? {
      return Err(nread.error);
    }
    if !InMemory(mem.Length, resultNread, 4) {
      return Err(EFAULT);
    }
    Write(mem, resultNread, LeBytes(nread.value, 4));
    r := Ok(());
  }

  /** The read is decided by the first vector not filled, and what it counts is
      delivered. */
  ghost predicate PreadGives(before: seq<byte>, after: seq<byte>, vs: seq<Iovec>, f: File, off: int, r: Result<nat, Errno>) {
    && (exists k :: Decides(f, off, |before|, vs, k, r))
    && (r.Ok? ==> Delivered(before, after, vs, f, off, r.value))
  }
}
