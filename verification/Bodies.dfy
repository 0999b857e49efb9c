/** Handing a guest a message body piece by piece (readBody in
    imports/http_handler/middleware.go). */
module Bodies {
  import opened Results
  import opened Bytes

  /** What one read of a body reports: the bytes read, and whether the body has
      ended or the read failed. */
  datatype Chunk = Chunk(n: nat, eof: bool, failed: bool)

  /** A body, and what a read of len bytes at a position reports. */
  datatype Source = Source(content: seq<byte>, answer: (nat, nat) -> Chunk)

  /** Every read that is asked for something gives something, or ends. Only the
      end of the body is reported as its end. */
  ghost predicate SourceOk(s: Source) {
    forall pos: nat, len: nat :: ChunkOk(s, pos, len, s.answer(pos, len))
  }

  ghost predicate ChunkOk(s: Source, pos: nat, len: nat, c: Chunk) {
    pos <= |s.content| && len > 0 ==>
      && c.n <= len && pos + c.n <= |s.content|
      && (c.eof ==> pos + c.n == |s.content|) && (c.n > 0 || c.eof || c.failed)
  }

  /** What filling len bytes comes to: how many there are, and how it ended. */
  ghost function Fill(s: Source, pos: nat, len: nat): (c: Chunk)
    requires SourceOk(s) && pos <= |s.content|
    ensures c.n <= len && pos + c.n <= |s.content|
    ensures c.eof ==> pos + c.n == |s.content|
    ensures !c.eof && !c.failed ==> c.n == len
    decreases len
  {
    if len == 0 then Chunk(0, false, false)
    else
      var c := s.answer(pos, len);
      assert ChunkOk(s, pos, len, c);
      if c.eof || c.failed then c
      else
        var rest := Fill(s, pos + c.n, len - c.n);
        Chunk(c.n + rest.n, rest.eof, rest.failed)
  }

  /** after is before with the body's bytes from a up to b laid out at an address. */
  ghost predicate Copied(before: seq<byte>, after: seq<byte>, at: nat, s: Source, a: nat, b: nat) {
    a <= b <= |s.content| && at + (b - a) <= |before| && after == Written(before, at, s.content[a..b])
  }

  class BodyReader {
    const source: Source
    var pos: nat

    constructor (source: Source)
      ensures this.source == source && pos == 0
    {
      this.source, pos := source, 0;
    }

    method Read(mem: array<byte>, at: nat, len: nat) returns (c: Chunk)
      requires SourceOk(source) && pos <= |source.content| && len > 0 && at + len <= mem.Length
      modifies this`pos, mem
      ensures c == source.answer(old(pos), len) && ChunkOk(source, old(pos), len, c)
      ensures pos == old(pos) + c.n <= |source.content|
      ensures Copied(old(mem[..]), mem[..], at, source, old(pos), pos)
    {
      c := source.answer(pos, len);
      assert ChunkOk(source, pos, len, c);
      Write(mem, at, source.content[pos..pos + c.n]);
      pos := pos + c.n;
    }
  }

  const EOF_BIT: nat := 0x1_0000_0000

  /** Fills the guest's buffer from the body: how much of it, and in the upper
      word whether the body has ended. None is a failure, which ends the guest. */
  method ReadBody(mem: array<byte>, buf: nat, bufLimit: nat, r: BodyReader) returns (eofLen: Option<nat>)
    requires SourceOk(r.source) && r.pos <= |r.source.content| && bufLimit < U32
    modifies r`pos, mem
    ensures r.pos <= |r.source.content|
    ensures var c := Fill(r.source, old(r.pos), bufLimit);
            && (eofLen.Some? <==> bufLimit > 0 && InMemory(mem.Length, buf, bufLimit) && (c.eof || !c.failed))
            && (eofLen.Some? ==>
                  && eofLen.value == c.n + (if c.eof then EOF_BIT else 0)
                  && r.pos == old(r.pos) + c.n
                  && Copied(old(mem[..]), mem[..], buf, r.source, old(r.pos), r.pos))
    // The lower word says how much was read, the upper one whether that was the end.
    ensures eofLen.Some? ==>
              && r.pos == old(r.pos) + eofLen.value % 0x1_0000_0000
              && eofLen.value / 0x1_0000_0000 <= 1
              && (eofLen.value / 0x1_0000_0000 == 1 ==> r.pos == |r.source.content|)
              && (eofLen.value / 0x1_0000_0000 == 0 ==> r.pos == old(r.pos) + bufLimit)
  {
    if bufLimit == 0 || !InMemory(mem.Length, buf, bufLimit) {
      return None;
    }
    var c := FillBuffer(mem, buf, bufLimit, r);
    if c.eof {
      return Some(EOF_BIT + c.n);
    }
    return if c.failed then None else Some(c.n);
  }

  /** Reads until the buffer is full, or the body ends or fails. */
  method FillBuffer(mem: array<byte>, buf: nat, bufLimit: nat, r: BodyReader) returns (c: Chunk)
    requires SourceOk(r.source) && r.pos <= |r.source.content| && buf + bufLimit <= mem.Length
    modifies r`pos, mem
    ensures c == Fill(r.source, old(r.pos), bufLimit) && r.pos == old(r.pos) + c.n <= |r.source.content|
    ensures Copied(old(mem[..]), mem[..], buf, r.source, old(r.pos), r.pos)
  {
    hide Fill, Written, SourceOk, ChunkOk, Copied;
    NothingCopied(mem[..], buf, r.source, r.pos);
    ghost var whole := Fill(r.source, r.pos, bufLimit);
    var n: nat, end := 0, Chunk(0, false, false);
    StartFilling(r.source, r.pos, bufLimit);
    hide Filling;
    while n < bufLimit && !end.eof && !end.failed
      invariant n <= bufLimit && r.pos == old(r.pos) + n <= |r.source.content|
      invariant Copied(old(mem[..]), mem[..], buf, r.source, old(r.pos), r.pos)
      invariant Filling(r.source, r.pos, bufLimit - n, whole, n, end)
      decreases !end.eof && !end.failed, bufLimit - n
    {
      ghost var from, before := r.pos, mem[..];
      FillMore(r.source, r.pos, bufLimit - n, whole, n, end);
      end := r.Read(mem, buf + n, bufLimit - n);
      CopiedOn(old(mem[..]), before, mem[..], buf, r.source, old(r.pos), from, r.pos);
      n := n + end.n;
    }
    EndFilling(r.source, r.pos, bufLimit - n, whole, n, end);
    c := Chunk(n, end.eof, end.failed);
  }

  lemma StartFilling(s: Source, pos: nat, len: nat)
    requires SourceOk(s) && pos <= |s.content|
    ensures Filling(s, pos, len, Fill(s, pos, len), 0, Chunk(0, false, false))
  {
  }

  lemma EndFilling(s: Source, pos: nat, len: nat, whole: Chunk, n: nat, end: Chunk)
    requires SourceOk(s) && pos <= |s.content| && Filling(s, pos, len, whole, n, end)
    requires len == 0 || end.eof || end.failed
    ensures whole == Chunk(n, end.eof, end.failed)
  {
  }

  /** How filling len more bytes goes on from n filled, or that it has ended. */
  ghost predicate Filling(s: Source, pos: nat, len: nat, whole: Chunk, n: nat, end: Chunk)
    requires SourceOk(s) && pos <= |s.content|
  {
    if end.eof || end.failed then whole == Chunk(n, end.eof, end.failed)
    else var rest := Fill(s, pos, len); whole == Chunk(n + rest.n, rest.eof, rest.failed)
  }

  lemma FillMore(s: Source, pos: nat, len: nat, whole: Chunk, n: nat, end: Chunk)
    requires SourceOk(s) && pos <= |s.content| && len > 0
    requires Filling(s, pos, len, whole, n, end) && !end.eof && !end.failed
    ensures var c := s.answer(pos, len);
            ChunkOk(s, pos, len, c) && c.n <= len && pos + c.n <= |s.content|
            && (c.n > 0 || c.eof || c.failed) && Filling(s, pos + c.n, len - c.n, whole, n + c.n, c)
  {
    assert ChunkOk(s, pos, len, s.answer(pos, len));
  }

  lemma NothingCopied(mem: seq<byte>, at: nat, s: Source, pos: nat)
    requires at <= |mem| && pos <= |s.content|
    ensures Copied(mem, mem, at, s, pos, pos)
  {
    NothingWritten(mem, at);
    assert s.content[pos..pos] == [];
  }

  lemma CopiedOn(m0: seq<byte>, m1: seq<byte>, m2: seq<byte>, at: nat, s: Source, a: nat, b: nat, c: nat)
    requires Copied(m0, m1, at, s, a, b) && Copied(m1, m2, at + (b - a), s, b, c)
    ensures Copied(m0, m2, at, s, a, c)
  {
    hide Written;
    WriteMore(m0, at, s.content[a..b], s.content[b..c]);
    assert s.content[a..b] + s.content[b..c] == s.content[a..c];
  }

  /** What a guest gets by reading into a buffer until it is told the body has
      ended; nothing when a read fails. */
  ghost function ReadAll(s: Source, pos: nat, bufLimit: nat): Option<seq<byte>>
    requires SourceOk(s) && pos <= |s.content| && bufLimit > 0
    decreases |s.content| - pos
  {
    var c := Fill(s, pos, bufLimit);
    var got := s.content[pos..pos + c.n];
    if c.eof then Some(got)
    else if c.failed then None
    else
      var rest := ReadAll(s, pos + c.n, bufLimit);
      if rest.None? then None else Some(got + rest.value)
  }

  /** A guest that reads to the end gets the whole body, whatever pieces it comes
      in and however small the buffer. */
  lemma {:induction false} ReadsWholeBody(s: Source, pos: nat, bufLimit: nat)
    requires SourceOk(s) && pos <= |s.content| && bufLimit > 0
    ensures var got := ReadAll(s, pos, bufLimit); got.Some? ==> got.value == s.content[pos..]
    ensures (forall p: nat, len: nat :: !s.answer(p, len).failed) ==> ReadAll(s, pos, bufLimit).Some?
    decreases |s.content| - pos
  {
    var c := Fill(s, pos, bufLimit);
    FailsOnlyIfTold(s, pos, bufLimit);
    if !c.eof && !c.failed {
      ReadsWholeBody(s, pos + c.n, bufLimit);
      assert s.content[pos..pos + c.n] + s.content[pos + c.n..] == s.content[pos..];
    }
  }

  lemma {:induction false} FailsOnlyIfTold(s: Source, pos: nat, len: nat)
    requires SourceOk(s) && pos <= |s.content|
    ensures (forall p: nat, n: nat :: !s.answer(p, n).failed) ==> !Fill(s, pos, len).failed
    decreases len
  {
    if len > 0 {
      var c := s.answer(pos, len);
      assert ChunkOk(s, pos, len, c);
      if !c.eof && !c.failed {
        FailsOnlyIfTold(s, pos + c.n, len - c.n);
      }
    }
  }
}
