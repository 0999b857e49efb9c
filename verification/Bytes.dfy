/** Guest memory bytes and little-endian numbers. */
module Bytes {
  type byte = x: int | 0 <= x < 256

  const U32: nat := 0x1_0000_0000
  const U64: nat := 0x1_0000_0000_0000_0000

  function Min(a: int, b: int): int {
    if a < b then a else b
  }

  function Pow256(n: nat): (p: nat)
    ensures p > 0
  {
    if n == 0 then 1 else 256 * Pow256(n - 1)
  }

  /** The n low bytes of v, lowest first. */
  function LeBytes(v: nat, n: nat): (b: seq<byte>)
    ensures |b| == n
    decreases n
  {
    if n == 0 then [] else [v % 256] + LeBytes(v / 256, n - 1)
  }

  function LeValue(b: seq<byte>): nat {
    if b == [] then 0 else b[0] + 256 * LeValue(b[1..])
  }

  lemma {:induction false} LeRoundTrip(v: nat, n: nat)
    requires v < Pow256(n)
    ensures LeValue(LeBytes(v, n)) == v
    decreases n
  {
    if n > 0 {
      assert v / 256 < Pow256(n - 1);
      LeRoundTrip(v / 256, n - 1);
      assert LeBytes(v, n)[1..] == LeBytes(v / 256, n - 1);
    }
  }

  /** The lowest byte comes first. */
  lemma LeValueOf4(a: byte, b: byte, c: byte, d: byte)
    ensures LeValue([a, b]) == a + 0x100 * b
    ensures LeValue([a, b, c, d]) == a + 0x100 * b + 0x1_0000 * c + 0x100_0000 * d
  {
    assert [d][1..] == [] && [c, d][1..] == [d] && [b, c, d][1..] == [c, d] && [a, b, c, d][1..] == [b, c, d];
    assert LeValue([d]) == d && LeValue([c, d]) == c + 0x100 * d && LeValue([b, c, d]) == b + 0x100 * c + 0x1_0000 * d;
    assert [b][1..] == [] && [a, b][1..] == [b] && LeValue([b]) == b;
  }

  /** Of more bytes, the first four are the lower word. */
  lemma {:induction false} LeValueConcat(a: seq<byte>, b: seq<byte>)
    ensures LeValue(a + b) == LeValue(a) + Pow256(|a|) * LeValue(b)
  {
    if a == [] {
      assert a + b == b;
    } else {
      LeValueConcat(a[1..], b);
      assert (a + b)[1..] == a[1..] + b;
      Regroup256(Pow256(|a| - 1), LeValue(b));
    }
  }

  lemma Regroup256(p: nat, v: nat)
    ensures 256 * (p * v) == (256 * p) * v
  {
  }

  lemma Pow256Widths()
    ensures Pow256(4) == U32 && Pow256(8) == U64
  {
    assert Pow256(2) == 65536;
    assert Pow256(4) == 256 * (256 * Pow256(2));
    assert Pow256(6) == 256 * (256 * Pow256(4));
    assert Pow256(8) == 256 * (256 * Pow256(6));
  }

  lemma LeRoundTrip32(v: nat)
    requires v < U32
    ensures LeValue(LeBytes(v, 4)) == v
  {
    Pow256Widths();
    LeRoundTrip(v, 4);
  }

  lemma LeRoundTrip64(v: nat)
    requires v < U64
    ensures LeValue(LeBytes(v, 8)) == v
  {
    Pow256Widths();
    LeRoundTrip(v, 8);
  }

  // ----- memory

  /** Whether [at, at + n) lies in a memory of the given size. */
  predicate InMemory(size: nat, at: nat, n: nat) {
    at + n <= size
  }

  ghost predicate Surround(mem: seq<byte>, before: seq<byte>, data: seq<byte>, after: seq<byte>) {
    mem == before + data + after
  }

  /** A region is in memory exactly when there are such bytes: some number before
      them, then these. */
  lemma InMemoryIff(mem: seq<byte>, at: nat, n: nat)
    ensures InMemory(|mem|, at, n) <==>
            exists before, data, after :: Surround(mem, before, data, after) && |before| == at && |data| == n
  {
    if InMemory(|mem|, at, n) {
      assert Surround(mem, mem[..at], mem[at..at + n], mem[at + n..]);
    }
  }

  /** Whether the n bytes at a and the m bytes at b have none in common. */
  ghost predicate Separate(a: nat, n: nat, b: nat, m: nat) {
    a + n <= b || b + m <= a
  }

  /** Memory with data written at an offset. */
  function Written(mem: seq<byte>, at: nat, data: seq<byte>): (r: seq<byte>)
    requires at + |data| <= |mem|
    ensures |r| == |mem|
  {
    mem[..at] + data + mem[at + |data|..]
  }

  lemma NothingWritten(mem: seq<byte>, at: nat)
    requires at <= |mem|
    ensures Written(mem, at, []) == mem
  {
  }

  lemma WriteMore(mem: seq<byte>, at: nat, a: seq<byte>, b: seq<byte>)
    requires at + |a| + |b| <= |mem|
    ensures Written(Written(mem, at, a), at + |a|, b) == Written(mem, at, a + b)
  {
  }

  /** Writes to separate regions do not disturb one another. */
  lemma WriteApart(mem: seq<byte>, at: nat, a: seq<byte>, to: nat, b: seq<byte>)
    requires at + |a| <= |mem| && to + |b| <= |mem| && Separate(at, |a|, to, |b|)
    ensures Written(Written(mem, at, a), to, b) == Written(Written(mem, to, b), at, a)
  {
  }

  lemma ReadWritten(mem: seq<byte>, at: nat, data: seq<byte>, k: nat, n: nat)
    requires at + |data| <= |mem| && k + n <= |data|
    ensures Written(mem, at, data)[at + k..at + k + n] == data[k..k + n]
  {
  }

  lemma ReadBack(mem: seq<byte>, at: nat, data: seq<byte>)
    requires at + |data| <= |mem|
    ensures Written(mem, at, data)[at..at + |data|] == data
  {
  }

  lemma ReadApart(mem: seq<byte>, at: nat, data: seq<byte>, from: nat, n: nat)
    requires at + |data| <= |mem| && from + n <= |mem| && Separate(from, n, at, |data|)
    ensures Written(mem, at, data)[from..from + n] == mem[from..from + n]
  {
    var w := Written(mem, at, data);
    forall k | from <= k < from + n ensures w[k] == mem[k] {
      assert k < at || k >= at + |data|;
    }
  }

  lemma ReadOver(mem: seq<byte>, at: nat, data: seq<byte>, n: nat)
    requires |data| <= n && at + n <= |mem|
    ensures Written(mem, at, data)[at..at + n] == data + mem[at..at + n][|data|..]
  {
    var r, s := Written(mem, at, data)[at..at + n], data + mem[at..at + n][|data|..];
    forall k | 0 <= k < n ensures r[k] == s[k] {
      assert r[k] == Written(mem, at, data)[at + k];
      if k >= |data| {
        assert s[k] == mem[at..at + n][k] == mem[at + k];
      }
    }
  }

  /** Writes data into memory at an offset. */
  method Write(mem: array<byte>, at: nat, data: seq<byte>)
    requires at + |data| <= mem.Length
    modifies mem
    ensures mem[..] == Written(old(mem[..]), at, data)
  {
    for k := 0 to |data|
      invariant forall j :: 0 <= j < mem.Length ==>
                              mem[j] == if at <= j < at + k then data[j - at] else old(mem[j])
    {
      mem[at + k] := data[k];
    }
    assert mem[..] == Written(old(mem[..]), at, data);
  }
}
