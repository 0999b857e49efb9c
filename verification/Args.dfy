/** Handing a guest its arguments or environment: a table of offsets and the
    NUL-terminated values they point to (imports/wasi_snapshot_preview1/wasi.go,
    internal/sys/sys.go). */
module Args {
  import opened Results
  import opened Bytes

  type Value = seq<byte>

  datatype CountError = TooMany | HasNul | TooLarge

  ghost predicate NulFree(values: seq<Value>) {
    forall k :: 0 <= k < |values| ==> 0 !in values[k]
  }

  /** The values one after another, each with a NUL. */
  ghost function Terminated(values: seq<Value>): (r: seq<byte>) {
    if values == [] then [] else Terminated(values[..|values| - 1]) + values[|values| - 1] + [0]
  }

  /** Where each value starts, for a string area at the given address. */
  ghost function Table(values: seq<Value>, area: nat): (r: seq<byte>)
    ensures |r| == 4 * |values|
  {
    if values == [] then []
    else
      var rest := values[..|values| - 1];
      Table(rest, area) + LeBytes(area + |Terminated(rest)|, 4)
  }

  lemma NextTerminated(values: seq<Value>, i: nat)
    requires i < |values|
    ensures Terminated(values[..i + 1]) == Terminated(values[..i]) + values[i] + [0]
  {
    assert values[..i + 1][..i] == values[..i];
  }

  lemma NextOffset(values: seq<Value>, i: nat, area: nat)
    requires i < |values|
    ensures Table(values[..i + 1], area) == Table(values[..i], area) + LeBytes(area + |Terminated(values[..i])|, 4)
  {
    hide Terminated, LeBytes;
    assert values[..i + 1][..i] == values[..i];
  }

  lemma Middle(all: seq<byte>, a: seq<byte>, b: seq<byte>)
    requires a + b <= all
    ensures all[|a|..|a| + |b|] == b
  {
    assert all[|a|..|a| + |b|] == (a + b)[|a|..];
  }

  lemma {:induction false} TerminatedPrefix(values: seq<Value>, i: nat)
    requires i <= |values|
    ensures Terminated(values[..i]) <= Terminated(values)
  {
    if i == |values| {
      assert values[..i] == values;
    } else {
      var rest := values[..|values| - 1];
      TerminatedPrefix(rest, i);
      assert rest[..i] == values[..i];
    }
  }

  lemma {:induction false} TablePrefix(values: seq<Value>, i: nat, area: nat)
    requires i <= |values|
    ensures Table(values[..i], area) <= Table(values, area)
  {
    if i == |values| {
      assert values[..i] == values;
    } else {
      var rest := values[..|values| - 1];
      TablePrefix(rest, i, area);
      assert rest[..i] == values[..i];
    }
  }

  lemma NoneTerminated()
    ensures Terminated([]) == []
  {
  }

  // ----- the size of the string area

  lemma {:induction false} LengthAtLeast(values: seq<Value>)
    ensures |Terminated(values)| >= |values|
  {
    if values != [] {
      LengthAtLeast(values[..|values| - 1]);
    }
  }

  method HoldsNul(value: Value) returns (nul: bool)
    ensures nul <==> 0 in value
  {
    for k := 0 to |value|
      invariant 0 !in value[..k]
    {
      if value[k] == 0 {
        return true;
      }
    }
    return false;
  }

  /** The size of the values with their terminators, within a limit; values that
      hold a NUL are refused. */
  method NullTerminatedByteCount(limit: nat, values: seq<Value>) returns (r: Result<nat, CountError>)
    ensures r.Ok? <==> NulFree(values) && |Terminated(values)| <= limit
    ensures r.Ok? ==> r.value == |Terminated(values)|
    ensures r == Err(HasNul) ==> !NulFree(values)
    ensures r == Err(TooLarge) || r == Err(TooMany) ==> |Terminated(values)| > limit
  {
    hide Terminated;
    LengthAtLeast(values);
    if |values| > limit {
      return Err(TooMany);
    }
    var size := |values|;
    assert values[..0] == [];
    NoneTerminated();
    for i := 0 to |values|
      invariant (forall k :: 0 <= k < i ==> 0 !in values[k]) && size <= limit
      invariant size == |Terminated(values[..i])| + |values| - i
    {
      NextTerminated(values, i);
      RestAtLeast(values, i + 1);
      var nul := HoldsNul(values[i]);
      if nul {
        return Err(HasNul);
      }
      if size + |values[i]| > limit {
        return Err(TooLarge);
      }
      size := size + |values[i]|;
    }
    assert values[..|values|] == values;
    return Ok(size);
  }

  lemma {:induction false} RestAtLeast(values: seq<Value>, i: nat)
    requires i <= |values|
    ensures |Terminated(values)| >= |Terminated(values[..i])| + |values| - i
  {
    if i == |values| {
      assert values[..i] == values;
    } else {
      var rest := values[..|values| - 1];
      RestAtLeast(rest, i);
      assert rest[..i] == values[..i];
    }
  }

  // ----- writing

  /** Memory with the first values and their offsets laid out. */
  ghost function LaidOut(mem: seq<byte>, values: seq<Value>, offsets: nat, area: nat): (r: seq<byte>)
    requires offsets + 4 * |values| <= |mem| && area + |Terminated(values)| <= |mem|
    ensures |r| == |mem|
  {
    Written(Written(mem, offsets, Table(values, area)), area, Terminated(values))
  }

  lemma NoneLaidOut(mem: seq<byte>, offsets: nat, area: nat)
    requires offsets <= |mem| && area <= |mem|
    ensures LaidOut(mem, [], offsets, area) == mem
  {
  }

  /** Laying out one more value: its offset, its bytes, its NUL. */
  lemma OneMoreLaidOut(mem: seq<byte>, values: seq<Value>, i: nat, offsets: nat, area: nat)
    requires i < |values| && offsets + 4 * |values| <= |mem| && area + |Terminated(values)| <= |mem|
    requires Separate(offsets, 4 * |values|, area, |Terminated(values)|)
    requires |Terminated(values[..i + 1])| <= |Terminated(values)|
    requires |Terminated(values[..i + 1])| == |Terminated(values[..i])| + |values[i]| + 1
    ensures var at := area + |Terminated(values[..i])|;
            var m1 := Written(LaidOut(mem, values[..i], offsets, area), offsets + 4 * i, LeBytes(at, 4));
            var m2 := Written(m1, at, values[i]);
            Written(m2, at + |values[i]|, [0]) == LaidOut(mem, values[..i + 1], offsets, area)
  {
    hide Written, Table, Terminated, LeBytes;
    NextTerminated(values, i);
    NextOffset(values, i, area);
    var table, data := Table(values[..i], area), Terminated(values[..i]);
    var le := LeBytes(area + |data|, 4);
    var m := Written(mem, offsets, table);
    WriteApart(m, area, data, offsets + 4 * i, le);
    WriteMore(mem, offsets, table, le);
    var m' := Written(mem, offsets, table + le);
    WriteMore(m', area, data, values[i]);
    WriteMore(m', area, data + values[i], [0]);
  }

  /** Memory with the values laid out one after another, each over what is there:
      for areas that may overlap. */
  ghost function OneByOne(mem: seq<byte>, values: seq<Value>, offsets: nat, area: nat): (r: seq<byte>)
    requires offsets + 4 * |values| <= |mem| && area + |Terminated(values)| <= |mem|
    ensures |r| == |mem|
  {
    if values == [] then mem
    else
      var i := |values| - 1;
      var at := area + |Terminated(values[..i])|;
      var offset := Written(OneByOne(mem, values[..i], offsets, area), offsets + 4 * i, LeBytes(at % U32, 4));
      Written(Written(offset, at, values[i]), at + |values[i]|, [0])
  }

  lemma NextOneByOne(mem: seq<byte>, values: seq<Value>, i: nat, offsets: nat, area: nat)
    requires i < |values| && offsets + 4 * |values| <= |mem| && area + |Terminated(values)| <= |mem|
    requires |Terminated(values[..i])| + |values[i]| + 1 == |Terminated(values[..i + 1])| <= |Terminated(values)|
    ensures var at := area + |Terminated(values[..i])|;
            var m1 := Written(OneByOne(mem, values[..i], offsets, area), offsets + 4 * i, LeBytes(at % U32, 4));
            var m2 := Written(m1, at, values[i]);
            Written(m2, at + |values[i]|, [0]) == OneByOne(mem, values[..i + 1], offsets, area)
  {
    hide Written, LeBytes;
    assert values[..i + 1][..i] == values[..i];
  }

  /** Areas that do not overlap end up holding the whole table and all values. */
  lemma {:induction false} OneByOneLaysOut(mem: seq<byte>, values: seq<Value>, i: nat, offsets: nat, area: nat)
    requires i <= |values| && |mem| <= U32
    requires offsets + 4 * |values| <= |mem| && area + |Terminated(values)| <= |mem|
    requires Separate(offsets, 4 * |values|, area, |Terminated(values)|)
    ensures |Terminated(values[..i])| <= |Terminated(values)|
    ensures OneByOne(mem, values[..i], offsets, area) == LaidOut(mem, values[..i], offsets, area)
  {
    hide Written, Terminated, LeBytes, LaidOut, OneByOne;
    TerminatedPrefix(values, i);
    if i == 0 {
      NoneTerminated();
      NoneLaidOut(mem, offsets, area);
      NoneOneByOne(mem, offsets, area);
    } else {
      NextTerminated(values, i - 1);
      OneByOneLaysOut(mem, values, i - 1, offsets, area);
      OneMoreLaidOut(mem, values, i - 1, offsets, area);
      NextOneByOne(mem, values, i - 1, offsets, area);
    }
  }

  lemma NoneOneByOne(mem: seq<byte>, offsets: nat, area: nat)
    requires offsets <= |mem| && area <= |mem|
    ensures Terminated([]) == [] && OneByOne(mem, [], offsets, area) == mem
  {
  }

  /** Panics is an index out of the table, whose size is kept in 32 bits. */
  datatype Outcome = Done | Fault | Panics

  /** Writes each value's offset and its NUL-terminated bytes. */
  method WriteOffsetsAndNullTerminatedValues(mem: array<byte>, values: seq<Value>, offsets: nat, area: nat, areaLen: nat)
    returns (r: Outcome)
    requires mem.Length <= U32 && areaLen == |Terminated(values)|
    modifies mem
    ensures r.Fault? <==> !InMemory(mem.Length, offsets, 4 * |values| % U32) || !InMemory(mem.Length, area, areaLen)
    ensures r.Fault? ==> mem[..] == old(mem[..])
    ensures r.Panics? <==> !r.Fault? && 4 * |values| >= U32
    ensures r.Done? ==> InMemory(mem.Length, offsets, 4 * |values|) && InMemory(mem.Length, area, areaLen)
    ensures r.Done? ==> mem[..] == OneByOne(old(mem[..]), values, offsets, area)
    ensures r.Done? && Separate(offsets, 4 * |values|, area, areaLen) ==> mem[..] == LaidOut(old(mem[..]), values, offsets, area)
  {
    hide LaidOut, OneByOne, Written, Table, Terminated, LeBytes;
    var offsetsLen := 4 * |values| % U32;
    if !InMemory(mem.Length, offsets, offsetsLen) || !InMemory(mem.Length, area, areaLen) {
      return Fault;
    }
    if offsetsLen < 4 * |values| {
      WriteUntilPanic(mem, values, offsets, offsetsLen, area, areaLen);
      return Panics;
    }
    WriteAll(mem, values, offsets, area);
    if Separate(offsets, 4 * |values|, area, areaLen) {
      OneByOneLaysOut(old(mem[..]), values, |values|, offsets, area);
      assert values[..|values|] == values;
    }
    return Done;
  }

  /** The loop over the values, when the table has room for all of them. */
  method WriteAll(mem: array<byte>, values: seq<Value>, offsets: nat, area: nat)
    requires offsets + 4 * |values| <= mem.Length && area + |Terminated(values)| <= mem.Length
    modifies mem
    ensures mem[..] == OneByOne(old(mem[..]), values, offsets, area)
  {
    hide OneByOne, Written, Terminated, LeBytes;
    var oI: nat, bI: nat := 0, 0;
    NoneOneByOne(mem[..], offsets, area);
    assert values[..0] == [];
    for i := 0 to |values|
      invariant oI == 4 * i && bI == |Terminated(values[..i])| <= |Terminated(values)|
      invariant mem[..] == OneByOne(old(mem[..]), values[..i], offsets, area)
    {
      NextTerminated(values, i);
      TerminatedPrefix(values, i + 1);
      NextOneByOne(old(mem[..]), values, i, offsets, area);
      Write(mem, offsets + oI, LeBytes((area + bI) % U32, 4));
      oI := oI + 4;
      Write(mem, area + bI, values[i]);
      bI := bI + |values[i]|;
      Write(mem, area + bI, [0]);
      bI := bI + 1;
    }
    assert values[..|values|] == values;
  }

  /** The loop over the values, up to the one whose offset has no room. */
  method WriteUntilPanic(mem: array<byte>, values: seq<Value>, offsets: nat, offsetsLen: nat, area: nat, areaLen: nat)
    requires offsets + offsetsLen <= mem.Length && area + areaLen <= mem.Length && areaLen == |Terminated(values)|
    requires offsetsLen % 4 == 0 && offsetsLen < 4 * |values|
    modifies mem
    ensures area + |Terminated(values[..offsetsLen / 4])| <= mem.Length
    ensures mem[..] == OneByOne(old(mem[..]), values[..offsetsLen / 4], offsets, area)
  {
    hide OneByOne, Written, Terminated, LeBytes;
    var fits := offsetsLen / 4;
    TerminatedPrefix(values, fits);
    WriteAll(mem, values[..fits], offsets, area);
  }

  // ----- reading back

  /** The string at an address, up to its NUL. */
  ghost function StringAt(mem: seq<byte>, at: nat): seq<byte>
    decreases |mem| - at
  {
    if at >= |mem| || mem[at] == 0 then [] else [mem[at]] + StringAt(mem, at + 1)
  }

  lemma {:induction false} StringAtIs(mem: seq<byte>, at: nat, v: Value)
    requires at + |v| < |mem| && mem[at..at + |v|] == v && mem[at + |v|] == 0 && 0 !in v
    ensures StringAt(mem, at) == v
    decreases |v|
  {
    if v != [] {
      assert mem[at] == mem[at..at + |v|][0];
      assert mem[at + 1..at + 1 + |v[1..]|] == mem[at..at + |v|][1..];
      StringAtIs(mem, at + 1, v[1..]);
    }
  }

  ghost function OffsetAt(mem: seq<byte>, offsets: nat, i: nat): nat
    requires offsets + 4 * i + 4 <= |mem|
  {
    LeValue(mem[offsets + 4 * i..offsets + 4 * i + 4])
  }

  /** The i-th stored offset is where the i-th value starts. */
  lemma OffsetStored(mem: seq<byte>, values: seq<Value>, offsets: nat, area: nat, i: nat)
    requires |mem| <= U32 && offsets + 4 * |values| <= |mem| && area + |Terminated(values)| <= |mem|
    requires Separate(offsets, 4 * |values|, area, |Terminated(values)|) && i < |values|
    ensures OffsetAt(LaidOut(mem, values, offsets, area), offsets, i) == area + |Terminated(values[..i])|
  {
    hide Written, Table, Terminated, LeBytes, LeValue;
    var table, data, at := Table(values, area), Terminated(values), area + |Terminated(values[..i])|;
    NextOffset(values, i, area);
    NextTerminated(values, i);
    TerminatedPrefix(values, i + 1);
    TablePrefix(values, i + 1, area);
    WriteApart(mem, offsets, table, area, data);
    ReadWritten(Written(mem, area, data), offsets, table, 4 * i, 4);
    Middle(table, Table(values[..i], area), LeBytes(at, 4));
    LeRoundTrip32(at);
  }

  lemma ValueStored(mem: seq<byte>, values: seq<Value>, area: nat, i: nat)
    requires area + |Terminated(values)| <= |mem| && i < |values| && 0 !in values[i]
    ensures StringAt(Written(mem, area, Terminated(values)), area + |Terminated(values[..i])|) == values[i]
  {
    hide Written, Terminated;
    var data, at, v := Terminated(values), |Terminated(values[..i])|, values[i];
    var after := Written(mem, area, data);
    NextTerminated(values, i);
    TerminatedPrefix(values, i + 1);
    Middle(data, Terminated(values[..i]), v);
    Middle(data, Terminated(values[..i]) + v, [0]);
    ReadWritten(mem, area, data, at, |v|);
    ReadWritten(mem, area, data, at + |v|, 1);
    assert after[area + at + |v|] == after[area + at + |v|..area + at + |v| + 1][0] == data[at + |v|..at + |v| + 1][0] == 0;
    StringAtIs(after, area + at, v);
  }

  /** The i-th offset leads to the i-th value. */
  lemma ReadsBack(mem: seq<byte>, values: seq<Value>, offsets: nat, area: nat, i: nat)
    requires |mem| <= U32 && offsets + 4 * |values| <= |mem| && area + |Terminated(values)| <= |mem|
    requires Separate(offsets, 4 * |values|, area, |Terminated(values)|) && NulFree(values) && i < |values|
    ensures var after := LaidOut(mem, values, offsets, area);
            StringAt(after, OffsetAt(after, offsets, i)) == values[i]
  {
    hide Written, Table, Terminated;
    OffsetStored(mem, values, offsets, area, i);
    ValueStored(Written(mem, offsets, Table(values, area)), values, area, i);
  }

  /** Nothing but the table and the string area changes, and the area is filled
      to its last byte, a NUL. */
  lemma AreaIsFilled(mem: seq<byte>, values: seq<Value>, offsets: nat, area: nat)
    requires offsets + 4 * |values| <= |mem| && area + |Terminated(values)| <= |mem|
    requires Separate(offsets, 4 * |values|, area, |Terminated(values)|)
    ensures var after := LaidOut(mem, values, offsets, area);
            && after[area..area + |Terminated(values)|] == Terminated(values)
            && forall a :: 0 <= a < |mem| ==>
                             || after[a] == mem[a]
                             || offsets <= a < offsets + 4 * |values|
                             || area <= a < area + |Terminated(values)|
  {
    hide Table, Terminated;
    ReadWritten(Written(mem, offsets, Table(values, area)), area, Terminated(values), 0, |Terminated(values)|);
  }

  // ----- when the table's size wraps

  /** n values, all empty. */
  ghost function Empties(n: nat): (r: seq<Value>)
    ensures |r| == n && forall k :: 0 <= k < n ==> r[k] == []
  {
    seq(n, _ => [])
  }

  lemma {:induction false} EmptiesSize(n: nat)
    ensures |Terminated(Empties(n))| == n
  {
    if n > 0 {
      EmptiesSize(n - 1);
      assert Empties(n)[..n - 1] == Empties(n - 1);
    }
  }

  /** Values that may be given to a guest and that the loop panics on: 2^30 empty
      ones, within the size limit, in a memory that holds them and a table of the
      size the source computes. */
  lemma WrappedTablePanics(n: nat)
    requires 4 * n == U32
    ensures var values := Empties(n);
            && NulFree(values) && |Terminated(values)| <= U32 - 1
            && InMemory(n, 0, 4 * |values| % U32) && InMemory(n, 0, |Terminated(values)|)
            && 4 * |values| >= U32
  {
    EmptiesSize(n);
  }

  /** The call itself, with those values: it panics. */
  method PanicsOnWrappedTable(mem: array<byte>, values: seq<Value>) returns (r: Outcome)
    requires 4 * mem.Length == U32 && values == Empties(mem.Length)
    modifies mem
    ensures r.Panics?
  {
    WrappedTablePanics(mem.Length);
    var size := NullTerminatedByteCount(U32 - 1, values);
    r := WriteOffsetsAndNullTerminatedValues(mem, values, 0, 0, size.value);
  }
}
