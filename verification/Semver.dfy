/** Package versions: reading them and their order (component/wit/gate.go). */
module Semver {
  import opened Results
  import opened Strings

  datatype Version = Version(major: nat, minor: nat, patch: nat, pre: seq<string>, build: seq<string>)

  // ----- comparing numbers and text

  function CmpNat(a: nat, b: nat): int {
    if a < b then -1 else if a > b then 1 else 0
  }

  /** Text in character order, a prefix first. */
  function CmpText(a: string, b: string): int {
    if a == [] && b == [] then 0
    else if a == [] then -1
    else if b == [] then 1
    else if a[0] < b[0] then -1
    else if a[0] > b[0] then 1
    else CmpText(a[1..], b[1..])
  }

  predicate IsDigit(c: char) {
    '0' <= c <= '9'
  }

  predicate AllDigits(s: string) {
    forall k :: 0 <= k < |s| ==> IsDigit(s[k])
  }

  predicate IsNumeric(s: string) {
    s != "" && AllDigits(s)
  }

  function TrimZeros(s: string): string {
    if s != "" && s[0] == '0' then TrimZeros(s[1..]) else s
  }

  // ----- comparing identifiers

  /** Numeric identifiers numerically and before any other, the others as text. */
  function CmpIdent(x: string, y: string): int {
    if IsNumeric(x) && IsNumeric(y) then
      var x', y' := TrimZeros(x), TrimZeros(y);
      if |x'| != |y'| then CmpNat(|x'|, |y'|) else CmpText(x', y')
    else if IsNumeric(x) then -1
    else if IsNumeric(y) then 1
    else CmpText(x, y)
  }

  function CmpIdents(a: seq<string>, b: seq<string>): int {
    if a == [] || b == [] then CmpNat(|a|, |b|)
    else if CmpIdent(a[0], b[0]) != 0 then CmpIdent(a[0], b[0])
    else CmpIdents(a[1..], b[1..])
  }

  /** The lists compared as the source does, index by index. */
  method CompareIdents(a: seq<string>, b: seq<string>) returns (c: int)
    ensures c == CmpIdents(a, b)
  {
    var i := 0;
    while i < |a| && i < |b|
      invariant i <= |a| && i <= |b|
      invariant CmpIdents(a, b) == CmpIdents(a[i..], b[i..])
    {
      var x, y := a[i], b[i];
      var xn, yn := IsNumeric(x), IsNumeric(y);
      c := 0;
      if xn && yn {
        x, y := TrimZeros(x), TrimZeros(y);
        c := CmpNat(|x|, |y|);
        if c == 0 {
          c := CmpText(x, y);
        }
      } else if xn {
        c := -1;
      } else if yn {
        c := 1;
      } else {
        c := CmpText(x, y);
      }
      if c != 0 {
        return;
      }
      assert a[i..][1..] == a[i + 1..] && b[i..][1..] == b[i + 1..];
      i := i + 1;
    }
    c := CmpNat(|a|, |b|);
  }

  function Compare(a: Version, b: Version): int {
    if a.major != b.major then CmpNat(a.major, b.major)
    else if a.minor != b.minor then CmpNat(a.minor, b.minor)
    else if a.patch != b.patch then CmpNat(a.patch, b.patch)
    else if |a.pre| == 0 && |b.pre| != 0 then 1
    else if |a.pre| != 0 && |b.pre| == 0 then -1
    else if CmpIdents(a.pre, b.pre) != 0 then CmpIdents(a.pre, b.pre)
    else CmpIdents(a.build, b.build)
  }

  // ----- what identifiers denote

  function Pow10(n: nat): (p: nat)
    ensures p > 0
  {
    if n == 0 then 1 else 10 * Pow10(n - 1)
  }

  function DigitValue(c: char): (d: nat)
    requires IsDigit(c)
    ensures d <= 9
  {
    c as int - '0' as int
  }

  /** The number a string of digits denotes. */
  function Value(s: string): nat
    requires AllDigits(s)
  {
    if s == "" then 0 else DigitValue(s[0]) * Pow10(|s| - 1) + Value(s[1..])
  }

  lemma TenTimes(d: nat, p: nat)
    ensures d * (10 * p) == 10 * (d * p)
  {
  }

  /** Digits are read in base ten, one after another. */
  lemma {:induction false} ValueIsDecimal(s: string, c: char)
    requires AllDigits(s) && '0' <= c <= '9'
    ensures AllDigits(s + [c]) && Value(s + [c]) == 10 * Value(s) + (c as int - 48) && Value("") == 0
  {
    var t := s + [c];
    if s == "" {
      assert t[1..] == "" && Pow10(0) == 1;
    } else {
      assert t[1..] == s[1..] + [c];
      ValueIsDecimal(s[1..], c);
      assert Pow10(|s|) == 10 * Pow10(|s| - 1);
      TenTimes(DigitValue(s[0]), Pow10(|s| - 1));
    }
  }

  /** An identifier as Semantic Versioning reads it: a number, or text. */
  datatype Ident = Num(value: nat) | Text(text: string)

  function IdentOf(s: string): Ident {
    if IsNumeric(s) then Num(Value(s)) else Text(s)
  }

  function IdentsOf(ss: seq<string>): (r: seq<Ident>)
    ensures |r| == |ss| && forall k :: 0 <= k < |r| ==> r[k] == IdentOf(ss[k])
  {
    seq(|ss|, k requires 0 <= k < |ss| => IdentOf(ss[k]))
  }

  lemma {:induction false} ValueBelow(s: string)
    requires AllDigits(s)
    ensures Value(s) < Pow10(|s|)
  {
    if s != "" {
      ValueBelow(s[1..]);
      var d, p := DigitValue(s[0]), Pow10(|s| - 1);
      assert d * p <= 9 * p by { MulOrder(d, 9, p); }
    }
  }

  lemma MulOrder(a: nat, b: nat, p: nat)
    requires a <= b
    ensures a * p <= b * p
  {
  }

  lemma {:induction false} TrimKeepsValue(s: string)
    requires AllDigits(s)
    ensures AllDigits(TrimZeros(s)) && Value(TrimZeros(s)) == Value(s)
    ensures TrimZeros(s) != "" ==> TrimZeros(s)[0] != '0'
  {
    if s != "" && s[0] == '0' {
      TrimKeepsValue(s[1..]);
    }
  }

  /** Of two numbers with no leading zero, the one with more digits is larger. */
  lemma LongerIsLarger(x: string, y: string)
    requires AllDigits(x) && AllDigits(y) && |x| < |y| && y[0] != '0'
    ensures Value(x) < Value(y)
  {
    ValueBelow(x);
    PowMonotone(|x|, |y| - 1);
    var d, p := DigitValue(y[0]), Pow10(|y| - 1);
    assert 1 * p <= d * p by { MulOrder(1, d, p); }
  }

  lemma {:induction false} PowMonotone(m: nat, n: nat)
    requires m <= n
    ensures Pow10(m) <= Pow10(n)
  {
    if m < n {
      PowMonotone(m, n - 1);
    }
  }

  /** Of two numbers of as many digits, text order is number order. */
  lemma {:induction false} TextIsValue(x: string, y: string)
    requires AllDigits(x) && AllDigits(y) && |x| == |y|
    ensures CmpText(x, y) == CmpNat(Value(x), Value(y))
  {
    if x != "" {
      var p := Pow10(|x| - 1);
      var dx, dy := DigitValue(x[0]), DigitValue(y[0]);
      ValueBelow(x[1..]);
      ValueBelow(y[1..]);
      if dx < dy {
        LeadingDigitDecides(dx, dy, p, Value(x[1..]), Value(y[1..]));
      } else if dy < dx {
        LeadingDigitDecides(dy, dx, p, Value(y[1..]), Value(x[1..]));
      } else {
        TextIsValue(x[1..], y[1..]);
      }
    }
  }

  lemma LeadingDigitDecides(dx: nat, dy: nat, p: nat, vx: nat, vy: nat)
    requires dx < dy && vx < p
    ensures dx * p + vx < dy * p + vy
  {
    MulOrder(dx + 1, dy, p);
  }

  /** Comparing trimmed digit strings by length, then as text, compares the
      unbounded numbers they denote. */
  lemma TrimmedOrderIsNumeric(x: string, y: string)
    requires IsNumeric(x) && IsNumeric(y)
    ensures CmpIdent(x, y) == CmpNat(Value(x), Value(y))
  {
    TrimKeepsValue(x);
    TrimKeepsValue(y);
    var x', y' := TrimZeros(x), TrimZeros(y);
    if |x'| < |y'| {
      LongerIsLarger(x', y');
    } else if |y'| < |x'| {
      LongerIsLarger(y', x');
    } else {
      TextIsValue(x', y');
    }
  }

  // ----- precedence, as section 11 of Semantic Versioning 2.0.0 states it

  ghost predicate TextBefore(a: string, b: string) {
    exists k: nat :: TextDiffersAt(a, b, k)
  }

  ghost predicate TextDiffersAt(a: string, b: string, k: nat) {
    k <= |a| && k < |b| && a[..k] == b[..k] && (k == |a| || a[k] < b[k])
  }

  /** Numbers by size, text by character, a number before text. */
  ghost predicate IdentBefore(a: Ident, b: Ident) {
    match (a, b)
    case (Num(m), Num(n)) => m < n
    case (Num(_), Text(_)) => true
    case (Text(_), Num(_)) => false
    case (Text(s), Text(t)) => TextBefore(s, t)
  }

  ghost predicate DiffersAt(a: seq<Ident>, b: seq<Ident>, k: nat) {
    k <= |a| && k < |b| && a[..k] == b[..k] && (k == |a| || IdentBefore(a[k], b[k]))
  }

  /** The first identifiers to differ decide; a list that ends first is before. */
  ghost predicate IdentsBefore(a: seq<Ident>, b: seq<Ident>) {
    exists k: nat :: DiffersAt(a, b, k)
  }

  ghost predicate Precedes(a: Version, b: Version) {
    || a.major < b.major
    || (a.major == b.major && a.minor < b.minor)
    || (a.major == b.major && a.minor == b.minor && a.patch < b.patch)
    || (a.major == b.major && a.minor == b.minor && a.patch == b.patch &&
        if |a.pre| != 0 && |b.pre| != 0 then IdentsBefore(IdentsOf(a.pre), IdentsOf(b.pre))
        else |a.pre| != 0 && |b.pre| == 0)
  }

  /** The versions are the same but for build metadata and leading zeros. */
  ghost predicate SamePrecedence(a: Version, b: Version) {
    a.major == b.major && a.minor == b.minor && a.patch == b.patch && IdentsOf(a.pre) == IdentsOf(b.pre)
  }

  lemma {:induction false} CmpTextIs(a: string, b: string)
    ensures CmpText(a, b) == 0 <==> a == b
    ensures CmpText(a, b) < 0 <==> TextBefore(a, b)
    ensures CmpText(a, b) == -CmpText(b, a)
  {
    if a != [] && b != [] && a[0] == b[0] {
      CmpTextIs(a[1..], b[1..]);
      assert a == [a[0]] + a[1..] && b == [b[0]] + b[1..];
      if TextBefore(a[1..], b[1..]) {
        var k: nat :| TextDiffersAt(a[1..], b[1..], k);
        assert a[..k + 1] == [a[0]] + a[1..][..k] && b[..k + 1] == [b[0]] + b[1..][..k];
        assert TextDiffersAt(a, b, k + 1);
      }
      if TextBefore(a, b) {
        var k: nat :| TextDiffersAt(a, b, k);
        assert k > 0;
        assert a[1..][..k - 1] == a[..k][1..] && b[1..][..k - 1] == b[..k][1..];
        assert TextDiffersAt(a[1..], b[1..], k - 1);
      }
    } else {
      if CmpText(a, b) < 0 {
        assert TextDiffersAt(a, b, 0);
      }
      if TextBefore(a, b) {
        var k: nat :| TextDiffersAt(a, b, k);
        assert k == 0;
      }
    }
  }

  lemma CmpIdentIs(x: string, y: string)
    ensures CmpIdent(x, y) == 0 <==> IdentOf(x) == IdentOf(y)
    ensures CmpIdent(x, y) < 0 <==> IdentBefore(IdentOf(x), IdentOf(y))
    ensures CmpIdent(x, y) == -CmpIdent(y, x)
  {
    if IsNumeric(x) && IsNumeric(y) {
      TrimmedOrderIsNumeric(x, y);
      TrimmedOrderIsNumeric(y, x);
    } else if !IsNumeric(x) && !IsNumeric(y) {
      CmpTextIs(x, y);
    }
  }

  lemma IdentBeforeIrreflexive(a: Ident)
    ensures !IdentBefore(a, a)
  {
    if a.Text? {
      CmpTextIs(a.text, a.text);
    }
  }

  lemma {:induction false} CmpIdentsIs(a: seq<string>, b: seq<string>)
    ensures CmpIdents(a, b) == 0 <==> IdentsOf(a) == IdentsOf(b)
    ensures CmpIdents(a, b) < 0 <==> IdentsBefore(IdentsOf(a), IdentsOf(b))
    ensures CmpIdents(a, b) == -CmpIdents(b, a)
  {
    hide IdentsBefore, IdentBefore, CmpIdent, IdentOf;
    var x, y := IdentsOf(a), IdentsOf(b);
    if a != [] && b != [] {
      CmpIdentIs(a[0], b[0]);
      var x', y' := IdentsOf(a[1..]), IdentsOf(b[1..]);
      assert x == [x[0]] + x' && y == [y[0]] + y';
      if x[0] == y[0] {
        CmpIdentsIs(a[1..], b[1..]);
        RestDecides(x[0], x', y');
      } else {
        FirstDecides(x, y);
      }
    } else {
      EmptyDecides(x, y);
    }
  }

  lemma EmptyDecides(x: seq<Ident>, y: seq<Ident>)
    requires x == [] || y == []
    ensures IdentsBefore(x, y) <==> |x| < |y|
  {
    if |x| < |y| {
      assert DiffersAt(x, y, 0);
    }
  }

  lemma RestDecides(h: Ident, x: seq<Ident>, y: seq<Ident>)
    ensures IdentsBefore([h] + x, [h] + y) <==> IdentsBefore(x, y)
  {
    var hx, hy := [h] + x, [h] + y;
    if IdentsBefore(x, y) {
      var k: nat :| DiffersAt(x, y, k);
      assert hx[..k + 1] == [h] + x[..k] && hy[..k + 1] == [h] + y[..k];
      assert DiffersAt(hx, hy, k + 1);
    }
    if IdentsBefore(hx, hy) {
      var k: nat :| DiffersAt(hx, hy, k);
      IdentBeforeIrreflexive(h);
      assert k > 0;
      assert x[..k - 1] == hx[..k][1..] && y[..k - 1] == hy[..k][1..];
      assert DiffersAt(x, y, k - 1);
    }
  }

  lemma FirstDecides(x: seq<Ident>, y: seq<Ident>)
    requires x != [] && y != [] && x[0] != y[0]
    ensures IdentsBefore(x, y) <==> IdentBefore(x[0], y[0])
  {
    if IdentBefore(x[0], y[0]) {
      assert DiffersAt(x, y, 0);
    }
    if IdentsBefore(x, y) {
      var k: nat :| DiffersAt(x, y, k);
      if k > 0 {
        assert x[..k][0] == y[..k][0];
      }
    }
  }

  /** compare refines precedence: it is negative exactly when a precedes b, or
      when only their build metadata tells them apart and a's comes first. */
  lemma CompareIsPrecedence(a: Version, b: Version)
    ensures Compare(a, b) < 0 <==>
            Precedes(a, b) || (SamePrecedence(a, b) && IdentsBefore(IdentsOf(a.build), IdentsOf(b.build)))
    ensures Compare(a, b) == 0 <==> SamePrecedence(a, b) && IdentsOf(a.build) == IdentsOf(b.build)
    ensures Compare(a, b) == -Compare(b, a)
  {
    CmpIdentsIs(a.pre, b.pre);
    CmpIdentsIs(a.build, b.build);
  }

  // ----- the order is one

  lemma {:induction false} CmpTextTransitive(a: string, b: string, c: string)
    requires CmpText(a, b) < 0 && CmpText(b, c) < 0
    ensures CmpText(a, c) < 0
  {
    if a != [] && a[0] == b[0] && b[0] == c[0] {
      CmpTextTransitive(a[1..], b[1..], c[1..]);
    }
  }

  lemma IdentBeforeTransitive(a: Ident, b: Ident, c: Ident)
    requires IdentBefore(a, b) && IdentBefore(b, c)
    ensures IdentBefore(a, c)
  {
    if a.Text? {
      CmpTextIs(a.text, b.text);
      CmpTextIs(b.text, c.text);
      CmpTextIs(a.text, c.text);
      CmpTextTransitive(a.text, b.text, c.text);
    }
  }

  lemma {:induction false} IdentsBeforeTransitive(a: seq<Ident>, b: seq<Ident>, c: seq<Ident>)
    requires IdentsBefore(a, b) && IdentsBefore(b, c)
    ensures IdentsBefore(a, c)
  {
    var j: nat :| DiffersAt(a, b, j);
    var k: nat :| DiffersAt(b, c, k);
    if j < k {
      assert c[..j] == c[..k][..j] && b[..j] == b[..k][..j] && b[j] == b[..k][j] == c[j];
      assert DiffersAt(a, c, j);
    } else {
      assert a[..k] == a[..j][..k] && b[..k] == b[..j][..k];
      if k < j {
        assert a[k] == a[..j][k] == b[..j][k] == b[k];
      } else if k < |a| {
        IdentBeforeTransitive(a[k], b[k], c[k]);
      }
      assert DiffersAt(a, c, k);
    }
  }

  /** compare is a total preorder on all versions; the versions it holds equal
      differ at most in leading zeros. */
  lemma CompareIsPreorder(a: Version, b: Version, c: Version)
    ensures Compare(a, a) == 0
    ensures Compare(a, b) <= 0 || Compare(b, a) <= 0
    ensures Compare(a, b) <= 0 && Compare(b, c) <= 0 ==> Compare(a, c) <= 0
    ensures Compare(a, b) <= 0 && Compare(b, c) <= 0 && (Compare(a, b) < 0 || Compare(b, c) < 0) ==> Compare(a, c) < 0
  {
    hide Compare, IdentsBefore;
    CompareIsPrecedence(a, a);
    CompareIsPrecedence(a, b);
    CompareIsPrecedence(b, c);
    CompareIsPrecedence(a, c);
    IdentsBeforeLaws(IdentsOf(a.pre), IdentsOf(b.pre), IdentsOf(c.pre));
    IdentsBeforeLaws(IdentsOf(a.build), IdentsOf(b.build), IdentsOf(c.build));
  }

  lemma IdentsBeforeLaws(a: seq<Ident>, b: seq<Ident>, c: seq<Ident>)
    ensures IdentsBefore(a, b) && IdentsBefore(b, c) ==> IdentsBefore(a, c)
  {
    if IdentsBefore(a, b) && IdentsBefore(b, c) {
      IdentsBeforeTransitive(a, b, c);
    }
  }

  lemma CmpTextLaws(a: string, b: string, c: string)
    ensures CmpText(a, b) == 0 <==> a == b
    ensures CmpText(b, c) == 0 <==> b == c
    ensures CmpText(a, c) == 0 <==> a == c
    ensures CmpText(a, b) < 0 && CmpText(b, c) < 0 ==> CmpText(a, c) < 0
  {
    CmpTextIs(a, b);
    CmpTextIs(b, c);
    CmpTextIs(a, c);
    if CmpText(a, b) < 0 && CmpText(b, c) < 0 {
      CmpTextTransitive(a, b, c);
    }
  }

  // ----- reading a version

  const U64_MAX: nat := 0xffff_ffff_ffff_ffff

  /** The number of some digits, or the largest there is when it is too large. */
  function ParseUint(s: string): nat
    requires AllDigits(s)
  {
    if Value(s) <= U64_MAX then Value(s) else U64_MAX
  }

  /** The parts of a version's text. */
  datatype VersionText = VersionText(core: seq<string>, pre: Option<seq<string>>, build: Option<seq<string>>)

  function Show(t: VersionText): string {
    Join(t.core, '.') + ShowIdents('-', t.pre) + ShowIdents('+', t.build)
  }

  function ShowIdents(prefix: char, ids: Option<seq<string>>): string {
    if ids.None? then "" else [prefix] + Join(ids.value, '.')
  }

  predicate IdentChar(c: char) {
    IsDigit(c) || 'a' <= c <= 'z' || 'A' <= c <= 'Z' || c == '-'
  }

  ghost predicate IdentsChecked(ids: Option<seq<string>>) {
    ids.Some? ==> ids.value != [] && forall k :: 0 <= k < |ids.value| ==> IdentText(ids.value[k])
  }

  predicate IdentText(id: string) {
    forall j :: 0 <= j < |id| ==> IdentChar(id[j])
  }

  /** A version as the parser lets it through: three numbers of 64 bits, then
      identifiers of letters, digits and hyphens. */
  ghost predicate Checked(t: VersionText) {
    && |t.core| == 3 && (forall i :: 0 <= i < 3 ==> IsNumeric(t.core[i]) && Value(t.core[i]) <= U64_MAX)
    && IdentsChecked(t.pre) && IdentsChecked(t.build)
  }

  function Idents(ids: Option<seq<string>>): seq<string> {
    if ids.None? then [] else ids.value
  }

  /** The version a text denotes. */
  ghost function Meaning(t: VersionText): Version
    requires Checked(t)
  {
    Version(Value(t.core[0]), Value(t.core[1]), Value(t.core[2]), Idents(t.pre), Idents(t.build))
  }

  lemma IdentsAre(ids: Option<seq<string>>)
    requires IdentsChecked(ids)
    ensures ids.Some? ==> Split(Join(ids.value, '.'), '.') == ids.value && '+' !in Join(ids.value, '.')
  {
    if ids.Some? {
      forall k | 0 <= k < |ids.value| ensures '.' !in ids.value[k] && '+' !in ids.value[k] {
        assert IdentText(ids.value[k]);
      }
      SplitJoin(ids.value, '.');
      JoinHas(ids.value, '.', '+');
    }
  }

  lemma CoreIs(core: seq<string>)
    requires |core| == 3 && forall i :: 0 <= i < 3 ==> IsNumeric(core[i])
    ensures Split(Join(core, '.'), '.') == core
    ensures '+' !in Join(core, '.') && '-' !in Join(core, '.')
  {
    SplitJoin(core, '.');
    JoinHas(core, '.', '+');
    JoinHas(core, '.', '-');
  }

  /** The text comes apart where it was put together. */
  lemma Cuts(t: VersionText)
    requires Checked(t)
    ensures var (rest, build) := Cut(Show(t), '+');
            && rest == Join(t.core, '.') + ShowIdents('-', t.pre)
            && build == (if t.build.None? then None else Some(Join(t.build.value, '.')))
            && Cut(rest, '-') == (Join(t.core, '.'), if t.pre.None? then None else Some(Join(t.pre.value, '.')))
  {
    hide Join, Cut;
    CoreIs(t.core);
    IdentsAre(t.pre);
    var core := Join(t.core, '.');
    var rest := core + ShowIdents('-', t.pre);
    if t.build.None? {
      assert Show(t) == rest;
      CutNone(rest, '+');
    } else {
      assert Show(t) == rest + ['+'] + Join(t.build.value, '.');
      CutAtSep(rest, Join(t.build.value, '.'), '+');
    }
    if t.pre.None? {
      assert rest == core;
      CutNone(core, '-');
    } else {
      assert rest == core + ['-'] + Join(t.pre.value, '.');
      CutAtSep(core, Join(t.pre.value, '.'), '-');
    }
  }

  /** Reads the version a checked text denotes. */
  method ParseSemver(s: string, ghost t: VersionText) returns (v: Version)
    requires Checked(t) && s == Show(t)
    ensures v == Meaning(t)
  {
    hide Split, Join, Cut, Value, Show, ShowIdents;
    Cuts(t);
    CoreIs(t.core);
    IdentsAre(t.pre);
    IdentsAre(t.build);
    v := Version(0, 0, 0, [], []);
    var (rest, build) := Cut(s, '+');
    var (core, pre) := Cut(rest, '-');
    var parts := Split(core, '.');
    v := v.(major := ParseUint(parts[0]), minor := ParseUint(parts[1]), patch := ParseUint(parts[2]));
    if pre.Some? {
      v := v.(pre := Split(pre.value, '.'));
    }
    if build.Some? {
      v := v.(build := Split(build.value, '.'));
    }
  }
}
