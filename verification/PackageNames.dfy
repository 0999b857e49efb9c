/** The order of package names (comparePackageNames in component/wit/resolve.go). */
module PackageNames {
  import opened Results
  import opened Strings
  import opened Semver

  /** "ns:name@version", the version absent or not. */
  datatype PackageName = PackageName(ns: string, name: string, version: Option<Version>)

  function ComparePackageNames(a: PackageName, b: PackageName): int {
    if CmpText(a.ns, b.ns) != 0 then CmpText(a.ns, b.ns)
    else if CmpText(a.name, b.name) != 0 then CmpText(a.name, b.name)
    else if a.version.Some? && b.version.Some? then Compare(a.version.value, b.version.value)
    else if a.version.Some? then 1
    else -1
  }

  // ----- names as text

  /** The parts of a name's text. */
  datatype NameText = NameText(ns: string, name: string, version: Option<VersionText>)

  function ShowName(t: NameText): string {
    t.ns + ":" + t.name + if t.version.None? then "" else "@" + Show(t.version.value)
  }

  /** A name the parser lets through. */
  ghost predicate NameChecked(t: NameText) {
    && ':' !in t.ns && '@' !in t.ns && '@' !in t.name
    && (t.version.Some? ==> Checked(t.version.value))
  }

  ghost function NameOf(t: NameText): PackageName
    requires NameChecked(t)
  {
    PackageName(t.ns, t.name, if t.version.None? then None else Some(Meaning(t.version.value)))
  }

  lemma NameCuts(t: NameText)
    requires NameChecked(t)
    ensures var (an, av) := Cut(ShowName(t), '@');
            && Cut(an, ':') == (t.ns, Some(t.name))
            && av == if t.version.None? then None else Some(Show(t.version.value))
  {
    hide Cut, Show;
    var full := t.ns + [':'] + t.name;
    assert full == t.ns + ":" + t.name;
    CutAtSep(t.ns, t.name, ':');
    assert '@' !in full;
    if t.version.None? {
      assert ShowName(t) == full;
      CutNone(full, '@');
    } else {
      assert ShowName(t) == full + ['@'] + Show(t.version.value);
      CutAtSep(full, Show(t.version.value), '@');
    }
  }

  /** Compares two names as text, by their parts. */
  method CompareNames(a: string, b: string, ghost t: NameText, ghost u: NameText) returns (c: int)
    requires NameChecked(t) && NameChecked(u) && a == ShowName(t) && b == ShowName(u)
    ensures c == ComparePackageNames(NameOf(t), NameOf(u))
  {
    hide Cut, Show, ShowName, Compare, CmpText, Checked, Meaning;
    NameCuts(t);
    NameCuts(u);
    var (an, av) := Cut(a, '@');
    var (bn, bv) := Cut(b, '@');
    var (ans, aname) := Cut(an, ':');
    var (bns, bname) := Cut(bn, ':');
    c := CmpText(ans, bns);
    if c != 0 {
      return;
    }
    c := CmpText(aname.value, bname.value);
    if c != 0 {
      return;
    }
    if av.Some? && bv.Some? {
      var v := ParseSemver(av.value, t.version.value);
      var w := ParseSemver(bv.value, u.version.value);
      return Compare(v, w);
    }
    return if av.Some? then 1 else -1;
  }

  // ----- what the order distinguishes

  /** The same package, with no version to tell them apart. */
  predicate SameUnversioned(a: PackageName, b: PackageName) {
    a.ns == b.ns && a.name == b.name && a.version.None? && b.version.None?
  }

  /** Versions of the same precedence whose build identifiers are the same, read
      as numbers where they are numbers. */
  ghost predicate SameVersion(v: Version, w: Version) {
    SamePrecedence(v, w) && IdentsOf(v.build) == IdentsOf(w.build)
  }

  /** Swapping names swaps the answer exactly when they are not the same name
      without a version; names compare equal exactly when their versions do. */
  lemma NamesCompareIff(a: PackageName, b: PackageName)
    ensures ComparePackageNames(a, b) == -ComparePackageNames(b, a) <==> !SameUnversioned(a, b)
    ensures ComparePackageNames(a, b) == 0 <==>
            && a.ns == b.ns && a.name == b.name
            && a.version.Some? && b.version.Some? && SameVersion(a.version.value, b.version.value)
  {
    CmpTextIs(a.ns, b.ns);
    CmpTextIs(a.name, b.name);
    if a.version.Some? && b.version.Some? {
      CompareIsPrecedence(a.version.value, b.version.value);
    }
  }

  /** By namespace first, then by name, and then by version, none before any. */
  lemma NamesOrderIs(a: PackageName, b: PackageName)
    ensures ComparePackageNames(a, b) < 0 <==>
            || TextBefore(a.ns, b.ns)
            || (a.ns == b.ns && TextBefore(a.name, b.name))
            || (a.ns == b.ns && a.name == b.name && VersionBefore(a.version, b.version))
  {
    CmpTextIs(a.ns, b.ns);
    CmpTextIs(a.name, b.name);
    if a.version.Some? && b.version.Some? {
      CompareIsPrecedence(a.version.value, b.version.value);
    }
  }

  ghost predicate VersionBefore(v: Option<Version>, w: Option<Version>) {
    if v.None? then true
    else
      && w.Some?
      && (Precedes(v.value, w.value)
          || (SamePrecedence(v.value, w.value) && IdentsBefore(IdentsOf(v.value.build), IdentsOf(w.value.build))))
  }

  // ----- the order, by the texts

  ghost predicate CoreBefore(v: VersionText, w: VersionText)
    requires Checked(v) && Checked(w)
  {
    exists i :: 0 <= i < 3 && FirstLess(v, w, i)
  }

  /** The numbers before the i-th are the same, and that one is less. */
  ghost predicate FirstLess(v: VersionText, w: VersionText, i: nat)
    requires Checked(v) && Checked(w) && i < 3
  {
    Value(v.core[i]) < Value(w.core[i]) && forall j :: 0 <= j < i ==> Value(v.core[j]) == Value(w.core[j])
  }

  ghost predicate SameCore(v: VersionText, w: VersionText)
    requires Checked(v) && Checked(w)
  {
    forall i :: 0 <= i < 3 ==> Value(v.core[i]) == Value(w.core[i])
  }

  /** By the numbers, then a pre-release before none and by its identifiers, then
      by the build's. */
  ghost predicate VersionTextBefore(v: VersionText, w: VersionText)
    requires Checked(v) && Checked(w)
  {
    || CoreBefore(v, w)
    || (SameCore(v, w) && v.pre.Some? && (w.pre.None? || IdentsBefore(IdentsOf(v.pre.value), IdentsOf(w.pre.value))))
    || (SameCore(v, w) && IdentsOf(Idents(v.pre)) == IdentsOf(Idents(w.pre))
        && IdentsBefore(IdentsOf(Idents(v.build)), IdentsOf(Idents(w.build))))
  }

  lemma VersionTextsOrder(v: VersionText, w: VersionText)
    requires Checked(v) && Checked(w)
    ensures Compare(Meaning(v), Meaning(w)) < 0 <==> VersionTextBefore(v, w)
  {
    hide Compare, Value, IdentsBefore, IdentsOf;
    CompareIsPrecedence(Meaning(v), Meaning(w));
    CoreIsFields(v, w);
  }

  lemma CoreIsFields(v: VersionText, w: VersionText)
    requires Checked(v) && Checked(w)
    ensures var a, b := Meaning(v), Meaning(w);
            && (SameCore(v, w) <==> a.major == b.major && a.minor == b.minor && a.patch == b.patch)
            && (CoreBefore(v, w) <==>
                || a.major < b.major
                || (a.major == b.major && a.minor < b.minor)
                || (a.major == b.major && a.minor == b.minor && a.patch < b.patch))
  {
    hide Value;
    var a, b := Meaning(v), Meaning(w);
    assert FirstLess(v, w, 0) <==> a.major < b.major;
    assert FirstLess(v, w, 1) <==> a.major == b.major && a.minor < b.minor;
    assert FirstLess(v, w, 2) <==> a.major == b.major && a.minor == b.minor && a.patch < b.patch;
  }

  /** What comparing two names' texts comes to: by namespace, then name, then
      version, none before any. */
  lemma NameTextsOrder(t: NameText, u: NameText)
    requires NameChecked(t) && NameChecked(u)
    ensures ComparePackageNames(NameOf(t), NameOf(u)) < 0 <==>
            || TextBefore(t.ns, u.ns)
            || (t.ns == u.ns && TextBefore(t.name, u.name))
            || (t.ns == u.ns && t.name == u.name
                && (t.version.None? || (u.version.Some? && VersionTextBefore(t.version.value, u.version.value))))
  {
    hide ComparePackageNames, TextBefore, Meaning, VersionTextBefore, Checked;
    NamesOrderIs(NameOf(t), NameOf(u));
    if t.version.Some? && u.version.Some? {
      VersionTextsOrder(t.version.value, u.version.value);
      CompareIsPrecedence(Meaning(t.version.value), Meaning(u.version.value));
    }
  }

  /** A name as it is written: ns:name@1.2.3-pre+build. */
  lemma ShownAs(ns: string, name: string, a: string, b: string, c: string, pre: string, build: string)
    ensures ShowName(NameText(ns, name, None)) == ns + [':'] + name
    ensures ShowName(NameText(ns, name, Some(VersionText([a, b, c], Some([pre]), Some([build]))))) ==
            ns + [':'] + name + ['@'] + (a + ['.'] + b + ['.'] + c + (['-'] + pre) + (['+'] + build))
  {
    assert [a, b, c][1..] == [b, c] && [b, c][1..] == [c];
    assert Join([c], '.') == c && Join([b, c], '.') == b + ['.'] + c;
    assert Join([a, b, c], '.') == a + ['.'] + Join([b, c], '.') == a + ['.'] + b + ['.'] + c;
  }

  predicate NoLeadingZero(id: string) {
    IsNumeric(id) && |id| > 1 ==> id[0] != '0'
  }

  /** A version as the parser checks it in full: only build identifiers may have
      leading zeros. */
  ghost predicate Strict(t: VersionText) {
    && Checked(t) && (forall k :: 0 <= k < |t.core| ==> NoLeadingZero(t.core[k]))
    && forall k :: 0 <= k < |Idents(t.pre)| ==> NoLeadingZero(Idents(t.pre)[k])
  }

  lemma {:induction false} TrimIsSame(x: string)
    requires NoLeadingZero(x) && IsNumeric(x)
    ensures TrimZeros(x) == if x == "0" then "" else x
  {
    if |x| == 1 {
      assert x == [x[0]] && x[1..] == "";
    }
  }

  /** Without leading zeros, what identifiers denote tells them apart. */
  lemma SameIdent(x: string, y: string)
    requires NoLeadingZero(x) && NoLeadingZero(y) && IdentOf(x) == IdentOf(y)
    ensures x == y
  {
    hide Value, CmpText;
    if IsNumeric(x) {
      TrimmedOrderIsNumeric(x, y);
      TrimIsSame(x);
      TrimIsSame(y);
      CmpTextIs(TrimZeros(x), TrimZeros(y));
    }
  }

  lemma SameIdents(a: seq<string>, b: seq<string>)
    requires forall k :: 0 <= k < |a| ==> NoLeadingZero(a[k])
    requires forall k :: 0 <= k < |b| ==> NoLeadingZero(b[k])
    ensures IdentsOf(a) == IdentsOf(b) <==> a == b
  {
    if IdentsOf(a) == IdentsOf(b) {
      forall k | 0 <= k < |a| ensures a[k] == b[k] {
        assert IdentsOf(a)[k] == IdentsOf(b)[k];
        SameIdent(a[k], b[k]);
      }
    }
  }

  /** Two texts of versions compare equal exactly when they are the same but for
      leading zeros of numbers in the build metadata. */
  lemma VersionsCompareEqualIff(t: VersionText, u: VersionText)
    requires Strict(t) && Strict(u)
    ensures Compare(Meaning(t), Meaning(u)) == 0 <==>
            && t.core == u.core && t.pre == u.pre
            && IdentsOf(Idents(t.build)) == IdentsOf(Idents(u.build))
  {
    hide Compare, Value, NoLeadingZero;
    CompareIsPrecedence(Meaning(t), Meaning(u));
    SameIdents(Idents(t.pre), Idents(u.pre));
    if Meaning(t).major == Meaning(u).major && Meaning(t).minor == Meaning(u).minor && Meaning(t).patch == Meaning(u).patch {
      SameIdent(t.core[0], u.core[0]);
      SameIdent(t.core[1], u.core[1]);
      SameIdent(t.core[2], u.core[2]);
      assert t.core == u.core;
    }
  }

  /** Two different names that compare equal, so that a sort may leave them either
      way round: a:b@1.0.0+1 and a:b@1.0.0+01. */
  lemma DifferentNamesCompareEqual()
    ensures var core := ["1", "0", "0"];
            var t := NameText("a", "b", Some(VersionText(core, None, Some(["1"]))));
            var u := NameText("a", "b", Some(VersionText(core, None, Some(["01"]))));
            && NameChecked(t) && NameChecked(u) && ShowName(t) != ShowName(u)
            && ComparePackageNames(NameOf(t), NameOf(u)) == 0
  {
    var core := ["1", "0", "0"];
    var v, w := VersionText(core, None, Some(["1"])), VersionText(core, None, Some(["01"]));
    var t, u := NameText("a", "b", Some(v)), NameText("a", "b", Some(w));
    assert Value("1") == 1 && Value("0") == 0 by {
      assert "1"[1..] == "" && "0"[1..] == "";
    }
    assert Value("01") == 1 by {
      assert "01"[1..] == "1";
    }
    assert IdentsOf(["1"]) == [Num(1)] == IdentsOf(["01"]);
    Lengths(t, u);
    NamesCompareIff(NameOf(t), NameOf(u));
  }

  lemma Lengths(t: NameText, u: NameText)
    requires t.version.Some? && u.version.Some? && t.ns == u.ns && t.name == u.name
    requires t.version.value == u.version.value.(build := Some(["1"])) && u.version.value.build == Some(["01"])
    ensures |ShowName(u)| == |ShowName(t)| + 1
  {
    assert Join(["1"], '.') == "1" && Join(["01"], '.') == "01";
  }

  /** By namespace, then name, then version, none first. */
  lemma NamesTransitive(a: PackageName, b: PackageName, c: PackageName)
    requires ComparePackageNames(a, b) < 0 && ComparePackageNames(b, c) < 0
    ensures ComparePackageNames(a, c) < 0
  {
    hide Compare;
    CmpTextLaws(a.ns, b.ns, c.ns);
    CmpTextLaws(a.name, b.name, c.name);
    if a.version.Some? && b.version.Some? && c.version.Some? {
      CompareIsPreorder(a.version.value, b.version.value, c.version.value);
    }
  }
}
