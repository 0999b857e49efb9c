/** Text in parts: splitting at a separator, joining, and cutting in two. */
module Strings {
  import opened Results

  /** The parts between separators; one part when there is none. */
  function Split(s: string, sep: char): (r: seq<string>)
    ensures |r| > 0
  {
    if s == "" then [""] else WithFirst(s[0], Split(s[1..], sep), sep)
  }

  /** The parts of a text with one more character in front. */
  function WithFirst(c: char, parts: seq<string>, sep: char): (r: seq<string>)
    requires |parts| > 0
    ensures |r| > 0
  {
    if c == sep then [""] + parts else [[c] + parts[0]] + parts[1..]
  }

  function Join(parts: seq<string>, sep: char): string {
    if parts == [] then "" else if |parts| == 1 then parts[0] else parts[0] + [sep] + Join(parts[1..], sep)
  }

  ghost predicate FreeOf(parts: seq<string>, sep: char) {
    forall k :: 0 <= k < |parts| ==> sep !in parts[k]
  }

  /** A separator keeps the parts on either side of it apart. */
  lemma {:induction false} SplitAtSep(a: string, s: string, sep: char)
    ensures Split(a + [sep] + s, sep) == Split(a, sep) + Split(s, sep)
  {
    hide WithFirst;
    var t := a + [sep] + s;
    if a == "" {
      assert t[1..] == s;
      SepFirst(Split(s, sep), sep);
    } else {
      assert t[1..] == a[1..] + [sep] + s;
      SplitAtSep(a[1..], s, sep);
      FirstAndMore(a[0], Split(a[1..], sep), Split(s, sep), sep);
    }
  }

  lemma SepFirst(x: seq<string>, sep: char)
    requires |x| > 0
    ensures WithFirst(sep, x, sep) == [""] + x
  {
  }

  lemma FirstAndMore(c: char, x: seq<string>, y: seq<string>, sep: char)
    requires |x| > 0
    ensures WithFirst(c, x + y, sep) == WithFirst(c, x, sep) + y
  {
  }

  lemma {:induction false} SplitOne(a: string, sep: char)
    requires sep !in a
    ensures Split(a, sep) == [a]
  {
    if a != "" {
      SplitOne(a[1..], sep);
      assert a == [a[0]] + a[1..];
    }
  }

  /** Joined parts split into the same parts. */
  lemma {:induction false} SplitJoin(parts: seq<string>, sep: char)
    requires parts != [] && FreeOf(parts, sep)
    ensures Split(Join(parts, sep), sep) == parts
  {
    if |parts| == 1 {
      SplitOne(parts[0], sep);
    } else {
      SplitAtSep(parts[0], Join(parts[1..], sep), sep);
      SplitOne(parts[0], sep);
      SplitJoin(parts[1..], sep);
    }
  }

  lemma {:induction false} SplitIsFree(s: string, sep: char)
    ensures FreeOf(Split(s, sep), sep)
  {
    if s != "" {
      SplitIsFree(s[1..], sep);
    }
  }

  /** What comes before and after the first separator, if there is one. */
  function Cut(s: string, sep: char): (r: (string, Option<string>))
  {
    if s == "" then ("", None)
    else if s[0] == sep then ("", Some(s[1..]))
    else var r := Cut(s[1..], sep); ([s[0]] + r.0, r.1)
  }

  lemma {:induction false} CutJoins(s: string, sep: char)
    ensures var (a, b) := Cut(s, sep); s == (if b.Some? then a + [sep] + b.value else a) && sep !in a
  {
    if s != "" && s[0] != sep {
      CutJoins(s[1..], sep);
      assert s == [s[0]] + s[1..];
    }
  }

  lemma {:induction false} CutNone(a: string, sep: char)
    requires sep !in a
    ensures Cut(a, sep) == (a, None)
  {
    if a != "" {
      CutNone(a[1..], sep);
      assert a == [a[0]] + a[1..];
    }
  }

  lemma {:induction false} CutAtSep(a: string, s: string, sep: char)
    requires sep !in a
    ensures Cut(a + [sep] + s, sep) == (a, Some(s))
  {
    var t := a + [sep] + s;
    if a == "" {
      assert t[1..] == s;
    } else {
      assert t[1..] == a[1..] + [sep] + s;
      CutAtSep(a[1..], s, sep);
      assert a == [t[0]] + a[1..];
    }
  }

  lemma {:induction false} JoinHas(parts: seq<string>, sep: char, c: char)
    requires c != sep && FreeOf(parts, c)
    ensures c !in Join(parts, sep)
  {
    if |parts| > 1 {
      JoinHas(parts[1..], sep, c);
    }
  }
}
