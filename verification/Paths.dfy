/** Slash-separated paths and their lexical cleaning, as Go's path.Clean and
    fs.ValidPath document them. */
module Paths {
  import opened Strings

  // ----- cleaning

  predicate Still(c: string) { c == "" || c == "." }

  predicate Named(c: string) { !Still(c) && c != ".." }

  /** One more component: a ".." takes off the name before it, if there is one. */
  function Reduced(r: seq<string>, c: string, rooted: bool): seq<string> {
    if Still(c) then r
    else if c != ".." then r + [c]
    else if r != [] && r[|r| - 1] != ".." then r[..|r| - 1]
    else if rooted then r
    else r + [".."]
  }

  function Reduce(comps: seq<string>, rooted: bool): seq<string> {
    if comps == [] then [] else Reduced(Reduce(comps[..|comps| - 1], rooted), comps[|comps| - 1], rooted)
  }

  predicate Rooted(p: string) { p != "" && p[0] == '/' }

  function Clean(p: string): string {
    var r := Reduce(Split(p, '/'), Rooted(p));
    if Rooted(p) then "/" + Join(r, '/') else if r == [] then "." else Join(r, '/')
  }

  /** Whether every part is a name; "." alone is the directory itself. */
  predicate ValidPath(p: string) {
    p == "." || forall k :: 0 <= k < |Split(p, '/')| ==> Named(Split(p, '/')[k])
  }

  /** How far below its start a path stands. */
  function Height(comps: seq<string>): int {
    if comps == [] then 0
    else
      var c := comps[|comps| - 1];
      Height(comps[..|comps| - 1]) + if Still(c) then 0 else if c == ".." then -1 else 1
  }

  /** Whether no prefix of the path stands above its start. */
  ghost predicate NeverAbove(comps: seq<string>) {
    forall i :: 0 <= i <= |comps| ==> Height(comps[..i]) >= 0
  }

  ghost predicate AllNamed(r: seq<string>) {
    forall k :: 0 <= k < |r| ==> Named(r[k])
  }

  lemma Prefixes<T>(s: seq<T>, i: nat)
    requires i < |s|
    ensures s[..i + 1] == s[..i] + [s[i]] && s[..i + 1][..i] == s[..i]
  {
  }

  lemma NeverAbovePrefix(comps: seq<string>, n: nat)
    requires n <= |comps| && NeverAbove(comps)
    ensures NeverAbove(comps[..n])
  {
    forall i | 0 <= i <= n ensures Height(comps[..n][..i]) >= 0 {
      assert comps[..n][..i] == comps[..i];
    }
  }

  lemma NeverAboveMore(comps: seq<string>)
    requires comps != [] && NeverAbove(comps[..|comps| - 1]) && Height(comps) >= 0
    ensures NeverAbove(comps)
  {
    var init := comps[..|comps| - 1];
    forall i | 0 <= i <= |comps| ensures Height(comps[..i]) >= 0 {
      if i < |comps| {
        assert comps[..i] == init[..i];
      } else {
        assert comps[..i] == comps;
      }
    }
  }

  /** A path that never stands above its start reduces to names alone, as many
      as its height; one that does keeps a ".." at the front. */
  lemma {:induction false} ReducedNames(comps: seq<string>)
    ensures NeverAbove(comps) ==> AllNamed(Reduce(comps, false)) && |Reduce(comps, false)| == Height(comps)
    ensures !NeverAbove(comps) ==> Reduce(comps, false) != [] && Reduce(comps, false)[0] == ".."
  {
    if comps != [] {
      var init := comps[..|comps| - 1];
      ReducedNames(init);
      assert comps[..|comps|] == comps;
      if NeverAbove(init) && Height(comps) >= 0 {
        NeverAboveMore(comps);
      } else if NeverAbove(comps) {
        NeverAbovePrefix(comps, |init|);
        assert false;
      }
    }
  }

  lemma {:induction false} ReducedParts(comps: seq<string>, rooted: bool)
    requires FreeOf(comps, '/')
    ensures FreeOf(Reduce(comps, rooted), '/')
    ensures forall k :: 0 <= k < |Reduce(comps, rooted)| ==> !Still(Reduce(comps, rooted)[k])
  {
    if comps != [] {
      ReducedParts(comps[..|comps| - 1], rooted);
    }
  }

  /** The components that move: names and "..". */
  function Moves(comps: seq<string>): (r: seq<string>)
  {
    if comps == [] then []
    else
      var r := Moves(comps[..|comps| - 1]);
      if Still(comps[|comps| - 1]) then r else r + [comps[|comps| - 1]]
  }

  lemma LastStill(comps: seq<string>)
    requires comps != [] && Still(comps[|comps| - 1])
    ensures Moves(comps) == Moves(comps[..|comps| - 1])
  {
  }

  lemma {:induction false} AllMove(r: seq<string>)
    requires forall k :: 0 <= k < |r| ==> !Still(r[k])
    ensures Moves(r) == r
  {
    if r != [] {
      AllMove(r[..|r| - 1]);
    }
  }

  lemma {:induction false} MovesAppend(a: seq<string>, b: seq<string>)
    ensures Moves(a + b) == Moves(a) + Moves(b)
  {
    if b == [] {
      assert a + b == a;
    } else {
      MovesAppend(a, b[..|b| - 1]);
      assert (a + b)[..|a + b| - 1] == a + b[..|b| - 1];
    }
  }

  /** The cleaned path is valid exactly when the path is relative and never
      stands above its start; its names are then those the path reduces to. */
  lemma CleanIsValid(p: string)
    ensures ValidPath(Clean(p)) <==> !Rooted(p) && NeverAbove(Split(p, '/'))
    ensures ValidPath(Clean(p)) ==> Moves(Split(Clean(p), '/')) == Reduce(Split(p, '/'), false)
  {
    var r, c := Reduce(Split(p, '/'), Rooted(p)), Clean(p);
    SplitIsFree(p, '/');
    ReducedParts(Split(p, '/'), Rooted(p));
    if Rooted(p) {
      assert Split(c, '/')[0] == "";
    } else {
      ReducedNames(Split(p, '/'));
      if r == [] {
        SplitOne(".", '/');
        assert Moves(["."]) == [];
      } else {
        SplitJoin(r, '/');
        SplitOne(".", '/');
        assert c != ".";
        AllMove(r);
      }
    }
  }

  // ----- the documented rules of cleaning

  /** A name and the ".." after it go; so do "" and ".". */
  lemma {:induction false} ReduceDrops(a: seq<string>, drop: seq<string>, b: seq<string>, rooted: bool)
    requires (|drop| == 1 && Still(drop[0])) || (|drop| == 2 && Named(drop[0]) && drop[1] == "..")
    ensures Reduce(a + drop + b, rooted) == Reduce(a + b, rooted)
  {
    hide Reduced;
    if b != [] {
      var b', last := b[..|b| - 1], b[|b| - 1];
      ReduceDrops(a, drop, b', rooted);
      assert a + drop + b == a + drop + b' + [last] && a + b == a + b' + [last];
      ReduceMore(a + drop + b', last, rooted);
      ReduceMore(a + b', last, rooted);
    } else {
      assert a + drop + b == a + drop && a + b == a;
      if |drop| == 1 {
        assert drop == [drop[0]];
        ReduceMore(a, drop[0], rooted);
      } else {
        assert a + drop == a + [drop[0]] + [drop[1]];
        ReduceMore(a + [drop[0]], drop[1], rooted);
        ReduceMore(a, drop[0], rooted);
      }
      DropReduced(Reduce(a, rooted), drop, rooted);
    }
  }

  lemma ReduceMore(comps: seq<string>, c: string, rooted: bool)
    ensures Reduce(comps + [c], rooted) == Reduced(Reduce(comps, rooted), c, rooted)
  {
    assert (comps + [c])[..|comps|] == comps;
  }

  lemma DropReduced(r: seq<string>, drop: seq<string>, rooted: bool)
    requires (|drop| == 1 && Still(drop[0])) || (|drop| == 2 && Named(drop[0]) && drop[1] == "..")
    ensures |drop| == 1 ==> Reduced(r, drop[0], rooted) == r
    ensures |drop| == 2 ==> Reduced(Reduced(r, drop[0], rooted), drop[1], rooted) == r
  {
  }

  /** A rooted path loses the ".." it begins with. */
  lemma {:induction false} ReduceDropsFirst(b: seq<string>)
    ensures Reduce([".."] + b, true) == Reduce(b, true)
  {
    if b != [] {
      ReduceDropsFirst(b[..|b| - 1]);
      assert ([".."] + b)[..|b|] == [".."] + b[..|b| - 1];
    } else {
      assert [".."] + b == [".."];
    }
  }

  /** What no rule changes is left as it is. */
  lemma {:induction false} ReduceKeeps(comps: seq<string>, rooted: bool)
    requires forall k :: 0 <= k < |comps| ==> !Still(comps[k])
    requires forall k :: 0 <= k < |comps| && comps[k] == ".." ==> !rooted && (k > 0 ==> comps[k - 1] == "..")
    ensures Reduce(comps, rooted) == comps
  {
    if comps != [] {
      ReduceKeeps(comps[..|comps| - 1], rooted);
    }
  }
}
