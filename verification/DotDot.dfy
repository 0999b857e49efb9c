/** Resolving a guest's path under a directory it holds, and the check that
    every ".." in it leaves a directory (imports/wasi_snapshot_preview1/fs.go). */
module DotDot {
  import opened Results
  import opened Strings
  import opened Paths

  datatype Errno = EBADF | ENOENT | ENOTDIR | EPERM

  /** A tree of files without symbolic links. */
  datatype Node = File | Dir(entries: map<string, Node>)

  function Child(n: Node, name: string): Result<Node, Errno> {
    match n
    case File => Err(ENOTDIR)
    case Dir(entries) => if name in entries then Ok(entries[name]) else Err(ENOENT)
  }

  /** Goes down from a node, name by name. */
  function Walk(from: Node, names: seq<string>): Result<Node, Errno> {
    if names == [] then Ok(from)
    else
      var r := Walk(from, names[..|names| - 1]);
      if r.Err? then r else Child(r.value, names[|names| - 1])
  }

  /** The directory reached by the first k names lacks the next. */
  ghost predicate LacksAt(from: Node, names: seq<string>, k: nat) {
    k < |names| && var at := Walk(from, names[..k]); at.Ok? && at.value.Dir? && names[k] !in at.value.entries
  }

  /** A file is reached by the first k names, and there are more. */
  ghost predicate FileAt(from: Node, names: seq<string>, k: nat) {
    k < |names| && Walk(from, names[..k]) == Ok(File)
  }

  lemma SameAt(from: Node, names: seq<string>, k: nat)
    requires names != []
    ensures k < |names| - 1 ==> (LacksAt(from, names, k) <==> LacksAt(from, names[..|names| - 1], k))
    ensures k < |names| - 1 ==> (FileAt(from, names, k) <==> FileAt(from, names[..|names| - 1], k))
  {
    if k < |names| - 1 {
      assert names[..|names| - 1][..k] == names[..k];
    }
  }

  /** Going down fails exactly where a directory lacks the next name, or where a file
      is not the end. */
  lemma {:induction false} WalkFailsIff(from: Node, names: seq<string>)
    ensures Walk(from, names) == Err(ENOENT) <==> exists k: nat :: LacksAt(from, names, k)
    ensures Walk(from, names) == Err(ENOTDIR) <==> exists k: nat :: FileAt(from, names, k)
    ensures Walk(from, names).Err? ==> Walk(from, names).error == ENOENT || Walk(from, names).error == ENOTDIR
  {
    if names != [] {
      var last := |names| - 1;
      var init := names[..last];
      WalkFailsIff(from, init);
      forall k: nat ensures LacksAt(from, init, k) ==> LacksAt(from, names, k) ensures FileAt(from, init, k) ==> FileAt(from, names, k) {
        SameAt(from, names, k);
      }
      forall k: nat | k != last ensures LacksAt(from, names, k) ==> LacksAt(from, init, k) ensures FileAt(from, names, k) ==> FileAt(from, init, k) {
        SameAt(from, names, k);
      }
      var r := Walk(from, init);
      assert LacksAt(from, names, last) <==> r.Ok? && r.value.Dir? && names[last] !in r.value.entries;
      assert FileAt(from, names, last) <==> r == Ok(File);
      hide LacksAt, FileAt;
    }
  }

  /** The node the names of a path lead to. */
  function NodeAt(root: Node, path: string): Result<Node, Errno> {
    Walk(root, Moves(Split(path, '/')))
  }

  /** Whether a path ends in a name, or in "..", rather than in "" or ".". */
  predicate EndsInMove(comps: seq<string>) {
    comps != [] && !Still(comps[|comps| - 1])
  }

  /** What a filesystem finds at a path. A file is not found under a path that
      goes on after its name, with a slash or a ".". */
  function Stat(root: Node, path: string): Result<Node, Errno> {
    var found := NodeAt(root, path);
    if found == Ok(File) && !EndsInMove(Split(path, '/')) then Err(ENOTDIR) else found
  }

  // ----- looking a path up one component at a time

  /** The nodes passed on the way, the current one last. Every component needs
      the current node to be a directory; ".." goes back to the one before. */
  ghost function Follow(dir: Node, comps: seq<string>): (r: Result<seq<Node>, Errno>)
    ensures r.Ok? ==> r.value != []
  {
    if comps == [] then Ok([dir])
    else
      var r := Follow(dir, comps[..|comps| - 1]);
      if r.Err? then r else FollowOne(r.value, comps[|comps| - 1])
  }

  ghost function Top(stack: seq<Node>): Node
    requires stack != []
  {
    stack[|stack| - 1]
  }

  ghost function FollowOne(stack: seq<Node>, c: string): (r: Result<seq<Node>, Errno>)
    requires stack != []
    ensures r.Ok? ==> r.value != []
  {
    if Top(stack).File? then Err(ENOTDIR)
    else if Still(c) then Ok(stack)
    else if c == ".." then if |stack| == 1 then Err(EPERM) else Ok(stack[..|stack| - 1])
    else
      var n := Child(Top(stack), c);
      if n.Err? then Err(n.error) else Ok(stack + [n.value])
  }

  /** The lookup gets past the first n components' every "..". */
  ghost predicate DotDotsFollow(dir: Node, comps: seq<string>, n: nat) {
    n <= |comps| && forall i :: 0 <= i < n && comps[i] == ".." ==> Follow(dir, comps[..i + 1]).Ok?
  }

  /** The lookup fails with e at the ".." numbered i, if not before it. */
  ghost predicate FailsAt(dir: Node, comps: seq<string>, i: nat, e: Errno) {
    i < |comps| && comps[i] == ".." && DotDotsFollow(dir, comps, i) && Follow(dir, comps[..i + 1]) == Err(e)
  }

  // ----- the stack of names and the stack of nodes

  /** stack holds the nodes met on the way down the names. */
  ghost predicate Along(dir: Node, names: seq<string>, stack: seq<Node>) {
    |stack| == |names| + 1 && forall k :: 0 <= k <= |names| ==> Walk(dir, names[..k]) == Ok(stack[k])
  }

  /** Going down the names fails with e, or ends at a file, which is why a
      lookup that has passed it failed with ENOTDIR. */
  ghost predicate Blocked(dir: Node, names: seq<string>, e: Errno) {
    Walk(dir, names) == Err(e) || (Walk(dir, names) == Ok(File) && e == ENOTDIR)
  }

  /** How the names relate to the lookup so far. */
  ghost predicate Agrees(dir: Node, names: seq<string>, followed: Result<seq<Node>, Errno>) {
    if followed.Ok? then Along(dir, names, followed.value) else Blocked(dir, names, followed.error)
  }

  lemma AlongPush(dir: Node, names: seq<string>, stack: seq<Node>, c: string, n: Node)
    requires Along(dir, names, stack) && Child(Top(stack), c) == Ok(n)
    ensures Along(dir, names + [c], stack + [n])
  {
    var more := names + [c];
    assert names[..|names|] == names;
    assert more[..|more| - 1] == names;
    forall k | 0 <= k <= |more| ensures Walk(dir, more[..k]) == Ok((stack + [n])[k]) {
      if k <= |names| {
        assert more[..k] == names[..k];
      } else {
        assert more[..k] == more;
      }
    }
  }

  lemma AlongPop(dir: Node, names: seq<string>, stack: seq<Node>)
    requires Along(dir, names, stack) && names != []
    ensures Along(dir, names[..|names| - 1], stack[..|stack| - 1])
    ensures Top(stack[..|stack| - 1]).Dir?
  {
    var fewer := names[..|names| - 1];
    forall k | 0 <= k <= |fewer| ensures Walk(dir, fewer[..k]) == Ok(stack[k]) {
      assert fewer[..k] == names[..k];
    }
    assert names[..|names|] == names;
  }

  /** Pushing a name keeps the two in agreement, whether or not it is there. */
  lemma AgreesPush(dir: Node, comps: seq<string>, i: nat, names: seq<string>)
    requires i < |comps| && Named(comps[i]) && Agrees(dir, names, Follow(dir, comps[..i]))
    ensures Agrees(dir, names + [comps[i]], Follow(dir, comps[..i + 1]))
  {
    Prefixes(comps, i);
    var f, c := Follow(dir, comps[..i]), comps[i];
    assert (names + [c])[..|names|] == names;
    if f.Ok? {
      assert names[..|names|] == names;
      if Child(Top(f.value), c).Ok? {
        AlongPush(dir, names, f.value, c, Child(Top(f.value), c).value);
      }
    }
  }

  lemma AgreesStill(dir: Node, comps: seq<string>, i: nat, names: seq<string>)
    requires i < |comps| && Still(comps[i]) && Agrees(dir, names, Follow(dir, comps[..i]))
    ensures Agrees(dir, names, Follow(dir, comps[..i + 1]))
  {
    Prefixes(comps, i);
    assert names[..|names|] == names;
  }

  /** The names lead to a directory exactly when the lookup stands at one. */
  lemma DirMeans(dir: Node, names: seq<string>, f: Result<seq<Node>, Errno>)
    requires Agrees(dir, names, f) && (f.Ok? ==> f.value != [])
    ensures f.Ok? && Top(f.value).Dir? <==> Walk(dir, names).Ok? && Walk(dir, names).value.Dir?
    ensures f.Ok? ==> Walk(dir, names) == Ok(Top(f.value))
    ensures f.Err? ==> Blocked(dir, names, f.error)
  {
    assert names[..|names|] == names;
  }

  /** A ".." after a directory pops both stacks. */
  lemma AgreesPop(dir: Node, comps: seq<string>, i: nat, names: seq<string>)
    requires i < |comps| && comps[i] == ".." && names != []
    requires Agrees(dir, names, Follow(dir, comps[..i]))
    ensures var f := Follow(dir, comps[..i]);
            var g := Follow(dir, comps[..i + 1]);
            if f.Ok? && Top(f.value).Dir?
            then g.Ok? && Agrees(dir, names[..|names| - 1], g) && Top(g.value).Dir?
            else g.Err? && g.error == if f.Err? then f.error else ENOTDIR
  {
    Prefixes(comps, i);
    var f := Follow(dir, comps[..i]);
    if f.Ok? {
      AlongPop(dir, names, f.value);
    }
  }

  // ----- paths under a base directory

  /** A prefix under which paths are given to the filesystem. */
  predicate IsBase(base: string) {
    base == "" || base[|base| - 1] == '/'
  }

  lemma {:induction false} WalkOn(from: Node, a: seq<string>, b: seq<string>)
    requires Walk(from, a).Ok?
    ensures Walk(from, a + b) == Walk(Walk(from, a).value, b)
  {
    if b == [] {
      assert a + b == a;
    } else {
      WalkOn(from, a, b[..|b| - 1]);
      assert (a + b)[..|a + b| - 1] == a + b[..|b| - 1];
    }
  }

  lemma WalkNone(from: Node)
    ensures Walk(from, []) == Ok(from)
  {
  }

  /** A path under the base leads where its own names lead from the base's directory. */
  lemma Under(root: Node, base: string, path: string)
    requires IsBase(base) && NodeAt(root, base).Ok?
    ensures NodeAt(root, base + path) == Walk(NodeAt(root, base).value, Moves(Split(path, '/')))
    ensures EndsInMove(Split(base + path, '/')) == EndsInMove(Split(path, '/'))
  {
    hide Split, Walk;
    var comps := Split(path, '/');
    if base == "" {
      assert base + path == path;
      SplitOne("", '/');
      LastStill([""]);
      WalkNone(root);
    } else {
      var d := base[..|base| - 1];
      assert base == d + "/";
      SplitAtSep(d, path, '/');
      TrailingSlash(d);
      MovesAppend(Split(d, '/'), comps);
      WalkOn(root, Moves(Split(d, '/')), Moves(comps));
    }
  }

  /** Looking names up under the base is going down from its directory. */
  lemma StatUnder(root: Node, base: string, names: seq<string>)
    requires IsBase(base) && NodeAt(root, base).Ok? && names != [] && AllNamed(names) && FreeOf(names, '/')
    ensures Stat(root, base + Join(names, '/')) == Walk(NodeAt(root, base).value, names)
  {
    hide Split, Join, Walk, NodeAt;
    SplitJoin(names, '/');
    AllMove(names);
    Under(root, base, Join(names, '/'));
  }

  /** Decides whether Follow gets past every ".." of p, and gives its error if not.
      A prefix once found to be a directory costs no second Stat. */
  method DotDotParentsAreDirs(root: Node, base: string, p: string) returns (r: Option<Errno>, ghost names: seq<string>)
    requires IsBase(base) && NodeAt(root, base).Ok? && NodeAt(root, base).value.Dir?
    requires NeverAbove(Split(p, '/'))
    ensures r.None? ==> DotDotsFollow(NodeAt(root, base).value, Split(p, '/'), |Split(p, '/')|) && names == Reduce(Split(p, '/'), false)
                        && Agrees(NodeAt(root, base).value, names, Follow(NodeAt(root, base).value, Split(p, '/')))
    ensures r.Some? ==> exists i :: FailsAt(NodeAt(root, base).value, Split(p, '/'), i, r.value)
  {
    hide Stat, NodeAt, Agrees, Follow, Reduce, NeverAbove;
    var comps := Split(p, '/');
    SplitIsFree(p, '/');
    ghost var dir := NodeAt(root, base).value;
    var parts: seq<string> := [];
    var verified := 0;
    StartsAgreed(dir, comps);
    for i := 0 to |comps|
      invariant parts == Reduce(comps[..i], false) && FreeOf(parts, '/') && verified <= |parts|
      invariant DotDotsFollow(dir, comps, i)
      invariant Agrees(dir, parts, Follow(dir, comps[..i]))
      invariant |parts| == verified ==> AtDirectory(Follow(dir, comps[..i]))
    {
      NextReduced(comps, i);
      var c := comps[i];
      if c == "" || c == "." {
        AgreesStill(dir, comps, i, parts);
        StaysAtDirectory(dir, comps, i);
      } else if c == ".." {
        DirMeans(dir, parts, Follow(dir, comps[..i]));
        AgreesPop(dir, comps, i, parts);
        if |parts| > verified {
          StatUnder(root, base, parts);
          var st := Stat(root, base + Join(parts, '/'));
          if st.Err? || st.value.File? {
            assert FailsAt(dir, comps, i, if st.Err? then st.error else ENOTDIR);
            return Some(if st.Err? then st.error else ENOTDIR), parts;
          }
        }
        parts := parts[..|parts| - 1];
        verified := |parts|;
      } else {
        AgreesPush(dir, comps, i, parts);
        parts := parts + [c];
      }
    }
    assert comps[..|comps|] == comps;
    return None, parts;
  }

  ghost predicate AtDirectory(f: Result<seq<Node>, Errno>) {
    f.Ok? && f.value != [] && Top(f.value).Dir?
  }

  lemma StartsAgreed(dir: Node, comps: seq<string>)
    requires dir.Dir?
    ensures comps[..0] == [] && Reduce([], false) == []
    ensures Agrees(dir, [], Follow(dir, [])) && AtDirectory(Follow(dir, []))
  {
  }

  lemma StaysAtDirectory(dir: Node, comps: seq<string>, i: nat)
    requires i < |comps| && Still(comps[i])
    ensures AtDirectory(Follow(dir, comps[..i])) ==> AtDirectory(Follow(dir, comps[..i + 1]))
  {
    Prefixes(comps, i);
  }

  lemma NextReduced(comps: seq<string>, i: nat)
    requires i < |comps| && NeverAbove(comps)
    ensures AllNamed(Reduce(comps[..i], false))
    ensures Reduce(comps[..i + 1], false) == Reduced(Reduce(comps[..i], false), comps[i], false)
    ensures comps[i] == ".." ==> Reduce(comps[..i], false) != []
  {
    Prefixes(comps, i);
    NeverAbovePrefix(comps, i);
    NeverAbovePrefix(comps, i + 1);
    ReducedNames(comps[..i]);
    ReducedNames(comps[..i + 1]);
  }

  // ----- the whole of a path

  lemma {:induction false} AgreesAll(dir: Node, comps: seq<string>)
    requires NeverAbove(comps) && DotDotsFollow(dir, comps, |comps|)
    ensures Agrees(dir, Reduce(comps, false), Follow(dir, comps))
  {
    if comps != [] {
      var i := |comps| - 1;
      var init := comps[..i];
      NeverAbovePrefix(comps, i);
      forall k | 0 <= k < i && init[k] == ".." ensures Follow(dir, init[..k + 1]).Ok? {
        assert init[..k + 1] == comps[..k + 1];
      }
      AgreesAll(dir, init);
      assert comps[..i + 1] == comps;
      NextReduced(comps, i);
      var names := Reduce(init, false);
      if Still(comps[i]) {
        AgreesStill(dir, comps, i, names);
      } else if comps[i] == ".." {
        AgreesPop(dir, comps, i, names);
      } else {
        AgreesPush(dir, comps, i, names);
      }
    }
  }

  lemma StopsAtFile(dir: Node, comps: seq<string>, names: seq<string>)
    requires dir.Dir? && NeverAbove(comps) && DotDotsFollow(dir, comps, |comps|) && names == Reduce(comps, false)
    requires Walk(dir, names) == Ok(File)
    ensures Follow(dir, comps).Ok? <==> EndsInMove(comps)
  {
    AgreesAll(dir, comps);
    DirMeans(dir, names, Follow(dir, comps));
    if comps != [] {
      var i := |comps| - 1;
      assert comps[..i + 1] == comps;
      Prefixes(comps, i);
      if !Still(comps[i]) {
        NeverAbovePrefix(comps, i);
        DotDotsPrefix(dir, comps, i);
        AgreesAll(dir, comps[..i]);
        NextReduced(comps, i);
        if comps[i] == ".." {
          AgreesPop(dir, comps, i, Reduce(comps[..i], false));
        } else {
          var init := Reduce(comps[..i], false);
          assert names[..|names| - 1] == init;
          DirMeans(dir, init, Follow(dir, comps[..i]));
        }
      }
    }
  }

  lemma DotDotsPrefix(dir: Node, comps: seq<string>, n: nat)
    requires n <= |comps| && DotDotsFollow(dir, comps, |comps|)
    ensures DotDotsFollow(dir, comps[..n], n)
  {
    forall k | 0 <= k < n && comps[..n][k] == ".." ensures Follow(dir, comps[..n][..k + 1]).Ok? {
      assert comps[..n][..k + 1] == comps[..k + 1];
    }
  }

  /** Once every ".." is known to follow a directory, going down the cleaned
      names finds what looking the path up one component at a time finds. The one
      exception is a file with "" or "." after it, which only the cleaned names find. */
  lemma CleanedFindsTheSame(dir: Node, comps: seq<string>)
    requires dir.Dir? && NeverAbove(comps) && DotDotsFollow(dir, comps, |comps|)
    ensures var found := Walk(dir, Reduce(comps, false));
            var f := Follow(dir, comps);
            && (f.Ok? ==> found == Ok(Top(f.value)))
            && (f.Ok? <==> found.Ok? && (found.value.Dir? || EndsInMove(comps)))
            && (f.Err? ==> f.error == if found.Err? then found.error else ENOTDIR)
  {
    var names := Reduce(comps, false);
    AgreesAll(dir, comps);
    DirMeans(dir, names, Follow(dir, comps));
    if Walk(dir, names) == Ok(File) {
      StopsAtFile(dir, comps, names);
    }
  }

  // ----- where a guest's path leads

  /** An open file: the filesystem it is on and the prefix its name gives. */
  datatype Entry = Entry(root: Node, base: string)

  ghost predicate EntryOk(e: Entry) {
    IsBase(e.base) && NodeAt(e.root, e.base).Ok?
  }

  predicate HasDotDot(s: string) {
    exists i :: 0 <= i < |s| - 1 && s[i] == '.' && s[i + 1] == '.'
  }

  lemma {:induction false} FirstPart(s: string)
    ensures Split(s, '/')[0] <= s
  {
    if s != "" {
      FirstPart(s[1..]);
    }
  }

  lemma {:induction false} DotDotShows(s: string, k: nat)
    requires k < |Split(s, '/')| && Split(s, '/')[k] == ".."
    ensures HasDotDot(s)
  {
    FirstPart(s);
    if k == 0 {
      assert s[0] == ".."[0] && s[1] == ".."[1];
    } else if s[0] == '/' {
      DotDotShows(s[1..], k - 1);
      var i :| 0 <= i < |s[1..]| - 1 && s[1..][i] == '.' && s[1..][i + 1] == '.';
      assert s[i + 1] == '.' && s[i + 1 + 1] == '.';
    } else {
      DotDotShows(s[1..], k);
      var i :| 0 <= i < |s[1..]| - 1 && s[1..][i] == '.' && s[1..][i + 1] == '.';
      assert s[i + 1] == '.' && s[i + 1 + 1] == '.';
    }
  }

  lemma TrailingSlash(p: string)
    ensures Moves(Split(p + "/", '/')) == Moves(Split(p, '/'))
  {
    SplitAtSep(p, "", '/');
    assert p + "/" + "" == p + "/";
    LastStill(Split(p, '/') + [""]);
    assert (Split(p, '/') + [""])[..|Split(p, '/')|] == Split(p, '/');
  }

  predicate EndsInSlash(p: string) { p != "" && p[|p| - 1] == '/' }

  /** The cleaned path, with a trailing slash put back. */
  function Resolved(raw: string): string {
    if EndsInSlash(raw) then Clean(raw) + "/" else Clean(raw)
  }

  lemma {:induction false} LastPart(p: string)
    ensures p != "" ==> (Split(p, '/')[|Split(p, '/')| - 1] == "" <==> EndsInSlash(p))
  {
    hide WithFirst;
    if |p| == 1 {
      assert p[1..] == "";
      LastWithFirst(p[0], [""]);
    } else if p != "" {
      LastPart(p[1..]);
      LastWithFirst(p[0], Split(p[1..], '/'));
      assert EndsInSlash(p) == EndsInSlash(p[1..]);
      if |Split(p[1..], '/')| == 1 {
        OnePart(p[1..]);
      }
    }
  }

  lemma LastWithFirst(c: char, parts: seq<string>)
    requires |parts| > 0
    ensures var r := WithFirst(c, parts, '/');
            && (|parts| > 1 || c == '/' ==> r[|r| - 1] == parts[|parts| - 1])
            && (|parts| == 1 && c != '/' ==> r == [[c] + parts[0]])
  {
  }

  lemma OnePart(p: string)
    requires p != "" && |Split(p, '/')| == 1
    ensures Split(p, '/')[0] != ""
  {
  }

  /** The resolved path has the names the path reduces to, and ends in a slash
      exactly where the path does. */
  lemma ResolvedIs(raw: string)
    requires !Rooted(raw) && NeverAbove(Split(raw, '/'))
    ensures Moves(Split(Resolved(raw), '/')) == Reduce(Split(raw, '/'), false)
    ensures Reduce(Split(raw, '/'), false) != [] ==>
              (EndsInMove(Split(Resolved(raw), '/')) <==> Split(raw, '/')[|Split(raw, '/')| - 1] != "")
  {
    hide Split, Join;
    var comps := Split(raw, '/');
    var names := Reduce(comps, false);
    CleanIsValid(raw);
    TrailingSlash(Clean(raw));
    if names != [] {
      SplitIsFree(raw, '/');
      ReducedParts(comps, false);
      SplitJoin(names, '/');
      SplitAtSep(Clean(raw), "", '/');
      assert Clean(raw) + "/" + "" == Clean(raw) + "/";
      SplitOne("", '/');
      LastPart(raw);
      ReduceSomething(raw);
    }
  }

  lemma ReduceSomething(raw: string)
    requires Reduce(Split(raw, '/'), false) != []
    ensures raw != ""
  {
    SplitOne("", '/');
    assert Reduce([""], false) == [];
  }

  ghost function Found(f: Result<seq<Node>, Errno>): Result<Node, Errno>
    requires f.Ok? ==> f.value != []
  {
    if f.Ok? then Ok(Top(f.value)) else Err(f.error)
  }

  /** The names lead to a file, which the path goes on after with a ".". */
  ghost predicate DotAfterFile(dir: Node, comps: seq<string>) {
    comps != [] && Walk(dir, Reduce(comps, false)) == Ok(File) && comps[|comps| - 1] == "."
  }

  /** Looking up the resolved path finds what looking the guest's path up one
      component at a time finds, error for error, except exactly for a file with
      a "." after it: the resolved path finds it, the lookup fails with ENOTDIR. */
  lemma ResolvedFindsTheSame(root: Node, base: string, raw: string)
    requires IsBase(base) && NodeAt(root, base).Ok? && NodeAt(root, base).value.Dir?
    requires !Rooted(raw) && NeverAbove(Split(raw, '/'))
    requires DotDotsFollow(NodeAt(root, base).value, Split(raw, '/'), |Split(raw, '/')|)
    ensures var dir, comps := NodeAt(root, base).value, Split(raw, '/');
            var found := Stat(root, base + Resolved(raw));
            if DotAfterFile(dir, comps) then found == Ok(File) && Follow(dir, comps) == Err(ENOTDIR)
            else found == Found(Follow(dir, comps))
  {
    hide Split, Follow, Reduce, NodeAt, Resolved, NeverAbove, DotDotsFollow;
    var dir, comps := NodeAt(root, base).value, Split(raw, '/');
    ResolvedIs(raw);
    Under(root, base, Resolved(raw));
    CleanedFindsTheSame(dir, comps);
    if Reduce(comps, false) == [] {
      WalkNone(dir);
    }
  }

  /** What the filesystem finds at a path is what looking it up one component at
      a time finds, for any path without a "..". */
  lemma StatIsLookup(root: Node, path: string)
    requires root.Dir? && forall k :: 0 <= k < |Split(path, '/')| ==> Split(path, '/')[k] != ".."
    ensures Stat(root, path) == Found(Follow(root, Split(path, '/')))
  {
    hide Split, Follow;
    NoDotDotReduces(Split(path, '/'));
    CleanedFindsTheSame(root, Split(path, '/'));
  }

  lemma {:induction false} NoDotDotReduces(comps: seq<string>)
    requires forall k :: 0 <= k < |comps| ==> comps[k] != ".."
    ensures NeverAbove(comps) && Reduce(comps, false) == Moves(comps)
  {
    if comps != [] {
      NoDotDotReduces(comps[..|comps| - 1]);
      ReducedNames(comps[..|comps| - 1]);
      NeverAboveMore(comps);
    }
  }

  /** A path that is accepted and finds a file, where a lookup one component at a
      time does not: "f/." with f a file. */
  lemma DotAfterFileIsFound()
    ensures var dir, comps := Dir(map["f" := File]), Split("f/.", '/');
            && !Rooted("f/.") && NeverAbove(comps) && DotDotsFollow(dir, comps, |comps|)
            && Stat(dir, "" + Resolved("f/.")) == Ok(File) && Follow(dir, comps) == Err(ENOTDIR)
  {
    var dir, comps := Dir(map["f" := File]), ["f", "."];
    SplitJoin(comps, '/');
    assert Join(comps, '/') == "f/.";
    assert comps[..1] == ["f"] && ["f"][..0] == [];
    assert Walk(dir, ["f"]) == Ok(File);
    assert Reduce(["f"], false) == ["f"] == Reduce(comps, false);
    NoDotDotReduces(comps);
    assert NodeAt(dir, "") == Ok(dir) by {
      SplitOne("", '/');
      assert Moves([""]) == [];
    }
    ResolvedFindsTheSame(dir, "", "f/.");
  }

  /** The name, relative to the directory, that a guest's path stands for. A path
      is refused when it is absolute or ever stands above the directory, and when
      a ".." in it does not follow a directory. What is found under an accepted
      path is what a lookup one component at a time finds, but for DotAfterFile. */
  method AtDir(entry: Option<Entry>, raw: string) returns (r: Result<string, Errno>)
    requires entry.Some? ==> EntryOk(entry.value)
    ensures r == Err(EPERM) <==> Rooted(raw) || !NeverAbove(Split(raw, '/'))
    ensures r == Err(EBADF) <==> !Rooted(raw) && NeverAbove(Split(raw, '/')) && entry.None?
    ensures entry.Some? && !Rooted(raw) && NeverAbove(Split(raw, '/')) ==>
              var dir := NodeAt(entry.value.root, entry.value.base).value;
              && (r.Ok? <==> dir.Dir? && DotDotsFollow(dir, Split(raw, '/'), |Split(raw, '/')|))
              && (r.Err? ==> if dir.File? then r.error == ENOTDIR else exists i :: FailsAt(dir, Split(raw, '/'), i, r.error))
    ensures r.Ok? ==> Moves(Split(r.value, '/')) == Reduce(Split(raw, '/'), false)
    ensures r.Ok? ==>
              var Entry(root, base) := entry.value;
              var dir, comps := NodeAt(root, base).value, Split(raw, '/');
              if DotAfterFile(dir, comps) then Stat(root, base + r.value) == Ok(File) && Follow(dir, comps) == Err(ENOTDIR)
              else Stat(root, base + r.value) == Found(Follow(dir, comps))
  {
    hide Stat, NodeAt, Follow, Reduce, Clean, ValidPath, NeverAbove, Split, Moves, Agrees, DotAfterFile, Found, DotDotsFollow;
    var pathName := Clean(raw);
    CleanIsValid(raw);
    if !ValidPath(pathName) {
      return Err(EPERM);
    }
    ResolvedIs(raw);
    if raw != "" && raw[|raw| - 1] == '/' {
      pathName := pathName + "/";
    }
    if entry.None? {
      return Err(EBADF);
    }
    var Entry(root, base) := entry.value;
    if NodeAt(root, base).value.File? {
      return Err(ENOTDIR);
    }
    if HasDotDot(raw) {
      var errno, _ := DotDotParentsAreDirs(root, base, raw);
      if errno.Some? {
        FailureIsNot(NodeAt(root, base).value, Split(raw, '/'), errno.value);
        return Err(errno.value);
      }
    } else {
      NoDotDots(NodeAt(root, base).value, raw);
    }
    ResolvedFindsTheSame(root, base, raw);
    return Ok(pathName);
  }

  lemma NoDotDots(dir: Node, raw: string)
    requires !HasDotDot(raw)
    ensures DotDotsFollow(dir, Split(raw, '/'), |Split(raw, '/')|)
  {
    forall k | 0 <= k < |Split(raw, '/')| ensures Split(raw, '/')[k] != ".." {
      if Split(raw, '/')[k] == ".." {
        DotDotShows(raw, k);
      }
    }
  }

  /** A path that never stands above its start is not refused for doing so. */
  lemma {:induction false} NoEscapeError(dir: Node, comps: seq<string>)
    requires dir.Dir? && NeverAbove(comps)
    ensures Follow(dir, comps) != Err(EPERM) && Follow(dir, comps) != Err(EBADF)
    ensures Follow(dir, comps).Ok? ==> |Follow(dir, comps).value| == Height(comps) + 1
  {
    if comps != [] {
      NeverAbovePrefix(comps, |comps| - 1);
      NoEscapeError(dir, comps[..|comps| - 1]);
      assert comps[..|comps|] == comps;
    }
  }

  lemma FailureIsNot(dir: Node, comps: seq<string>, e: Errno)
    requires dir.Dir? && NeverAbove(comps) && exists i :: FailsAt(dir, comps, i, e)
    ensures e != EPERM && e != EBADF && !DotDotsFollow(dir, comps, |comps|)
  {
    var i: nat :| FailsAt(dir, comps, i, e);
    NeverAbovePrefix(comps, i + 1);
    NoEscapeError(dir, comps[..i + 1]);
  }
}
