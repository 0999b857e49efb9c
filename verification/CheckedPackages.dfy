/** Packages as parsed, and the check of each (component/wit/check.go): the sort
of its interfaces and worlds, and the sort of the types of every interface,
world and interface written inline in a world.

Acceptance is stated by what the check succeeds on: distinct names, known
dependencies and acyclic graphs, and uses that name types.
*/
module CheckedPackages {
  import opened Results
  import opened DepGraphs
  import opened Scopes
  import Toposort
  import PackageSort

  /** What a use, an include or an import names, once the file's own top-level
      uses are applied: an item of the package itself or of another. */
  datatype Path = Local(item: string) | Foreign(pkg: string, item: string)

  /** One entry of a scope. on says whether its feature gate keeps it; visible is
      false for a type of another package whose first use's gate leaves it out,
      which no use then finds. */
  datatype Entry =
    | UseEntry(path: Path, name: string, alias: string, on: bool, visible: bool)
    | TypeEntry(name: string, body: TypeBody, on: bool)

  /** An interface written inline in a world, under the name it is imported or
      exported by. */
  datatype Inline = Inline(name: string, entries: seq<Entry>)

  /** An interface or a world. externs are the interfaces the world imports and
      exports by path. */
  datatype Item =
    | Interface(name: string, entries: seq<Entry>, on: bool)
    | World(name: string, entries: seq<Entry>, inlines: seq<Inline>, includes: seq<Path>, externs: seq<Path>, on: bool)

  /** uses are the paths of its files' top-level uses. */
  datatype Package = Package(name: string, items: seq<Item>, uses: seq<Path>)

  // ----- the packages a package names

  function UsePaths(entries: seq<Entry>): seq<Path> {
    if entries == [] then []
    else (if entries[0].UseEntry? then [entries[0].path] else []) + UsePaths(entries[1..])
  }

  function InlinePaths(inlines: seq<Inline>): seq<Path> {
    if inlines == [] then [] else UsePaths(inlines[0].entries) + InlinePaths(inlines[1..])
  }

  function ItemPaths(item: Item): seq<Path> {
    match item
    case Interface(_, entries, _) => UsePaths(entries)
    case World(_, entries, inlines, includes, externs, _) =>
      UsePaths(entries) + includes + externs + InlinePaths(inlines)
  }

  function ItemsPaths(items: seq<Item>): seq<Path> {
    if items == [] then [] else ItemPaths(items[0]) + ItemsPaths(items[1..])
  }

  /** The packages paths name, each once, in the order first named. */
  function ForeignPkgs(paths: seq<Path>): seq<string> {
    if paths == [] then []
    else
      var before, last := ForeignPkgs(paths[..|paths| - 1]), paths[|paths| - 1];
      if last.Foreign? && last.pkg !in before then before + [last.pkg] else before
  }

  function PkgDeps(p: Package): seq<string> {
    ForeignPkgs(ItemsPaths(p.items) + p.uses)
  }

  lemma {:induction false} ForeignPkgsHas(paths: seq<Path>, pkg: string)
    ensures pkg in ForeignPkgs(paths) <==> exists k :: 0 <= k < |paths| && paths[k].Foreign? && paths[k].pkg == pkg
  {
    if paths != [] {
      var last := |paths| - 1;
      var init := paths[..last];
      ForeignPkgsHas(init, pkg);
      if k :| 0 <= k < |init| && init[k].Foreign? && init[k].pkg == pkg {
        assert paths[k].Foreign? && paths[k].pkg == pkg;
      }
      if k :| 0 <= k < |paths| && paths[k].Foreign? && paths[k].pkg == pkg {
        assert k < last ==> init[k].Foreign? && init[k].pkg == pkg;
      }
    }
  }

  lemma {:induction false} UsePathsHave(entries: seq<Entry>, k: nat)
    requires k < |entries| && entries[k].UseEntry?
    ensures entries[k].path in UsePaths(entries)
  {
    if k > 0 {
      UsePathsHave(entries[1..], k - 1);
    }
  }

  lemma {:induction false} InlinePathsHave(inlines: seq<Inline>, j: nat, path: Path)
    requires j < |inlines| && path in UsePaths(inlines[j].entries)
    ensures path in InlinePaths(inlines)
  {
    if j > 0 {
      InlinePathsHave(inlines[1..], j - 1, path);
    }
  }

  lemma {:induction false} ItemsPathsHave(items: seq<Item>, i: nat, path: Path)
    requires i < |items| && path in ItemPaths(items[i])
    ensures path in ItemsPaths(items)
  {
    hide ItemPaths;
    if i > 0 {
      ItemsPathsHave(items[1..], i - 1, path);
    }
  }

  /** Every package an item's path names is a dependency of its package. */
  lemma PathIsDep(p: Package, i: nat, path: Path)
    requires i < |p.items| && path in ItemPaths(p.items[i]) && path.Foreign?
    ensures path.pkg in PkgDeps(p)
  {
    hide ItemPaths, ForeignPkgs;
    ItemsPathsHave(p.items, i, path);
    var paths := ItemsPaths(p.items) + p.uses;
    var k :| 0 <= k < |ItemsPaths(p.items)| && ItemsPaths(p.items)[k] == path;
    assert paths[k] == path;
    ForeignPkgsHas(paths, path.pkg);
  }

  // ----- the scopes of an item

  /** The item's own scope, numbered 0, and those of its inline interfaces. */
  function ScopeCount(item: Item): nat {
    if item.Interface? then 1 else 1 + |item.inlines|
  }

  function ScopeEntries(item: Item, j: nat): seq<Entry>
    requires j < ScopeCount(item)
  {
    if j == 0 then item.entries else item.inlines[j - 1].entries
  }

  lemma ScopePathIsItems(item: Item, j: nat, k: nat)
    requires j < ScopeCount(item) && k < |ScopeEntries(item, j)| && ScopeEntries(item, j)[k].UseEntry?
    ensures ScopeEntries(item, j)[k].path in ItemPaths(item)
  {
    UsePathsHave(ScopeEntries(item, j), k);
    if j > 0 {
      InlinePathsHave(item.inlines, j - 1, ScopeEntries(item, j)[k].path);
    }
  }

  // ----- what the check sorts

  function LocalNames(paths: seq<Path>): seq<string> {
    if paths == [] then [] else (if paths[0].Local? then [paths[0].item] else []) + LocalNames(paths[1..])
  }

  lemma {:induction false} LocalNamesHave(paths: seq<Path>, name: string)
    ensures name in LocalNames(paths) <==> Local(name) in paths
  {
    if paths != [] {
      LocalNamesHave(paths[1..], name);
    }
  }

  /** The items an item comes after: an interface after those it uses, a world
      after those it includes. */
  function SortedAfter(item: Item): seq<string> {
    LocalNames(if item.Interface? then UsePaths(item.entries) else item.includes)
  }

  function ItemKeys(p: Package): (keys: seq<string>)
    ensures |keys| == |p.items| && forall i :: 0 <= i < |keys| ==> keys[i] == p.items[i].name
  {
    seq(|p.items|, i requires 0 <= i < |p.items| => p.items[i].name)
  }

  function ItemDeps(p: Package): Toposort.Deps
    requires Distinct(ItemKeys(p))
  {
    assert forall i, j :: 0 <= i < |p.items| && 0 <= j < |p.items| && p.items[i].name == p.items[j].name ==> i == j by {
      forall i, j | 0 <= i < |p.items| && 0 <= j < |p.items| && p.items[i].name == p.items[j].name ensures i == j {
        assert ItemKeys(p)[i] == ItemKeys(p)[j];
      }
    }
    map i | 0 <= i < |p.items| :: p.items[i].name := SortedAfter(p.items[i])
  }

  lemma DepsOfItem(p: Package, i: nat)
    requires Distinct(ItemKeys(p)) && i < |p.items|
    ensures Toposort.DepsOf(ItemDeps(p), ItemKeys(p)[i]) == SortedAfter(p.items[i])
  {
    hide SortedAfter;
  }

  /** The names a type refers to, in the order they are written. */
  function NameList(t: TypeExpr): seq<string>
    decreases t
  {
    match t
    case Prim(_) => []
    case Named(n) => [n]
    case Handle(_, n) => [n]
    case Compound(_, parts) => NameListParts(parts)
  }

  function NameListParts(parts: seq<Part>): seq<string>
    decreases parts
  {
    if parts == [] then []
    else
      (match parts[0]
       case Absent => []
       case Present(t) => assert t < parts[0]; NameList(t)) + NameListParts(parts[1..])
  }

  function EntryName(e: Entry): string {
    if e.UseEntry? then e.alias else e.name
  }

  function EntryDeps(e: Entry): seq<string> {
    if e.TypeEntry? && e.body.Defined? then NameList(e.body.expr) else []
  }

  /** The names an interface defines, each where it first does. */
  function TypeKeys(entries: seq<Entry>): seq<string> {
    if entries == [] then []
    else
      var last, before := entries[|entries| - 1], TypeKeys(entries[..|entries| - 1]);
      if EntryName(last) in before then before else before + [EntryName(last)]
  }

  /** What each name depends on; a use takes the place of a type before it. */
  function TypeDeps(entries: seq<Entry>): Toposort.Deps {
    if entries == [] then map[]
    else
      var last := entries[|entries| - 1];
      TypeDeps(entries[..|entries| - 1])[EntryName(last) := EntryDeps(last)]
  }

  /** No type is defined under a name already there, and no use under the name
      of another. */
  ghost predicate NoRedefinition(entries: seq<Entry>) {
    forall j, k :: 0 <= j < k < |entries| && (entries[k].TypeEntry? || entries[j].UseEntry?) ==>
                     EntryName(entries[j]) != EntryName(entries[k])
  }

  // ----- acceptance

  predicate IsInterface(p: Package, i: nat, name: string) {
    i < |p.items| && p.items[i].Interface? && p.items[i].name == name
  }

  predicate IsWorld(p: Package, i: nat, name: string) {
    i < |p.items| && p.items[i].World? && p.items[i].name == name
  }

  /** A use of the package itself names a type, or a use, of one of its
      interfaces. */
  ghost predicate UseOk(p: Package, e: Entry) {
    e.UseEntry? && e.path.Local? ==>
      exists i: nat :: IsInterface(p, i, e.path.item) && e.name in TypeKeys(p.items[i].entries)
  }

  ghost predicate TypesSort(entries: seq<Entry>) {
    && NoRedefinition(entries)
    && Toposort.AllKnown(TypeKeys(entries), TypeDeps(entries))
    && Acyclic(Toposort.GraphOf(TypeKeys(entries), TypeDeps(entries)))
  }

  ghost predicate ScopeOk(p: Package, entries: seq<Entry>) {
    TypesSort(entries) && forall k :: 0 <= k < |entries| ==> UseOk(p, entries[k])
  }

  ghost predicate IncludeOk(p: Package, path: Path) {
    path.Local? ==> exists i: nat :: IsWorld(p, i, path.item)
  }

  ghost predicate ExternOk(p: Package, path: Path) {
    path.Local? ==> exists i: nat :: IsInterface(p, i, path.item)
  }

  ghost predicate ItemOk(p: Package, item: Item) {
    && (forall j :: 0 <= j < ScopeCount(item) ==> ScopeOk(p, ScopeEntries(item, j)))
    && (item.World? ==>
          && (forall k :: 0 <= k < |item.includes| ==> IncludeOk(p, item.includes[k]))
          && forall k :: 0 <= k < |item.externs| ==> ExternOk(p, item.externs[k]))
  }

  ghost predicate ItemsSort(p: Package) {
    && Distinct(ItemKeys(p))
    && Toposort.AllKnown(ItemKeys(p), ItemDeps(p))
    && Acyclic(Toposort.GraphOf(ItemKeys(p), ItemDeps(p)))
  }

  ghost predicate PackageOk(p: Package) {
    ItemsSort(p) && forall i :: 0 <= i < |p.items| ==> ItemOk(p, p.items[i])
  }

  function Raw(pkgs: seq<Package>): (raw: seq<PackageSort.Package>)
    ensures |raw| == |pkgs|
    ensures forall i :: 0 <= i < |raw| ==> raw[i] == PackageSort.Package(pkgs[i].name, PkgDeps(pkgs[i]))
  {
    seq(|pkgs|, i requires 0 <= i < |pkgs| => PackageSort.Package(pkgs[i].name, PkgDeps(pkgs[i])))
  }

  /** The packages that the check of each and the sort of all accept. */
  ghost predicate Accepted(pkgs: seq<Package>) {
    && PackageSort.DistinctNames(Raw(pkgs))
    && Acyclic(PackageSort.GraphOf(Raw(pkgs)))
    && forall p :: 0 <= p < |pkgs| ==> PackageOk(pkgs[p])
  }

  // ----- names and entries

  lemma {:induction false} NameListNames(t: TypeExpr, n: string)
    ensures n in NameList(t) <==> n in NamesIn(t)
    decreases t
  {
    match t
    case Prim(_) =>
    case Named(_) =>
    case Handle(_, _) =>
    case Compound(_, parts) => NameListPartsNames(parts, n);
  }

  lemma {:induction false} NameListPartsNames(parts: seq<Part>, n: string)
    ensures n in NameListParts(parts) <==> n in NamesInParts(parts)
    decreases parts
  {
    if parts != [] {
      match parts[0] {
        case Absent =>
        case Present(t) =>
          assert t < parts[0];
          NameListNames(t, n);
      }
      NameListPartsNames(parts[1..], n);
    }
  }

  lemma {:induction false} KeyComesFrom(entries: seq<Entry>, n: string) returns (k: nat)
    requires n in TypeKeys(entries)
    ensures k < |entries| && EntryName(entries[k]) == n
  {
    var last := |entries| - 1;
    if n in TypeKeys(entries[..last]) {
      k := KeyComesFrom(entries[..last], n);
    } else {
      k := last;
    }
  }

  lemma NoRedefinitionBefore(entries: seq<Entry>)
    requires entries != [] && NoRedefinition(entries)
    ensures NoRedefinition(entries[..|entries| - 1])
  {
    var init := entries[..|entries| - 1];
    forall j, k | 0 <= j < k < |init| && (init[k].TypeEntry? || init[j].UseEntry?)
      ensures EntryName(init[j]) != EntryName(init[k])
    {
      assert init[j] == entries[j] && init[k] == entries[k];
    }
  }

  lemma {:induction false} TypeKeysDistinct(entries: seq<Entry>)
    ensures Distinct(TypeKeys(entries))
  {
    if entries != [] {
      TypeKeysDistinct(entries[..|entries| - 1]);
    }
  }

  // ----- running the check

  /** The item of a name, if there is one: the first. */
  method FindItem(p: Package, name: string) returns (r: Option<nat>)
    ensures r.Some? ==> r.value < |p.items| && p.items[r.value].name == name
    ensures r.None? ==> forall i :: 0 <= i < |p.items| ==> p.items[i].name != name
  {
    for i := 0 to |p.items|
      invariant forall j :: 0 <= j < i ==> p.items[j].name != name
    {
      if p.items[i].name == name {
        return Some(i);
      }
    }
    return None;
  }

  lemma OnlyItem(p: Package, i: nat, j: nat)
    requires Distinct(ItemKeys(p)) && i < |p.items| && j < |p.items| && p.items[i].name == p.items[j].name
    ensures i == j
  {
    assert ItemKeys(p)[i] == ItemKeys(p)[j];
  }

  /** Whether every use names a type of an interface and takes a name no other use has. */
  method CheckUses(p: Package, entries: seq<Entry>) returns (ok: bool)
    requires Distinct(ItemKeys(p))
    ensures ok <==>
            && (forall k :: 0 <= k < |entries| ==> UseOk(p, entries[k]))
            && forall j, k :: 0 <= j < k < |entries| && entries[j].UseEntry? && entries[k].UseEntry? ==>
                                entries[j].alias != entries[k].alias
  {
    var aliases: set<string> := {};
    for k := 0 to |entries|
      invariant forall j :: 0 <= j < k ==> UseOk(p, entries[j])
      invariant forall a :: a in aliases <==> exists j :: 0 <= j < k && entries[j].UseEntry? && entries[j].alias == a
      invariant forall i, j :: 0 <= i < j < k && entries[i].UseEntry? && entries[j].UseEntry? ==>
                                 entries[i].alias != entries[j].alias
    {
      var e := entries[k];
      if e.UseEntry? {
        var good := CheckUse(p, e);
        if !good {
          return false;
        }
        if e.alias in aliases {
          return false;
        }
        aliases := aliases + {e.alias};
      }
    }
    ok := true;
  }

  method CheckUse(p: Package, e: Entry) returns (ok: bool)
    requires Distinct(ItemKeys(p)) && e.UseEntry?
    ensures ok <==> UseOk(p, e)
  {
    if e.path.Foreign? {
      return true;
    }
    var at := FindItem(p, e.path.item);
    if at.None? || p.items[at.value].World? {
      if i: nat :| IsInterface(p, i, e.path.item) {
        OnlyItem(p, i, at.value);
      }
      return false;
    }
    ok := e.name in TypeKeys(p.items[at.value].entries);
    if ok {
      assert IsInterface(p, at.value, e.path.item);
    } else if i: nat :| IsInterface(p, i, e.path.item) && e.name in TypeKeys(p.items[i].entries) {
      OnlyItem(p, i, at.value);
    }
  }

  /** Whether no type is defined under a name that is already there. */
  method CheckDefinitions(entries: seq<Entry>) returns (ok: bool)
    ensures ok <==> forall j, k :: 0 <= j < k < |entries| && entries[k].TypeEntry? ==> EntryName(entries[j]) != EntryName(entries[k])
  {
    var names: set<string> := {};
    for k := 0 to |entries|
      invariant forall n :: n in names <==> exists j :: 0 <= j < k && EntryName(entries[j]) == n
      invariant forall i, j :: 0 <= i < j < k && entries[j].TypeEntry? ==> EntryName(entries[i]) != EntryName(entries[j])
    {
      var n := EntryName(entries[k]);
      if entries[k].TypeEntry? && n in names {
        return false;
      }
      names := names + {n};
    }
    ok := true;
  }

  /** Whether a scope's uses are good, its names are its own and its types sort. */
  method CheckTypes(p: Package, entries: seq<Entry>) returns (ok: bool)
    requires Distinct(ItemKeys(p))
    ensures ok <==> ScopeOk(p, entries)
  {
    hide UseOk;
    ok := CheckUses(p, entries);
    if !ok {
      return;
    }
    ok := CheckDefinitions(entries);
    if !ok {
      return;
    }
    TypeKeysDistinct(entries);
    var r := Toposort.Sort(TypeKeys(entries), TypeDeps(entries));
    ok := r.Ok?;
  }

  method AllDistinct(keys: seq<string>) returns (ok: bool)
    ensures ok <==> Distinct(keys)
  {
    for k := 0 to |keys|
      invariant Distinct(keys[..k])
    {
      if keys[k] in keys[..k] {
        var j :| 0 <= j < k && keys[j] == keys[k];
        assert !Distinct(keys);
        return false;
      }
      assert keys[..k + 1] == keys[..k] + [keys[k]];
    }
    assert keys[..|keys|] == keys;
    ok := true;
  }

  /** Whether every path of the package itself names an item of the right kind. */
  method CheckPaths(p: Package, paths: seq<Path>, worlds: bool) returns (ok: bool)
    requires Distinct(ItemKeys(p))
    ensures ok <==> forall k :: 0 <= k < |paths| ==> if worlds then IncludeOk(p, paths[k]) else ExternOk(p, paths[k])
  {
    for k := 0 to |paths|
      invariant forall j :: 0 <= j < k ==> if worlds then IncludeOk(p, paths[j]) else ExternOk(p, paths[j])
    {
      var good := CheckPath(p, paths[k], worlds);
      if !good {
        return false;
      }
    }
    ok := true;
  }

  method CheckPath(p: Package, path: Path, world: bool) returns (ok: bool)
    requires Distinct(ItemKeys(p))
    ensures ok <==> if world then IncludeOk(p, path) else ExternOk(p, path)
  {
    if path.Foreign? {
      return true;
    }
    var at := FindItem(p, path.item);
    if at.None? {
      return false;
    }
    ok := p.items[at.value].World? == world;
    if ok {
      assert if world then IsWorld(p, at.value, path.item) else IsInterface(p, at.value, path.item);
    } else if i: nat :| if world then IsWorld(p, i, path.item) else IsInterface(p, i, path.item) {
      OnlyItem(p, i, at.value);
    }
  }

  method CheckItem(p: Package, item: Item) returns (ok: bool)
    requires Distinct(ItemKeys(p))
    ensures ok <==> ItemOk(p, item)
  {
    hide ScopeOk, IncludeOk, ExternOk;
    for j := 0 to ScopeCount(item)
      invariant forall i :: 0 <= i < j ==> ScopeOk(p, ScopeEntries(item, i))
    {
      var good := CheckTypes(p, ScopeEntries(item, j));
      if !good {
        return false;
      }
    }
    if item.Interface? {
      return true;
    }
    ok := CheckPaths(p, item.includes, true);
    if ok {
      ok := CheckPaths(p, item.externs, false);
    }
  }

  /** Whether a package's items have names of their own and sort, and each of
      them is good. */
  method CheckPackage(p: Package) returns (ok: bool)
    ensures ok <==> PackageOk(p)
  {
    hide ItemOk, Acyclic, Toposort.AllKnown, Toposort.FirstUnknown, Toposort.Names, Toposort.GraphOf, ItemDeps, Distinct,
         LexLeast, ReachesCycle;
    var keys := ItemKeys(p);
    var distinct := AllDistinct(keys);
    if !distinct {
      return false;
    }
    var r := Toposort.Sort(keys, ItemDeps(p));
    if r.Err? {
      return false;
    }
    ok := CheckItems(p);
  }

  method CheckItems(p: Package) returns (ok: bool)
    requires Distinct(ItemKeys(p))
    ensures ok <==> forall i :: 0 <= i < |p.items| ==> ItemOk(p, p.items[i])
  {
    hide ItemOk, Distinct;
    for i := 0 to |p.items|
      invariant forall j :: 0 <= j < i ==> ItemOk(p, p.items[j])
    {
      var good := CheckItem(p, p.items[i]);
      if !good {
        return false;
      }
    }
    ok := true;
  }

  /** The checks and the sort accept exactly the accepted packages, whatever order
      the packages are visited in. */
  method CheckAll(pkgs: seq<Package>, visited: seq<nat>) returns (ok: bool)
    requires PackageSort.IsArrangement(visited, |pkgs|)
    ensures ok <==> Accepted(pkgs)
  {
    hide PackageOk, Acyclic;
    for p := 0 to |pkgs|
      invariant forall q :: 0 <= q < p ==> PackageOk(pkgs[q])
    {
      var good := CheckPackage(pkgs[p]);
      if !good {
        return false;
      }
    }
    var r := PackageSort.SortPackages(Raw(pkgs), visited);
    ok := r.Ok?;
  }
}
