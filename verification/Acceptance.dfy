/** Which packages are accepted, said of what is written in them (component/wit/check.go,
    component/wit/resolve.go): no table of names or dependencies is mentioned, so
    that what the sorts are given is seen to be right. */
module Acceptance {
  import opened DepGraphs
  import opened Scopes
  import opened CheckedPackages
  import opened Circles
  import Toposort
  import PackageSort

  // ----- one scope

  /** A use goes by its alias. */
  ghost predicate NamedAs(e: Entry, n: string) {
    match e
    case UseEntry(_, _, alias, _, _) => alias == n
    case TypeEntry(name, _, _) => name == n
  }

  ghost predicate IsName(entries: seq<Entry>, n: string) {
    exists k :: 0 <= k < |entries| && NamedAs(entries[k], n)
  }

  /** A name is taken once, but that a use may take over the name of a type before
      it. */
  ghost predicate NamesApart(entries: seq<Entry>) {
    forall j, k, n :: 0 <= j < k < |entries| && NamedAs(entries[j], n) && NamedAs(entries[k], n) ==>
                        entries[j].TypeEntry? && entries[k].UseEntry?
  }

  /** Entry k has the name and no later one takes it over. */
  ghost predicate Stands(entries: seq<Entry>, k: nat, n: string) {
    && k < |entries| && NamedAs(entries[k], n)
    && forall j :: k < j < |entries| ==> !NamedAs(entries[j], n)
  }

  /** The type called n mentions m. Uses and resources mention nothing. */
  ghost predicate Mentions(entries: seq<Entry>, n: string, m: string) {
    exists k: nat :: Stands(entries, k, n) && BodyMentions(entries[k], m)
  }

  ghost predicate BodyMentions(e: Entry, m: string) {
    e.TypeEntry? && e.body.Defined? && m in NamesIn(e.body.expr)
  }

  ghost function MentionsIn(entries: seq<Entry>): Link {
    (n, m) => Mentions(entries, n, m)
  }

  /** A use of the package itself names something of one of its interfaces. */
  ghost predicate UseGood(p: Package, e: Entry) {
    e.UseEntry? && e.path.Local? ==>
      exists i :: 0 <= i < |p.items| && p.items[i].Interface? && p.items[i].name == e.path.item && IsName(p.items[i].entries, e.name)
  }

  ghost predicate ScopeGood(p: Package, entries: seq<Entry>) {
    && NamesApart(entries)
    && (forall k :: 0 <= k < |entries| ==> UseGood(p, entries[k]))
    && (forall n, m :: Mentions(entries, n, m) ==> IsName(entries, m))
    && NoCircle(MentionsIn(entries))
  }

  // ----- one package

  /** The item called a is an interface that uses b, or a world that includes it. */
  ghost predicate ItemNeeds(p: Package, a: string, b: string) {
    exists i :: 0 <= i < |p.items| && p.items[i].name == a && NeedsLocal(p.items[i], b)
  }

  ghost predicate NeedsLocal(item: Item, b: string) {
    if item.Interface? then exists k :: 0 <= k < |item.entries| && item.entries[k].UseEntry? && item.entries[k].path == Local(b)
    else Local(b) in item.includes
  }

  ghost function NeedsIn(p: Package): Link {
    (a, b) => ItemNeeds(p, a, b)
  }

  ghost predicate IsItem(p: Package, world: bool, name: string) {
    exists i :: 0 <= i < |p.items| && p.items[i].World? == world && p.items[i].name == name
  }

  ghost predicate ItemGood(p: Package, item: Item) {
    && ScopeGood(p, item.entries)
    && (item.World? ==>
          && (forall j :: 0 <= j < |item.inlines| ==> ScopeGood(p, item.inlines[j].entries))
          && (forall k :: 0 <= k < |item.includes| && item.includes[k].Local? ==> IsItem(p, true, item.includes[k].item))
          && forall k :: 0 <= k < |item.externs| && item.externs[k].Local? ==> IsItem(p, false, item.externs[k].item))
  }

  ghost predicate PackageGood(p: Package) {
    && (forall i, j :: 0 <= i < j < |p.items| ==> p.items[i].name != p.items[j].name)
    && (forall a, b :: ItemNeeds(p, a, b) ==> IsItem(p, false, b) || IsItem(p, true, b))
    && NoCircle(NeedsIn(p))
    && forall i :: 0 <= i < |p.items| ==> ItemGood(p, p.items[i])
  }

  // ----- all packages

  ghost predicate Uses(entries: seq<Entry>, pkg: string) {
    exists k :: 0 <= k < |entries| && entries[k].UseEntry? && entries[k].path.Foreign? && entries[k].path.pkg == pkg
  }

  ghost predicate Among(paths: seq<Path>, pkg: string) {
    exists k :: 0 <= k < |paths| && paths[k].Foreign? && paths[k].pkg == pkg
  }

  /** Something the item says names the package. */
  ghost predicate Refers(item: Item, pkg: string) {
    || Uses(item.entries, pkg)
    || (item.World? && (Among(item.includes, pkg) || Among(item.externs, pkg)
                        || exists j :: 0 <= j < |item.inlines| && Uses(item.inlines[j].entries, pkg)))
  }

  /** The given package a refers to the given package b. */
  ghost predicate PackageNeeds(pkgs: seq<Package>, a: string, b: string) {
    exists p, q :: 0 <= p < |pkgs| && 0 <= q < |pkgs| && pkgs[p].name == a && pkgs[q].name == b && RefersTo(pkgs[p], b)
  }

  ghost predicate RefersTo(p: Package, b: string) {
    Among(p.uses, b) || exists i :: 0 <= i < |p.items| && Refers(p.items[i], b)
  }

  ghost function NeedsAmong(pkgs: seq<Package>): Link {
    (a, b) => PackageNeeds(pkgs, a, b)
  }

  ghost predicate Good(pkgs: seq<Package>) {
    && (forall p, q :: 0 <= p < q < |pkgs| ==> pkgs[p].name != pkgs[q].name)
    && NoCircle(NeedsAmong(pkgs))
    && forall p :: 0 <= p < |pkgs| ==> PackageGood(pkgs[p])
  }

  // ----- the tables of a scope

  lemma NamedByEntryName(e: Entry, n: string)
    ensures NamedAs(e, n) <==> EntryName(e) == n
  {
  }

  lemma {:induction false} KeysAreNames(entries: seq<Entry>, n: string)
    ensures n in TypeKeys(entries) <==> IsName(entries, n)
  {
    if entries != [] {
      var last := |entries| - 1;
      var init := entries[..last];
      KeysAreNames(init, n);
      NamedByEntryName(entries[last], n);
      assert IsName(entries, n) <==> IsName(init, n) || NamedAs(entries[last], n) by {
        if k :| 0 <= k < |init| && NamedAs(init[k], n) {
          assert NamedAs(entries[k], n);
        }
        if k :| 0 <= k < |entries| && NamedAs(entries[k], n) {
          assert k < last ==> NamedAs(init[k], n);
        }
      }
    }
  }

  lemma StandsBefore(entries: seq<Entry>, k: nat, n: string)
    requires entries != [] && !NamedAs(entries[|entries| - 1], n)
    ensures Stands(entries, k, n) <==> Stands(entries[..|entries| - 1], k, n)
  {
    var init := entries[..|entries| - 1];
    if Stands(init, k, n) {
      forall j | k < j < |entries| ensures !NamedAs(entries[j], n) {
        assert j < |init| ==> !NamedAs(init[j], n);
      }
    }
    if Stands(entries, k, n) {
      forall j | k < j < |init| ensures !NamedAs(init[j], n) {
        assert !NamedAs(entries[j], n);
      }
    }
  }

  lemma LastStands(entries: seq<Entry>, k: nat, n: string)
    requires entries != [] && NamedAs(entries[|entries| - 1], n)
    ensures Stands(entries, k, n) <==> k == |entries| - 1
  {
  }

  lemma {:induction false} DepsAreMentions(entries: seq<Entry>, n: string, m: string)
    ensures m in Toposort.DepsOf(TypeDeps(entries), n) <==> Mentions(entries, n, m)
  {
    if entries != [] {
      var last := |entries| - 1;
      var e, init := entries[last], entries[..last];
      DepsAreMentions(init, n, m);
      NamedByEntryName(e, n);
      if NamedAs(e, n) {
        LastStands(entries, last, n);
        forall k: nat | Stands(entries, k, n) ensures k == last {
          LastStands(entries, k, n);
        }
        EntryDepsAreMentions(e, m);
      } else {
        forall k: nat ensures Stands(entries, k, n) <==> Stands(init, k, n) {
          StandsBefore(entries, k, n);
        }
        assert Mentions(entries, n, m) <==> Mentions(init, n, m) by {
          if k: nat :| Stands(init, k, n) && BodyMentions(init[k], m) {
            assert Stands(entries, k, n) && BodyMentions(entries[k], m);
          }
          if k: nat :| Stands(entries, k, n) && BodyMentions(entries[k], m) {
            assert Stands(init, k, n) && BodyMentions(init[k], m);
          }
        }
      }
    }
  }

  lemma EntryDepsAreMentions(e: Entry, m: string)
    ensures m in EntryDeps(e) <==> BodyMentions(e, m)
  {
    if e.TypeEntry? && e.body.Defined? {
      NameListNames(e.body.expr, m);
    }
  }

  lemma TypesDependBy(entries: seq<Entry>)
    ensures DependsBy(TypeKeys(entries), TypeDeps(entries), MentionsIn(entries))
  {
    hide TypeDeps, TypeKeys, Mentions;
    TypeKeysDistinct(entries);
    var keys, link := TypeKeys(entries), MentionsIn(entries);
    forall n, m | link(n, m) ensures n in keys {
      KeysAreNames(entries, n);
      MentionedByName(entries, n, m);
    }
    forall a, m | 0 <= a < |keys| ensures link(keys[a], m) <==> m in Toposort.DepsOf(TypeDeps(entries), keys[a]) {
      DepsAreMentions(entries, keys[a], m);
    }
  }

  lemma MentionedByName(entries: seq<Entry>, n: string, m: string)
    requires Mentions(entries, n, m)
    ensures IsName(entries, n)
  {
  }

  lemma UseOkIff(p: Package, e: Entry)
    ensures UseOk(p, e) <==> UseGood(p, e)
  {
    hide IsName, TypeKeys;
    if e.UseEntry? && e.path.Local? {
      forall i | 0 <= i < |p.items| ensures e.name in TypeKeys(p.items[i].entries) <==> IsName(p.items[i].entries, e.name) {
        KeysAreNames(p.items[i].entries, e.name);
      }
      if i: nat :| IsInterface(p, i, e.path.item) && e.name in TypeKeys(p.items[i].entries) {
        assert IsName(p.items[i].entries, e.name);
      }
      if i :| 0 <= i < |p.items| && p.items[i].Interface? && p.items[i].name == e.path.item && IsName(p.items[i].entries, e.name) {
        assert IsInterface(p, i, e.path.item);
      }
    }
  }

  lemma NoRedefinitionIff(entries: seq<Entry>)
    ensures NoRedefinition(entries) <==> NamesApart(entries)
  {
    if NamesApart(entries) {
      forall j, k | 0 <= j < k < |entries| && (entries[k].TypeEntry? || entries[j].UseEntry?)
        ensures EntryName(entries[j]) != EntryName(entries[k])
      {
        NamedByEntryName(entries[j], EntryName(entries[j]));
        NamedByEntryName(entries[k], EntryName(entries[j]));
      }
    }
  }

  /** A scope is accepted exactly when its names are apart, its uses name something,
      and its types mention only its names and none of them itself, however far
      the mentions go. */
  lemma ScopeOkIff(p: Package, entries: seq<Entry>)
    ensures ScopeOk(p, entries) <==> ScopeGood(p, entries)
  {
    hide Mentions, UseOk, UseGood, NoRedefinition, NamesApart, TypeKeys, TypeDeps, IsName, Acyclic, NoCircle, Toposort.AllKnown;
    NoRedefinitionIff(entries);
    forall k | 0 <= k < |entries| ensures UseOk(p, entries[k]) <==> UseGood(p, entries[k]) {
      UseOkIff(p, entries[k]);
    }
    forall m ensures m in TypeKeys(entries) <==> IsName(entries, m) {
      KeysAreNames(entries, m);
    }
    TypesDependBy(entries);
    SortsIff(TypeKeys(entries), TypeDeps(entries), MentionsIn(entries));
    forall n, m ensures MentionsIn(entries)(n, m) <==> Mentions(entries, n, m) {}
  }

  // ----- the tables of a package

  lemma {:induction false} UsePathsAre(entries: seq<Entry>, path: Path)
    ensures path in UsePaths(entries) <==> exists k :: 0 <= k < |entries| && entries[k].UseEntry? && entries[k].path == path
  {
    if entries != [] {
      UsePathsAre(entries[1..], path);
      if k :| 0 <= k < |entries[1..]| && entries[1..][k].UseEntry? && entries[1..][k].path == path {
        assert entries[k + 1].UseEntry? && entries[k + 1].path == path;
      }
      if k :| 0 <= k < |entries| && entries[k].UseEntry? && entries[k].path == path {
        assert k > 0 ==> entries[1..][k - 1].UseEntry? && entries[1..][k - 1].path == path;
      }
    }
  }

  lemma SortedAfterNeeds(item: Item, b: string)
    ensures b in SortedAfter(item) <==> NeedsLocal(item, b)
  {
    hide UsePaths, LocalNames;
    LocalNamesHave(if item.Interface? then UsePaths(item.entries) else item.includes, b);
    UsePathsAre(item.entries, Local(b));
  }

  lemma NeedsOf(p: Package, a: nat, b: string)
    requires Distinct(ItemKeys(p)) && a < |p.items|
    ensures ItemNeeds(p, p.items[a].name, b) <==> NeedsLocal(p.items[a], b)
  {
    hide NeedsLocal;
    if i :| 0 <= i < |p.items| && p.items[i].name == p.items[a].name && NeedsLocal(p.items[i], b) {
      OnlyItem(p, i, a);
    }
  }

  lemma ItemsDependBy(p: Package)
    requires Distinct(ItemKeys(p))
    ensures DependsBy(ItemKeys(p), ItemDeps(p), NeedsIn(p))
  {
    hide NeedsLocal, SortedAfter, ItemDeps;
    var keys, link := ItemKeys(p), NeedsIn(p);
    forall n, m | link(n, m) ensures n in keys {
      var i :| 0 <= i < |p.items| && p.items[i].name == n && NeedsLocal(p.items[i], m);
      assert keys[i] == n;
    }
    forall a, m | 0 <= a < |keys| ensures link(keys[a], m) <==> m in Toposort.DepsOf(ItemDeps(p), keys[a]) {
      NeedsOf(p, a, m);
      DepsOfItem(p, a);
      SortedAfterNeeds(p.items[a], m);
    }
  }

  lemma ItemKeyIs(p: Package, name: string)
    ensures name in ItemKeys(p) <==> IsItem(p, false, name) || IsItem(p, true, name)
  {
    var keys := ItemKeys(p);
    if name in keys {
      var i :| 0 <= i < |keys| && keys[i] == name;
      assert p.items[i].World? == p.items[i].World? && p.items[i].name == name;
      assert IsItem(p, p.items[i].World?, name);
    }
    if world: bool :| IsItem(p, world, name) {
      var i :| 0 <= i < |p.items| && p.items[i].World? == world && p.items[i].name == name;
      assert keys[i] == name;
    }
  }

  ghost predicate ItemsApart(p: Package) {
    forall i, j :: 0 <= i < j < |p.items| ==> p.items[i].name != p.items[j].name
  }

  lemma ItemsApartIff(p: Package)
    ensures Distinct(ItemKeys(p)) <==> ItemsApart(p)
  {
    var keys := ItemKeys(p);
    if Distinct(keys) {
      forall i, j | 0 <= i < j < |p.items| ensures p.items[i].name != p.items[j].name {
        assert keys[i] != keys[j];
      }
    }
  }

  lemma ItemsSortIff(p: Package)
    ensures ItemsSort(p) <==>
            && ItemsApart(p) && NoCircle(NeedsIn(p))
            && forall a, b :: ItemNeeds(p, a, b) ==> IsItem(p, false, b) || IsItem(p, true, b)
  {
    hide ItemNeeds, ItemsApart, IsItem, ItemDeps, Acyclic, NoCircle, Toposort.AllKnown, Distinct;
    ItemsApartIff(p);
    if Distinct(ItemKeys(p)) {
      ItemsDependBy(p);
      SortsIff(ItemKeys(p), ItemDeps(p), NeedsIn(p));
      forall b ensures b in ItemKeys(p) <==> IsItem(p, false, b) || IsItem(p, true, b) {
        ItemKeyIs(p, b);
      }
      forall a, b ensures NeedsIn(p)(a, b) <==> ItemNeeds(p, a, b) {}
    }
  }

  lemma PathsOkIff(p: Package, path: Path)
    ensures IncludeOk(p, path) <==> (path.Local? ==> IsItem(p, true, path.item))
    ensures ExternOk(p, path) <==> (path.Local? ==> IsItem(p, false, path.item))
  {
    if path.Local? {
      if i: nat :| IsWorld(p, i, path.item) {
        assert p.items[i].World? == true && p.items[i].name == path.item;
      }
      if i: nat :| IsInterface(p, i, path.item) {
        assert p.items[i].World? == false && p.items[i].name == path.item;
      }
      if i :| 0 <= i < |p.items| && p.items[i].World? == true && p.items[i].name == path.item {
        assert IsWorld(p, i, path.item);
      }
      if i :| 0 <= i < |p.items| && p.items[i].World? == false && p.items[i].name == path.item {
        assert IsInterface(p, i, path.item);
      }
    }
  }

  ghost predicate ScopesGood(p: Package, item: Item) {
    && ScopeGood(p, item.entries)
    && (item.World? ==> forall j :: 0 <= j < |item.inlines| ==> ScopeGood(p, item.inlines[j].entries))
  }

  lemma ScopesOkIff(p: Package, item: Item)
    ensures (forall j :: 0 <= j < ScopeCount(item) ==> ScopeOk(p, ScopeEntries(item, j))) <==> ScopesGood(p, item)
  {
    forall j | 0 <= j < ScopeCount(item) ensures ScopeOk(p, ScopeEntries(item, j)) <==> ScopeGood(p, ScopeEntries(item, j)) {
      ScopeOkIff(p, ScopeEntries(item, j));
    }
    hide ScopeOk, ScopeGood;
    if forall j :: 0 <= j < ScopeCount(item) ==> ScopeOk(p, ScopeEntries(item, j)) {
      assert ScopeEntries(item, 0) == item.entries;
      if item.World? {
        forall j | 0 <= j < |item.inlines| ensures ScopeGood(p, item.inlines[j].entries) {
          assert ScopeEntries(item, j + 1) == item.inlines[j].entries;
        }
      }
    }
  }

  lemma ItemOkIff(p: Package, item: Item)
    ensures ItemOk(p, item) <==> ItemGood(p, item)
  {
    ScopesOkIff(p, item);
    forall path ensures IncludeOk(p, path) <==> (path.Local? ==> IsItem(p, true, path.item))
      ensures ExternOk(p, path) <==> (path.Local? ==> IsItem(p, false, path.item))
    {
      PathsOkIff(p, path);
    }
    hide ScopeOk, ScopeGood, IncludeOk, ExternOk, IsItem, ScopeEntries, ScopeCount;
  }

  lemma PackageOkIff(p: Package)
    ensures PackageOk(p) <==> PackageGood(p)
  {
    hide ItemOk, ItemGood, ItemNeeds, IsItem, NoCircle, ItemsSort;
    ItemsSortIff(p);
    forall i | 0 <= i < |p.items| ensures ItemOk(p, p.items[i]) <==> ItemGood(p, p.items[i]) {
      ItemOkIff(p, p.items[i]);
    }
  }

  // ----- the tables of all packages

  lemma AmongPaths(paths: seq<Path>, pkg: string)
    ensures Among(paths, pkg) <==> exists path :: path in paths && path.Foreign? && path.pkg == pkg
  {
    if k :| 0 <= k < |paths| && paths[k].Foreign? && paths[k].pkg == pkg {
      assert paths[k] in paths;
    }
  }

  lemma AmongBoth(a: seq<Path>, b: seq<Path>, pkg: string)
    ensures Among(a + b, pkg) <==> Among(a, pkg) || Among(b, pkg)
  {
    AmongPaths(a, pkg);
    AmongPaths(b, pkg);
    AmongPaths(a + b, pkg);
  }

  lemma AmongUses(entries: seq<Entry>, pkg: string)
    ensures Among(UsePaths(entries), pkg) <==> Uses(entries, pkg)
  {
    AmongPaths(UsePaths(entries), pkg);
    if path :| path in UsePaths(entries) && path.Foreign? && path.pkg == pkg {
      UsePathsAre(entries, path);
    }
    if k :| 0 <= k < |entries| && entries[k].UseEntry? && entries[k].path.Foreign? && entries[k].path.pkg == pkg {
      UsePathsAre(entries, entries[k].path);
    }
  }

  ghost predicate InlinesUse(inlines: seq<Inline>, pkg: string) {
    exists j :: 0 <= j < |inlines| && Uses(inlines[j].entries, pkg)
  }

  lemma {:induction false} AmongInlines(inlines: seq<Inline>, pkg: string)
    ensures Among(InlinePaths(inlines), pkg) <==> InlinesUse(inlines, pkg)
  {
    hide Uses;
    if inlines != [] {
      AmongInlines(inlines[1..], pkg);
      AmongUses(inlines[0].entries, pkg);
      AmongBoth(UsePaths(inlines[0].entries), InlinePaths(inlines[1..]), pkg);
      if j :| 0 <= j < |inlines[1..]| && Uses(inlines[1..][j].entries, pkg) {
        assert Uses(inlines[j + 1].entries, pkg);
      }
      if j :| 0 <= j < |inlines| && Uses(inlines[j].entries, pkg) {
        assert j > 0 ==> Uses(inlines[1..][j - 1].entries, pkg);
      }
    }
  }

  lemma AmongItem(item: Item, pkg: string)
    ensures Among(ItemPaths(item), pkg) <==> Refers(item, pkg)
  {
    hide Among, Uses, InlinePaths, UsePaths;
    AmongUses(item.entries, pkg);
    if item.World? {
      var a, b, c, d := UsePaths(item.entries), item.includes, item.externs, InlinePaths(item.inlines);
      AmongInlines(item.inlines, pkg);
      AmongBoth(a, b, pkg);
      AmongBoth(a + b, c, pkg);
      AmongBoth(a + b + c, d, pkg);
    }
  }

  ghost predicate ItemsRefer(items: seq<Item>, pkg: string) {
    exists i :: 0 <= i < |items| && Refers(items[i], pkg)
  }

  lemma {:induction false} AmongItems(items: seq<Item>, pkg: string)
    ensures Among(ItemsPaths(items), pkg) <==> ItemsRefer(items, pkg)
  {
    hide Refers, ItemPaths;
    if items != [] {
      AmongItems(items[1..], pkg);
      AmongItem(items[0], pkg);
      AmongBoth(ItemPaths(items[0]), ItemsPaths(items[1..]), pkg);
      if i :| 0 <= i < |items[1..]| && Refers(items[1..][i], pkg) {
        assert Refers(items[i + 1], pkg);
      }
      if i :| 0 <= i < |items| && Refers(items[i], pkg) {
        assert i > 0 ==> Refers(items[1..][i - 1], pkg);
      }
    }
  }

  lemma PkgDepsAre(p: Package, pkg: string)
    ensures pkg in PkgDeps(p) <==> RefersTo(p, pkg)
  {
    hide Refers, ForeignPkgs, ItemsPaths;
    ForeignPkgsHas(ItemsPaths(p.items) + p.uses, pkg);
    AmongBoth(ItemsPaths(p.items), p.uses, pkg);
    AmongItems(p.items, pkg);
  }

  ghost function PkgNames(pkgs: seq<Package>): (names: seq<string>)
    ensures |names| == |pkgs| && forall p :: 0 <= p < |pkgs| ==> names[p] == pkgs[p].name
  {
    seq(|pkgs|, p requires 0 <= p < |pkgs| => pkgs[p].name)
  }

  lemma PackagesPicture(pkgs: seq<Package>)
    requires PackageSort.DistinctNames(Raw(pkgs))
    ensures Pictures(PackageSort.GraphOf(Raw(pkgs)), PkgNames(pkgs), NeedsAmong(pkgs))
  {
    hide RefersTo;
    var raw, names, link := Raw(pkgs), PkgNames(pkgs), NeedsAmong(pkgs);
    assert Distinct(names) by {
      forall i, j | 0 <= i < j < |names| ensures names[i] != names[j] {
        assert raw[i].name != raw[j].name;
      }
    }
    forall a, b | link(a, b) ensures a in names && b in names {
      var p, q :| 0 <= p < |pkgs| && 0 <= q < |pkgs| && pkgs[p].name == a && pkgs[q].name == b && RefersTo(pkgs[p], b);
      assert names[p] == a && names[q] == b;
    }
    forall p, q | 0 <= p < |pkgs| && 0 <= q < |pkgs|
      ensures q in PackageSort.GraphOf(raw)[p] <==> link(names[p], names[q])
    {
      PackageEdge(pkgs, p, q);
    }
  }

  lemma PackageEdge(pkgs: seq<Package>, p: nat, q: nat)
    requires PackageSort.DistinctNames(Raw(pkgs)) && p < |pkgs| && q < |pkgs|
    ensures q in PackageSort.GraphOf(Raw(pkgs))[p] <==> PackageNeeds(pkgs, pkgs[p].name, pkgs[q].name)
  {
    hide RefersTo, PkgDeps;
    var raw := Raw(pkgs);
    var byName, deps := PackageSort.ByName(raw), raw[p].deps;
    PkgDepsAre(pkgs[p], pkgs[q].name);
    assert raw[q].name in byName && byName[raw[q].name] == q;
    if q in PackageSort.GraphOf(raw)[p] {
      var k := PackageSort.GivenComesFrom(byName, deps, q);
    }
    if PackageNeeds(pkgs, pkgs[p].name, pkgs[q].name) {
      var p', q' :| 0 <= p' < |pkgs| && 0 <= q' < |pkgs| && pkgs[p'].name == pkgs[p].name && pkgs[q'].name == pkgs[q].name
                    && RefersTo(pkgs[p'], pkgs[q].name);
      assert raw[p'].name == raw[p].name;
      assert byName[raw[p].name] == p && byName[raw[p'].name] == p';
      var k :| 0 <= k < |deps| && deps[k] == pkgs[q].name;
      PackageSort.DepIsEdge(raw, p, k);
    }
  }

  /** Packages are accepted exactly when what is written in them is good: names are
      apart, uses, includes, imports and exports name what they should, and nothing
      needs itself, be it a type, an interface, a world or a package. */
  lemma AcceptedIff(pkgs: seq<Package>)
    ensures Accepted(pkgs) <==> Good(pkgs)
  {
    hide PackageOk, PackageGood, PackageNeeds, Acyclic, NoCircle, PkgDeps;
    var raw := Raw(pkgs);
    forall p | 0 <= p < |pkgs| ensures PackageOk(pkgs[p]) <==> PackageGood(pkgs[p]) {
      PackageOkIff(pkgs[p]);
    }
    assert PackageSort.DistinctNames(raw) <==> forall p, q :: 0 <= p < q < |pkgs| ==> pkgs[p].name != pkgs[q].name by {
      forall p | 0 <= p < |pkgs| ensures raw[p].name == pkgs[p].name {}
    }
    if PackageSort.DistinctNames(raw) {
      PackagesPicture(pkgs);
      AcyclicIffNoCircle(PackageSort.GraphOf(raw), PkgNames(pkgs), NeedsAmong(pkgs));
    }
  }

  /** The checks and the sort, in whatever order the packages are visited, accept
      what is good and nothing else. */
  method AcceptAll(pkgs: seq<Package>, visited: seq<nat>) returns (ok: bool)
    requires PackageSort.IsArrangement(visited, |pkgs|)
    ensures ok <==> Good(pkgs)
  {
    hide Accepted, Good, PackageSort.IsArrangement;
    ok := CheckAll(pkgs, visited);
    AcceptedIff(pkgs);
  }
}
