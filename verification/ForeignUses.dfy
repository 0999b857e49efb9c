/** The look at what a package's uses name in other packages, before the package
    is declared (component/wit/resolve.go). */
module ForeignUses {
  import opened Results
  import opened DepGraphs
  import opened CheckedPackages
  import opened RankedScopes
  import PackageSort
  import Toposort

  lemma AcceptedAreDistinct(pkgs: seq<Package>, a: nat, b: nat)
    requires Accepted(pkgs) && a < |pkgs| && b < |pkgs|
    ensures pkgs[a].name == pkgs[b].name ==> a == b
    ensures Distinct(ItemKeys(pkgs[a]))
  {
    assert PackageOk(pkgs[a]);
    hide Acyclic, ItemOk, PackageSort.GraphOf, PkgDeps, Toposort.GraphOf, Toposort.AllKnown;
    var raw := Raw(pkgs);
    assert raw[a].name == pkgs[a].name && raw[b].name == pkgs[b].name;
  }

  lemma OnlyTarget(pkgs: seq<Package>, p: nat, path: Path, a: Id, b: Id)
    requires Accepted(pkgs) && path.Foreign? && Finds(pkgs, p, path, a) && Finds(pkgs, p, path, b)
    ensures a == b
  {
    hide Accepted, Distinct, ItemKeys;
    AcceptedAreDistinct(pkgs, a.pkg, b.pkg);
    OnlyItem(pkgs[a.pkg], a.item, b.item);
  }

  lemma Indexed(pkgs: seq<Package>, byName: map<string, nat>, q: nat)
    requires PackageSort.Names(byName, Raw(pkgs)) && q < |pkgs|
    ensures pkgs[q].name in byName
  {
    assert Raw(pkgs)[q].name == pkgs[q].name;
  }

  lemma IndexLeads(pkgs: seq<Package>, byName: map<string, nat>, name: string)
    requires PackageSort.Names(byName, Raw(pkgs)) && name in byName
    ensures byName[name] < |pkgs| && pkgs[byName[name]].name == name
  {
  }

  /** What a path into another package names, by the package's name and then the
      interface's. */
  method FindTarget(pkgs: seq<Package>, byName: map<string, nat>, path: Path, ghost p: nat) returns (at: Option<(nat, nat)>)
    requires Accepted(pkgs) && PackageSort.Names(byName, Raw(pkgs)) && path.Foreign?
    ensures at.None? ==> Target(pkgs, p, path).None?
    ensures at.Some? ==> Target(pkgs, p, path) == Some(Of(at.value.0, at.value.1, 0))
  {
    hide Accepted, PackageSort.Names, Raw, Target;
    ghost var found := Target(pkgs, p, path);
    if path.pkg !in byName {
      if found.Some? {
        Indexed(pkgs, byName, found.value.pkg);
      }
      return None;
    }
    IndexLeads(pkgs, byName, path.pkg);
    var q := byName[path.pkg];
    var i := FindItem(pkgs[q], path.item);
    if found.Some? {
      AcceptedAreDistinct(pkgs, q, found.value.pkg);
      if i.Some? {
        OnlyItem(pkgs[q], found.value.item, i.value);
      }
    }
    if i.None? || pkgs[q].items[i.value].World? || !pkgs[q].items[i.value].on {
      return None;
    }
    assert Finds(pkgs, p, path, Of(q, i.value, 0));
    OnlyTarget(pkgs, p, path, Of(q, i.value, 0), found.value);
    return Some((q, i.value));
  }

  method FindDeclared(entries: seq<Entry>, name: string) returns (ok: bool)
    ensures ok <==> Declares(entries, name)
  {
    if name in TypesOf(entries) {
      return true;
    }
    for k := 0 to |entries|
      invariant forall j :: 0 <= j < k && entries[j].UseEntry? && entries[j].on ==> entries[j].alias != name
    {
      if entries[k].UseEntry? && entries[k].on && entries[k].alias == name {
        return true;
      }
    }
    return false;
  }

  method FindUse(pkgs: seq<Package>, byName: map<string, nat>, e: Entry, ghost p: nat) returns (ok: bool)
    requires Accepted(pkgs) && PackageSort.Names(byName, Raw(pkgs))
    ensures ok <==> ForeignOk(pkgs, p, e)
  {
    hide Accepted, PackageSort.Names, Declares, Target;
    if e.TypeEntry? || e.path.Local? || !e.on {
      return true;
    }
    var at := FindTarget(pkgs, byName, e.path, p);
    if at.None? || !e.visible {
      return at.Some?;
    }
    ok := FindDeclared(pkgs[at.value.0].items[at.value.1].entries, e.name);
  }

  /** Whether the uses of one scope are found. */
  method FindUses(pkgs: seq<Package>, byName: map<string, nat>, entries: seq<Entry>, ghost p: nat) returns (ok: bool)
    requires Accepted(pkgs) && PackageSort.Names(byName, Raw(pkgs))
    ensures ok <==> EntriesFound(pkgs, p, entries)
  {
    hide Accepted, PackageSort.Names, ForeignOk;
    for k := 0 to |entries|
      invariant EntriesFound(pkgs, p, entries[..k])
    {
      ok := FindUse(pkgs, byName, entries[k], p);
      if !ok {
        return false;
      }
      assert entries[..k + 1] == entries[..k] + [entries[k]];
    }
    assert entries[..|entries|] == entries;
    return true;
  }

  ghost predicate EntriesFound(pkgs: seq<Package>, p: nat, entries: seq<Entry>) {
    forall k :: 0 <= k < |entries| ==> ForeignOk(pkgs, p, entries[k])
  }

  ghost predicate ItemFound(pkgs: seq<Package>, p: nat, item: Item) {
    forall j :: 0 <= j < ScopeCount(item) ==> EntriesFound(pkgs, p, ScopeEntries(item, j))
  }

  ghost predicate PackageFound(pkgs: seq<Package>, p: nat)
    requires p < |pkgs|
  {
    ItemsFound(pkgs, p, pkgs[p].items)
  }

  method FindScopes(pkgs: seq<Package>, byName: map<string, nat>, item: Item, ghost p: nat) returns (ok: bool)
    requires Accepted(pkgs) && PackageSort.Names(byName, Raw(pkgs))
    ensures ok <==> ItemFound(pkgs, p, item)
  {
    hide Accepted, PackageSort.Names, EntriesFound, Raw;
    for j := 0 to ScopeCount(item)
      invariant forall k :: 0 <= k < j ==> EntriesFound(pkgs, p, ScopeEntries(item, k))
    {
      ok := FindUses(pkgs, byName, ScopeEntries(item, j), p);
      if !ok {
        return false;
      }
    }
    return true;
  }

  /** Whether what the uses of package p name in other packages is there. */
  method FindPackage(pkgs: seq<Package>, byName: map<string, nat>, p: nat) returns (ok: bool)
    requires Accepted(pkgs) && PackageSort.Names(byName, Raw(pkgs)) && p < |pkgs|
    ensures ok <==> PackageFound(pkgs, p)
  {
    hide Accepted, PackageSort.Names, ItemFound, Raw;
    var items := pkgs[p].items;
    for i := 0 to |items|
      invariant ItemsFound(pkgs, p, items[..i])
    {
      ok := FindScopes(pkgs, byName, items[i], p);
      assert items[..i + 1] == items[..i] + [items[i]];
      if !ok {
        return false;
      }
    }
    assert items[..|items|] == items;
    return true;
  }

  ghost predicate ItemsFound(pkgs: seq<Package>, p: nat, items: seq<Item>) {
    forall i :: 0 <= i < |items| ==> ItemFound(pkgs, p, items[i])
  }

  /** Looking at every package decides whether all that their uses name elsewhere
      is found, in every scope made of them. */
  method FindForeign(pkgs: seq<Package>) returns (ok: bool)
    requires Accepted(pkgs)
    ensures ok <==> ForeignFound(pkgs)
  {
    hide PackageFound, ForeignFound, PackageOk;
    FoundByPackage(pkgs);
    var index := PackageSort.IndexPackages(Raw(pkgs));
    for p := 0 to |pkgs|
      invariant forall q :: 0 <= q < p ==> PackageFound(pkgs, q)
    {
      ok := FindPackage(pkgs, index.value, p);
      if !ok {
        return false;
      }
    }
    return true;
  }

  // ----- what has been found

  /** The entry is kept, and nothing later takes its name away. */
  ghost predicate Declared(entries: seq<Entry>, name: string) {
    || (exists k: nat, body :: DefinesLast(entries, k, name, body))
    || exists k: nat :: UsesLast(entries, k, name)
  }

  lemma {:induction false} LastUse(entries: seq<Entry>, name: string, m: nat)
    requires m < |entries| && entries[m].UseEntry? && entries[m].on && entries[m].alias == name
    ensures exists k: nat :: UsesLast(entries, k, name)
    decreases |entries| - m
  {
    if forall j :: m < j < |entries| && entries[j].UseEntry? && entries[j].on ==> entries[j].alias != name {
      assert UsesLast(entries, m, name);
    } else {
      var j :| m < j < |entries| && entries[j].UseEntry? && entries[j].on && entries[j].alias == name;
      LastUse(entries, name, j);
    }
  }

  lemma DeclaresIff(entries: seq<Entry>, name: string)
    ensures Declares(entries, name) <==> Declared(entries, name)
  {
    hide TypesOf;
    if name in TypesOf(entries) {
      TypesAre(entries, name, TypesOf(entries)[name]);
    }
    if k: nat, body :| DefinesLast(entries, k, name, body) {
      TypesAre(entries, name, body);
    }
    if m :| 0 <= m < |entries| && entries[m].UseEntry? && entries[m].on && entries[m].alias == name {
      LastUse(entries, name, m);
    }
    if k: nat :| UsesLast(entries, k, name) {
      assert entries[k].UseEntry? && entries[k].on && entries[k].alias == name;
    }
  }

  /** Some package of the name has the interface, kept, and it declares the type the
      use takes, unless that is hidden from it. */
  ghost predicate ThereIs(pkgs: seq<Package>, e: Entry)
    requires e.UseEntry? && e.path.Foreign?
  {
    exists q, i :: 0 <= q < |pkgs| && 0 <= i < |pkgs[q].items| && HasUsed(pkgs[q], pkgs[q].items[i], e)
  }

  ghost predicate HasUsed(pkg: Package, item: Item, e: Entry)
    requires e.UseEntry? && e.path.Foreign?
  {
    && pkg.name == e.path.pkg && item.Interface? && item.on && item.name == e.path.item
    && (e.visible ==> Declared(item.entries, e.name))
  }

  /** A use of another package passes exactly when it is left out or what it names
      is there. */
  lemma ForeignOkIff(pkgs: seq<Package>, p: nat, e: Entry)
    requires Accepted(pkgs)
    ensures ForeignOk(pkgs, p, e) <==> (e.UseEntry? && e.path.Foreign? && e.on ==> ThereIs(pkgs, e))
  {
    hide Accepted, Declares, Declared, Target;
    if e.UseEntry? && e.path.Foreign? && e.on {
      var target := Target(pkgs, p, e.path);
      if target.Some? {
        var Of(q, i, _) := target.value;
        DeclaresIff(pkgs[q].items[i].entries, e.name);
        if ForeignOk(pkgs, p, e) {
          assert HasUsed(pkgs[q], pkgs[q].items[i], e);
        }
      }
      if ThereIs(pkgs, e) {
        var q, i :| 0 <= q < |pkgs| && 0 <= i < |pkgs[q].items| && HasUsed(pkgs[q], pkgs[q].items[i], e);
        var id := Of(q, i, 0);
        assert Finds(pkgs, p, e.path, id);
        OnlyTarget(pkgs, p, e.path, id, target.value);
        DeclaresIff(pkgs[q].items[i].entries, e.name);
      }
    }
  }

  lemma FoundByPackage(pkgs: seq<Package>)
    ensures ForeignFound(pkgs) <==> forall p :: 0 <= p < |pkgs| ==> PackageFound(pkgs, p)
  {
    hide ForeignOk;
    if ForeignFound(pkgs) {
      forall p, i, j, k | 0 <= p < |pkgs| && 0 <= i < |pkgs[p].items| && 0 <= j < ScopeCount(pkgs[p].items[i])
                          && 0 <= k < |ScopeEntries(pkgs[p].items[i], j)|
        ensures ForeignOk(pkgs, p, ScopeEntries(pkgs[p].items[i], j)[k])
      {
        ForeignAt(pkgs, Of(p, i, j), k);
      }
    }
    if forall p :: 0 <= p < |pkgs| ==> PackageFound(pkgs, p) {
      forall id, k | IdOk(pkgs, id) && 0 <= k < |EntriesOf(pkgs, id)|
        ensures ForeignOk(pkgs, Plain(id).pkg, EntriesOf(pkgs, id)[k])
      {
        PlainOk(pkgs, id);
        var Of(p, i, j) := Plain(id);
        assert PackageFound(pkgs, p);
        assert EntriesFound(pkgs, p, ScopeEntries(pkgs[p].items[i], j));
      }
    }
  }
}
