/** Why resolving a world ends: accepted packages have been sorted, and every
    include leads to a world sorted before (component/wit/check.go,
    component/wit/resolve.go). */
module WorldRanks {
  import opened Results
  import opened DepGraphs
  import opened CheckedPackages
  import opened RankedScopes
  import Toposort
  import PackageSort
  import WorldItems
  import WorldResolver
  import Elaboration

  /** Where a world stands: its package, and its place there. */
  datatype Place = Place(pkg: nat, item: nat)

  ghost predicate IsPlace(pkgs: seq<Package>, at: Place) {
    at.pkg < |pkgs| && at.item < |pkgs[at.pkg].items| && pkgs[at.pkg].items[at.item].World?
  }

  /** The world a path of package p names. */
  ghost predicate FindsWorld(pkgs: seq<Package>, p: nat, path: CheckedPackages.Path, at: Place) {
    && IsPlace(pkgs, at) && pkgs[at.pkg].items[at.item].name == path.item
    && if path.Local? then at.pkg == p else pkgs[at.pkg].name == path.pkg
  }

  /** An include written leads to the world its path names, or to none. */
  ghost predicate Leads(pkgs: seq<Package>, worlds: seq<Place>, p: nat, path: CheckedPackages.Path, world: Option<nat>) {
    world.Some? ==> world.value < |worlds| && FindsWorld(pkgs, p, path, worlds[world.value])
  }

  /** asts are the worlds of the packages at the places given. */
  ghost predicate Depicts(pkgs: seq<Package>, worlds: seq<Place>, asts: seq<WorldResolver.Ast>) {
    && |asts| == |worlds|
    && forall k :: 0 <= k < |worlds| ==> IsPlace(pkgs, worlds[k]) && IncludesLead(pkgs, worlds, worlds[k], asts[k].includes)
  }

  ghost predicate IncludesLead(pkgs: seq<Package>, worlds: seq<Place>, at: Place, includes: seq<WorldResolver.Include>)
    requires IsPlace(pkgs, at)
  {
    var paths := pkgs[at.pkg].items[at.item].includes;
    |includes| == |paths| && forall j :: 0 <= j < |paths| ==> Leads(pkgs, worlds, at.pkg, paths[j], includes[j].world)
  }

  ghost predicate PlaceLower(pkgs: seq<Package>, a: Place, b: Place)
    requires Accepted(pkgs) && IsPlace(pkgs, a) && IsPlace(pkgs, b)
  {
    assert PackageOk(pkgs[a.pkg]) && PackageOk(pkgs[b.pkg]);
    || PkgRanks(pkgs)[a.pkg] < PkgRanks(pkgs)[b.pkg]
    || (a.pkg == b.pkg && ItemRanks(pkgs[a.pkg])[a.item] < ItemRanks(pkgs[b.pkg])[b.item])
  }

  /** What a world includes was sorted before it. */
  lemma IncludeGoesDown(pkgs: seq<Package>, at: Place, j: nat, target: Place)
    requires Accepted(pkgs) && IsPlace(pkgs, at)
    requires var paths := pkgs[at.pkg].items[at.item].includes; j < |paths| && FindsWorld(pkgs, at.pkg, paths[j], target)
    ensures PlaceLower(pkgs, target, at)
  {
    var p, item := pkgs[at.pkg], pkgs[at.pkg].items[at.item];
    assert PackageOk(p);
    var path := item.includes[j];
    hide Acyclic, ItemRanks, PkgRanks, ItemOk, PkgDeps, Toposort.AllKnown;
    assert path in item.includes;
    if path.Local? {
      LocalNamesHave(item.includes, path.item);
      SortedGoesDown(p, at.item, target.item);
    } else {
      assert path in ItemPaths(item);
      PathIsDep(p, at.item, path);
      ForeignGoesDown(pkgs, at.pkg, target.pkg);
    }
  }

  lemma LowerOn(pkgs: seq<Package>, a: Place, b: Place, c: Place)
    requires Accepted(pkgs) && IsPlace(pkgs, a) && IsPlace(pkgs, b) && IsPlace(pkgs, c)
    requires PlaceLower(pkgs, a, b) && PlaceLower(pkgs, b, c)
    ensures PlaceLower(pkgs, a, c)
  {
  }

  lemma {:induction false} TargetComesFrom(includes: seq<WorldResolver.Include>, m: nat) returns (j: nat)
    requires m in WorldResolver.Targets(includes)
    ensures j < |includes| && includes[j].world == Some(m)
  {
    var last := |includes| - 1;
    if includes[last].world == Some(m) {
      j := last;
    } else {
      j := TargetComesFrom(includes[..last], m);
    }
  }

  lemma EdgeGoesDown(pkgs: seq<Package>, worlds: seq<Place>, asts: seq<WorldResolver.Ast>, k: nat, m: nat)
    requires Accepted(pkgs) && Depicts(pkgs, worlds, asts) && k < |asts| && m in WorldResolver.IncludeGraph(asts)[k]
    ensures m < |worlds| && PlaceLower(pkgs, worlds[m], worlds[k])
  {
    hide Accepted, PlaceLower;
    var j := TargetComesFrom(asts[k].includes, m);
    var at := worlds[k];
    assert Leads(pkgs, worlds, at.pkg, pkgs[at.pkg].items[at.item].includes[j], asts[k].includes[j].world);
    IncludeGoesDown(pkgs, at, j, worlds[m]);
  }

  lemma {:induction false} PathGoesLower(pkgs: seq<Package>, worlds: seq<Place>, asts: seq<WorldResolver.Ast>, p: seq<nat>, k: nat)
    requires Accepted(pkgs) && Depicts(pkgs, worlds, asts)
    requires DepGraphs.Path(WorldResolver.IncludeGraph(asts), p) && 1 <= k < |p|
    ensures PlaceLower(pkgs, worlds[p[k]], worlds[p[0]])
  {
    hide Accepted, PlaceLower, IsPlace, IncludesLead;
    assert Step(WorldResolver.IncludeGraph(asts), p, k - 1);
    EdgeGoesDown(pkgs, worlds, asts, p[k - 1], p[k]);
    if k > 1 {
      PathGoesLower(pkgs, worlds, asts, p, k - 1);
      LowerOn(pkgs, worlds[p[k]], worlds[p[k - 1]], worlds[p[0]]);
    }
  }

  lemma NoPlaceBelowItself(pkgs: seq<Package>, a: Place)
    requires Accepted(pkgs) && IsPlace(pkgs, a)
    ensures !PlaceLower(pkgs, a, a)
  {
  }

  /** On accepted packages no world includes itself, however many worlds lie in
      between, so resolving one always ends. */
  lemma SortsRankWorlds(pkgs: seq<Package>, worlds: seq<Place>, asts: seq<WorldResolver.Ast>)
    requires Accepted(pkgs) && Depicts(pkgs, worlds, asts)
    ensures WorldResolver.IncludesOk(asts)
  {
    hide Accepted, PlaceLower, IncludesLead;
    var g := WorldResolver.IncludeGraph(asts);
    forall k, n | 0 <= k < |g| && 0 <= n < |g[k]| ensures g[k][n] < |g| {
      assert g[k][n] in g[k];
      EdgeGoesDown(pkgs, worlds, asts, k, g[k][n]);
    }
    forall p ensures !Cycle(g, p) {
      if Cycle(g, p) {
        PathGoesLower(pkgs, worlds, asts, p, |p| - 1);
        NoPlaceBelowItself(pkgs, worlds[p[0]]);
      }
    }
  }

  // ----- the interfaces to begin with

  /** The scopes listed are those that paths can name. */
  ghost predicate OnlyIfaces(pkgs: seq<Package>, ids: seq<Id>) {
    forall n :: 0 <= n < |ids| ==> IsIface(pkgs, ids[n])
  }

  /** The interfaces of the packages, before any world adds its own. */
  ghost function TableOf(pkgs: seq<Package>, ids: seq<Id>): (t: WorldItems.Table)
    requires Accepted(pkgs) && Enumerates(pkgs, ids) && OnlyIfaces(pkgs, ids)
    ensures |t| == |ids| && WorldItems.InterfacesOf(t) == InterfacesOf(pkgs, ids)
    ensures forall n :: 0 <= n < |t| ==> !t[n].inline && t[n].implements == "" && t[n].deps == InterfacesOf(pkgs, ids).deps[n]
  {
    hide Accepted, Enumerates, OnlyIfaces;
    var u := InterfacesOf(pkgs, ids);
    var t := seq(|ids|, n requires 0 <= n < |ids| => WorldItems.Iface(u.names[n], false, "", u.deps[n]));
    assert WorldItems.InterfacesOf(t).names == u.names && WorldItems.InterfacesOf(t).deps == u.deps;
    t
  }

  /** Accepted packages give worlds a table in order. */
  lemma TableIsOk(pkgs: seq<Package>, ids: seq<Id>)
    requires Accepted(pkgs) && Enumerates(pkgs, ids) && OnlyIfaces(pkgs, ids)
    ensures WorldItems.TableOk(TableOf(pkgs, ids))
  {
    hide Accepted, Enumerates, OnlyIfaces, Acyclic;
    var t, u := TableOf(pkgs, ids), InterfacesOf(pkgs, ids);
    SortsRankInterfaces(pkgs, ids);
    var g := Elaboration.GraphOf(u);
    forall n | 0 <= n < |t| ensures WorldItems.UsesOk(t, t[n].deps) {
      if t[n].deps.Some? {
        assert g[n] == t[n].deps.value;
        forall d | d in t[n].deps.value ensures d < |t| {
          var k :| 0 <= k < |g[n]| && g[n][k] == d;
        }
      }
    }
  }
}
