/** What accepted packages resolve to (component/wit/resolve.go): a scope for every
interface, for every world, for every interface written inline in a world, and
for every copy of one under a label. The scopes' uses and types go down by the
ranks of the sorts, and the interfaces depend on one another without cycles.
*/
module RankedScopes {
  import opened Results
  import opened DepGraphs
  import opened Strings
  import opened Scopes
  import opened CheckedPackages
  import Toposort
  import PackageSort
  import Elaboration

  // ----- scopes

  /** A scope: that of an item of a package, if scope is 0, or of one of a world's
      inline interfaces; or a copy of another under a label. */
  datatype Id = Of(pkg: nat, item: nat, scope: nat) | Labelled(id: Id, name: string)

  ghost predicate IdOk(pkgs: seq<Package>, id: Id) {
    match id
    case Of(p, i, j) => p < |pkgs| && i < |pkgs[p].items| && j < ScopeCount(pkgs[p].items[i])
    case Labelled(of, _) => IdOk(pkgs, of)
  }

  /** The scope a label is on. */
  function Plain(id: Id): (r: Id)
    ensures r.Of?
  {
    match id
    case Of(_, _, _) => id
    case Labelled(of, _) => Plain(of)
  }

  lemma {:induction false} PlainOk(pkgs: seq<Package>, id: Id)
    requires IdOk(pkgs, id)
    ensures IdOk(pkgs, Plain(id))
  {
    if id.Labelled? {
      PlainOk(pkgs, id.id);
    }
  }

  ghost predicate IsIface(pkgs: seq<Package>, id: Id) {
    id.Of? && IdOk(pkgs, id) && pkgs[id.pkg].items[id.item].Interface?
  }

  /** ids lists scopes, in any order, and every interface of every package. The
      worlds, inline interfaces and labelled copies may be any. */
  ghost predicate Enumerates(pkgs: seq<Package>, ids: seq<Id>) {
    && (forall n :: 0 <= n < |ids| ==> IdOk(pkgs, ids[n]))
    && (forall id :: IsIface(pkgs, id) ==> id in ids)
  }

  // ----- qualified names

  /** The interface goes between the package and its version. */
  function Qualify(pkg: string, iface: string): string {
    var (base, ver) := Cut(pkg, '@');
    base + "/" + iface + if ver.Some? then "@" + ver.value else ""
  }

  /** A path's package and item, unless it is a bare name. */
  function SplitForeign(path: string): Option<(string, string)> {
    var (ns, rest) := Cut(path, '/');
    if rest.None? then None
    else
      var (name, ver) := Cut(rest.value, '@');
      Some((ns + if ver.Some? then "@" + ver.value else "", name))
  }

  /** "ns:pkg@1.0.0" and "iface" make "ns:pkg/iface@1.0.0". */
  lemma QualifyIs(base: string, version: Option<string>, iface: string)
    requires '@' !in base
    ensures Qualify(base + (if version.None? then "" else ['@'] + version.value), iface) ==
            base + ['/'] + iface + (if version.None? then "" else ['@'] + version.value)
  {
    hide Cut;
    if version.None? {
      assert base + "" == base;
      CutNone(base, '@');
    } else {
      assert base + (['@'] + version.value) == base + ['@'] + version.value;
      CutAtSep(base, version.value, '@');
    }
  }

  /** Splitting a qualified name gives back the package and the interface, so that
      no two interfaces share one. */
  lemma SplitQualified(pkg: string, iface: string)
    requires '/' !in pkg && '@' !in iface
    ensures SplitForeign(Qualify(pkg, iface)) == Some((pkg, iface))
  {
    hide Cut;
    var (base, ver) := Cut(pkg, '@');
    CutJoins(pkg, '@');
    var rest := iface + if ver.Some? then "@" + ver.value else "";
    assert Qualify(pkg, iface) == base + ['/'] + rest;
    CutAtSep(base, rest, '/');
    if ver.Some? {
      assert rest == iface + ['@'] + ver.value;
      CutAtSep(iface, ver.value, '@');
      assert base + ("@" + ver.value) == base + ['@'] + ver.value;
    } else {
      assert rest == iface;
      CutNone(iface, '@');
      assert base + "" == base;
    }
  }

  // ----- what a scope holds

  ghost function EntriesOf(pkgs: seq<Package>, id: Id): seq<Entry>
    requires IdOk(pkgs, id)
  {
    PlainOk(pkgs, id);
    var Of(p, i, j) := Plain(id);
    ScopeEntries(pkgs[p].items[i], j)
  }

  /** The name resources of the scope are keyed by; a world has none. */
  ghost function NameOf(pkgs: seq<Package>, id: Id): string
    requires IdOk(pkgs, id)
  {
    match id
    case Labelled(_, name) => name
    case Of(p, i, j) =>
      var item := pkgs[p].items[i];
      if item.Interface? then Qualify(pkgs[p].name, item.name) else if j == 0 then "" else item.inlines[j - 1].name
  }

  /** An interface is named with its package, one written in a world by its own name
      alone, and a copy by its label. */
  lemma ScopeNames(pkgs: seq<Package>, id: Id, name: string)
    requires IdOk(pkgs, id)
    ensures NameOf(pkgs, Labelled(id, name)) == name
    ensures id.Of? && pkgs[id.pkg].items[id.item].Interface? ==>
              NameOf(pkgs, id) == Qualify(pkgs[id.pkg].name, pkgs[id.pkg].items[id.item].name)
    ensures id.Of? && pkgs[id.pkg].items[id.item].World? && id.scope > 0 ==>
              NameOf(pkgs, id) == pkgs[id.pkg].items[id.item].inlines[id.scope - 1].name
  {
  }

  /** The interface a path of package p names, unless a gate left it out. */
  ghost predicate Finds(pkgs: seq<Package>, p: nat, path: Path, id: Id) {
    && IsIface(pkgs, id) && pkgs[id.pkg].items[id.item].on && pkgs[id.pkg].items[id.item].name == path.item
    && if path.Local? then id.pkg == p else pkgs[id.pkg].name == path.pkg
  }

  ghost function Target(pkgs: seq<Package>, p: nat, path: Path): (r: Option<Id>)
    ensures r.Some? ==> Finds(pkgs, p, path, r.value)
    ensures r.None? ==> forall id :: !Finds(pkgs, p, path, id)
  {
    if exists id :: Finds(pkgs, p, path, id) then var id :| Finds(pkgs, p, path, id); Some(id) else None
  }

  function TypesOf(entries: seq<Entry>): map<string, TypeBody> {
    if entries == [] then map[]
    else
      var last, before := entries[|entries| - 1], TypesOf(entries[..|entries| - 1]);
      match last
      case UseEntry(_, _, alias, _, _) => before - {alias}
      case TypeEntry(name, body, on) => if on then before[name := body] else before
  }

  ghost function UseOf(pkgs: seq<Package>, ids: seq<Id>, p: nat, e: Entry): UseRef
    requires e.UseEntry? && Enumerates(pkgs, ids)
  {
    var target := Target(pkgs, p, e.path);
    UseRef(if target.Some? && e.visible then Some(PositionIn(ids, target.value)) else None, e.name)
  }

  ghost function UsesOf(pkgs: seq<Package>, ids: seq<Id>, p: nat, entries: seq<Entry>): map<string, UseRef>
    requires Enumerates(pkgs, ids)
  {
    if entries == [] then map[]
    else
      var last, before := entries[|entries| - 1], UsesOf(pkgs, ids, p, entries[..|entries| - 1]);
      if last.UseEntry? && last.on then before[last.alias := UseOf(pkgs, ids, p, last)] else before
  }

  ghost function ScopeOf(pkgs: seq<Package>, ids: seq<Id>, id: Id): Scope
    requires Enumerates(pkgs, ids) && IdOk(pkgs, id)
  {
    var entries := EntriesOf(pkgs, id);
    Scope(NameOf(pkgs, id), TypesOf(entries), UsesOf(pkgs, ids, Plain(id).pkg, entries))
  }

  ghost function EnvOf(pkgs: seq<Package>, ids: seq<Id>): (env: Env)
    requires Enumerates(pkgs, ids)
    ensures |env| == |ids| && forall n :: 0 <= n < |ids| ==> env[n] == ScopeOf(pkgs, ids, ids[n])
  {
    seq(|ids|, n requires 0 <= n < |ids| => ScopeOf(pkgs, ids, ids[n]))
  }

  /** Entry k defines the type n, its gate keeps it, and nothing after it takes the
      name: not another type that is kept, and no use, kept or not. */
  ghost predicate DefinesLast(entries: seq<Entry>, k: nat, n: string, body: TypeBody) {
    && k < |entries| && entries[k] == TypeEntry(n, body, true)
    && forall j :: k < j < |entries| ==> if entries[j].UseEntry? then entries[j].alias != n else entries[j].name != n || !entries[j].on
  }

  /** Entry k uses something as n, its gate keeps it, and no later use that is kept
      does. */
  ghost predicate UsesLast(entries: seq<Entry>, k: nat, n: string) {
    && k < |entries| && entries[k].UseEntry? && entries[k].alias == n && entries[k].on
    && forall j :: k < j < |entries| && entries[j].UseEntry? && entries[j].on ==> entries[j].alias != n
  }

  /** A scope's types are those defined last under their names. */
  lemma {:induction false} TypesAre(entries: seq<Entry>, n: string, body: TypeBody)
    ensures n in TypesOf(entries) && TypesOf(entries)[n] == body <==> exists k: nat :: DefinesLast(entries, k, n, body)
  {
    if entries != [] {
      var last := |entries| - 1;
      var e, init := entries[last], entries[..last];
      TypesAre(init, n, body);
      if k: nat :| DefinesLast(init, k, n, body) && (if e.UseEntry? then e.alias != n else e.name != n || !e.on) {
        assert DefinesLast(entries, k, n, body);
      }
      if e == TypeEntry(n, body, true) {
        assert DefinesLast(entries, last, n, body);
      }
      if k: nat :| DefinesLast(entries, k, n, body) {
        assert k < last ==> DefinesLast(init, k, n, body);
      }
    }
  }

  /** A scope's uses are those that last took their names, and lead to what their
      path names, if that is there and visible. */
  lemma {:induction false} UsesAre(pkgs: seq<Package>, ids: seq<Id>, p: nat, entries: seq<Entry>, n: string)
    requires Enumerates(pkgs, ids)
    ensures n in UsesOf(pkgs, ids, p, entries) <==> exists k: nat :: UsesLast(entries, k, n)
    ensures forall k: nat :: UsesLast(entries, k, n) ==> n in UsesOf(pkgs, ids, p, entries) && Leads(pkgs, ids, p, entries[k], UsesOf(pkgs, ids, p, entries)[n])
  {
    hide Target, Leads, Enumerates;
    if entries != [] {
      var last := |entries| - 1;
      var e, init := entries[last], entries[..last];
      UsesAre(pkgs, ids, p, init, n);
      if e.UseEntry? && e.on && e.alias == n {
        UseLeads(pkgs, ids, p, e);
        assert UsesLast(entries, last, n);
      } else {
        forall k: nat ensures UsesLast(entries, k, n) <==> UsesLast(init, k, n) {
          if UsesLast(init, k, n) {
            forall j | k < j < |entries| && entries[j].UseEntry? && entries[j].on ensures entries[j].alias != n {
              assert j < last ==> init[j] == entries[j];
            }
          }
        }
      }
    }
  }

  /** The use leads to the type of this name in the interface its path names. */
  ghost predicate Leads(pkgs: seq<Package>, ids: seq<Id>, p: nat, e: Entry, u: UseRef)
    requires e.UseEntry?
  {
    && u.name == e.name
    && (u.target.Some? ==> u.target.value < |ids| && Finds(pkgs, p, e.path, ids[u.target.value]))
    && (u.target.None? <==> !e.visible || forall id :: !Finds(pkgs, p, e.path, id))
  }

  lemma UseLeads(pkgs: seq<Package>, ids: seq<Id>, p: nat, e: Entry)
    requires Enumerates(pkgs, ids) && e.UseEntry?
    ensures Leads(pkgs, ids, p, e, UseOf(pkgs, ids, p, e))
  {
    var target := Target(pkgs, p, e.path);
    if target.Some? {
      assert IsIface(pkgs, target.value) && target.value in ids;
    }
  }

  // ----- ranks from the sorts

  ghost function PkgRanks(pkgs: seq<Package>): (rank: seq<nat>)
    requires Accepted(pkgs)
    ensures DepGraphs.Ranked(PackageSort.GraphOf(Raw(pkgs)), rank)
  {
    PackageSort.GraphOfClosed(Raw(pkgs));
    DepGraphs.RankOf(PackageSort.GraphOf(Raw(pkgs)))
  }

  ghost function ItemRanks(p: Package): (rank: seq<nat>)
    requires ItemsSort(p)
    ensures DepGraphs.Ranked(Toposort.GraphOf(ItemKeys(p), ItemDeps(p)), rank)
  {
    DepGraphs.RankOf(Toposort.GraphOf(ItemKeys(p), ItemDeps(p)))
  }

  ghost function AboveAll(ranks: seq<nat>): (r: nat)
    ensures forall k :: 0 <= k < |ranks| ==> ranks[k] < r
  {
    if ranks == [] then 0
    else
      var last, r := ranks[|ranks| - 1], AboveAll(ranks[..|ranks| - 1]);
      if last < r then r else last + 1
  }

  /** An interface ranks where it was sorted; a world and its inline interfaces,
      which nothing uses, above every interface of the package. */
  ghost function RankIn(p: Package, i: nat): nat
    requires ItemsSort(p) && i < |p.items|
  {
    if p.items[i].Interface? then ItemRanks(p)[i] else AboveAll(ItemRanks(p))
  }

  ghost function TypeRanks(entries: seq<Entry>): (rank: seq<nat>)
    requires TypesSort(entries)
    ensures DepGraphs.Ranked(Toposort.GraphOf(TypeKeys(entries), TypeDeps(entries)), rank)
  {
    DepGraphs.RankOf(Toposort.GraphOf(TypeKeys(entries), TypeDeps(entries)))
  }

  ghost function NameRanks(entries: seq<Entry>): (m: map<string, nat>)
    requires TypesSort(entries)
    ensures forall n :: n in TypeKeys(entries) ==> n in m && m[n] == TypeRanks(entries)[PositionIn(TypeKeys(entries), n)]
  {
    map n | n in TypeKeys(entries) :: TypeRanks(entries)[PositionIn(TypeKeys(entries), n)]
  }

  /** A type the resolver keeps is one the check sorted, by what it refers to. */
  lemma {:induction false} KeptTypeWasSorted(entries: seq<Entry>, n: string)
    requires NoRedefinition(entries) && n in TypesOf(entries)
    ensures n in TypeKeys(entries) && n in TypeDeps(entries)
    ensures TypesOf(entries)[n].Defined? ==> TypeDeps(entries)[n] == NameList(TypesOf(entries)[n].expr)
  {
    var last := |entries| - 1;
    var init := entries[..last];
    NoRedefinitionBefore(entries);
    if n in TypesOf(init) {
      KeptTypeWasSorted(init, n);
      if entries[last].TypeEntry? && entries[last].name == n {
        var k := KeyComesFrom(init, n);
      }
    }
  }

  lemma {:induction false} KeptUseComesFrom(pkgs: seq<Package>, ids: seq<Id>, p: nat, entries: seq<Entry>, n: string)
    returns (k: nat)
    requires Enumerates(pkgs, ids) && n in UsesOf(pkgs, ids, p, entries)
    ensures k < |entries| && entries[k].UseEntry?
    ensures UsesOf(pkgs, ids, p, entries)[n] == UseOf(pkgs, ids, p, entries[k])
  {
    var last := |entries| - 1;
    var e := entries[last];
    if e.UseEntry? && e.on && e.alias == n {
      k := last;
    } else {
      k := KeptUseComesFrom(pkgs, ids, p, entries[..last], n);
    }
  }

  lemma SortedEdge(keys: seq<string>, deps: Toposort.Deps, rank: seq<nat>, a: nat, name: string)
    requires Toposort.AllKnown(keys, deps) && DepGraphs.Ranked(Toposort.GraphOf(keys, deps), rank)
    requires a < |keys| && name in Toposort.DepsOf(deps, keys[a])
    ensures name in keys && rank[PositionIn(keys, name)] < rank[a]
  {
    var g, names := Toposort.GraphOf(keys, deps), Toposort.DepsOf(deps, keys[a]);
    var k :| 0 <= k < |names| && names[k] == name;
    assert Toposort.Known(keys, names);
    assert g[a] == Toposort.Indices(keys, names);
    assert g[a][k] == PositionIn(keys, name);
    assert g[a][k] in g[a];
  }

  /** a belongs to a package sorted before b's, or ranks before b in the same
      package. */
  ghost predicate IdLower(pkgs: seq<Package>, a: Id, b: Id)
    requires Accepted(pkgs) && IdOk(pkgs, a) && IdOk(pkgs, b)
  {
    PlainOk(pkgs, a);
    PlainOk(pkgs, b);
    var rank, x, y := PkgRanks(pkgs), Plain(a), Plain(b);
    assert PackageOk(pkgs[x.pkg]) && PackageOk(pkgs[y.pkg]);
    || rank[x.pkg] < rank[y.pkg]
    || (x.pkg == y.pkg && RankIn(pkgs[x.pkg], x.item) < RankIn(pkgs[y.pkg], y.item))
  }

  /** What an item uses in its own package ranks before it. */
  lemma LocalGoesDown(p: Package, i: nat, j: nat, k: nat, t: nat)
    requires ItemsSort(p) && i < |p.items| && j < ScopeCount(p.items[i]) && k < |ScopeEntries(p.items[i], j)|
    requires ScopeEntries(p.items[i], j)[k].UseEntry? && ScopeEntries(p.items[i], j)[k].path.Local?
    requires IsInterface(p, t, ScopeEntries(p.items[i], j)[k].path.item)
    ensures RankIn(p, t) < RankIn(p, i)
  {
    hide ItemsSort, ItemRanks;
    var item := p.items[i];
    if item.Interface? {
      UsePathsHave(item.entries, k);
      LocalNamesHave(UsePaths(item.entries), p.items[t].name);
      SortedGoesDown(p, i, t);
    }
  }

  lemma SortedGoesDown(p: Package, i: nat, t: nat)
    requires ItemsSort(p) && i < |p.items| && t < |p.items| && p.items[t].name in SortedAfter(p.items[i])
    ensures ItemRanks(p)[t] < ItemRanks(p)[i]
  {
    hide Acyclic, ItemRanks, ItemDeps, SortedAfter, Toposort.AllKnown;
    var keys, deps := ItemKeys(p), ItemDeps(p);
    DepsOfItem(p, i);
    SortedEdge(keys, deps, ItemRanks(p), i, keys[t]);
    OnlyItem(p, PositionIn(keys, keys[t]), t);
  }

  lemma ForeignGoesDown(pkgs: seq<Package>, p: nat, q: nat)
    requires Accepted(pkgs) && p < |pkgs| && q < |pkgs| && pkgs[q].name in PkgDeps(pkgs[p])
    ensures PkgRanks(pkgs)[q] < PkgRanks(pkgs)[p]
  {
    hide PackageOk, Acyclic, PkgRanks, PackageSort.GraphOf, PkgDeps;
    var raw, deps := Raw(pkgs), PkgDeps(pkgs[p]);
    var m :| 0 <= m < |deps| && deps[m] == pkgs[q].name;
    assert raw[p].deps[m] == raw[q].name;
    PackageSort.DepIsEdge(raw, p, m);
    assert PackageSort.ByName(raw)[raw[q].name] == q;
  }

  /** What a use names ranks before the scope that uses it. */
  lemma UseGoesDown(pkgs: seq<Package>, id: Id, k: nat, target: Id)
    requires Accepted(pkgs) && IdOk(pkgs, id)
    requires var entries := EntriesOf(pkgs, id);
             k < |entries| && entries[k].UseEntry? && Finds(pkgs, Plain(id).pkg, entries[k].path, target)
    ensures IdLower(pkgs, target, id)
  {
    PlainOk(pkgs, id);
    var Of(p, i, j) := Plain(id);
    assert PackageOk(pkgs[p]);
    hide Acyclic, ItemRanks, PkgRanks, ItemOk, RankIn, PkgDeps, ItemPaths;
    var path := ScopeEntries(pkgs[p].items[i], j)[k].path;
    if path.Local? {
      LocalGoesDown(pkgs[p], i, j, k, target.item);
    } else {
      ScopePathIsItems(pkgs[p].items[i], j, k);
      PathIsDep(pkgs[p], i, path);
      ForeignGoesDown(pkgs, p, target.pkg);
    }
  }

  lemma TypesAreSorted(pkgs: seq<Package>, id: Id)
    requires Accepted(pkgs) && IdOk(pkgs, id)
    ensures Plain(id).pkg < |pkgs| && ScopeOk(pkgs[Plain(id).pkg], EntriesOf(pkgs, id))
  {
    PlainOk(pkgs, id);
    var Of(p, i, j) := Plain(id);
    assert PackageOk(pkgs[p]) && ItemOk(pkgs[p], pkgs[p].items[i]);
  }

  ghost function RanksOf(pkgs: seq<Package>, ids: seq<Id>): (rk: Ranks)
    requires Accepted(pkgs) && Enumerates(pkgs, ids)
    ensures |rk.pkg| == |rk.iface| == |rk.names| == |ids|
    ensures forall n :: 0 <= n < |ids| ==>
                          rk.pkg[n] == PkgRankOf(pkgs, ids[n]) && rk.iface[n] == ItemRankOf(pkgs, ids[n]) && rk.names[n] == NamesOf(pkgs, ids[n])
  {
    Ranks(seq(|ids|, n requires 0 <= n < |ids| => PkgRankOf(pkgs, ids[n])),
          seq(|ids|, n requires 0 <= n < |ids| => ItemRankOf(pkgs, ids[n])),
          seq(|ids|, n requires 0 <= n < |ids| => NamesOf(pkgs, ids[n])))
  }

  ghost function PkgRankOf(pkgs: seq<Package>, id: Id): nat
    requires Accepted(pkgs) && IdOk(pkgs, id)
  {
    PlainOk(pkgs, id);
    PkgRanks(pkgs)[Plain(id).pkg]
  }

  ghost function ItemRankOf(pkgs: seq<Package>, id: Id): nat
    requires Accepted(pkgs) && IdOk(pkgs, id)
  {
    PlainOk(pkgs, id);
    assert PackageOk(pkgs[Plain(id).pkg]);
    RankIn(pkgs[Plain(id).pkg], Plain(id).item)
  }

  ghost function NamesOf(pkgs: seq<Package>, id: Id): map<string, nat>
    requires Accepted(pkgs) && IdOk(pkgs, id)
  {
    TypesAreSorted(pkgs, id);
    NameRanks(EntriesOf(pkgs, id))
  }

  lemma ScopeUsesLower(pkgs: seq<Package>, ids: seq<Id>, s: nat)
    requires Accepted(pkgs) && Enumerates(pkgs, ids) && s < |ids|
    ensures UsesLower(EnvOf(pkgs, ids), RanksOf(pkgs, ids), s)
  {
    hide Accepted, UsesOf, TypesOf, EntriesOf, RankIn, PkgRanks, NamesOf;
    var env, rk, id := EnvOf(pkgs, ids), RanksOf(pkgs, ids), ids[s];
    forall n | n in env[s].uses && env[s].uses[n].target.Some?
      ensures env[s].uses[n].target.value < |env| && Lower(rk, env[s].uses[n].target.value, s)
    {
      var entries := EntriesOf(pkgs, id);
      var k := KeptUseComesFrom(pkgs, ids, Plain(id).pkg, entries, n);
      var target := Target(pkgs, Plain(id).pkg, entries[k].path).value;
      assert target in ids;
      UseGoesDown(pkgs, id, k, target);
    }
  }

  lemma ScopeTypesLower(pkgs: seq<Package>, ids: seq<Id>, s: nat, n: string)
    requires Accepted(pkgs) && Enumerates(pkgs, ids) && s < |ids| && n in EnvOf(pkgs, ids)[s].types
    ensures BodyLower(EnvOf(pkgs, ids), RanksOf(pkgs, ids), s, n)
  {
    hide Accepted, UsesOf, EntriesOf, RankIn, PkgRanks;
    var env, rk, id := EnvOf(pkgs, ids), RanksOf(pkgs, ids), ids[s];
    var entries := EntriesOf(pkgs, id);
    TypesAreSorted(pkgs, id);
    KeptTypeWasSorted(entries, n);
    if env[s].types[n].Defined? {
      var expr, keys := env[s].types[n].expr, TypeKeys(entries);
      forall m | m in NamesIn(expr) ensures NameRank(rk, s, m) < NameRank(rk, s, n) {
        NameListNames(expr, m);
        SortedEdge(keys, TypeDeps(entries), TypeRanks(entries), PositionIn(keys, n), m);
      }
    }
  }

  /** On accepted packages every lookup goes down, by package, then by item, then
      by type: in the scopes of interfaces, of worlds, of the interfaces written
      inline in them, and of copies of any of these under a label. */
  lemma SortsRankScopes(pkgs: seq<Package>, ids: seq<Id>)
    requires Accepted(pkgs) && Enumerates(pkgs, ids)
    ensures WellFounded(EnvOf(pkgs, ids))
  {
    hide Accepted, Enumerates, UsesLower, BodyLower;
    var env, rk := EnvOf(pkgs, ids), RanksOf(pkgs, ids);
    forall s | 0 <= s < |env| ensures UsesLower(env, rk, s) {
      ScopeUsesLower(pkgs, ids, s);
    }
    forall s, n | 0 <= s < |env| && n in env[s].types ensures BodyLower(env, rk, s, n) {
      ScopeTypesLower(pkgs, ids, s, n);
    }
    assert Scopes.Ranked(env, rk);
  }

  // ----- the interface graph

  /** The interfaces a scope's uses name, each once in the order first named;
      none can be listed when one of them was left out. */
  ghost function UsedIfaces(pkgs: seq<Package>, ids: seq<Id>, p: nat, entries: seq<Entry>): Option<seq<nat>>
    requires Enumerates(pkgs, ids)
  {
    if entries == [] then Some([])
    else
      var last, before := entries[|entries| - 1], UsedIfaces(pkgs, ids, p, entries[..|entries| - 1]);
      if before.None? || !last.UseEntry? || !last.on then before
      else
        var target := Target(pkgs, p, last.path);
        if target.None? then None
        else
          var at := PositionIn(ids, target.value);
          if at in before.value then before else Some(before.value + [at])
  }

  /** Every scope as a node of elaboration: its name and the interfaces it uses. */
  ghost function InterfacesOf(pkgs: seq<Package>, ids: seq<Id>): (u: Elaboration.Interfaces)
    requires Enumerates(pkgs, ids)
    ensures |u.names| == |u.deps| == |ids|
    ensures forall n :: 0 <= n < |ids| ==> u.names[n] == NameOf(pkgs, ids[n])
    ensures forall n :: 0 <= n < |ids| ==> u.deps[n] == UsedIfaces(pkgs, ids, Plain(ids[n]).pkg, EntriesOf(pkgs, ids[n]))
  {
    Elaboration.Interfaces(
      seq(|ids|, n requires 0 <= n < |ids| => NameOf(pkgs, ids[n])),
      seq(|ids|, n requires 0 <= n < |ids| => UsedIfaces(pkgs, ids, Plain(ids[n]).pkg, EntriesOf(pkgs, ids[n]))))
  }

  lemma {:induction false} UsedComesFrom(pkgs: seq<Package>, ids: seq<Id>, p: nat, entries: seq<Entry>, d: nat)
    returns (k: nat)
    requires Enumerates(pkgs, ids) && UsedIfaces(pkgs, ids, p, entries).Some? && d in UsedIfaces(pkgs, ids, p, entries).value
    ensures k < |entries| && entries[k].UseEntry? && entries[k].on
    ensures d < |ids| && Target(pkgs, p, entries[k].path) == Some(ids[d]) && Finds(pkgs, p, entries[k].path, ids[d])
  {
    var last := |entries| - 1;
    var before := UsedIfaces(pkgs, ids, p, entries[..last]);
    if d in before.value {
      k := UsedComesFrom(pkgs, ids, p, entries[..last], d);
    } else {
      k := last;
    }
  }

  /** A use that is kept although what it names was left out. */
  ghost predicate LostUse(pkgs: seq<Package>, p: nat, entries: seq<Entry>, k: nat) {
    k < |entries| && entries[k].UseEntry? && entries[k].on && Target(pkgs, p, entries[k].path).None?
  }

  ghost predicate UseListed(pkgs: seq<Package>, ids: seq<Id>, p: nat, e: Entry, used: seq<nat>)
    requires Enumerates(pkgs, ids)
  {
    e.UseEntry? && e.on ==>
      Target(pkgs, p, e.path).Some? && PositionIn(ids, Target(pkgs, p, e.path).value) in used
  }

  /** The interfaces are listed unless a use that is kept names one left out; each
      is listed once, and every kept use's is. */
  lemma {:induction false} UsedIfacesAreTheUses(pkgs: seq<Package>, ids: seq<Id>, p: nat, entries: seq<Entry>)
    requires Enumerates(pkgs, ids)
    ensures var used := UsedIfaces(pkgs, ids, p, entries);
            && (used.None? <==> exists k: nat :: LostUse(pkgs, p, entries, k))
            && (used.Some? ==>
                  && Distinct(used.value)
                  && forall k :: 0 <= k < |entries| ==> UseListed(pkgs, ids, p, entries[k], used.value))
  {
    if entries != [] {
      var last := |entries| - 1;
      var init := entries[..last];
      UsedIfacesAreTheUses(pkgs, ids, p, init);
      var before, used := UsedIfaces(pkgs, ids, p, init), UsedIfaces(pkgs, ids, p, entries);
      forall k: nat ensures LostUse(pkgs, p, entries, k) <==> LostUse(pkgs, p, init, k) || (k == last && LostUse(pkgs, p, entries, last)) {}
      if used.None? {
        if before.None? {
          var k: nat :| LostUse(pkgs, p, init, k);
          assert LostUse(pkgs, p, entries, k);
        } else {
          assert LostUse(pkgs, p, entries, last);
        }
      } else {
        forall k | 0 <= k < |entries| ensures UseListed(pkgs, ids, p, entries[k], used.value) {
          assert k < last ==> UseListed(pkgs, ids, p, init[k], before.value);
        }
      }
    }
  }

  lemma EdgeGoesDown(pkgs: seq<Package>, ids: seq<Id>, n: nat, d: nat)
    requires Accepted(pkgs) && Enumerates(pkgs, ids)
    requires n < |ids| && d in Elaboration.GraphOf(InterfacesOf(pkgs, ids))[n]
    ensures d < |ids| && IdLower(pkgs, ids[d], ids[n])
  {
    var k := UsedComesFrom(pkgs, ids, Plain(ids[n]).pkg, EntriesOf(pkgs, ids[n]), d);
    UseGoesDown(pkgs, ids[n], k, ids[d]);
  }

  lemma {:induction false} PathGoesDown(pkgs: seq<Package>, ids: seq<Id>, p: seq<nat>, k: nat)
    requires Accepted(pkgs) && Enumerates(pkgs, ids)
    requires DepGraphs.Path(Elaboration.GraphOf(InterfacesOf(pkgs, ids)), p) && 0 < k < |p|
    ensures IdLower(pkgs, ids[p[k]], ids[p[0]])
  {
    assert Step(Elaboration.GraphOf(InterfacesOf(pkgs, ids)), p, k - 1);
    EdgeGoesDown(pkgs, ids, p[k - 1], p[k]);
    if k > 1 {
      PathGoesDown(pkgs, ids, p, k - 1);
    }
  }

  /** On accepted packages the interfaces a world can reach, those it writes inline
      and those under labels included, form an acyclic graph, as elaboration needs. */
  lemma SortsRankInterfaces(pkgs: seq<Package>, ids: seq<Id>)
    requires Accepted(pkgs) && Enumerates(pkgs, ids)
    ensures Elaboration.Valid(InterfacesOf(pkgs, ids))
  {
    hide Accepted, UsedIfaces, IdOk, Enumerates, EntriesOf, NameOf;
    var g := Elaboration.GraphOf(InterfacesOf(pkgs, ids));
    forall i, k | 0 <= i < |g| && 0 <= k < |g[i]| ensures g[i][k] < |g| {
      assert g[i][k] in g[i];
      EdgeGoesDown(pkgs, ids, i, g[i][k]);
    }
    forall p ensures !Cycle(g, p) {
      if Cycle(g, p) {
        NoCycle(pkgs, ids, p);
      }
    }
  }

  lemma NoCycle(pkgs: seq<Package>, ids: seq<Id>, p: seq<nat>)
    requires Accepted(pkgs) && Enumerates(pkgs, ids)
    requires DepGraphs.Path(Elaboration.GraphOf(InterfacesOf(pkgs, ids)), p) && |p| >= 2
    ensures p[0] != p[|p| - 1]
  {
    hide Accepted, IdLower, UsedIfaces, EntriesOf, NameOf;
    PathGoesDown(pkgs, ids, p, |p| - 1);
    NotLowerThanItself(pkgs, ids[p[0]]);
  }

  lemma NotLowerThanItself(pkgs: seq<Package>, id: Id)
    requires Accepted(pkgs) && IdOk(pkgs, id)
    ensures !IdLower(pkgs, id, id)
  {
  }

  /** So every world of accepted packages can be elaborated: the scope at n gives
      its uses, and its items may be any of the interfaces. */
  lemma WorldsAreReady(pkgs: seq<Package>, ids: seq<Id>, n: nat, imports: seq<Elaboration.Item>, exports: seq<Elaboration.Item>)
    requires Accepted(pkgs) && Enumerates(pkgs, ids) && n < |ids|
    requires forall k :: 0 <= k < |imports| && imports[k].IfaceItem? ==> imports[k].iface < |ids|
    requires forall k :: 0 <= k < |exports| && exports[k].IfaceItem? ==> exports[k].iface < |ids|
    ensures var u := InterfacesOf(pkgs, ids);
            Elaboration.Valid(u) && Elaboration.WorldBelow(u, Elaboration.World(u.deps[n], imports, exports))
  {
    hide Accepted, UsedIfaces, Enumerates, EntriesOf, NameOf;
    SortsRankInterfaces(pkgs, ids);
    var u := InterfacesOf(pkgs, ids);
    if u.deps[n].Some? {
      assert Elaboration.GraphOf(u)[n] == u.deps[n].value;
    }
  }

  // ----- what only a gate can leave out

  /** The resolver finds what the uses of other packages name, as it does before
      it declares a package: the interface, and the type unless it is not visible. */
  ghost predicate ForeignOk(pkgs: seq<Package>, p: nat, e: Entry) {
    e.UseEntry? && e.path.Foreign? && e.on ==>
      && Target(pkgs, p, e.path).Some?
      && (e.visible ==> Declares(EntriesOf(pkgs, Target(pkgs, p, e.path).value), e.name))
  }

  /** A type or a use of the name is declared, and kept. */
  ghost predicate Declares(entries: seq<Entry>, name: string) {
    name in TypesOf(entries) || exists k :: 0 <= k < |entries| && entries[k].UseEntry? && entries[k].on && entries[k].alias == name
  }

  ghost predicate ForeignFound(pkgs: seq<Package>) {
    forall id, k :: IdOk(pkgs, id) && 0 <= k < |EntriesOf(pkgs, id)| ==> ForeignOk(pkgs, Plain(id).pkg, EntriesOf(pkgs, id)[k])
  }

  /** No gate leaves anything out. */
  ghost predicate Whole(pkgs: seq<Package>) {
    && (forall p, i :: 0 <= p < |pkgs| && 0 <= i < |pkgs[p].items| ==> pkgs[p].items[i].on)
    && forall id :: IdOk(pkgs, id) ==> WholeEntries(EntriesOf(pkgs, id))
  }

  ghost predicate WholeEntries(entries: seq<Entry>) {
    forall k :: 0 <= k < |entries| ==> entries[k].on && (entries[k].UseEntry? ==> entries[k].visible)
  }

  lemma {:induction false} KeyIsKept(pkgs: seq<Package>, ids: seq<Id>, p: nat, entries: seq<Entry>, n: string)
    requires Enumerates(pkgs, ids) && WholeEntries(entries) && n in TypeKeys(entries)
    ensures n in TypesOf(entries) || n in UsesOf(pkgs, ids, p, entries)
  {
    var last := |entries| - 1;
    if EntryName(entries[last]) != n {
      KeyIsKept(pkgs, ids, p, entries[..last], n);
    }
  }

  lemma {:induction false} KeyOf(entries: seq<Entry>, k: nat)
    requires k < |entries|
    ensures EntryName(entries[k]) in TypeKeys(entries)
  {
    if k < |entries| - 1 {
      KeyOf(entries[..|entries| - 1], k);
    }
  }

  lemma {:induction false} TypeIsKey(entries: seq<Entry>, n: string)
    requires n in TypesOf(entries)
    ensures n in TypeKeys(entries)
  {
    var last := |entries| - 1;
    if n in TypesOf(entries[..last]) {
      TypeIsKey(entries[..last], n);
    }
  }

  ghost predicate IsThere(pkgs: seq<Package>, p: nat, e: Entry)
    requires e.UseEntry?
  {
    Target(pkgs, p, e.path).Some? && e.name in TypeKeys(EntriesOf(pkgs, Target(pkgs, p, e.path).value))
  }

  lemma LocalIsThere(pkgs: seq<Package>, p: nat, e: Entry)
    requires p < |pkgs| && Distinct(ItemKeys(pkgs[p])) && UseOk(pkgs[p], e) && e.UseEntry? && e.path.Local?
    requires forall i :: 0 <= i < |pkgs[p].items| ==> pkgs[p].items[i].on
    ensures IsThere(pkgs, p, e)
  {
    var i: nat :| IsInterface(pkgs[p], i, e.path.item) && e.name in TypeKeys(pkgs[p].items[i].entries);
    var found := Of(p, i, 0);
    assert Finds(pkgs, p, e.path, found);
    var target := Target(pkgs, p, e.path).value;
    OnlyItem(pkgs[p], i, target.item);
    assert target == found;
  }

  lemma ForeignIsThere(pkgs: seq<Package>, p: nat, e: Entry)
    requires ForeignOk(pkgs, p, e) && e.UseEntry? && e.path.Foreign? && e.on && e.visible
    ensures IsThere(pkgs, p, e)
  {
    hide EntriesOf;
    var entries := EntriesOf(pkgs, Target(pkgs, p, e.path).value);
    if e.name in TypesOf(entries) {
      TypeIsKey(entries, e.name);
    } else {
      var m :| 0 <= m < |entries| && entries[m].UseEntry? && entries[m].on && entries[m].alias == e.name;
      KeyOf(entries, m);
    }
  }

  lemma WholeAt(pkgs: seq<Package>, id: Id)
    requires Whole(pkgs) && IdOk(pkgs, id)
    ensures WholeEntries(EntriesOf(pkgs, id))
  {
  }

  lemma ForeignAt(pkgs: seq<Package>, id: Id, k: nat)
    requires ForeignFound(pkgs) && IdOk(pkgs, id) && k < |EntriesOf(pkgs, id)|
    ensures ForeignOk(pkgs, Plain(id).pkg, EntriesOf(pkgs, id)[k])
  {
  }

  /** With no gate in the way, what a use names is there and has the name. */
  lemma UseIsThere(pkgs: seq<Package>, id: Id, k: nat)
    requires Accepted(pkgs) && ForeignFound(pkgs) && Whole(pkgs) && IdOk(pkgs, id)
    requires k < |EntriesOf(pkgs, id)| && EntriesOf(pkgs, id)[k].UseEntry?
    ensures IsThere(pkgs, Plain(id).pkg, EntriesOf(pkgs, id)[k])
  {
    var p, e := Plain(id).pkg, EntriesOf(pkgs, id)[k];
    WholeAt(pkgs, id);
    ForeignAt(pkgs, id, k);
    TypesAreSorted(pkgs, id);
    assert PackageOk(pkgs[p]) && forall i :: 0 <= i < |pkgs[p].items| ==> pkgs[p].items[i].on;
    hide EntriesOf, ForeignFound, Whole, IsThere, ForeignOk, Acyclic, TypesSort, Toposort.AllKnown, ItemOk;
    if e.path.Local? {
      LocalIsThere(pkgs, p, e);
    } else {
      ForeignIsThere(pkgs, p, e);
    }
  }

  /** With no gate in the way, every name the check has seen is found: an
      exclusion error is always the work of a gate. */
  lemma {:induction false} OnlyGatesExclude(pkgs: seq<Package>, ids: seq<Id>, s: nat, n: string)
    requires Accepted(pkgs) && ForeignFound(pkgs) && Enumerates(pkgs, ids) && Whole(pkgs) && WellFounded(EnvOf(pkgs, ids))
    requires s < |ids| && n in TypeKeys(EntriesOf(pkgs, ids[s]))
    ensures LookupType(EnvOf(pkgs, ids), s, n).Ok?
    decreases PkgRank(EnvOf(pkgs, ids), s), IfaceRank(EnvOf(pkgs, ids), s)
  {
    WholeAt(pkgs, ids[s]);
    hide Accepted, ForeignFound, EntriesOf, Whole, WholeEntries, LookupType, WellFounded, TypesOf, UsesOf, TypeKeys, NameOf, IdOk;
    var env, entries, p := EnvOf(pkgs, ids), EntriesOf(pkgs, ids[s]), Plain(ids[s]).pkg;
    KeyIsKept(pkgs, ids, p, entries, n);
    if n in env[s].types {
      LookupHere(env, s, n);
    } else {
      var k := KeptUseIsVisible(pkgs, ids, p, entries, n);
      UseIsThere(pkgs, ids[s], k);
      var u := env[s].uses[n];
      LookupFollows(env, s, n);
      OnlyGatesExclude(pkgs, ids, u.target.value, u.name);
    }
  }

  /** With no gate in the way, a kept use leads to what it names. */
  lemma KeptUseIsVisible(pkgs: seq<Package>, ids: seq<Id>, p: nat, entries: seq<Entry>, n: string) returns (k: nat)
    requires Enumerates(pkgs, ids) && WholeEntries(entries) && n in UsesOf(pkgs, ids, p, entries)
    ensures k < |entries| && entries[k].UseEntry?
    ensures Target(pkgs, p, entries[k].path).Some? ==>
              var target := Target(pkgs, p, entries[k].path).value;
              target in ids && UsesOf(pkgs, ids, p, entries)[n] == UseRef(Some(PositionIn(ids, target)), entries[k].name)
  {
    k := KeptUseComesFrom(pkgs, ids, p, entries, n);
  }
}
