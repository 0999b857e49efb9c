/** The resolver's sort of packages (component/wit/resolve.go): a depth-first
visit that marks the dependencies under way by name, but never the package a
visit starts from.
*/
module PackageSort {
  import opened Results
  import opened DepGraphs

  /** A package and the names of those it refers to, given or not. */
  datatype Package = Package(name: string, deps: seq<string>)

  datatype SortError = DefinedTwice(name: string) | DependencyCycle(name: string)

  ghost predicate DistinctNames(pkgs: seq<Package>) {
    forall i, j :: 0 <= i < j < |pkgs| ==> pkgs[i].name != pkgs[j].name
  }

  ghost predicate Names(byName: map<string, nat>, pkgs: seq<Package>) {
    && (forall i :: 0 <= i < |pkgs| ==> pkgs[i].name in byName && byName[pkgs[i].name] == i)
    && (forall name :: name in byName ==> byName[name] < |pkgs| && pkgs[byName[name]].name == name)
  }

  ghost function NameSet(pkgs: seq<Package>): set<string> {
    set i | 0 <= i < |pkgs| :: pkgs[i].name
  }

  ghost function IndexOf(pkgs: seq<Package>, name: string): (i: nat)
    requires name in NameSet(pkgs)
    ensures i < |pkgs| && pkgs[i].name == name
  {
    var i :| 0 <= i < |pkgs| && pkgs[i].name == name; i
  }

  ghost function ByName(pkgs: seq<Package>): (byName: map<string, nat>)
    requires DistinctNames(pkgs)
    ensures Names(byName, pkgs)
  {
    IndexedByName(pkgs);
    map name | name in NameSet(pkgs) :: IndexOf(pkgs, name)
  }

  lemma IndexedByName(pkgs: seq<Package>)
    requires DistinctNames(pkgs)
    ensures forall i :: 0 <= i < |pkgs| ==> pkgs[i].name in NameSet(pkgs) && IndexOf(pkgs, pkgs[i].name) == i
  {
    forall i | 0 <= i < |pkgs| ensures pkgs[i].name in NameSet(pkgs) && IndexOf(pkgs, pkgs[i].name) == i {
      assert pkgs[i].name in NameSet(pkgs);
      var j := IndexOf(pkgs, pkgs[i].name);
      assert i == j || i < j || j < i;
    }
  }

  /** The given packages among those named. */
  ghost function Given(byName: map<string, nat>, names: seq<string>): seq<nat> {
    if names == [] then []
    else (if names[0] in byName then [byName[names[0]]] else []) + Given(byName, names[1..])
  }

  lemma {:induction false} GivenIncludes(byName: map<string, nat>, names: seq<string>, k: nat)
    requires k < |names| && names[k] in byName
    ensures byName[names[k]] in Given(byName, names)
  {
    if k > 0 {
      GivenIncludes(byName, names[1..], k - 1);
    }
  }

  lemma {:induction false} GivenComesFrom(byName: map<string, nat>, names: seq<string>, j: nat) returns (k: nat)
    requires j in Given(byName, names)
    ensures k < |names| && names[k] in byName && byName[names[k]] == j
  {
    if names[0] in byName && byName[names[0]] == j {
      k := 0;
    } else {
      k := GivenComesFrom(byName, names[1..], j);
      k := k + 1;
    }
  }

  /** The packages' dependencies on one another; those not given do not count. */
  ghost function GraphOf(pkgs: seq<Package>): (g: Graph)
    requires DistinctNames(pkgs)
    ensures |g| == |pkgs|
  {
    seq(|pkgs|, i requires 0 <= i < |pkgs| => Given(ByName(pkgs), pkgs[i].deps))
  }

  lemma DepIsEdge(pkgs: seq<Package>, p: nat, k: nat)
    requires DistinctNames(pkgs) && p < |pkgs| && k < |pkgs[p].deps| && pkgs[p].deps[k] in ByName(pkgs)
    ensures ByName(pkgs)[pkgs[p].deps[k]] in GraphOf(pkgs)[p]
  {
    GivenIncludes(ByName(pkgs), pkgs[p].deps, k);
  }

  lemma GraphOfClosed(pkgs: seq<Package>)
    requires DistinctNames(pkgs)
    ensures Closed(GraphOf(pkgs))
  {
    var g := GraphOf(pkgs);
    forall i, k | 0 <= i < |g| && 0 <= k < |g[i]| ensures g[i][k] < |g| {
      var m := GivenComesFrom(ByName(pkgs), pkgs[i].deps, g[i][k]);
    }
  }

  /** name is that of a package on a cycle. */
  ghost predicate OnCycle(pkgs: seq<Package>, name: string)
    requires DistinctNames(pkgs)
  {
    exists c :: Cycle(GraphOf(pkgs), c) && pkgs[c[0]].name == name
  }

  /** The given ones of p's first k dependencies are in order. */
  ghost predicate DepsPlaced(byName: map<string, nat>, deps: seq<string>, k: nat, order: seq<nat>)
    requires k <= |deps|
  {
    forall m :: 0 <= m < k && deps[m] in byName ==> byName[deps[m]] in order
  }

  lemma NonePlaced(byName: map<string, nat>, deps: seq<string>, order: seq<nat>)
    ensures DepsPlaced(byName, deps, 0, order)
  {
  }

  lemma OneMorePlaced(byName: map<string, nat>, deps: seq<string>, k: nat, before: seq<nat>, after: seq<nat>)
    requires k < |deps| && DepsPlaced(byName, deps, k, before) && before <= after
    requires deps[k] in byName ==> byName[deps[k]] in after
    ensures DepsPlaced(byName, deps, k + 1, after)
  {
    assert forall x :: x in before ==> x in after;
  }

  lemma AllDepsPlaced(pkgs: seq<Package>, p: nat, order: seq<nat>)
    requires DistinctNames(pkgs) && p < |pkgs|
    requires DepsPlaced(ByName(pkgs), pkgs[p].deps, |pkgs[p].deps|, order)
    ensures DepsIn(GraphOf(pkgs), p, order)
  {
    var g := GraphOf(pkgs);
    forall d | d in g[p] ensures d in order {
      var k := GivenComesFrom(ByName(pkgs), pkgs[p].deps, d);
    }
  }

  /** Every marked name is that of a package on the trail after the first. */
  ghost predicate OnTrail(byName: map<string, nat>, visiting: set<string>, trail: seq<nat>)
    requires |trail| > 0
  {
    forall name :: name in visiting ==> name in byName && byName[name] in trail[1..]
  }

  /** trail leads from the package a visit started from down to p. */
  ghost predicate Trail(g: Graph, trail: seq<nat>, p: nat) {
    |trail| > 0 && PathFromTo(g, trail, trail[0], p)
  }

  lemma TrailGrows(g: Graph, byName: map<string, nat>, visiting: set<string>, trail: seq<nat>, p: nat, d: string)
    requires Trail(g, trail, p) && OnTrail(byName, visiting, trail)
    requires d in byName && byName[d] < |g| && byName[d] in g[p]
    ensures Trail(g, trail + [byName[d]], byName[d])
    ensures OnTrail(byName, visiting + {d}, trail + [byName[d]])
  {
    var t := trail + [byName[d]];
    assert t[1..] == trail[1..] + [byName[d]];
    forall i | 0 <= i < |t| - 1 ensures Step(g, t, i) {
      if i < |trail| - 1 { assert Step(g, trail, i); }
    }
  }

  /** A dependency already marked is on the trail, so it closes a cycle. */
  lemma ClosesCycle(pkgs: seq<Package>, visiting: set<string>, trail: seq<nat>, p: nat, k: nat, d: string)
    requires DistinctNames(pkgs) && Trail(GraphOf(pkgs), trail, p) && OnTrail(ByName(pkgs), visiting, trail)
    requires k < |pkgs[p].deps| && pkgs[p].deps[k] == d && d in visiting
    ensures OnCycle(pkgs, d)
  {
    var g, byName := GraphOf(pkgs), ByName(pkgs);
    DepIsEdge(pkgs, p, k);
    TrailGrows(g, byName, visiting, trail, p, d);
    var i :| 1 <= i < |trail| && trail[i] == byName[d];
    var t := trail + [trail[i]];
    SubPath(g, t, i, |t|);
    assert Cycle(g, t[i..|t|]);
  }

  /** order holds the packages that are done, each after those it names. */
  ghost predicate Placed(pkgs: seq<Package>, done: set<nat>, order: seq<nat>)
    requires DistinctNames(pkgs)
  {
    PartialOrder(GraphOf(pkgs), order) && forall p: nat :: p in done <==> p in order
  }

  lemma NothingPlaced(pkgs: seq<Package>)
    requires DistinctNames(pkgs)
    ensures Placed(pkgs, {}, [])
  {
  }

  lemma DoneIsPlaced(pkgs: seq<Package>, done: set<nat>, order: seq<nat>, p: nat)
    requires DistinctNames(pkgs) && Placed(pkgs, done, order)
    ensures p in done <==> p in order
  {
  }

  /** Visiting a dependency q of p, which comes last, cannot have placed p. */
  lemma NotPlacedByDep(pkgs: seq<Package>, done: set<nat>, before: seq<nat>, after: seq<nat>, p: nat, q: nat)
    requires DistinctNames(pkgs) && Placed(pkgs, done, after) && p < |pkgs| && q in GraphOf(pkgs)[p] && p !in before
    requires after == before || (|after| > 0 && after[|after| - 1] == q)
    ensures p !in after
  {
    var g := GraphOf(pkgs);
    forall k | 0 <= k < |after| ensures after[k] != p {
      assert DepsIn(g, after[k], after[..k]);
    }
  }

  lemma PlacedLast(pkgs: seq<Package>, done: set<nat>, order: seq<nat>, p: nat)
    requires DistinctNames(pkgs) && Placed(pkgs, done, order) && p < |pkgs| && p !in order && DepsIn(GraphOf(pkgs), p, order)
    ensures Placed(pkgs, done + {p}, order + [p])
  {
    var g, o := GraphOf(pkgs), order + [p];
    forall k | 0 <= k < |o| ensures DepsIn(g, o[k], o[..k]) {
      if k < |order| {
        assert o[..k] == order[..k];
      } else {
        assert o[..k] == order;
      }
    }
  }

  class Sorter {
    const pkgs: seq<Package>
    const byName: map<string, nat>
    var done: set<nat>
    var visiting: set<string>
    var order: seq<nat>

    constructor (pkgs: seq<Package>, byName: map<string, nat>)
      ensures this.pkgs == pkgs && this.byName == byName
      ensures done == {} && visiting == {} && order == []
    {
      this.pkgs, this.byName := pkgs, byName;
      done, visiting, order := {}, {}, [];
    }

    ghost predicate Valid()
      reads `done, `order
    {
      DistinctNames(pkgs) && byName == ByName(pkgs) && Placed(pkgs, done, order)
    }

    /** Puts p after the packages it names, or reports one on a cycle. */
    method Visit(p: nat, ghost trail: seq<nat>) returns (cycle: Option<string>)
      requires Valid() && p < |pkgs| && Trail(GraphOf(pkgs), trail, p) && OnTrail(byName, visiting, trail)
      modifies this`done, this`visiting, this`order
      ensures cycle.None? ==> Valid() && visiting == old(visiting) && p in order && old(order) <= order
      ensures cycle.None? && old(p in done) ==> order == old(order)
      ensures cycle.None? && !old(p in done) ==> order[|order| - 1] == p
      ensures cycle.Some? ==> OnCycle(pkgs, cycle.value)
      decreases |byName.Keys - visiting|, 2
    {
      hide GraphOf, DistinctNames, Placed, OnTrail, Trail, OnCycle, DepsPlaced, ByName;
      DoneIsPlaced(pkgs, done, order, p);
      if p in done {
        return None;
      }
      NonePlaced(byName, pkgs[p].deps, order);
      for k := 0 to |pkgs[p].deps|
        invariant Valid() && visiting == old(visiting) && old(order) <= order
        invariant p !in order
        invariant DepsPlaced(byName, pkgs[p].deps, k, order)
      {
        ghost var before := order;
        cycle := VisitDep(p, k, trail);
        if cycle.Some? {
          return;
        }
        OneMorePlaced(byName, pkgs[p].deps, k, before, order);
      }
      AllDepsPlaced(pkgs, p, order);
      PlacedLast(pkgs, done, order, p);
      done := done + {p};
      order := order + [p];
      cycle := None;
    }

    /** Visits p's dependency k, marked meanwhile. */
    method VisitDep(p: nat, k: nat, ghost trail: seq<nat>) returns (cycle: Option<string>)
      requires Valid() && p < |pkgs| && Trail(GraphOf(pkgs), trail, p) && OnTrail(byName, visiting, trail)
      requires p !in order && k < |pkgs[p].deps|
      modifies this`done, this`visiting, this`order
      ensures cycle.None? ==> Valid() && visiting == old(visiting) && old(order) <= order && p !in order
      ensures cycle.None? && pkgs[p].deps[k] in byName ==> byName[pkgs[p].deps[k]] in order
      ensures cycle.Some? ==> OnCycle(pkgs, cycle.value)
      decreases |byName.Keys - visiting|, 1
    {
      hide GraphOf, DistinctNames, Placed, OnTrail, Trail, OnCycle, ByName;
      var d := pkgs[p].deps[k];
      if d in visiting {
        ClosesCycle(pkgs, visiting, trail, p, k, d);
        return Some(d);
      }
      visiting := visiting + {d};
      cycle := None;
      if d in byName {
        FewerUnmarked(byName.Keys, old(visiting), d);
        cycle := VisitGiven(p, k, d, trail, old(visiting));
      }
      if cycle.None? {
        visiting := visiting - {d};
        assert visiting == old(visiting);
      }
    }

    /** Visits the package a marked dependency names. */
    method VisitGiven(p: nat, k: nat, d: string, ghost trail: seq<nat>, ghost marked: set<string>)
      returns (cycle: Option<string>)
      requires Valid() && p < |pkgs| && Trail(GraphOf(pkgs), trail, p) && OnTrail(byName, marked, trail)
      requires p !in order && k < |pkgs[p].deps| && d == pkgs[p].deps[k] && d in byName
      requires visiting == marked + {d}
      modifies this`done, this`visiting, this`order
      ensures cycle.None? ==> Valid() && visiting == old(visiting) && old(order) <= order && p !in order && byName[d] in order
      ensures cycle.Some? ==> OnCycle(pkgs, cycle.value)
      decreases |byName.Keys - visiting|, 3
    {
      hide GraphOf, DistinctNames, Placed, OnTrail, Trail, OnCycle;
      DepIsEdge(pkgs, p, k);
      TrailGrows(GraphOf(pkgs), byName, marked, trail, p, d);
      cycle := Visit(byName[d], trail + [byName[d]]);
      if cycle.None? {
        NotPlacedByDep(pkgs, done, old(order), order, p, byName[d]);
      }
    }
  }

  lemma FewerUnmarked(names: set<string>, visiting: set<string>, d: string)
    requires d in names && d !in visiting
    ensures |names - (visiting + {d})| < |names - visiting|
  {
    assert names - visiting == (names - (visiting + {d})) + {d};
  }

  /** sorted lists every package once: the order in which they are visited. */
  ghost predicate IsArrangement(sorted: seq<nat>, n: nat) {
    |sorted| == n && Distinct(sorted) && forall k :: 0 <= k < n ==> sorted[k] < n
  }

  method IndexPackages(pkgs: seq<Package>) returns (r: Result<map<string, nat>, SortError>)
    ensures r.Ok? <==> DistinctNames(pkgs)
    ensures r.Ok? ==> r.value == ByName(pkgs)
    ensures r.Err? ==> r.error.DefinedTwice? &&
                       exists i, j :: 0 <= i < j < |pkgs| && pkgs[i].name == pkgs[j].name == r.error.name
  {
    var byName: map<string, nat> := map[];
    for i := 0 to |pkgs|
      invariant forall j :: 0 <= j < i ==> pkgs[j].name in byName && byName[pkgs[j].name] == j
      invariant forall name :: name in byName ==> byName[name] < i && pkgs[byName[name]].name == name
    {
      if pkgs[i].name in byName {
        return Err(DefinedTwice(pkgs[i].name));
      }
      byName := byName[pkgs[i].name := i];
    }
    assert byName == ByName(pkgs);
    r := Ok(byName);
  }

  /** Each package after those given that it names, whatever order they are
      visited in; an error for a package given twice or a cycle. */
  method SortPackages(pkgs: seq<Package>, sorted: seq<nat>) returns (r: Result<seq<nat>, SortError>)
    requires IsArrangement(sorted, |pkgs|)
    ensures r.Ok? <==> DistinctNames(pkgs) && Acyclic(GraphOf(pkgs))
    ensures r.Ok? ==> TopologicalOrder(GraphOf(pkgs), r.value)
    ensures r.Err? && r.error.DefinedTwice? <==> !DistinctNames(pkgs)
    ensures r.Err? && r.error.DefinedTwice? ==>
              exists i, j :: 0 <= i < j < |pkgs| && pkgs[i].name == pkgs[j].name == r.error.name
    ensures r.Err? && r.error.DependencyCycle? ==>
              OnCycle(pkgs, r.error.name)
  {
    hide GraphOf, DistinctNames;
    var indexed := IndexPackages(pkgs);
    if indexed.Err? {
      return Err(indexed.error);
    }
    var byName := indexed.value;
    ghost var g := GraphOf(pkgs);
    NothingPlaced(pkgs);
    var s := new Sorter(pkgs, byName);
    for k := 0 to |sorted|
      invariant s.pkgs == pkgs && s.byName == byName && s.Valid() && s.visiting == {}
      invariant forall m :: 0 <= m < k ==> sorted[m] in s.order
    {
      assert Trail(g, [sorted[k]], sorted[k]);
      var cycle := s.Visit(sorted[k], [sorted[k]]);
      if cycle.Some? {
        return Err(DependencyCycle(cycle.value));
      }
    }
    AllPlaced(sorted, s.order, |pkgs|);
    OrderedIsAcyclic(g, s.order);
    return Ok(s.order);
  }

  lemma AllPlaced(sorted: seq<nat>, order: seq<nat>, n: nat)
    requires IsArrangement(sorted, n) && Distinct(order)
    requires forall k :: 0 <= k < |order| ==> order[k] < n
    requires forall k :: 0 <= k < n ==> sorted[k] in order
    ensures |order| == n
  {
    CoversAll(sorted, n);
    forall x: nat | x < n ensures x in order {
      assert x in sorted;
    }
    AtMostBelow(order, n);
    if |order| < n {
      var v := Absent(order, n);
    }
  }
}
