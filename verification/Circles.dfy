/** Graphs of names: a sort finds no cycle exactly when no names go round in a
    circle. */
module Circles {
  import opened DepGraphs
  import Toposort

  /** Whether the first name leads straight to the second. */
  type Link = (string, string) -> bool

  ghost predicate Circle(link: Link, c: seq<string>) {
    |c| >= 2 && c[0] == c[|c| - 1] && forall i :: 0 <= i < |c| - 1 ==> link(c[i], c[i + 1])
  }

  ghost predicate NoCircle(link: Link) {
    forall c :: !Circle(link, c)
  }

  /** The graph has an edge between two keys where their names are linked. */
  ghost predicate Pictures(g: Graph, keys: seq<string>, link: Link) {
    && |g| == |keys| && Distinct(keys)
    && (forall a, b :: 0 <= a < |g| && 0 <= b < |g| ==> (b in g[a] <==> link(keys[a], keys[b])))
    && forall n, m :: link(n, m) ==> n in keys && m in keys
  }

  lemma NamesOfCycle(g: Graph, keys: seq<string>, link: Link, p: seq<nat>)
    requires Pictures(g, keys, link) && Cycle(g, p)
    ensures !NoCircle(link)
  {
    var c := seq(|p|, i requires 0 <= i < |p| => keys[p[i]]);
    forall i | 0 <= i < |c| - 1 ensures link(c[i], c[i + 1]) {
      assert Step(g, p, i);
    }
    assert Circle(link, c);
  }

  lemma CycleOfNames(g: Graph, keys: seq<string>, link: Link, c: seq<string>)
    requires Pictures(g, keys, link) && Circle(link, c)
    ensures !Acyclic(g)
  {
    forall i | 0 <= i < |c| ensures c[i] in keys {
      var j := if i < |c| - 1 then i else 0;
      assert link(c[j], c[j + 1]);
    }
    var p := seq(|c|, i requires 0 <= i < |c| => PositionIn(keys, c[i]));
    forall i | 0 <= i < |p| - 1 ensures Step(g, p, i) {
      assert link(c[i], c[i + 1]);
    }
    assert Cycle(g, p);
  }

  lemma AcyclicIffNoCircle(g: Graph, keys: seq<string>, link: Link)
    requires Pictures(g, keys, link)
    ensures Acyclic(g) <==> NoCircle(link)
  {
    if p :| Cycle(g, p) {
      NamesOfCycle(g, keys, link, p);
    }
    if c :| Circle(link, c) {
      CycleOfNames(g, keys, link, c);
    }
  }

  /** What is sorted, and by what it depends on, is what the names are linked to. */
  ghost predicate DependsBy(keys: seq<string>, deps: Toposort.Deps, link: Link) {
    && Distinct(keys) && (forall n, m :: link(n, m) ==> n in keys)
    && forall a, m :: 0 <= a < |keys| ==> (link(keys[a], m) <==> m in Toposort.DepsOf(deps, keys[a]))
  }

  /** Keys sort exactly when all they are linked to are keys and none go round in
      a circle. */
  lemma SortsIff(keys: seq<string>, deps: Toposort.Deps, link: Link)
    requires DependsBy(keys, deps, link)
    ensures Toposort.AllKnown(keys, deps) <==> forall n, m :: link(n, m) ==> m in keys
    ensures Toposort.AllKnown(keys, deps) ==> (Acyclic(Toposort.GraphOf(keys, deps)) <==> NoCircle(link))
  {
    if Toposort.AllKnown(keys, deps) {
      forall n, m | link(n, m) ensures m in keys {
        LinkIsKnown(keys, deps, link, n, m);
      }
      GraphPictures(keys, deps, link);
      AcyclicIffNoCircle(Toposort.GraphOf(keys, deps), keys, link);
    } else {
      var a :| 0 <= a < |keys| && !Toposort.Known(keys, Toposort.DepsOf(deps, keys[a]));
      var names := Toposort.DepsOf(deps, keys[a]);
      var k :| 0 <= k < |names| && names[k] !in keys;
      assert link(keys[a], names[k]);
    }
  }

  lemma LinkIsKnown(keys: seq<string>, deps: Toposort.Deps, link: Link, n: string, m: string)
    requires DependsBy(keys, deps, link) && Toposort.AllKnown(keys, deps) && link(n, m)
    ensures m in keys
  {
    var a :| 0 <= a < |keys| && keys[a] == n;
    assert Toposort.Known(keys, Toposort.DepsOf(deps, keys[a]));
  }

  lemma GraphPictures(keys: seq<string>, deps: Toposort.Deps, link: Link)
    requires DependsBy(keys, deps, link) && Toposort.AllKnown(keys, deps)
    ensures Pictures(Toposort.GraphOf(keys, deps), keys, link)
  {
    var g := Toposort.GraphOf(keys, deps);
    forall n, m | link(n, m) ensures m in keys {
      LinkIsKnown(keys, deps, link, n, m);
    }
    forall a, b | 0 <= a < |g| && 0 <= b < |g| ensures b in g[a] <==> link(keys[a], keys[b]) {
      EdgeIsLink(keys, deps, link, a, b);
    }
  }

  lemma EdgeIsLink(keys: seq<string>, deps: Toposort.Deps, link: Link, a: nat, b: nat)
    requires DependsBy(keys, deps, link) && Toposort.AllKnown(keys, deps) && a < |keys| && b < |keys|
    ensures b in Toposort.GraphOf(keys, deps)[a] <==> link(keys[a], keys[b])
  {
    var names := Toposort.DepsOf(deps, keys[a]);
    var row := Toposort.GraphOf(keys, deps)[a];
    assert Toposort.Known(keys, names) && row == Toposort.Indices(keys, names);
    if b in row {
      var k :| 0 <= k < |row| && row[k] == b;
      assert keys[b] == names[k];
    }
    if keys[b] in names {
      var k :| 0 <= k < |names| && names[k] == keys[b];
      assert keys[row[k]] == keys[b];
      assert row[k] == b;
    }
  }
}
