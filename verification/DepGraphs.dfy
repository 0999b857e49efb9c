/** Finite dependency graphs, shared by every sort of the WIT resolver.

Node i of a graph g depends on the nodes g[i] lists, in that order; a list may
name a node twice, as a type may mention another twice.
*/
module DepGraphs {

  type Graph = seq<seq<nat>>

  /** Every dependency is a node of the graph. */
  ghost predicate Closed(g: Graph) {
    forall i, k :: 0 <= i < |g| && 0 <= k < |g[i]| ==> g[i][k] < |g|
  }

  ghost predicate Step(g: Graph, p: seq<nat>, k: nat) {
    k + 1 < |p| && p[k] < |g| && p[k + 1] in g[p[k]]
  }

  /** p walks from each node to one of its dependencies. */
  ghost predicate Path(g: Graph, p: seq<nat>) {
    && |p| > 0
    && (forall k :: 0 <= k < |p| ==> p[k] < |g|)
    && (forall k :: 0 <= k < |p| - 1 ==> Step(g, p, k))
  }

  ghost predicate Cycle(g: Graph, p: seq<nat>) {
    Path(g, p) && |p| >= 2 && p[0] == p[|p| - 1]
  }

  ghost predicate Acyclic(g: Graph) {
    forall p :: !Cycle(g, p)
  }

  /** p leads from a to b, possibly in no steps. */
  ghost predicate PathFromTo(g: Graph, p: seq<nat>, a: nat, b: nat) {
    Path(g, p) && p[0] == a && p[|p| - 1] == b
  }

  ghost predicate Reaches(g: Graph, a: nat, b: nat) {
    exists p :: PathFromTo(g, p, a, b)
  }

  /** Node a leads to some cycle. */
  ghost predicate ReachesCycle(g: Graph, a: nat) {
    exists c :: Cycle(g, c) && Reaches(g, a, c[0])
  }

  ghost predicate Distinct<T>(s: seq<T>) {
    forall i, j :: 0 <= i < j < |s| ==> s[i] != s[j]
  }

  ghost predicate DepsIn(g: Graph, i: nat, done: seq<nat>)
    requires i < |g|
  {
    forall d :: d in g[i] ==> d in done
  }

  /** Some nodes of g, each once and after all it depends on. */
  ghost predicate PartialOrder(g: Graph, o: seq<nat>) {
    && Distinct(o)
    && (forall k :: 0 <= k < |o| ==> o[k] < |g|)
    && (forall k :: 0 <= k < |o| ==> DepsIn(g, o[k], o[..k]))
  }

  /** Every node of g, each once and after all it depends on. */
  ghost predicate TopologicalOrder(g: Graph, o: seq<nat>) {
    PartialOrder(g, o) && |o| == |g|
  }

  /** Node i may come next after done: it is not there yet, all it depends on is. */
  ghost predicate Available(g: Graph, done: seq<nat>, i: nat) {
    i < |g| && i !in done && DepsIn(g, i, done)
  }

  ghost predicate LeastAvailable(g: Graph, done: seq<nat>, i: nat) {
    Available(g, done, i) && forall j :: 0 <= j < i ==> !Available(g, done, j)
  }

  /** Each node of o was the least one that could come next. */
  ghost predicate Greedy(g: Graph, o: seq<nat>) {
    forall t :: 0 <= t < |o| ==> LeastAvailable(g, o[..t], o[t])
  }

  ghost predicate LexLess(a: seq<nat>, b: seq<nat>) {
    exists t :: FirstDifference(a, b, t)
  }

  ghost predicate FirstDifference(a: seq<nat>, b: seq<nat>, t: nat) {
    t < |a| && t < |b| && a[..t] == b[..t] && a[t] < b[t]
  }

  ghost predicate LexLeast(g: Graph, o: seq<nat>) {
    TopologicalOrder(g, o) && forall o' :: TopologicalOrder(g, o') ==> o == o' || LexLess(o, o')
  }

  // ----- paths

  lemma ReachesStep(g: Graph, a: nat, b: nat, c: nat)
    requires a < |g| && b in g[a] && Reaches(g, b, c)
    ensures Reaches(g, a, c)
  {
    var p :| PathFromTo(g, p, b, c);
    var q := [a] + p;
    forall k | 0 <= k < |q| - 1 ensures Step(g, q, k) {
      if k > 0 { assert Step(g, p, k - 1); }
    }
    assert PathFromTo(g, q, a, c);
  }

  lemma ReachesSelf(g: Graph, a: nat)
    requires a < |g|
    ensures Reaches(g, a, a)
  {
    assert PathFromTo(g, [a], a, a);
  }

  lemma ReachesTransitive(g: Graph, a: nat, b: nat, c: nat)
    requires Reaches(g, a, b) && Reaches(g, b, c)
    ensures Reaches(g, a, c)
  {
    var p :| PathFromTo(g, p, a, b);
    var q :| PathFromTo(g, q, b, c);
    var r := p + q[1..];
    forall k | 0 <= k < |r| - 1
      ensures Step(g, r, k)
    {
      if k >= |p| - 1 {
        assert Step(g, q, k - (|p| - 1));
      } else {
        assert Step(g, p, k);
      }
    }
    assert PathFromTo(g, r, a, c);
  }

  lemma SubPath(g: Graph, p: seq<nat>, i: nat, j: nat)
    requires Path(g, p) && i < j <= |p|
    ensures Path(g, p[i..j])
  {
    var q := p[i..j];
    forall k | 0 <= k < |q| - 1 ensures Step(g, q, k) {
      assert Step(g, p, i + k);
    }
  }

  // ----- orders and cycles

  /** A topological order leaves no room for a cycle. */
  lemma OrderedIsAcyclic(g: Graph, o: seq<nat>)
    requires TopologicalOrder(g, o)
    ensures Acyclic(g)
  {
    forall p ensures !Cycle(g, p) {
      if Cycle(g, p) {
        CoversAll(o, |g|);
        NoPathBack(g, o, p, |p| - 1);
      }
    }
  }

  ghost function PositionIn<T>(o: seq<T>, x: T): (k: nat)
    requires x in o
    ensures k < |o| && o[k] == x
  {
    var k :| 0 <= k < |o| && o[k] == x; k
  }

  lemma {:induction false} NoPathBack(g: Graph, o: seq<nat>, p: seq<nat>, k: nat)
    requires PartialOrder(g, o) && Path(g, p) && k < |p|
    requires forall x :: 0 <= x < |g| ==> x in o
    ensures k > 0 ==> PositionIn(o, p[k]) < PositionIn(o, p[0])
  {
    if k > 0 {
      NoPathBack(g, o, p, k - 1);
      var at := PositionIn(o, p[k - 1]);
      assert DepsIn(g, o[at], o[..at]);
      assert Step(g, p, k - 1);
      assert p[k] in o[..at];
      var j :| 0 <= j < at && o[j] == p[k];
      assert PositionIn(o, p[k]) == j;
    }
  }

  /** n distinct numbers below n are all the numbers below n. */
  lemma CoversAll(o: seq<nat>, n: nat)
    requires Distinct(o) && |o| == n && forall k :: 0 <= k < |o| ==> o[k] < n
    ensures forall x :: 0 <= x < n ==> x in o
  {
    forall x | 0 <= x < n ensures x in o {
      if x !in o {
        AtMostBelow(o + [x], n);
      }
    }
  }

  ghost function Members<T>(s: seq<T>): set<T> {
    set x | x in s
  }

  lemma {:induction false} MembersCount<T>(s: seq<T>)
    requires Distinct(s)
    ensures |Members(s)| == |s|
  {
    if s != [] {
      var last := |s| - 1;
      MembersCount(s[..last]);
      assert s == s[..last] + [s[last]];
      assert Members(s) == Members(s[..last]) + {s[last]};
    }
  }

  ghost function Numbers(n: nat): (r: set<nat>)
    ensures |r| == n && forall x: nat :: x in r <==> x < n
  {
    if n == 0 then {} else Numbers(n - 1) + {n - 1}
  }

  /** No more than n distinct numbers fit below n. */
  lemma AtMostBelow(s: seq<nat>, n: nat)
    requires Distinct(s) && forall k :: 0 <= k < |s| ==> s[k] < n
    ensures |s| <= n
  {
    MembersCount(s);
    assert Numbers(n) == Members(s) + (Numbers(n) - Members(s));
  }

  /** A long enough sequence of small numbers repeats one. */
  lemma Repeats(s: seq<nat>, n: nat) returns (i: nat, j: nat)
    requires |s| > n && forall k :: 0 <= k < |s| ==> s[k] < n
    ensures i < j < |s| && s[i] == s[j]
  {
    if Distinct(s) {
      AtMostBelow(s, n);
    }
    i, j :| 0 <= i < j < |s| && s[i] == s[j];
  }

  ghost predicate WaitsOn(g: Graph, rest: set<nat>, i: nat) {
    i < |g| && exists d :: d in g[i] && d in rest
  }

  /** Every node of rest has a dependency in rest. */
  ghost predicate Stuck(g: Graph, rest: set<nat>) {
    forall i {:trigger WaitsOn(g, rest, i)} :: i in rest ==> WaitsOn(g, rest, i)
  }

  lemma {:induction false} StuckWalk(g: Graph, rest: set<nat>, v: nat, n: nat) returns (p: seq<nat>)
    requires Stuck(g, rest) && v in rest
    ensures Path(g, p) && |p| == n + 1 && p[0] == v
    ensures forall k :: 0 <= k < |p| ==> p[k] in rest
  {
    assert WaitsOn(g, rest, v);
    if n == 0 {
      p := [v];
    } else {
      var q := StuckWalk(g, rest, v, n - 1);
      assert WaitsOn(g, rest, q[n - 1]);
      var d :| d in g[q[n - 1]] && d in rest;
      assert WaitsOn(g, rest, d);
      p := q + [d];
      forall k | 0 <= k < |p| - 1 ensures Step(g, p, k) {
        if k < n - 1 { assert Step(g, q, k); }
      }
    }
  }

  /** Nodes that all wait on one another wait on a cycle. */
  lemma StuckReachesCycle(g: Graph, rest: set<nat>, v: nat)
    requires Stuck(g, rest) && v in rest
    ensures ReachesCycle(g, v)
  {
    var p := StuckWalk(g, rest, v, |g|);
    var i, j := Repeats(p, |g|);
    SubPath(g, p, i, j + 1);
    SubPath(g, p, 0, i + 1);
    assert Cycle(g, p[i..j + 1]);
    assert PathFromTo(g, p[0..i + 1], v, p[i]);
  }

  /** What cannot be extended to a whole order waits on itself. */
  lemma LeftoverIsStuck(g: Graph, o: seq<nat>, rest: set<nat>)
    requires PartialOrder(g, o) && Closed(g)
    requires forall i :: 0 <= i < |g| ==> !Available(g, o, i)
    requires forall i: nat :: i in rest <==> i < |g| && i !in o
    ensures Stuck(g, rest)
  {
    forall i | i in rest ensures WaitsOn(g, rest, i) {
      assert !Available(g, o, i);
      var d :| d in g[i] && d !in o;
      var k :| 0 <= k < |g[i]| && g[i][k] == d;
      assert g[i][k] < |g|;
    }
  }

  ghost function Missing(g: Graph, o: seq<nat>): (rest: set<nat>)
    ensures forall i: nat :: i in rest <==> i < |g| && i !in o
  {
    set i: nat | 0 <= i < |g| && i !in o
  }

  lemma {:induction false} ExtendGreedily(g: Graph, o: seq<nat>) returns (full: seq<nat>)
    requires Closed(g) && Acyclic(g) && PartialOrder(g, o) && Greedy(g, o)
    ensures TopologicalOrder(g, full) && Greedy(g, full)
    decreases |g| - |o|
  {
    AtMostBelow(o, |g|);
    if |o| == |g| {
      full := o;
    } else {
      var i := SomeAvailable(g, o);
      var least := LeastOf(g, o, i);
      var o' := o + [least];
      GreedyExtends(g, o, least);
      full := ExtendGreedily(g, o');
    }
  }

  lemma GreedyExtends(g: Graph, o: seq<nat>, i: nat)
    requires PartialOrder(g, o) && Greedy(g, o) && LeastAvailable(g, o, i)
    ensures PartialOrder(g, o + [i]) && Greedy(g, o + [i])
  {
    var o' := o + [i];
    forall k | 0 <= k < |o'|
      ensures LeastAvailable(g, o'[..k], o'[k]) && DepsIn(g, o'[k], o'[..k])
    {
      assert o'[..k] == o[..k];
      if k == |o| { assert o[..k] == o; }
    }
  }

  lemma SomeAvailable(g: Graph, o: seq<nat>) returns (i: nat)
    requires Closed(g) && Acyclic(g) && PartialOrder(g, o) && |o| < |g|
    ensures Available(g, o, i)
  {
    if forall i :: 0 <= i < |g| ==> !Available(g, o, i) {
      var rest := Missing(g, o);
      LeftoverIsStuck(g, o, rest);
      var v := Absent(o, |g|);
      StuckReachesCycle(g, rest, v);
      assert false;
    }
    i :| 0 <= i < |g| && Available(g, o, i);
  }

  /** Fewer than n numbers leave out one below n. */
  lemma Absent(o: seq<nat>, n: nat) returns (v: nat)
    requires |o| < n
    ensures v < n && v !in o
  {
    if forall x: nat :: x < n ==> x in o {
      var positions := seq(n, x requires 0 <= x < n => PositionIn(o, x));
      assert Distinct(positions) by {
        forall i, j | 0 <= i < j < n ensures positions[i] != positions[j] {
          assert o[positions[i]] == i && o[positions[j]] == j;
        }
      }
      AtMostBelow(positions, |o|);
    }
    v :| v < n && v !in o;
  }

  lemma {:induction false} LeastOf(g: Graph, o: seq<nat>, i: nat) returns (least: nat)
    requires Available(g, o, i)
    ensures LeastAvailable(g, o, least) && least <= i
    decreases i
  {
    if j :| 0 <= j < i && Available(g, o, j) {
      least := LeastOf(g, o, j);
    } else {
      least := i;
    }
  }

  /** Taking the least available node each time gives the least order of all. */
  lemma GreedyIsLexLeast(g: Graph, o: seq<nat>)
    requires TopologicalOrder(g, o) && Greedy(g, o)
    ensures LexLeast(g, o)
  {
    forall o' | TopologicalOrder(g, o') ensures o == o' || LexLess(o, o') {
      if o != o' {
        var t := Differ(o, o');
        assert DepsIn(g, o'[t], o'[..t]);
        assert Available(g, o[..t], o'[t]);
        assert LeastAvailable(g, o[..t], o[t]);
        assert FirstDifference(o, o', t);
      }
    }
  }

  lemma Differ(a: seq<nat>, b: seq<nat>) returns (t: nat)
    requires |a| == |b| && a != b
    ensures t < |a| && a[..t] == b[..t] && a[t] != b[t]
  {
    t := 0;
    while t < |a| && a[t] == b[t]
      invariant t <= |a| && a[..t] == b[..t]
    {
      t := t + 1;
    }
  }

  // ----- ranks

  /** Every step from a node to a dependency lowers its rank. */
  ghost predicate Ranked(g: Graph, rank: seq<nat>) {
    |rank| == |g| && forall i, d :: 0 <= i < |g| && d in g[i] ==> d < |g| && rank[d] < rank[i]
  }

  lemma AcyclicHasRank(g: Graph)
    requires Closed(g) && Acyclic(g)
    ensures exists rank :: Ranked(g, rank)
  {
    var o := ExtendGreedily(g, []);
    CoversAll(o, |g|);
    var rank := seq(|g|, i requires 0 <= i < |g| => PositionIn(o, i));
    forall i, d | 0 <= i < |g| && d in g[i]
      ensures d < |g| && rank[d] < rank[i]
    {
      assert DepsIn(g, o[rank[i]], o[..rank[i]]);
      var j :| 0 <= j < rank[i] && o[j] == d;
      assert PositionIn(o, d) == j;
    }
    assert Ranked(g, rank);
  }

  /** A rank of an acyclic graph, the measure its recursions go down by. */
  ghost function RankOf(g: Graph): (rank: seq<nat>)
    requires Closed(g) && Acyclic(g)
    ensures Ranked(g, rank)
  {
    AcyclicHasRank(g);
    var rank :| Ranked(g, rank); rank
  }
}
