/** The checker's sort of types, interfaces and worlds (component/wit/check.go). */
module Toposort {
  import opened Results
  import opened DepGraphs

  /** DoesNotExist names a dependency that is no key; DependsOnItself one that
      leads to a cycle. */
  datatype SortError = DoesNotExist(name: string) | DependsOnItself(name: string)

  type Deps = map<string, seq<string>>

  /** A key with no entry has no dependencies. */
  function DepsOf(deps: Deps, key: string): seq<string> {
    if key in deps then deps[key] else []
  }

  ghost predicate AllKnown(keys: seq<string>, deps: Deps) {
    forall i :: 0 <= i < |keys| ==> Known(keys, DepsOf(deps, keys[i]))
  }

  ghost predicate Known(keys: seq<string>, names: seq<string>) {
    forall k :: 0 <= k < |names| ==> names[k] in keys
  }

  ghost function Indices(keys: seq<string>, names: seq<string>): (r: seq<nat>)
    requires Known(keys, names)
    ensures |r| == |names| && forall k :: 0 <= k < |r| ==> r[k] < |keys| && keys[r[k]] == names[k]
  {
    seq(|names|, k requires 0 <= k < |names| => PositionIn(keys, names[k]))
  }

  /** The keys' dependencies by position: key i depends on the keys at g[i]. */
  ghost function GraphOf(keys: seq<string>, deps: Deps): (g: Graph)
    requires AllKnown(keys, deps)
    ensures |g| == |keys| && Closed(g)
    ensures forall i :: 0 <= i < |keys| ==> g[i] == Indices(keys, DepsOf(deps, keys[i]))
  {
    seq(|keys|, i requires 0 <= i < |keys| => Indices(keys, DepsOf(deps, keys[i])))
  }

  ghost function Names(keys: seq<string>, o: seq<nat>): (r: seq<string>)
    requires forall k :: 0 <= k < |o| ==> o[k] < |keys|
    ensures |r| == |o| && forall k :: 0 <= k < |r| ==> r[k] == keys[o[k]]
  {
    seq(|o|, k requires 0 <= k < |o| => keys[o[k]])
  }

  // ----- counting what a key still waits for

  /** How many of the dependencies row are not in done. */
  function Waiting(row: seq<nat>, done: seq<nat>): nat {
    if row == [] then 0
    else (if row[0] in done then 0 else 1) + Waiting(row[1..], done)
  }

  lemma {:induction false} WaitingZero(row: seq<nat>, done: seq<nat>)
    ensures Waiting(row, done) == 0 <==> forall d :: d in row ==> d in done
  {
    if row != [] {
      WaitingZero(row[1..], done);
      assert row == [row[0]] + row[1..];
    }
  }

  /** Finishing one more node takes off as many as it occurs. */
  lemma {:induction false} WaitingDrops(row: seq<nat>, done: seq<nat>, next: nat)
    requires next !in done
    ensures Waiting(row, done + [next]) == Waiting(row, done) - multiset(row)[next]
  {
    if row != [] {
      WaitingDrops(row[1..], done, next);
      assert row == [row[0]] + row[1..];
    }
  }

  lemma {:induction false} WaitingNone(row: seq<nat>)
    ensures Waiting(row, []) == |row|
  {
    if row != [] {
      WaitingNone(row[1..]);
    }
  }

  // ----- the reverse lists

  ghost predicate ListsBack(rev: seq<seq<nat>>, rows: Graph, j: nat, i: nat) {
    j < |rev| && multiset(rev[j])[i] == if i < |rows| then multiset(rows[i])[j] else 0
  }

  /** rev[j] lists node i as often as rows[i] lists j. */
  ghost predicate Reversed(rev: seq<seq<nat>>, rows: Graph) {
    forall j: nat, i: nat :: j < |rev| ==> ListsBack(rev, rows, j, i)
  }

  lemma ReverseAppend(rev: seq<seq<nat>>, rows: Graph, row: seq<nat>, at: nat)
    requires Reversed(rev, rows + [row]) && at < |rev|
    ensures Reversed(rev[at := rev[at] + [|rows|]], rows + [row + [at]])
  {
    var rev', rows' := rev[at := rev[at] + [|rows|]], rows + [row + [at]];
    forall j: nat, i: nat | j < |rev'| ensures ListsBack(rev', rows', j, i) {
      assert ListsBack(rev, rows + [row], j, i);
    }
  }

  lemma ReverseRow(rev: seq<seq<nat>>, rows: Graph)
    requires Reversed(rev, rows)
    ensures Reversed(rev, rows + [[]])
  {
    forall j: nat, i: nat | j < |rev| ensures ListsBack(rev, rows + [[]], j, i) {
      assert ListsBack(rev, rows, j, i);
    }
  }

  // ----- the loop's state

  /** remaining[i] counts the dependencies of i that are not in order. */
  ghost predicate Counted(g: Graph, order: seq<nat>, remaining: seq<int>) {
    |remaining| == |g| && forall i :: 0 <= i < |g| ==> remaining[i] == Waiting(g[i], order)
  }

  ghost predicate ReadyAre(g: Graph, order: seq<nat>, ready: set<nat>) {
    forall i: nat :: i in ready <==> Available(g, order, i)
  }

  lemma StartReady(g: Graph, remaining: seq<int>, ready: set<nat>)
    requires |remaining| == |g| && forall i :: 0 <= i < |g| ==> remaining[i] == |g[i]|
    requires forall i: nat :: i in ready <==> i < |g| && remaining[i] == 0
    ensures Counted(g, [], remaining) && ReadyAre(g, [], ready)
  {
    forall i | 0 <= i < |g| ensures remaining[i] == Waiting(g[i], []) {
      WaitingNone(g[i]);
    }
    forall i: nat ensures i in ready <==> Available(g, [], i) {
      if i < |g| && g[i] != [] {
        assert g[i][0] in g[i];
      }
    }
  }

  /** Finishing next and counting down its dependents leaves the counts right. */
  lemma CountsAfter(g: Graph, order: seq<nat>, next: nat, rev: seq<seq<nat>>, before: seq<int>, after: seq<int>)
    requires Reversed(rev, g) && |rev| == |g| && Counted(g, order, before) && Available(g, order, next)
    requires |after| == |g| && forall i :: 0 <= i < |g| ==> after[i] == before[i] - multiset(rev[next])[i]
    ensures Counted(g, order + [next], after)
  {
    forall i | 0 <= i < |g| ensures after[i] == Waiting(g[i], order + [next]) {
      WaitingDrops(g[i], order, next);
      assert ListsBack(rev, g, next, i);
    }
  }

  /** What depends on an unfinished node is unfinished. */
  lemma NotDoneBefore(g: Graph, order: seq<nat>, next: nat, i: nat)
    requires PartialOrder(g, order) && i < |g| && next in g[i] && next !in order
    ensures i !in order
  {
    forall k | 0 <= k < |order| ensures order[k] != i {
      assert DepsIn(g, order[k], order[..k]);
    }
  }

  lemma ReadyAfter(g: Graph, order: seq<nat>, next: nat, rev: seq<seq<nat>>,
                   ready: set<nat>, after: seq<int>, ready': set<nat>)
    requires Reversed(rev, g) && |rev| == |g| && PartialOrder(g, order)
    requires ReadyAre(g, order, ready) && next in ready
    requires Counted(g, order + [next], after)
    requires forall i: nat :: i in ready' <==> (i in ready && i != next) || (i in rev[next] && i < |g| && after[i] == 0)
    ensures ReadyAre(g, order + [next], ready')
  {
    var order' := order + [next];
    assert Available(g, order, next);
    forall i: nat ensures i in ready' <==> Available(g, order', i) {
      if i < |g| {
        WaitingZero(g[i], order');
        assert ListsBack(rev, g, next, i);
        assert i in rev[next] <==> next in g[i];
        if i in ready && i != next {
          assert DepsIn(g, i, order);
        }
        if next in g[i] {
          NotDoneBefore(g, order, next, i);
        } else if Available(g, order', i) {
          assert DepsIn(g, i, order);
        }
      } else {
        assert ListsBack(rev, g, next, i);
      }
    }
  }

  lemma RemainingMeansLeft(g: Graph, order: seq<nat>, remaining: seq<int>)
    requires Closed(g) && PartialOrder(g, order) && Counted(g, order, remaining)
    requires forall i: nat :: !Available(g, order, i)
    ensures forall i :: 0 <= i < |g| ==> (remaining[i] > 0 <==> i !in order)
  {
    forall i | 0 <= i < |g| ensures remaining[i] > 0 <==> i !in order {
      WaitingZero(g[i], order);
      assert !Available(g, order, i);
      if i in order {
        var k :| 0 <= k < |order| && order[k] == i;
        assert DepsIn(g, order[k], order[..k]);
      }
    }
  }

  // ----- the algorithm

  /** Where each key is, the last place for one given twice. */
  method IndexKeys(keys: seq<string>) returns (index: map<string, nat>)
    ensures forall k :: k in index <==> k in keys
    ensures forall k :: k in index ==> index[k] < |keys| && keys[index[k]] == k
    ensures forall k, j :: k in index && index[k] < j < |keys| ==> keys[j] != k
  {
    index := map[];
    for i := 0 to |keys|
      invariant forall k :: k in index <==> k in keys[..i]
      invariant forall k :: k in index ==> index[k] < i && keys[index[k]] == k
      invariant forall k, j :: k in index && index[k] < j < i ==> keys[j] != k
    {
      index := index[keys[i] := i];
    }
  }

  /** The least of the ready keys. */
  method Least(ready: set<nat>, n: nat) returns (next: nat)
    requires forall i :: i in ready ==> i < n
    ensures ready != {} ==> next in ready
    ensures forall i :: i in ready ==> next <= i
  {
    next := n;
    var rest := ready;
    while rest != {}
      invariant rest <= ready && (next == n || next in ready)
      invariant rest < ready ==> next in ready
      invariant forall i :: i in ready && i !in rest ==> next <= i
      decreases rest
    {
      var i :| i in rest;
      if i < next { next := i; }
      rest := rest - {i};
    }
  }

  /** Counts down each dependent once per time it is listed; the ones that
      reach zero become ready. */
  method CountDown(dependents: seq<nat>, remaining: array<int>, ready: set<nat>) returns (ready': set<nat>)
    requires forall k :: 0 <= k < |dependents| ==> dependents[k] < remaining.Length
    requires forall i :: 0 <= i < remaining.Length ==> remaining[i] >= multiset(dependents)[i]
    modifies remaining
    ensures forall i :: 0 <= i < remaining.Length ==> remaining[i] == old(remaining[i]) - multiset(dependents)[i]
    ensures forall i: nat :: i in ready' <==> i in ready || (i in dependents && i < remaining.Length && remaining[i] == 0)
  {
    ready' := ready;
    assert dependents[..|dependents|] == dependents;
    for k := 0 to |dependents|
      invariant forall i :: 0 <= i < remaining.Length ==> remaining[i] == old(remaining[i]) - multiset(dependents[..k])[i]
      invariant forall i: nat :: i in ready' <==>
                                 i in ready || (i in dependents[..k] && i < remaining.Length && remaining[i] == 0)
    {
      var i := dependents[k];
      assert dependents == dependents[..k] + [i] + dependents[k + 1..];
      assert dependents[..k + 1] == dependents[..k] + [i];
      assert remaining[i] >= 1;
      remaining[i] := remaining[i] - 1;
      if remaining[i] == 0 {
        ready' := ready' + {i};
      }
    }
  }

  /** The dependency that is no key, met before any other such. */
  ghost predicate FirstUnknown(keys: seq<string>, deps: Deps, name: string) {
    exists i, k :: FirstUnknownAt(keys, deps, name, i, k)
  }

  ghost predicate FirstUnknownAt(keys: seq<string>, deps: Deps, name: string, i: nat, k: nat) {
    && i < |keys|
    && k < |DepsOf(deps, keys[i])|
    && DepsOf(deps, keys[i])[k] == name && name !in keys
    && Known(keys, DepsOf(deps, keys[i])[..k])
    && forall j :: 0 <= j < i ==> Known(keys, DepsOf(deps, keys[j]))
  }

  /** Lists key i under each of its
      dependencies, up to the first that is no key. */
  method ReverseInto(keys: seq<string>, index: map<string, nat>, names: seq<string>,
                     reverse: array<seq<nat>>, i: nat, ghost rows: Graph)
    returns (unknown: Option<string>, ghost row: seq<nat>)
    requires Distinct(keys) && reverse.Length == |keys| && |rows| == i
    requires forall k :: k in index <==> k in keys
    requires forall k :: k in index ==> index[k] == PositionIn(keys, k)
    requires Reversed(reverse[..], rows)
    modifies reverse
    ensures unknown.None? ==> Known(keys, names) && row == Indices(keys, names) && Reversed(reverse[..], rows + [row])
    ensures unknown.Some? ==>
              |row| < |names| && unknown.value == names[|row|] && unknown.value !in keys && Known(keys, names[..|row|])
  {
    row := [];
    ReverseRow(reverse[..], rows);
    for k := 0 to |names|
      invariant |row| == k
      invariant forall m :: 0 <= m < k ==> names[m] in keys && row[m] == PositionIn(keys, names[m])
      invariant Reversed(reverse[..], rows + [row])
    {
      if names[k] !in index {
        return Some(names[k]), row;
      }
      var j := index[names[k]];
      ReverseAppend(reverse[..], rows, row, j);
      ghost var rev := reverse[..];
      reverse[j] := reverse[j] + [i];
      assert reverse[..] == rev[j := rev[j] + [i]];
      row := row + [j];
    }
    assert row == Indices(keys, names);
    unknown := None;
  }

  /** The counts and the reverse lists of every key, up to the first
      dependency that is no key. */
  method ReverseAll(keys: seq<string>, deps: Deps, index: map<string, nat>)
    returns (unknown: Option<string>, remaining: array<int>, reverse: array<seq<nat>>)
    requires Distinct(keys)
    requires forall k :: k in index <==> k in keys
    requires forall k :: k in index ==> index[k] == PositionIn(keys, k)
    ensures fresh(remaining) && remaining.Length == reverse.Length == |keys|
    ensures unknown.None? <==> AllKnown(keys, deps)
    ensures unknown.Some? ==> FirstUnknown(keys, deps, unknown.value)
    ensures unknown.None? ==> Reversed(reverse[..], GraphOf(keys, deps))
    ensures unknown.None? ==> forall i :: 0 <= i < |keys| ==> remaining[i] == |GraphOf(keys, deps)[i]|
  {
    hide Reversed, RowOf, FirstUnknown, Known, AllKnown;
    var n := |keys|;
    remaining := new int[n];
    reverse := new seq<nat>[n](_ => []);
    ghost var rows: Graph := [];
    NothingListed(reverse[..]);
    for i := 0 to n
      invariant |rows| == i
      invariant forall j :: 0 <= j < i ==> RowOf(keys, deps, rows[j], j)
      invariant forall j :: 0 <= j < i ==> remaining[j] == |rows[j]|
      invariant Reversed(reverse[..], rows)
    {
      var names := DepsOf(deps, keys[i]);
      remaining[i] := |names|;
      ghost var row;
      unknown, row := ReverseInto(keys, index, names, reverse, i, rows);
      if unknown.Some? {
        UnknownHere(keys, deps, rows, unknown.value, |row|);
        return;
      }
      RowDone(keys, deps, row, i);
      rows := rows + [row];
    }
    RowsAreGraph(keys, deps, rows);
    unknown := None;
  }

  lemma NothingListed(rev: seq<seq<nat>>)
    requires forall j :: 0 <= j < |rev| ==> rev[j] == []
    ensures Reversed(rev, [])
  {
    forall j: nat, i: nat | j < |rev| ensures ListsBack(rev, [], j, i) {}
  }

  lemma RowDone(keys: seq<string>, deps: Deps, row: seq<nat>, i: nat)
    requires i < |keys| && Known(keys, DepsOf(deps, keys[i])) && row == Indices(keys, DepsOf(deps, keys[i]))
    ensures RowOf(keys, deps, row, i)
  {
  }

  ghost predicate RowOf(keys: seq<string>, deps: Deps, row: seq<nat>, i: nat) {
    i < |keys| && Known(keys, DepsOf(deps, keys[i])) && row == Indices(keys, DepsOf(deps, keys[i]))
  }

  lemma UnknownHere(keys: seq<string>, deps: Deps, rows: Graph, name: string, k: nat)
    requires |rows| < |keys| && forall j :: 0 <= j < |rows| ==> RowOf(keys, deps, rows[j], j)
    requires var names := DepsOf(deps, keys[|rows|]);
             k < |names| && names[k] == name && name !in keys && Known(keys, names[..k])
    ensures FirstUnknown(keys, deps, name) && !AllKnown(keys, deps)
  {
    var i := |rows|;
    forall j | 0 <= j < i ensures Known(keys, DepsOf(deps, keys[j])) {
      assert RowOf(keys, deps, rows[j], j);
    }
    assert FirstUnknownAt(keys, deps, name, i, k);
    assert !Known(keys, DepsOf(deps, keys[i]));
  }

  lemma RowsAreGraph(keys: seq<string>, deps: Deps, rows: Graph)
    requires |rows| == |keys| && forall j :: 0 <= j < |rows| ==> RowOf(keys, deps, rows[j], j)
    ensures AllKnown(keys, deps) && rows == GraphOf(keys, deps)
  {
    forall j | 0 <= j < |rows| ensures Known(keys, DepsOf(deps, keys[j])) {
      assert RowOf(keys, deps, rows[j], j);
    }
    forall j | 0 <= j < |rows| ensures rows[j] == GraphOf(keys, deps)[j] {
      assert RowOf(keys, deps, rows[j], j);
    }
  }

  /** The keys that wait for nothing. */
  method ReadyAtFirst(remaining: array<int>) returns (ready: set<nat>)
    ensures forall i: nat :: i in ready <==> i < remaining.Length && remaining[i] == 0
  {
    ready := {};
    for i := 0 to remaining.Length
      invariant forall j: nat :: j in ready <==> j < i && remaining[j] == 0
    {
      if remaining[i] == 0 {
        ready := ready + {i};
      }
    }
  }

  /** Takes the least ready key until none is ready. */
  method Drain(keys: seq<string>, remaining: array<int>, reverse: array<seq<nat>>, ghost g: Graph)
    returns (order: seq<string>, ghost o: seq<nat>)
    requires remaining.Length == reverse.Length == |keys| == |g|
    requires Reversed(reverse[..], g)
    requires forall i :: 0 <= i < |g| ==> remaining[i] == |g[i]|
    modifies remaining
    ensures PartialOrder(g, o) && Greedy(g, o) && Counted(g, o, remaining[..])
    ensures forall i: nat :: !Available(g, o, i)
    ensures order == Names(keys, o)
  {
    assert Greedy(g, []);
    hide Counted, Reversed, Greedy;
    var ready := ReadyAtFirst(remaining);
    order, o := [], [];
    StartReady(g, remaining[..], ready);
    while |ready| > 0
      invariant PartialOrder(g, o) && Greedy(g, o)
      invariant Counted(g, o, remaining[..])
      invariant ReadyAre(g, o, ready)
      invariant order == Names(keys, o)
      decreases |keys| - |o|
    {
      var next := Least(ready, |keys|);
      assert LeastAvailable(g, o, next);
      GreedyExtends(g, o, next);
      RoomFor(o, next, |keys|);
      ghost var before := remaining[..];
      Dependents(g, o, next, reverse[..], before);
      var ready' := CountDown(reverse[next], remaining, ready - {next});
      CountsAfter(g, o, next, reverse[..], before, remaining[..]);
      ReadyAfter(g, o, next, reverse[..], ready, remaining[..], ready');
      ready := ready';
      NamesAppend(keys, o, next);
      order, o := order + [keys[next]], o + [next];
    }
  }

  lemma NamesAppend(keys: seq<string>, o: seq<nat>, next: nat)
    requires next < |keys| && forall k :: 0 <= k < |o| ==> o[k] < |keys|
    ensures Names(keys, o + [next]) == Names(keys, o) + [keys[next]]
  {
  }

  lemma RoomFor(o: seq<nat>, next: nat, n: nat)
    requires Distinct(o + [next]) && forall k :: 0 <= k < |o + [next]| ==> (o + [next])[k] < n
    ensures |o| < n
  {
    AtMostBelow(o + [next], n);
  }

  /** The first key left over. */
  method FirstLeft(remaining: array<int>, ghost some: nat) returns (k: nat)
    requires some < remaining.Length && remaining[some] > 0
    ensures k < remaining.Length && remaining[k] > 0
    ensures forall j :: 0 <= j < k ==> remaining[j] <= 0
  {
    k := 0;
    while remaining[k] <= 0
      invariant k <= some && forall j :: 0 <= j < k ==> remaining[j] <= 0
      decreases some - k
    {
      k := k + 1;
    }
  }

  /** The first of a key's dependencies that is left over. */
  method FirstLeftDep(names: seq<string>, index: map<string, nat>, remaining: array<int>, ghost some: nat)
    returns (m: nat)
    requires forall k :: 0 <= k < |names| ==> names[k] in index && index[names[k]] < remaining.Length
    requires some < |names| && remaining[index[names[some]]] > 0
    ensures m < |names| && remaining[index[names[m]]] > 0
    ensures forall j :: 0 <= j < m ==> remaining[index[names[j]]] <= 0
  {
    m := 0;
    while remaining[index[names[m]]] <= 0
      invariant m <= some && forall j :: 0 <= j < m ==> remaining[index[names[j]]] <= 0
      decreases some - m
    {
      m := m + 1;
    }
  }

  /** The map places each name where the row says. */
  ghost predicate RowVia(index: map<string, nat>, names: seq<string>, row: seq<nat>) {
    |row| == |names| && forall m :: 0 <= m < |names| ==> names[m] in index && index[names[m]] == row[m]
  }

  /** The dependency a cycle is reported by: the first key left over has a
      dependency left over too. */
  method CycleName(keys: seq<string>, deps: Deps, index: map<string, nat>, remaining: array<int>,
                   ghost g: Graph, ghost o: seq<nat>)
    returns (name: string)
    requires |g| == |keys| == remaining.Length && Closed(g)
    requires forall k :: 0 <= k < |keys| ==> RowVia(index, DepsOf(deps, keys[k]), g[k])
    requires PartialOrder(g, o) && Counted(g, o, remaining[..]) && |o| != |g|
    requires forall i: nat :: !Available(g, o, i)
    ensures name in index && ReachesCycle(g, index[name])
  {
    ghost var v := SomeLeft(g, o, remaining[..]);
    var k := FirstLeft(remaining, v);
    ghost var at := LeftDep(g, o, remaining[..], k);
    var names := DepsOf(deps, keys[k]);
    assert RowVia(index, names, g[k]);
    var m := FirstLeftDep(names, index, remaining, at);
    name := names[m];
    LeftReachesCycle(g, o, remaining[..], g[k][m]);
  }

  lemma SomeLeft(g: Graph, o: seq<nat>, remaining: seq<int>) returns (v: nat)
    requires Closed(g) && PartialOrder(g, o) && Counted(g, o, remaining) && |o| != |g|
    requires forall i: nat :: !Available(g, o, i)
    ensures v < |g| && remaining[v] > 0
  {
    RemainingMeansLeft(g, o, remaining);
    v := Left(o, |g|);
  }

  /** A key left over waits on another. */
  lemma LeftDep(g: Graph, o: seq<nat>, remaining: seq<int>, k: nat) returns (at: nat)
    requires Closed(g) && PartialOrder(g, o) && Counted(g, o, remaining)
    requires forall i: nat :: !Available(g, o, i)
    requires k < |g| && remaining[k] > 0
    ensures at < |g[k]| && remaining[g[k][at]] > 0
  {
    RemainingMeansLeft(g, o, remaining);
    assert !Available(g, o, k);
    var d :| d in g[k] && d !in o;
    at :| 0 <= at < |g[k]| && g[k][at] == d;
  }

  lemma LeftReachesCycle(g: Graph, o: seq<nat>, remaining: seq<int>, k: nat)
    requires Closed(g) && PartialOrder(g, o) && Counted(g, o, remaining)
    requires forall i: nat :: !Available(g, o, i)
    requires k < |g| && remaining[k] > 0
    ensures ReachesCycle(g, k)
  {
    RemainingMeansLeft(g, o, remaining);
    LeftoverIsStuck(g, o, Missing(g, o));
    StuckReachesCycle(g, Missing(g, o), k);
  }

  /** Each key after its dependencies, the earliest key that can come next each
      time; an error for a dependency that is no key, or for a cycle. */
  method Sort(keys: seq<string>, deps: Deps) returns (r: Result<seq<string>, SortError>)
    requires Distinct(keys)
    ensures r.Ok? <==> AllKnown(keys, deps) && Acyclic(GraphOf(keys, deps))
    ensures r.Ok? ==> exists o :: LexLeast(GraphOf(keys, deps), o) && r.value == Names(keys, o)
    ensures r.Err? && r.error.DoesNotExist? <==> !AllKnown(keys, deps)
    ensures r.Err? && r.error.DoesNotExist? ==> FirstUnknown(keys, deps, r.error.name)
    ensures r.Err? && r.error.DependsOnItself? ==>
              r.error.name in keys && ReachesCycle(GraphOf(keys, deps), PositionIn(keys, r.error.name))
  {
    var index := IndexKeys(keys);
    var unknown, remaining, reverse := ReverseAll(keys, deps, index);
    if unknown.Some? {
      return Err(DoesNotExist(unknown.value));
    }
    ghost var g := GraphOf(keys, deps);
    var order, o := Drain(keys, remaining, reverse, g);
    if |order| == |keys| {
      GreedyIsLexLeast(g, o);
      OrderedIsAcyclic(g, o);
      return Ok(order);
    }
    forall k | 0 <= k < |keys| ensures RowVia(index, DepsOf(deps, keys[k]), g[k]) {
      IndicesByMap(keys, DepsOf(deps, keys[k]), index);
    }
    var name := CycleName(keys, deps, index, remaining, g, o);
    return Err(DependsOnItself(name));
  }

  lemma IndicesByMap(keys: seq<string>, names: seq<string>, index: map<string, nat>)
    requires Known(keys, names)
    requires forall k :: k in index <==> k in keys
    requires forall k :: k in index ==> index[k] == PositionIn(keys, k)
    ensures RowVia(index, names, Indices(keys, names))
  {
  }

  lemma Left(o: seq<nat>, n: nat) returns (v: nat)
    requires Distinct(o) && |o| != n && forall k :: 0 <= k < |o| ==> o[k] < n
    ensures v < n && v !in o
  {
    AtMostBelow(o, n);
    v := Absent(o, n);
  }

  /** The dependents of next are nodes, each waiting at least as often as it is listed. */
  lemma Dependents(g: Graph, order: seq<nat>, next: nat, rev: seq<seq<nat>>, remaining: seq<int>)
    requires Reversed(rev, g) && |rev| == |g| && Counted(g, order, remaining) && Available(g, order, next)
    ensures forall k :: 0 <= k < |rev[next]| ==> rev[next][k] < |g|
    ensures forall i :: 0 <= i < |g| ==> remaining[i] >= multiset(rev[next])[i]
  {
    forall k | 0 <= k < |rev[next]| ensures rev[next][k] < |g| {
      assert ListsBack(rev, g, next, rev[next][k]);
    }
    forall i | 0 <= i < |g| ensures remaining[i] >= multiset(rev[next])[i] {
      WaitingDrops(g[i], order, next);
      assert ListsBack(rev, g, next, i);
    }
  }
}
