/** What elaboration guarantees: when it succeeds, what it adds and where, and
that doing it again changes nothing.
*/
module ElaborationLaws {
  import opened Results
  import opened DepGraphs
  import opened Elaboration

  // ----- lists of items

  lemma DeclaredAppend(items: seq<Item>, x: Item)
    ensures Declared(items + [x]) == Declared(items) + (if x.IfaceItem? then {x.iface} else {})
  {
    var all := items + [x];
    forall i ensures i in Declared(all) <==> i in Declared(items) + (if x.IfaceItem? then {x.iface} else {}) {
      if i in Declared(items) {
        var k :| 0 <= k < |items| && items[k].IfaceItem? && items[k].iface == i;
        assert all[k] == items[k];
      }
      if x.IfaceItem? && x.iface == i {
        assert all[|items|] == x;
      }
    }
  }

  lemma DeclaredGrows(items: seq<Item>, more: seq<Item>)
    requires items <= more
    ensures Declared(items) <= Declared(more)
  {
    forall i | i in Declared(items) ensures i in Declared(more) {
      var k :| 0 <= k < |items| && items[k].IfaceItem? && items[k].iface == i;
      assert more[k] == items[k];
    }
  }

  /** Interface i may follow earlier: it is not there, all it depends on is. */
  ghost predicate MayFollow(u: Interfaces, earlier: set<nat>, i: nat) {
    && i < |u.deps| && u.deps[i].Some? && i !in earlier
    && forall d :: d in u.deps[i].value ==> d in earlier
  }

  ghost predicate PlacedAt(u: Interfaces, items: seq<Item>, k: nat)
    requires k < |items|
  {
    items[k].IfaceItem? ==> MayFollow(u, Declared(items[..k]), items[k].iface)
  }

  /** No interface twice, and each after all it depends on. */
  ghost predicate WellPlaced(u: Interfaces, items: seq<Item>) {
    forall k :: 0 <= k < |items| ==> PlacedAt(u, items, k)
  }

  lemma WellPlacedAppend(u: Interfaces, items: seq<Item>, x: Item)
    requires WellPlaced(u, items) && (x.IfaceItem? ==> MayFollow(u, Declared(items), x.iface))
    ensures WellPlaced(u, items + [x])
  {
    var all := items + [x];
    forall k | 0 <= k < |all| ensures PlacedAt(u, all, k) {
      if k < |items| {
        assert all[..k] == items[..k] && PlacedAt(u, items, k);
      } else {
        assert all[..k] == items;
      }
    }
  }

  /** A placed interface has its dependencies listed, and all of them in the list. */
  lemma PlacedDeps(u: Interfaces, items: seq<Item>, i: nat)
    requires WellPlaced(u, items) && i in Declared(items)
    ensures i < |u.deps| && u.deps[i].Some? && forall d :: d in u.deps[i].value ==> d in Declared(items)
  {
    var k :| 0 <= k < |items| && items[k].IfaceItem? && items[k].iface == i;
    assert PlacedAt(u, items, k);
    DeclaredGrows(items[..k], items);
  }

  lemma PlacedClosed(u: Interfaces, items: seq<Item>, a: nat, b: nat)
    requires WellPlaced(u, items) && a in Declared(items) && Reaches(GraphOf(u), a, b)
    ensures b in Declared(items)
  {
    var p :| PathFromTo(GraphOf(u), p, a, b);
    PathStays(u, items, p, |p| - 1);
  }

  lemma {:induction false} PathStays(u: Interfaces, items: seq<Item>, p: seq<nat>, k: nat)
    requires WellPlaced(u, items) && Path(GraphOf(u), p) && k < |p| && p[0] in Declared(items)
    ensures p[k] in Declared(items)
  {
    if k > 0 {
      PathStays(u, items, p, k - 1);
      PlacedDeps(u, items, p[k - 1]);
      assert Step(GraphOf(u), p, k - 1);
    }
  }

  // ----- what a pass adds

  ghost predicate ReachedFrom(u: Interfaces, from: set<nat>, x: nat) {
    exists s :: s in from && Reaches(GraphOf(u), s, x)
  }

  ghost predicate NewItem(u: Interfaces, labels: Labels, item: Item, from: set<nat>) {
    && item.IfaceItem? && item.iface < |u.names|
    && item == ItemFor(u, labels, item.iface)
    && ReachedFrom(u, from, item.iface)
  }

  /** after is before with interfaces reached from some of from added. */
  ghost predicate Grown(u: Interfaces, labels: Labels, before: seq<Item>, after: seq<Item>, from: set<nat>) {
    before <= after && forall k :: |before| <= k < |after| ==> NewItem(u, labels, after[k], from)
  }

  ghost predicate AllReached(u: Interfaces, from: set<nat>, to: set<nat>) {
    forall s :: s in to ==> ReachedFrom(u, from, s)
  }

  lemma ReachedThrough(u: Interfaces, from: set<nat>, mid: set<nat>, x: nat)
    requires AllReached(u, from, mid) && ReachedFrom(u, mid, x)
    ensures ReachedFrom(u, from, x)
  {
    var s :| s in mid && Reaches(GraphOf(u), s, x);
    var r :| r in from && Reaches(GraphOf(u), r, s);
    ReachesTransitive(GraphOf(u), r, s, x);
  }

  lemma GrownFurther(u: Interfaces, labels: Labels, a: seq<Item>, b: seq<Item>, c: seq<Item>,
                     from: set<nat>, ab: set<nat>, bc: set<nat>)
    requires Grown(u, labels, a, b, ab) && Grown(u, labels, b, c, bc)
    requires AllReached(u, from, ab) && AllReached(u, from, bc)
    ensures Grown(u, labels, a, c, from)
  {
    forall k | |a| <= k < |c| ensures NewItem(u, labels, c[k], from) {
      if k < |b| {
        assert c[k] == b[k] && NewItem(u, labels, b[k], ab);
        ReachedThrough(u, from, ab, c[k].iface);
      } else {
        assert NewItem(u, labels, c[k], bc);
        ReachedThrough(u, from, bc, c[k].iface);
      }
    }
  }

  lemma NothingGrown(u: Interfaces, labels: Labels, items: seq<Item>, from: set<nat>)
    ensures Grown(u, labels, items, items, from)
  {
  }

  lemma OneGrown(u: Interfaces, labels: Labels, items: seq<Item>, i: nat)
    requires i < |u.names| == |u.deps|
    ensures Grown(u, labels, items, items + [ItemFor(u, labels, i)], {i})
  {
    ReachesSelf(GraphOf(u), i);
    assert ReachedFrom(u, {i}, i);
  }

  lemma GrownDeclares(u: Interfaces, labels: Labels, before: seq<Item>, after: seq<Item>, from: set<nat>)
    requires Grown(u, labels, before, after, from)
    ensures Declared(before) <= Declared(after)
  {
    DeclaredGrows(before, after);
  }

  lemma SetSplit(ds: seq<nat>)
    requires ds != []
    ensures Set(ds) == {ds[0]} + Set(ds[1..])
  {
    assert ds == [ds[0]] + ds[1..];
  }

  lemma PartReached(u: Interfaces, from: set<nat>, part: set<nat>)
    requires part <= from && forall s :: s in from ==> s < |u.deps|
    ensures AllReached(u, from, part)
  {
    ReachedSelf(u, from);
  }

  lemma ReachedSelf(u: Interfaces, from: set<nat>)
    requires forall s :: s in from ==> s < |u.deps|
    ensures AllReached(u, from, from)
  {
    forall s | s in from ensures ReachedFrom(u, from, s) {
      ReachesSelf(GraphOf(u), s);
    }
  }

  lemma DepsReached(u: Interfaces, i: nat)
    requires Valid(u) && i < |u.deps| && u.deps[i].Some?
    ensures AllReached(u, {i}, Set(u.deps[i].value))
  {
    var g, ds := GraphOf(u), u.deps[i].value;
    DepsRankLower(u, i);
    forall d | d in Set(ds) ensures ReachedFrom(u, {i}, d) {
      assert d in g[i];
      ReachesSelf(g, d);
      ReachesStep(g, i, d, d);
    }
  }

  ghost function Set(ds: seq<nat>): set<nat> {
    set d | d in ds
  }

  /** Some interface reached from from has dependencies that cannot be listed. */
  ghost predicate Unreadable(u: Interfaces, from: set<nat>) {
    exists x: nat :: ReachedFrom(u, from, x) && x < |u.deps| && u.deps[x].None?
  }

  lemma UnreadableThrough(u: Interfaces, from: set<nat>, mid: set<nat>)
    requires AllReached(u, from, mid) && Unreadable(u, mid)
    ensures Unreadable(u, from)
  {
    var x: nat :| ReachedFrom(u, mid, x) && x < |u.deps| && u.deps[x].None?;
    ReachedThrough(u, from, mid, x);
  }

  // ----- the import pass

  /** pending are the interfaces whose dependencies are still being imported. */
  ghost predicate ImportsValid(u: Interfaces, st: Lists, pending: set<nat>) {
    && WellPlaced(u, st.imports)
    && st.imported == Declared(st.imports) + pending
    && pending !! Declared(st.imports)
  }

  ghost predicate Above(u: Interfaces, pending: set<nat>, h: nat)
    requires Valid(u)
  {
    forall p :: p in pending ==> p < |u.deps| && Rank(u, p) >= h
  }

  ghost predicate SameExports(a: Lists, b: Lists) {
    a.exports == b.exports && a.exported == b.exported && a.required == b.required
  }

  lemma {:induction false} ImportPlaces(u: Interfaces, labels: Labels, st: Lists, i: nat, pending: set<nat>)
    requires Valid(u) && i < |u.names| && ImportsValid(u, st, pending) && Above(u, pending, Rank(u, i) + 1)
    ensures match AddImport(u, labels, st, i)
            case Ok(st') =>
              && ImportsValid(u, st', pending) && i in Declared(st'.imports)
              && Grown(u, labels, st.imports, st'.imports, {i}) && SameExports(st, st')
            case Err(e) => e == Excluded && Unreadable(u, {i})
    decreases Rank(u, i), 1
  {
    hide Acyclic, Closed, WellPlaced, Grown, AllReached, ReachedFrom, MayFollow, Declared;
    ReachedSelf(u, {i});
    if i in st.imported {
      NothingGrown(u, labels, st.imports, {i});
    } else if u.deps[i].None? {
      assert ReachedFrom(u, {i}, i);
    } else {
      var ds := u.deps[i].value;
      DepsRankLower(u, i);
      DepsReached(u, i);
      var st1 := st.(imported := st.imported + {i});
      ImportsPlace(u, labels, st1, ds, pending + {i});
      var r := AddImports(u, labels, st1, ds);
      if r.Err? {
        UnreadableThrough(u, {i}, Set(ds));
      } else {
        ImportFollows(u, labels, st.imports, r.value, i, pending);
      }
    }
  }

  /** Interface i goes after its dependencies, and is pending no longer. */
  lemma ImportFollows(u: Interfaces, labels: Labels, before: seq<Item>, st: Lists, i: nat, pending: set<nat>)
    requires i < |u.names| == |u.deps| && u.deps[i].Some? && i !in pending && ImportsValid(u, st, pending + {i})
    requires Set(u.deps[i].value) <= Declared(st.imports) && AllReached(u, {i}, Set(u.deps[i].value))
    requires Grown(u, labels, before, st.imports, Set(u.deps[i].value))
    ensures var imports := st.imports + [ItemFor(u, labels, i)];
            && ImportsValid(u, st.(imports := imports), pending) && i in Declared(imports)
            && Grown(u, labels, before, imports, {i})
  {
    hide WellPlaced, Grown, Declared, ReachedFrom;
    var items, item := st.imports, ItemFor(u, labels, i);
    DeclaredAppend(items, item);
    assert MayFollow(u, Declared(items), i);
    WellPlacedAppend(u, items, item);
    OneGrown(u, labels, items, i);
    ReachedSelf(u, {i});
    GrownFurther(u, labels, before, items, items + [item], {i}, Set(u.deps[i].value), {i});
  }

  lemma {:induction false} ImportsPlace(u: Interfaces, labels: Labels, st: Lists, ds: seq<nat>, pending: set<nat>)
    requires Valid(u) && Below(u, ds) && ImportsValid(u, st, pending) && Above(u, pending, Height(u, ds))
    ensures match AddImports(u, labels, st, ds)
            case Ok(st') =>
              && ImportsValid(u, st', pending) && Set(ds) <= Declared(st'.imports)
              && Grown(u, labels, st.imports, st'.imports, Set(ds)) && SameExports(st, st')
            case Err(e) => e == Excluded && Unreadable(u, Set(ds))
    decreases Height(u, ds), 0, |ds|
  {
    hide Acyclic, Closed, WellPlaced, Grown, AllReached, ReachedFrom, Unreadable, MayFollow, Declared;
    if ds == [] {
      NothingGrown(u, labels, st.imports, Set(ds));
    } else {
      var d, rest := ds[0], ds[1..];
      HeightAtMost(u, rest, Height(u, ds));
      SetSplit(ds);
      PartReached(u, Set(ds), {d});
      PartReached(u, Set(ds), Set(rest));
      ImportPlaces(u, labels, st, d, pending);
      var r := AddImport(u, labels, st, d);
      if r.Err? {
        UnreadableThrough(u, Set(ds), {d});
      } else {
        ImportsPlace(u, labels, r.value, rest, pending);
        var r' := AddImports(u, labels, r.value, rest);
        if r'.Err? {
          UnreadableThrough(u, Set(ds), Set(rest));
        } else {
          GrownFurther(u, labels, st.imports, r.value.imports, r'.value.imports, Set(ds), {d}, Set(rest));
          GrownDeclares(u, labels, r.value.imports, r'.value.imports, Set(rest));
        }
      }
    }
  }

  // ----- the export pass

  ghost predicate Via(u: Interfaces, declared: set<nat>, e: nat, v: nat, x: nat) {
    && e in declared && v !in declared
    && Reaches(GraphOf(u), e, v) && Reaches(GraphOf(u), v, x)
  }

  /** An exported interface reaches x, itself included or not, through one the
      world does not export: x has to be an import. */
  ghost predicate Tainted(u: Interfaces, declared: set<nat>, x: nat) {
    exists e, v :: Via(u, declared, e, v, x)
  }

  /** An exported interface reaches another exported one through one the world
      does not export. */
  ghost predicate Conflict(u: Interfaces, declared: set<nat>) {
    exists x :: x in declared && Tainted(u, declared, x)
  }

  lemma TaintSpreads(u: Interfaces, declared: set<nat>, i: nat, d: nat)
    requires Tainted(u, declared, i) && i < |u.deps| && u.deps[i].Some? && d in u.deps[i].value && d < |u.deps|
    ensures Tainted(u, declared, d)
  {
    var g := GraphOf(u);
    var e, v :| Via(u, declared, e, v, i);
    ReachesSelf(g, d);
    ReachesStep(g, i, d, d);
    ReachesTransitive(g, v, i, d);
    assert Via(u, declared, e, v, d);
  }

  lemma TaintStarts(u: Interfaces, declared: set<nat>, i: nat, d: nat)
    requires i in declared && i < |u.deps| && u.deps[i].Some? && d in u.deps[i].value && d < |u.deps|
    requires d !in declared
    ensures Tainted(u, declared, d)
  {
    var g := GraphOf(u);
    ReachesSelf(g, d);
    ReachesStep(g, i, d, d);
    assert Via(u, declared, i, d, d);
  }

  /** Export i may follow earlier: its exported dependencies are there, the
      others are required imports. */
  ghost predicate ExportMayFollow(u: Interfaces, declared: set<nat>, required: set<nat>, earlier: set<nat>, i: nat) {
    && i < |u.deps| && u.deps[i].Some? && i !in earlier
    && forall d :: d in u.deps[i].value ==> if d in declared then d in earlier else d in required
  }

  ghost predicate ExportAt(u: Interfaces, declared: set<nat>, required: set<nat>, exports: seq<Item>, k: nat)
    requires k < |exports|
  {
    exports[k].IfaceItem? ==> ExportMayFollow(u, declared, required, Declared(exports[..k]), exports[k].iface)
  }

  ghost predicate ExportsPlaced(u: Interfaces, declared: set<nat>, required: set<nat>, exports: seq<Item>) {
    forall k :: 0 <= k < |exports| ==> ExportAt(u, declared, required, exports, k)
  }

  lemma ExportsPlacedMore(u: Interfaces, declared: set<nat>, required: set<nat>, more: set<nat>, exports: seq<Item>)
    requires ExportsPlaced(u, declared, required, exports) && required <= more
    ensures ExportsPlaced(u, declared, more, exports)
  {
    forall k | 0 <= k < |exports| ensures ExportAt(u, declared, more, exports, k) {
      assert ExportAt(u, declared, required, exports, k);
    }
  }

  lemma ExportsPlacedAppend(u: Interfaces, declared: set<nat>, required: set<nat>, exports: seq<Item>, x: Item)
    requires ExportsPlaced(u, declared, required, exports)
    requires x.IfaceItem? ==> ExportMayFollow(u, declared, required, Declared(exports), x.iface)
    ensures ExportsPlaced(u, declared, required, exports + [x])
  {
    var all := exports + [x];
    forall k | 0 <= k < |all| ensures ExportAt(u, declared, required, all, k) {
      if k < |exports| {
        assert all[..k] == exports[..k] && ExportAt(u, declared, required, exports, k);
      } else {
        assert all[..k] == exports;
      }
    }
  }

  ghost predicate RequiredAt(u: Interfaces, declared: set<nat>, required: set<nat>, x: nat) {
    && x < |u.deps| && u.deps[x].Some? && Tainted(u, declared, x)
    && forall d :: d in u.deps[x].value ==> d in required
  }

  /** What is required has to be imported, and so has all it depends on. */
  ghost predicate RequiredValid(u: Interfaces, declared: set<nat>, required: set<nat>) {
    forall x {:trigger RequiredAt(u, declared, required, x)} :: x in required ==> RequiredAt(u, declared, required, x)
  }

  lemma RequireOneMore(u: Interfaces, declared: set<nat>, required: set<nat>, i: nat)
    requires RequiredValid(u, declared, required) && RequiredAt(u, declared, required, i)
    ensures RequiredValid(u, declared, required + {i})
  {
    forall x | x in required + {i} ensures RequiredAt(u, declared, required + {i}, x) {
      assert RequiredAt(u, declared, required, x);
    }
  }

  ghost predicate ListsValid(u: Interfaces, declared: set<nat>, st: Lists) {
    && ImportsValid(u, st, {})
    && st.exported == Declared(st.exports) && st.exported <= declared
    && ExportsPlaced(u, declared, st.required, st.exports)
    && RequiredValid(u, declared, st.required)
    && st.required <= st.imported && st.required !! st.exported
  }

  ghost predicate ListsGrown(u: Interfaces, labels: Labels, st: Lists, st': Lists, from: set<nat>) {
    && Grown(u, labels, st.imports, st'.imports, from)
    && Grown(u, labels, st.exports, st'.exports, from)
    && st.required <= st'.required && st.exported <= st'.exported
    && st.imported <= st'.imported <= st.imported + st'.required
  }

  lemma ListsGrownFurther(u: Interfaces, labels: Labels, a: Lists, b: Lists, c: Lists,
                          from: set<nat>, ab: set<nat>, bc: set<nat>)
    requires ListsGrown(u, labels, a, b, ab) && ListsGrown(u, labels, b, c, bc)
    requires AllReached(u, from, ab) && AllReached(u, from, bc)
    ensures ListsGrown(u, labels, a, c, from)
  {
    GrownFurther(u, labels, a.imports, b.imports, c.imports, from, ab, bc);
    GrownFurther(u, labels, a.exports, b.exports, c.exports, from, ab, bc);
  }

  /** The flags of the dependencies are right: one that is not to be exported
      has to be imported. */
  ghost predicate Flagged(u: Interfaces, declared: set<nat>, ds: seq<nat>, asExport: bool) {
    forall k :: 0 <= k < |ds| ==> (asExport && ds[k] in declared) || Tainted(u, declared, ds[k])
  }

  lemma DepsFlagged(u: Interfaces, declared: set<nat>, i: nat, asExport: bool)
    requires Valid(u) && i < |u.deps| && u.deps[i].Some?
    requires if asExport then i in declared else Tainted(u, declared, i)
    ensures Flagged(u, declared, u.deps[i].value, asExport)
  {
    var ds := u.deps[i].value;
    DepsRankLower(u, i);
    forall k | 0 <= k < |ds| && !(asExport && ds[k] in declared) ensures Tainted(u, declared, ds[k]) {
      if asExport {
        TaintStarts(u, declared, i, ds[k]);
      } else {
        TaintSpreads(u, declared, i, ds[k]);
      }
    }
  }

  lemma NotReachedFromDeps(u: Interfaces, i: nat)
    requires Valid(u) && i < |u.deps| && u.deps[i].Some?
    ensures !ReachedFrom(u, Set(u.deps[i].value), i)
  {
    var g := GraphOf(u);
    forall d | d in u.deps[i].value ensures !Reaches(g, d, i) {
      if Reaches(g, d, i) {
        var p :| PathFromTo(g, p, d, i);
        var c := [i] + p;
        forall k | 0 <= k < |c| - 1 ensures Step(g, c, k) {
          if k > 0 { assert Step(g, p, k - 1); }
        }
        assert Cycle(g, c);
      }
    }
  }

  lemma StillNotDeclared(u: Interfaces, labels: Labels, before: seq<Item>, after: seq<Item>, from: set<nat>, i: nat)
    requires Grown(u, labels, before, after, from) && i !in Declared(before) && !ReachedFrom(u, from, i)
    ensures i !in Declared(after)
  {
    forall k | 0 <= k < |after| && after[k].IfaceItem? ensures after[k].iface != i {
      if k < |before| {
        assert before[k] == after[k];
      } else {
        assert NewItem(u, labels, after[k], from);
      }
    }
  }

  /** Placing i after its dependencies keeps the lists right. */
  lemma PlaceKeeps(u: Interfaces, labels: Labels, declared: set<nat>, st: Lists, i: nat, asExport: bool)
    requires Valid(u) && i < |u.deps| && u.deps[i].Some? && ListsValid(u, declared, st)
    requires i !in st.exported && (asExport ==> i !in st.required)
    requires if asExport then i in declared else Tainted(u, declared, i)
    requires forall d :: d in u.deps[i].value ==> if asExport && d in declared then d in st.exported else d in st.required
    ensures var st' := Place(u, labels, st, i, asExport);
            && ListsValid(u, declared, st') && ListsGrown(u, labels, st, st', {i})
            && (if asExport then i in st'.exported else i in st'.required)
            && (!asExport ==> st'.exports == st.exports && st'.exported == st.exported)
  {
    hide Acyclic, Closed, WellPlaced, Grown, Tainted, Declared;
    var item := ItemFor(u, labels, i);
    NothingGrown(u, labels, st.imports, {i});
    NothingGrown(u, labels, st.exports, {i});
    if asExport {
      DeclaredAppend(st.exports, item);
      OneGrown(u, labels, st.exports, i);
      ExportsPlacedAppend(u, declared, st.required, st.exports, item);
    } else {
      RequireOneMore(u, declared, st.required, i);
      ExportsPlacedMore(u, declared, st.required, st.required + {i}, st.exports);
      if i !in st.imported {
        DeclaredAppend(st.imports, item);
        WellPlacedAppend(u, st.imports, item);
        OneGrown(u, labels, st.imports, i);
      }
    }
  }

  lemma {:induction false} ExportPlaces(u: Interfaces, labels: Labels, declared: set<nat>, st: Lists, i: nat, asExport: bool)
    requires Valid(u) && i < |u.names| && ListsValid(u, declared, st)
    requires if asExport then i in declared else Tainted(u, declared, i)
    ensures match AddExport(u, labels, declared, st, i, asExport)
            case Ok(st') =>
              && ListsValid(u, declared, st') && ListsGrown(u, labels, st, st', {i})
              && (if asExport then i in st'.exported else i in st'.required)
              && (!asExport ==> st'.exports == st.exports && st'.exported == st.exported)
            case Err(Incompatible) => Conflict(u, declared)
            case Err(Excluded) => Unreadable(u, {i})
    decreases Rank(u, i), 1
  {
    hide Acyclic, Closed, ImportsValid, ExportsPlaced, RequiredValid, Grown, AllReached, Declared, ReachedFrom, Tainted;
    if i in st.exported || (!asExport && i in st.required) {
      NothingGrown(u, labels, st.imports, {i});
      NothingGrown(u, labels, st.exports, {i});
    } else if u.deps[i].None? {
      UnreadableHere(u, i);
    } else {
      var ds := u.deps[i].value;
      DepsRankLower(u, i);
      DepsReached(u, i);
      DepsFlagged(u, declared, i, asExport);
      ExportsPlace(u, labels, declared, st, ds, asExport);
      var r := AddExports(u, labels, declared, st, ds, asExport);
      if r.Err? {
        if r.error == Excluded { UnreadableThrough(u, {i}, Set(ds)); }
      } else if asExport && i in r.value.required {
        RequiredTaints(u, declared, r.value.required, i);
      } else {
        NotReachedFromDeps(u, i);
        StillNotDeclared(u, labels, st.exports, r.value.exports, Set(ds), i);
        PlaceKeeps(u, labels, declared, r.value, i, asExport);
        ReachedSelf(u, {i});
        ListsGrownFurther(u, labels, st, r.value, Place(u, labels, r.value, i, asExport), {i}, Set(ds), {i});
      }
    }
  }

  lemma RequiredTaints(u: Interfaces, declared: set<nat>, required: set<nat>, i: nat)
    requires RequiredValid(u, declared, required) && i in required
    ensures Tainted(u, declared, i)
  {
    assert RequiredAt(u, declared, required, i);
  }

  lemma UnreadableHere(u: Interfaces, i: nat)
    requires i < |u.deps| && u.deps[i].None?
    ensures Unreadable(u, {i})
  {
    ReachesSelf(GraphOf(u), i);
    assert ReachedFrom(u, {i}, i);
  }

  lemma {:induction false} ExportsPlace(u: Interfaces, labels: Labels, declared: set<nat>, st: Lists, ds: seq<nat>, asExport: bool)
    requires Valid(u) && Below(u, ds) && ListsValid(u, declared, st) && Flagged(u, declared, ds, asExport)
    ensures match AddExports(u, labels, declared, st, ds, asExport)
            case Ok(st') =>
              && ListsValid(u, declared, st') && ListsGrown(u, labels, st, st', Set(ds))
              && (forall d :: d in ds ==> if asExport && d in declared then d in st'.exported else d in st'.required)
              && (!asExport ==> st'.exports == st.exports && st'.exported == st.exported)
            case Err(Incompatible) => Conflict(u, declared)
            case Err(Excluded) => Unreadable(u, Set(ds))
    decreases Height(u, ds), 0, |ds|
  {
    hide Acyclic, Closed, ListsValid, Grown, AllReached, Declared, ReachedFrom, Tainted, Unreadable, Conflict;
    if ds == [] {
      NothingGrown(u, labels, st.imports, Set(ds));
      NothingGrown(u, labels, st.exports, Set(ds));
    } else {
      var d, rest := ds[0], ds[1..];
      HeightAtMost(u, rest, Height(u, ds));
      SetSplit(ds);
      PartReached(u, Set(ds), {d});
      PartReached(u, Set(ds), Set(rest));
      ExportPlaces(u, labels, declared, st, d, asExport && d in declared);
      var r := AddExport(u, labels, declared, st, d, asExport && d in declared);
      if r.Err? {
        if r.error == Excluded { UnreadableThrough(u, Set(ds), {d}); }
      } else {
        ExportsPlace(u, labels, declared, r.value, rest, asExport);
        var r' := AddExports(u, labels, declared, r.value, rest, asExport);
        if r'.Err? {
          if r'.error == Excluded { UnreadableThrough(u, Set(ds), Set(rest)); }
        } else {
          ListsGrownFurther(u, labels, st, r.value, r'.value, Set(ds), {d}, Set(rest));
        }
      }
    }
  }

  // ----- the items a world declares

  /** The funcs of a list, in order. */
  function Funcs(items: seq<Item>): seq<Item> {
    if items == [] then []
    else Funcs(items[..|items| - 1]) + (if items[|items| - 1].FuncItem? then [items[|items| - 1]] else [])
  }

  lemma {:induction false} FuncsConcat(a: seq<Item>, b: seq<Item>)
    ensures Funcs(a + b) == Funcs(a) + Funcs(b)
  {
    if b == [] {
      assert a + b == a;
    } else {
      var init := b[..|b| - 1];
      assert (a + b)[..|a + b| - 1] == a + init;
      FuncsConcat(a, init);
    }
  }

  lemma {:induction false} FuncsOfIfaces(items: seq<Item>)
    requires forall k :: 0 <= k < |items| ==> items[k].IfaceItem?
    ensures Funcs(items) == []
  {
    if items != [] {
      FuncsOfIfaces(items[..|items| - 1]);
    }
  }

  /** Every interface is listed as the item it is known by. */
  ghost predicate Standard(u: Interfaces, labels: Labels, items: seq<Item>) {
    forall k :: 0 <= k < |items| && items[k].IfaceItem? ==>
                  items[k].iface < |u.names| && items[k] == ItemFor(u, labels, items[k].iface)
  }

  lemma GrownItems(u: Interfaces, labels: Labels, before: seq<Item>, after: seq<Item>, from: set<nat>)
    requires Grown(u, labels, before, after, from)
    ensures Funcs(after) == Funcs(before)
    ensures Standard(u, labels, before) ==> Standard(u, labels, after)
    ensures forall x :: x in Declared(after) ==> x in Declared(before) || ReachedFrom(u, from, x)
  {
    var added := after[|before|..];
    assert after == before + added;
    forall k | 0 <= k < |added| ensures NewItem(u, labels, added[k], from) {
      assert added[k] == after[|before| + k];
    }
    FuncsConcat(before, added);
    FuncsOfIfaces(added);
    forall x | x in Declared(after) && !ReachedFrom(u, from, x) ensures x in Declared(before) {
      if x !in Declared(before) {
        StillNotDeclared(u, labels, before, after, from, x);
      }
    }
  }

  ghost predicate OnlyFrom(u: Interfaces, old_: set<nat>, new_: set<nat>, from: set<nat>) {
    forall x :: x in new_ ==> x in old_ || ReachedFrom(u, from, x)
  }

  lemma DeclaredHead(items: seq<Item>)
    requires items != []
    ensures Declared(items) == (if items[0].IfaceItem? then {items[0].iface} else {}) + Declared(items[1..])
    ensures Funcs(items) == (if items[0].FuncItem? then [items[0]] else []) + Funcs(items[1..])
  {
    var head := [items[0]];
    assert items == head + items[1..];
    FuncsConcat(head, items[1..]);
    assert Funcs(head) == Funcs([]) + (if items[0].FuncItem? then [items[0]] else []);
    forall i ensures i in Declared(items) <==> i in (if items[0].IfaceItem? then {items[0].iface} else {}) + Declared(items[1..]) {
      if i in Declared(items[1..]) {
        var k :| 0 <= k < |items[1..]| && items[1..][k].IfaceItem? && items[1..][k].iface == i;
        assert items[k + 1].iface == i;
      }
      if i in Declared(items) {
        var k :| 0 <= k < |items| && items[k].IfaceItem? && items[k].iface == i;
        if k > 0 {
          assert items[1..][k - 1] == items[k];
        }
      }
    }
  }

  lemma DeclaredOne(x: Item)
    ensures Declared([x]) == if x.IfaceItem? then {x.iface} else {}
    ensures Funcs([x]) == if x.FuncItem? then [x] else []
  {
    DeclaredHead([x]);
    assert Declared([]) == {};
  }

  lemma FuncAppended(u: Interfaces, labels: Labels, items: seq<Item>, x: Item)
    requires x.FuncItem?
    ensures Declared(items + [x]) == Declared(items) && Funcs(items + [x]) == Funcs(items) + [x]
    ensures WellPlaced(u, items) ==> WellPlaced(u, items + [x])
    ensures Standard(u, labels, items) ==> Standard(u, labels, items + [x])
  {
    DeclaredAppend(items, x);
    assert (items + [x])[..|items|] == items;
    if WellPlaced(u, items) {
      WellPlacedAppend(u, items, x);
    }
  }

  lemma OnlyFromSoFar(u: Interfaces, a: set<nat>, b: set<nat>, c: set<nat>, from: set<nat>, ab: set<nat>, bc: set<nat>)
    requires OnlyFrom(u, a, b, ab) && OnlyFrom(u, b, c, bc) && ab <= from && bc <= from
    ensures OnlyFrom(u, a, c, from)
  {
  }

  ghost predicate ItemsImported(u: Interfaces, labels: Labels, st: Lists, st': Lists, items: seq<Item>) {
    && ImportsValid(u, st', {}) && Standard(u, labels, st'.imports) && SameExports(st, st')
    && st.imports <= st'.imports && Declared(items) <= Declared(st'.imports)
    && OnlyFrom(u, Declared(st.imports), Declared(st'.imports), Declared(items))
    && Funcs(st'.imports) == Funcs(st.imports) + Funcs(items)
  }

  lemma {:induction false} ImportItemsPlace(u: Interfaces, labels: Labels, st: Lists, items: seq<Item>)
    requires Valid(u) && ItemsBelow(u, items) && ImportsValid(u, st, {}) && Standard(u, labels, st.imports)
    ensures match ImportItems(u, labels, st, items)
            case Ok(st') => ItemsImported(u, labels, st, st', items)
            case Err(e) => e == Excluded && Unreadable(u, Declared(items))
    decreases |items|
  {
    if items == [] {
      assert Declared(items) == {};
    } else {
      hide Acyclic, Closed, WellPlaced, Standard, Grown, Declared, ReachedFrom, Unreadable, Funcs, NewItem;
      var rest := items[1..];
      DeclaredHead(items);
      var r := ImportFirst(u, labels, st, items[0]);
      if r.Ok? {
        ImportItemsPlace(u, labels, r.value, rest);
        var r' := ImportItems(u, labels, r.value, rest);
        if r'.Ok? {
          ItemsImportedThen(u, labels, st, r.value, r'.value, items);
        } else {
          UnreadablePart(u, Declared(items), Declared(rest));
        }
      } else {
        UnreadablePart(u, Declared(items), {items[0].iface});
      }
    }
  }

  lemma UnreadablePart(u: Interfaces, from: set<nat>, part: set<nat>)
    requires Unreadable(u, part) && part <= from
    ensures Unreadable(u, from)
  {
    var x: nat :| ReachedFrom(u, part, x) && x < |u.deps| && u.deps[x].None?;
    var s :| s in part && Reaches(GraphOf(u), s, x);
    assert ReachedFrom(u, from, x);
  }

  /** The state after the first of a list of items. */
  ghost function ImportFirst(u: Interfaces, labels: Labels, st: Lists, item: Item): (r: Result<Lists, ElabError>)
    requires Valid(u) && (item.IfaceItem? ==> item.iface < |u.names|)
    requires ImportsValid(u, st, {}) && Standard(u, labels, st.imports)
    ensures r.Ok? ==> ItemsImported(u, labels, st, r.value, [item])
    ensures r.Err? ==> item.IfaceItem? && r.error == Excluded && Unreadable(u, {item.iface})
  {
    DeclaredOne(item);
    if item.FuncItem? then
      FuncAppended(u, labels, st.imports, item);
      Ok(st.(imports := st.imports + [item]))
    else
      ImportPlaces(u, labels, st, item.iface, {});
      var r := AddImport(u, labels, st, item.iface);
      if r.Ok? then
        GrownItems(u, labels, st.imports, r.value.imports, {item.iface});
        r
      else r
  }

  lemma ItemsImportedThen(u: Interfaces, labels: Labels, a: Lists, b: Lists, c: Lists, items: seq<Item>)
    requires items != [] && ItemsImported(u, labels, a, b, [items[0]]) && ItemsImported(u, labels, b, c, items[1..])
    ensures ItemsImported(u, labels, a, c, items)
  {
    hide WellPlaced, Standard, Declared, Funcs, ReachedFrom;
    DeclaredHead(items);
    DeclaredOne(items[0]);
    DeclaredGrows(b.imports, c.imports);
    OnlyFromSoFar(u, Declared(a.imports), Declared(b.imports), Declared(c.imports),
                  Declared(items), Declared([items[0]]), Declared(items[1..]));
  }

  ghost predicate ItemsExported(u: Interfaces, labels: Labels, declared: set<nat>, st: Lists, st': Lists, items: seq<Item>) {
    && ListsValid(u, declared, st') && Standard(u, labels, st'.imports) && Standard(u, labels, st'.exports)
    && st.imports <= st'.imports && Funcs(st'.imports) == Funcs(st.imports)
    && st.imported <= st'.imported <= st.imported + st'.required
    && st.required <= st'.required
    && st.exported <= st'.exported && Declared(items) <= st'.exported
    && Funcs(st'.exports) == Funcs(st.exports) + Funcs(items)
  }

  lemma FuncExported(u: Interfaces, labels: Labels, declared: set<nat>, st: Lists, x: Item)
    requires x.FuncItem? && ListsValid(u, declared, st)
    requires Standard(u, labels, st.imports) && Standard(u, labels, st.exports)
    ensures ItemsExported(u, labels, declared, st, st.(exports := st.exports + [x]), [x])
  {
    hide WellPlaced, Standard, Declared, Funcs, RequiredValid, ExportsPlaced;
    DeclaredOne(x);
    FuncAppended(u, labels, st.exports, x);
    ExportsPlacedAppend(u, declared, st.required, st.exports, x);
  }

  lemma IfaceExported(u: Interfaces, labels: Labels, declared: set<nat>, st: Lists, st': Lists, x: Item)
    requires x.IfaceItem? && ListsValid(u, declared, st') && ListsGrown(u, labels, st, st', {x.iface})
    requires x.iface in st'.exported
    requires Standard(u, labels, st.imports) && Standard(u, labels, st.exports)
    ensures ItemsExported(u, labels, declared, st, st', [x])
  {
    DeclaredOne(x);
    GrownItems(u, labels, st.imports, st'.imports, {x.iface});
    GrownItems(u, labels, st.exports, st'.exports, {x.iface});
  }

  /** The state after the first of a list of exports. */
  ghost function ExportFirst(u: Interfaces, labels: Labels, declared: set<nat>, st: Lists, item: Item)
    : (r: Result<Lists, ElabError>)
    requires Valid(u) && (item.IfaceItem? ==> item.iface < |u.names| && item.iface in declared)
    requires ListsValid(u, declared, st) && Standard(u, labels, st.imports) && Standard(u, labels, st.exports)
    ensures r.Ok? ==> ItemsExported(u, labels, declared, st, r.value, [item])
    ensures r.Err? && r.error == Incompatible ==> Conflict(u, declared)
    ensures r.Err? && r.error == Excluded ==> item.IfaceItem? && Unreadable(u, {item.iface})
  {
    if item.FuncItem? then
      FuncExported(u, labels, declared, st, item);
      Ok(st.(exports := st.exports + [item]))
    else
      ExportPlaces(u, labels, declared, st, item.iface, true);
      var r := AddExport(u, labels, declared, st, item.iface, true);
      if r.Ok? then
        IfaceExported(u, labels, declared, st, r.value, item);
        r
      else r
  }

  lemma ItemsExportedThen(u: Interfaces, labels: Labels, declared: set<nat>, a: Lists, b: Lists, c: Lists, items: seq<Item>)
    requires items != []
    requires ItemsExported(u, labels, declared, a, b, [items[0]]) && ItemsExported(u, labels, declared, b, c, items[1..])
    ensures ItemsExported(u, labels, declared, a, c, items)
  {
    hide ListsValid, Standard, Declared, Funcs;
    DeclaredHead(items);
    DeclaredOne(items[0]);
  }

  lemma {:induction false} ExportItemsPlace(u: Interfaces, labels: Labels, declared: set<nat>, st: Lists, items: seq<Item>)
    requires Valid(u) && ItemsBelow(u, items) && Declared(items) <= declared
    requires ListsValid(u, declared, st) && Standard(u, labels, st.imports) && Standard(u, labels, st.exports)
    ensures match ExportItems(u, labels, declared, st, items)
            case Ok(st') => ItemsExported(u, labels, declared, st, st', items)
            case Err(Incompatible) => Conflict(u, declared)
            case Err(Excluded) => Unreadable(u, Declared(items))
    decreases |items|
  {
    hide ItemsExported, ListsValid, Standard, Declared, Unreadable, Conflict, ExportItems, ExportFirst, Valid;
    if items == [] {
      NoneExported(u, labels, declared, st);
    } else {
      var rest := items[1..];
      DeclaredHead(items);
      DeclaredOne(items[0]);
      ExportItemsStart(u, labels, declared, st, items);
      var r := ExportFirst(u, labels, declared, st, items[0]);
      if r.Ok? {
        ExportedKeeps(u, labels, declared, st, r.value, [items[0]]);
        ExportItemsPlace(u, labels, declared, r.value, rest);
        var r' := ExportItems(u, labels, declared, r.value, rest);
        if r'.Ok? {
          ItemsExportedThen(u, labels, declared, st, r.value, r'.value, items);
        } else if r'.error == Excluded {
          UnreadablePart(u, Declared(items), Declared(rest));
        }
      } else if r.error == Excluded {
        UnreadablePart(u, Declared(items), {items[0].iface});
      }
    }
  }

  lemma NoneExported(u: Interfaces, labels: Labels, declared: set<nat>, st: Lists)
    requires Valid(u) && ListsValid(u, declared, st) && Standard(u, labels, st.imports) && Standard(u, labels, st.exports)
    ensures ExportItems(u, labels, declared, st, []) == Ok(st) && ItemsExported(u, labels, declared, st, st, [])
  {
    hide ListsValid, Standard, Valid;
  }

  lemma ExportedKeeps(u: Interfaces, labels: Labels, declared: set<nat>, st: Lists, st': Lists, items: seq<Item>)
    requires ItemsExported(u, labels, declared, st, st', items)
    ensures ListsValid(u, declared, st') && Standard(u, labels, st'.imports) && Standard(u, labels, st'.exports)
  {
  }

  lemma ExportItemsStart(u: Interfaces, labels: Labels, declared: set<nat>, st: Lists, items: seq<Item>)
    requires Valid(u) && ItemsBelow(u, items) && items != [] && Declared(items) <= declared
    requires ListsValid(u, declared, st) && Standard(u, labels, st.imports) && Standard(u, labels, st.exports)
    ensures ItemsBelow(u, items[1..]) && (items[0].IfaceItem? ==> items[0].iface < |u.names| && items[0].iface in declared)
    ensures ExportItems(u, labels, declared, st, items) ==
            var r := ExportFirst(u, labels, declared, st, items[0]);
            if r.Err? then r else ExportItems(u, labels, declared, r.value, items[1..])
  {
    DeclaredHead(items);
    hide ListsValid, Standard, Valid, Declared, AddExport, ItemsExported;
  }

  // ----- a whole elaboration

  ghost function Uses(w: World): set<nat> {
    if w.uses.Some? then Set(w.uses.value) else {}
  }

  ghost function ImportRoots(w: World): set<nat> {
    Uses(w) + Declared(w.imports)
  }

  ghost function AllLabels(w: World): Labels {
    LabelsOf(w.imports + w.exports)
  }

  ghost predicate ImportsExact(u: Interfaces, w: World, st: Lists) {
    && ImportsValid(u, st, {}) && Standard(u, AllLabels(w), st.imports) && SameExports(Nothing, st)
    && (forall x :: x in st.imported <==> ReachedFrom(u, ImportRoots(w), x))
    && Funcs(st.imports) == Funcs(w.imports)
  }

  /** The import pass lists what the world's uses and imports reach, no more. */
  lemma ImportPassExact(u: Interfaces, w: World)
    requires Valid(u) && WorldBelow(u, w)
    ensures match ImportPass(u, w)
            case Ok(st) => w.uses.Some? && ImportsExact(u, w, st)
            case Err(e) => e == Excluded && (w.uses.None? || Unreadable(u, ImportRoots(w)))
  {
    if w.uses.Some? {
      hide Acyclic, Closed, UsesImported, ItemsImported, Declared, Unreadable, LabelsOf, ImportsExact;
      var labels, ds := AllLabels(w), w.uses.value;
      UsesPlaced(u, labels, ds);
      var r := AddImports(u, labels, Nothing, ds);
      if r.Err? {
        UnreadablePart(u, ImportRoots(w), Set(ds));
      } else {
        UsesAreValid(u, labels, ds, r.value);
        ImportItemsPlace(u, labels, r.value, w.imports);
        var r' := ImportItems(u, labels, r.value, w.imports);
        if r'.Err? {
          UnreadablePart(u, ImportRoots(w), Declared(w.imports));
        } else {
          ItemsAfterUses(u, w, r.value, r'.value);
        }
      }
    }
  }

  ghost predicate UsesImported(u: Interfaces, labels: Labels, ds: seq<nat>, st: Lists) {
    && ImportsValid(u, st, {}) && Standard(u, labels, st.imports) && SameExports(Nothing, st)
    && Funcs(st.imports) == [] && (forall k :: 0 <= k < |st.imports| ==> st.imports[k].IfaceItem?)
    && Set(ds) <= Declared(st.imports) && OnlyFrom(u, {}, Declared(st.imports), Set(ds))
  }

  lemma UsesAreValid(u: Interfaces, labels: Labels, ds: seq<nat>, st: Lists)
    requires UsesImported(u, labels, ds, st)
    ensures ImportsValid(u, st, {}) && Standard(u, labels, st.imports)
  {
  }

  lemma UsesPlaced(u: Interfaces, labels: Labels, ds: seq<nat>)
    requires Valid(u) && Below(u, ds)
    ensures var r := AddImports(u, labels, Nothing, ds);
            if r.Ok? then UsesImported(u, labels, ds, r.value) else r.error == Excluded && Unreadable(u, Set(ds))
  {
    hide Acyclic, Closed, WellPlaced, Standard, Declared, ReachedFrom, Funcs, Grown, Unreadable;
    NothingValid(u, labels);
    ImportsPlace(u, labels, Nothing, ds, {});
    var r := AddImports(u, labels, Nothing, ds);
    if r.Ok? {
      GrownItems(u, labels, [], r.value.imports, Set(ds));
      GrownFromNothing(u, labels, r.value.imports, Set(ds));
    }
  }

  lemma NothingValid(u: Interfaces, labels: Labels)
    ensures ImportsValid(u, Nothing, {}) && Standard(u, labels, []) && Funcs([]) == [] && Declared([]) == {}
  {
  }

  lemma GrownFromNothing(u: Interfaces, labels: Labels, items: seq<Item>, from: set<nat>)
    requires Grown(u, labels, [], items, from)
    ensures forall k :: 0 <= k < |items| ==> items[k].IfaceItem?
  {
  }

  lemma ItemsAfterUses(u: Interfaces, w: World, first: Lists, st: Lists)
    requires w.uses.Some? && UsesImported(u, AllLabels(w), w.uses.value, first)
    requires ItemsImported(u, AllLabels(w), first, st, w.imports)
    ensures ImportsExact(u, w, st)
  {
    hide WellPlaced, Standard, Declared, ReachedFrom, Funcs, LabelsOf;
    DeclaredGrows(first.imports, st.imports);
    RootsReached(u, w, st.imports);
    OnlyFromRoots(u, w, Declared(first.imports), Declared(st.imports));
  }

  lemma OnlyFromRoots(u: Interfaces, w: World, first: set<nat>, all: set<nat>)
    requires w.uses.Some? && OnlyFrom(u, {}, first, Set(w.uses.value)) && OnlyFrom(u, first, all, Declared(w.imports))
    ensures forall x :: x in all ==> ReachedFrom(u, ImportRoots(w), x)
  {
    hide Declared;
    OnlyFromSoFar(u, {}, first, all, ImportRoots(w), Set(w.uses.value), Declared(w.imports));
  }

  lemma RootsReached(u: Interfaces, w: World, items: seq<Item>)
    requires WellPlaced(u, items) && ImportRoots(w) <= Declared(items)
    ensures forall x :: ReachedFrom(u, ImportRoots(w), x) ==> x in Declared(items)
  {
    forall x | ReachedFrom(u, ImportRoots(w), x) ensures x in Declared(items) {
      var s :| s in ImportRoots(w) && Reaches(GraphOf(u), s, x);
      PlacedClosed(u, items, s, x);
    }
  }

  /** With every export placed, what one depends on is placed too. */
  lemma SettledAt(u: Interfaces, st: Lists, a: nat)
    requires ListsValid(u, st.exported, st) && (a in st.exported || a in st.required)
    ensures a < |u.deps| && u.deps[a].Some?
    ensures forall d :: d in u.deps[a].value ==> d in st.required || (a !in st.required && d in st.exported)
  {
    if a in st.required {
      assert RequiredAt(u, st.exported, st.required, a);
    } else {
      var at :| 0 <= at < |st.exports| && st.exports[at].IfaceItem? && st.exports[at].iface == a;
      assert ExportAt(u, st.exported, st.required, st.exports, at);
      DeclaredGrows(st.exports[..at], st.exports);
    }
  }

  lemma {:induction false} SettledPath(u: Interfaces, st: Lists, p: seq<nat>, k: nat)
    requires ListsValid(u, st.exported, st) && Path(GraphOf(u), p) && k < |p|
    requires p[0] in st.exported || p[0] in st.required
    ensures p[k] in st.exported || p[k] in st.required
    ensures p[0] in st.required ==> p[k] in st.required
  {
    hide ListsValid;
    if k > 0 {
      SettledPath(u, st, p, k - 1);
      SettledAt(u, st, p[k - 1]);
      assert Step(GraphOf(u), p, k - 1);
    }
  }

  lemma SettledReach(u: Interfaces, st: Lists, a: nat, b: nat)
    requires ListsValid(u, st.exported, st) && (a in st.exported || a in st.required)
    requires Reaches(GraphOf(u), a, b)
    ensures b in st.exported || b in st.required
    ensures a in st.required ==> b in st.required
  {
    hide ListsValid;
    var p :| PathFromTo(GraphOf(u), p, a, b);
    SettledPath(u, st, p, |p| - 1);
  }

  /** With every export placed, exactly the tainted interfaces are required,
      and none of them is exported. */
  lemma SettledExact(u: Interfaces, st: Lists)
    requires ListsValid(u, st.exported, st)
    ensures forall x :: x in st.required <==> Tainted(u, st.exported, x)
    ensures !Conflict(u, st.exported) && !Unreadable(u, st.exported)
  {
    forall x ensures x in st.required <==> Tainted(u, st.exported, x) {
      if x in st.required {
        RequiredTaints(u, st.exported, st.required, x);
      }
      if Tainted(u, st.exported, x) {
        var e, v :| Via(u, st.exported, e, v, x);
        SettledReach(u, st, e, v);
        SettledReach(u, st, v, x);
      }
    }
    forall x: nat | ReachedFrom(u, st.exported, x) && x < |u.deps| ensures u.deps[x].Some? {
      var e :| e in st.exported && Reaches(GraphOf(u), e, x);
      SettledReach(u, st, e, x);
      SettledAt(u, st, x);
    }
  }

  // ----- the theorems

  ghost function Roots(w: World): set<nat> {
    ImportRoots(w) + Declared(w.exports)
  }

  lemma ReadyToExport(u: Interfaces, w: World, st: Lists)
    requires ImportsExact(u, w, st)
    ensures ListsValid(u, Declared(w.exports), st) && Standard(u, AllLabels(w), st.exports)
    ensures Funcs(st.exports) == []
  {
    hide WellPlaced, ReachedFrom, LabelsOf;
    assert Declared([]) == {};
  }

  /** What is known of the lists once both passes have succeeded. */
  ghost predicate Finished(u: Interfaces, w: World, first: Lists, st: Lists) {
    && w.uses.Some? && ImportsExact(u, w, first)
    && st.exported == Declared(w.exports)
    && ItemsExported(u, AllLabels(w), Declared(w.exports), first, st, w.exports)
  }

  ghost function FirstPass(u: Interfaces, w: World): Lists
    requires Valid(u) && WorldBelow(u, w) && Elaborate(u, w).Ok?
  {
    ImportPass(u, w).value
  }

  ghost function LastPass(u: Interfaces, w: World): Lists
    requires Valid(u) && WorldBelow(u, w) && Elaborate(u, w).Ok?
  {
    ExportItems(u, AllLabels(w), Declared(w.exports), FirstPass(u, w), w.exports).value
  }

  lemma Outcome(u: Interfaces, w: World)
    requires Valid(u) && WorldBelow(u, w)
    ensures match Elaborate(u, w)
            case Ok(w') =>
              var st := LastPass(u, w);
              Finished(u, w, FirstPass(u, w), st) && w' == World(w.uses, st.imports, st.exports)
            case Err(Incompatible) => Conflict(u, Declared(w.exports))
            case Err(Excluded) => w.uses.None? || Unreadable(u, Roots(w))
  {
    hide Acyclic, Closed, ListsValid, Standard, Declared, ReachedFrom, Unreadable, Funcs, LabelsOf, Conflict;
    ImportPassExact(u, w);
    var r := ImportPass(u, w);
    if r.Err? {
      if w.uses.Some? {
        UnreadablePart(u, Roots(w), ImportRoots(w));
      }
    } else {
      ReadyToExport(u, w, r.value);
      ExportItemsPlace(u, AllLabels(w), Declared(w.exports), r.value, w.exports);
      var r' := ExportItems(u, AllLabels(w), Declared(w.exports), r.value, w.exports);
      if r'.Err? {
        if r'.error == Excluded { UnreadablePart(u, Roots(w), Declared(w.exports)); }
      } else {
        AllExported(u, AllLabels(w), Declared(w.exports), r.value, r'.value, w.exports);
      }
    }
  }

  lemma AllExported(u: Interfaces, labels: Labels, declared: set<nat>, st: Lists, st': Lists, items: seq<Item>)
    requires ItemsExported(u, labels, declared, st, st', items) && declared == Declared(items)
    ensures st'.exported == declared
  {
    hide Standard, Declared, Funcs, RequiredValid, ExportsPlaced, ImportsValid;
  }

  /** Elaboration succeeds exactly when every interface the world reaches can be
      read and no exported interface reaches another through one that is not
      exported; the error says which of the two failed. */
  lemma ElaborateSucceedsIff(u: Interfaces, w: World)
    requires Valid(u) && WorldBelow(u, w)
    ensures Elaborate(u, w).Ok? <==>
            w.uses.Some? && !Unreadable(u, Roots(w)) && !Conflict(u, Declared(w.exports))
    ensures Elaborate(u, w) == Err(Incompatible) ==> Conflict(u, Declared(w.exports))
    ensures Elaborate(u, w) == Err(Excluded) ==> w.uses.None? || Unreadable(u, Roots(w))
  {
    Outcome(u, w);
    if Elaborate(u, w).Ok? {
      hide Acyclic, Closed, Standard, Declared, Funcs, LabelsOf, Conflict, Elaborate, ItemsExported;
      var first, st := FirstPass(u, w), LastPass(u, w);
      FinishedLists(u, w, first, st);
      SettledExact(u, st);
      forall x: nat | ReachedFrom(u, Roots(w), x) && x < |u.deps| ensures u.deps[x].Some? {
        var s :| s in Roots(w) && Reaches(GraphOf(u), s, x);
        if s in ImportRoots(w) {
          ReachedReadable(u, w, first, s, x);
        } else {
          assert ReachedFrom(u, st.exported, x);
        }
      }
    }
  }

  lemma FinishedLists(u: Interfaces, w: World, first: Lists, st: Lists)
    requires Finished(u, w, first, st)
    ensures ListsValid(u, st.exported, st)
  {
  }

  lemma ReachedReadable(u: Interfaces, w: World, first: Lists, s: nat, x: nat)
    requires ImportsExact(u, w, first) && s in ImportRoots(w) && Reaches(GraphOf(u), s, x)
    ensures x < |u.deps| && u.deps[x].Some?
  {
    assert ReachedFrom(u, ImportRoots(w), x);
    PlacedDeps(u, first.imports, x);
  }

  /** Whether a world elaborates does not depend on the order its imports and
      exports are listed in. */
  lemma OrderIrrelevant(u: Interfaces, w: World, w': World)
    requires Valid(u) && WorldBelow(u, w) && WorldBelow(u, w')
    requires w.uses == w'.uses && Declared(w.imports) == Declared(w'.imports) && Declared(w.exports) == Declared(w'.exports)
    ensures Elaborate(u, w).Ok? <==> Elaborate(u, w').Ok?
  {
    ElaborateSucceedsIff(u, w);
    ElaborateSucceedsIff(u, w');
  }

  // ----- labels

  /** Items name their interface by its name, and one interface by one label. */
  ghost predicate Consistent(u: Interfaces, items: seq<Item>) {
    && (forall k :: 0 <= k < |items| && items[k].IfaceItem? ==>
                      items[k].iface < |u.names| && items[k].name == u.names[items[k].iface])
    && (forall j, k :: 0 <= j < |items| && 0 <= k < |items| && SameIface(items[j], items[k]) ==>
                         items[j].implements == items[k].implements)
  }

  ghost predicate SameIface(a: Item, b: Item) {
    a.IfaceItem? && b.IfaceItem? && a.iface == b.iface
  }

  lemma {:induction false} LabelComesFrom(items: seq<Item>, i: nat) returns (k: nat)
    requires i in LabelsOf(items)
    ensures k < |items| && items[k].IfaceItem? && items[k].iface == i
    ensures items[k].implements == LabelsOf(items)[i] != ""
  {
    var last := |items| - 1;
    if items[last].IfaceItem? && items[last].implements != "" && items[last].iface == i {
      k := last;
    } else {
      k := LabelComesFrom(items[..last], i);
    }
  }

  lemma {:induction false} LabelIsKept(items: seq<Item>, k: nat)
    requires k < |items| && items[k].IfaceItem? && items[k].implements != ""
    ensures items[k].iface in LabelsOf(items)
  {
    var last := |items| - 1;
    if k < last {
      LabelIsKept(items[..last], k);
    }
  }

  lemma ConsistentIsStandard(u: Interfaces, items: seq<Item>)
    requires Consistent(u, items)
    ensures Standard(u, LabelsOf(items), items)
  {
    forall k | 0 <= k < |items| && items[k].IfaceItem?
      ensures items[k] == ItemFor(u, LabelsOf(items), items[k].iface)
    {
      var i := items[k].iface;
      if i in LabelsOf(items) {
        var j := LabelComesFrom(items, i);
        assert SameIface(items[j], items[k]);
      } else if items[k].implements != "" {
        LabelIsKept(items, k);
      }
    }
  }

  /** Lists of standard items that include every labelled one have its labels. */
  lemma LabelsAgain(u: Interfaces, labels: Labels, items: seq<Item>)
    requires Standard(u, labels, items)
    requires forall i :: i in labels ==> labels[i] != "" && i in Declared(items)
    ensures LabelsOf(items) == labels
  {
    var again := LabelsOf(items);
    forall i ensures i in again <==> i in labels
      ensures i in again ==> i in labels && again[i] == labels[i]
    {
      if i in again {
        var k := LabelComesFrom(items, i);
        assert items[k] == ItemFor(u, labels, items[k].iface);
      }
      if i in labels {
        var k :| 0 <= k < |items| && items[k].IfaceItem? && items[k].iface == i;
        assert items[k] == ItemFor(u, labels, i);
        LabelIsKept(items, k);
      }
    }
  }

  lemma DeclaredConcat(a: seq<Item>, b: seq<Item>)
    ensures Declared(a + b) == Declared(a) + Declared(b)
  {
    forall i ensures i in Declared(a + b) <==> i in Declared(a) + Declared(b) {
      if i in Declared(b) {
        var k :| 0 <= k < |b| && b[k].IfaceItem? && b[k].iface == i;
        assert (a + b)[|a| + k] == b[k];
      }
      if i in Declared(a) {
        var k :| 0 <= k < |a| && a[k].IfaceItem? && a[k].iface == i;
        assert (a + b)[k] == a[k];
      }
    }
  }

  // ----- what a successful elaboration gives

  /** The interfaces a list declares occur in it once each. */
  ghost predicate NoRepeats(items: seq<Item>) {
    forall j, k :: 0 <= j < k < |items| ==> !SameIface(items[j], items[k])
  }

  ghost predicate Elaborated(u: Interfaces, w: World, w': World) {
    // Imports come after all they depend on, none twice.
    && WellPlaced(u, w'.imports)
    // Exports come after the exports they depend on, none twice; what else
    // they depend on is imported.
    && ExportsPlaced(u, Declared(w.exports), Declared(w'.imports), w'.exports)
    // What is imported is what the uses and imports reach, and what exports
    // reach through an interface that is not exported.
    && (forall x :: x in Declared(w'.imports) <==>
                    ReachedFrom(u, ImportRoots(w), x) || Tainted(u, Declared(w.exports), x))
    // What is exported is what the world said.
    && Declared(w'.exports) == Declared(w.exports)
    // Funcs stay as they were, in order.
    && Funcs(w'.imports) == Funcs(w.imports) && Funcs(w'.exports) == Funcs(w.exports)
    // An interface is listed by its name and label.
    && Standard(u, AllLabels(w), w'.imports) && Standard(u, AllLabels(w), w'.exports)
    && w'.uses == w.uses
  }

  lemma ElaborateGives(u: Interfaces, w: World)
    requires Valid(u) && WorldBelow(u, w) && Elaborate(u, w).Ok?
    ensures Elaborated(u, w, Elaborate(u, w).value)
  {
    hide Finished, Elaborated, Elaborate;
    Outcome(u, w);
    FinishedGives(u, w, FirstPass(u, w), LastPass(u, w));
  }

  lemma FinishedGives(u: Interfaces, w: World, first: Lists, st: Lists)
    requires Finished(u, w, first, st)
    ensures Elaborated(u, w, World(w.uses, st.imports, st.exports))
  {
    hide Acyclic, Closed, Standard, Declared, Funcs, LabelsOf, Conflict, WellPlaced, Tainted, ReachedFrom, ExportsPlaced, RequiredValid;
    FinishedLists(u, w, first, st);
    SettledExact(u, st);
    ReadyToExport(u, w, first);
    assert st.imported == Declared(st.imports);
    ExportsPlacedMore(u, st.exported, st.required, st.imported, st.exports);
    forall x ensures x in Declared(st.imports) <==>
        ReachedFrom(u, ImportRoots(w), x) || Tainted(u, Declared(w.exports), x)
    {
      assert x in st.imported <==> x in first.imported || x in st.required;
    }
  }

  // ----- no item is lost

  lemma {:induction false} FuncIsKept(items: seq<Item>, x: Item)
    requires x.FuncItem?
    ensures multiset(items)[x] == multiset(Funcs(items))[x]
  {
    if items != [] {
      var last := |items| - 1;
      FuncIsKept(items[..last], x);
      assert items == items[..last] + [items[last]];
    }
  }

  lemma {:induction false} OneCopy(items: seq<Item>, x: Item)
    requires NoRepeats(items) && x.IfaceItem?
    ensures multiset(items)[x] == if x in items then 1 else 0
  {
    if items != [] {
      var last := |items| - 1;
      var init := items[..last];
      assert NoRepeats(init) by {
        forall j, k | 0 <= j < k < |init| ensures !SameIface(init[j], init[k]) {
          assert !SameIface(items[j], items[k]);
        }
      }
      OneCopy(init, x);
      assert items == init + [items[last]];
      forall j | 0 <= j < last ensures init[j] != x || items[last] != x {
        assert !SameIface(items[j], items[last]);
      }
    }
  }

  /** Two lists of the same funcs and the same interfaces, none twice, are
      permutations of one another. */
  lemma SameItems(u: Interfaces, labels: Labels, a: seq<Item>, b: seq<Item>)
    requires Standard(u, labels, a) && Standard(u, labels, b) && NoRepeats(a) && NoRepeats(b)
    requires Declared(a) == Declared(b) && Funcs(a) == Funcs(b)
    ensures multiset(a) == multiset(b)
  {
    forall x ensures multiset(a)[x] == multiset(b)[x] {
      if x.FuncItem? {
        FuncIsKept(a, x);
        FuncIsKept(b, x);
      } else {
        OneCopy(a, x);
        OneCopy(b, x);
        StandardIn(u, labels, a, x);
        StandardIn(u, labels, b, x);
      }
    }
  }

  lemma StandardIn(u: Interfaces, labels: Labels, items: seq<Item>, x: Item)
    requires Standard(u, labels, items) && x.IfaceItem?
    ensures x in items <==> x.iface in Declared(items) && x.iface < |u.names| && x == ItemFor(u, labels, x.iface)
  {
    if x in items {
      var k :| 0 <= k < |items| && items[k] == x;
      assert x.iface in Declared(items);
    }
    if x.iface in Declared(items) {
      var k :| 0 <= k < |items| && items[k].IfaceItem? && items[k].iface == x.iface;
      assert items[k] == ItemFor(u, labels, x.iface);
    }
  }

  lemma PlacedExportsOnce(u: Interfaces, declared: set<nat>, required: set<nat>, exports: seq<Item>)
    requires ExportsPlaced(u, declared, required, exports)
    ensures NoRepeats(exports)
  {
    forall j, k | 0 <= j < k < |exports| ensures !SameIface(exports[j], exports[k]) {
      assert ExportAt(u, declared, required, exports, k);
      assert exports[..k][j] == exports[j];
    }
  }

  lemma StandardParts(u: Interfaces, labels: Labels, a: seq<Item>, b: seq<Item>)
    requires Standard(u, labels, a + b)
    ensures Standard(u, labels, a) && Standard(u, labels, b)
  {
    forall k | 0 <= k < |a| && a[k].IfaceItem? ensures a[k].iface < |u.names| && a[k] == ItemFor(u, labels, a[k].iface) {
      assert (a + b)[k] == a[k];
    }
    forall k | 0 <= k < |b| && b[k].IfaceItem? ensures b[k].iface < |u.names| && b[k] == ItemFor(u, labels, b[k].iface) {
      assert (a + b)[|a| + k] == b[k];
    }
  }

  /** Every import the world had is still there, and its exports are the ones
      it had, in an order that may differ. */
  lemma ElaborateKeeps(u: Interfaces, w: World)
    requires Valid(u) && WorldBelow(u, w) && Elaborate(u, w).Ok?
    requires Consistent(u, w.imports + w.exports) && NoRepeats(w.exports)
    ensures var w' := Elaborate(u, w).value;
            && (forall x :: x in w.imports ==> x in w'.imports)
            && multiset(w'.exports) == multiset(w.exports)
  {
    hide Elaborate, Acyclic, Closed, WorldBelow, Tainted, LabelsOf;
    ElaborateGives(u, w);
    var w', labels := Elaborate(u, w).value, AllLabels(w);
    ConsistentIsStandard(u, w.imports + w.exports);
    StandardParts(u, labels, w.imports, w.exports);
    PlacedExportsOnce(u, Declared(w.exports), Declared(w'.imports), w'.exports);
    SameItems(u, labels, w'.exports, w.exports);
    forall x | x in w.imports ensures x in w'.imports {
      KeepsImport(u, w, w', x);
    }
  }

  lemma KeepsImport(u: Interfaces, w: World, w': World, x: Item)
    requires WorldBelow(u, w) && |u.names| == |u.deps|
    requires Elaborated(u, w, w') && Standard(u, AllLabels(w), w.imports) && x in w.imports
    ensures x in w'.imports
  {
    hide Funcs, LabelsOf, WellPlaced, ExportsPlaced, Tainted;
    if x.FuncItem? {
      FuncIsKept(w.imports, x);
      FuncIsKept(w'.imports, x);
      assert multiset(w'.imports)[x] > 0;
    } else {
      StandardIn(u, AllLabels(w), w.imports, x);
      StandardIn(u, AllLabels(w), w'.imports, x);
      ReachesSelf(GraphOf(u), x.iface);
      assert ReachedFrom(u, ImportRoots(w), x.iface);
    }
  }

  // ----- elaborating again

  lemma {:induction false} AlreadyImported(u: Interfaces, labels: Labels, st: Lists, ds: seq<nat>)
    requires Valid(u) && Below(u, ds) && forall d :: d in ds ==> d in st.imported
    ensures AddImports(u, labels, st, ds) == Ok(st)
  {
    if ds != [] {
      AlreadyImported(u, labels, st, ds[1..]);
    }
  }

  /** Importing an interface whose dependencies are all there adds just it. */
  lemma ImportAddsOne(u: Interfaces, labels: Labels, st: Lists, i: nat)
    requires Valid(u) && MayFollow(u, st.imported, i)
    ensures AddImport(u, labels, st, i) ==
            Ok(st.(imported := st.imported + {i}, imports := st.imports + [ItemFor(u, labels, i)]))
  {
    DepsRankLower(u, i);
    AlreadyImported(u, labels, st.(imported := st.imported + {i}), u.deps[i].value);
  }

  ghost predicate Resumable(u: Interfaces, labels: Labels, st: Lists, full: seq<Item>, k: nat) {
    && WellPlaced(u, full) && Standard(u, labels, full)
    && k <= |st.imports| && st.imports <= full && st.imported == Declared(st.imports)
    && forall j :: k <= j < |st.imports| ==> full[j].IfaceItem?
  }

  /** Importing a well placed list again lists the same items in the same order. */
  lemma {:induction false} ImportAgain(u: Interfaces, labels: Labels, st: Lists, full: seq<Item>, k: nat)
    requires Valid(u) && ItemsBelow(u, full) && Resumable(u, labels, st, full, k)
    ensures ImportItems(u, labels, st, full[k..]) == Ok(st.(imports := full, imported := Declared(full)))
    decreases |full| - k
  {
    hide Acyclic, Closed, WellPlaced, Standard;
    if k == |full| {
      assert st.imports == full;
    } else {
      var x, rest := full[k], full[k..][1..];
      assert rest == full[k + 1..];
      var st' := st;
      if k == |st.imports| {
        assert st.imports == full[..k] && full[..k + 1] == full[..k] + [x];
        DeclaredAppend(st.imports, x);
        st' := st.(imports := full[..k + 1], imported := Declared(full[..k + 1]));
        ResumesAt(u, labels, full, k);
        if x.IfaceItem? {
          ImportAddsOne(u, labels, st, x.iface);
        } else {
          assert Declared(full[..k + 1]) == st.imported;
        }
      } else {
        assert st.imports[k] == x && x.iface in Declared(st.imports);
      }
      ImportAgain(u, labels, st', full, k + 1);
    }
  }

  lemma ResumesAt(u: Interfaces, labels: Labels, full: seq<Item>, k: nat)
    requires WellPlaced(u, full) && Standard(u, labels, full) && k < |full|
    ensures full[k].IfaceItem? ==>
              && MayFollow(u, Declared(full[..k]), full[k].iface)
              && full[k].iface < |u.names| && full[k] == ItemFor(u, labels, full[k].iface)
  {
    assert PlacedAt(u, full, k);
  }

  /** Nothing is added to a list that declares all there is to add. */
  lemma NothingToAdd(u: Interfaces, labels: Labels, before: seq<Item>, after: seq<Item>, from: set<nat>)
    requires Grown(u, labels, before, after, from) && WellPlaced(u, after) && Declared(after) <= Declared(before)
    ensures after == before
  {
    if |after| > |before| {
      FirstNewIsNew(u, labels, before, after, from);
    }
  }

  lemma FirstNewIsNew(u: Interfaces, labels: Labels, before: seq<Item>, after: seq<Item>, from: set<nat>)
    requires Grown(u, labels, before, after, from) && WellPlaced(u, after) && |before| < |after|
    ensures exists x :: x in Declared(after) && x !in Declared(before)
  {
    var k := |before|;
    assert PlacedAt(u, after, k) && NewItem(u, labels, after[k], from);
    assert after[..k] == before;
    assert after[k].iface in Declared(after);
  }

  ghost predicate AllImported(u: Interfaces, declared: set<nat>, st: Lists) {
    forall x :: Tainted(u, declared, x) ==> x in st.imported
  }

  /** An interface that has to be imported, and is, changes neither list. */
  lemma RequireAgain(u: Interfaces, labels: Labels, declared: set<nat>, st: Lists, i: nat)
    requires Valid(u) && i < |u.names| && ListsValid(u, declared, st) && AllImported(u, declared, st)
    requires Tainted(u, declared, i) && !Conflict(u, declared) && !Unreadable(u, {i})
    ensures var r := AddExport(u, labels, declared, st, i, false);
            && r.Ok? && ListsValid(u, declared, r.value)
            && r.value.imports == st.imports && r.value.imported == st.imported
            && r.value.exports == st.exports && r.value.exported == st.exported
  {
    hide Acyclic, Closed, WellPlaced, Grown, Declared, Tainted, Conflict, Unreadable, ExportsPlaced, RequiredValid;
    ExportPlaces(u, labels, declared, st, i, false);
    var r := AddExport(u, labels, declared, st, i, false);
    forall x | x in r.value.required ensures x in st.imported {
      RequiredTaints(u, declared, r.value.required, x);
    }
    NothingToAdd(u, labels, st.imports, r.value.imports, {i});
  }

  ghost predicate DepsReady(u: Interfaces, declared: set<nat>, st: Lists, ds: seq<nat>) {
    forall k :: 0 <= k < |ds| ==>
                  if ds[k] in declared then ds[k] in st.exported
                  else Tainted(u, declared, ds[k]) && !Unreadable(u, {ds[k]})
  }

  lemma {:induction false} DepsAgain(u: Interfaces, labels: Labels, declared: set<nat>, st: Lists, ds: seq<nat>)
    requires Valid(u) && Below(u, ds) && ListsValid(u, declared, st) && AllImported(u, declared, st)
    requires !Conflict(u, declared) && DepsReady(u, declared, st, ds)
    ensures var r := AddExports(u, labels, declared, st, ds, true);
            && r.Ok? && ListsValid(u, declared, r.value)
            && r.value.imports == st.imports && r.value.imported == st.imported
            && r.value.exports == st.exports && r.value.exported == st.exported
    decreases |ds|
  {
    hide Acyclic, Closed, ListsValid, Tainted, Conflict, Unreadable;
    if ds != [] {
      var d := ds[0];
      var st' := st;
      if d !in declared {
        RequireAgain(u, labels, declared, st, d);
        st' := AddExport(u, labels, declared, st, d, false).value;
      }
      DepsAgain(u, labels, declared, st', ds[1..]);
    }
  }

  /** Exporting an interface whose exported dependencies are there adds just it. */
  lemma ExportAddsOne(u: Interfaces, labels: Labels, declared: set<nat>, required: set<nat>, st: Lists, i: nat)
    requires Valid(u) && i < |u.names| && i in declared && ListsValid(u, declared, st) && AllImported(u, declared, st)
    requires !Conflict(u, declared) && !Unreadable(u, declared)
    requires ExportMayFollow(u, declared, required, Declared(st.exports), i)
    ensures var r := AddExport(u, labels, declared, st, i, true);
            && r.Ok? && ListsValid(u, declared, r.value)
            && r.value.imports == st.imports && r.value.imported == st.imported
            && r.value.exports == st.exports + [ItemFor(u, labels, i)]
  {
    hide Acyclic, Closed, ImportsValid, ExportsPlaced, RequiredValid, Tainted, Conflict, Declared, Grown;
    var ds := u.deps[i].value;
    DepsRankLower(u, i);
    DepsFlagged(u, declared, i, true);
    DepsReached(u, i);
    forall k | 0 <= k < |ds| ensures !Unreadable(u, {ds[k]}) {
      if Unreadable(u, {ds[k]}) {
        UnreadableThrough(u, {i}, {ds[k]});
        UnreadablePart(u, declared, {i});
      }
    }
    DepsAgain(u, labels, declared, st, ds);
    ExportPlaces(u, labels, declared, st, i, true);
    var r := AddExport(u, labels, declared, st, i, true);
    if r.Err? && r.error == Excluded {
      UnreadablePart(u, declared, {i});
    }
  }

  /** Exporting a list again whose exports are placed lists the same exports in
      the same order, and imports nothing more. */
  lemma {:induction false} ExportAgain(u: Interfaces, labels: Labels, declared: set<nat>, required: set<nat>,
                                       st: Lists, full: seq<Item>, k: nat)
    requires Valid(u) && ItemsBelow(u, full) && Standard(u, labels, full) && Declared(full) <= declared
    requires ExportsPlaced(u, declared, required, full) && !Conflict(u, declared) && !Unreadable(u, declared)
    requires ListsValid(u, declared, st) && AllImported(u, declared, st)
    requires k <= |full| && st.exports == full[..k]
    ensures var r := ExportItems(u, labels, declared, st, full[k..]);
            r.Ok? && r.value.imports == st.imports && r.value.exports == full
    decreases |full| - k
  {
    hide Acyclic, Closed, ListsValid, ExportsPlaced, Standard, Tainted, Conflict, Unreadable, Declared;
    if k == |full| {
      assert full[..k] == full;
    } else {
      var x := full[k];
      assert full[k..][1..] == full[k + 1..] && full[..k + 1] == full[..k] + [x];
      ExportsAt(u, labels, declared, required, full, k);
      if x.FuncItem? {
        FuncStays(u, declared, st, x);
        ExportAgain(u, labels, declared, required, st.(exports := full[..k + 1]), full, k + 1);
      } else {
        ExportAddsOne(u, labels, declared, required, st, x.iface);
        ExportAgain(u, labels, declared, required, AddExport(u, labels, declared, st, x.iface, true).value, full, k + 1);
      }
    }
  }

  lemma FuncStays(u: Interfaces, declared: set<nat>, st: Lists, x: Item)
    requires x.FuncItem? && ListsValid(u, declared, st)
    ensures ListsValid(u, declared, st.(exports := st.exports + [x]))
  {
    hide WellPlaced, Declared, RequiredValid, ExportsPlaced;
    DeclaredAppend(st.exports, x);
    ExportsPlacedAppend(u, declared, st.required, st.exports, x);
  }

  lemma ExportsAt(u: Interfaces, labels: Labels, declared: set<nat>, required: set<nat>, full: seq<Item>, k: nat)
    requires ExportsPlaced(u, declared, required, full) && Standard(u, labels, full) && k < |full|
    requires Declared(full) <= declared
    ensures full[k].IfaceItem? ==>
              && ExportMayFollow(u, declared, required, Declared(full[..k]), full[k].iface)
              && full[k].iface in declared
              && full[k].iface < |u.names| && full[k] == ItemFor(u, labels, full[k].iface)
  {
    assert ExportAt(u, declared, required, full, k);
    if full[k].IfaceItem? {
      assert full[k].iface in Declared(full);
    }
  }

  lemma ElaboratedBelow(u: Interfaces, w: World, w': World)
    requires WorldBelow(u, w) && Elaborated(u, w, w')
    ensures WorldBelow(u, w')
  {
    hide WellPlaced, ExportsPlaced, Funcs, LabelsOf, Tainted, ReachedFrom;
  }

  lemma SameLabels(u: Interfaces, w: World, w': World)
    requires Valid(u) && WorldBelow(u, w) && Elaborated(u, w, w')
    ensures AllLabels(w') == AllLabels(w)
  {
    hide Acyclic, Closed, WellPlaced, ExportsPlaced, Funcs, LabelsOf, Tainted, Standard;
    var labels, items := AllLabels(w), w'.imports + w'.exports;
    DeclaredConcat(w.imports, w.exports);
    DeclaredConcat(w'.imports, w'.exports);
    forall i | i in labels ensures labels[i] != "" && i in Declared(items) {
      var k := LabelComesFrom(w.imports + w.exports, i);
      assert i in Declared(w.imports) + Declared(w.exports);
      if i in Declared(w.imports) {
        ReachesSelf(GraphOf(u), i);
        assert ReachedFrom(u, ImportRoots(w), i);
      }
    }
    StandardJoins(u, labels, w'.imports, w'.exports);
    LabelsAgain(u, labels, items);
  }

  lemma StandardJoins(u: Interfaces, labels: Labels, a: seq<Item>, b: seq<Item>)
    requires Standard(u, labels, a) && Standard(u, labels, b)
    ensures Standard(u, labels, a + b)
  {
  }

  /** Where the second run stands after its import pass: w' with no exports yet. */
  ghost function Reimported(w': World): Lists {
    Lists(w'.imports, Declared(w'.imports), [], {}, {})
  }

  lemma FirstPassAgain(u: Interfaces, w: World)
    requires Valid(u) && WorldBelow(u, w) && Elaborate(u, w).Ok?
    ensures var w' := Elaborate(u, w).value;
            && WorldBelow(u, w') && AllLabels(w') == AllLabels(w)
            && ImportPass(u, w') == Ok(Reimported(w'))
  {
    var labels, ds := AllLabels(w), w.uses.value;
    var st := AddImports(u, labels, Nothing, ds).value;
    assert ImportItems(u, labels, st, w.imports) == Ok(FirstPass(u, w));
    hide Elaborate, Acyclic, Closed, LabelsOf, ImportItems, AddImports, WellPlaced, ExportsPlaced, Standard, Funcs, Declared, Tainted, ReachedFrom;
    var w' := Elaborate(u, w).value;
    ElaborateGives(u, w);
    Outcome(u, w);
    ElaboratedBelow(u, w, w');
    SameLabels(u, w, w');
    UsesPlaced(u, labels, ds);
    ImportItemsPlace(u, labels, st, w.imports);
    assert st.imports <= w'.imports;
    assert st.imported == Declared(st.imports);
    assert Resumable(u, labels, st, w'.imports, 0);
    ImportAgain(u, labels, st, w'.imports, 0);
    assert w'.imports[0..] == w'.imports;
  }

  lemma SecondPassAgain(u: Interfaces, w: World, w': World)
    requires Valid(u) && WorldBelow(u, w) && WorldBelow(u, w') && Elaborated(u, w, w')
    requires !Conflict(u, Declared(w.exports)) && !Unreadable(u, Declared(w.exports))
    ensures var r := ExportItems(u, AllLabels(w), Declared(w'.exports), Reimported(w'), w'.exports);
            r.Ok? && r.value.imports == w'.imports && r.value.exports == w'.exports
  {
    hide Acyclic, Closed, LabelsOf, WellPlaced, ExportsPlaced, Standard, Funcs, Declared, Tainted, ReachedFrom, Conflict, Unreadable;
    var st, declared := Reimported(w'), Declared(w.exports);
    assert ListsValid(u, declared, st) by { NothingPlaced(u, declared); }
    ExportAgain(u, AllLabels(w), declared, Declared(w'.imports), st, w'.exports, 0);
    assert w'.exports[0..] == w'.exports;
  }

  lemma NothingPlaced(u: Interfaces, declared: set<nat>)
    ensures Declared([]) == {} && ExportsPlaced(u, declared, {}, []) && RequiredValid(u, declared, {})
  {
  }

  /** Elaborating an elaborated world changes neither its lists nor their order. */
  lemma ElaborateAgain(u: Interfaces, w: World)
    requires Valid(u) && WorldBelow(u, w) && Elaborate(u, w).Ok?
    ensures var w' := Elaborate(u, w).value;
            WorldBelow(u, w') && Elaborate(u, w') == Ok(w')
  {
    var w' := Elaborate(u, w).value;
    assert w'.uses == w.uses;
    hide Acyclic, Closed, Elaborated, LabelsOf, ImportPass, Conflict, Unreadable, ExportItems;
    ElaborateGives(u, w);
    ElaborateSucceedsIff(u, w);
    FirstPassAgain(u, w);
    if Unreadable(u, Declared(w.exports)) {
      UnreadablePart(u, Roots(w), Declared(w.exports));
    }
    SecondPassAgain(u, w, w');
  }
}
