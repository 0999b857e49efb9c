/** The order of an elaborated world's items: they come in stages, one for each use
    and for each item the world lists, in that order (component/wit/resolve.go). */
module ElaborationOrder {
  import opened Results
  import opened DepGraphs
  import opened Elaboration
  import opened ElaborationLaws

  /** The first m imports are exactly what is reached from some interfaces, and
      these funcs. */
  ghost predicate ImportStage(u: Interfaces, items: seq<Item>, m: nat, from: set<nat>, funcs: seq<Item>) {
    && m <= |items| && Funcs(items[..m]) == funcs
    && forall x :: x in Declared(items[..m]) <==> ReachedFrom(u, from, x)
  }

  // ----- the import pass, cut in two

  lemma {:induction false} UsesSplit(u: Interfaces, labels: Labels, st: Lists, ds: seq<nat>, j: nat)
    requires Valid(u) && Below(u, ds) && j <= |ds| && AddImports(u, labels, st, ds).Ok?
    ensures Below(u, ds[..j]) && Below(u, ds[j..]) && AddImports(u, labels, st, ds[..j]).Ok?
    ensures AddImports(u, labels, st, ds) == AddImports(u, labels, AddImports(u, labels, st, ds[..j]).value, ds[j..])
    decreases j
  {
    hide AddImport, AddImports, Valid;
    if j == 0 {
      assert ds[j..] == ds && ds[..j] == [];
      ImportsNext(u, labels, st, [], 0);
    } else {
      var head, rest := ds[..j], ds[1..];
      assert ds[0..] == ds && head[0..] == head && head[1..] == rest[..j - 1] && ds[j..] == rest[j - 1..];
      ImportsNext(u, labels, st, ds, 0);
      ImportsNext(u, labels, st, head, 0);
      SameCount(u);
      UsesSplit(u, labels, AddImport(u, labels, st, ds[0]).value, rest, j - 1);
    }
  }

  lemma {:induction false} ItemsSplit(u: Interfaces, labels: Labels, st: Lists, items: seq<Item>, k: nat)
    requires Valid(u) && ItemsBelow(u, items) && k <= |items| && ImportItems(u, labels, st, items).Ok?
    ensures ItemsBelow(u, items[..k]) && ItemsBelow(u, items[k..]) && ImportItems(u, labels, st, items[..k]).Ok?
    ensures ImportItems(u, labels, st, items) == ImportItems(u, labels, ImportItems(u, labels, st, items[..k]).value, items[k..])
    decreases k
  {
    hide AddImport, Valid;
    if k == 0 {
      assert items[k..] == items && items[..k] == [];
    } else {
      assert items[..k][1..] == items[1..][..k - 1] && items[k..] == items[1..][k - 1..];
      if items[0].FuncItem? {
        ItemsSplit(u, labels, st.(imports := st.imports + [items[0]]), items[1..], k - 1);
      } else {
        ItemsSplit(u, labels, AddImport(u, labels, st, items[0].iface).value, items[1..], k - 1);
      }
    }
  }

  // ----- what each part imports

  lemma StageIs(u: Interfaces, items: seq<Item>, from: set<nat>, funcs: seq<Item>)
    requires WellPlaced(u, items) && from <= Declared(items) && Funcs(items) == funcs
    requires forall x :: x in Declared(items) ==> ReachedFrom(u, from, x)
    ensures ImportStage(u, items, |items|, from, funcs)
  {
    hide WellPlaced, Declared, Funcs;
    assert items[..|items|] == items;
    forall x | ReachedFrom(u, from, x) ensures x in Declared(items) {
      var a :| a in from && Reaches(GraphOf(u), a, x);
      PlacedClosed(u, items, a, x);
    }
  }

  /** A stage of some of the imports is a stage of all of them. */
  lemma StageStays(u: Interfaces, items: seq<Item>, more: seq<Item>, m: nat, from: set<nat>, funcs: seq<Item>)
    requires ImportStage(u, items, m, from, funcs) && items <= more
    ensures ImportStage(u, more, m, from, funcs)
  {
    hide Declared, Funcs, ReachedFrom;
    assert more[..m] == items[..m];
  }

  lemma UsesStage(u: Interfaces, labels: Labels, ds: seq<nat>, st: Lists)
    requires Valid(u) && Below(u, ds) && AddImports(u, labels, Nothing, ds) == Ok(st)
    ensures UsesImported(u, labels, ds, st) && ImportStage(u, st.imports, |st.imports|, Set(ds), [])
  {
    hide Valid, WellPlaced, Standard, Funcs, Declared, Unreadable, ReachedFrom, Set, AddImports, ImportStage;
    UsesPlaced(u, labels, ds);
    StageIs(u, st.imports, Set(ds), []);
  }

  lemma ItemsStage(u: Interfaces, labels: Labels, ds: seq<nat>, first: Lists, items: seq<Item>, st: Lists)
    requires Valid(u) && ItemsBelow(u, items) && UsesImported(u, labels, ds, first) && ImportItems(u, labels, first, items) == Ok(st)
    ensures ItemsImported(u, labels, first, st, items)
    ensures ImportStage(u, st.imports, |st.imports|, Set(ds) + Declared(items), Funcs(items))
  {
    hide Valid, WellPlaced, Standard, Funcs, Declared, Unreadable, ReachedFrom, Set, ImportItems, ItemsBelow, ImportStage;
    ImportItemsPlace(u, labels, first, items);
    DeclaredGrows(first.imports, st.imports);
    var from := Set(ds) + Declared(items);
    forall x | x in Declared(st.imports) ensures ReachedFrom(u, from, x) {
      FromMore(u, Set(ds), from, x);
      FromMore(u, Declared(items), from, x);
    }
    assert [] + Funcs(items) == Funcs(items);
    StageIs(u, st.imports, from, Funcs(items));
  }

  lemma FromMore(u: Interfaces, some: set<nat>, all: set<nat>, x: nat)
    requires some <= all
    ensures ReachedFrom(u, some, x) ==> ReachedFrom(u, all, x)
  {
  }

  // ----- the stages of a world's imports

  /** What the first uses reach comes first; then, when all uses are done, what the
      first imports reach besides, with the funcs among them in their places. What
      the exports require comes last. */
  ghost predicate ImportsInStages(u: Interfaces, w: World, imports: seq<Item>) {
    && w.uses.Some?
    && (forall j :: 0 <= j <= |w.uses.value| ==> HasImportStage(u, imports, Set(w.uses.value[..j]), []))
    && forall k :: 0 <= k <= |w.imports| ==> HasImportStage(u, imports, Uses(w) + Declared(w.imports[..k]), Funcs(w.imports[..k]))
  }

  ghost predicate HasImportStage(u: Interfaces, imports: seq<Item>, from: set<nat>, funcs: seq<Item>) {
    exists m: nat :: ImportStage(u, imports, m, from, funcs)
  }

  lemma UseStageAt(u: Interfaces, labels: Labels, ds: seq<nat>, first: Lists, j: nat) returns (m: nat)
    requires Valid(u) && Below(u, ds) && j <= |ds| && AddImports(u, labels, Nothing, ds) == Ok(first)
    ensures ImportStage(u, first.imports, m, Set(ds[..j]), [])
  {
    hide Valid, Below, ImportStage, AddImports, Set, UsesImported;
    UsesSplit(u, labels, Nothing, ds, j);
    var st := AddImports(u, labels, Nothing, ds[..j]).value;
    UsesStage(u, labels, ds[..j], st);
    m := |st.imports|;
    UsesAreValid(u, labels, ds[..j], st);
    ImportsOnly(u, labels, st, ds[j..]);
    StageStays(u, st.imports, first.imports, m, Set(ds[..j]), []);
  }

  lemma ImportsOnly(u: Interfaces, labels: Labels, st: Lists, ds: seq<nat>)
    requires Valid(u) && Below(u, ds) && ImportsValid(u, st, {}) && AddImports(u, labels, st, ds).Ok?
    ensures st.imports <= AddImports(u, labels, st, ds).value.imports
  {
    hide Valid, ImportsValid, AddImports, Declared, Set;
    ImportsPlace(u, labels, st, ds, {});
  }

  lemma ItemStageAt(u: Interfaces, labels: Labels, ds: seq<nat>, first: Lists, items: seq<Item>, last: Lists, k: nat) returns (m: nat)
    requires Valid(u) && ItemsBelow(u, items) && k <= |items|
    requires UsesImported(u, labels, ds, first) && ImportItems(u, labels, first, items) == Ok(last)
    ensures ImportStage(u, last.imports, m, Set(ds) + Declared(items[..k]), Funcs(items[..k]))
  {
    hide Valid, ItemsBelow, ImportStage, ImportItems, Set, UsesImported, Declared, Funcs, ItemsImported;
    ItemsSplit(u, labels, first, items, k);
    var st := ImportItems(u, labels, first, items[..k]).value;
    ItemsStage(u, labels, ds, first, items[..k], st);
    m := |st.imports|;
    ItemsOnly(u, labels, first, st, items[..k], items[k..]);
    StageStays(u, st.imports, last.imports, m, Set(ds) + Declared(items[..k]), Funcs(items[..k]));
  }

  lemma ItemsOnly(u: Interfaces, labels: Labels, first: Lists, st: Lists, done: seq<Item>, items: seq<Item>)
    requires Valid(u) && ItemsBelow(u, items) && ItemsImported(u, labels, first, st, done) && ImportItems(u, labels, st, items).Ok?
    ensures st.imports <= ImportItems(u, labels, st, items).value.imports
  {
    hide Valid, ItemsBelow, ImportItems, ImportsValid, Standard, Funcs, Declared;
    ImportItemsPlace(u, labels, st, items);
  }

  lemma PassesOf(u: Interfaces, w: World) returns (first: Lists, mid: Lists)
    requires Valid(u) && WorldBelow(u, w) && Elaborate(u, w).Ok?
    ensures w.uses.Some? && Below(u, w.uses.value) && ItemsBelow(u, w.imports)
    ensures AddImports(u, AllLabels(w), Nothing, w.uses.value) == Ok(first)
    ensures ImportItems(u, AllLabels(w), first, w.imports) == Ok(mid) && mid == FirstPass(u, w)
    ensures mid.imports <= Elaborate(u, w).value.imports
  {
    hide AddImports, ImportItems, ExportItems, LabelsOf, Valid, Declared, ItemsBelow, Below, ImportsExact, Standard, ListsValid, Funcs;
    first := AddImports(u, AllLabels(w), Nothing, w.uses.value).value;
    mid := ImportItems(u, AllLabels(w), first, w.imports).value;
    Outcome(u, w);
  }

  lemma ImportsComeInStages(u: Interfaces, w: World)
    requires Valid(u) && WorldBelow(u, w) && Elaborate(u, w).Ok?
    ensures ImportsInStages(u, w, Elaborate(u, w).value.imports)
  {
    hide AddImports, ImportItems, Elaborate, LabelsOf, Valid, Declared, ItemsBelow, Below, UsesImported, ImportStage, Set, Funcs, WorldBelow;
    var first, mid := PassesOf(u, w);
    var ds, labels, imports := w.uses.value, AllLabels(w), Elaborate(u, w).value.imports;
    UsesStage(u, labels, ds, first);
    ItemsStage(u, labels, ds, first, w.imports, mid);
    assert first.imports <= mid.imports && Uses(w) == Set(ds);
    forall j | 0 <= j <= |ds| ensures HasImportStage(u, imports, Set(ds[..j]), []) {
      var m := UseStageAt(u, labels, ds, first, j);
      StageStays(u, first.imports, imports, m, Set(ds[..j]), []);
    }
    forall k | 0 <= k <= |w.imports|
      ensures HasImportStage(u, imports, Uses(w) + Declared(w.imports[..k]), Funcs(w.imports[..k]))
    {
      var m := ItemStageAt(u, labels, ds, first, w.imports, mid, k);
      StageStays(u, mid.imports, imports, m, Set(ds) + Declared(w.imports[..k]), Funcs(w.imports[..k]));
    }
  }

  // ----- the stages of a world's exports

  /** p leads from a to x through interfaces the world exports. */
  ghost predicate ExportPath(u: Interfaces, declared: set<nat>, p: seq<nat>, a: nat, x: nat) {
    PathFromTo(GraphOf(u), p, a, x) && forall i :: 0 <= i < |p| ==> p[i] in declared
  }

  ghost predicate ExportReaches(u: Interfaces, declared: set<nat>, from: set<nat>, x: nat) {
    exists p: seq<nat> :: p != [] && p[0] in from && ExportPath(u, declared, p, p[0], x)
  }

  ghost predicate ExportStage(u: Interfaces, declared: set<nat>, items: seq<Item>, m: nat, from: set<nat>, funcs: seq<Item>) {
    && m <= |items| && Funcs(items[..m]) == funcs
    && forall x :: x in Declared(items[..m]) <==> ExportReaches(u, declared, from, x)
  }

  lemma ExportReachesStep(u: Interfaces, declared: set<nat>, i: nat, d: nat, x: nat)
    requires Valid(u) && i < |u.deps| && u.deps[i].Some? && d in u.deps[i].value && i in declared
    requires ExportReaches(u, declared, {d}, x)
    ensures ExportReaches(u, declared, {i}, x)
  {
    var p: seq<nat> :| p != [] && p[0] in {d} && ExportPath(u, declared, p, p[0], x);
    var q, g := [i] + p, GraphOf(u);
    forall k | 0 <= k < |q| - 1 ensures Step(g, q, k) {
      if k > 0 { assert Step(g, p, k - 1); }
    }
    assert ExportPath(u, declared, q, i, x);
  }

  lemma ExportReachesSelf(u: Interfaces, declared: set<nat>, i: nat)
    requires i < |u.deps| && i in declared
    ensures ExportReaches(u, declared, {i}, i)
  {
    assert ExportPath(u, declared, [i], [i][0], i);
  }

  /** Placing an interface as an export exports what it reaches through exported
      ones and nothing else; placing it as an import exports nothing. */
  lemma {:induction false} ExportAdds(u: Interfaces, labels: Labels, declared: set<nat>, st: Lists, i: nat, asExport: bool)
    requires Valid(u) && i < |u.names| && (asExport ==> i in declared)
    ensures var r := AddExport(u, labels, declared, st, i, asExport);
            r.Ok? ==>
              && st.exports <= r.value.exports
              && forall x :: x in r.value.exported && x !in st.exported ==> asExport && ExportReaches(u, declared, {i}, x)
    decreases Rank(u, i), 1
  {
    hide ExportReaches, Valid;
    SameCount(u);
    ExportIs(u, labels, declared, st, i, asExport);
    if i !in st.exported && (asExport || i !in st.required) && u.deps[i].Some? {
      DepsRankLower(u, i);
      ExportsAdd(u, labels, declared, st, u.deps[i].value, asExport);
      if asExport {
        ExportReachesSelf(u, declared, i);
        forall d, x | d in u.deps[i].value && ExportReaches(u, declared, {d}, x) ensures ExportReaches(u, declared, {i}, x) {
          ExportReachesStep(u, declared, i, d, x);
        }
      }
    }
  }

  lemma {:induction false} ExportsAdd(u: Interfaces, labels: Labels, declared: set<nat>, st: Lists, ds: seq<nat>, asExport: bool)
    requires Valid(u) && Below(u, ds)
    ensures var r := AddExports(u, labels, declared, st, ds, asExport);
            r.Ok? ==>
              && st.exports <= r.value.exports
              && forall x :: x in r.value.exported && x !in st.exported ==>
                               asExport && exists d :: d in ds && ExportReaches(u, declared, {d}, x)
    decreases Height(u, ds), 0, |ds|
  {
    hide ExportReaches;
    if ds != [] {
      SameCount(u);
      HeightAtMost(u, ds[1..], Height(u, ds));
      var first := asExport && ds[0] in declared;
      ExportAdds(u, labels, declared, st, ds[0], first);
      var r := AddExport(u, labels, declared, st, ds[0], first);
      if r.Ok? {
        ExportsAdd(u, labels, declared, r.value, ds[1..], asExport);
      }
    }
  }

  lemma {:induction false} ExportsSplit(u: Interfaces, labels: Labels, declared: set<nat>, st: Lists, items: seq<Item>, k: nat)
    requires Valid(u) && ItemsBelow(u, items) && k <= |items| && ExportItems(u, labels, declared, st, items).Ok?
    ensures ItemsBelow(u, items[..k]) && ItemsBelow(u, items[k..]) && ExportItems(u, labels, declared, st, items[..k]).Ok?
    ensures ExportItems(u, labels, declared, st, items) ==
            ExportItems(u, labels, declared, ExportItems(u, labels, declared, st, items[..k]).value, items[k..])
    decreases k
  {
    hide AddExport, Valid;
    if k == 0 {
      assert items[k..] == items && items[..k] == [];
    } else {
      assert items[..k][1..] == items[1..][..k - 1] && items[k..] == items[1..][k - 1..];
      if items[0].FuncItem? {
        ExportsSplit(u, labels, declared, st.(exports := st.exports + [items[0]]), items[1..], k - 1);
      } else {
        ExportsSplit(u, labels, declared, AddExport(u, labels, declared, st, items[0].iface, true).value, items[1..], k - 1);
      }
    }
  }

  /** The exports only grow, and by what the items reach through exported ones. */
  lemma {:induction false} ItemsExport(u: Interfaces, labels: Labels, declared: set<nat>, st: Lists, items: seq<Item>)
    requires Valid(u) && ItemsBelow(u, items) && Declared(items) <= declared && ExportItems(u, labels, declared, st, items).Ok?
    ensures var st' := ExportItems(u, labels, declared, st, items).value;
            && st.exports <= st'.exports
            && forall x :: x in st'.exported && x !in st.exported ==> ExportReaches(u, declared, Declared(items), x)
    decreases |items|
  {
    hide ExportReaches, AddExport, Valid, Declared;
    if items != [] {
      DeclaredHead(items);
      if items[0].FuncItem? {
        ItemsExport(u, labels, declared, st.(exports := st.exports + [items[0]]), items[1..]);
      } else {
        var i := items[0].iface;
        ExportAdds(u, labels, declared, st, i, true);
        ItemsExport(u, labels, declared, AddExport(u, labels, declared, st, i, true).value, items[1..]);
      }
      forall x ensures ExportReaches(u, declared, Declared(items[1..]), x) ==> ExportReaches(u, declared, Declared(items), x) {
        ExportFromMore(u, declared, Declared(items[1..]), Declared(items), x);
      }
      if items[0].IfaceItem? {
        forall x ensures ExportReaches(u, declared, {items[0].iface}, x) ==> ExportReaches(u, declared, Declared(items), x) {
          ExportFromMore(u, declared, {items[0].iface}, Declared(items), x);
        }
      }
    }
  }

  lemma ExportFromMore(u: Interfaces, declared: set<nat>, some: set<nat>, all: set<nat>, x: nat)
    requires some <= all
    ensures ExportReaches(u, declared, some, x) ==> ExportReaches(u, declared, all, x)
  {
    if ExportReaches(u, declared, some, x) {
      var p: seq<nat> :| p != [] && p[0] in some && ExportPath(u, declared, p, p[0], x);
      assert p != [] && p[0] in all;
    }
  }

  /** Whatever an export reaches through exported ones is exported with it. */
  lemma {:induction false} ExportPathStays(u: Interfaces, declared: set<nat>, required: set<nat>, exports: seq<Item>, p: seq<nat>, k: nat)
    requires ExportsPlaced(u, declared, required, exports) && k < |p| && p[0] in Declared(exports)
    requires ExportPath(u, declared, p, p[0], p[|p| - 1])
    ensures p[k] in Declared(exports)
  {
    if k > 0 {
      ExportPathStays(u, declared, required, exports, p, k - 1);
      assert Step(GraphOf(u), p, k - 1);
      var at :| 0 <= at < |exports| && exports[at].IfaceItem? && exports[at].iface == p[k - 1];
      assert ExportAt(u, declared, required, exports, at);
      DeclaredGrows(exports[..at], exports);
    }
  }

  lemma ExportStageIs(u: Interfaces, declared: set<nat>, required: set<nat>, items: seq<Item>, from: set<nat>, funcs: seq<Item>)
    requires ExportsPlaced(u, declared, required, items) && from <= Declared(items) && Funcs(items) == funcs
    requires forall x :: x in Declared(items) ==> ExportReaches(u, declared, from, x)
    ensures ExportStage(u, declared, items, |items|, from, funcs)
  {
    hide ExportsPlaced, Declared, Funcs, ExportReaches;
    assert items[..|items|] == items;
    forall x | ExportReaches(u, declared, from, x) ensures x in Declared(items) {
      ReachedIsExported(u, declared, required, items, from, x);
    }
  }

  lemma ReachedIsExported(u: Interfaces, declared: set<nat>, required: set<nat>, items: seq<Item>, from: set<nat>, x: nat)
    requires ExportsPlaced(u, declared, required, items) && from <= Declared(items) && ExportReaches(u, declared, from, x)
    ensures x in Declared(items)
  {
    hide ExportsPlaced, Declared;
    var p: seq<nat> :| p != [] && p[0] in from && ExportPath(u, declared, p, p[0], x);
    ExportPathStays(u, declared, required, items, p, |p| - 1);
  }

  lemma ExportStageStays(u: Interfaces, declared: set<nat>, items: seq<Item>, more: seq<Item>, m: nat, from: set<nat>, funcs: seq<Item>)
    requires ExportStage(u, declared, items, m, from, funcs) && items <= more
    ensures ExportStage(u, declared, more, m, from, funcs)
  {
    hide Declared, Funcs, ExportReaches;
    assert more[..m] == items[..m];
  }

  ghost predicate HasExportStage(u: Interfaces, declared: set<nat>, exports: seq<Item>, from: set<nat>, funcs: seq<Item>) {
    exists m: nat :: ExportStage(u, declared, exports, m, from, funcs)
  }

  /** For every k, the first k exports come with what they reach through exported
      ones, and nothing else, before any other. */
  ghost predicate ExportsInStages(u: Interfaces, w: World, exports: seq<Item>) {
    forall k :: 0 <= k <= |w.exports| ==>
                  HasExportStage(u, Declared(w.exports), exports, Declared(w.exports[..k]), Funcs(w.exports[..k]))
  }

  lemma ExportStageAt(u: Interfaces, w: World, mid: Lists, k: nat)
    requires Valid(u) && WorldBelow(u, w) && Elaborate(u, w).Ok? && mid == FirstPass(u, w) && k <= |w.exports|
    ensures HasExportStage(u, Declared(w.exports), Elaborate(u, w).value.exports, Declared(w.exports[..k]), Funcs(w.exports[..k]))
  {
    hide LabelsOf, Valid, Declared, ListsValid, Standard, Funcs, ExportItems, ItemsBelow, ExportStage, ImportPass, ItemsExported,
         ReachedFrom, ImportsValid;
    var labels, declared, items := AllLabels(w), Declared(w.exports), w.exports[..k];
    Outcome(u, w);
    ReadyToExport(u, w, mid);
    ExportsSplit(u, labels, declared, mid, w.exports, k);
    var st := ExportItems(u, labels, declared, mid, items).value;
    DeclaredGrows(items, w.exports);
    ExportItemsPlace(u, labels, declared, mid, items);
    ItemsExport(u, labels, declared, mid, items);
    ExportedSoFar(u, labels, declared, mid, st, items);
    RestDeclared(w.exports, k);
    ItemsExport(u, labels, declared, st, w.exports[k..]);
    ExportStageStays(u, declared, st.exports, Elaborate(u, w).value.exports, |st.exports|, Declared(items), Funcs(items));
  }

  lemma RestDeclared(items: seq<Item>, k: nat)
    requires k <= |items|
    ensures Declared(items[k..]) <= Declared(items)
  {
    DeclaredConcat(items[..k], items[k..]);
    assert items[..k] + items[k..] == items;
  }

  lemma ExportedSoFar(u: Interfaces, labels: Labels, declared: set<nat>, first: Lists, st: Lists, items: seq<Item>)
    requires SameExports(Nothing, first) && ItemsExported(u, labels, declared, first, st, items) && Funcs(first.exports) == []
    requires forall x :: x in st.exported && x !in first.exported ==> ExportReaches(u, declared, Declared(items), x)
    ensures ExportStage(u, declared, st.exports, |st.exports|, Declared(items), Funcs(items))
  {
    hide Standard, Declared, Funcs, RequiredValid, ExportsPlaced, ImportsValid, ExportReaches, ExportStage;
    assert [] + Funcs(items) == Funcs(items);
    ExportStageIs(u, declared, st.required, st.exports, Declared(items), Funcs(items));
  }

  /** An elaborated world's imports and exports come in the order the world gives,
      each with what it needs right before it. */
  lemma ItemsComeInStages(u: Interfaces, w: World)
    requires Valid(u) && WorldBelow(u, w) && Elaborate(u, w).Ok?
    ensures ImportsInStages(u, w, Elaborate(u, w).value.imports)
    ensures ExportsInStages(u, w, Elaborate(u, w).value.exports)
  {
    hide Valid, WorldBelow, Elaborate, ImportsInStages, HasExportStage, Declared, Funcs;
    ImportsComeInStages(u, w);
    forall k | 0 <= k <= |w.exports|
      ensures HasExportStage(u, Declared(w.exports), Elaborate(u, w).value.exports, Declared(w.exports[..k]), Funcs(w.exports[..k]))
    {
      ExportStageAt(u, w, FirstPass(u, w), k);
    }
  }
}
