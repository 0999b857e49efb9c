/** World elaboration (component/wit/resolve.go, elaborate): the interfaces a
world's interfaces need, each placed as an import or as an export.

The passes are written twice: as functions on the five lists and sets they
grow, which the theorems are about, and as the methods of a class that updates
those in place, which are proved to compute the functions.
*/
module Elaboration {
  import opened Results
  import opened DepGraphs

  /** The interfaces a world may reach: their names, and the interfaces whose
      types each uses. None is a scope with a use of an interface that a
      feature gate left out, whose dependencies cannot be listed. */
  datatype Interfaces = Interfaces(names: seq<string>, deps: seq<Option<seq<nat>>>)

  /** An import or export. implements is what an interface under a label of its
      own implements, and empty for any other. */
  datatype Item = FuncItem(name: string) | IfaceItem(name: string, iface: nat, implements: string)

  /** A world before or after elaboration; uses is what its own scope uses. */
  datatype World = World(uses: Option<seq<nat>>, imports: seq<Item>, exports: seq<Item>)

  datatype ElabError = Excluded | Incompatible

  /** What elaboration builds up. */
  datatype Lists = Lists(
    imports: seq<Item>, imported: set<nat>,
    exports: seq<Item>, exported: set<nat>, required: set<nat>)

  type Labels = map<nat, string>

  // ----- the interface graph

  ghost function GraphOf(u: Interfaces): (g: Graph)
    ensures |g| == |u.deps|
    ensures forall i :: 0 <= i < |g| ==> g[i] == if u.deps[i].Some? then u.deps[i].value else []
  {
    seq(|u.deps|, i requires 0 <= i < |u.deps| => if u.deps[i].Some? then u.deps[i].value else [])
  }

  ghost predicate Valid(u: Interfaces) {
    |u.names| == |u.deps| && Closed(GraphOf(u)) && Acyclic(GraphOf(u))
  }

  ghost function Rank(u: Interfaces, i: nat): nat
    requires Valid(u) && i < |u.deps|
  {
    RankOf(GraphOf(u))[i]
  }

  ghost predicate Below(u: Interfaces, ds: seq<nat>) {
    forall k :: 0 <= k < |ds| ==> ds[k] < |u.deps|
  }

  /** Above the rank of every one of ds, and no higher than need be. */
  ghost function Height(u: Interfaces, ds: seq<nat>): (h: nat)
    requires Valid(u) && Below(u, ds)
    ensures forall k :: 0 <= k < |ds| ==> Rank(u, ds[k]) < h
  {
    if ds == [] then 0
    else
      var h := Height(u, ds[1..]);
      assert forall k :: 1 <= k < |ds| ==> ds[k] == ds[1..][k - 1];
      if h > Rank(u, ds[0]) then h else Rank(u, ds[0]) + 1
  }

  lemma {:induction false} HeightAtMost(u: Interfaces, ds: seq<nat>, h: nat)
    requires Valid(u) && Below(u, ds) && forall k :: 0 <= k < |ds| ==> Rank(u, ds[k]) < h
    ensures Height(u, ds) <= h
  {
    if ds != [] {
      HeightAtMost(u, ds[1..], h);
    }
  }

  lemma DepsRankLower(u: Interfaces, i: nat)
    requires Valid(u) && i < |u.deps| && u.deps[i].Some?
    ensures Below(u, u.deps[i].value) && Height(u, u.deps[i].value) <= Rank(u, i)
  {
    var g, ds := GraphOf(u), u.deps[i].value;
    assert g[i] == ds;
    forall k | 0 <= k < |ds| ensures ds[k] < |u.deps| && Rank(u, ds[k]) < Rank(u, i) {
      assert ds[k] in g[i];
    }
    HeightAtMost(u, ds, Rank(u, i));
  }

  // ----- items

  function LabelsOf(items: seq<Item>): Labels {
    if items == [] then map[]
    else
      var last := items[|items| - 1];
      var before := LabelsOf(items[..|items| - 1]);
      if last.IfaceItem? && last.implements != "" then before[last.iface := last.implements] else before
  }

  function ItemFor(u: Interfaces, labels: Labels, i: nat): Item
    requires i < |u.names|
  {
    IfaceItem(u.names[i], i, if i in labels then labels[i] else "")
  }

  function Declared(items: seq<Item>): set<nat> {
    set k | 0 <= k < |items| && items[k].IfaceItem? :: items[k].iface
  }

  // ----- the import pass

  function AddImport(u: Interfaces, labels: Labels, st: Lists, i: nat): Result<Lists, ElabError>
    requires Valid(u) && i < |u.names|
    decreases Rank(u, i), 1
  {
    if i in st.imported then Ok(st)
    else if u.deps[i].None? then Err(Excluded)
    else
      DepsRankLower(u, i);
      match AddImports(u, labels, st.(imported := st.imported + {i}), u.deps[i].value)
      case Err(e) => Err(e)
      case Ok(st') => Ok(st'.(imports := st'.imports + [ItemFor(u, labels, i)]))
  }

  function AddImports(u: Interfaces, labels: Labels, st: Lists, ds: seq<nat>): Result<Lists, ElabError>
    requires Valid(u) && Below(u, ds)
    decreases Height(u, ds), 0, |ds|
  {
    if ds == [] then Ok(st)
    else
      HeightAtMost(u, ds[1..], Height(u, ds));
      match AddImport(u, labels, st, ds[0])
      case Err(e) => Err(e)
      case Ok(st') => AddImports(u, labels, st', ds[1..])
  }

  function ImportItems(u: Interfaces, labels: Labels, st: Lists, items: seq<Item>): Result<Lists, ElabError>
    requires Valid(u) && ItemsBelow(u, items)
    decreases |items|
  {
    if items == [] then Ok(st)
    else if items[0].FuncItem? then
      ImportItems(u, labels, st.(imports := st.imports + [items[0]]), items[1..])
    else
      match AddImport(u, labels, st, items[0].iface)
      case Err(e) => Err(e)
      case Ok(st') => ImportItems(u, labels, st', items[1..])
  }

  ghost predicate ItemsBelow(u: Interfaces, items: seq<Item>) {
    forall k :: 0 <= k < |items| && items[k].IfaceItem? ==> items[k].iface < |u.names|
  }

  // ----- the export pass

  /** What i needs goes into the lists before i does. Nothing becomes both an export
      and a required import: that is Incompatible. */
  function AddExport(u: Interfaces, labels: Labels, declared: set<nat>, st: Lists, i: nat, asExport: bool)
    : Result<Lists, ElabError>
    requires Valid(u) && i < |u.names|
    decreases Rank(u, i), 1
  {
    if i in st.exported then
      if asExport then Ok(st) else Err(Incompatible)
    else if !asExport && i in st.required then Ok(st)
    else if u.deps[i].None? then Err(Excluded)
    else
      DepsRankLower(u, i);
      match AddExports(u, labels, declared, st, u.deps[i].value, asExport)
      case Err(e) => Err(e)
      case Ok(st') =>
        if asExport && i in st'.required then Err(Incompatible)
        else Ok(Place(u, labels, st', i, asExport))
  }

  function Place(u: Interfaces, labels: Labels, st: Lists, i: nat, asExport: bool): Lists
    requires i < |u.names|
  {
    if asExport then
      st.(exported := st.exported + {i}, exports := st.exports + [ItemFor(u, labels, i)])
    else if i in st.imported then
      st.(required := st.required + {i})
    else
      st.(required := st.required + {i}, imported := st.imported + {i},
          imports := st.imports + [ItemFor(u, labels, i)])
  }

  function AddExports(u: Interfaces, labels: Labels, declared: set<nat>, st: Lists, ds: seq<nat>, asExport: bool)
    : Result<Lists, ElabError>
    requires Valid(u) && Below(u, ds)
    decreases Height(u, ds), 0, |ds|
  {
    if ds == [] then Ok(st)
    else
      HeightAtMost(u, ds[1..], Height(u, ds));
      match AddExport(u, labels, declared, st, ds[0], asExport && ds[0] in declared)
      case Err(e) => Err(e)
      case Ok(st') => AddExports(u, labels, declared, st', ds[1..], asExport)
  }

  function ExportItems(u: Interfaces, labels: Labels, declared: set<nat>, st: Lists, items: seq<Item>)
    : Result<Lists, ElabError>
    requires Valid(u) && ItemsBelow(u, items)
    decreases |items|
  {
    if items == [] then Ok(st)
    else if items[0].FuncItem? then
      ExportItems(u, labels, declared, st.(exports := st.exports + [items[0]]), items[1..])
    else
      match AddExport(u, labels, declared, st, items[0].iface, true)
      case Err(e) => Err(e)
      case Ok(st') => ExportItems(u, labels, declared, st', items[1..])
  }

  ghost predicate WorldBelow(u: Interfaces, w: World) {
    ItemsBelow(u, w.imports) && ItemsBelow(u, w.exports) && (w.uses.Some? ==> Below(u, w.uses.value))
  }

  const Nothing := Lists([], {}, [], {}, {})

  function ImportPass(u: Interfaces, w: World): Result<Lists, ElabError>
    requires Valid(u) && WorldBelow(u, w)
  {
    var labels := LabelsOf(w.imports + w.exports);
    if w.uses.None? then Err(Excluded)
    else
      match AddImports(u, labels, Nothing, w.uses.value)
      case Err(e) => Err(e)
      case Ok(st) => ImportItems(u, labels, st, w.imports)
  }

  function Elaborate(u: Interfaces, w: World): Result<World, ElabError>
    requires Valid(u) && WorldBelow(u, w)
  {
    match ImportPass(u, w)
    case Err(e) => Err(e)
    case Ok(st) =>
      match ExportItems(u, LabelsOf(w.imports + w.exports), Declared(w.exports), st, w.exports)
      case Err(e) => Err(e)
      case Ok(st') => Ok(World(w.uses, st'.imports, st'.exports))
  }

  // ----- the passes step by step

  lemma ImportIs(u: Interfaces, labels: Labels, st: Lists, i: nat)
    requires Valid(u) && i < |u.names|
    ensures u.deps[i].Some? ==> Below(u, u.deps[i].value)
    ensures AddImport(u, labels, st, i) ==
            if i in st.imported then Ok(st)
            else if u.deps[i].None? then Err(Excluded)
            else
              var r := AddImports(u, labels, st.(imported := st.imported + {i}), u.deps[i].value);
              if r.Err? then r else Ok(r.value.(imports := r.value.imports + [ItemFor(u, labels, i)]))
  {
    SameCount(u);
    hide AddImports, Valid;
    if u.deps[i].Some? {
      DepsRankLower(u, i);
    }
  }

  lemma ImportsNext(u: Interfaces, labels: Labels, st: Lists, ds: seq<nat>, k: nat)
    requires Valid(u) && Below(u, ds) && k <= |ds|
    ensures Below(u, ds[k..])
    ensures k == |ds| ==> AddImports(u, labels, st, ds[k..]) == Ok(st)
    ensures k < |ds| ==>
              && Below(u, ds[k + 1..])
              && AddImports(u, labels, st, ds[k..]) ==
                 var r := AddImport(u, labels, st, ds[k]);
                 if r.Err? then r else AddImports(u, labels, r.value, ds[k + 1..])
  {
    hide AddImport, Valid;
    if k < |ds| {
      assert ds[k..][1..] == ds[k + 1..];
    }
  }

  lemma ExportIs(u: Interfaces, labels: Labels, declared: set<nat>, st: Lists, i: nat, asExport: bool)
    requires Valid(u) && i < |u.names|
    ensures u.deps[i].Some? ==> Below(u, u.deps[i].value)
    ensures AddExport(u, labels, declared, st, i, asExport) ==
            if i in st.exported then if asExport then Ok(st) else Err(Incompatible)
            else if !asExport && i in st.required then Ok(st)
            else if u.deps[i].None? then Err(Excluded)
            else
              var r := AddExports(u, labels, declared, st, u.deps[i].value, asExport);
              if r.Err? then r
              else if asExport && i in r.value.required then Err(Incompatible)
              else Ok(Place(u, labels, r.value, i, asExport))
  {
    SameCount(u);
    hide AddExports, Valid;
    if u.deps[i].Some? {
      DepsRankLower(u, i);
    }
  }

  lemma ExportsNext(u: Interfaces, labels: Labels, declared: set<nat>, st: Lists, ds: seq<nat>, k: nat, asExport: bool)
    requires Valid(u) && Below(u, ds) && k <= |ds|
    ensures Below(u, ds[k..])
    ensures k == |ds| ==> AddExports(u, labels, declared, st, ds[k..], asExport) == Ok(st)
    ensures k < |ds| ==>
              && Below(u, ds[k + 1..])
              && AddExports(u, labels, declared, st, ds[k..], asExport) ==
                 var r := AddExport(u, labels, declared, st, ds[k], asExport && ds[k] in declared);
                 if r.Err? then r else AddExports(u, labels, declared, r.value, ds[k + 1..], asExport)
  {
    hide AddExport, Valid;
    if k < |ds| {
      assert ds[k..][1..] == ds[k + 1..];
    }
  }

  lemma ImportItemsNext(u: Interfaces, labels: Labels, st: Lists, items: seq<Item>, k: nat)
    requires Valid(u) && ItemsBelow(u, items) && k <= |items|
    ensures ItemsBelow(u, items[k..])
    ensures k == |items| ==> ImportItems(u, labels, st, items[k..]) == Ok(st)
    ensures k < |items| ==>
              && ItemsBelow(u, items[k + 1..]) && (items[k].IfaceItem? ==> items[k].iface < |u.names|)
              && ImportItems(u, labels, st, items[k..]) ==
                 if items[k].FuncItem? then ImportItems(u, labels, st.(imports := st.imports + [items[k]]), items[k + 1..])
                 else
                   var r := AddImport(u, labels, st, items[k].iface);
                   if r.Err? then r else ImportItems(u, labels, r.value, items[k + 1..])
  {
    hide AddImport, Valid;
    if k < |items| {
      assert items[k..][1..] == items[k + 1..];
    }
  }

  lemma ExportItemsNext(u: Interfaces, labels: Labels, declared: set<nat>, st: Lists, items: seq<Item>, k: nat)
    requires Valid(u) && ItemsBelow(u, items) && k <= |items|
    ensures ItemsBelow(u, items[k..])
    ensures k == |items| ==> ExportItems(u, labels, declared, st, items[k..]) == Ok(st)
    ensures k < |items| ==>
              && ItemsBelow(u, items[k + 1..]) && (items[k].IfaceItem? ==> items[k].iface < |u.names|)
              && ExportItems(u, labels, declared, st, items[k..]) ==
                 if items[k].FuncItem? then
                   ExportItems(u, labels, declared, st.(exports := st.exports + [items[k]]), items[k + 1..])
                 else
                   var r := AddExport(u, labels, declared, st, items[k].iface, true);
                   if r.Err? then r else ExportItems(u, labels, declared, r.value, items[k + 1..])
  {
    hide AddExport, Valid;
    if k < |items| {
      assert items[k..][1..] == items[k + 1..];
    }
  }

  lemma RankGoesDown(u: Interfaces, i: nat, k: nat)
    requires Valid(u) && i < |u.deps| && u.deps[i].Some? && k < |u.deps[i].value|
    ensures u.deps[i].value[k] < |u.names| && Rank(u, u.deps[i].value[k]) < Rank(u, i)
  {
    SameCount(u);
    hide Valid;
    DepsRankLower(u, i);
  }

  // ----- the same, in place

  ghost predicate GivesLabel(items: seq<Item>, k: nat, i: nat) {
    k < |items| && items[k].IfaceItem? && items[k].iface == i && items[k].implements != ""
  }

  /** Item k is the last that gives interface i a label. */
  ghost predicate LastLabel(items: seq<Item>, k: nat, i: nat) {
    GivesLabel(items, k, i) && forall j :: k < j < |items| ==> !GivesLabel(items, j, i)
  }

  /** An interface has a label exactly when some item gives it one, and then the
      last item that does decides. */
  lemma {:induction false} LabelIsLast(items: seq<Item>, i: nat)
    ensures i in LabelsOf(items) <==> exists k: nat :: GivesLabel(items, k, i)
    ensures forall k: nat :: LastLabel(items, k, i) ==> i in LabelsOf(items) && LabelsOf(items)[i] == items[k].implements
  {
    if items != [] {
      var last := |items| - 1;
      var init := items[..last];
      LabelIsLast(init, i);
      forall k: nat ensures GivesLabel(items, k, i) <==> GivesLabel(init, k, i) || (k == last && GivesLabel(items, last, i)) {}
      if GivesLabel(items, last, i) {
        forall k: nat | LastLabel(items, k, i) ensures k == last {}
      } else {
        forall k: nat | LastLabel(items, k, i) ensures LastLabel(init, k, i) {}
        if i in LabelsOf(init) {
          var k: nat :| GivesLabel(init, k, i);
          assert GivesLabel(items, k, i);
        }
      }
    }
  }

  /** Labels as the loop over a world's items collects them: each interface keeps
      the last one it is given. */
  method CollectLabels(items: seq<Item>) returns (labels: Labels)
    ensures labels == LabelsOf(items)
    ensures forall k: nat, i: nat :: LastLabel(items, k, i) ==> i in labels && labels[i] == items[k].implements
  {
    labels := map[];
    for k := 0 to |items|
      invariant labels == LabelsOf(items[..k])
    {
      assert items[..k + 1][..k] == items[..k];
      if items[k].IfaceItem? && items[k].implements != "" {
        labels := labels[items[k].iface := items[k].implements];
      }
    }
    assert items[..|items|] == items;
    forall k: nat, i: nat | LastLabel(items, k, i) ensures i in labels && labels[i] == items[k].implements {
      LabelIsLast(items, i);
    }
  }

  method CollectDeclared(items: seq<Item>) returns (declared: set<nat>)
    ensures declared == Declared(items)
  {
    declared := {};
    for k := 0 to |items|
      invariant declared == Declared(items[..k])
    {
      assert items[..k + 1] == items[..k] + [items[k]];
      forall i ensures i in Declared(items[..k + 1]) <==>
          i in Declared(items[..k]) || (items[k].IfaceItem? && items[k].iface == i)
      {
        if i in Declared(items[..k]) {
          var j :| 0 <= j < k && items[..k][j].IfaceItem? && items[..k][j].iface == i;
          assert items[..k + 1][j].iface == i;
        }
        if items[k].IfaceItem? && items[k].iface == i {
          assert items[..k + 1][k].iface == i;
        }
      }
      if items[k].IfaceItem? {
        declared := declared + {items[k].iface};
      }
    }
    assert items[..|items|] == items;
  }

  /** The state of one elaboration; its methods are the closures that share it. */
  class Elaborator {
    const u: Interfaces
    const labels: Labels
    const declared: set<nat>
    var imports: seq<Item>
    var imported: set<nat>
    var exports: seq<Item>
    var exported: set<nat>
    var required: set<nat>

    constructor (u: Interfaces, labels: Labels, declared: set<nat>)
      ensures this.u == u && this.labels == labels && this.declared == declared && State() == Nothing
    {
      this.u, this.labels, this.declared := u, labels, declared;
      imports, imported, exports, exported, required := [], {}, [], {}, {};
    }

    ghost function State(): Lists
      reads this
    {
      Lists(imports, imported, exports, exported, required)
    }

    /** The method ended as the function says. */
    ghost predicate Agrees(expected: Result<Lists, ElabError>, failed: Option<ElabError>)
      reads this
    {
      match expected
      case Ok(st) => failed.None? && State() == st
      case Err(e) => failed == Some(e)
    }

    /** Imports interface i, after the interfaces it depends on. */
    method PlaceImport(i: nat) returns (failed: Option<ElabError>)
      requires Valid(u) && i < |u.names|
      modifies `imports, `imported
      ensures Agrees(AddImport(u, labels, old(State()), i), failed)
      decreases Rank(u, i)
    {
      hide Valid, AddImport, AddImports, Rank, Below;
      ImportIs(u, labels, State(), i);
      if i in imported {
        return None;
      }
      imported := imported + {i};
      assert |u.names| == |u.deps| by { SameCount(u); }
      if u.deps[i].None? {
        return Some(Excluded);
      }
      var ds := u.deps[i].value;
      ghost var expected := AddImports(u, labels, State(), ds);
      assert ds[0..] == ds;
      for k := 0 to |ds|
        invariant Below(u, ds[k..]) && AddImports(u, labels, State(), ds[k..]) == expected
        invariant SameExports(old(State()))
      {
        ImportsNext(u, labels, State(), ds, k);
        RankGoesDown(u, i, k);
        failed := PlaceImport(ds[k]);
        if failed.Some? {
          return;
        }
      }
      ImportsNext(u, labels, State(), ds, |ds|);
      imports := imports + [ItemFor(u, labels, i)];
      failed := None;
    }

    ghost predicate SameExports(st: Lists)
      reads this
    {
      exports == st.exports && exported == st.exported && required == st.required
    }

    /** Computes AddExport in place; a failure leaves the lists part-way. */
    method PlaceExport(i: nat, asExport: bool) returns (failed: Option<ElabError>)
      requires Valid(u) && i < |u.names|
      modifies this
      ensures Agrees(AddExport(u, labels, declared, old(State()), i, asExport), failed)
      decreases Rank(u, i)
    {
      hide Valid, AddExport, AddExports, Rank, Below;
      ExportIs(u, labels, declared, State(), i, asExport);
      if i in exported {
        return if asExport then None else Some(Incompatible);
      }
      if !asExport && i in required {
        return None;
      }
      assert |u.names| == |u.deps| by { SameCount(u); }
      if u.deps[i].None? {
        return Some(Excluded);
      }
      var ds := u.deps[i].value;
      ghost var expected := AddExports(u, labels, declared, State(), ds, asExport);
      assert ds[0..] == ds;
      for k := 0 to |ds|
        invariant Below(u, ds[k..]) && AddExports(u, labels, declared, State(), ds[k..], asExport) == expected
      {
        ExportsNext(u, labels, declared, State(), ds, k, asExport);
        RankGoesDown(u, i, k);
        failed := PlaceExport(ds[k], asExport && ds[k] in declared);
        if failed.Some? {
          return;
        }
      }
      ExportsNext(u, labels, declared, State(), ds, |ds|, asExport);
      if asExport && i in required {
        return Some(Incompatible);
      }
      if asExport {
        exported := exported + {i};
        exports := exports + [ItemFor(u, labels, i)];
      } else {
        required := required + {i};
        if i !in imported {
          imported := imported + {i};
          imports := imports + [ItemFor(u, labels, i)];
        }
      }
      failed := None;
    }
  }

  lemma SameCount(u: Interfaces)
    requires Valid(u)
    ensures |u.names| == |u.deps|
  {
  }

  /** Elaborates a world by the shared lists and sets of an Elaborator. */
  method ElaborateWorld(u: Interfaces, w: World) returns (r: Result<World, ElabError>)
    requires Valid(u) && WorldBelow(u, w)
    ensures r == Elaborate(u, w)
  {
    hide Valid, AddImports, ImportItems, ExportItems, LabelsOf, Declared, ItemsBelow, Below;
    var labels := CollectLabels(w.imports + w.exports);
    var declared := CollectDeclared(w.exports);
    var e := new Elaborator(u, labels, declared);
    if w.uses.None? {
      return Err(Excluded);
    }
    var failed := ImportUses(e, w.uses.value);
    if failed.Some? {
      return Err(failed.value);
    }
    failed := ImportAll(e, w.imports);
    if failed.Some? {
      return Err(failed.value);
    }
    failed := ExportAll(e, w.exports);
    if failed.Some? {
      return Err(failed.value);
    }
    return Ok(World(w.uses, e.imports, e.exports));
  }

  method ImportUses(e: Elaborator, ds: seq<nat>) returns (failed: Option<ElabError>)
    requires Valid(e.u) && Below(e.u, ds)
    modifies e
    ensures e.Agrees(AddImports(e.u, e.labels, old(e.State()), ds), failed)
  {
    hide Valid, AddImport, AddImports;
    ghost var expected := AddImports(e.u, e.labels, e.State(), ds);
    assert ds[0..] == ds;
    for k := 0 to |ds|
      invariant Below(e.u, ds[k..]) && AddImports(e.u, e.labels, e.State(), ds[k..]) == expected
    {
      ImportsNext(e.u, e.labels, e.State(), ds, k);
      SameCount(e.u);
      failed := e.PlaceImport(ds[k]);
      if failed.Some? {
        return;
      }
    }
    ImportsNext(e.u, e.labels, e.State(), ds, |ds|);
    failed := None;
  }

  method ImportAll(e: Elaborator, items: seq<Item>) returns (failed: Option<ElabError>)
    requires Valid(e.u) && ItemsBelow(e.u, items)
    modifies e
    ensures e.Agrees(ImportItems(e.u, e.labels, old(e.State()), items), failed)
  {
    hide Valid, AddImport, ImportItems, ItemsBelow;
    ghost var expected := ImportItems(e.u, e.labels, e.State(), items);
    assert items[0..] == items;
    for k := 0 to |items|
      invariant ItemsBelow(e.u, items[k..]) && ImportItems(e.u, e.labels, e.State(), items[k..]) == expected
    {
      ImportItemsNext(e.u, e.labels, e.State(), items, k);
      if items[k].FuncItem? {
        e.imports := e.imports + [items[k]];
      } else {
        failed := e.PlaceImport(items[k].iface);
        if failed.Some? {
          return;
        }
      }
    }
    ImportItemsNext(e.u, e.labels, e.State(), items, |items|);
    failed := None;
  }

  method ExportAll(e: Elaborator, items: seq<Item>) returns (failed: Option<ElabError>)
    requires Valid(e.u) && ItemsBelow(e.u, items)
    modifies e
    ensures e.Agrees(ExportItems(e.u, e.labels, e.declared, old(e.State()), items), failed)
  {
    hide Valid, AddExport, ExportItems, ItemsBelow;
    ghost var expected := ExportItems(e.u, e.labels, e.declared, e.State(), items);
    assert items[0..] == items;
    for k := 0 to |items|
      invariant ItemsBelow(e.u, items[k..]) && ExportItems(e.u, e.labels, e.declared, e.State(), items[k..]) == expected
    {
      ExportItemsNext(e.u, e.labels, e.declared, e.State(), items, k);
      if items[k].FuncItem? {
        e.exports := e.exports + [items[k]];
      } else {
        failed := e.PlaceExport(items[k].iface, true);
        if failed.Some? {
          return;
        }
      }
    }
    ExportItemsNext(e.u, e.labels, e.declared, e.State(), items, |items|);
    failed := None;
  }
}
