/** How the imports and exports of a world come about (component/wit/resolve.go):
    its own, then what its includes bring in, renamed and merged. What elaboration
    needs of the lists holds of every list made this way. */
module WorldItems {
  import opened Results
  import opened DepGraphs
  import opened Elaboration
  import opened ElaborationLaws

  /** An interface. inline says that a world names it: it is written there, or is a
      copy under a label, which says what it implements. */
  datatype Iface = Iface(name: string, inline: bool, implements: string, deps: Option<seq<nat>>)

  type Table = seq<Iface>

  function InterfacesOf(t: Table): (u: Interfaces)
    ensures |u.names| == |u.deps| == |t|
    ensures forall i :: 0 <= i < |t| ==> u.names[i] == t[i].name && u.deps[i] == t[i].deps
  {
    Interfaces(seq(|t|, i requires 0 <= i < |t| => t[i].name), seq(|t|, i requires 0 <= i < |t| => t[i].deps))
  }

  /** Uses lead to interfaces of packages only. */
  ghost predicate UsesOk(t: Table, deps: Option<seq<nat>>) {
    deps.Some? ==> forall d :: d in deps.value ==> d < |t| && !t[d].inline
  }

  /** Interfaces of packages carry no label, and none depend in a cycle. */
  ghost predicate TableOk(t: Table) {
    && (forall i :: 0 <= i < |t| ==> UsesOk(t, t[i].deps) && (!t[i].inline ==> t[i].implements == ""))
    && Valid(InterfacesOf(t))
  }

  lemma TableGrows(t: Table, x: Iface)
    requires TableOk(t) && x.inline && UsesOk(t, x.deps)
    ensures TableOk(t + [x])
  {
    var t' := t + [x];
    var g, g' := GraphOf(InterfacesOf(t)), GraphOf(InterfacesOf(t'));
    forall i | 0 <= i < |t'| ensures UsesOk(t', t'[i].deps) && forall k :: 0 <= k < |g'[i]| ==> g'[i][k] < |t| {
      assert UsesOk(t, t'[i].deps);
      assert t'[i].deps.Some? ==> g'[i] == t'[i].deps.value;
      forall k | 0 <= k < |g'[i]| ensures g'[i][k] < |t| {
        assert g'[i][k] in g'[i];
      }
    }
    forall p ensures !Cycle(g', p) {
      if Cycle(g', p) {
        StaysBelow(g, g', p);
        assert Cycle(g, p);
      }
    }
  }

  /** No node depends on the new one, so it is on no cycle. */
  lemma StaysBelow(g: Graph, g': Graph, p: seq<nat>)
    requires |g'| == |g| + 1 && g'[..|g|] == g && Cycle(g', p)
    requires forall i, k :: 0 <= i < |g'| && 0 <= k < |g'[i]| ==> g'[i][k] < |g|
    ensures Path(g, p)
  {
    forall k | 0 <= k < |p| ensures p[k] < |g| {
      var m := if k == 0 then |p| - 1 else k;
      assert Step(g', p, m - 1);
    }
    forall k | 0 <= k < |p| - 1 ensures Step(g, p, k) {
      assert Step(g', p, k);
    }
  }

  // ----- items

  function ItemOf(t: Table, i: nat): Item
    requires i < |t|
  {
    IfaceItem(t[i].name, i, t[i].implements)
  }

  ghost predicate ItemsOk(t: Table, items: seq<Item>) {
    forall k :: 0 <= k < |items| && items[k].IfaceItem? ==> items[k].iface < |t| && items[k] == ItemOf(t, items[k].iface)
  }

  /** The items name interfaces as the table does, none twice. */
  ghost predicate ListOk(t: Table, items: seq<Item>) {
    ItemsOk(t, items) && NoRepeats(items)
  }

  lemma ListStays(t: Table, t': Table, items: seq<Item>)
    requires t <= t' && ItemsOk(t, items)
    ensures ItemsOk(t', items)
  {
    forall k | 0 <= k < |items| && items[k].IfaceItem?
      ensures items[k].iface < |t'| && items[k] == ItemOf(t', items[k].iface)
    {
      assert t'[items[k].iface] == t[items[k].iface];
    }
  }

  /** Whether the item is keyed by a name the world gives. */
  predicate Named(t: Table, x: Item) {
    x.FuncItem? || (x.iface < |t| && t[x.iface].inline)
  }

  /** One of a world's two lists, and the names taken in it. */
  datatype Side = Side(items: seq<Item>, keys: seq<string>)

  ghost predicate SideOk(t: Table, side: Side) {
    ListOk(t, side.items) && forall k :: 0 <= k < |side.items| && Named(t, side.items[k]) ==> side.items[k].name in side.keys
  }

  lemma SideStays(t: Table, t': Table, side: Side)
    requires t <= t' && SideOk(t, side)
    ensures SideOk(t', side)
  {
    ListStays(t, t', side.items);
    forall k | 0 <= k < |side.items| && Named(t', side.items[k]) ensures side.items[k].name in side.keys {
      assert Named(t, side.items[k]);
    }
  }

  function Append(t: Table, side: Side, x: Item): Side {
    Side(side.items + [x], if Named(t, x) then side.keys + [x.name] else side.keys)
  }

  lemma AppendOk(t: Table, side: Side, x: Item)
    requires SideOk(t, side) && (x.IfaceItem? ==> x.iface < |t| && x == ItemOf(t, x.iface) && x.iface !in Declared(side.items))
    ensures SideOk(t, Append(t, side, x))
  {
    var after := Append(t, side, x);
    forall j, k | 0 <= j < k < |after.items| ensures !SameIface(after.items[j], after.items[k]) {
      if k < |side.items| {
        assert !SameIface(side.items[j], side.items[k]);
      } else if x.IfaceItem? && side.items[j].IfaceItem? {
        assert side.items[j].iface in Declared(side.items);
      }
    }
    forall k | 0 <= k < |after.items| && Named(t, after.items[k]) ensures after.items[k].name in after.keys {
      if k < |side.items| {
        assert side.items[k].name in side.keys;
      }
    }
  }

  /** Adds what an include brings: an interface that is there already is merged;
      a name that is taken is refused. */
  function Add(t: Table, side: Side, x: Item): Option<Side> {
    if Named(t, x) then if x.name in side.keys then None else Some(Append(t, side, x))
    else if x.iface in Declared(side.items) then Some(side)
    else Some(Append(t, side, x))
  }

  /** A name that is not taken cannot be that of an interface already there. */
  lemma AddOk(t: Table, side: Side, x: Item)
    requires SideOk(t, side) && (x.IfaceItem? ==> x.iface < |t| && x == ItemOf(t, x.iface)) && Add(t, side, x).Some?
    ensures var after := Add(t, side, x).value;
            SideOk(t, after) && side.items <= after.items && x in after.items
            && forall y :: y in after.items ==> y in side.items || y == x
  {
    if x.IfaceItem? && x.iface in Declared(side.items) {
      var k :| 0 <= k < |side.items| && side.items[k].IfaceItem? && side.items[k].iface == x.iface;
      assert side.items[k] == x;
    } else {
      AppendOk(t, side, x);
    }
  }

  // ----- the names taken

  ghost predicate HasName(t: Table, items: seq<Item>, n: string) {
    exists k :: 0 <= k < |items| && Named(t, items[k]) && items[k].name == n
  }

  /** The names taken are those of the types and of the items that have one. */
  ghost predicate KeysSay(t: Table, side: Side, types: seq<string>) {
    forall n :: n in side.keys <==> n in types || HasName(t, side.items, n)
  }

  lemma HasNameStays(t: Table, t': Table, items: seq<Item>, n: string)
    requires t <= t' && ItemsOk(t, items)
    ensures HasName(t', items, n) <==> HasName(t, items, n)
  {
    if k :| 0 <= k < |items| && Named(t', items[k]) && items[k].name == n {
      assert Named(t, items[k]);
    }
    if k :| 0 <= k < |items| && Named(t, items[k]) && items[k].name == n {
      assert Named(t', items[k]);
    }
  }

  lemma KeysStay(t: Table, t': Table, side: Side, types: seq<string>)
    requires t <= t' && ItemsOk(t, side.items) && KeysSay(t, side, types)
    ensures KeysSay(t', side, types)
  {
    hide HasName, ItemsOk;
    forall n ensures n in side.keys <==> n in types || HasName(t', side.items, n) {
      HasNameStays(t, t', side.items, n);
    }
  }

  lemma HasOneMoreName(t: Table, items: seq<Item>, x: Item, n: string)
    ensures HasName(t, items + [x], n) <==> HasName(t, items, n) || (Named(t, x) && x.name == n)
  {
    var all := items + [x];
    if k :| 0 <= k < |items| && Named(t, items[k]) && items[k].name == n {
      assert all[k] == items[k];
    }
    if k :| 0 <= k < |all| && Named(t, all[k]) && all[k].name == n {
      assert k < |items| ==> all[k] == items[k];
    }
    if Named(t, x) && x.name == n {
      assert all[|items|] == x;
    }
  }

  lemma KeysAppend(t: Table, side: Side, types: seq<string>, x: Item)
    requires KeysSay(t, side, types)
    ensures KeysSay(t, Append(t, side, x), types)
  {
    hide HasName;
    forall n ensures n in Append(t, side, x).keys <==> n in types || HasName(t, side.items + [x], n) {
      HasOneMoreName(t, side.items, x, n);
    }
  }

  // ----- a world's own imports and exports

  /** An interface by its path, one written in place, one by its path under a
      label, or a func. found is whether the path leads to an interface that its
      gate keeps. */
  datatype Extern =
    | PathExtern(iface: nat, found: bool)
    | InlineExtern(name: string, deps: Option<seq<nat>>)
    | LabelExtern(name: string, iface: nat, found: bool)
    | FuncExtern(name: string)

  /** on is whether its own gate keeps it. */
  datatype Own = Own(exported: bool, what: Extern, on: bool)

  datatype Key = IfaceKey(iface: nat) | NameKey(name: string)

  function KeyOf(x: Extern): Key {
    match x
    case PathExtern(i, _) => IfaceKey(i)
    case InlineExtern(name, _) => NameKey(name)
    case LabelExtern(name, _, _) => NameKey(name)
    case FuncExtern(name) => NameKey(name)
  }

  /** No two imports, and no two exports, are the same interface or have the same
      name, and no import has a name that is taken. */
  ghost predicate KeysApart(taken: seq<string>, own: seq<Own>) {
    && (forall j, k :: 0 <= j < k < |own| && own[j].exported == own[k].exported ==> KeyOf(own[j].what) != KeyOf(own[k].what))
    && (forall k :: 0 <= k < |own| && !own[k].exported ==> FreeKey(taken, KeyOf(own[k].what)))
  }

  predicate FreeKey(taken: seq<string>, key: Key) {
    key.NameKey? ==> key.name !in taken
  }

  /** Two of a world's imports, or exports, are at odds: one interface by its path,
      or one name given twice. */
  ghost predicate AtOdds(a: Extern, b: Extern) {
    || (a.PathExtern? && b.PathExtern? && a.iface == b.iface)
    || (!a.PathExtern? && !b.PathExtern? && a.name == b.name)
  }

  lemma KeysApartIff(taken: seq<string>, own: seq<Own>)
    ensures KeysApart(taken, own) <==>
            && (forall j, k :: 0 <= j < k < |own| && own[j].exported == own[k].exported ==> !AtOdds(own[j].what, own[k].what))
            && forall k :: 0 <= k < |own| && !own[k].exported && !own[k].what.PathExtern? ==> own[k].what.name !in taken
  {
    forall a, b ensures KeyOf(a) == KeyOf(b) <==> AtOdds(a, b) {}
    hide KeyOf;
    forall k | 0 <= k < |own| ensures FreeKey(taken, KeyOf(own[k].what)) <==> (!own[k].what.PathExtern? ==> own[k].what.name !in taken) {
      FreeKeyIff(taken, own[k].what);
    }
  }

  lemma FreeKeyIff(taken: seq<string>, x: Extern)
    ensures FreeKey(taken, KeyOf(x)) <==> (!x.PathExtern? ==> x.name !in taken)
  {
  }

  /** The check of a world's keys. */
  method CheckKeys(taken: seq<string>, own: seq<Own>) returns (ok: bool)
    ensures ok <==> KeysApart(taken, own)
  {
    var seen: map<bool, set<Key>> := map[false := {}, true := {}];
    for k := 0 to |own|
      invariant seen.Keys == {false, true}
      invariant forall b: bool, key :: key in seen[b] <==> exists j :: 0 <= j < k && own[j].exported == b && KeyOf(own[j].what) == key
      invariant KeysApart(taken, own[..k])
    {
      var key, b := KeyOf(own[k].what), own[k].exported;
      if key in seen[b] || (!b && !FreeKey(taken, key)) {
        return false;
      }
      seen := seen[b := seen[b] + {key}];
    }
    assert own[..|own|] == own;
    return true;
  }

  /** The interface and the item an import or export makes. */
  function Make(t: Table, x: Extern): Option<(Table, Item)> {
    match x
    case PathExtern(i, found) => if found && i < |t| then Some((t, ItemOf(t, i))) else None
    case InlineExtern(name, deps) => Some((t + [Iface(name, true, "", deps)], IfaceItem(name, |t|, "")))
    case LabelExtern(name, i, found) =>
      if found && i < |t| then Some((t + [Iface(name, true, t[i].name, t[i].deps)], IfaceItem(name, |t|, t[i].name))) else None
    case FuncExtern(name) => Some((t, FuncItem(name)))
  }

  /** Paths lead to interfaces of packages, in the uses of an inline interface too. */
  ghost predicate ExternOk(t: Table, x: Extern) {
    match x
    case PathExtern(i, _) => i < |t| && !t[i].inline
    case InlineExtern(_, deps) => UsesOk(t, deps)
    case LabelExtern(_, i, _) => i < |t| && !t[i].inline
    case FuncExtern(_) => true
  }

  lemma ExternStays(t: Table, t': Table, x: Extern)
    requires t <= t' && ExternOk(t, x)
    ensures ExternOk(t', x)
  {
  }

  /** y is what x makes. */
  ghost predicate Makes(t: Table, x: Extern, y: Item) {
    match x
    case PathExtern(i, _) => i < |t| && y == ItemOf(t, i)
    case InlineExtern(name, deps) =>
      y.IfaceItem? && y.iface < |t| && y == ItemOf(t, y.iface) && t[y.iface] == Iface(name, true, "", deps)
    case LabelExtern(name, i, _) =>
      && y.IfaceItem? && y.iface < |t| && i < |t| && y == ItemOf(t, y.iface)
      && t[y.iface] == Iface(name, true, t[i].name, t[i].deps)
    case FuncExtern(name) => y == FuncItem(name)
  }

  lemma MakeOk(t: Table, x: Extern)
    requires TableOk(t) && ExternOk(t, x) && Make(t, x).Some?
    ensures var (t', y) := Make(t, x).value;
            && t <= t' && TableOk(t') && Makes(t', x, y)
            && (y.IfaceItem? ==> y.iface < |t'| && y == ItemOf(t', y.iface))
            && (y.IfaceItem? && t'[y.iface].inline ==> y.iface == |t|)
            && (y.IfaceItem? && !t'[y.iface].inline ==> KeyOf(x) == IfaceKey(y.iface))
  {
    hide Valid;
    var (t', y) := Make(t, x).value;
    if |t'| > |t| {
      TableGrows(t, t'[|t|]);
    }
  }

  lemma MakesStays(t: Table, t': Table, x: Extern, y: Item)
    requires t <= t' && Makes(t, x, y)
    ensures Makes(t', x, y)
  {
  }

  // ----- what a world has of its own

  /** The items of a list that x is in. */
  ghost function ListFor(imports: seq<Item>, exports: seq<Item>, exported: bool): seq<Item> {
    if exported then exports else imports
  }

  ghost predicate MadeIn(t: Table, x: Own, items: seq<Item>) {
    exists y :: y in items && Makes(t, x.what, y)
  }

  /** Everything of its own that its gate keeps is in its list. */
  ghost predicate HasOwn(t: Table, own: seq<Own>, imports: seq<Item>, exports: seq<Item>) {
    forall j :: 0 <= j < |own| && own[j].on ==> MadeIn(t, own[j], ListFor(imports, exports, own[j].exported))
  }

  ghost predicate MadeBy(t: Table, own: seq<Own>, exported: bool, y: Item) {
    exists j :: 0 <= j < |own| && own[j].on && own[j].exported == exported && Makes(t, own[j].what, y)
  }

  lemma HasOwnStays(t: Table, t': Table, own: seq<Own>, imports: seq<Item>, exports: seq<Item>,
                    imports': seq<Item>, exports': seq<Item>)
    requires t <= t' && HasOwn(t, own, imports, exports)
    requires (forall y :: y in imports ==> y in imports') && forall y :: y in exports ==> y in exports'
    ensures HasOwn(t', own, imports', exports')
  {
    forall j | 0 <= j < |own| && own[j].on ensures MadeIn(t', own[j], ListFor(imports', exports', own[j].exported)) {
      assert MadeIn(t, own[j], ListFor(imports, exports, own[j].exported));
      var y :| y in ListFor(imports, exports, own[j].exported) && Makes(t, own[j].what, y);
      MakesStays(t, t', own[j].what, y);
    }
  }

  lemma MadeByStays(t: Table, t': Table, own: seq<Own>, more: seq<Own>, exported: bool, y: Item)
    requires t <= t' && own <= more && MadeBy(t, own, exported, y)
    ensures MadeBy(t', more, exported, y)
  {
    var j :| 0 <= j < |own| && own[j].on && own[j].exported == exported && Makes(t, own[j].what, y);
    MakesStays(t, t', own[j].what, y);
    assert more[j] == own[j];
  }

  /** Nothing is in the list but what own makes, and at first some funcs. */
  ghost predicate OnlyOwn(t: Table, funcs: seq<Item>, own: seq<Own>, exported: bool, items: seq<Item>) {
    forall y :: y in items ==> y in funcs || MadeBy(t, own, exported, y)
  }

  lemma OnlyOwnStays(t: Table, t': Table, funcs: seq<Item>, own: seq<Own>, more: seq<Own>, exported: bool, items: seq<Item>)
    requires t <= t' && own <= more && OnlyOwn(t, funcs, own, exported, items)
    ensures OnlyOwn(t', funcs, more, exported, items)
  {
    forall y | y in items && y !in funcs ensures MadeBy(t', more, exported, y) {
      MadeByStays(t, t', own, more, exported, y);
    }
  }

  ghost predicate AllFuncs(items: seq<Item>) {
    forall k :: 0 <= k < |items| ==> items[k].FuncItem?
  }

  lemma PathHasKey(t: Table, funcs: seq<Item>, own: seq<Own>, exported: bool, items: seq<Item>, i: nat) returns (j: nat)
    requires ItemsOk(t, items) && AllFuncs(funcs) && OnlyOwn(t, funcs, own, exported, items)
    requires i in Declared(items) && i < |t| && !t[i].inline
    ensures j < |own| && own[j].exported == exported && KeyOf(own[j].what) == IfaceKey(i)
  {
    var y :| y in items && y.IfaceItem? && y.iface == i;
    assert MadeBy(t, own, exported, y);
    j :| 0 <= j < |own| && own[j].on && own[j].exported == exported && Makes(t, own[j].what, y);
  }

  /** An interface that the check let through is not in the list yet. */
  lemma NotThereYet(t: Table, t': Table, taken: seq<string>, funcs: seq<Item>, own: seq<Own>, k: nat, side: Side, y: Item)
    requires k < |own| && KeysApart(taken, own) && TableOk(t) && ExternOk(t, own[k].what)
    requires Make(t, own[k].what) == Some((t', y)) && y.IfaceItem?
    requires SideOk(t, side) && AllFuncs(funcs) && OnlyOwn(t, funcs, own[..k], own[k].exported, side.items)
    ensures y.iface !in Declared(side.items)
  {
    hide TableOk, OnlyOwn, Makes, ExternOk;
    MakeOk(t, own[k].what);
    if !t'[y.iface].inline && y.iface in Declared(side.items) {
      var j := PathHasKey(t, funcs, own[..k], own[k].exported, side.items, y.iface);
    }
  }

  // ----- what an include brings in

  /** What an include's renames make of a name, if anything. */
  type Rename = string -> Option<string>

  function NewName(rename: Rename, name: string): string {
    match rename(name)
    case None => name
    case Some(to) => to
  }

  /** A renamed interface is a copy under the new name; one named by its path keeps
      its name. */
  function RenameItem(t: Table, x: Item, rename: Rename): (Table, Item) {
    if x.FuncItem? then (t, FuncItem(NewName(rename, x.name)))
    else if x.iface < |t| && t[x.iface].inline && rename(x.name).Some? then
      var name := rename(x.name).value;
      (t + [Iface(name, true, x.implements, t[x.iface].deps)], IfaceItem(name, |t|, x.implements))
    else (t, x)
  }

  /** y is x as an include brings it in. */
  ghost predicate Comes(t: Table, rename: Rename, x: Item, y: Item) {
    if x.FuncItem? then y == FuncItem(NewName(rename, x.name))
    else if x.iface < |t| && t[x.iface].inline && rename(x.name).Some? then
      && y.IfaceItem? && y.iface < |t| && y == ItemOf(t, y.iface)
      && t[y.iface] == Iface(rename(x.name).value, true, x.implements, t[x.iface].deps)
    else y == x
  }

  lemma RenameOk(t: Table, x: Item, rename: Rename)
    requires TableOk(t) && (x.IfaceItem? ==> x.iface < |t| && x == ItemOf(t, x.iface))
    ensures var (t', y) := RenameItem(t, x, rename);
            && t <= t' && TableOk(t') && Comes(t', rename, x, y)
            && (y.IfaceItem? ==> y.iface < |t'| && y == ItemOf(t', y.iface))
            && (Named(t', y) <==> Named(t, x))
            && y.name == if Named(t, x) then NewName(rename, x.name) else x.name
  {
    hide Valid;
    var (t', y) := RenameItem(t, x, rename);
    if |t'| > |t| {
      assert UsesOk(t, t[x.iface].deps);
      TableGrows(t, t'[|t|]);
    }
  }

  lemma ComesStays(t: Table, t': Table, rename: Rename, x: Item, y: Item)
    requires t <= t' && (x.IfaceItem? ==> x.iface < |t|) && Comes(t, rename, x, y)
    ensures Comes(t', rename, x, y)
  {
  }

  function BringAll(t: Table, side: Side, items: seq<Item>, rename: Rename): Option<(Table, Side)> {
    if items == [] then Some((t, side))
    else
      var last := |items| - 1;
      match BringAll(t, side, items[..last], rename)
      case None => None
      case Some((t1, side1)) =>
        var (t2, y) := RenameItem(t1, items[last], rename);
        match Add(t2, side1, y)
        case None => None
        case Some(side2) => Some((t2, side2))
  }

  ghost predicate ComesIn(t: Table, rename: Rename, x: Item, items: seq<Item>) {
    exists y :: y in items && Comes(t, rename, x, y)
  }

  ghost predicate AllCome(t: Table, rename: Rename, from: seq<Item>, items: seq<Item>) {
    forall x :: x in from ==> ComesIn(t, rename, x, items)
  }

  ghost predicate ComesFrom(t: Table, rename: Rename, from: seq<Item>, y: Item) {
    exists x :: x in from && Comes(t, rename, x, y)
  }

  lemma ComesInStays(t: Table, t': Table, rename: Rename, x: Item, items: seq<Item>, items': seq<Item>)
    requires t <= t' && (x.IfaceItem? ==> x.iface < |t|) && ComesIn(t, rename, x, items)
    requires forall y :: y in items ==> y in items'
    ensures ComesIn(t', rename, x, items')
  {
    var y :| y in items && Comes(t, rename, x, y);
    ComesStays(t, t', rename, x, y);
  }

  lemma ComesFromStays(t: Table, t': Table, rename: Rename, from: seq<Item>, y: Item)
    requires t <= t' && ItemsOk(t, from) && ComesFrom(t, rename, from, y)
    ensures ComesFrom(t', rename, from, y)
  {
    var x :| x in from && Comes(t, rename, x, y);
    ComesStays(t, t', rename, x, y);
  }

  /** The names under which the named ones of items come. */
  function NewNames(t: Table, items: seq<Item>, rename: Rename): seq<string> {
    if items == [] then []
    else
      var last := |items| - 1;
      NewNames(t, items[..last], rename) + if Named(t, items[last]) then [NewName(rename, items[last].name)] else []
  }

  /** All of items get in, renamed, with nothing else, and what was there stays. */
  ghost predicate Brought(t: Table, side: Side, items: seq<Item>, rename: Rename, t': Table, side': Side) {
    && t <= t' && TableOk(t') && SideOk(t', side')
    && side.items <= side'.items && side'.keys == side.keys + NewNames(t, items, rename)
    && AllCome(t', rename, items, side'.items)
    && forall y :: y in side'.items ==> y in side.items || ComesFrom(t', rename, items, y)
  }

  lemma {:induction false} BringAllOk(t: Table, side: Side, items: seq<Item>, rename: Rename)
    requires TableOk(t) && SideOk(t, side) && ItemsOk(t, items)
    ensures BringAll(t, side, items, rename).Some? ==>
              var (t', side') := BringAll(t, side, items, rename).value;
              Brought(t, side, items, rename, t', side')
  {
    if items != [] {
      var last := |items| - 1;
      BringAllOk(t, side, items[..last], rename);
      var before := BringAll(t, side, items[..last], rename);
      if before.Some? {
        BringOneOk(t, side, items, rename, before.value.0, before.value.1);
      }
    }
  }

  lemma OneMoreComes(t: Table, t': Table, rename: Rename, init: seq<Item>, x: Item, y: Item,
                     first: seq<Item>, before: seq<Item>, after: seq<Item>)
    requires t <= t' && ItemsOk(t, init) && AllCome(t, rename, init, before) && Comes(t', rename, x, y)
    requires forall z :: z in before ==> z in first || ComesFrom(t, rename, init, z)
    requires (forall z :: z in before ==> z in after) && y in after && forall z :: z in after ==> z in before || z == y
    ensures AllCome(t', rename, init + [x], after)
    ensures forall z :: z in after ==> z in first || ComesFrom(t', rename, init + [x], z)
  {
    hide Comes;
    forall z | z in init ensures ComesIn(t', rename, z, after) {
      ComesInStays(t, t', rename, z, before, after);
    }
    forall z | z in after && z !in first ensures ComesFrom(t', rename, init + [x], z) {
      if z == y {
        assert x in init + [x];
      } else {
        ComesFromStays(t, t', rename, init, z);
        var w :| w in init && Comes(t', rename, w, z);
        assert w in init + [x];
      }
    }
  }

  lemma BringOneOk(t: Table, side: Side, items: seq<Item>, rename: Rename, t1: Table, side1: Side)
    requires items != [] && ItemsOk(t, items) && Brought(t, side, items[..|items| - 1], rename, t1, side1)
    ensures var (t2, y) := RenameItem(t1, items[|items| - 1], rename);
            Add(t2, side1, y).Some? ==> Brought(t, side, items, rename, t2, Add(t2, side1, y).value)
  {
    hide TableOk, SideOk, RenameItem, Comes, AllCome, ComesFrom;
    var init, x := items[..|items| - 1], items[|items| - 1];
    ListStays(t, t1, items);
    assert items == init + [x] && ItemsOk(t1, init);
    RenameOk(t1, x, rename);
    var (t2, y) := RenameItem(t1, x, rename);
    SideStays(t1, t2, side1);
    if Add(t2, side1, y).Some? {
      var side2 := Add(t2, side1, y).value;
      AddOk(t2, side1, y);
      OneMoreComes(t1, t2, rename, init, x, y, side.items, side1.items, side2.items);
      assert Named(t1, x) <==> Named(t, x);
    }
  }

  lemma {:induction false} BroughtKeys(t: Table, side: Side, items: seq<Item>, rename: Rename, types: seq<string>)
    requires TableOk(t) && SideOk(t, side) && ItemsOk(t, items) && KeysSay(t, side, types) && BringAll(t, side, items, rename).Some?
    ensures var (t', side') := BringAll(t, side, items, rename).value; KeysSay(t', side', types)
  {
    hide TableOk, SideOk, KeysSay, RenameItem, Brought;
    if items != [] {
      var init, x := items[..|items| - 1], items[|items| - 1];
      assert ItemsOk(t, init);
      BroughtKeys(t, side, init, rename, types);
      BringAllOk(t, side, init, rename);
      var (t1, side1) := BringAll(t, side, init, rename).value;
      WhatWasBrought(t, side, init, rename, t1, side1);
      ListStays(t, t1, items);
      RenameOk(t1, x, rename);
      var (t2, y) := RenameItem(t1, x, rename);
      KeysStay(t1, t2, side1, types);
      KeysAppend(t2, side1, types, y);
    }
  }

  lemma WhatWasBrought(t: Table, side: Side, items: seq<Item>, rename: Rename, t': Table, side': Side)
    requires Brought(t, side, items, rename, t', side')
    ensures t <= t' && TableOk(t') && ItemsOk(t', side'.items)
  {
  }

  /** None of names is among keys, and none occurs twice. */
  ghost predicate Fresh(keys: seq<string>, names: seq<string>) {
    Distinct(names) && forall k :: 0 <= k < |names| ==> names[k] !in keys
  }

  /** Item k comes under the name n: it is a func, or an interface that a world
      named, and that is its name once renamed. */
  ghost predicate ComesAs(t: Table, items: seq<Item>, k: nat, rename: Rename, n: string) {
    && k < |items| && (items[k].FuncItem? || (items[k].iface < |t| && t[items[k].iface].inline))
    && n == match rename(items[k].name) { case None => items[k].name case Some(to) => to }
  }

  ghost predicate NoneTaken(t: Table, items: seq<Item>, rename: Rename, keys: seq<string>) {
    forall k: nat, n :: ComesAs(t, items, k, rename, n) ==> n !in keys
  }

  ghost predicate NoneTwice(t: Table, items: seq<Item>, rename: Rename) {
    forall j: nat, k: nat, n :: j < k && ComesAs(t, items, j, rename, n) ==> !ComesAs(t, items, k, rename, n)
  }

  lemma {:induction false} NewNameComes(t: Table, items: seq<Item>, rename: Rename, n: string)
    ensures n in NewNames(t, items, rename) <==> exists k: nat :: ComesAs(t, items, k, rename, n)
  {
    if items != [] {
      var last := |items| - 1;
      var init := items[..last];
      NewNameComes(t, init, rename, n);
      forall k: nat | k < last ensures ComesAs(t, items, k, rename, n) <==> ComesAs(t, init, k, rename, n) {}
      if k: nat :| ComesAs(t, init, k, rename, n) {
        assert ComesAs(t, items, k, rename, n);
      }
      if k: nat :| ComesAs(t, items, k, rename, n) {
        assert k < last ==> ComesAs(t, init, k, rename, n);
      }
      if Named(t, items[last]) && n == NewName(rename, items[last].name) {
        assert ComesAs(t, items, last, rename, n);
      }
    }
  }

  /** The names an include brings are free exactly when none is taken and none
      comes twice. */
  lemma {:induction false} FreshIff(t: Table, items: seq<Item>, rename: Rename, keys: seq<string>)
    ensures Fresh(keys, NewNames(t, items, rename)) <==> NoneTaken(t, items, rename, keys) && NoneTwice(t, items, rename)
  {
    hide Fresh;
    if items == [] {
      assert Fresh(keys, []) by { NothingIsFresh(keys); }
    } else {
      var last := |items| - 1;
      var init, n := items[..last], NewName(rename, items[last].name);
      FreshIff(t, init, rename, keys);
      LastIsFree(t, items, rename, keys);
      if Named(t, items[last]) {
        FreshMore(keys, NewNames(t, init, rename), n);
        NewNameComes(t, init, rename, n);
      } else {
        assert NewNames(t, items, rename) == NewNames(t, init, rename);
      }
    }
  }

  lemma NothingIsFresh(keys: seq<string>)
    ensures Fresh(keys, [])
  {
  }

  lemma LastIsFree(t: Table, items: seq<Item>, rename: Rename, keys: seq<string>)
    requires items != []
    ensures var last := |items| - 1;
            var init, n := items[..last], NewName(rename, items[last].name);
            NoneTaken(t, items, rename, keys) && NoneTwice(t, items, rename) <==>
            && NoneTaken(t, init, rename, keys) && NoneTwice(t, init, rename)
            && (Named(t, items[last]) ==> n !in keys && !exists k: nat :: ComesAs(t, init, k, rename, n))
  {
    var last := |items| - 1;
    var init, n := items[..last], NewName(rename, items[last].name);
    forall k: nat, m | k < last ensures ComesAs(t, items, k, rename, m) <==> ComesAs(t, init, k, rename, m) {}
    forall m ensures ComesAs(t, items, last, rename, m) <==> Named(t, items[last]) && m == n {}
    forall k: nat, m | ComesAs(t, init, k, rename, m) ensures k < last {}
    hide ComesAs;
    if NoneTaken(t, items, rename, keys) && NoneTwice(t, items, rename) && Named(t, items[last]) {
      assert ComesAs(t, items, last, rename, n);
      forall k: nat ensures !ComesAs(t, init, k, rename, n) {
        assert k < last ==> (ComesAs(t, init, k, rename, n) <==> ComesAs(t, items, k, rename, n));
      }
    }
    if NoneTaken(t, items, rename, keys) {
      forall k: nat, m | ComesAs(t, init, k, rename, m) ensures m !in keys {
        assert ComesAs(t, items, k, rename, m);
      }
    }
    if NoneTwice(t, items, rename) {
      forall j: nat, k: nat, m | j < k && ComesAs(t, init, j, rename, m) ensures !ComesAs(t, init, k, rename, m) {
        assert ComesAs(t, items, j, rename, m) && !ComesAs(t, items, k, rename, m);
      }
    }
    if NoneTaken(t, init, rename, keys) && NoneTwice(t, init, rename)
       && (Named(t, items[last]) ==> n !in keys && !exists k: nat :: ComesAs(t, init, k, rename, n)) {
      forall k: nat, m | ComesAs(t, items, k, rename, m) ensures m !in keys {
        ComesBelow(t, items, k, rename, m);
      }
      forall j: nat, k: nat, m | j < k && ComesAs(t, items, j, rename, m) ensures !ComesAs(t, items, k, rename, m) {
        if ComesAs(t, items, k, rename, m) {
          ComesBelow(t, items, k, rename, m);
        }
      }
    }
  }

  lemma ComesBelow(t: Table, items: seq<Item>, k: nat, rename: Rename, n: string)
    requires ComesAs(t, items, k, rename, n)
    ensures k < |items|
  {
  }

  lemma FreshMore(keys: seq<string>, names: seq<string>, name: string)
    ensures Fresh(keys, names + [name]) <==> Fresh(keys, names) && name !in keys + names
  {
    var all := names + [name];
    if Fresh(keys, all) {
      forall i, j | 0 <= i < j < |names| ensures names[i] != names[j] {
        assert all[i] != all[j];
      }
      forall k | 0 <= k < |names| ensures names[k] !in keys && names[k] != name {
        assert all[k] == names[k] && all[|names|] == name;
      }
      assert all[|names|] == name;
    }
  }

  lemma {:induction false} FreshConcat(keys: seq<string>, a: seq<string>, b: seq<string>)
    ensures Fresh(keys, a + b) <==> Fresh(keys, a) && Fresh(keys + a, b)
  {
    if b == [] {
      assert a + b == a;
    } else {
      var init, name := b[..|b| - 1], b[|b| - 1];
      FreshConcat(keys, a, init);
      FreshMore(keys, a + init, name);
      FreshMore(keys + a, init, name);
      assert a + b == a + init + [name] && b == init + [name] && keys + (a + init) == keys + a + init;
    }
  }

  lemma {:induction false} NewNamesStay(t: Table, t': Table, items: seq<Item>, rename: Rename)
    requires t <= t' && ItemsOk(t, items)
    ensures NewNames(t', items, rename) == NewNames(t, items, rename)
  {
    if items != [] {
      NewNamesStay(t, t', items[..|items| - 1], rename);
    }
  }

  /** An include is refused exactly when a name it brings is taken, or comes
      twice; interfaces that are there already never get in the way. */
  lemma {:induction false} BringAllSucceedsIff(t: Table, side: Side, items: seq<Item>, rename: Rename)
    requires TableOk(t) && SideOk(t, side) && ItemsOk(t, items)
    ensures BringAll(t, side, items, rename).Some? <==> Fresh(side.keys, NewNames(t, items, rename))
  {
    hide TableOk, SideOk, RenameItem;
    if items != [] {
      var init, x := items[..|items| - 1], items[|items| - 1];
      assert ItemsOk(t, init);
      BringAllSucceedsIff(t, side, init, rename);
      BringAllOk(t, side, init, rename);
      var before := BringAll(t, side, init, rename);
      var names := NewNames(t, init, rename);
      FreshMore(side.keys, names, NewName(rename, x.name));
      if before.Some? {
        var (t1, side1) := before.value;
        ListStays(t, t1, items);
        RenameOk(t1, x, rename);
        assert Named(t1, x) <==> Named(t, x);
      }
      assert names + [] == names;
    }
  }

  // ----- elaboration of such lists

  lemma DepIsPlain(t: Table, i: nat, d: nat)
    requires TableOk(t) && i < |t| && d in GraphOf(InterfacesOf(t))[i]
    ensures d < |t| && !t[d].inline
  {
    assert UsesOk(t, t[i].deps);
  }

  lemma ReachedInline(t: Table, a: nat, x: nat)
    requires TableOk(t) && Reaches(GraphOf(InterfacesOf(t)), a, x) && x < |t| && t[x].inline
    ensures a == x
  {
    var g := GraphOf(InterfacesOf(t));
    var p :| PathFromTo(g, p, a, x);
    if |p| > 1 {
      assert Step(g, p, |p| - 2);
      DepIsPlain(t, p[|p| - 2], x);
    }
  }

  /** An inline interface gets into an elaborated world only by being declared. */
  lemma InlineIsDeclared(t: Table, w: World, w': World, i: nat)
    requires TableOk(t) && UsesOk(t, w.uses) && i < |t| && t[i].inline
    requires Elaborated(InterfacesOf(t), w, w') && (i in Declared(w'.imports) || i in Declared(w'.exports))
    ensures i in Declared(w.imports) + Declared(w.exports)
  {
    hide TableOk, Declared, Funcs, Standard, WellPlaced, ExportsPlaced, LabelsOf, Reaches;
    var u := InterfacesOf(t);
    if ReachedFrom(u, ImportRoots(w), i) {
      var a :| a in ImportRoots(w) && Reaches(GraphOf(u), a, i);
      ReachedInline(t, a, i);
    } else if Tainted(u, Declared(w.exports), i) {
      var e, v :| Via(u, Declared(w.exports), e, v, i);
      ReachedInline(t, v, i);
      ReachedInline(t, e, i);
    }
  }

  lemma DeclaredItem(t: Table, items: seq<Item>, i: nat) returns (k: nat)
    requires ItemsOk(t, items) && i in Declared(items)
    ensures k < |items| && i < |t| && items[k] == ItemOf(t, i)
  {
    k :| 0 <= k < |items| && items[k].IfaceItem? && items[k].iface == i;
  }

  /** The label an elaborated world gives an interface is the table's. */
  lemma LabelIsTables(t: Table, items: seq<Item>, i: nat)
    requires ItemsOk(t, items) && i < |t| && (!t[i].inline ==> t[i].implements == "") && (t[i].inline ==> i in Declared(items))
    ensures ItemFor(InterfacesOf(t), LabelsOf(items), i) == ItemOf(t, i)
  {
    if i in LabelsOf(items) {
      var k := LabelComesFrom(items, i);
    } else if t[i].inline {
      var k := DeclaredItem(t, items, i);
      if t[i].implements != "" {
        LabelIsKept(items, k);
      }
    }
  }

  lemma ItemsConcat(t: Table, a: seq<Item>, b: seq<Item>)
    requires ItemsOk(t, a) && ItemsOk(t, b)
    ensures ItemsOk(t, a + b) && Consistent(InterfacesOf(t), a + b)
  {
  }

  lemma PlacedImportsOnce(u: Interfaces, items: seq<Item>)
    requires WellPlaced(u, items)
    ensures NoRepeats(items)
  {
    forall j, k | 0 <= j < k < |items| ensures !SameIface(items[j], items[k]) {
      assert PlacedAt(u, items, k);
      assert items[..k][j] == items[j];
    }
  }

  lemma ElaboratedItemsOk(t: Table, w: World, w': World, items: seq<Item>)
    requires TableOk(t) && UsesOk(t, w.uses) && ItemsOk(t, w.imports + w.exports) && Elaborated(InterfacesOf(t), w, w')
    requires items == w'.imports || items == w'.exports
    ensures ItemsOk(t, items)
  {
    var u, all := InterfacesOf(t), w.imports + w.exports;
    assert Standard(u, LabelsOf(all), items);
    DeclaredConcat(w.imports, w.exports);
    forall k | 0 <= k < |items| && items[k].IfaceItem? ensures items[k].iface < |t| && items[k] == ItemOf(t, items[k].iface) {
      var i := items[k].iface;
      assert i in Declared(items);
      hide Elaborated, Declared, Standard, LabelsOf, Valid;
      if t[i].inline {
        InlineIsDeclared(t, w, w', i);
      }
      LabelIsTables(t, all, i);
    }
  }

  ghost predicate BelowTable(t: Table, w: World) {
    ListOk(t, w.imports) && ListOk(t, w.exports) && UsesOk(t, w.uses)
  }

  lemma WorldIsBelow(t: Table, w: World)
    requires BelowTable(t, w)
    ensures WorldBelow(InterfacesOf(t), w)
  {
    if w.uses.Some? {
      forall k | 0 <= k < |w.uses.value| ensures w.uses.value[k] < |t| {
        assert w.uses.value[k] in w.uses.value;
      }
    }
  }

  /** What every import and export depends on stands before it, or is imported. */
  ghost predicate Placed(t: Table, w: World) {
    var u := InterfacesOf(t);
    WellPlaced(u, w.imports) && ExportsPlaced(u, Declared(w.exports), Declared(w.imports), w.exports)
  }

  lemma PlacedStays(t: Table, t': Table, w: World)
    requires t <= t' && Placed(t, w)
    ensures Placed(t', w)
  {
    hide Declared;
    var u, u' := InterfacesOf(t), InterfacesOf(t');
    forall k | 0 <= k < |w.imports| ensures PlacedAt(u', w.imports, k) {
      assert PlacedAt(u, w.imports, k);
    }
    forall k | 0 <= k < |w.exports| ensures ExportAt(u', Declared(w.exports), Declared(w.imports), w.exports, k) {
      assert ExportAt(u, Declared(w.exports), Declared(w.imports), w.exports, k);
    }
  }

  /** The interface is one the world uses, or one that something it lists depends on. */
  ghost predicate Needed(t: Table, w: World, x: nat) {
    || (w.uses.Some? && x in w.uses.value)
    || exists z :: z in Declared(w.imports) + Declared(w.exports) && DependsOn(t, z, x)
  }

  ghost predicate DependsOn(t: Table, z: nat, x: nat) {
    z < |t| && t[z].deps.Some? && x in t[z].deps.value
  }

  lemma NeededStays(t: Table, t': Table, w: World, x: nat)
    requires t <= t' && Needed(t, w, x)
    ensures Needed(t', w, x)
  {
    hide Declared;
    if !(w.uses.Some? && x in w.uses.value) {
      var z :| z in Declared(w.imports) + Declared(w.exports) && DependsOn(t, z, x);
      assert DependsOn(t', z, x);
    }
  }

  /** Everything on a way but its start has one before it that depends on it. */
  lemma LastStep(t: Table, a: nat, x: nat) returns (z: nat)
    requires Reaches(GraphOf(InterfacesOf(t)), a, x) && a != x
    ensures Reaches(GraphOf(InterfacesOf(t)), a, z) && DependsOn(t, z, x)
  {
    var g := GraphOf(InterfacesOf(t));
    var p :| PathFromTo(g, p, a, x);
    var m := |p| - 2;
    z := p[m];
    assert Step(g, p, m);
    SubPath(g, p, 0, m + 1);
    assert PathFromTo(g, p[0..m + 1], a, z);
  }

  lemma ImportIsNeeded(t: Table, w: World, w': World, x: nat)
    requires Elaborated(InterfacesOf(t), w, w') && x in Declared(w'.imports)
    ensures x in Declared(w.imports) || Needed(t, w', x)
  {
    hide Declared, Funcs, Standard, WellPlaced, ExportsPlaced, LabelsOf, Reaches, DependsOn;
    var u := InterfacesOf(t);
    var g, declared := GraphOf(u), Declared(w.exports);
    if ReachedFrom(u, ImportRoots(w), x) {
      var a :| a in ImportRoots(w) && Reaches(g, a, x);
      if a != x {
        var z := LastStep(t, a, x);
        assert ReachedFrom(u, ImportRoots(w), z);
        assert z in Declared(w'.imports) + Declared(w'.exports);
      }
    } else {
      var e, v :| Via(u, declared, e, v, x);
      if v != x {
        var z := LastStep(t, v, x);
        assert Via(u, declared, e, v, z);
        assert z in Declared(w'.imports) + Declared(w'.exports);
      } else {
        var z := LastStep(t, e, v);
        if z !in declared {
          ReachableIsNode(g, e, z);
          ReachesSelf(g, z);
          assert Via(u, declared, e, z, z);
        }
        assert z in Declared(w'.imports) + Declared(w'.exports);
      }
    }
  }

  lemma ReachableIsNode(g: Graph, a: nat, z: nat)
    requires Reaches(g, a, z)
    ensures z < |g|
  {
  }

  /** What elaboration adds to the imports is needed, and what the world uses is
      imported. */
  lemma ImportsAreNeeded(t: Table, w: World, w': World)
    requires Elaborated(InterfacesOf(t), w, w') && ItemsOk(t, w.imports) && ItemsOk(t, w'.imports) && UsesOk(t, w.uses)
    ensures forall y :: y in w'.imports ==> y in w.imports || (y.IfaceItem? && Needed(t, w', y.iface))
    ensures w.uses.Some? ==> forall d :: d in w.uses.value ==> d in Declared(w'.imports)
  {
    hide Elaborated, Needed;
    forall y | y in w'.imports ensures y in w.imports || (y.IfaceItem? && Needed(t, w', y.iface)) {
      if y.FuncItem? {
        FuncWasThere(InterfacesOf(t), w, w', y);
      } else {
        assert y.iface in Declared(w'.imports);
        ImportIsNeeded(t, w, w', y.iface);
        if y.iface in Declared(w.imports) {
          var k := DeclaredItem(t, w.imports, y.iface);
          assert w.imports[k] == y;
        }
      }
    }
    if w.uses.Some? {
      forall d | d in w.uses.value ensures d in Declared(w'.imports) {
        UseIsImported(InterfacesOf(t), w, w', d);
      }
    }
  }

  lemma FuncWasThere(u: Interfaces, w: World, w': World, y: Item)
    requires Elaborated(u, w, w') && y in w'.imports && y.FuncItem?
    ensures y in w.imports
  {
    hide Funcs, Standard, WellPlaced, ExportsPlaced, LabelsOf, Tainted, ReachedFrom, Declared;
    FuncIsKept(w.imports, y);
    FuncIsKept(w'.imports, y);
    assert multiset(w.imports)[y] > 0;
  }

  lemma UseIsImported(u: Interfaces, w: World, w': World, d: nat)
    requires Elaborated(u, w, w') && w.uses.Some? && d in w.uses.value && d < |u.deps|
    ensures d in Declared(w'.imports)
  {
    hide Funcs, Standard, WellPlaced, ExportsPlaced, LabelsOf, Tainted, Declared;
    ReachesSelf(GraphOf(u), d);
    assert ReachedFrom(u, ImportRoots(w), d);
  }

  /** Lists made as worlds make them meet what elaboration asks for, so it keeps
      every import and export; and they come out as lists of the same kind, that
      other worlds can include. */
  lemma ElaborationKeepsLists(t: Table, w: World)
    requires TableOk(t) && BelowTable(t, w) && WorldBelow(InterfacesOf(t), w) && Elaborate(InterfacesOf(t), w).Ok?
    ensures var w' := Elaborate(InterfacesOf(t), w).value;
            && BelowTable(t, w') && Placed(t, w')
            && (forall x :: x in w.imports ==> x in w'.imports)
            && multiset(w'.exports) == multiset(w.exports)
            && w'.uses == w.uses
            && (forall y :: y in w'.imports ==> y in w.imports || (y.IfaceItem? && Needed(t, w', y.iface)))
            && (w.uses.Some? ==> forall d :: d in w.uses.value ==> d in Declared(w'.imports))
  {
    hide Elaborate, Valid, WorldBelow, ItemsOk, Consistent, NoRepeats, UsesOk, Needed, Declared;
    assert Valid(InterfacesOf(t));
    var u := InterfacesOf(t);
    ElaborateGives(u, w);
    var w' := Elaborate(u, w).value;
    ItemsConcat(t, w.imports, w.exports);
    ElaborateKeeps(u, w);
    ElaboratedItemsOk(t, w, w', w'.imports);
    ElaboratedItemsOk(t, w, w', w'.exports);
    PlacedImportsOnce(u, w'.imports);
    PlacedExportsOnce(u, Declared(w.exports), Declared(w'.imports), w'.exports);
    ImportsAreNeeded(t, w, w');
  }

  // ----- the loops of an include

  /** Brings in a world's imports, or its exports, one by one. */
  method BringIn(t: Table, side: Side, items: seq<Item>, rename: Rename) returns (r: Option<(Table, Side)>)
    ensures r == BringAll(t, side, items, rename)
  {
    hide RenameItem;
    var now, into := t, side;
    for k := 0 to |items|
      invariant BringAll(t, side, items[..k], rename) == Some((now, into))
    {
      assert items[..k + 1][..k] == items[..k];
      var (t', y) := RenameItem(now, items[k], rename);
      var added := Add(t', into, y);
      if added.None? {
        BringFailsOn(t, side, items, k + 1, rename);
        return None;
      }
      now, into := t', added.value;
    }
    assert items[..|items|] == items;
    return Some((now, into));
  }

  lemma {:induction false} BringFailsOn(t: Table, side: Side, items: seq<Item>, k: nat, rename: Rename)
    requires k <= |items| && BringAll(t, side, items[..k], rename).None?
    ensures BringAll(t, side, items, rename).None?
    decreases |items|
  {
    if k < |items| {
      assert items[..|items| - 1][..k] == items[..k];
      BringFailsOn(t, side, items[..|items| - 1], k, rename);
    } else {
      assert items[..k] == items;
    }
  }

  lemma FreshUpTo(keys: seq<string>, names: seq<string>, k: nat)
    requires k < |names| && Fresh(keys, names[..k])
    ensures Fresh(keys, names[..k + 1]) <==> names[k] !in keys + names[..k]
    ensures !Fresh(keys, names[..k + 1]) ==> !Fresh(keys, names)
    ensures keys + names[..k] + [names[k]] == keys + names[..k + 1]
  {
    hide Fresh;
    assert names[..k] + [names[k]] == names[..k + 1] && names[..k + 1] + names[k + 1..] == names;
    FreshMore(keys, names[..k], names[k]);
    FreshConcat(keys, names[..k + 1], names[k + 1..]);
  }

  function Renamed(types: seq<string>, rename: Rename): (r: seq<string>)
    ensures |r| == |types| && forall k :: 0 <= k < |r| ==> r[k] == NewName(rename, types[k])
  {
    seq(|types|, k requires 0 <= k < |types| => NewName(rename, types[k]))
  }

  /** Takes the names of the types a world brings in. */
  method BringTypes(keys: seq<string>, types: seq<string>, rename: Rename) returns (r: Option<seq<string>>)
    ensures r == if Fresh(keys, Renamed(types, rename)) then Some(keys + Renamed(types, rename)) else None
  {
    var now, all := keys, Renamed(types, rename);
    assert Fresh(keys, all[..0]);
    hide Fresh;
    for k := 0 to |types|
      invariant Fresh(keys, all[..k]) && now == keys + all[..k]
    {
      FreshUpTo(keys, all, k);
      if all[k] in now {
        return None;
      }
      now := now + [all[k]];
    }
    assert all[..|types|] == all;
    return Some(now);
  }
}
