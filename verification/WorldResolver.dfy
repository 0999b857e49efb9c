/** Worlds, each resolved after those it includes (component/wit/resolve.go). Every
    world resolved has all its own items and all that its includes bring, its
    exports nothing else, and lists in order for elaboration and for other worlds
    to include. */
module WorldResolver {
  import opened Results
  import opened DepGraphs
  import opened Elaboration
  import opened ElaborationLaws
  import opened WorldItems

  datatype WorldError = NotFound | Shadows | Unelaborated(error: ElabError)

  /** world is what the path leads to, unless a gate left it out; on is whether its
      own gate keeps the include. */
  datatype Include = Include(world: Option<nat>, rename: Rename, on: bool)

  /** A world as written: the names of its types and of its resources' funcs, what
      it uses, its imports and exports, and its includes. */
  datatype Ast = Ast(types: seq<string>, funcs: seq<string>, uses: Option<seq<nat>>, own: seq<Own>, includes: seq<Include>)

  /** A world while its items are collected. */
  datatype Draft = Draft(types: seq<string>, imports: Side, exports: Side)

  datatype Resolved = Resolved(types: seq<string>, world: World)

  type Done = map<nat, Resolved>

  /** The check has let the world through. */
  ghost predicate AstOk(t: Table, a: Ast) {
    && KeysApart(a.types + a.funcs, a.own) && UsesOk(t, a.uses)
    && forall j :: 0 <= j < |a.own| ==> ExternOk(t, a.own[j].what)
  }

  lemma AstStays(t: Table, t': Table, a: Ast)
    requires t <= t' && AstOk(t, a)
    ensures AstOk(t', a)
  {
    forall j | 0 <= j < |a.own| ensures ExternOk(t', a.own[j].what) {
      ExternStays(t, t', a.own[j].what);
    }
  }

  // ----- its own items

  function FuncItems(names: seq<string>): (items: seq<Item>)
    ensures |items| == |names| && AllFuncs(items)
    ensures forall k :: 0 <= k < |names| ==> items[k] == FuncItem(names[k])
  {
    seq(|names|, k requires 0 <= k < |names| => FuncItem(names[k]))
  }

  ghost predicate OwnDone(t: Table, t': Table, a: Ast, own: seq<Own>, d: Draft) {
    && t <= t' && TableOk(t') && SideOk(t', d.imports) && SideOk(t', d.exports) && d.types == a.types
    && HasOwn(t', own, d.imports.items, d.exports.items)
    && OnlyOwn(t', FuncItems(a.funcs), own, false, d.imports.items) && OnlyOwn(t', [], own, true, d.exports.items)
    && FuncItems(a.funcs) <= d.imports.items && KeysSay(t', d.imports, d.types) && KeysSay(t', d.exports, [])
  }

  function FirstDraft(a: Ast): Draft {
    Draft(a.types, Side(FuncItems(a.funcs), a.types + a.funcs), Side([], []))
  }

  lemma FirstDraftOk(t: Table, a: Ast)
    requires TableOk(t)
    ensures OwnDone(t, t, a, [], FirstDraft(a))
  {
    hide TableOk, HasName;
    forall n ensures HasName(t, FuncItems(a.funcs), n) <==> n in a.funcs {
      FuncNames(t, a.funcs, n);
    }
    forall n ensures !HasName(t, [], n) {
      NoNames(t, n);
    }
  }

  lemma NoNames(t: Table, n: string)
    ensures !HasName(t, [], n)
  {
  }

  lemma FuncNames(t: Table, funcs: seq<string>, n: string)
    ensures HasName(t, FuncItems(funcs), n) <==> n in funcs
  {
    var items := FuncItems(funcs);
    if n in funcs {
      var k :| 0 <= k < |funcs| && funcs[k] == n;
      assert Named(t, items[k]) && items[k].name == n;
    }
    if k :| 0 <= k < |items| && Named(t, items[k]) && items[k].name == n {
      assert funcs[k] == n;
    }
  }

  function Put(t: Table, d: Draft, exported: bool, y: Item): Draft {
    if exported then d.(exports := Append(t, d.exports, y)) else d.(imports := Append(t, d.imports, y))
  }

  lemma SkipOwn(t: Table, t': Table, a: Ast, k: nat, d: Draft)
    requires k < |a.own| && OwnDone(t, t', a, a.own[..k], d) && !a.own[k].on
    ensures OwnDone(t, t', a, a.own[..k + 1], d)
  {
    hide TableOk, SideOk, MadeIn, FuncItems;
    assert a.own[..k] <= a.own[..k + 1];
    OnlyOwnStays(t', t', FuncItems(a.funcs), a.own[..k], a.own[..k + 1], false, d.imports.items);
    OnlyOwnStays(t', t', [], a.own[..k], a.own[..k + 1], true, d.exports.items);
    forall j | 0 <= j < k + 1 && a.own[j].on
      ensures MadeIn(t', a.own[j], ListFor(d.imports.items, d.exports.items, a.own[j].exported))
    {
      assert a.own[..k][j] == a.own[j];
    }
  }

  method AddOwn(t: Table, a: Ast) returns (r: Option<(Table, Draft)>)
    requires TableOk(t) && AstOk(t, a)
    ensures r.None? <==>
            exists j :: 0 <= j < |a.own| && a.own[j].on && (a.own[j].what.PathExtern? || a.own[j].what.LabelExtern?) && !a.own[j].what.found
    ensures r.Some? ==> OwnDone(t, r.value.0, a, a.own, r.value.1)
  {
    hide TableOk, KeysApart, OwnDone, FirstDraft, Put;
    var now, d := t, FirstDraft(a);
    FirstDraftOk(t, a);
    for k := 0 to |a.own|
      invariant t <= now && OwnDone(t, now, a, a.own[..k], d)
      invariant forall j :: 0 <= j < k ==> !(a.own[j].on && Missing(a.own[j].what))
    {
      if a.own[k].on {
        AstStays(t, now, a);
        var made := Make(now, a.own[k].what);
        if made.None? {
          return None;
        }
        OwnStep(t, now, made.value.0, a, k, d, made.value.1);
        d := Put(made.value.0, d, a.own[k].exported, made.value.1);
        now := made.value.0;
      } else {
        SkipOwn(t, now, a, k, d);
      }
    }
    assert a.own[..|a.own|] == a.own;
    return Some((now, d));
  }

  predicate Missing(x: Extern) {
    (x.PathExtern? || x.LabelExtern?) && !x.found
  }

  lemma HasOneMore(t: Table, t': Table, own: seq<Own>, k: nat, imports: seq<Item>, exports: seq<Item>,
                   imports': seq<Item>, exports': seq<Item>, y: Item)
    requires t <= t' && k < |own| && HasOwn(t, own[..k], imports, exports) && imports <= imports' && exports <= exports'
    requires y in ListFor(imports', exports', own[k].exported) && Makes(t', own[k].what, y)
    ensures HasOwn(t', own[..k + 1], imports', exports')
  {
    hide Makes;
    HasOwnStays(t, t', own[..k], imports, exports, imports', exports');
    forall j | 0 <= j < k + 1 && own[j].on ensures MadeIn(t', own[j], ListFor(imports', exports', own[j].exported)) {
      assert j < k ==> own[..k][j] == own[j];
    }
  }

  lemma OnlyOneMore(t: Table, t': Table, funcs: seq<Item>, own: seq<Own>, k: nat, items: seq<Item>, y: Item)
    requires t <= t' && k < |own| && own[k].on && OnlyOwn(t, funcs, own[..k], own[k].exported, items) && Makes(t', own[k].what, y)
    ensures OnlyOwn(t', funcs, own[..k + 1], own[k].exported, items + [y])
  {
    hide Makes;
    var more := own[..k + 1];
    assert own[..k] <= more && more[k] == own[k];
    OnlyOwnStays(t, t', funcs, own[..k], more, own[k].exported, items);
    assert MadeBy(t', more, own[k].exported, y);
  }

  lemma OwnStep(t: Table, t1: Table, t2: Table, a: Ast, k: nat, d: Draft, y: Item)
    requires k < |a.own| && a.own[k].on && OwnDone(t, t1, a, a.own[..k], d) && AstOk(t1, a)
    requires Make(t1, a.own[k].what) == Some((t2, y))
    ensures t <= t2 && OwnDone(t, t2, a, a.own[..k + 1], Put(t2, d, a.own[k].exported, y))
  {
    hide TableOk, SideOk, HasOwn, OnlyOwn, KeysApart, Make, Makes, ExternOk, Declared;
    var own, b := a.own, a.own[k].exported;
    var side := if b then d.exports else d.imports;
    var funcs := if b then [] else FuncItems(a.funcs);
    var d' := Put(t2, d, b, y);
    MakeOk(t1, own[k].what);
    SideStays(t1, t2, d.imports);
    SideStays(t1, t2, d.exports);
    if y.IfaceItem? {
      NotThereYet(t1, t2, a.types + a.funcs, funcs, own, k, side, y);
    }
    AppendOk(t2, side, y);
    HasOneMore(t1, t2, own, k, d.imports.items, d.exports.items, d'.imports.items, d'.exports.items, y);
    OnlyOneMore(t1, t2, funcs, own, k, side.items, y);
    assert own[..k] <= own[..k + 1];
    OnlyOwnStays(t1, t2, if b then FuncItems(a.funcs) else [], own[..k], own[..k + 1], !b, if b then d.imports.items else d.exports.items);
  }

  // ----- what a world has in the end

  ghost predicate IncludeIn(t: Table, done: Done, inc: Include, types: seq<string>, imports: seq<Item>, exports: seq<Item>) {
    && inc.world.Some? && inc.world.value in done
    && var from := done[inc.world.value];
       && (forall n :: n in Renamed(from.types, inc.rename) ==> n in types)
       && AllCome(t, inc.rename, from.world.imports, imports) && AllCome(t, inc.rename, from.world.exports, exports)
  }

  /** A world has its own types and items, and those of its first n includes. */
  ghost predicate Has(t: Table, a: Ast, done: Done, n: nat, types: seq<string>, imports: seq<Item>, exports: seq<Item>)
    requires n <= |a.includes|
  {
    && HasOwn(t, a.own, imports, exports) && (forall x :: x in a.types ==> x in types)
    && (forall f :: f in a.funcs ==> FuncItem(f) in imports)
    && forall j :: 0 <= j < n && a.includes[j].on ==> IncludeIn(t, done, a.includes[j], types, imports, exports)
  }

  ghost predicate Included(t: Table, a: Ast, done: Done, n: nat, exported: bool, y: Item)
    requires n <= |a.includes|
  {
    exists j :: 0 <= j < n && IncludedBy(t, done, a.includes[j], exported, y)
  }

  ghost predicate IncludedBy(t: Table, done: Done, inc: Include, exported: bool, y: Item) {
    && inc.on && inc.world.Some? && inc.world.value in done
    && var from := done[inc.world.value].world; ComesFrom(t, inc.rename, ListFor(from.imports, from.exports, exported), y)
  }

  /** The world, or one of its first n includes, says so. */
  ghost predicate Said(t: Table, a: Ast, done: Done, n: nat, exported: bool, y: Item)
    requires n <= |a.includes|
  {
    (!exported && y in FuncItems(a.funcs)) || MadeBy(t, a.own, exported, y) || Included(t, a, done, n, exported, y)
  }

  /** A list holds what the world and its first n includes say, and nothing else. */
  ghost predicate ListOnly(t: Table, a: Ast, done: Done, n: nat, exported: bool, items: seq<Item>)
    requires n <= |a.includes|
  {
    forall y :: y in items ==> Said(t, a, done, n, exported, y)
  }

  ghost predicate Sound(t: Table, done: Done) {
    forall k :: k in done ==> BelowTable(t, done[k].world)
  }

  ghost predicate Extends(done: Done, done': Done) {
    forall k :: k in done ==> k in done' && done'[k] == done[k]
  }

  lemma HasStays(t: Table, t': Table, a: Ast, done: Done, done': Done, n: nat,
                 types: seq<string>, imports: seq<Item>, exports: seq<Item>,
                 types': seq<string>, imports': seq<Item>, exports': seq<Item>)
    requires t <= t' && Extends(done, done') && Sound(t, done) && n <= |a.includes|
    requires Has(t, a, done, n, types, imports, exports)
    requires (forall x :: x in types ==> x in types') && (forall y :: y in imports ==> y in imports')
    requires forall y :: y in exports ==> y in exports'
    ensures Has(t', a, done', n, types', imports', exports')
  {
    hide Renamed;
    HasOwnStays(t, t', a.own, imports, exports, imports', exports');
    forall j | 0 <= j < n && a.includes[j].on ensures IncludeIn(t', done', a.includes[j], types', imports', exports') {
      var inc := a.includes[j];
      assert IncludeIn(t, done, inc, types, imports, exports);
      var from := done[inc.world.value];
      assert BelowTable(t, from.world);
      AllComeStays(t, t', inc.rename, from.world.imports, imports, imports');
      AllComeStays(t, t', inc.rename, from.world.exports, exports, exports');
    }
  }

  lemma AllComeStays(t: Table, t': Table, rename: Rename, from: seq<Item>, items: seq<Item>, items': seq<Item>)
    requires t <= t' && ItemsOk(t, from) && AllCome(t, rename, from, items) && forall y :: y in items ==> y in items'
    ensures AllCome(t', rename, from, items')
  {
    forall x | x in from ensures ComesIn(t', rename, x, items') {
      ComesInStays(t, t', rename, x, items, items');
    }
  }

  lemma SaidStays(t: Table, t': Table, a: Ast, done: Done, done': Done, n: nat, m: nat, exported: bool, y: Item)
    requires t <= t' && Extends(done, done') && Sound(t, done) && n <= m <= |a.includes| && Said(t, a, done, n, exported, y)
    ensures Said(t', a, done', m, exported, y)
  {
    hide Makes, Comes, FuncItems;
    if MadeBy(t, a.own, exported, y) {
      MadeByStays(t, t', a.own, a.own, exported, y);
    } else if Included(t, a, done, n, exported, y) {
      var j :| 0 <= j < n && IncludedBy(t, done, a.includes[j], exported, y);
      var from := done[a.includes[j].world.value].world;
      assert BelowTable(t, from);
      ComesFromStays(t, t', a.includes[j].rename, ListFor(from.imports, from.exports, exported), y);
      assert IncludedBy(t', done', a.includes[j], exported, y);
    }
  }

  lemma OnlyStays(t: Table, t': Table, a: Ast, done: Done, done': Done, n: nat, m: nat, exported: bool, items: seq<Item>)
    requires t <= t' && Extends(done, done') && Sound(t, done) && n <= m <= |a.includes| && ListOnly(t, a, done, n, exported, items)
    ensures ListOnly(t', a, done', m, exported, items)
  {
    hide Said;
    forall y | y in items ensures Said(t', a, done', m, exported, y) {
      SaidStays(t, t', a, done, done', n, m, exported, y);
    }
  }

  ghost predicate Progress(t: Table, a: Ast, done: Done, n: nat, d: Draft)
    requires n <= |a.includes|
  {
    && TableOk(t) && SideOk(t, d.imports) && SideOk(t, d.exports)
    && Has(t, a, done, n, d.types, d.imports.items, d.exports.items) && ListOnly(t, a, done, n, false, d.imports.items)
    && ListOnly(t, a, done, n, true, d.exports.items)
    && KeysSay(t, d.imports, d.types) && KeysSay(t, d.exports, [])
  }

  lemma OwnIsProgress(t: Table, t': Table, a: Ast, done: Done, d: Draft)
    requires OwnDone(t, t', a, a.own, d)
    ensures Progress(t', a, done, 0, d)
  {
  }

  lemma ProgressStays(t: Table, t': Table, a: Ast, done: Done, done': Done, n: nat, d: Draft)
    requires t <= t' && TableOk(t') && Extends(done, done') && Sound(t, done) && n <= |a.includes| && Progress(t, a, done, n, d)
    ensures Progress(t', a, done', n, d)
  {
    hide TableOk, SideOk, Has, ListOnly;
    SideStays(t, t', d.imports);
    SideStays(t, t', d.exports);
    HasStays(t, t', a, done, done', n, d.types, d.imports.items, d.exports.items, d.types, d.imports.items, d.exports.items);
    OnlyStays(t, t', a, done, done', n, n, false, d.imports.items);
    OnlyStays(t, t', a, done, done', n, n, true, d.exports.items);
  }

  // ----- one include

  /** The names an include brings are free, and none comes twice. */
  ghost predicate NamesFree(t: Table, d: Draft, from: Resolved, rename: Rename) {
    && Fresh(d.imports.keys, Renamed(from.types, rename) + NewNames(t, from.world.imports, rename))
    && Fresh(d.exports.keys, NewNames(t, from.world.exports, rename))
  }

  lemma MoreKeys(t: Table, side: Side, more: seq<string>)
    requires SideOk(t, side)
    ensures SideOk(t, side.(keys := side.keys + more))
  {
  }

  method IncludeWorld(t: Table, a: Ast, ghost done: Done, n: nat, d: Draft, from: Resolved) returns (r: Option<(Table, Draft)>)
    requires n < |a.includes| && Progress(t, a, done, n, d) && Sound(t, done)
    requires var inc := a.includes[n]; inc.on && inc.world.Some? && inc.world.value in done && done[inc.world.value] == from
    ensures r.Some? <==> NamesFree(t, d, from, a.includes[n].rename)
    ensures r.Some? ==> t <= r.value.0 && Progress(r.value.0, a, done, n + 1, r.value.1)
  {
    hide TableOk, SideOk, Has, ListOnly, Sound, Renamed, NewNames, Fresh, BringAll, ItemsOk, NoRepeats, KeysSay, Brought;
    var rename := a.includes[n].rename;
    assert BelowTable(t, from.world) by { SoundAt(t, done, a.includes[n].world.value); }
    FreshConcat(d.imports.keys, Renamed(from.types, rename), NewNames(t, from.world.imports, rename));
    var keys := BringTypes(d.imports.keys, from.types, rename);
    if keys.None? {
      return None;
    }
    var side := d.imports.(keys := keys.value);
    MoreKeys(t, d.imports, Renamed(from.types, rename));
    MoreTypes(t, d.imports, d.types, Renamed(from.types, rename));
    BringAllSucceedsIff(t, side, from.world.imports, rename);
    BringAllOk(t, side, from.world.imports, rename);
    var imports := BringIn(t, side, from.world.imports, rename);
    if imports.None? {
      return None;
    }
    var t1 := imports.value.0;
    BroughtKeys(t, side, from.world.imports, rename, d.types + Renamed(from.types, rename));
    ListStays(t, t1, from.world.exports);
    ItemsOfSide(t, d.exports);
    KeysStay(t, t1, d.exports, []);
    SideStays(t, t1, d.exports);
    NewNamesStay(t, t1, from.world.exports, rename);
    BringAllSucceedsIff(t1, d.exports, from.world.exports, rename);
    BringAllOk(t1, d.exports, from.world.exports, rename);
    var exports := BringIn(t1, d.exports, from.world.exports, rename);
    if exports.None? {
      return None;
    }
    BroughtKeys(t1, d.exports, from.world.exports, rename, []);
    var d' := Draft(d.types + Renamed(from.types, rename), imports.value.1, exports.value.1);
    IncludeStep(t, t1, exports.value.0, a, done, n, d, side, d');
    return Some((exports.value.0, d'));
  }

  lemma MoreTypes(t: Table, side: Side, types: seq<string>, more: seq<string>)
    requires KeysSay(t, side, types)
    ensures KeysSay(t, side.(keys := side.keys + more), types + more)
  {
    hide HasName;
  }

  lemma ItemsOfSide(t: Table, side: Side)
    requires SideOk(t, side)
    ensures ItemsOk(t, side.items)
  {
  }

  lemma SoundAt(t: Table, done: Done, k: nat)
    requires Sound(t, done) && k in done
    ensures BelowTable(t, done[k].world)
  {
  }

  lemma OneMoreIncluded(t: Table, a: Ast, done: Done, n: nat, types: seq<string>, imports: seq<Item>, exports: seq<Item>)
    requires n < |a.includes| && Has(t, a, done, n, types, imports, exports)
    requires IncludeIn(t, done, a.includes[n], types, imports, exports)
    ensures Has(t, a, done, n + 1, types, imports, exports)
  {
    hide IncludeIn, HasOwn;
  }

  lemma OneMoreListed(t: Table, a: Ast, done: Done, n: nat, exported: bool, items: seq<Item>, items': seq<Item>)
    requires n < |a.includes| && ListOnly(t, a, done, n + 1, exported, items)
    requires forall y :: y in items' ==> y in items || IncludedBy(t, done, a.includes[n], exported, y)
    ensures ListOnly(t, a, done, n + 1, exported, items')
  {
    hide IncludedBy, MadeBy;
  }

  lemma BroughtBy(t: Table, t': Table, done: Done, inc: Include, exported: bool, before: seq<Item>, after: seq<Item>)
    requires t <= t' && inc.on && inc.world.Some? && inc.world.value in done
    requires var from := done[inc.world.value].world;
             && ItemsOk(t, ListFor(from.imports, from.exports, exported))
             && forall y :: y in after ==> y in before || ComesFrom(t, inc.rename, ListFor(from.imports, from.exports, exported), y)
    ensures forall y :: y in after ==> y in before || IncludedBy(t', done, inc, exported, y)
  {
    hide ComesFrom, ItemsOk;
    var from := done[inc.world.value].world;
    forall y | y in after && y !in before ensures IncludedBy(t', done, inc, exported, y) {
      ComesFromStays(t, t', inc.rename, ListFor(from.imports, from.exports, exported), y);
    }
  }

  lemma IncludeStep(t: Table, t1: Table, t2: Table, a: Ast, done: Done, n: nat, d: Draft, side: Side, d': Draft)
    requires n < |a.includes| && Progress(t, a, done, n, d) && Sound(t, done)
    requires var inc := a.includes[n]; inc.on && inc.world.Some? && inc.world.value in done
    requires var from, rename := done[a.includes[n].world.value], a.includes[n].rename;
             && d'.types == d.types + Renamed(from.types, rename) && side.items == d.imports.items
             && Brought(t, side, from.world.imports, rename, t1, d'.imports)
             && Brought(t1, d.exports, from.world.exports, rename, t2, d'.exports)
    requires KeysSay(t1, d'.imports, d'.types) && KeysSay(t2, d'.exports, [])
    ensures t <= t2 && Progress(t2, a, done, n + 1, d')
  {
    hide KeysSay, TableOk, SideOk, Has, ListOnly, Sound, Renamed, AllCome, ComesFrom, ItemsOk, NoRepeats, UsesOk;
    var inc := a.includes[n];
    var from, imports, exports := done[inc.world.value], d'.imports.items, d'.exports.items;
    SoundAt(t, done, inc.world.value);
    ListStays(t, t1, from.world.imports);
    SideStays(t1, t2, d'.imports);
    ItemsOfSide(t1, d'.imports);
    KeysStay(t1, t2, d'.imports, d'.types);
    AllComeStays(t1, t2, inc.rename, from.world.imports, imports, imports);
    HasStays(t, t2, a, done, done, n, d.types, d.imports.items, d.exports.items, d'.types, imports, exports);
    assert IncludeIn(t2, done, inc, d'.types, imports, exports);
    OneMoreIncluded(t2, a, done, n, d'.types, imports, exports);
    OnlyStays(t, t2, a, done, done, n, n + 1, false, d.imports.items);
    OnlyStays(t, t2, a, done, done, n, n + 1, true, d.exports.items);
    BroughtBy(t1, t2, done, inc, false, side.items, imports);
    OneMoreListed(t2, a, done, n, false, d.imports.items, imports);
    ListStays(t, t2, from.world.exports);
    BroughtBy(t2, t2, done, inc, true, d.exports.items, exports);
    OneMoreListed(t2, a, done, n, true, d.exports.items, exports);
  }

  // ----- all worlds

  function Targets(includes: seq<Include>): seq<nat> {
    if includes == [] then []
    else
      var last := includes[|includes| - 1];
      Targets(includes[..|includes| - 1]) + if last.world.Some? then [last.world.value] else []
  }

  lemma {:induction false} TargetsHave(includes: seq<Include>, j: nat)
    requires j < |includes| && includes[j].world.Some?
    ensures includes[j].world.value in Targets(includes)
  {
    if j < |includes| - 1 {
      TargetsHave(includes[..|includes| - 1], j);
    }
  }

  ghost function IncludeGraph(asts: seq<Ast>): (g: Graph)
    ensures |g| == |asts| && forall k :: 0 <= k < |g| ==> g[k] == Targets(asts[k].includes)
  {
    seq(|asts|, k requires 0 <= k < |asts| => Targets(asts[k].includes))
  }

  /** The sorts of items and packages have left no cycle of includes. */
  ghost predicate IncludesOk(asts: seq<Ast>) {
    Closed(IncludeGraph(asts)) && Acyclic(IncludeGraph(asts))
  }

  ghost function IncludeRank(asts: seq<Ast>, k: nat): nat
    requires IncludesOk(asts) && k < |asts|
  {
    RankOf(IncludeGraph(asts))[k]
  }

  lemma IncludeIsLower(asts: seq<Ast>, k: nat, j: nat)
    requires IncludesOk(asts) && k < |asts| && j < |asts[k].includes| && asts[k].includes[j].world.Some?
    ensures asts[k].includes[j].world.value < |asts| && IncludeRank(asts, asts[k].includes[j].world.value) < IncludeRank(asts, k)
  {
    TargetsHave(asts[k].includes, j);
    assert asts[k].includes[j].world.value in IncludeGraph(asts)[k];
  }

  /** A world as it ends up. */
  ghost predicate WorldOk(t: Table, a: Ast, done: Done, f: Resolved) {
    && BelowTable(t, f.world) && Placed(t, f.world)
    && Has(t, a, done, |a.includes|, f.types, f.world.imports, f.world.exports)
    && ListOnly(t, a, done, |a.includes|, true, f.world.exports)
    && ImportsOnly(t, a, done, f.world) && ImportsItsUses(a, f.world)
  }

  /** An import is one that the world or an include says, or one that is needed. */
  ghost predicate ImportsOnly(t: Table, a: Ast, done: Done, w: World) {
    forall y :: y in w.imports ==> Said(t, a, done, |a.includes|, false, y) || (y.IfaceItem? && Needed(t, w, y.iface))
  }

  /** What the world itself uses is imported. */
  ghost predicate ImportsItsUses(a: Ast, w: World) {
    w.uses == a.uses && (a.uses.Some? ==> forall d :: d in a.uses.value ==> d in Declared(w.imports))
  }

  lemma ImportsOnlyStays(t: Table, t': Table, a: Ast, done: Done, done': Done, w: World)
    requires t <= t' && Extends(done, done') && Sound(t, done) && ImportsOnly(t, a, done, w)
    ensures ImportsOnly(t', a, done', w)
  {
    hide Said, Needed, Sound, Extends;
    forall y | y in w.imports ensures Said(t', a, done', |a.includes|, false, y) || (y.IfaceItem? && Needed(t', w, y.iface)) {
      if Said(t, a, done, |a.includes|, false, y) {
        SaidStays(t, t', a, done, done', |a.includes|, |a.includes|, false, y);
      } else {
        NeededStays(t, t', w, y.iface);
      }
    }
  }

  ghost predicate WorldsOk(t: Table, asts: seq<Ast>, done: Done) {
    && TableOk(t) && (forall k :: 0 <= k < |asts| ==> AstOk(t, asts[k]))
    && forall k :: k in done ==> k < |asts| && WorldOk(t, asts[k], done, done[k])
  }

  lemma BelowStays(t: Table, t': Table, w: World)
    requires t <= t' && BelowTable(t, w)
    ensures BelowTable(t', w)
  {
    ListStays(t, t', w.imports);
    ListStays(t, t', w.exports);
  }

  lemma WorldStays(t: Table, t': Table, a: Ast, done: Done, done': Done, f: Resolved)
    requires t <= t' && Extends(done, done') && Sound(t, done) && WorldOk(t, a, done, f)
    ensures WorldOk(t', a, done', f)
  {
    hide BelowTable, Placed, Has, ListOnly, Sound, Extends, ImportsOnly, ImportsItsUses;
    var w := f.world;
    BelowStays(t, t', w);
    PlacedStays(t, t', w);
    HasStays(t, t', a, done, done', |a.includes|, f.types, w.imports, w.exports, f.types, w.imports, w.exports);
    OnlyStays(t, t', a, done, done', |a.includes|, |a.includes|, true, w.exports);
    ImportsOnlyStays(t, t', a, done, done', w);
  }

  lemma WorldsAreSound(t: Table, asts: seq<Ast>, done: Done)
    requires WorldsOk(t, asts, done)
    ensures Sound(t, done)
  {
    hide BelowTable;
  }

  lemma WorldsStay(t: Table, t': Table, asts: seq<Ast>, done: Done)
    requires t <= t' && TableOk(t') && WorldsOk(t, asts, done)
    ensures WorldsOk(t', asts, done)
  {
    hide TableOk, AstOk, WorldOk, Sound;
    WorldsAreSound(t, asts, done);
    forall k | 0 <= k < |asts| ensures AstOk(t', asts[k]) {
      AstStays(t, t', asts[k]);
    }
    forall k | k in done ensures WorldOk(t', asts[k], done, done[k]) {
      WorldStays(t, t', asts[k], done, done, done[k]);
    }
  }

  lemma OneMoreWorld(t: Table, asts: seq<Ast>, done: Done, k: nat, f: Resolved)
    requires WorldsOk(t, asts, done) && k < |asts| && k !in done && WorldOk(t, asts[k], done, f)
    ensures WorldsOk(t, asts, done[k := f])
  {
    hide TableOk, AstOk, WorldOk, Sound;
    WorldsAreSound(t, asts, done);
    var done' := done[k := f];
    forall j | j in done' ensures j < |asts| && WorldOk(t, asts[j], done', done'[j]) {
      WorldStays(t, t, asts[j], done, done', done'[j]);
    }
  }

  ghost function WorldOf(a: Ast, d: Draft): World {
    World(a.uses, d.imports.items, d.exports.items)
  }

  lemma DraftIsBelow(t: Table, a: Ast, done: Done, d: Draft)
    requires Progress(t, a, done, |a.includes|, d) && UsesOk(t, a.uses)
    ensures BelowTable(t, WorldOf(a, d)) && Valid(InterfacesOf(t)) && WorldBelow(InterfacesOf(t), WorldOf(a, d))
  {
    hide Valid, WorldBelow, Has, ListOnly, UsesOk, ItemsOk, NoRepeats;
    WorldIsBelow(t, WorldOf(a, d));
  }

  /** A draft that elaborates is a world as it should be. */
  lemma DraftElaborates(t: Table, a: Ast, done: Done, d: Draft)
    requires Progress(t, a, done, |a.includes|, d) && UsesOk(t, a.uses) && Sound(t, done)
    requires Valid(InterfacesOf(t)) && WorldBelow(InterfacesOf(t), WorldOf(a, d)) && Elaborate(InterfacesOf(t), WorldOf(a, d)).Ok?
    ensures WorldOk(t, a, done, Resolved(d.types, Elaborate(InterfacesOf(t), WorldOf(a, d)).value))
  {
    hide TableOk, Valid, WorldBelow, Has, Elaborate, BelowTable, Placed, Sound, UsesOk, Included, MadeBy, Needed, Declared;
    var w := WorldOf(a, d);
    DraftIsBelow(t, a, done, d);
    ElaborationKeepsLists(t, w);
    var w' := Elaborate(InterfacesOf(t), w).value;
    forall y ensures y in w'.exports <==> y in w.exports {
      assert y in multiset(w'.exports) <==> y in multiset(w.exports);
    }
    HasStays(t, t, a, done, done, |a.includes|, d.types, w.imports, w.exports, d.types, w'.imports, w'.exports);
  }

  // ----- includes of includes

  ghost predicate Includes(a: Ast, m: nat) {
    exists j :: 0 <= j < |a.includes| && a.includes[j].on && a.includes[j].world == Some(m)
  }

  /** Each world of the chain includes the next. */
  ghost predicate Chain(asts: seq<Ast>, p: seq<nat>) {
    |p| > 0 && forall i :: 0 <= i < |p| - 1 ==> p[i] < |asts| && Includes(asts[p[i]], p[i + 1])
  }

  ghost predicate NamedByPath(t: Table, x: Item) {
    x.IfaceItem? && x.iface < |t| && !t[x.iface].inline
  }

  lemma InterfacesPassOn(t: Table, asts: seq<Ast>, done: Done, k: nat, m: nat)
    requires WorldsOk(t, asts, done) && k in done && Includes(asts[k], m)
    ensures m in done
    ensures forall x :: x in done[m].world.imports && NamedByPath(t, x) ==> x in done[k].world.imports
    ensures forall x :: x in done[m].world.exports && NamedByPath(t, x) ==> x in done[k].world.exports
  {
    var a, f := asts[k], done[k];
    assert WorldOk(t, a, done, f);
    var j :| 0 <= j < |a.includes| && a.includes[j].on && a.includes[j].world == Some(m);
    assert IncludeIn(t, done, a.includes[j], f.types, f.world.imports, f.world.exports);
    hide WorldsOk, WorldOk;
    forall x | x in done[m].world.imports && NamedByPath(t, x) ensures x in f.world.imports {
      assert ComesIn(t, a.includes[j].rename, x, f.world.imports);
    }
    forall x | x in done[m].world.exports && NamedByPath(t, x) ensures x in f.world.exports {
      assert ComesIn(t, a.includes[j].rename, x, f.world.exports);
    }
  }

  /** An interface named by its path gets through any chain of includes, whatever
      they rename: a world imports, and exports, all that the worlds at the end of
      such chains do. */
  lemma {:induction false} InterfacesSpread(t: Table, asts: seq<Ast>, done: Done, p: seq<nat>)
    requires WorldsOk(t, asts, done) && Chain(asts, p) && p[0] in done
    ensures p[|p| - 1] in done
    ensures forall x :: x in done[p[|p| - 1]].world.imports && NamedByPath(t, x) ==> x in done[p[0]].world.imports
    ensures forall x :: x in done[p[|p| - 1]].world.exports && NamedByPath(t, x) ==> x in done[p[0]].world.exports
  {
    hide WorldsOk, Includes, NamedByPath;
    if |p| > 1 {
      assert Includes(asts[p[0]], p[1]);
      InterfacesPassOn(t, asts, done, p[0], p[1]);
      InterfacesSpread(t, asts, done, p[1..]);
    }
  }

  // ----- failures

  /** The include brings a name that the world has by then. */
  ghost predicate Clash(t: Table, a: Ast, done: Done, n: nat, d: Draft) {
    && n < |a.includes| && a.includes[n].on && a.includes[n].world.Some? && a.includes[n].world.value in done
    && Progress(t, a, done, n, d)
    && !NamesFree(t, d, done[a.includes[n].world.value], a.includes[n].rename)
  }

  ghost predicate Unplaceable(t: Table, a: Ast, done: Done, d: Draft, e: ElabError) {
    && Progress(t, a, done, |a.includes|, d)
    && Valid(InterfacesOf(t)) && WorldBelow(InterfacesOf(t), WorldOf(a, d))
    && Elaborate(InterfacesOf(t), WorldOf(a, d)) == Err(e)
  }

  ghost predicate NamesNothing(a: Ast) {
    || (exists j :: 0 <= j < |a.own| && a.own[j].on && Missing(a.own[j].what))
    || exists j :: 0 <= j < |a.includes| && a.includes[j].on && a.includes[j].world.None?
  }

  /** The error is that of this world. */
  ghost predicate Fails(t: Table, a: Ast, done: Done, e: WorldError) {
    match e
    case NotFound => NamesNothing(a)
    case Shadows => exists n, d :: Clash(t, a, done, n, d)
    case Unelaborated(x) => exists d :: Unplaceable(t, a, done, d, x)
  }

  ghost predicate FailsBelow(t: Table, asts: seq<Ast>, done: Done, k: nat, e: WorldError) {
    exists j :: 0 <= j < |asts| && Reaches(IncludeGraph(asts), k, j) && Fails(t, asts[j], done, e)
  }

  lemma FailsHere(t: Table, asts: seq<Ast>, done: Done, k: nat, e: WorldError)
    requires k < |asts| && Fails(t, asts[k], done, e)
    ensures FailsBelow(t, asts, done, k, e)
  {
    hide Fails;
    ReachesSelf(IncludeGraph(asts), k);
  }

  lemma FailsInside(t: Table, asts: seq<Ast>, done: Done, k: nat, j: nat, e: WorldError)
    requires k < |asts| && j < |asts[k].includes| && asts[k].includes[j].world.Some?
    requires FailsBelow(t, asts, done, asts[k].includes[j].world.value, e)
    ensures FailsBelow(t, asts, done, k, e)
  {
    hide Fails, Targets;
    TargetsHave(asts[k].includes, j);
    var m :| 0 <= m < |asts| && Reaches(IncludeGraph(asts), asts[k].includes[j].world.value, m) && Fails(t, asts[m], done, e);
    ReachesStep(IncludeGraph(asts), k, asts[k].includes[j].world.value, m);
  }

  // ----- the resolver

  /** What a step of the resolver keeps: nothing done is undone, and what is new
      ranks below the limit. */
  ghost predicate Later(asts: seq<Ast>, t: Table, done: Done, t': Table, done': Done, limit: nat)
    requires IncludesOk(asts)
  {
    && t <= t' && Extends(done, done')
    && forall j :: j in done' && j !in done ==> j < |asts| && IncludeRank(asts, j) < limit
  }

  lemma LaterOn(asts: seq<Ast>, t: Table, done: Done, t1: Table, done1: Done, limit1: nat, t2: Table, done2: Done, limit: nat)
    requires IncludesOk(asts) && limit1 <= limit
    requires Later(asts, t, done, t1, done1, limit) && Later(asts, t1, done1, t2, done2, limit1)
    ensures Later(asts, t, done, t2, done2, limit)
  {
    hide IncludesOk;
  }

  lemma AstAt(t: Table, asts: seq<Ast>, done: Done, k: nat)
    requires WorldsOk(t, asts, done) && k < |asts|
    ensures TableOk(t) && AstOk(t, asts[k]) && UsesOk(t, asts[k].uses)
  {
  }

  lemma SkipInclude(t: Table, a: Ast, done: Done, n: nat, d: Draft)
    requires n < |a.includes| && !a.includes[n].on && Progress(t, a, done, n, d) && Sound(t, done)
    ensures Progress(t, a, done, n + 1, d)
  {
    hide TableOk, SideOk, HasOwn, IncludeIn, ListOnly;
    OnlyStays(t, t, a, done, done, n, n + 1, false, d.imports.items);
    OnlyStays(t, t, a, done, done, n, n + 1, true, d.exports.items);
  }

  lemma OwnGrows(t: Table, t': Table, a: Ast, d: Draft)
    requires OwnDone(t, t', a, a.own, d)
    ensures t <= t' && TableOk(t')
  {
  }

  lemma GrownTable(t: Table, a: Ast, done: Done, n: nat, d: Draft)
    requires n <= |a.includes| && Progress(t, a, done, n, d)
    ensures TableOk(t)
  {
  }

  lemma LaterStarts(asts: seq<Ast>, t: Table, done: Done, limit: nat)
    requires IncludesOk(asts)
    ensures Later(asts, t, done, t, done, limit)
  {
  }

  class Resolver {
    const asts: seq<Ast>
    var table: Table
    var done: Done

    ghost predicate Valid()
      reads this
    {
      IncludesOk(asts) && WorldsOk(table, asts, done)
    }

    constructor (asts: seq<Ast>, table: Table)
      requires IncludesOk(asts) && TableOk(table) && forall k :: 0 <= k < |asts| ==> AstOk(table, asts[k])
      ensures Valid() && done == map[] && this.asts == asts && this.table == table
    {
      this.asts, this.table, this.done := asts, table, map[];
    }

    /** Resolves world k and all it includes, or gives the error of one of them. */
    method ResolveWorld(k: nat) returns (failed: Option<WorldError>)
      requires Valid() && k < |asts|
      modifies this
      ensures Valid() && Later(asts, old(table), old(done), table, done, IncludeRank(asts, k) + 1)
      ensures failed.None? ==> k in done
      ensures failed.Some? ==> FailsBelow(table, asts, done, k, failed.value)
      decreases IncludeRank(asts, k), 1
    {
      hide IncludesOk, WorldsOk, FailsBelow, WorldOk, AstOk, TableOk, OwnDone, Progress, UsesOk, IncludeRank;
      if k in done {
        return None;
      }
      var a := asts[k];
      AstAt(table, asts, done, k);
      var own := AddOwn(table, a);
      if own.None? {
        FailsHere(table, asts, done, k, NotFound);
        return Some(NotFound);
      }
      hide Fails;
      OwnGrows(table, own.value.0, a, own.value.1);
      OwnIsProgress(table, own.value.0, a, done, own.value.1);
      WorldsStay(table, own.value.0, asts, done);
      table := own.value.0;
      var d;
      failed, d := IncludeAll(k, own.value.1);
      if failed.None? {
        failed := Finish(k, d);
      }
    }

    /** Brings in the includes of world k, each resolved first. */
    method IncludeAll(k: nat, first: Draft) returns (failed: Option<WorldError>, d: Draft)
      requires Valid() && k < |asts| && k !in done && Progress(table, asts[k], done, 0, first)
      modifies this
      ensures Valid() && Later(asts, old(table), old(done), table, done, IncludeRank(asts, k)) && k !in done
      ensures failed.None? ==> Progress(table, asts[k], done, |asts[k].includes|, d)
      ensures failed.Some? ==> FailsBelow(table, asts, done, k, failed.value)
      decreases IncludeRank(asts, k), 0, 1
    {
      hide IncludesOk, WorldsOk, FailsBelow, Progress, Later, IncludeRank;
      d, failed := first, None;
      LaterStarts(asts, table, done, IncludeRank(asts, k));
      for n := 0 to |asts[k].includes|
        invariant Valid() && Later(asts, old(table), old(done), table, done, IncludeRank(asts, k)) && k !in done
        invariant Progress(table, asts[k], done, n, d) && failed.None?
      {
        ghost var t1, done1 := table, done;
        failed, d := IncludeOne(k, n, d);
        LaterOn(asts, old(table), old(done), t1, done1, IncludeRank(asts, k), table, done, IncludeRank(asts, k));
        if failed.Some? {
          return;
        }
      }
    }

    method IncludeOne(k: nat, n: nat, before: Draft) returns (failed: Option<WorldError>, d: Draft)
      requires Valid() && k < |asts| && k !in done && n < |asts[k].includes| && Progress(table, asts[k], done, n, before)
      modifies this
      ensures Valid() && Later(asts, old(table), old(done), table, done, IncludeRank(asts, k)) && k !in done
      ensures failed.None? ==> Progress(table, asts[k], done, n + 1, d)
      ensures failed.Some? ==> FailsBelow(table, asts, done, k, failed.value)
      decreases IncludeRank(asts, k), 0, 0
    {
      hide IncludesOk, WorldsOk, FailsBelow, Progress, Sound, NamesFree, TableOk, IncludeRank;
      var a, inc := asts[k], asts[k].includes[n];
      d, failed := before, None;
      ghost var t1, done1 := table, done;
      WorldsAreSound(t1, asts, done1);
      if !inc.on {
        SkipInclude(table, a, done, n, d);
        return;
      }
      if inc.world.None? {
        FailsHere(table, asts, done, k, NotFound);
        return Some(NotFound), d;
      }
      IncludeIsLower(asts, k, n);
      failed := ResolveWorld(inc.world.value);
      if failed.Some? {
        FailsInside(table, asts, done, k, n, failed.value);
        return;
      }
      AstAt(table, asts, done, k);
      ProgressStays(t1, table, a, done1, done, n, d);
      WorldsAreSound(table, asts, done);
      var more := IncludeWorld(table, a, done, n, d, done[inc.world.value]);
      if more.None? {
        assert Clash(table, a, done, n, d);
        FailsHere(table, asts, done, k, Shadows);
        return Some(Shadows), d;
      }
      d := more.value.1;
      GrownTable(more.value.0, a, done, n + 1, d);
      WorldsStay(table, more.value.0, asts, done);
      table := more.value.0;
    }

    /** Elaborates world k once all its items are there. */
    method Finish(k: nat, d: Draft) returns (failed: Option<WorldError>)
      requires Valid() && k < |asts| && k !in done && Progress(table, asts[k], done, |asts[k].includes|, d)
      modifies this`done
      ensures Valid()
      ensures failed.None? ==> k in done && done == old(done)[k := done[k]]
      ensures failed.Some? ==> done == old(done) && FailsBelow(table, asts, done, k, failed.value)
    {
      hide IncludesOk, WorldsOk, FailsBelow, WorldOk, AstOk, TableOk, Progress, Sound, UsesOk, WorldBelow, Elaboration.Valid, Elaborate;
      var a := asts[k];
      AstAt(table, asts, done, k);
      WorldsAreSound(table, asts, done);
      DraftIsBelow(table, a, done, d);
      var w := ElaborateWorld(InterfacesOf(table), World(a.uses, d.imports.items, d.exports.items));
      if w.Err? {
        assert Unplaceable(table, a, done, d, w.error);
        FailsHere(table, asts, done, k, Unelaborated(w.error));
        return Some(Unelaborated(w.error));
      }
      DraftElaborates(table, a, done, d);
      OneMoreWorld(table, asts, done, k, Resolved(d.types, w.value));
      done := done[k := Resolved(d.types, w.value)];
      return None;
    }
  }
}
