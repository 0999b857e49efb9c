/** The builder that lowers the types of one func into a table, each named type
once (component/wit/types.go).
*/
module TypeBuilder {
  import opened Results
  import opened Scopes
  import opened Lowering
  import opened Meanings
  import opened TypeTables

  /** A memo key: a definition, or a handle of a resource. */
  datatype KeyKind = Plain | OwnHandle | BorrowHandle
  datatype TypeKey = TypeKey(scope: nat, name: string, kind: KeyKind)

  ghost predicate KeyOk(env: Env, key: TypeKey) {
    key.scope < |env| && key.name in env[key.scope].types
  }

  /** What a key's slot is to stand for. */
  ghost function KeyTree(env: Env, mode: Mode, key: TypeKey): Result<Tree<nat>, LowerError>
    requires WellFounded(env) && KeyOk(env, key)
  {
    if key.kind.Plain? then ExpandDef(env, mode, Def(key.scope, key.name))
    else ExpandHandle(env, mode, key.scope, key.name, key.kind.OwnHandle?)
  }

  /** r is in the table and stands for tree. */
  ghost predicate RefIs(entries: seq<Desc>, r: TypeRef, tree: Tree<nat>)
    requires TableOk(entries)
  {
    RefBelow(r, |entries|) && Resolve(entries, r) == tree
  }

  ghost predicate PartIs(entries: seq<Desc>, r: Option<TypeRef>, part: TreePart<nat>)
    requires TableOk(entries)
  {
    (r.Some? ==> RefBelow(r.value, |entries|)) && ResolvePart(entries, r) == part
  }

  ghost predicate MemoAt(env: Env, mode: Mode, entries: seq<Desc>, key: TypeKey, r: TypeRef)
    requires WellFounded(env) && TableOk(entries)
  {
    KeyOk(env, key) && KeyTree(env, mode, key).Ok? && RefIs(entries, r, KeyTree(env, mode, key).value)
  }

  ghost predicate MemoOk(env: Env, mode: Mode, entries: seq<Desc>, memo: map<TypeKey, TypeRef>)
    requires WellFounded(env) && TableOk(entries)
  {
    forall key :: key in memo ==> MemoAt(env, mode, entries, key, memo[key])
  }

  /** The slots with a name are those of named types, each named after one. */
  ghost predicate NamesOk(memo: map<TypeKey, TypeRef>, names: map<nat, string>) {
    && (forall key :: key in memo && memo[key].IndexRef? ==> memo[key].index in names)
    && (forall i :: i in names ==> exists key :: key in memo && memo[key] == IndexRef(i) && key.name == names[i])
  }

  lemma RefStays(entries: seq<Desc>, more: seq<Desc>, r: TypeRef, tree: Tree<nat>)
    requires TableOk(entries) && TableOk(more) && entries <= more && RefIs(entries, r, tree)
    ensures RefIs(more, r, tree)
  {
    ResolveStable(entries, more, r);
  }

  lemma PartStays(entries: seq<Desc>, more: seq<Desc>, r: Option<TypeRef>, part: TreePart<nat>)
    requires TableOk(entries) && TableOk(more) && entries <= more && PartIs(entries, r, part)
    ensures PartIs(more, r, part)
  {
    if r.Some? {
      ResolveStable(entries, more, r.value);
    }
  }

  lemma MemoStays(env: Env, mode: Mode, entries: seq<Desc>, more: seq<Desc>, memo: map<TypeKey, TypeRef>)
    requires WellFounded(env) && TableOk(entries) && TableOk(more) && entries <= more
    requires MemoOk(env, mode, entries, memo)
    ensures MemoOk(env, mode, more, memo)
  {
    forall key | key in memo ensures MemoAt(env, mode, more, key, memo[key]) {
      assert MemoAt(env, mode, entries, key, memo[key]);
      RefStays(entries, more, memo[key], KeyTree(env, mode, key).value);
    }
  }

  lemma MemoGives(env: Env, mode: Mode, entries: seq<Desc>, memo: map<TypeKey, TypeRef>, key: TypeKey)
    requires WellFounded(env) && TableOk(entries) && MemoOk(env, mode, entries, memo) && key in memo
    ensures MemoAt(env, mode, entries, key, memo[key])
  {
  }

  lemma MemoWith(env: Env, mode: Mode, entries: seq<Desc>, memo: map<TypeKey, TypeRef>, key: TypeKey, r: TypeRef)
    requires WellFounded(env) && TableOk(entries)
    requires MemoOk(env, mode, entries, memo) && MemoAt(env, mode, entries, key, r)
    ensures MemoOk(env, mode, entries, memo[key := r])
  {
    hide KeyOk, KeyTree, RefIs;
  }

  function SlotNames(names: map<nat, string>, key: TypeKey, r: TypeRef): map<nat, string> {
    if r.IndexRef? && r.index !in names then names[r.index := key.name] else names
  }

  lemma NamesWith(memo: map<TypeKey, TypeRef>, names: map<nat, string>, key: TypeKey, r: TypeRef)
    requires NamesOk(memo, names) && key !in memo
    ensures NamesOk(memo[key := r], SlotNames(names, key, r))
  {
    var memo', names' := memo[key := r], SlotNames(names, key, r);
    forall i | i in names' ensures exists k :: k in memo' && memo'[k] == IndexRef(i) && k.name == names'[i] {
      if i in names {
        var k :| k in memo && memo[k] == IndexRef(i) && k.name == names[i];
        assert k in memo' && memo'[k] == IndexRef(i);
      } else {
        assert key in memo' && memo'[key] == IndexRef(i);
      }
    }
  }

  // ----- what lowering can have remembered

  /** A key lowering a type of scope s, of height h, may remember. */
  ghost predicate KeyBelow(env: Env, key: TypeKey, s: nat, h: nat)
    requires WellFounded(env) && s < |env|
  {
    key.scope < |env| &&
    (!key.kind.Plain? || ScopeBelow(env, key.scope, s) || (key.scope == s && Rank(env, s, key.name) < h))
  }

  ghost predicate NewBelow(env: Env, before: map<TypeKey, TypeRef>, after: map<TypeKey, TypeRef>, s: nat, h: nat)
    requires WellFounded(env) && s < |env|
  {
    && Extends(before, after)
    && forall key :: key in after && key !in before ==> KeyBelow(env, key, s, h)
  }

  ghost predicate Extends<K, V>(before: map<K, V>, after: map<K, V>) {
    forall k :: k in before ==> k in after && after[k] == before[k]
  }

  lemma NewBelowThen(env: Env, a: map<TypeKey, TypeRef>, b: map<TypeKey, TypeRef>, c: map<TypeKey, TypeRef>, s: nat, h: nat, h': nat)
    requires WellFounded(env) && s < |env| && h' <= h
    requires NewBelow(env, a, b, s, h) && NewBelow(env, b, c, s, h')
    ensures NewBelow(env, a, c, s, h)
  {
  }

  lemma NewBelowWith(env: Env, a: map<TypeKey, TypeRef>, b: map<TypeKey, TypeRef>, key: TypeKey, r: TypeRef, s: nat, h: nat)
    requires WellFounded(env) && s < |env| && key !in b
    requires NewBelow(env, a, b, s, h) && KeyBelow(env, key, s, h)
    ensures NewBelow(env, a, b[key := r], s, h)
  {
  }

  lemma NewBelowFrom(env: Env, a: map<TypeKey, TypeRef>, b: map<TypeKey, TypeRef>, from: nat, s: nat, h: nat)
    requires WellFounded(env) && from < |env| && s < |env| && (from == s || ScopeBelow(env, from, s))
    requires NewBelow(env, a, b, from, 0)
    ensures NewBelow(env, a, b, s, h)
  {
  }

  /** Lowering the body of definition d, found from name n of s, stays below n. */
  lemma NewBelowDef(env: Env, a: map<TypeKey, TypeRef>, b: map<TypeKey, TypeRef>, s: nat, n: string, d: Def)
    requires WellFounded(env) && s < |env| && LookupType(env, s, n) == Ok(d) && BodyOf(env, d).Defined?
    requires NewBelow(env, a, b, d.scope, Height(env, d.scope, BodyOf(env, d).expr))
    requires TypeKey(d.scope, d.name, Plain) !in a
    ensures var key, h := TypeKey(d.scope, d.name, Plain), Rank(env, s, n) + 1;
            && key !in b && NewBelow(env, a, b, s, h)
            && KeyBelow(env, key, s, h)
  {
    BodyHeight(env, d);
    var key := TypeKey(d.scope, d.name, Plain);
    forall k | k in b && k !in a ensures k != key && KeyBelow(env, k, s, Rank(env, s, n) + 1) {
      assert KeyBelow(env, k, d.scope, Height(env, d.scope, BodyOf(env, d).expr));
    }
  }

  // ----- parts, one by one

  lemma {:induction false} PartHeight(env: Env, s: nat, parts: seq<Part>, k: nat)
    requires WellFounded(env) && s < |env| && k < |parts|
    ensures HeightPart(env, s, parts[k]) <= HeightParts(env, s, parts)
  {
    if k > 0 {
      PartHeight(env, s, parts[1..], k - 1);
    }
  }

  lemma {:induction false} AllPartsExpand(env: Env, mode: Mode, s: nat, parts: seq<Part>)
    requires WellFounded(env) && s < |env|
    requires forall j :: 0 <= j < |parts| ==> ExpandPart(env, mode, s, parts[j]).Ok?
    ensures ExpandParts(env, mode, s, parts).Ok? && |ExpandParts(env, mode, s, parts).value| == |parts|
    ensures forall j :: 0 <= j < |parts| ==>
                          ExpandParts(env, mode, s, parts).value[j] == ExpandPart(env, mode, s, parts[j]).value
  {
    if parts != [] {
      var rest := parts[1..];
      forall j | 0 <= j < |rest| ensures ExpandPart(env, mode, s, rest[j]).Ok? {
        assert rest[j] == parts[j + 1];
      }
      AllPartsExpand(env, mode, s, rest);
      var trees := ExpandParts(env, mode, s, rest).value;
      forall j | 0 < j < |parts|
        ensures ([ExpandPart(env, mode, s, parts[0]).value] + trees)[j] == ExpandPart(env, mode, s, parts[j]).value
      {
        assert trees[j - 1] == ExpandPart(env, mode, s, rest[j - 1]).value;
      }
    }
  }

  lemma {:induction false} FirstPartFails(env: Env, mode: Mode, s: nat, parts: seq<Part>, k: nat)
    requires WellFounded(env) && s < |env| && k < |parts| && ExpandPart(env, mode, s, parts[k]).Err?
    requires forall j :: 0 <= j < k ==> ExpandPart(env, mode, s, parts[j]).Ok?
    ensures ExpandParts(env, mode, s, parts) == Err(ExpandPart(env, mode, s, parts[k]).error)
  {
    if k > 0 {
      assert ExpandPart(env, mode, s, parts[0]).Ok?;
      forall j | 0 <= j < k - 1 ensures ExpandPart(env, mode, s, parts[1..][j]).Ok? {
        assert parts[1..][j] == parts[j + 1];
      }
      FirstPartFails(env, mode, s, parts[1..], k - 1);
    }
  }

  function RefKey(refs: seq<Option<TypeRef>>): Option<string> {
    if refs != [] && refs[0].Some? && refs[0].value.PrimRef? then Some(refs[0].value.kind) else None
  }

  /** The refs so far stand for the first of the parts. */
  ghost predicate PartsSoFar(env: Env, mode: Mode, s: nat, parts: seq<Part>, entries: seq<Desc>, refs: seq<Option<TypeRef>>)
    requires WellFounded(env) && s < |env| && TableOk(entries)
  {
    |refs| <= |parts| &&
    forall j :: 0 <= j < |refs| ==>
                  ExpandPart(env, mode, s, parts[j]).Ok? && PartIs(entries, refs[j], ExpandPart(env, mode, s, parts[j]).value)
  }

  lemma NoParts(env: Env, mode: Mode, s: nat, parts: seq<Part>, entries: seq<Desc>)
    requires WellFounded(env) && s < |env| && TableOk(entries)
    ensures PartsSoFar(env, mode, s, parts, entries, [])
  {
  }

  lemma NothingNew(env: Env, memo: map<TypeKey, TypeRef>, s: nat, h: nat)
    requires WellFounded(env) && s < |env|
    ensures NewBelow(env, memo, memo, s, h)
  {
  }

  lemma OneMorePart(env: Env, mode: Mode, s: nat, parts: seq<Part>, entries: seq<Desc>, refs: seq<Option<TypeRef>>, r: Option<TypeRef>)
    requires WellFounded(env) && s < |env| && TableOk(entries) && |refs| < |parts|
    requires PartsSoFar(env, mode, s, parts, entries, refs)
    requires ExpandPart(env, mode, s, parts[|refs|]).Ok? && PartIs(entries, r, ExpandPart(env, mode, s, parts[|refs|]).value)
    ensures PartsSoFar(env, mode, s, parts, entries, refs + [r])
  {
    hide ExpandPart, PartIs;
  }

  lemma FirstFails(env: Env, mode: Mode, s: nat, parts: seq<Part>, entries: seq<Desc>, refs: seq<Option<TypeRef>>, k: nat)
    requires WellFounded(env) && s < |env| && TableOk(entries) && PartsSoFar(env, mode, s, parts, entries, refs)
    requires |refs| == k < |parts| && ExpandPart(env, mode, s, parts[k]).Err?
    ensures ExpandParts(env, mode, s, parts) == Err(ExpandPart(env, mode, s, parts[k]).error)
  {
    hide ExpandPart, PartIs;
    FirstPartFails(env, mode, s, parts, k);
  }

  lemma PartsStay(env: Env, mode: Mode, s: nat, parts: seq<Part>, entries: seq<Desc>, more: seq<Desc>, refs: seq<Option<TypeRef>>)
    requires WellFounded(env) && s < |env| && TableOk(entries) && TableOk(more) && entries <= more
    requires PartsSoFar(env, mode, s, parts, entries, refs)
    ensures PartsSoFar(env, mode, s, parts, more, refs)
  {
    forall j | 0 <= j < |refs| ensures PartIs(more, refs[j], ExpandPart(env, mode, s, parts[j]).value) {
      PartStays(entries, more, refs[j], ExpandPart(env, mode, s, parts[j]).value);
    }
  }

  lemma PartsDone(env: Env, mode: Mode, s: nat, parts: seq<Part>, entries: seq<Desc>, refs: seq<Option<TypeRef>>)
    requires WellFounded(env) && s < |env| && TableOk(entries) && |refs| == |parts|
    requires PartsSoFar(env, mode, s, parts, entries, refs)
    ensures PartsBelow(refs, |entries|)
    ensures ExpandParts(env, mode, s, parts) == Ok(ResolveParts(entries, refs))
    ensures TreeKey(ResolveParts(entries, refs)) == RefKey(refs)
  {
    AllPartsExpand(env, mode, s, parts);
    var trees := ExpandParts(env, mode, s, parts).value;
    forall j | 0 <= j < |refs| ensures trees[j] == ResolvePart(entries, refs[j]) {
      assert PartIs(entries, refs[j], ExpandPart(env, mode, s, parts[j]).value);
    }
    assert trees == ResolveParts(entries, refs);
    if refs != [] && refs[0].Some? && refs[0].value.IndexRef? {
      assert SlotOk(entries, refs[0].value.index);
    }
  }

  /** The key a type is remembered by: the definition a name leads to, or the
      resource a handle is of. Types written inline have none. */
  function KeyFor(env: Env, s: nat, t: TypeExpr): Option<TypeKey>
    requires WellFounded(env) && s < |env|
  {
    match t
    case Named(n) =>
      (match LookupType(env, s, n)
       case Err(_) => None
       case Ok(d) => Some(TypeKey(d.scope, d.name, if BodyOf(env, d).Resource? then OwnHandle else Plain)))
    case Handle(own, n) =>
      (match LookupResource(env, s, n)
       case Err(_) => None
       case Ok(d) =>
         if BodyOf(env, d).Resource? then Some(TypeKey(d.scope, d.name, if own then OwnHandle else BorrowHandle)) else None)
    case _ => None
  }

  lemma KeyForDef(env: Env, s: nat, n: string, d: Def)
    requires WellFounded(env) && s < |env| && LookupType(env, s, n) == Ok(d)
    ensures KeyFor(env, s, Named(n)) == Some(TypeKey(d.scope, d.name, if BodyOf(env, d).Resource? then OwnHandle else Plain))
    ensures BodyOf(env, d).Resource? ==> KeyFor(env, s, Named(n)) == KeyFor(env, d.scope, Handle(true, d.name))
  {
    assert LookupType(env, d.scope, d.name) == Ok(d);
  }

  /** Lowering a type with this key to r: what was remembered is given again and
      nothing changes, and what is given is remembered. */
  ghost predicate OncePerTable(key: Option<TypeKey>, r: Result<TypeRef, LowerError>,
                               before: map<TypeKey, TypeRef>, after: map<TypeKey, TypeRef>,
                               entries: seq<Desc>, more: seq<Desc>)
  {
    key.Some? ==>
      && (key.value in before ==> r == Ok(before[key.value]) && after == before && more == entries)
      && (r.Ok? ==> key.value in after && after[key.value] == r.value)
  }

  /** References to one definition, or to one resource's handle, share a slot. */
  ghost predicate Shared(env: Env, s: nat, parts: seq<Part>, refs: seq<Option<TypeRef>>)
    requires WellFounded(env) && s < |env| && |refs| == |parts|
  {
    forall i, j :: 0 <= i < j < |parts| && parts[i].Present? && parts[j].Present?
                   && KeyFor(env, s, parts[i].expr).Some? && KeyFor(env, s, parts[i].expr) == KeyFor(env, s, parts[j].expr)
                   ==> refs[i] == refs[j]
  }

  /** What the first parts were lowered to is remembered. */
  ghost predicate Remembered(env: Env, s: nat, parts: seq<Part>, refs: seq<Option<TypeRef>>, memo: map<TypeKey, TypeRef>)
    requires WellFounded(env) && s < |env|
  {
    |refs| <= |parts| && forall i :: 0 <= i < |refs| ==> RememberedAs(env, s, parts[i], refs[i], memo)
  }

  ghost predicate RememberedAs(env: Env, s: nat, part: Part, r: Option<TypeRef>, memo: map<TypeKey, TypeRef>)
    requires WellFounded(env) && s < |env|
  {
    part.Present? && KeyFor(env, s, part.expr).Some? ==>
      r.Some? && KeyFor(env, s, part.expr).value in memo && memo[KeyFor(env, s, part.expr).value] == r.value
  }

  lemma RememberedStays(env: Env, s: nat, parts: seq<Part>, refs: seq<Option<TypeRef>>,
                        before: map<TypeKey, TypeRef>, after: map<TypeKey, TypeRef>)
    requires WellFounded(env) && s < |env| && Remembered(env, s, parts, refs, before) && Extends(before, after)
    ensures Remembered(env, s, parts, refs, after)
  {
    hide KeyFor;
    forall i | 0 <= i < |refs| ensures RememberedAs(env, s, parts[i], refs[i], after) {
      assert RememberedAs(env, s, parts[i], refs[i], before);
    }
  }

  lemma RememberedIsShared(env: Env, s: nat, parts: seq<Part>, refs: seq<Option<TypeRef>>, memo: map<TypeKey, TypeRef>)
    requires WellFounded(env) && s < |env| && Remembered(env, s, parts, refs, memo) && |refs| == |parts|
    ensures Shared(env, s, parts, refs)
  {
    hide KeyFor;
    forall i, j | 0 <= i < j < |parts| && parts[i].Present? && parts[j].Present?
                  && KeyFor(env, s, parts[i].expr).Some? && KeyFor(env, s, parts[i].expr) == KeyFor(env, s, parts[j].expr)
      ensures refs[i] == refs[j]
    {
      assert RememberedAs(env, s, parts[i], refs[i], memo) && RememberedAs(env, s, parts[j], refs[j], memo);
    }
  }

  class Builder {
    const env: Env
    const mode: Mode
    const tbl: TypeTable
    var memo: map<TypeKey, TypeRef>
    var names: map<nat, string>

    constructor (env: Env, mode: Mode)
      requires WellFounded(env)
      ensures this.env == env && this.mode == mode && fresh(tbl)
      ensures Valid() && tbl.entries == [] && memo == map[] && names == map[]
    {
      this.env, this.mode := env, mode;
      tbl := new TypeTable();
      memo, names := map[], map[];
    }

    ghost predicate Valid()
      reads this, tbl
    {
      && WellFounded(env) && TableOk(tbl.entries)
      && MemoOk(env, mode, tbl.entries, memo) && NamesOk(memo, names)
    }

    /** r is the reference expected, or the error. */
    ghost predicate Delivers(r: Result<TypeRef, LowerError>, expected: Result<Tree<nat>, LowerError>)
      reads tbl
      requires TableOk(tbl.entries)
    {
      match expected
      case Ok(tree) => r.Ok? && RefIs(tbl.entries, r.value, tree)
      case Err(e) => r == Err(e)
    }

    /** The memo gains the key. A slot's name is that of the first key that led
        to it. */
    method Remember(key: TypeKey, r: TypeRef)
      requires Valid() && MemoAt(env, mode, tbl.entries, key, r)
      requires key !in memo
      modifies this
      ensures Valid() && memo == old(memo)[key := r] && names == SlotNames(old(names), key, r)
      ensures Extends(old(names), names)
    {
      hide KeyOk, KeyTree, RefIs, TableOk;
      MemoWith(env, mode, tbl.entries, memo, key, r);
      NamesWith(memo, names, key, r);
      memo := memo[key := r];
      if r.IndexRef? && r.index !in names {
        names := names[r.index := key.name];
      }
    }

    method AddSlot(d: Desc) returns (r: TypeRef)
      requires Valid() && !d.PrimDesc? && (d.CompoundDesc? ==> PartsBelow(d.parts, |tbl.entries|))
      modifies tbl
      ensures Valid() && tbl.entries == old(tbl.entries) + [d] && r == IndexRef(|old(tbl.entries)|)
    {
      TableGrows(tbl.entries, d);
      MemoStays(env, mode, tbl.entries, tbl.entries + [d], memo);
      r := tbl.Add(d);
    }

    /** The reference stands for the plain expansion of t in s, which would lower
        everything afresh; a type with a key takes at most one slot per table. */
    method Ref(s: nat, t: TypeExpr) returns (r: Result<TypeRef, LowerError>)
      requires Valid() && s < |env|
      modifies this, tbl
      ensures Valid() && old(tbl.entries) <= tbl.entries && NewBelow(env, old(memo), memo, s, Height(env, s, t))
      ensures Delivers(r, Expand(env, mode, s, t))
      ensures OncePerTable(KeyFor(env, s, t), r, old(memo), memo, old(tbl.entries), tbl.entries)
      decreases PkgRank(env, s), IfaceRank(env, s), Height(env, s, t), 0, t, 1
    {
      hide MemoOk, NamesOk, LookupType, LookupResource, WellFounded, TableOk;
      match t
      case Prim(k) =>
        r := Ok(PrimRef(k));
      case Named(n) =>
        r := NamedRef(s, n);
      case Handle(own, n) =>
        r := HandleRef(s, n, own);
      case Compound(_, _) =>
        r := CompoundRef(s, t);
    }

    /** Lowers a type written inline: its parts in order, then itself. */
    method CompoundRef(s: nat, t: TypeExpr) returns (r: Result<TypeRef, LowerError>)
      requires Valid() && s < |env| && t.Compound?
      modifies this, tbl
      ensures Valid() && old(tbl.entries) <= tbl.entries && NewBelow(env, old(memo), memo, s, Height(env, s, t))
      ensures Delivers(r, Expand(env, mode, s, t))
      decreases PkgRank(env, s), IfaceRank(env, s), Height(env, s, t), 0, t, 0
    {
      hide MemoOk, NamesOk, NewBelow, KeyFor, LookupType, LookupResource, WellFounded, PartsSoFar, RememberedAs;
      var Compound(shape, parts) := t;
      var refs: seq<Option<TypeRef>> := [];
      NoParts(env, mode, s, parts, tbl.entries);
      NothingNew(env, memo, s, Height(env, s, t));
      for k := 0 to |parts|
        invariant Valid() && old(tbl.entries) <= tbl.entries
        invariant NewBelow(env, old(memo), memo, s, Height(env, s, t))
        invariant |refs| == k && PartsSoFar(env, mode, s, parts, tbl.entries, refs)
      {
        PartHeight(env, s, parts, k);
        assert parts[k] < t;
        ghost var before, memoBefore := tbl.entries, memo;
        var part := Opt(s, parts[k]);
        NewBelowThen(env, old(memo), memoBefore, memo, s, Height(env, s, t), HeightPart(env, s, parts[k]));
        if part.Err? {
          FirstFails(env, mode, s, parts, before, refs, k);
          return Err(part.error);
        }
        PartsStay(env, mode, s, parts, before, tbl.entries, refs);
        OneMorePart(env, mode, s, parts, tbl.entries, refs, part.value);
        refs := refs + [part.value];
      }
      PartsDone(env, mode, s, parts, tbl.entries, refs);
      var final := FinalShape(mode, shape, RefKey(refs));
      if final.Err? {
        return Err(final.error);
      }
      ResolveNew(tbl.entries, final.value, refs);
      var slot := AddSlot(CompoundDesc(final.value, refs));
      r := Ok(slot);
    }

    /** Lowers an optional inner type. */
    method Opt(s: nat, part: Part) returns (r: Result<Option<TypeRef>, LowerError>)
      requires Valid() && s < |env|
      modifies this, tbl
      ensures Valid() && old(tbl.entries) <= tbl.entries && NewBelow(env, old(memo), memo, s, HeightPart(env, s, part))
      ensures match ExpandPart(env, mode, s, part)
              case Ok(tree) => r.Ok? && PartIs(tbl.entries, r.value, tree)
              case Err(e) => r == Err(e)
      ensures r.Ok? ==> RememberedAs(env, s, part, r.value, memo)
      decreases PkgRank(env, s), IfaceRank(env, s), HeightPart(env, s, part), 0, part
    {
      match part
      case Absent =>
        r := Ok(None);
      case Present(t) =>
        var ref := Ref(s, t);
        r := if ref.Ok? then Ok(Some(ref.value)) else Err(ref.error);
    }

    /** Lowers a reference to the type called n in scope s, once per table. */
    method NamedRef(s: nat, n: string) returns (r: Result<TypeRef, LowerError>)
      requires Valid() && s < |env|
      modifies this, tbl
      ensures Valid() && old(tbl.entries) <= tbl.entries && NewBelow(env, old(memo), memo, s, Rank(env, s, n) + 1)
      ensures Delivers(r, Expand(env, mode, s, Named(n)))
      ensures OncePerTable(KeyFor(env, s, Named(n)), r, old(memo), memo, old(tbl.entries), tbl.entries)
      decreases PkgRank(env, s), IfaceRank(env, s), Rank(env, s, n), 1
    {
      hide MemoOk, NamesOk, WellFounded, TableOk, NewBelow;
      NothingNew(env, memo, s, Rank(env, s, n) + 1);
      var found := FindType(env, s, n);
      ExpandNamedIs(env, mode, s, n);
      if found.Err? {
        return Err(found.error);
      }
      var d := found.value;
      ExpandDefIs(env, mode, d);
      KeyForDef(env, s, n, d);
      hide KeyFor, LookupResource;
      if BodyOf(env, d).Resource? {
        r := HandleRef(d.scope, d.name, true);
        NewBelowFrom(env, old(memo), memo, d.scope, s, Rank(env, s, n) + 1);
        return;
      }
      var key := TypeKey(d.scope, d.name, Plain);
      if key in memo {
        MemoGives(env, mode, tbl.entries, memo, key);
        return Ok(memo[key]);
      }
      BodyHeight(env, d);
      r := Ref(d.scope, BodyOf(env, d).expr);
      NewBelowDef(env, old(memo), memo, s, n, d);
      if r.Ok? {
        assert MemoAt(env, mode, tbl.entries, key, r.value);
        NewBelowWith(env, old(memo), memo, key, r.value, s, Rank(env, s, n) + 1);
        Remember(key, r.value);
      }
    }

    /** Lowers own<n> or borrow<n> in scope s, once per table. */
    method HandleRef(s: nat, n: string, own: bool) returns (r: Result<TypeRef, LowerError>)
      requires Valid() && s < |env|
      modifies this, tbl
      ensures Valid() && old(tbl.entries) <= tbl.entries && NewBelow(env, old(memo), memo, s, 0)
      ensures Delivers(r, ExpandHandle(env, mode, s, n, own))
      ensures OncePerTable(KeyFor(env, s, Handle(own, n)), r, old(memo), memo, old(tbl.entries), tbl.entries)
      ensures r.Ok? ==> HandleSlot(env, mode, tbl.entries, s, n, own, r.value)
    {
      hide MemoOk, NamesOk, WellFounded, TableOk;
      var found := FindResource(env, s, n);
      if found.Err? {
        return Err(found.error);
      }
      var d := found.value;
      if !BodyOf(env, d).Resource? {
        return Err(NotResource);
      }
      var key := TypeKey(d.scope, d.name, if own then OwnHandle else BorrowHandle);
      assert LookupType(env, d.scope, d.name) == Ok(d) && LookupResource(env, d.scope, d.name) == Ok(d);
      assert KeyTree(env, mode, key) == ExpandHandle(env, mode, s, n, own);
      if key in memo {
        MemoGives(env, mode, tbl.entries, memo, key);
        SlotOfHandle(env, mode, tbl.entries, s, n, own, memo[key]);
        return Ok(memo[key]);
      }
      var tag := TagFor(mode, KeyOf(env, d));
      if tag.None? {
        return Err(NoTag);
      }
      ResolveNewHandle(tbl.entries, own, tag.value);
      var slot := AddSlot(HandleDesc(own, tag.value));
      Remember(key, slot);
      SlotOfHandle(env, mode, tbl.entries, s, n, own, slot);
      r := Ok(slot);
    }

    /** Lowers a func's params and result: they mean what is written, and it fails
        exactly when something written means nothing. */
    method LowerFunc(f: Func) returns (r: Result<FuncDesc, LowerError>)
      requires Valid() && f.scope < |env|
      modifies this, tbl
      ensures Valid()
      ensures var parts := ExpandParts(env, mode, f.scope, FuncParts(f)); if r.Ok? then parts.Ok? else parts == Err(r.error)
      ensures r.Ok? ==> FuncMeans(env, mode, tbl.entries, r.value, f) && SameIsShared(env, f, r.value)
      ensures r.Err? <==> exists t :: WrittenIn(f, t) && Meaningless(env, mode, f.scope, t)
    {
      hide MemoOk, NamesOk, WellFounded, TableOk, ExpandParts, FuncMeans, SameIsShared, Shared, ResolveParts, FuncParts, FuncRefs,
           Meaningless, WrittenIn;
      r := LowerAll(f);
      if r.Ok? {
        FuncHasMeaning(env, mode, tbl.entries, r.value, f);
        forall t | WrittenIn(f, t) ensures !Meaningless(env, mode, f.scope, t) {
          NothingIsMeaningless(env, mode, tbl.entries, r.value, f, t);
        }
        SharedMeansSame(env, f, r.value);
      } else {
        SomethingMeansNothing(env, mode, f);
      }
    }

    method LowerAll(f: Func) returns (r: Result<FuncDesc, LowerError>)
      requires Valid() && f.scope < |env|
      modifies this, tbl
      ensures Valid()
      ensures match ExpandParts(env, mode, f.scope, FuncParts(f))
              case Ok(trees) =>
                r.Ok? && Describes(tbl.entries, r.value, f) && ResolveParts(tbl.entries, FuncRefs(r.value)) == trees
              case Err(e) => r == Err(e)
      ensures r.Ok? ==> |FuncRefs(r.value)| == |FuncParts(f)| && Shared(env, f.scope, FuncParts(f), FuncRefs(r.value))
    {
      hide MemoOk, NamesOk, WellFounded, TableOk, KeyFor, KeyBelow;
      var wanted, all := Params(f), FuncParts(f);
      var refs: seq<Option<TypeRef>>, params: seq<FuncParam> := [], [];
      for k := 0 to |wanted|
        invariant Valid() && |refs| == k && PartsSoFar(env, mode, f.scope, all, tbl.entries, refs)
        invariant |params| == k && Remembered(env, f.scope, all, refs, memo)
        invariant forall j :: 0 <= j < k ==> params[j].name == wanted[j].name && refs[j] == Some(params[j].ref)
      {
        ghost var before, memoBefore := tbl.entries, memo;
        assert all[k] == Present(wanted[k].expr);
        var ref := Ref(f.scope, wanted[k].expr);
        assert ExpandPart(env, mode, f.scope, all[k]).Ok? <==> ref.Ok?;
        if ref.Err? {
          FirstPartFails(env, mode, f.scope, all, k);
          return Err(ref.error);
        }
        PartsStay(env, mode, f.scope, all, before, tbl.entries, refs);
        RememberedStays(env, f.scope, all, refs, memoBefore, memo);
        assert RememberedAs(env, f.scope, all[k], Some(ref.value), memo);
        refs := refs + [Some(ref.value)];
        params := params + [FuncParam(wanted[k].name, ref.value)];
      }
      ghost var before, memoBefore := tbl.entries, memo;
      assert all[|wanted|] == ResultPart(f);
      var result := Opt(f.scope, ResultPart(f));
      if result.Err? {
        FirstPartFails(env, mode, f.scope, all, |wanted|);
        return Err(result.error);
      }
      PartsStay(env, mode, f.scope, all, before, tbl.entries, refs);
      RememberedStays(env, f.scope, all, refs, memoBefore, memo);
      refs := refs + [result.value];
      RememberedIsShared(env, f.scope, all, refs, memo);
      PartsDone(env, mode, f.scope, all, tbl.entries, refs);
      assert refs == FuncRefs(FuncDesc(params, result.value));
      r := Ok(FuncDesc(params, result.value));
    }
  }

  // ----- funcs

  datatype FuncKind = Freestanding | Method | Static | Constructor

  datatype Param = Param(name: string, expr: TypeExpr)

  datatype Func = Func(scope: nat, kind: FuncKind, resource: string, params: seq<Param>, result: Option<TypeExpr>)

  datatype FuncParam = FuncParam(name: string, ref: TypeRef)

  datatype FuncDesc = FuncDesc(params: seq<FuncParam>, result: Option<TypeRef>)

  /** The params, a method's implicit self first. */
  function Params(f: Func): seq<Param> {
    (if f.kind.Method? then [Param("self", Handle(false, f.resource))] else []) + f.params
  }

  /** The result; a constructor that declares none returns the resource. */
  function ResultPart(f: Func): Part {
    if f.result.Some? then Present(f.result.value)
    else if f.kind.Constructor? then Present(Handle(true, f.resource))
    else Absent
  }

  /** The params and the result, as parts. */
  function FuncParts(f: Func): (parts: seq<Part>)
    ensures |parts| == |Params(f)| + 1
  {
    seq(|Params(f)|, k requires 0 <= k < |Params(f)| => Present(Params(f)[k].expr)) + [ResultPart(f)]
  }

  function FuncRefs(d: FuncDesc): seq<Option<TypeRef>> {
    seq(|d.params|, k requires 0 <= k < |d.params| => Some(d.params[k].ref)) + [d.result]
  }

  /** The descriptor names the func's params and refers into the table. */
  ghost predicate Describes(entries: seq<Desc>, d: FuncDesc, f: Func) {
    && TableOk(entries) && PartsBelow(FuncRefs(d), |entries|)
    && |d.params| == |Params(f)| && forall k :: 0 <= k < |d.params| ==> d.params[k].name == Params(f)[k].name
  }

  // ----- what a func's descriptor means

  ghost predicate RefMeans(env: Env, mode: Mode, entries: seq<Desc>, s: nat, t: TypeExpr, r: TypeRef)
    requires WellFounded(env) && s < |env|
  {
    TableOk(entries) && RefBelow(r, |entries|) && Means(env, mode, s, t, Resolve(entries, r))
  }

  /** The slot of a handle holds the tag of the resource the name leads to. */
  ghost predicate HandleSlot(env: Env, mode: Mode, entries: seq<Desc>, s: nat, n: string, own: bool, r: TypeRef) {
    && r.IndexRef? && r.index < |entries| && entries[r.index].HandleDesc? && entries[r.index].own == own
    && exists d :: NameMeans(env, s, n, d, true) && env[d.scope].types[d.name].Resource?
                   && HandleMeans(env, mode, d, own, HandleTree(own, entries[r.index].tag))
  }

  lemma SlotOfHandle(env: Env, mode: Mode, entries: seq<Desc>, s: nat, n: string, own: bool, r: TypeRef)
    requires WellFounded(env) && s < |env| && TableOk(entries)
    requires ExpandHandle(env, mode, s, n, own).Ok? && RefIs(entries, r, ExpandHandle(env, mode, s, n, own).value)
    ensures HandleSlot(env, mode, entries, s, n, own, r)
  {
    var tree := ExpandHandle(env, mode, s, n, own).value;
    assert tree.HandleTree?;
    hide ExpandHandle;
    HandleIffMeans(env, mode, s, n, own, tree);
    assert r.IndexRef? && SlotOk(entries, r.index);
    var d :| NameMeans(env, s, n, d, true) && env[d.scope].types[d.name].Resource? && HandleMeans(env, mode, d, own, tree);
    assert tree == HandleTree(own, entries[r.index].tag);
  }

  /** A method's first param is a borrow of its resource, called self; the others
      are those declared. The result is the one declared, or for a constructor an
      owned handle of its resource. */
  ghost predicate FuncMeans(env: Env, mode: Mode, entries: seq<Desc>, d: FuncDesc, f: Func)
    requires WellFounded(env) && f.scope < |env|
  {
    ParamsMean(env, mode, entries, d.params, f) && ResultMeans(env, mode, entries, d.result, f)
  }

  ghost predicate ParamsMean(env: Env, mode: Mode, entries: seq<Desc>, params: seq<FuncParam>, f: Func)
    requires WellFounded(env) && f.scope < |env|
  {
    var first := if f.kind.Method? then 1 else 0;
    && |params| == first + |f.params|
    && (f.kind.Method? ==>
          params[0].name == "self" && RefMeans(env, mode, entries, f.scope, Handle(false, f.resource), params[0].ref))
    && forall k :: 0 <= k < |f.params| ==>
                     && params[first + k].name == f.params[k].name
                     && RefMeans(env, mode, entries, f.scope, f.params[k].expr, params[first + k].ref)
  }

  ghost predicate ResultMeans(env: Env, mode: Mode, entries: seq<Desc>, result: Option<TypeRef>, f: Func)
    requires WellFounded(env) && f.scope < |env|
  {
    if f.result.Some? then result.Some? && RefMeans(env, mode, entries, f.scope, f.result.value, result.value)
    else if f.kind.Constructor? then result.Some? && RefMeans(env, mode, entries, f.scope, Handle(true, f.resource), result.value)
    else result.None?
  }

  /** A type of the func, the implicit ones included. */
  ghost predicate WrittenIn(f: Func, t: TypeExpr) {
    || (f.kind.Method? && t == Handle(false, f.resource))
    || (exists k :: 0 <= k < |f.params| && f.params[k].expr == t)
    || f.result == Some(t)
    || (f.result.None? && f.kind.Constructor? && t == Handle(true, f.resource))
  }

  ghost predicate Meaningless(env: Env, mode: Mode, s: nat, t: TypeExpr)
    requires WellFounded(env) && s < |env|
  {
    forall tree :: !Means(env, mode, s, t, tree)
  }

  lemma {:induction false} PartsMeanAt(env: Env, mode: Mode, s: nat, parts: seq<Part>, trees: seq<TreePart<nat>>, k: nat)
    requires WellFounded(env) && s < |env| && PartsMean(env, mode, s, parts, trees) && k < |parts|
    ensures |trees| == |parts| && PartMeans(env, mode, s, parts[k], trees[k])
  {
    if k > 0 {
      PartsMeanAt(env, mode, s, parts[1..], trees[1..], k - 1);
    }
  }

  lemma WrittenPart(f: Func, k: nat)
    requires k < |FuncParts(f)|
    ensures FuncParts(f)[k].Present? ==> WrittenIn(f, FuncParts(f)[k].expr)
  {
    if k < |Params(f)| && (!f.kind.Method? || k > 0) {
      var j := if f.kind.Method? then k - 1 else k;
      assert FuncParts(f)[k] == Present(f.params[j].expr);
    }
  }

  lemma PartWritten(f: Func, t: TypeExpr) returns (k: nat)
    requires WrittenIn(f, t)
    ensures k < |FuncParts(f)| && FuncParts(f)[k] == Present(t)
  {
    var parts := FuncParts(f);
    if f.kind.Method? && t == Handle(false, f.resource) {
      k := 0;
    } else if j: nat :| j < |f.params| && f.params[j].expr == t {
      k := if f.kind.Method? then j + 1 else j;
      assert parts[k] == Present(Params(f)[k].expr);
    } else {
      k := |parts| - 1;
    }
  }

  lemma PartHasMeaning(env: Env, mode: Mode, entries: seq<Desc>, d: FuncDesc, f: Func, k: nat)
    requires WellFounded(env) && f.scope < |env| && Describes(entries, d, f) && k < |FuncParts(f)|
    requires ExpandParts(env, mode, f.scope, FuncParts(f)) == Ok(ResolveParts(entries, FuncRefs(d)))
    ensures |FuncRefs(d)| == |FuncParts(f)|
    ensures if FuncParts(f)[k].Absent? then FuncRefs(d)[k].None?
            else FuncRefs(d)[k].Some? && RefMeans(env, mode, entries, f.scope, FuncParts(f)[k].expr, FuncRefs(d)[k].value)
  {
    hide ExpandParts, Means;
    var trees := ResolveParts(entries, FuncRefs(d));
    PartsIffMean(env, mode, f.scope, FuncParts(f), trees);
    PartsMeanAt(env, mode, f.scope, FuncParts(f), trees, k);
  }

  lemma ParamHasMeaning(env: Env, mode: Mode, entries: seq<Desc>, d: FuncDesc, f: Func, k: nat)
    requires WellFounded(env) && f.scope < |env| && Describes(entries, d, f) && k < |Params(f)|
    requires ExpandParts(env, mode, f.scope, FuncParts(f)) == Ok(ResolveParts(entries, FuncRefs(d)))
    ensures d.params[k].name == Params(f)[k].name
    ensures RefMeans(env, mode, entries, f.scope, Params(f)[k].expr, d.params[k].ref)
  {
    hide ExpandParts, RefMeans, ResolveParts, Params;
    PartHasMeaning(env, mode, entries, d, f, k);
  }

  lemma FuncHasMeaning(env: Env, mode: Mode, entries: seq<Desc>, d: FuncDesc, f: Func)
    requires WellFounded(env) && f.scope < |env| && Describes(entries, d, f)
    requires ExpandParts(env, mode, f.scope, FuncParts(f)) == Ok(ResolveParts(entries, FuncRefs(d)))
    ensures FuncMeans(env, mode, entries, d, f)
  {
    hide RefMeans, ExpandParts, ResolveParts, FuncRefs, FuncParts, WellFounded, TableOk, ParamsMean, ResultMeans, Describes;
    AllParamsMean(env, mode, entries, d, f);
    ResultHasMeaning(env, mode, entries, d, f);
  }

  lemma ParamsAre(f: Func)
    ensures var first := if f.kind.Method? then 1 else 0;
            && |Params(f)| == first + |f.params|
            && (f.kind.Method? ==> Params(f)[0] == Param("self", Handle(false, f.resource)))
            && forall k :: 0 <= k < |f.params| ==> Params(f)[first + k] == f.params[k]
  {
  }

  lemma AllParamsMean(env: Env, mode: Mode, entries: seq<Desc>, d: FuncDesc, f: Func)
    requires WellFounded(env) && f.scope < |env| && Describes(entries, d, f)
    requires ExpandParts(env, mode, f.scope, FuncParts(f)) == Ok(ResolveParts(entries, FuncRefs(d)))
    ensures ParamsMean(env, mode, entries, d.params, f)
  {
    forall k | 0 <= k < |Params(f)|
      ensures d.params[k].name == Params(f)[k].name && RefMeans(env, mode, entries, f.scope, Params(f)[k].expr, d.params[k].ref)
    {
      ParamHasMeaning(env, mode, entries, d, f, k);
    }
    assert |d.params| == |Params(f)|;
    hide RefMeans, ExpandParts, ResolveParts, FuncRefs, FuncParts, WellFounded, Describes, Params;
    ParamsAre(f);
  }

  lemma ResultHasMeaning(env: Env, mode: Mode, entries: seq<Desc>, d: FuncDesc, f: Func)
    requires WellFounded(env) && f.scope < |env| && Describes(entries, d, f)
    requires ExpandParts(env, mode, f.scope, FuncParts(f)) == Ok(ResolveParts(entries, FuncRefs(d)))
    ensures ResultMeans(env, mode, entries, d.result, f)
  {
    hide RefMeans, ExpandParts, ResolveParts, WellFounded, TableOk, Params;
    PartHasMeaning(env, mode, entries, d, f, |Params(f)|);
  }

  lemma NothingIsMeaningless(env: Env, mode: Mode, entries: seq<Desc>, d: FuncDesc, f: Func, t: TypeExpr)
    requires WellFounded(env) && f.scope < |env| && Describes(entries, d, f) && WrittenIn(f, t)
    requires ExpandParts(env, mode, f.scope, FuncParts(f)) == Ok(ResolveParts(entries, FuncRefs(d)))
    ensures !Meaningless(env, mode, f.scope, t)
  {
    hide RefMeans, ExpandParts, ResolveParts, FuncRefs, Meaningless;
    var k := PartWritten(f, t);
    PartHasMeaning(env, mode, entries, d, f, k);
    HasSomeMeaning(env, mode, entries, f.scope, t, FuncRefs(d)[k].value);
  }

  lemma HasSomeMeaning(env: Env, mode: Mode, entries: seq<Desc>, s: nat, t: TypeExpr, r: TypeRef)
    requires WellFounded(env) && s < |env| && RefMeans(env, mode, entries, s, t, r)
    ensures !Meaningless(env, mode, s, t)
  {
    hide Means;
  }

  lemma SomethingMeansNothing(env: Env, mode: Mode, f: Func)
    requires WellFounded(env) && f.scope < |env| && ExpandParts(env, mode, f.scope, FuncParts(f)).Err?
    ensures exists t :: WrittenIn(f, t) && Meaningless(env, mode, f.scope, t)
  {
    var parts := FuncParts(f);
    if forall k :: 0 <= k < |parts| ==> ExpandPart(env, mode, f.scope, parts[k]).Ok? {
      AllPartsExpand(env, mode, f.scope, parts);
    } else {
      var k :| 0 <= k < |parts| && ExpandPart(env, mode, f.scope, parts[k]).Err?;
      WrittenPart(f, k);
      var t := parts[k].expr;
      forall tree ensures !Means(env, mode, f.scope, t, tree) {
        ExpandIffMeans(env, mode, f.scope, t, tree);
      }
      assert Meaningless(env, mode, f.scope, t);
    }
  }

  // ----- what shares a slot

  /** Two types of a scope name one thing: a definition, or handles of one kind of
      one resource, which its name is an owned one of. */
  ghost predicate SameThing(env: Env, s: nat, a: TypeExpr, b: TypeExpr) {
    || (exists d :: NamesDef(env, s, a, d) && NamesDef(env, s, b, d))
    || (exists d, own :: NamesHandle(env, s, a, d, own) && NamesHandle(env, s, b, d, own))
  }

  ghost predicate NamesDef(env: Env, s: nat, t: TypeExpr, d: Def) {
    t.Named? && NameMeans(env, s, t.name, d, false) && env[d.scope].types[d.name].Defined?
  }

  ghost predicate NamesHandle(env: Env, s: nat, t: TypeExpr, d: Def, own: bool) {
    || (t.Handle? && t.own == own && NameMeans(env, s, t.name, d, true) && env[d.scope].types[d.name].Resource?)
    || (t.Named? && own && NameMeans(env, s, t.name, d, false) && env[d.scope].types[d.name].Resource?)
  }

  lemma SameHasOneKey(env: Env, s: nat, a: TypeExpr, b: TypeExpr)
    requires WellFounded(env) && s < |env| && SameThing(env, s, a, b)
    ensures KeyFor(env, s, a).Some? && KeyFor(env, s, a) == KeyFor(env, s, b)
  {
    if d :| NamesDef(env, s, a, d) && NamesDef(env, s, b, d) {
      FoundIffUsesLead(env, s, a.name, d);
      FoundIffUsesLead(env, s, b.name, d);
    } else {
      var d, own :| NamesHandle(env, s, a, d, own) && NamesHandle(env, s, b, d, own);
      HandleKey(env, s, a, d, own);
      HandleKey(env, s, b, d, own);
    }
  }

  lemma HandleKey(env: Env, s: nat, t: TypeExpr, d: Def, own: bool)
    requires WellFounded(env) && s < |env| && NamesHandle(env, s, t, d, own)
    ensures KeyFor(env, s, t) == Some(TypeKey(d.scope, d.name, if own then OwnHandle else BorrowHandle))
  {
    if t.Named? {
      FoundIffUsesLead(env, s, t.name, d);
    } else {
      ResourceFoundIffLed(env, s, t.name, d);
    }
  }

  /** Params that name one thing refer to one slot. */
  ghost predicate SameIsShared(env: Env, f: Func, d: FuncDesc) {
    var first := if f.kind.Method? then 1 else 0;
    && |d.params| == first + |f.params|
    && forall i, j :: 0 <= i < j < |f.params| && SameThing(env, f.scope, f.params[i].expr, f.params[j].expr) ==>
                        d.params[first + i].ref == d.params[first + j].ref
  }

  lemma SharedMeansSame(env: Env, f: Func, d: FuncDesc)
    requires WellFounded(env) && f.scope < |env| && |d.params| == |Params(f)| && |FuncRefs(d)| == |FuncParts(f)|
    requires Shared(env, f.scope, FuncParts(f), FuncRefs(d))
    ensures SameIsShared(env, f, d)
  {
    hide KeyFor, SameThing;
    var first, parts, refs := if f.kind.Method? then 1 else 0, FuncParts(f), FuncRefs(d);
    forall i, j | 0 <= i < j < |f.params| && SameThing(env, f.scope, f.params[i].expr, f.params[j].expr)
      ensures d.params[first + i].ref == d.params[first + j].ref
    {
      assert Params(f)[first + i] == f.params[i] && Params(f)[first + j] == f.params[j];
      assert parts[first + i] == Present(f.params[i].expr) && parts[first + j] == Present(f.params[j].expr);
      assert refs[first + i] == Some(d.params[first + i].ref) && refs[first + j] == Some(d.params[first + j].ref);
      SameHasOneKey(env, f.scope, f.params[i].expr, f.params[j].expr);
    }
  }

  /** A func whose types a probe lowers gets a signature exactly when every
      resource it reaches has a tag and it reaches no empty fixed-length list. */
  lemma SignatureSucceedsIff(env: Env, f: Func, tags: map<ResourceKey, nat>)
    requires WellFounded(env) && f.scope < |env|
    requires ExpandParts(env, Probe, f.scope, FuncParts(f)).Ok?
    ensures UnfoldParts(env, f.scope, FuncParts(f)).Ok?
    ensures var ws, r := UnfoldParts(env, f.scope, FuncParts(f)).value, ExpandParts(env, Signature(tags), f.scope, FuncParts(f));
            && (r.Ok? <==> KeysInParts(ws) <= tags.Keys && !PartsHaveEmptyList(ws))
            && (r.Err? ==> r.error == NoTag || r.error == ZeroLength)
  {
    ExpandPartsIsRender(env, Probe, f.scope, FuncParts(f));
    ExpandPartsIsRender(env, Signature(tags), f.scope, FuncParts(f));
    RenderPartsSucceedsIff(Signature(tags), UnfoldParts(env, f.scope, FuncParts(f)).value);
  }
}
