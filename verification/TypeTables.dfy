/** The table of composite types a signature refers to (component/typetable.go). */
module TypeTables {
  import opened Results
  import opened Scopes
  import opened Lowering

  /** A primitive, spelled inline, or the index of a slot. */
  datatype TypeRef = PrimRef(kind: string) | IndexRef(index: nat)

  datatype Desc =
    | PrimDesc(kind: string)
    | HandleDesc(own: bool, tag: nat)
    | CompoundDesc(shape: Shape, parts: seq<Option<TypeRef>>)

  ghost predicate RefBelow(r: TypeRef, n: nat) {
    r.IndexRef? ==> r.index < n
  }

  ghost predicate PartsBelow(parts: seq<Option<TypeRef>>, n: nat) {
    forall j :: 0 <= j < |parts| && parts[j].Some? ==> RefBelow(parts[j].value, n)
  }

  /** Slot k holds no primitive and refers only to slots before it. */
  ghost predicate SlotOk(entries: seq<Desc>, k: nat)
    requires k < |entries|
  {
    !entries[k].PrimDesc? && (entries[k].CompoundDesc? ==> PartsBelow(entries[k].parts, k))
  }

  ghost predicate TableOk(entries: seq<Desc>) {
    forall k :: 0 <= k < |entries| ==> SlotOk(entries, k)
  }

  /** The tree a reference stands for: what a host sees walking the table. */
  ghost function Resolve(entries: seq<Desc>, r: TypeRef): Tree<nat>
    requires TableOk(entries) && RefBelow(r, |entries|)
    decreases if r.PrimRef? then 0 else r.index + 1
  {
    match r
    case PrimRef(k) => PrimTree(k)
    case IndexRef(i) =>
      assert SlotOk(entries, i);
      match entries[i]
      case HandleDesc(own, tag) => HandleTree(own, tag)
      case CompoundDesc(shape, parts) =>
        CompoundTree(shape, seq(|parts|, j requires 0 <= j < |parts| =>
          if parts[j].None? then NoTree else SomeTree(Resolve(entries, parts[j].value))))
  }

  ghost function ResolvePart(entries: seq<Desc>, r: Option<TypeRef>): TreePart<nat>
    requires TableOk(entries) && (r.Some? ==> RefBelow(r.value, |entries|))
  {
    if r.None? then NoTree else SomeTree(Resolve(entries, r.value))
  }

  ghost function ResolveParts(entries: seq<Desc>, parts: seq<Option<TypeRef>>): seq<TreePart<nat>>
    requires TableOk(entries) && PartsBelow(parts, |entries|)
  {
    seq(|parts|, j requires 0 <= j < |parts| => ResolvePart(entries, parts[j]))
  }

  /** A reference keeps its meaning as slots are added. */
  lemma {:induction false} ResolveStable(entries: seq<Desc>, more: seq<Desc>, r: TypeRef)
    requires TableOk(entries) && TableOk(more) && entries <= more && RefBelow(r, |entries|)
    ensures Resolve(more, r) == Resolve(entries, r)
    decreases if r.PrimRef? then 0 else r.index + 1
  {
    if r.IndexRef? {
      var i := r.index;
      assert entries[i] == more[i] && SlotOk(entries, i) && SlotOk(more, i);
      if entries[i].CompoundDesc? {
        var parts := entries[i].parts;
        forall j | 0 <= j < |parts| && parts[j].Some?
          ensures Resolve(more, parts[j].value) == Resolve(entries, parts[j].value)
        {
          ResolveStable(entries, more, parts[j].value);
        }
        assert Resolve(more, r).parts == Resolve(entries, r).parts;
      }
    }
  }

  lemma TableGrows(entries: seq<Desc>, d: Desc)
    requires TableOk(entries) && !d.PrimDesc? && (d.CompoundDesc? ==> PartsBelow(d.parts, |entries|))
    ensures TableOk(entries + [d])
  {
    forall k | 0 <= k < |entries + [d]| ensures SlotOk(entries + [d], k) {
      if k < |entries| { assert SlotOk(entries, k); }
    }
  }

  /** A new slot stands for its shape over what its parts stand for. */
  lemma ResolveNew(entries: seq<Desc>, shape: Shape, parts: seq<Option<TypeRef>>)
    requires TableOk(entries) && PartsBelow(parts, |entries|)
    ensures var more := entries + [CompoundDesc(shape, parts)];
            && TableOk(more)
            && Resolve(more, IndexRef(|entries|)) == CompoundTree(shape, ResolveParts(entries, parts))
  {
    var more := entries + [CompoundDesc(shape, parts)];
    TableGrows(entries, CompoundDesc(shape, parts));
    forall j | 0 <= j < |parts| && parts[j].Some?
      ensures Resolve(more, parts[j].value) == Resolve(entries, parts[j].value)
    {
      ResolveStable(entries, more, parts[j].value);
    }
    assert Resolve(more, IndexRef(|entries|)).parts == ResolveParts(entries, parts);
  }

  lemma ResolveNewHandle(entries: seq<Desc>, own: bool, tag: nat)
    requires TableOk(entries)
    ensures var more := entries + [HandleDesc(own, tag)];
            TableOk(more) && Resolve(more, IndexRef(|entries|)) == HandleTree(own, tag)
  {
    TableGrows(entries, HandleDesc(own, tag));
  }

  class TypeTable {
    var entries: seq<Desc>

    constructor ()
      ensures entries == []
    {
      entries := [];
    }

    /** Interns a descriptor; a primitive needs no slot. */
    method Add(d: Desc) returns (r: TypeRef)
      modifies this
      ensures d.PrimDesc? ==> entries == old(entries) && r == PrimRef(d.kind)
      ensures !d.PrimDesc? ==> entries == old(entries) + [d] && r == IndexRef(|old(entries)|)
    {
      if d.PrimDesc? {
        return PrimRef(d.kind);
      }
      r := IndexRef(|entries|);
      entries := entries + [d];
    }

    /** The descriptor in a slot, if there is one. */
    function Resolver(index: nat): (d: Option<Desc>)
      reads this
      ensures d.Some? <==> index < |entries|
      ensures d.Some? ==> d.value == entries[index]
    {
      if index >= |entries| then None else Some(entries[index])
    }
  }
}
