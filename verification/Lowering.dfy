/** What lowering a WIT type means (component/wit/types.go): the tree a type
stands for once every name in it is followed, as a probe and for a signature.
*/
module Lowering {
  import opened Results
  import opened Scopes

  /** A resource as tags are keyed: the interface that declares it, its name. */
  datatype ResourceKey = ResourceKey(iface: string, name: string)

  /** A probe builds without tags; a signature takes the host's. */
  datatype Mode = Probe | Signature(tags: map<ResourceKey, nat>)

  datatype Tree<H> =
    | PrimTree(kind: string)
    | HandleTree(own: bool, resource: H)
    | CompoundTree(shape: Shape, parts: seq<TreePart<H>>)

  datatype TreePart<H> = NoTree | SomeTree(tree: Tree<H>)

  // ----- how far names lead

  /** Above the rank in s of every name of t, and no higher than need be. */
  ghost function Height(env: Env, s: nat, t: TypeExpr): nat
    requires WellFounded(env) && s < |env|
    decreases t
  {
    match t
    case Prim(_) => 0
    case Named(n) => Rank(env, s, n) + 1
    case Handle(_, n) => Rank(env, s, n) + 1
    case Compound(_, parts) => HeightParts(env, s, parts)
  }

  ghost function HeightPart(env: Env, s: nat, part: Part): nat
    requires WellFounded(env) && s < |env|
    decreases part
  {
    match part
    case Absent => 0
    case Present(t) => Height(env, s, t)
  }

  ghost function HeightParts(env: Env, s: nat, parts: seq<Part>): nat
    requires WellFounded(env) && s < |env|
    decreases parts
  {
    if parts == [] then 0
    else
      var h, rest := HeightPart(env, s, parts[0]), HeightParts(env, s, parts[1..]);
      if h > rest then h else rest
  }

  lemma {:induction false} HeightAtMost(env: Env, s: nat, t: TypeExpr, h: nat)
    requires WellFounded(env) && s < |env| && forall n :: n in NamesIn(t) ==> Rank(env, s, n) < h
    ensures Height(env, s, t) <= h
    decreases t
  {
    match t
    case Prim(_) =>
    case Named(n) => assert n in NamesIn(t);
    case Handle(_, n) => assert n in NamesIn(t);
    case Compound(_, parts) => HeightPartsAtMost(env, s, parts, h);
  }

  lemma {:induction false} HeightPartsAtMost(env: Env, s: nat, parts: seq<Part>, h: nat)
    requires WellFounded(env) && s < |env| && forall n :: n in NamesInParts(parts) ==> Rank(env, s, n) < h
    ensures HeightParts(env, s, parts) <= h
    decreases parts
  {
    if parts != [] {
      HeightPartsAtMost(env, s, parts[1..], h);
      match parts[0]
      case Absent =>
      case Present(t) =>
        assert t < parts[0];
        HeightAtMost(env, s, t, h);
    }
  }

  /** A definition's body stays below the definition. */
  lemma BodyHeight(env: Env, d: Def)
    requires WellFounded(env) && d.scope < |env| && d.name in env[d.scope].types && BodyOf(env, d).Defined?
    ensures Height(env, d.scope, BodyOf(env, d).expr) <= Rank(env, d.scope, d.name)
  {
    forall n | n in NamesIn(BodyOf(env, d).expr) ensures Rank(env, d.scope, n) < Rank(env, d.scope, d.name) {
      BodyNamesLower(env, d, n);
    }
    HeightAtMost(env, d.scope, BodyOf(env, d).expr, Rank(env, d.scope, d.name));
  }

  // ----- the shape a compound type ends up with

  predicate ValidMapKey(kind: string) {
    kind in {"bool", "s8", "u8", "s16", "u16", "s32", "u32", "s64", "u64", "char", "string"}
  }

  /** key is the primitive the first part is, if it is one. */
  function FinalShape(mode: Mode, shape: Shape, key: Option<string>): Result<Shape, LowerError> {
    match shape
    case FixedListOf(0) => if mode.Probe? then Ok(ListOf) else Err(ZeroLength)
    case MapOf => if key.Some? && ValidMapKey(key.value) then Ok(MapOf) else Err(BadMapKey)
    case _ => Ok(shape)
  }

  function TreeKey<H>(parts: seq<TreePart<H>>): Option<string> {
    if parts != [] && parts[0].SomeTree? && parts[0].tree.PrimTree? then Some(parts[0].tree.kind) else None
  }

  function TagFor(mode: Mode, key: ResourceKey): Option<nat> {
    match mode
    case Probe => Some(0)
    case Signature(tags) => if key in tags then Some(tags[key]) else None
  }

  // ----- plain expansion

  /** The tree a type written in scope s stands for, with no sharing. */
  function Expand(env: Env, mode: Mode, s: nat, t: TypeExpr): Result<Tree<nat>, LowerError>
    requires WellFounded(env) && s < |env|
    decreases PkgRank(env, s), IfaceRank(env, s), Height(env, s, t), 0, t
  {
    match t
    case Prim(k) => Ok(PrimTree(k))
    case Named(n) => ExpandNamed(env, mode, s, n)
    case Handle(own, n) => ExpandHandle(env, mode, s, n, own)
    case Compound(shape, parts) =>
      match ExpandParts(env, mode, s, parts)
      case Err(e) => Err(e)
      case Ok(trees) =>
        match FinalShape(mode, shape, TreeKey(trees))
        case Err(e) => Err(e)
        case Ok(final) => Ok(CompoundTree(final, trees))
  }

  function ExpandParts(env: Env, mode: Mode, s: nat, parts: seq<Part>): Result<seq<TreePart<nat>>, LowerError>
    requires WellFounded(env) && s < |env|
    decreases PkgRank(env, s), IfaceRank(env, s), HeightParts(env, s, parts), 0, parts
  {
    if parts == [] then Ok([])
    else
      match ExpandPart(env, mode, s, parts[0])
      case Err(e) => Err(e)
      case Ok(first) =>
        match ExpandParts(env, mode, s, parts[1..])
        case Err(e) => Err(e)
        case Ok(rest) => Ok([first] + rest)
  }

  function ExpandPart(env: Env, mode: Mode, s: nat, part: Part): Result<TreePart<nat>, LowerError>
    requires WellFounded(env) && s < |env|
    decreases PkgRank(env, s), IfaceRank(env, s), HeightPart(env, s, part), 0, part
  {
    match part
    case Absent => Ok(NoTree)
    case Present(t) =>
      match Expand(env, mode, s, t)
      case Err(e) => Err(e)
      case Ok(tree) => Ok(SomeTree(tree))
  }

  function ExpandNamed(env: Env, mode: Mode, s: nat, n: string): Result<Tree<nat>, LowerError>
    requires WellFounded(env) && s < |env|
    decreases PkgRank(env, s), IfaceRank(env, s), Rank(env, s, n), 1
  {
    match LookupType(env, s, n)
    case Err(e) => Err(e)
    case Ok(d) => ExpandDef(env, mode, d)
  }

  function ExpandDef(env: Env, mode: Mode, d: Def): Result<Tree<nat>, LowerError>
    requires WellFounded(env) && d.scope < |env| && d.name in env[d.scope].types
    decreases PkgRank(env, d.scope), IfaceRank(env, d.scope), Rank(env, d.scope, d.name), 0
  {
    match BodyOf(env, d)
    case Resource => ExpandHandle(env, mode, d.scope, d.name, true)
    case Defined(t) =>
      BodyHeight(env, d);
      Expand(env, mode, d.scope, t)
  }

  function ExpandHandle(env: Env, mode: Mode, s: nat, n: string, own: bool): Result<Tree<nat>, LowerError>
    requires WellFounded(env) && s < |env|
  {
    match LookupResource(env, s, n)
    case Err(e) => Err(e)
    case Ok(d) =>
      if !BodyOf(env, d).Resource? then Err(NotResource)
      else
        match TagFor(mode, KeyOf(env, d))
        case None => Err(NoTag)
        case Some(tag) => Ok(HandleTree(own, tag))
  }

  function KeyOf(env: Env, d: Def): ResourceKey
    requires d.scope < |env|
  {
    ResourceKey(env[d.scope].iface, d.name)
  }

  // ----- the meaning of a type, whatever the mode

  /** The tree a type stands for with resources by their keys: what the modes
      have in common. */
  function Unfold(env: Env, s: nat, t: TypeExpr): Result<Tree<ResourceKey>, LowerError>
    requires WellFounded(env) && s < |env|
    decreases PkgRank(env, s), IfaceRank(env, s), Height(env, s, t), 0, t
  {
    match t
    case Prim(k) => Ok(PrimTree(k))
    case Named(n) => UnfoldNamed(env, s, n)
    case Handle(own, n) => UnfoldHandle(env, s, n, own)
    case Compound(shape, parts) =>
      match UnfoldParts(env, s, parts)
      case Err(e) => Err(e)
      case Ok(trees) =>
        if shape.MapOf? && (TreeKey(trees).None? || !ValidMapKey(TreeKey(trees).value)) then Err(BadMapKey)
        else Ok(CompoundTree(shape, trees))
  }

  function UnfoldParts(env: Env, s: nat, parts: seq<Part>): Result<seq<TreePart<ResourceKey>>, LowerError>
    requires WellFounded(env) && s < |env|
    decreases PkgRank(env, s), IfaceRank(env, s), HeightParts(env, s, parts), 0, parts
  {
    if parts == [] then Ok([])
    else
      match UnfoldPart(env, s, parts[0])
      case Err(e) => Err(e)
      case Ok(first) =>
        match UnfoldParts(env, s, parts[1..])
        case Err(e) => Err(e)
        case Ok(rest) => Ok([first] + rest)
  }

  function UnfoldPart(env: Env, s: nat, part: Part): Result<TreePart<ResourceKey>, LowerError>
    requires WellFounded(env) && s < |env|
    decreases PkgRank(env, s), IfaceRank(env, s), HeightPart(env, s, part), 0, part
  {
    match part
    case Absent => Ok(NoTree)
    case Present(t) =>
      match Unfold(env, s, t)
      case Err(e) => Err(e)
      case Ok(tree) => Ok(SomeTree(tree))
  }

  function UnfoldNamed(env: Env, s: nat, n: string): Result<Tree<ResourceKey>, LowerError>
    requires WellFounded(env) && s < |env|
    decreases PkgRank(env, s), IfaceRank(env, s), Rank(env, s, n), 1
  {
    match LookupType(env, s, n)
    case Err(e) => Err(e)
    case Ok(d) =>
      match BodyOf(env, d)
      case Resource => Ok(HandleTree(true, KeyOf(env, d)))
      case Defined(t) =>
        BodyHeight(env, d);
        Unfold(env, d.scope, t)
  }

  function UnfoldHandle(env: Env, s: nat, n: string, own: bool): Result<Tree<ResourceKey>, LowerError>
    requires WellFounded(env) && s < |env|
  {
    match LookupResource(env, s, n)
    case Err(e) => Err(e)
    case Ok(d) => if BodyOf(env, d).Resource? then Ok(HandleTree(own, KeyOf(env, d))) else Err(NotResource)
  }

  /** Puts tags in for keys; a fixed-length list of none is a list to a probe
      and refused for a signature. */
  function Render(mode: Mode, w: Tree<ResourceKey>): Result<Tree<nat>, LowerError>
    decreases w
  {
    match w
    case PrimTree(k) => Ok(PrimTree(k))
    case HandleTree(own, key) =>
      (match TagFor(mode, key)
       case None => Err(NoTag)
       case Some(tag) => Ok(HandleTree(own, tag)))
    case CompoundTree(shape, parts) =>
      match RenderParts(mode, parts)
      case Err(e) => Err(e)
      case Ok(trees) =>
        match shape
        case FixedListOf(0) => if mode.Probe? then Ok(CompoundTree(ListOf, trees)) else Err(ZeroLength)
        case _ => Ok(CompoundTree(shape, trees))
  }

  function RenderParts(mode: Mode, parts: seq<TreePart<ResourceKey>>): (r: Result<seq<TreePart<nat>>, LowerError>)
    ensures r.Ok? ==> |r.value| == |parts|
    decreases parts
  {
    if parts == [] then Ok([])
    else
      match RenderPart(mode, parts[0])
      case Err(e) => Err(e)
      case Ok(first) =>
        match RenderParts(mode, parts[1..])
        case Err(e) => Err(e)
        case Ok(rest) => Ok([first] + rest)
  }

  function RenderPart(mode: Mode, part: TreePart<ResourceKey>): Result<TreePart<nat>, LowerError>
    decreases part
  {
    match part
    case NoTree => Ok(NoTree)
    case SomeTree(w) =>
      match Render(mode, w)
      case Err(e) => Err(e)
      case Ok(tree) => Ok(SomeTree(tree))
  }

  lemma RenderKeepsKey(mode: Mode, parts: seq<TreePart<ResourceKey>>)
    requires RenderParts(mode, parts).Ok?
    ensures TreeKey(RenderParts(mode, parts).value) == TreeKey(parts)
  {
    if parts != [] {
      assert RenderParts(mode, parts).value[0] == RenderPart(mode, parts[0]).value;
      match parts[0]
      case NoTree =>
      case SomeTree(w) => assert RenderPart(mode, parts[0]).value == SomeTree(Render(mode, w).value);
    }
  }

  // ----- unrolling the definitions by one layer

  lemma ExpandNamedIs(env: Env, mode: Mode, s: nat, n: string)
    requires WellFounded(env) && s < |env|
    ensures match LookupType(env, s, n)
            case Err(e) => Expand(env, mode, s, Named(n)) == Err(e)
            case Ok(d) => Expand(env, mode, s, Named(n)) == ExpandDef(env, mode, d)
  {
    assert Expand(env, mode, s, Named(n)) == ExpandNamed(env, mode, s, n);
  }

  lemma ExpandDefIs(env: Env, mode: Mode, d: Def)
    requires WellFounded(env) && d.scope < |env| && d.name in env[d.scope].types
    ensures match BodyOf(env, d)
            case Defined(t) => ExpandDef(env, mode, d) == Expand(env, mode, d.scope, t)
            case Resource => ExpandDef(env, mode, d) == Render(mode, HandleTree(true, KeyOf(env, d)))
  {
    if BodyOf(env, d).Resource? {
      assert LookupType(env, d.scope, d.name) == Ok(d);
      assert LookupResource(env, d.scope, d.name) == Ok(d);
    }
  }

  lemma UnfoldNamedIs(env: Env, s: nat, n: string)
    requires WellFounded(env) && s < |env|
    ensures match LookupType(env, s, n)
            case Err(e) => Unfold(env, s, Named(n)) == Err(e)
            case Ok(d) =>
              match BodyOf(env, d)
              case Defined(t) => Unfold(env, s, Named(n)) == Unfold(env, d.scope, t)
              case Resource => Unfold(env, s, Named(n)) == Ok(HandleTree(true, KeyOf(env, d)))
  {
    assert Unfold(env, s, Named(n)) == UnfoldNamed(env, s, n);
  }

  // ----- expansion is unfolding, then rendering

  /** Where a type unfolds, expanding it is rendering what it unfolds to, the
      error included; where it does not, no mode expands it. */
  lemma {:induction false} ExpandIsRender(env: Env, mode: Mode, s: nat, t: TypeExpr)
    requires WellFounded(env) && s < |env|
    ensures match Unfold(env, s, t)
            case Ok(w) => Expand(env, mode, s, t) == Render(mode, w)
            case Err(e) => Expand(env, mode, s, t).Err?
    decreases PkgRank(env, s), IfaceRank(env, s), Height(env, s, t), 0, t
  {
    match t
    case Prim(_) =>
    case Named(n) =>
      ExpandNamedIs(env, mode, s, n);
      UnfoldNamedIs(env, s, n);
      match LookupType(env, s, n) {
        case Err(_) =>
        case Ok(d) =>
          ExpandDefIs(env, mode, d);
          match BodyOf(env, d) {
            case Resource =>
            case Defined(t') =>
              BodyHeight(env, d);
              ExpandIsRender(env, mode, d.scope, t');
          }
      }
    case Handle(_, _) =>
    case Compound(shape, parts) =>
      ExpandPartsIsRender(env, mode, s, parts);
      var u := UnfoldParts(env, s, parts);
      if u.Ok? && RenderParts(mode, u.value).Ok? {
        RenderKeepsKey(mode, u.value);
      }
  }

  lemma {:induction false} ExpandPartsIsRender(env: Env, mode: Mode, s: nat, parts: seq<Part>)
    requires WellFounded(env) && s < |env|
    ensures match UnfoldParts(env, s, parts)
            case Ok(ws) => ExpandParts(env, mode, s, parts) == RenderParts(mode, ws)
            case Err(e) => ExpandParts(env, mode, s, parts).Err?
    decreases PkgRank(env, s), IfaceRank(env, s), HeightParts(env, s, parts), 0, parts
  {
    if parts != [] {
      ExpandPartIsRender(env, mode, s, parts[0]);
      ExpandPartsIsRender(env, mode, s, parts[1..]);
      var first, rest := UnfoldPart(env, s, parts[0]), UnfoldParts(env, s, parts[1..]);
      if first.Ok? && rest.Ok? {
        var ws := [first.value] + rest.value;
        assert ws[1..] == rest.value;
        assert UnfoldParts(env, s, parts) == Ok(ws);
      }
    }
  }

  lemma {:induction false} ExpandPartIsRender(env: Env, mode: Mode, s: nat, part: Part)
    requires WellFounded(env) && s < |env|
    ensures match UnfoldPart(env, s, part)
            case Ok(w) => ExpandPart(env, mode, s, part) == RenderPart(mode, w)
            case Err(e) => ExpandPart(env, mode, s, part).Err?
    decreases PkgRank(env, s), IfaceRank(env, s), HeightPart(env, s, part), 0, part
  {
    match part
    case Absent =>
    case Present(t) => ExpandIsRender(env, mode, s, t);
  }

  // ----- what a signature needs

  /** The resources a tree reaches. */
  function KeysIn(w: Tree<ResourceKey>): set<ResourceKey>
    decreases w
  {
    match w
    case PrimTree(_) => {}
    case HandleTree(_, key) => {key}
    case CompoundTree(_, parts) => KeysInParts(parts)
  }

  function KeysInParts(parts: seq<TreePart<ResourceKey>>): set<ResourceKey>
    decreases parts
  {
    if parts == [] then {}
    else
      (match parts[0]
       case NoTree => {}
       case SomeTree(w) => assert w < parts[0]; KeysIn(w)) + KeysInParts(parts[1..])
  }

  /** The tree holds a fixed-length list of no elements. */
  predicate HasEmptyList(w: Tree<ResourceKey>)
    decreases w
  {
    w.CompoundTree? && (w.shape == FixedListOf(0) || PartsHaveEmptyList(w.parts))
  }

  predicate PartsHaveEmptyList(parts: seq<TreePart<ResourceKey>>)
    decreases parts
  {
    parts != [] &&
    ((match parts[0]
      case NoTree => false
      case SomeTree(w) => assert w < parts[0]; HasEmptyList(w)) || PartsHaveEmptyList(parts[1..]))
  }

  /** A probe renders anything; a signature exactly what it has tags for and
      holds no empty list. */
  lemma {:induction false} RenderSucceedsIff(mode: Mode, w: Tree<ResourceKey>)
    ensures mode.Probe? ==> Render(mode, w).Ok?
    ensures mode.Signature? ==> (Render(mode, w).Ok? <==> KeysIn(w) <= mode.tags.Keys && !HasEmptyList(w))
    ensures Render(mode, w).Err? ==> Render(mode, w).error == NoTag || Render(mode, w).error == ZeroLength
    decreases w
  {
    match w
    case PrimTree(_) =>
    case HandleTree(_, key) =>
    case CompoundTree(_, parts) => RenderPartsSucceedsIff(mode, parts);
  }

  lemma {:induction false} RenderPartsSucceedsIff(mode: Mode, parts: seq<TreePart<ResourceKey>>)
    ensures mode.Probe? ==> RenderParts(mode, parts).Ok?
    ensures mode.Signature? ==>
              (RenderParts(mode, parts).Ok? <==> KeysInParts(parts) <= mode.tags.Keys && !PartsHaveEmptyList(parts))
    ensures RenderParts(mode, parts).Err? ==>
              RenderParts(mode, parts).error == NoTag || RenderParts(mode, parts).error == ZeroLength
    decreases parts
  {
    if parts != [] {
      match parts[0] {
        case NoTree =>
        case SomeTree(w) =>
          assert w < parts[0];
          RenderSucceedsIff(mode, w);
      }
      RenderPartsSucceedsIff(mode, parts[1..]);
    }
  }

  /** Probing is complete: a type a probe accepts fails in a signature only for
      a resource with no tag or an empty fixed-length list, and exactly then. */
  lemma ProbeComplete(env: Env, s: nat, t: TypeExpr, tags: map<ResourceKey, nat>)
    requires WellFounded(env) && s < |env|
    ensures Expand(env, Probe, s, t).Ok? <==> Unfold(env, s, t).Ok?
    ensures Expand(env, Probe, s, t).Ok? ==>
              var w, r := Unfold(env, s, t).value, Expand(env, Signature(tags), s, t);
              && (r.Ok? <==> KeysIn(w) <= tags.Keys && !HasEmptyList(w))
              && (r.Err? ==> r.error == NoTag || r.error == ZeroLength)
    ensures Expand(env, Signature(tags), s, t).Ok? ==> Expand(env, Probe, s, t).Ok?
  {
    ExpandIsRender(env, Probe, s, t);
    ExpandIsRender(env, Signature(tags), s, t);
    var u := Unfold(env, s, t);
    if u.Ok? {
      RenderSucceedsIff(Probe, u.value);
      RenderSucceedsIff(Signature(tags), u.value);
    }
  }

  // ----- borrows

  function HasBorrow(env: Env, s: nat, t: TypeExpr): bool
    requires WellFounded(env) && s < |env|
    decreases PkgRank(env, s), IfaceRank(env, s), Height(env, s, t), 0, t
  {
    match t
    case Prim(_) => false
    case Handle(own, _) => !own
    case Named(n) =>
      (match LookupType(env, s, n)
       case Err(_) => false
       case Ok(d) =>
         match BodyOf(env, d)
         case Resource => false
         case Defined(t') =>
           BodyHeight(env, d);
           HasBorrow(env, d.scope, t'))
    case Compound(_, parts) => PartsHaveBorrow(env, s, parts)
  }

  function PartsHaveBorrow(env: Env, s: nat, parts: seq<Part>): bool
    requires WellFounded(env) && s < |env|
    decreases PkgRank(env, s), IfaceRank(env, s), HeightParts(env, s, parts), 0, parts
  {
    parts != [] && (PartHasBorrow(env, s, parts[0]) || PartsHaveBorrow(env, s, parts[1..]))
  }

  function PartHasBorrow(env: Env, s: nat, part: Part): bool
    requires WellFounded(env) && s < |env|
    decreases PkgRank(env, s), IfaceRank(env, s), HeightPart(env, s, part), 0, part
  {
    match part
    case Absent => false
    case Present(t) => HasBorrow(env, s, t)
  }

  predicate HoldsBorrow<H>(w: Tree<H>)
    decreases w
  {
    match w
    case PrimTree(_) => false
    case HandleTree(own, _) => !own
    case CompoundTree(_, parts) => PartsHoldBorrow(parts)
  }

  predicate PartsHoldBorrow<H>(parts: seq<TreePart<H>>)
    decreases parts
  {
    parts != [] &&
    ((match parts[0]
      case NoTree => false
      case SomeTree(w) => assert w < parts[0]; HoldsBorrow(w)) || PartsHoldBorrow(parts[1..]))
  }

  /** The check on a func's result sees exactly the borrows it lowers to. */
  lemma {:induction false} HasBorrowIff(env: Env, mode: Mode, s: nat, t: TypeExpr)
    requires WellFounded(env) && s < |env| && Expand(env, mode, s, t).Ok?
    ensures HasBorrow(env, s, t) <==> HoldsBorrow(Expand(env, mode, s, t).value)
    decreases PkgRank(env, s), IfaceRank(env, s), Height(env, s, t), 0, t
  {
    match t
    case Prim(_) =>
    case Named(n) =>
      ExpandNamedIs(env, mode, s, n);
      var d := LookupType(env, s, n).value;
      ExpandDefIs(env, mode, d);
      match BodyOf(env, d) {
        case Resource =>
        case Defined(t') =>
          BodyHeight(env, d);
          HasBorrowIff(env, mode, d.scope, t');
      }
    case Handle(_, _) =>
    case Compound(_, parts) => PartsHaveBorrowIff(env, mode, s, parts);
  }

  lemma {:induction false} PartsHaveBorrowIff(env: Env, mode: Mode, s: nat, parts: seq<Part>)
    requires WellFounded(env) && s < |env| && ExpandParts(env, mode, s, parts).Ok?
    ensures PartsHaveBorrow(env, s, parts) <==> PartsHoldBorrow(ExpandParts(env, mode, s, parts).value)
    decreases PkgRank(env, s), IfaceRank(env, s), HeightParts(env, s, parts), 0, parts
  {
    if parts != [] {
      assert ExpandPart(env, mode, s, parts[0]).Ok?;
      match parts[0] {
        case Absent =>
        case Present(t) =>
          assert t < parts[0] && HeightPart(env, s, parts[0]) == Height(env, s, t);
          HasBorrowIff(env, mode, s, t);
      }
      PartsHaveBorrowIff(env, mode, s, parts[1..]);
      var trees := ExpandParts(env, mode, s, parts).value;
      assert trees[1..] == ExpandParts(env, mode, s, parts[1..]).value;
    }
  }
}
