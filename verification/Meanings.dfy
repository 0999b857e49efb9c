/** What a type written in a scope means, said without any lookup: the definitions
    its names lead to, and the tags of the resources at their ends
    (component/wit/types.go). Lowering gives exactly this. */
module Meanings {
  import opened Results
  import opened Scopes
  import opened Lowering

  /** The kinds of primitives, and those a map may not be keyed by. */
  const PRIMITIVES := {"bool", "s8", "s16", "s32", "s64", "u8", "u16", "u32", "u64", "f32", "f64", "char", "string", "error-context"}
  const NO_KEYS := {"f32", "f64", "error-context"}

  /** A name of s leads to the definition d, through uses alone or also through
      aliases. */
  ghost predicate NameMeans(env: Env, s: nat, n: string, d: Def, aliases: bool) {
    Leads(env, Def(s, n), d, aliases) && d.scope < |env| && d.name in env[d.scope].types
  }

  /** What a definition found by name is lower than. */
  lemma NameIsLower(env: Env, s: nat, n: string, d: Def)
    requires WellFounded(env) && s < |env| && NameMeans(env, s, n, d, false)
    ensures LookupType(env, s, n) == Ok(d)
    ensures d == Def(s, n) || ScopeBelow(env, d.scope, s)
    ensures env[d.scope].types[d.name].Defined? ==>
              Height(env, d.scope, env[d.scope].types[d.name].expr) <= Rank(env, d.scope, d.name)
  {
    FoundIffUsesLead(env, s, n, d);
    if BodyOf(env, d).Defined? {
      BodyHeight(env, d);
    }
  }

  /** A handle of the resource defined at d: a probe has no tags, and takes none. */
  ghost predicate HandleMeans(env: Env, mode: Mode, d: Def, own: bool, tree: Tree<nat>)
    requires d.scope < |env|
  {
    match mode
    case Probe => tree == HandleTree(own, 0)
    case Signature(tags) =>
      var key := ResourceKey(env[d.scope].iface, d.name);
      key in tags && tree == HandleTree(own, tags[key])
  }

  /** A shape over parts keeps its shape. A list of fixed length none is any list
      to a probe and nothing to a signature; a map has a primitive for its key. */
  ghost predicate ShapeMeans(mode: Mode, shape: Shape, tree: Tree<nat>) {
    && tree.CompoundTree?
    && (if shape == FixedListOf(0) then mode.Probe? && tree.shape == ListOf else tree.shape == shape)
    && (shape.MapOf? ==>
          && tree.parts != [] && tree.parts[0].SomeTree? && tree.parts[0].tree.PrimTree?
          && tree.parts[0].tree.kind in PRIMITIVES - NO_KEYS)
  }

  /** The type t, written in scope s, means the tree. */
  ghost predicate Means(env: Env, mode: Mode, s: nat, t: TypeExpr, tree: Tree<nat>)
    requires WellFounded(env) && s < |env|
    decreases PkgRank(env, s), IfaceRank(env, s), Height(env, s, t), 0, t
  {
    match t
    case Prim(k) => tree == PrimTree(k)
    case Named(n) => exists d :: NameMeans(env, s, n, d, false) && (NameIsLower(env, s, n, d); DefMeans(env, mode, d, tree))
    case Handle(own, n) =>
      exists d :: NameMeans(env, s, n, d, true) && env[d.scope].types[d.name].Resource? && HandleMeans(env, mode, d, own, tree)
    case Compound(shape, parts) => ShapeMeans(mode, shape, tree) && PartsMean(env, mode, s, parts, tree.parts)
  }

  /** A resource by its name is an owned handle to it. */
  ghost predicate DefMeans(env: Env, mode: Mode, d: Def, tree: Tree<nat>)
    requires WellFounded(env) && d.scope < |env| && d.name in env[d.scope].types
    decreases PkgRank(env, d.scope), IfaceRank(env, d.scope), Rank(env, d.scope, d.name), 1
  {
    match env[d.scope].types[d.name]
    case Resource => HandleMeans(env, mode, d, true, tree)
    case Defined(t) => BodyHeight(env, d); Means(env, mode, d.scope, t, tree)
  }

  ghost predicate PartsMean(env: Env, mode: Mode, s: nat, parts: seq<Part>, trees: seq<TreePart<nat>>)
    requires WellFounded(env) && s < |env|
    decreases PkgRank(env, s), IfaceRank(env, s), HeightParts(env, s, parts), 0, parts
  {
    && |parts| == |trees|
    && (parts != [] ==> PartMeans(env, mode, s, parts[0], trees[0]) && PartsMean(env, mode, s, parts[1..], trees[1..]))
  }

  ghost predicate PartMeans(env: Env, mode: Mode, s: nat, part: Part, tree: TreePart<nat>)
    requires WellFounded(env) && s < |env|
    decreases PkgRank(env, s), IfaceRank(env, s), HeightPart(env, s, part), 0, part
  {
    match part
    case Absent => tree == NoTree
    case Present(t) => tree.SomeTree? && Means(env, mode, s, t, tree.tree)
  }

  // ----- lowering gives the meaning

  lemma HandleMeansTag(env: Env, mode: Mode, d: Def, own: bool, tree: Tree<nat>)
    requires d.scope < |env|
    ensures HandleMeans(env, mode, d, own, tree) <==>
            TagFor(mode, KeyOf(env, d)).Some? && tree == HandleTree(own, TagFor(mode, KeyOf(env, d)).value)
  {
  }

  lemma ShapeMeansFinal(mode: Mode, shape: Shape, trees: seq<TreePart<nat>>, tree: Tree<nat>)
    requires tree.CompoundTree? && tree.parts == trees
    ensures ShapeMeans(mode, shape, tree) <==> FinalShape(mode, shape, TreeKey(trees)) == Ok(tree.shape)
  {
  }

  /** Lowering a type succeeds with a tree exactly when the type means it. */
  lemma {:induction false} ExpandIffMeans(env: Env, mode: Mode, s: nat, t: TypeExpr, tree: Tree<nat>)
    requires WellFounded(env) && s < |env|
    ensures Expand(env, mode, s, t) == Ok(tree) <==> Means(env, mode, s, t, tree)
    decreases PkgRank(env, s), IfaceRank(env, s), Height(env, s, t), 0, t
  {
    match t
    case Prim(_) =>
    case Named(n) => NamedIffMeans(env, mode, s, n, tree);
    case Handle(own, n) => HandleIffMeans(env, mode, s, n, own, tree);
    case Compound(shape, parts) =>
      if tree.CompoundTree? {
        PartsIffMean(env, mode, s, parts, tree.parts);
        ShapeMeansFinal(mode, shape, tree.parts, tree);
      }
  }

  lemma {:induction false} NamedIffMeans(env: Env, mode: Mode, s: nat, n: string, tree: Tree<nat>)
    requires WellFounded(env) && s < |env|
    ensures Expand(env, mode, s, Named(n)) == Ok(tree) <==> Means(env, mode, s, Named(n), tree)
    decreases PkgRank(env, s), IfaceRank(env, s), Rank(env, s, n), 2
  {
    ExpandNamedIs(env, mode, s, n);
    var found := LookupType(env, s, n);
    forall d | NameMeans(env, s, n, d, false) ensures found == Ok(d) {
      FoundIffUsesLead(env, s, n, d);
    }
    if found.Ok? {
      FoundIffUsesLead(env, s, n, found.value);
      DefIffMeans(env, mode, found.value, tree);
    }
  }

  lemma {:induction false} DefIffMeans(env: Env, mode: Mode, d: Def, tree: Tree<nat>)
    requires WellFounded(env) && d.scope < |env| && d.name in env[d.scope].types
    ensures ExpandDef(env, mode, d) == Ok(tree) <==> DefMeans(env, mode, d, tree)
    decreases PkgRank(env, d.scope), IfaceRank(env, d.scope), Rank(env, d.scope, d.name), 1
  {
    ExpandDefIs(env, mode, d);
    match BodyOf(env, d)
    case Resource => HandleMeansTag(env, mode, d, true, tree);
    case Defined(t) =>
      BodyHeight(env, d);
      ExpandIffMeans(env, mode, d.scope, t, tree);
  }

  lemma HandleIffMeans(env: Env, mode: Mode, s: nat, n: string, own: bool, tree: Tree<nat>)
    requires WellFounded(env) && s < |env|
    ensures Expand(env, mode, s, Handle(own, n)) == Ok(tree) <==> Means(env, mode, s, Handle(own, n), tree)
    ensures ExpandHandle(env, mode, s, n, own) == Ok(tree) <==> Means(env, mode, s, Handle(own, n), tree)
  {
    hide HandleMeans, TagFor, KeyOf, Leads, LookupResource;
    var found := LookupResource(env, s, n);
    forall d | NameMeans(env, s, n, d, true) && BodyOf(env, d).Resource? ensures found == Ok(d) {
      ResourceFoundIffLed(env, s, n, d);
    }
    if found.Ok? {
      ResourceFoundIffLed(env, s, n, found.value);
      HandleMeansTag(env, mode, found.value, own, tree);
    }
  }

  lemma {:induction false} PartsIffMean(env: Env, mode: Mode, s: nat, parts: seq<Part>, trees: seq<TreePart<nat>>)
    requires WellFounded(env) && s < |env|
    ensures ExpandParts(env, mode, s, parts) == Ok(trees) <==> PartsMean(env, mode, s, parts, trees)
    decreases PkgRank(env, s), IfaceRank(env, s), HeightParts(env, s, parts), 0, parts
  {
    if parts != [] && trees != [] {
      PartIffMeans(env, mode, s, parts[0], trees[0]);
      PartsIffMean(env, mode, s, parts[1..], trees[1..]);
      assert trees == [trees[0]] + trees[1..];
    }
  }

  lemma {:induction false} PartIffMeans(env: Env, mode: Mode, s: nat, part: Part, tree: TreePart<nat>)
    requires WellFounded(env) && s < |env|
    ensures ExpandPart(env, mode, s, part) == Ok(tree) <==> PartMeans(env, mode, s, part, tree)
    decreases PkgRank(env, s), IfaceRank(env, s), HeightPart(env, s, part), 0, part
  {
    match part
    case Absent =>
    case Present(t) =>
      if tree.SomeTree? {
        ExpandIffMeans(env, mode, s, t, tree.tree);
      }
  }
}
