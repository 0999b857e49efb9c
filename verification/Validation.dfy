/** The last passes of resolving (component/wit/resolve.go): every name of every
    scope is looked up and every type and func lowered once, without tags, so that
    what cannot be lowered is found before a signature is asked for. */
module Validation {
  import opened Scopes
  import opened Lowering
  import opened Meanings
  import opened TypeBuilder

  /** Every name a scope uses is found, and every type of it lowers. */
  ghost predicate ScopeValid(env: Env, s: nat)
    requires WellFounded(env) && s < |env|
  {
    && (forall n :: n in env[s].uses ==> LookupType(env, s, n).Ok?)
    && forall n :: n in env[s].types ==> Expand(env, Probe, s, Named(n)).Ok?
  }

  /** A func's params and result lower, and the result declared has no borrow. */
  ghost predicate FuncValid(env: Env, f: Func)
    requires WellFounded(env) && f.scope < |env|
  {
    && ExpandParts(env, Probe, f.scope, FuncParts(f)).Ok?
    && (f.result.Some? ==> !HasBorrow(env, f.scope, f.result.value))
  }

  ghost predicate InScopes(env: Env, funcs: seq<Func>) {
    forall k :: 0 <= k < |funcs| ==> funcs[k].scope < |env|
  }

  ghost predicate Valid(env: Env, funcs: seq<Func>)
    requires WellFounded(env) && InScopes(env, funcs)
  {
    && (forall s :: 0 <= s < |env| ==> ScopeValid(env, s))
    && forall k :: 0 <= k < |funcs| ==> FuncValid(env, funcs[k])
  }

  method ValidateUses(env: Env, s: nat) returns (ok: bool)
    requires WellFounded(env) && s < |env|
    ensures ok <==> forall n :: n in env[s].uses ==> LookupType(env, s, n).Ok?
  {
    hide WellFounded, LookupType;
    var rest := env[s].uses.Keys;
    while rest != {}
      invariant rest <= env[s].uses.Keys
      invariant forall n :: n in env[s].uses && n !in rest ==> LookupType(env, s, n).Ok?
      decreases rest
    {
      var n :| n in rest;
      var found := FindType(env, s, n);
      if found.Err? {
        return false;
      }
      rest := rest - {n};
    }
    return true;
  }

  method ValidateTypes(env: Env, s: nat) returns (ok: bool)
    requires WellFounded(env) && s < |env|
    ensures ok <==> forall n :: n in env[s].types ==> Expand(env, Probe, s, Named(n)).Ok?
  {
    hide WellFounded, Expand;
    var rest := env[s].types.Keys;
    while rest != {}
      invariant rest <= env[s].types.Keys
      invariant forall n :: n in env[s].types && n !in rest ==> Expand(env, Probe, s, Named(n)).Ok?
      decreases rest
    {
      var n :| n in rest;
      var lowers := Probes(env, s, n);
      if !lowers {
        return false;
      }
      rest := rest - {n};
    }
    return true;
  }

  method Probes(env: Env, s: nat, n: string) returns (ok: bool)
    requires WellFounded(env) && s < |env|
    ensures ok <==> Expand(env, Probe, s, Named(n)).Ok?
  {
    var b := new Builder(env, Probe);
    var r := b.NamedRef(s, n);
    ok := r.Ok?;
  }

  method ValidateFunc(env: Env, f: Func) returns (ok: bool)
    requires WellFounded(env) && f.scope < |env|
    ensures ok <==> FuncValid(env, f)
  {
    var b := new Builder(env, Probe);
    var r := b.LowerFunc(f);
    if r.Err? {
      return false;
    }
    ok := f.result.None? || !HasBorrow(env, f.scope, f.result.value);
  }

  /** Accepts the scopes and funcs exactly when all of them lower. */
  method Validate(env: Env, funcs: seq<Func>) returns (ok: bool)
    requires WellFounded(env) && InScopes(env, funcs)
    ensures ok <==> Valid(env, funcs)
  {
    hide WellFounded, FuncValid;
    for s := 0 to |env|
      invariant forall t :: 0 <= t < s ==> ScopeValid(env, t)
    {
      var uses := ValidateUses(env, s);
      var types := ValidateTypes(env, s);
      if !uses || !types {
        assert !ScopeValid(env, s);
        return false;
      }
    }
    for k := 0 to |funcs|
      invariant forall j :: 0 <= j < k ==> FuncValid(env, funcs[j])
    {
      var good := ValidateFunc(env, funcs[k]);
      if !good {
        return false;
      }
    }
    return true;
  }

  // ----- what validation means

  /** Every name a scope uses leads to a definition, and every type of it means
      something. */
  ghost predicate ScopeMeans(env: Env, s: nat)
    requires WellFounded(env) && s < |env|
  {
    && (forall n :: n in env[s].uses ==> exists d :: NameMeans(env, s, n, d, false))
    && forall n :: n in env[s].types ==> !Meaningless(env, Probe, s, Named(n))
  }

  /** Every type of a func means something, and no result it declares means a tree
      with a borrow in it. */
  ghost predicate FuncMeansIt(env: Env, f: Func)
    requires WellFounded(env) && f.scope < |env|
  {
    && (forall t :: WrittenIn(f, t) ==> !Meaningless(env, Probe, f.scope, t))
    && (f.result.Some? ==> forall tree :: Means(env, Probe, f.scope, f.result.value, tree) ==> !HoldsBorrow(tree))
  }

  lemma ExpandsIff(env: Env, s: nat, t: TypeExpr)
    requires WellFounded(env) && s < |env|
    ensures Expand(env, Probe, s, t).Ok? <==> !Meaningless(env, Probe, s, t)
  {
    hide Expand, Means, WellFounded;
    if Expand(env, Probe, s, t).Ok? {
      ExpandIffMeans(env, Probe, s, t, Expand(env, Probe, s, t).value);
    } else {
      forall tree ensures !Means(env, Probe, s, t, tree) {
        ExpandIffMeans(env, Probe, s, t, tree);
      }
    }
  }

  lemma ScopeValidIff(env: Env, s: nat)
    requires WellFounded(env) && s < |env|
    ensures ScopeValid(env, s) <==> ScopeMeans(env, s)
  {
    hide Expand, WellFounded, Meaningless, LookupType, NameMeans;
    forall n ensures LookupType(env, s, n).Ok? <==> exists d :: NameMeans(env, s, n, d, false) {
      FoundMeans(env, s, n);
    }
    forall n ensures Expand(env, Probe, s, Named(n)).Ok? <==> !Meaningless(env, Probe, s, Named(n)) {
      ExpandsIff(env, s, Named(n));
    }
  }

  lemma FoundMeans(env: Env, s: nat, n: string)
    requires WellFounded(env) && s < |env|
    ensures LookupType(env, s, n).Ok? <==> exists d :: NameMeans(env, s, n, d, false)
  {
    if LookupType(env, s, n).Ok? {
      FoundIffUsesLead(env, s, n, LookupType(env, s, n).value);
      assert NameMeans(env, s, n, LookupType(env, s, n).value, false);
    }
    if d :| NameMeans(env, s, n, d, false) {
      FoundIffUsesLead(env, s, n, d);
    }
  }

  lemma PartsExpandIff(env: Env, f: Func)
    requires WellFounded(env) && f.scope < |env|
    ensures ExpandParts(env, Probe, f.scope, FuncParts(f)).Ok? <==> forall t :: WrittenIn(f, t) ==> !Meaningless(env, Probe, f.scope, t)
  {
    hide ExpandParts, Meaningless, WrittenIn, FuncParts;
    if ExpandParts(env, Probe, f.scope, FuncParts(f)).Ok? {
      var trees := ExpandParts(env, Probe, f.scope, FuncParts(f)).value;
      PartsIffMean(env, Probe, f.scope, FuncParts(f), trees);
      forall t | WrittenIn(f, t) ensures !Meaningless(env, Probe, f.scope, t) {
        var k := PartWritten(f, t);
        PartsMeanAt(env, Probe, f.scope, FuncParts(f), trees, k);
        SomeMeaning(env, f.scope, t, trees[k]);
      }
    } else {
      SomethingMeansNothing(env, Probe, f);
    }
  }

  lemma SomeMeaning(env: Env, s: nat, t: TypeExpr, tree: TreePart<nat>)
    requires WellFounded(env) && s < |env| && PartMeans(env, Probe, s, Present(t), tree)
    ensures !Meaningless(env, Probe, s, t)
  {
    hide Means;
    assert Means(env, Probe, s, t, tree.tree);
  }

  lemma FuncValidIff(env: Env, f: Func)
    requires WellFounded(env) && f.scope < |env|
    ensures FuncValid(env, f) <==> FuncMeansIt(env, f)
  {
    hide Expand, ExpandParts, Meaningless, WrittenIn, Means, HasBorrow, HoldsBorrow, WellFounded;
    PartsExpandIff(env, f);
    if f.result.Some? && forall t :: WrittenIn(f, t) ==> !Meaningless(env, Probe, f.scope, t) {
      var t := f.result.value;
      ResultIsWritten(f);
      ExpandsIff(env, f.scope, t);
      var tree := Expand(env, Probe, f.scope, t).value;
      HasBorrowIff(env, Probe, f.scope, t);
      forall tree' ensures Means(env, Probe, f.scope, t, tree') <==> tree' == tree {
        ExpandIffMeans(env, Probe, f.scope, t, tree');
      }
    }
  }

  lemma ResultIsWritten(f: Func)
    requires f.result.Some?
    ensures WrittenIn(f, f.result.value)
  {
  }

  /** Validation succeeds exactly when all that is written means something, and no
      result a borrow. */
  lemma ValidIff(env: Env, funcs: seq<Func>)
    requires WellFounded(env) && InScopes(env, funcs)
    ensures Valid(env, funcs) <==>
            && (forall s :: 0 <= s < |env| ==> ScopeMeans(env, s))
            && forall k :: 0 <= k < |funcs| ==> FuncMeansIt(env, funcs[k])
  {
    hide ScopeValid, FuncValid, ScopeMeans, FuncMeansIt, WellFounded;
    forall s | 0 <= s < |env| ensures ScopeValid(env, s) <==> ScopeMeans(env, s) {
      ScopeValidIff(env, s);
    }
    forall k | 0 <= k < |funcs| ensures FuncValid(env, funcs[k]) <==> FuncMeansIt(env, funcs[k]) {
      FuncValidIff(env, funcs[k]);
    }
  }

  /** Once validated, every func has a signature exactly when every resource it
      reaches has a tag and it reaches no empty fixed-length list, and no result
      it declares lowers to one with a borrow in it. */
  lemma ValidatedHasSignature(env: Env, funcs: seq<Func>, k: nat, tags: map<ResourceKey, nat>)
    requires WellFounded(env) && InScopes(env, funcs) && Valid(env, funcs) && k < |funcs|
    ensures UnfoldParts(env, funcs[k].scope, FuncParts(funcs[k])).Ok?
    ensures var f := funcs[k];
            var ws, r := UnfoldParts(env, f.scope, FuncParts(f)).value, ExpandParts(env, Signature(tags), f.scope, FuncParts(f));
            && (r.Ok? <==> KeysInParts(ws) <= tags.Keys && !PartsHaveEmptyList(ws))
            && (r.Err? ==> r.error == NoTag || r.error == ZeroLength)
    ensures var f := funcs[k];
            f.result.Some? && Expand(env, Signature(tags), f.scope, f.result.value).Ok? ==>
              !HoldsBorrow(Expand(env, Signature(tags), f.scope, f.result.value).value)
  {
    var f := funcs[k];
    assert FuncValid(env, f);
    hide WellFounded, Valid, Expand, ExpandParts, UnfoldParts, HasBorrow, HoldsBorrow, KeysInParts, PartsHaveEmptyList;
    SignatureSucceedsIff(env, f, tags);
    if f.result.Some? && Expand(env, Signature(tags), f.scope, f.result.value).Ok? {
      HasBorrowIff(env, Signature(tags), f.scope, f.result.value);
    }
  }
}
