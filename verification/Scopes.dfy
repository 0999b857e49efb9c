/** The namespaces of resolved interfaces and the lookups that follow names
through them (component/wit/resolve.go, lookupType and lookupResource).

Types are written as expressions over named types. Every compound type is a
shape over parts, evaluated left to right, whether it is written inline
(list, tuple, result) or is the body of a definition (record, variant).
*/
module Scopes {
  import opened Results

  datatype Shape =
    | ListOf | FixedListOf(length: nat) | OptionOf | FutureOf | StreamOf | TupleOf | ResultOf | MapOf
    | RecordOf(fields: seq<string>) | VariantOf(cases: seq<string>) | EnumOf(cases: seq<string>) | FlagsOf(flags: seq<string>)

  datatype TypeExpr =
    | Prim(kind: string)
    | Named(name: string)
    | Handle(own: bool, name: string)
    | Compound(shape: Shape, parts: seq<Part>)

  /** A part is absent where WIT leaves a type out: result<_, e>, a case with no payload. */
  datatype Part = Absent | Present(expr: TypeExpr)

  datatype TypeBody = Defined(expr: TypeExpr) | Resource

  /** What a use stands for: a name in another scope, or nothing when a feature
      gate left the interface or the type out. */
  datatype UseRef = UseRef(target: Option<nat>, name: string)

  datatype Scope = Scope(iface: string, types: map<string, TypeBody>, uses: map<string, UseRef>)

  type Env = seq<Scope>

  /** The type called name in scope scope. */
  datatype Def = Def(scope: nat, name: string)

  datatype LowerError = Excluded | NotResource | NoTag | ZeroLength | BadMapKey

  // ----- the names a type refers to

  function NamesIn(t: TypeExpr): set<string>
    decreases t
  {
    match t
    case Prim(_) => {}
    case Named(n) => {n}
    case Handle(_, n) => {n}
    case Compound(_, parts) => NamesInParts(parts)
  }

  function NamesInParts(parts: seq<Part>): set<string>
    decreases parts
  {
    if parts == [] then {}
    else
      (match parts[0]
       case Absent => {}
       case Present(t) => assert t < parts[0]; NamesIn(t)) + NamesInParts(parts[1..])
  }

  // ----- ranks

  /** Where the sorts placed each scope's package, its interface, and each name
      of the scope. */
  datatype Ranks = Ranks(pkg: seq<nat>, iface: seq<nat>, names: seq<map<string, nat>>)

  ghost predicate Lower(rk: Ranks, a: nat, b: nat)
    requires a < |rk.pkg| == |rk.iface| && b < |rk.pkg|
  {
    rk.pkg[a] < rk.pkg[b] || (rk.pkg[a] == rk.pkg[b] && rk.iface[a] < rk.iface[b])
  }

  ghost function NameRank(rk: Ranks, s: nat, name: string): nat
    requires s < |rk.names|
  {
    if name in rk.names[s] then rk.names[s][name] else 0
  }

  ghost predicate UsesLower(env: Env, rk: Ranks, s: nat)
    requires s < |env| == |rk.pkg| == |rk.iface|
  {
    forall n :: n in env[s].uses && env[s].uses[n].target.Some? ==>
                  env[s].uses[n].target.value < |env| && Lower(rk, env[s].uses[n].target.value, s)
  }

  ghost predicate BodyLower(env: Env, rk: Ranks, s: nat, n: string)
    requires s < |env| == |rk.names| && n in env[s].types
  {
    env[s].types[n].Defined? ==>
      forall m :: m in NamesIn(env[s].types[n].expr) ==> NameRank(rk, s, m) < NameRank(rk, s, n)
  }

  /** A use leads to a lower scope; a type refers to lower names of its own. */
  ghost predicate Ranked(env: Env, rk: Ranks) {
    && |rk.pkg| == |rk.iface| == |rk.names| == |env|
    && (forall s :: 0 <= s < |env| ==> UsesLower(env, rk, s))
    && (forall s, n :: 0 <= s < |env| && n in env[s].types ==> BodyLower(env, rk, s, n))
  }

  /** Scopes as the sorts leave them. */
  ghost predicate WellFounded(env: Env) {
    exists rk :: Ranked(env, rk)
  }

  ghost function RankOf(env: Env): (rk: Ranks)
    requires WellFounded(env)
    ensures Ranked(env, rk)
  {
    var rk :| Ranked(env, rk); rk
  }

  ghost function PkgRank(env: Env, s: nat): nat
    requires WellFounded(env) && s < |env|
  {
    RankOf(env).pkg[s]
  }

  ghost function IfaceRank(env: Env, s: nat): nat
    requires WellFounded(env) && s < |env|
  {
    RankOf(env).iface[s]
  }

  ghost function Rank(env: Env, s: nat, name: string): nat
    requires WellFounded(env) && s < |env|
  {
    NameRank(RankOf(env), s, name)
  }

  ghost predicate ScopeBelow(env: Env, a: nat, b: nat)
    requires WellFounded(env) && a < |env| && b < |env|
  {
    Lower(RankOf(env), a, b)
  }

  // ----- lookups

  /** The definition a name of s stands for: its own, or one in a lower scope. */
  function LookupType(env: Env, s: nat, name: string): (r: Result<Def, LowerError>)
    requires WellFounded(env) && s < |env|
    ensures r.Ok? ==>
              && r.value.scope < |env| && r.value.name in env[r.value.scope].types
              && (r.value == Def(s, name) || ScopeBelow(env, r.value.scope, s))
    ensures r.Err? ==> r.error == Excluded
    decreases PkgRank(env, s), IfaceRank(env, s)
  {
    if name in env[s].types then Ok(Def(s, name))
    else if name !in env[s].uses then Err(Excluded)
    else
      var u := env[s].uses[name];
      if u.target.None? then Err(Excluded)
      else
        assert UsesLower(env, RankOf(env), s);
        LookupType(env, u.target.value, u.name)
  }

  lemma LookupHere(env: Env, s: nat, name: string)
    requires WellFounded(env) && s < |env| && name in env[s].types
    ensures LookupType(env, s, name) == Ok(Def(s, name))
  {
  }

  /** A name that is used is looked up in the lower scope it comes from. */
  lemma LookupFollows(env: Env, s: nat, name: string)
    requires WellFounded(env) && s < |env| && name !in env[s].types
    requires name in env[s].uses && env[s].uses[name].target.Some?
    ensures var UseRef(target, other) := env[s].uses[name];
            && target.value < |env| && ScopeBelow(env, target.value, s)
            && LookupType(env, s, name) == LookupType(env, target.value, other)
  {
    assert UsesLower(env, RankOf(env), s);
  }

  /** One step a lookup takes. */
  ghost predicate UseStep(env: Env, a: Def, b: Def) {
    && a.scope < |env| && b.scope < |env|
    && a.name !in env[a.scope].types && a.name in env[a.scope].uses
    && env[a.scope].uses[a.name] == UseRef(Some(b.scope), b.name)
  }

  /** Looks a type up as the source does, by moving from scope to scope. */
  method FindType(env: Env, s: nat, name: string) returns (r: Result<Def, LowerError>)
    requires WellFounded(env) && s < |env|
    ensures r == LookupType(env, s, name)
  {
    var s': nat, name' := s, name;
    while true
      invariant s' < |env| && LookupType(env, s', name') == LookupType(env, s, name)
      decreases PkgRank(env, s'), IfaceRank(env, s')
    {
      if name' in env[s'].types {
        return Ok(Def(s', name'));
      }
      if name' !in env[s'].uses {
        return Err(Excluded);
      }
      var u := env[s'].uses[name'];
      if u.target.None? {
        return Err(Excluded);
      }
      assert UsesLower(env, RankOf(env), s');
      s', name' := u.target.value, u.name;
    }
  }

  function BodyOf(env: Env, d: Def): TypeBody
    requires d.scope < |env| && d.name in env[d.scope].types
  {
    env[d.scope].types[d.name]
  }

  lemma BodyNamesLower(env: Env, d: Def, m: string)
    requires WellFounded(env) && d.scope < |env| && d.name in env[d.scope].types
    requires BodyOf(env, d).Defined? && m in NamesIn(BodyOf(env, d).expr)
    ensures Rank(env, d.scope, m) < Rank(env, d.scope, d.name)
  {
    assert BodyLower(env, RankOf(env), d.scope, d.name);
  }

  /** A definition that is an alias of another type by name. */
  predicate IsAlias(body: TypeBody) {
    body.Defined? && body.expr.Named?
  }

  /** The definition a name of s stands for once no alias is left to follow. */
  function LookupResource(env: Env, s: nat, name: string): (r: Result<Def, LowerError>)
    requires WellFounded(env) && s < |env|
    ensures r.Ok? ==>
              && r.value.scope < |env| && r.value.name in env[r.value.scope].types
              && !IsAlias(BodyOf(env, r.value))
    ensures r.Err? ==> r.error == Excluded
    decreases PkgRank(env, s), IfaceRank(env, s), Rank(env, s, name)
  {
    match LookupType(env, s, name)
    case Err(e) => Err(e)
    case Ok(d) =>
      if IsAlias(BodyOf(env, d)) then
        BodyNamesLower(env, d, BodyOf(env, d).expr.name);
        LookupResource(env, d.scope, BodyOf(env, d).expr.name)
      else Ok(d)
  }

  method FindResource(env: Env, s: nat, name: string) returns (r: Result<Def, LowerError>)
    requires WellFounded(env) && s < |env|
    ensures r == LookupResource(env, s, name)
  {
    r := FindType(env, s, name);
    ghost var at := Def(s, name);
    while r.Ok? && IsAlias(BodyOf(env, r.value))
      invariant at.scope < |env| && r == LookupType(env, at.scope, at.name)
      invariant LookupResource(env, at.scope, at.name) == LookupResource(env, s, name)
      decreases PkgRank(env, at.scope), IfaceRank(env, at.scope), Rank(env, at.scope, at.name)
    {
      var d := r.value;
      var target := BodyOf(env, d).expr.name;
      BodyNamesLower(env, d, target);
      at := Def(d.scope, target);
      r := FindType(env, d.scope, target);
    }
  }

  // ----- what the lookups find

  /** A type an alias names, in the scope the alias is in. */
  ghost predicate AliasStep(env: Env, a: Def, b: Def) {
    && a.scope < |env| && a.name in env[a.scope].types && b.scope == a.scope
    && env[a.scope].types[a.name] == Defined(Named(b.name))
  }

  ghost predicate StepAt(env: Env, p: seq<Def>, i: nat, aliases: bool)
    requires i + 1 < |p|
  {
    UseStep(env, p[i], p[i + 1]) || (aliases && AliasStep(env, p[i], p[i + 1]))
  }

  /** Uses, and aliases if they are to be followed, lead from a to d. */
  ghost predicate Leads(env: Env, a: Def, d: Def, aliases: bool) {
    exists p :: LeadsBy(env, p, a, d, aliases)
  }

  ghost predicate LeadsBy(env: Env, p: seq<Def>, a: Def, d: Def, aliases: bool) {
    |p| > 0 && p[0] == a && p[|p| - 1] == d && forall i :: 0 <= i < |p| - 1 ==> StepAt(env, p, i, aliases)
  }

  lemma LeadsFirst(env: Env, a: Def, b: Def, d: Def, aliases: bool)
    requires (UseStep(env, a, b) || (aliases && AliasStep(env, a, b))) && Leads(env, b, d, aliases)
    ensures Leads(env, a, d, aliases)
  {
    var p :| LeadsBy(env, p, b, d, aliases);
    var q := [a] + p;
    forall i | 0 <= i < |q| - 1 ensures StepAt(env, q, i, aliases) {
      assert i > 0 ==> StepAt(env, p, i - 1, aliases);
    }
    assert LeadsBy(env, q, a, d, aliases);
  }

  /** The first step of a way to somewhere else. */
  lemma LeadsOn(env: Env, a: Def, d: Def, aliases: bool) returns (b: Def)
    requires Leads(env, a, d, aliases) && a != d
    ensures (UseStep(env, a, b) || (aliases && AliasStep(env, a, b))) && Leads(env, b, d, aliases)
  {
    var p :| LeadsBy(env, p, a, d, aliases);
    b := p[1];
    assert StepAt(env, p, 0, aliases);
    var q := p[1..];
    forall i | 0 <= i < |q| - 1 ensures StepAt(env, q, i, aliases) {
      assert StepAt(env, p, i + 1, aliases);
    }
    assert LeadsBy(env, q, b, d, aliases);
  }

  lemma LeadsNowhere(env: Env, a: Def, aliases: bool)
    ensures Leads(env, a, a, aliases)
  {
    assert LeadsBy(env, [a], a, a, aliases);
  }

  ghost predicate IsDefined(env: Env, d: Def) {
    d.scope < |env| && d.name in env[d.scope].types
  }

  /** A type is found exactly where its uses lead to a definition. */
  lemma {:induction false} FoundIffUsesLead(env: Env, s: nat, name: string, d: Def)
    requires WellFounded(env) && s < |env|
    ensures LookupType(env, s, name) == Ok(d) <==> Leads(env, Def(s, name), d, false) && IsDefined(env, d)
    decreases PkgRank(env, s), IfaceRank(env, s)
  {
    hide Leads;
    var a := Def(s, name);
    LeadsNowhere(env, a, false);
    if name !in env[s].types && name in env[s].uses && env[s].uses[name].target.Some? {
      var u := env[s].uses[name];
      assert UsesLower(env, RankOf(env), s);
      var b := Def(u.target.value, u.name);
      FoundIffUsesLead(env, b.scope, b.name, d);
      if Leads(env, b, d, false) {
        LeadsFirst(env, a, b, d, false);
      }
    }
    if Leads(env, a, d, false) && a != d {
      var b := LeadsOn(env, a, d, false);
    }
  }

  /** A resource is found exactly where uses and aliases lead to a definition
      that is no alias. */
  lemma {:induction false} ResourceFoundIffLed(env: Env, s: nat, name: string, d: Def)
    requires WellFounded(env) && s < |env|
    ensures LookupResource(env, s, name) == Ok(d) <==>
            Leads(env, Def(s, name), d, true) && IsDefined(env, d) && forall n :: env[d.scope].types[d.name] != Defined(Named(n))
    decreases PkgRank(env, s), IfaceRank(env, s), Rank(env, s, name)
  {
    hide Leads;
    var a := Def(s, name);
    LeadsNowhere(env, a, true);
    if name in env[s].types {
      if IsAlias(BodyOf(env, a)) {
        var b := Def(s, BodyOf(env, a).expr.name);
        BodyNamesLower(env, a, b.name);
        ResourceFoundIffLed(env, s, b.name, d);
        if Leads(env, b, d, true) {
          LeadsFirst(env, a, b, d, true);
        }
      }
    } else if name in env[s].uses && env[s].uses[name].target.Some? {
      var u := env[s].uses[name];
      assert UsesLower(env, RankOf(env), s);
      var b := Def(u.target.value, u.name);
      ResourceFoundIffLed(env, b.scope, b.name, d);
      if Leads(env, b, d, true) {
        LeadsFirst(env, a, b, d, true);
      }
    }
    if Leads(env, a, d, true) && a != d {
      var b := LeadsOn(env, a, d, true);
    }
  }
}
