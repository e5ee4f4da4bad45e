/** From policy definitions to an ordered chain, or to the list of everything wrong. */
module PolicyCompiler {
  import opened Sorting
  import opened PolicyChain

  /** A definition as written: the phase is still text. */
  datatype Def = Def(id: string, kind: string, phase: string, order: int, enabled: bool,
                     config: map<string, string>, condition: string)

  datatype Dsl = Dsl(chainId: string, apiId: string, version: int, policies: seq<Def>)

  datatype Error = ApiIdRequired | UnknownType(i: nat) | UnknownPhase(i: nat) | Invalid(i: nat, msg: string)

  datatype Compiled = Chain(id: string, apiId: string, version: int, policies: seq<Policy>)
                    | Failed(errors: seq<Error>)

  datatype Registry = Registry(known: string -> bool, validate: (string, map<string, string>) -> seq<string>)

  const PHASE_NAMES: map<string, Phase> :=
    map["pre_request" := PreRequest, "post_request" := PostRequest,
        "pre_response" := PreResponse, "post_response" := PostResponse]

  function Tagged(i: nat, msgs: seq<string>): (r: seq<Error>)
    ensures |r| == |msgs|
  {
    if msgs == [] then [] else [Invalid(i, msgs[0])] + Tagged(i, msgs[1..])
  }

  /** The errors of one definition: only the first kind that applies is reported. */
  function DefErrors(reg: Registry, def: Def, i: nat): seq<Error> {
    if !reg.known(def.kind) then [UnknownType(i)]
    else if def.phase !in PHASE_NAMES then [UnknownPhase(i)]
    else Tagged(i, reg.validate(def.kind, def.config))
  }

  function ErrorsUpTo(reg: Registry, dsl: Dsl, n: nat): seq<Error>
    requires n <= |dsl.policies|
  {
    if n == 0 then (if dsl.apiId == "" then [ApiIdRequired] else [])
    else ErrorsUpTo(reg, dsl, n - 1) + DefErrors(reg, dsl.policies[n - 1], n - 1)
  }

  predicate DefOk(reg: Registry, def: Def) {
    reg.known(def.kind) && def.phase in PHASE_NAMES && reg.validate(def.kind, def.config) == []
  }

  /** The policy a valid definition stands for; `newId` draws a new id. */
  function PolicyOf(def: Def, i: nat, newId: nat -> string): Policy
    requires def.phase in PHASE_NAMES
  {
    Policy(if def.id == "" then newId(i) else def.id, def.kind, PHASE_NAMES[def.phase], def.order, def.enabled,
           def.config, def.condition)
  }

  function PoliciesOf(reg: Registry, defs: seq<Def>, newId: nat -> string): seq<Policy> {
    if defs == [] then []
    else
      var n := |defs| - 1;
      if DefOk(reg, defs[n]) then PoliciesOf(reg, defs[..n], newId) + [PolicyOf(defs[n], n, newId)]
      else PoliciesOf(reg, defs[..n], newId)
  }

  /** No valid definition is left out. */
  lemma {:induction false} AllPolicies(reg: Registry, defs: seq<Def>, newId: nat -> string)
    requires forall i :: 0 <= i < |defs| ==> DefOk(reg, defs[i])
    ensures var ps := PoliciesOf(reg, defs, newId);
            |ps| == |defs| &&
            forall i :: 0 <= i < |defs| ==> DefOk(reg, defs[i]) && ps[i] == PolicyOf(defs[i], i, newId)
  {
    if defs != [] {
      AllPolicies(reg, defs[..|defs| - 1], newId);
    }
  }

  lemma DefErrorsExactly(reg: Registry, def: Def, i: nat)
    ensures DefErrors(reg, def, i) == [] <==> DefOk(reg, def)
  {}

  /** A chain compiles exactly when it names its API and every definition is valid. */
  lemma {:induction false} NoErrorsExactly(reg: Registry, dsl: Dsl, n: nat)
    requires n <= |dsl.policies|
    ensures ErrorsUpTo(reg, dsl, n) == [] <==>
            dsl.apiId != "" && forall i :: 0 <= i < n ==> DefOk(reg, dsl.policies[i])
  {
    hide DefErrors, DefOk, Tagged;
    if n > 0 {
      NoErrorsExactly(reg, dsl, n - 1);
      DefErrorsExactly(reg, dsl.policies[n - 1], n - 1);
      var before, here := ErrorsUpTo(reg, dsl, n - 1), DefErrors(reg, dsl.policies[n - 1], n - 1);
      assert ErrorsUpTo(reg, dsl, n) == before + here;
      hide *;
      assert before + here == [] <==> before == [] && here == [] by {
        assert |before + here| == |before| + |here|;
      }
    }
  }

  lemma PoliciesSnoc(reg: Registry, defs: seq<Def>, i: nat, newId: nat -> string)
    requires i < |defs|
    ensures PoliciesOf(reg, defs[..i + 1], newId) ==
              PoliciesOf(reg, defs[..i], newId) + (if DefOk(reg, defs[i]) then [PolicyOf(defs[i], i, newId)] else [])
  {
    assert defs[..i + 1][..i] == defs[..i];
  }

  /** The policies that the definitions stand for, field by field. */
  predicate MadeFrom(made: seq<Policy>, defs: seq<Def>, newId: nat -> string) {
    |made| == |defs|
    && forall i :: 0 <= i < |defs| ==> MadeOf(made[i], defs[i], if defs[i].id == "" then newId(i) else defs[i].id)
  }

  predicate MadeOf(p: Policy, def: Def, id: string) {
    && p.id == id && p.kind == def.kind && p.order == def.order && p.enabled == def.enabled
    && p.config == def.config && p.condition == def.condition
    && (match p.phase
        case PreRequest => def.phase == "pre_request"
        case PostRequest => def.phase == "post_request"
        case PreResponse => def.phase == "pre_response"
        case PostResponse => def.phase == "post_response")
  }

  lemma AllMade(reg: Registry, defs: seq<Def>, newId: nat -> string)
    requires forall i :: 0 <= i < |defs| ==> DefOk(reg, defs[i])
    ensures MadeFrom(PoliciesOf(reg, defs, newId), defs, newId)
  {
    AllPolicies(reg, defs, newId);
    hide PoliciesOf;
  }

  lemma SortedOutcome(sorted: seq<Policy>, policies: seq<Policy>)
    requires SortOf(sorted, policies, Leq)
    ensures multiset(policies) == multiset(sorted)
    ensures forall i, j :: 0 <= i < j < |sorted| ==> Precedes(sorted[i], sorted[j])
  {
    SortedPrecede(sorted);
  }

  lemma SortedPrecede(ps: seq<Policy>)
    requires Ordered(ps, Leq)
    ensures forall i, j :: 0 <= i < j < |ps| ==> Precedes(ps[i], ps[j])
  {
    forall i, j | 0 <= i < j < |ps| ensures Precedes(ps[i], ps[j]) {
      LeqIsPrecedes(ps[i], ps[j]);
    }
  }

  /** What is reported, and of which definition: the API if it is missing, and of each
      definition an unknown type, or else an unknown phase, or else what the plugin has
      against it. */
  predicate Reported(reg: Registry, dsl: Dsl, e: Error, n: nat)
    requires n <= |dsl.policies|
  {
    match e
    case ApiIdRequired => dsl.apiId == ""
    case UnknownType(i) => i < n && !reg.known(dsl.policies[i].kind)
    case UnknownPhase(i) =>
      i < n && reg.known(dsl.policies[i].kind)
      && dsl.policies[i].phase !in ["pre_request", "post_request", "pre_response", "post_response"]
    case Invalid(i, msg) =>
      i < n && reg.known(dsl.policies[i].kind)
      && dsl.policies[i].phase in ["pre_request", "post_request", "pre_response", "post_response"]
      && msg in reg.validate(dsl.policies[i].kind, dsl.policies[i].config)
  }

  lemma {:induction false} TaggedHas(i: nat, msgs: seq<string>, e: Error)
    ensures e in Tagged(i, msgs) <==> e.Invalid? && e.i == i && e.msg in msgs
  {
    if msgs != [] {
      TaggedHas(i, msgs[1..], e);
    }
  }

  lemma {:induction false} ErrorsSay(reg: Registry, dsl: Dsl, n: nat, e: Error)
    requires n <= |dsl.policies|
    ensures e in ErrorsUpTo(reg, dsl, n) <==> Reported(reg, dsl, e, n)
  {
    if n > 0 {
      ErrorsSay(reg, dsl, n - 1, e);
      var def := dsl.policies[n - 1];
      TaggedHas(n - 1, reg.validate(def.kind, def.config), e);
      assert def.phase in PHASE_NAMES <==>
             def.phase in ["pre_request", "post_request", "pre_response", "post_response"];
    }
  }

  function PlaceOf(e: Error): int {
    if e.ApiIdRequired? then -1 else e.i
  }

  predicate InOrder(errors: seq<Error>) {
    forall i, j :: 0 <= i < j < |errors| ==> PlaceOf(errors[i]) <= PlaceOf(errors[j])
  }

  predicate PlacedBelow(errors: seq<Error>, n: int) {
    forall e :: e in errors ==> PlaceOf(e) < n
  }

  /** The errors come in the order of the definitions, the missing API first. */
  lemma {:induction false} ErrorsInOrder(reg: Registry, dsl: Dsl, n: nat)
    requires n <= |dsl.policies|
    ensures InOrder(ErrorsUpTo(reg, dsl, n)) && PlacedBelow(ErrorsUpTo(reg, dsl, n), n)
  {
    if n > 0 {
      hide DefErrors, InOrder, PlacedBelow;
      ErrorsInOrder(reg, dsl, n - 1);
      OnePlace(reg, dsl.policies[n - 1], n - 1);
      var before, here := ErrorsUpTo(reg, dsl, n - 1), DefErrors(reg, dsl.policies[n - 1], n - 1);
      assert ErrorsUpTo(reg, dsl, n) == before + here;
      hide *;
      InOrderAppend(before, here, n - 1);
    }
  }

  lemma InOrderAppend(before: seq<Error>, here: seq<Error>, n: int)
    requires InOrder(before) && PlacedBelow(before, n)
    requires forall e :: e in here ==> PlaceOf(e) == n
    ensures InOrder(before + here) && PlacedBelow(before + here, n + 1)
  {
    hide PlaceOf;
    forall i, j | 0 <= i < j < |before + here|
      ensures PlaceOf((before + here)[i]) <= PlaceOf((before + here)[j])
    {
      if j >= |before| {
        assert here[j - |before|] in here;
        if i < |before| {
          assert before[i] in before;
        } else {
          assert here[i - |before|] in here;
        }
      }
    }
  }

  lemma OnePlace(reg: Registry, def: Def, i: nat)
    ensures forall e :: e in DefErrors(reg, def, i) ==> PlaceOf(e) == i
  {
    forall e | e in DefErrors(reg, def, i) ensures PlaceOf(e) == i {
      TaggedHas(i, reg.validate(def.kind, def.config), e);
    }
  }

  /** CompileFromDSL: every definition is looked at even after an error, and either all
      errors are reported in order or all policies come out sorted. */
  method CompileFromDSL(reg: Registry, dsl: Dsl, newId: nat -> string, newChainId: string) returns (r: Compiled)
    ensures r.Failed? <==> ErrorsUpTo(reg, dsl, |dsl.policies|) != []
    ensures r.Failed? ==> r.errors == ErrorsUpTo(reg, dsl, |dsl.policies|)
    ensures r.Chain? ==>
              && SortOf(r.policies, PoliciesOf(reg, dsl.policies, newId), Leq)
              && r.id == (if dsl.chainId == "" then newChainId else dsl.chainId)
              && r.apiId == dsl.apiId && r.version == dsl.version
    ensures r.Failed? ==> forall e :: e in r.errors <==> Reported(reg, dsl, e, |dsl.policies|)
    ensures r.Chain? ==>
              && (exists made :: MadeFrom(made, dsl.policies, newId) && multiset(made) == multiset(r.policies))
              && forall i, j :: 0 <= i < j < |r.policies| ==> Precedes(r.policies[i], r.policies[j])
  {
    assert PoliciesOf(reg, dsl.policies[..0], newId) == [];
    hide SortOf, Leq, PoliciesOf, PolicyOf;
    var errors: seq<Error> := [];
    if dsl.apiId == "" {
      errors := errors + [ApiIdRequired];
    }
    var id := if dsl.chainId == "" then newChainId else dsl.chainId;
    var policies: seq<Policy> := [];
    for i := 0 to |dsl.policies|
      invariant errors == ErrorsUpTo(reg, dsl, i)
      invariant policies == PoliciesOf(reg, dsl.policies[..i], newId)
    {
      var def := dsl.policies[i];
      PoliciesSnoc(reg, dsl.policies, i, newId);
      if !reg.known(def.kind) {
        errors := errors + [UnknownType(i)];
        continue;
      }
      if def.phase !in PHASE_NAMES {
        errors := errors + [UnknownPhase(i)];
        continue;
      }
      var msgs := reg.validate(def.kind, def.config);
      if |msgs| > 0 {
        errors := errors + Tagged(i, msgs);
        continue;
      }
      policies := policies + [PolicyOf(def, i, newId)];
    }
    assert dsl.policies[..|dsl.policies|] == dsl.policies;
    hide ErrorsUpTo, DefErrors, Tagged, Reported, MadeFrom, Precedes, DefOk;
    if |errors| > 0 {
      forall e ensures e in errors <==> Reported(reg, dsl, e, |dsl.policies|) {
        ErrorsSay(reg, dsl, |dsl.policies|, e);
      }
      return Failed(errors);
    }
    var sorted := SortSlice(policies);
    NoErrorsExactly(reg, dsl, |dsl.policies|);
    AllMade(reg, dsl.policies, newId);
    SortedOutcome(sorted, policies);
    return Chain(id, dsl.apiId, dsl.version, sorted);
  }

  /** Sorting a compiled chain again, however ties are broken, changes nothing exactly
      when its (phase, order) pairs are distinct. */
  lemma ResortingIsIdle(chain: seq<Policy>)
    requires Ordered(chain, Leq) && forall i, j :: 0 <= i < j < |chain| ==> chain[i] != chain[j]
    ensures Strict(chain, Leq) <==> forall again :: SortOf(again, chain, Leq) ==> again == chain
  {
    LeqTotal();
    assert SortOf(chain, chain, Leq);
    UniqueIffStrict(chain, Leq);
  }
}
