/** When the policy engine and the gateway, each with its own conditions, registry and
    plugins, leave a request in the same state. */
module ExecutorsAgree {
  import opened Sorting
  import opened PolicyChain
  import T = Text
  import C = Conditions
  import PC = PolicyCompiler

  // ---- One policy in each executor -----------------------------------------

  predicate Passes<S>(e: Engine<S>, p: Policy, ctx: Ctx<S>) {
    (p.condition == "" || e.holds(p.condition, ctx)) && e.known(p.kind)
  }

  function GoNext<S>(e: Engine<S>, p: Policy, ctx: Ctx<S>): Ctx<S> {
    if Passes(e, p, ctx) then Apply(e, p, ctx) else ctx
  }

  /** The gateway looks at the context first. */
  function TsNext<S>(e: Engine<S>, p: Policy, ctx: Ctx<S>): Ctx<S> {
    if !ctx.Stopped() && Passes(e, p, ctx) then e.execute(p, ctx).ctx else ctx
  }

  /** The policy engine on the enabled policies of one phase. */
  function GoRun<S>(e: Engine<S>, ps: seq<Policy>, ctx: Ctx<S>): Ctx<S>
    decreases |ps|
  {
    if ps == [] then ctx
    else
      var next := GoNext(e, ps[0], ctx);
      if Passes(e, ps[0], ctx) && next.Stopped() then next else GoRun(e, ps[1..], next)
  }

  lemma {:induction false} GoRunsEnabled<S>(e: Engine<S>, ps: seq<Policy>, phase: Phase, ctx: Ctx<S>)
    ensures RunList(e, ps, {phase}, ctx).0 == GoRun(e, Enabled(ps, phase), ctx)
    ensures var stats := RunList(e, ps, {phase}, ctx).1.stats;
            |stats| == stats[phase] == |GoTrail(e, Enabled(ps, phase), ctx)|
    decreases |ps|
  {
    if ps != [] {
      var p, rest := ps[0], ps[1..];
      GoRunsEnabled(e, rest, phase, ctx);
      GoRunsEnabled(e, rest, phase, Apply(e, p, ctx));
      if p.enabled && p.phase == phase {
        assert Enabled(ps, phase)[0] == p && Enabled(ps, phase)[1..] == Enabled(rest, phase);
      }
    }
  }

  // ---- The first policy after which they differ ----------------------------

  /** The policies that the executors have still to go through when their contexts first
      differ, and the two contexts; `goDone` says that the policy engine stops there. */
  datatype Split<S> = Together | Apart(rest: seq<Policy>, go: Ctx<S>, goDone: bool, ts: Ctx<S>)

  function FirstSplit<S(==)>(go: Engine<S>, ts: Engine<S>, ps: seq<Policy>, ctx: Ctx<S>): Split<S>
    decreases |ps|
  {
    if ps == [] then Together
    else
      var g, t := GoNext(go, ps[0], ctx), TsNext(ts, ps[0], ctx);
      var done := Passes(go, ps[0], ctx) && g.Stopped();
      if g != t then Apart(ps[1..], g, done, t)
      else if done then Together
      else FirstSplit(go, ts, ps[1..], g)
  }

  /** The executors leave the same context exactly when theirs never differ, or what is
      left makes up for the first difference. */
  predicate Converges<S(==)>(go: Engine<S>, ts: Engine<S>, split: Split<S>) {
    split.Apart? ==>
      (if split.goDone then split.go else GoRun(go, split.rest, split.go)) == TsRun(ts, split.rest, split.ts)
  }

  lemma {:induction false} StoppedStays<S>(e: Engine<S>, ps: seq<Policy>, ctx: Ctx<S>)
    requires ctx.Stopped()
    ensures TsRun(e, ps, ctx) == ctx
  {}

  lemma {:induction false} AgreeExactly<S>(go: Engine<S>, ts: Engine<S>, ps: seq<Policy>, ctx: Ctx<S>)
    ensures GoRun(go, ps, ctx) == TsRun(ts, ps, ctx) <==> Converges(go, ts, FirstSplit(go, ts, ps, ctx))
    decreases |ps|
  {
    if ps != [] {
      AgreeExactly(go, ts, ps[1..], GoNext(go, ps[0], ctx));
      assert TsRun(ts, ps, ctx) == TsRun(ts, ps[1..], TsNext(ts, ps[0], ctx)) by {
        if ctx.Stopped() {
          StoppedStays(ts, ps[1..], ctx);
        }
      }
    }
  }

  /** The same for one phase of a stored chain, and the policy engine's copy may be sorted
      either way. */
  lemma PhaseConverges<S>(go: Engine<S>, ts: Engine<S>, policies: seq<Policy>, ordered: seq<Policy>, phase: Phase,
                          ctx: Ctx<S>)
    requires Strict(policies, Leq) && SortOf(ordered, policies, Leq)
    ensures RunList(go, ordered, {phase}, ctx).0 == TsRun(ts, PhasePolicies(policies, phase), ctx) <==>
            Converges(go, ts, FirstSplit(go, ts, PhasePolicies(policies, phase), ctx))
  {
    SameSequence(policies, ordered, phase);
    GoRunsEnabled(go, ordered, phase, ctx);
    AgreeExactly(go, ts, PhasePolicies(policies, phase), ctx);
  }

  // ---- Doing the same ------------------------------------------------------

  /** A plugin that was run, and the context that it was given. */
  datatype Execution<S> = Execution(p: Policy, before: Ctx<S>)

  function GoTrail<S>(e: Engine<S>, ps: seq<Policy>, ctx: Ctx<S>): seq<Execution<S>>
    decreases |ps|
  {
    if ps == [] then []
    else if !Passes(e, ps[0], ctx) then GoTrail(e, ps[1..], ctx)
    else
      var next := Apply(e, ps[0], ctx);
      [Execution(ps[0], ctx)] + if next.Stopped() then [] else GoTrail(e, ps[1..], next)
  }

  function TsTrail<S>(e: Engine<S>, ps: seq<Policy>, ctx: Ctx<S>): seq<Execution<S>>
    decreases |ps|
  {
    if ps == [] || ctx.Stopped() then []
    else if !Passes(e, ps[0], ctx) then TsTrail(e, ps[1..], ctx)
    else [Execution(ps[0], ctx)] + TsTrail(e, ps[1..], e.execute(ps[0], ctx).ctx)
  }

  /** The executors run the same plugins on the same contexts, and leave the same one. */
  predicate DoTheSame<S(==)>(go: Engine<S>, ts: Engine<S>, ps: seq<Policy>, ctx: Ctx<S>) {
    GoTrail(go, ps, ctx) == TsTrail(ts, ps, ctx) && GoRun(go, ps, ctx) == TsRun(ts, ps, ctx)
  }

  /** At every context that is reached the engines agree on the condition and the
      registry, and the plugin, if run, does the same in both and does not fail. */
  predicate SameAlong<S(==)>(go: Engine<S>, ts: Engine<S>, ps: seq<Policy>, ctx: Ctx<S>)
    decreases |ps|
  {
    ps == [] || ctx.Stopped() ||
    ((Passes(go, ps[0], ctx) <==> Passes(ts, ps[0], ctx))
     && (Passes(go, ps[0], ctx) ==>
           !go.execute(ps[0], ctx).failed && go.execute(ps[0], ctx).ctx == ts.execute(ps[0], ctx).ctx)
     && SameAlong(go, ts, ps[1..], TsNext(ts, ps[0], ctx)))
  }

  /** The abort that only the policy engine makes, of a plugin's failure. */
  predicate InternalError<S>(ctx: Ctx<S>) {
    ctx.aborted && T.StartsWith(ctx.abortMsg, INTERNAL)
  }

  /** No plugin that the gateway runs aborts with the policy engine's words. */
  predicate OwnWords<S>(ts: Engine<S>, ps: seq<Policy>, ctx: Ctx<S>)
    decreases |ps|
  {
    ps == [] || ctx.Stopped() ||
    var next := TsNext(ts, ps[0], ctx);
    !InternalError(next) && OwnWords(ts, ps[1..], next)
  }

  lemma {:induction false} NeverInternal<S>(ts: Engine<S>, ps: seq<Policy>, ctx: Ctx<S>)
    requires !InternalError(ctx) && OwnWords(ts, ps, ctx)
    ensures !InternalError(TsRun(ts, ps, ctx))
    decreases |ps|
  {
    if ps != [] && !ctx.Stopped() {
      NeverInternal(ts, ps[1..], TsNext(ts, ps[0], ctx));
    }
  }

  lemma FailureIsInternal<S>(go: Engine<S>, p: Policy, ctx: Ctx<S>)
    requires go.execute(p, ctx).failed
    ensures InternalError(Apply(go, p, ctx))
  {
    assert (INTERNAL + p.kind)[..|INTERNAL|] == INTERNAL;
  }

  predicate Distinct(ps: seq<Policy>) {
    forall i, j :: 0 <= i < j < |ps| ==> ps[i] != ps[j]
  }

  lemma {:induction false} GoTrailStarts<S>(e: Engine<S>, ps: seq<Policy>, ctx: Ctx<S>)
    ensures var trail := GoTrail(e, ps, ctx);
            if trail == [] then GoRun(e, ps, ctx) == ctx else trail[0].before == ctx && trail[0].p in ps
    decreases |ps|
  {
    if ps != [] && !Passes(e, ps[0], ctx) {
      GoTrailStarts(e, ps[1..], ctx);
    }
  }

  lemma {:induction false} TsTrailStarts<S>(e: Engine<S>, ps: seq<Policy>, ctx: Ctx<S>)
    ensures var trail := TsTrail(e, ps, ctx);
            if trail == [] then TsRun(e, ps, ctx) == ctx else trail[0].before == ctx && trail[0].p in ps
    decreases |ps|
  {
    if ps != [] && !ctx.Stopped() && !Passes(e, ps[0], ctx) {
      TsTrailStarts(e, ps[1..], ctx);
    }
  }

  /** After an abort or a cache hit neither runs another plugin. */
  lemma {:induction false} TrailsStop<S>(e: Engine<S>, ps: seq<Policy>, ctx: Ctx<S>)
    requires !ctx.aborted && !ctx.cacheHit
    ensures forall x :: x in GoTrail(e, ps, ctx) ==> !x.before.aborted && !x.before.cacheHit
    ensures forall x :: x in TsTrail(e, ps, ctx) ==> !x.before.aborted && !x.before.cacheHit
    decreases |ps|
  {
    if ps != [] {
      TrailsStop(e, ps[1..], ctx);
      var go, ts := Apply(e, ps[0], ctx), e.execute(ps[0], ctx).ctx;
      if !go.aborted && !go.cacheHit {
        TrailsStop(e, ps[1..], go);
      }
      if !ts.aborted && !ts.cacheHit {
        TrailsStop(e, ps[1..], ts);
      }
    }
  }

  /** As long as nothing stops them each runs exactly the policies that pass. */
  lemma {:induction false} TrailsAreComplete<S(!new)>(e: Engine<S>, ps: seq<Policy>, ctx: Ctx<S>)
    requires forall p, c :: p in ps ==> Passes(e, p, c) && e.execute(p, c) == PluginResult(c, false)
    requires !ctx.aborted && !ctx.cacheHit
    ensures |GoTrail(e, ps, ctx)| == |TsTrail(e, ps, ctx)| == |ps|
    ensures forall i :: 0 <= i < |ps| ==> GoTrail(e, ps, ctx)[i].p == ps[i] == TsTrail(e, ps, ctx)[i].p
    decreases |ps|
  {
    if ps != [] {
      assert ps[0] in ps && forall p :: p in ps[1..] ==> p in ps;
      TrailsAreComplete(e, ps[1..], ctx);
    }
  }

  /** On different policies the executors do the same exactly when the engines agree at
      every context that is reached, and no plugin fails there. */
  lemma {:induction false} DoTheSameExactly<S>(go: Engine<S>, ts: Engine<S>, ps: seq<Policy>, ctx: Ctx<S>)
    requires !ctx.Stopped() && Distinct(ps) && OwnWords(ts, ps, ctx)
    ensures DoTheSame(go, ts, ps, ctx) <==> SameAlong(go, ts, ps, ctx)
    decreases |ps|
  {
    if ps != [] {
      var p, rest := ps[0], ps[1..];
      assert p !in rest;
      if Passes(go, p, ctx) != Passes(ts, p, ctx) {
        GoTrailStarts(go, rest, ctx);
        TsTrailStarts(ts, rest, ctx);
      } else if !Passes(go, p, ctx) {
        DoTheSameExactly(go, ts, rest, ctx);
      } else {
        BothRun(go, ts, p, rest, ctx);
        assert ps == [p] + rest;
        var next := ts.execute(p, ctx).ctx;
        if !next.Stopped() {
          DoTheSameExactly(go, ts, rest, next);
        }
      }
    }
  }

  /** Where both run a plugin. */
  lemma BothRun<S>(go: Engine<S>, ts: Engine<S>, p: Policy, rest: seq<Policy>, ctx: Ctx<S>)
    requires !ctx.Stopped() && OwnWords(ts, [p] + rest, ctx) && Passes(go, p, ctx) && Passes(ts, p, ctx)
    ensures var r, next := go.execute(p, ctx), ts.execute(p, ctx).ctx;
            DoTheSame(go, ts, [p] + rest, ctx) <==>
            !r.failed && r.ctx == next && (next.Stopped() || DoTheSame(go, ts, rest, next))
  {
    var r, next := go.execute(p, ctx), ts.execute(p, ctx).ctx;
    assert ([p] + rest)[1..] == rest;
    var goRest := if Apply(go, p, ctx).Stopped() then [] else GoTrail(go, rest, Apply(go, p, ctx));
    assert GoTrail(go, [p] + rest, ctx) == [Execution(p, ctx)] + goRest;
    assert TsTrail(ts, [p] + rest, ctx) == [Execution(p, ctx)] + TsTrail(ts, rest, next);
    assert GoTrail(go, [p] + rest, ctx)[1..] == goRest;
    assert TsTrail(ts, [p] + rest, ctx)[1..] == TsTrail(ts, rest, next);
    NeverInternal(ts, rest, next);
    if r.failed {
      FailureIsInternal(go, p, ctx);
    } else {
      GoTrailStarts(go, rest, r.ctx);
      TsTrailStarts(ts, rest, next);
    }
  }

  /** So then they leave the same context, with no plugin run twice or left out. */
  lemma {:induction false} SameAlongAgrees<S>(go: Engine<S>, ts: Engine<S>, ps: seq<Policy>, ctx: Ctx<S>)
    requires !ctx.Stopped() && SameAlong(go, ts, ps, ctx)
    ensures FirstSplit(go, ts, ps, ctx) == Together && DoTheSame(go, ts, ps, ctx)
    decreases |ps|
  {
    if ps != [] && !TsNext(ts, ps[0], ctx).Stopped() {
      SameAlongAgrees(go, ts, ps[1..], TsNext(ts, ps[0], ctx));
    }
    AgreeExactly(go, ts, ps, ctx);
  }

  /** On a request that is already stopped the gateway runs nothing, and the policy engine
      the first policy that passes. */
  lemma {:induction false} StoppedStartExactly<S>(go: Engine<S>, ts: Engine<S>, ps: seq<Policy>, ctx: Ctx<S>)
    requires ctx.Stopped()
    ensures TsTrail(ts, ps, ctx) == [] && TsRun(ts, ps, ctx) == ctx
    ensures DoTheSame(go, ts, ps, ctx) <==> forall p :: p in ps ==> !Passes(go, p, ctx)
    decreases |ps|
  {
    if ps != [] {
      StoppedStartExactly(go, ts, ps[1..], ctx);
      assert ps[0] in ps;
    }
  }

  // ---- Failing plugins -----------------------------------------------------

  /** Along the gateway's run the engines agree on conditions and registry, and the plugins
      leave the same contexts, failing or not. */
  predicate AlikeAlong<S(==)>(go: Engine<S>, ts: Engine<S>, ps: seq<Policy>, ctx: Ctx<S>)
    decreases |ps|
  {
    ps == [] || ctx.Stopped() ||
    ((Passes(go, ps[0], ctx) <==> Passes(ts, ps[0], ctx))
     && (Passes(go, ps[0], ctx) ==> go.execute(ps[0], ctx).ctx == ts.execute(ps[0], ctx).ctx)
     && AlikeAlong(go, ts, ps[1..], TsNext(ts, ps[0], ctx)))
  }

  /** No plugin that the policy engine comes to fails. */
  predicate FailsNowhere<S>(go: Engine<S>, ps: seq<Policy>, ctx: Ctx<S>)
    decreases |ps|
  {
    ps == [] || ctx.Stopped() ||
    if Passes(go, ps[0], ctx) then
      !go.execute(ps[0], ctx).failed && FailsNowhere(go, ps[1..], go.execute(ps[0], ctx).ctx)
    else FailsNowhere(go, ps[1..], ctx)
  }

  /** Such engines leave the same context exactly when no plugin that is reached fails. */
  lemma {:induction false} FailuresDecide<S>(go: Engine<S>, ts: Engine<S>, ps: seq<Policy>, ctx: Ctx<S>)
    requires !ctx.Stopped() && AlikeAlong(go, ts, ps, ctx) && OwnWords(ts, ps, ctx)
    ensures GoRun(go, ps, ctx) == TsRun(ts, ps, ctx) <==> FailsNowhere(go, ps, ctx)
    decreases |ps|
  {
    if ps != [] {
      var p, rest := ps[0], ps[1..];
      var next := TsNext(ts, p, ctx);
      if Passes(go, p, ctx) && go.execute(p, ctx).failed {
        assert ps == [p] + rest;
        FailureAgreesExactly(go, ts, p, rest, ctx);
        FailureIsInternal(go, p, ctx);
        NeverInternal(ts, rest, next);
      } else if !next.Stopped() {
        FailuresDecide(go, ts, rest, next);
      }
    }
  }

  /** A plugin that fails: they agree exactly if the gateway, going on with the rest, ends
      with the policy engine's own abort. */
  lemma FailureAgreesExactly<S>(go: Engine<S>, ts: Engine<S>, p: Policy, rest: seq<Policy>, ctx: Ctx<S>)
    requires !ctx.Stopped() && Passes(go, p, ctx) && Passes(ts, p, ctx) && go.execute(p, ctx).failed
    ensures var aborted := go.execute(p, ctx).ctx.Abort(500, INTERNAL + p.kind);
            GoRun(go, [p] + rest, ctx) == TsRun(ts, [p] + rest, ctx) <==>
            TsRun(ts, rest, ts.execute(p, ctx).ctx) == aborted
  {
    assert ([p] + rest)[1..] == rest;
  }

  /** A policy that only one of them runs, or runs on a request that is already stopped:
      they agree exactly if the rest makes up for it. */
  lemma OneSidedAgreesExactly<S>(go: Engine<S>, ts: Engine<S>, p: Policy, rest: seq<Policy>, ctx: Ctx<S>)
    requires Passes(go, p, ctx) != (!ctx.Stopped() && Passes(ts, p, ctx))
    ensures GoRun(go, [p] + rest, ctx) == TsRun(ts, [p] + rest, ctx) <==>
            if Passes(go, p, ctx) then
              var next := Apply(go, p, ctx);
              (if next.Stopped() then next else GoRun(go, rest, next)) == TsRun(ts, rest, ctx)
            else GoRun(go, rest, ctx) == TsRun(ts, rest, ts.execute(p, ctx).ctx)
  {
    assert ([p] + rest)[1..] == rest;
    if ctx.Stopped() {
      StoppedStays(ts, rest, ctx);
    }
  }

  // ---- One phase of a stored chain -----------------------------------------

  /** The policies of a phase are different ones, and both executors come to them in the
      same order. */
  lemma PhaseSequence(policies: seq<Policy>, ordered: seq<Policy>, phase: Phase)
    requires Strict(policies, Leq) && SortOf(ordered, policies, Leq)
    ensures PhasePolicies(policies, phase) == Enabled(ordered, phase) && Distinct(Enabled(ordered, phase))
  {
    LeqTotal();
    SameSequence(policies, ordered, phase);
    StrictPermutes(policies, ordered, Leq);
    EnabledStrict(ordered, phase);
  }

  /** So from a request that is not stopped the two executors do the same in one phase of
      a stored chain exactly when their engines agree at every context that is reached. */
  lemma PhaseAgreesExactly<S>(go: Engine<S>, ts: Engine<S>, policies: seq<Policy>, ordered: seq<Policy>,
                              phase: Phase, ctx: Ctx<S>)
    requires Strict(policies, Leq) && SortOf(ordered, policies, Leq)
    requires !ctx.Stopped() && OwnWords(ts, PhasePolicies(policies, phase), ctx)
    ensures var ps := PhasePolicies(policies, phase);
            GoTrail(go, Enabled(ordered, phase), ctx) == TsTrail(ts, ps, ctx)
            && RunList(go, ordered, {phase}, ctx).0 == TsRun(ts, ps, ctx) <==>
            SameAlong(go, ts, ps, ctx)
  {
    PhaseSequence(policies, ordered, phase);
    GoRunsEnabled(go, ordered, phase, ctx);
    DoTheSameExactly(go, ts, PhasePolicies(policies, phase), ctx);
  }

  /** And if only failures can tell them apart, they leave the same context exactly when no
      plugin that is reached fails. */
  lemma PhaseFailuresDecide<S>(go: Engine<S>, ts: Engine<S>, policies: seq<Policy>, ordered: seq<Policy>,
                               phase: Phase, ctx: Ctx<S>)
    requires Strict(policies, Leq) && SortOf(ordered, policies, Leq) && !ctx.Stopped()
    requires var ps := PhasePolicies(policies, phase); AlikeAlong(go, ts, ps, ctx) && OwnWords(ts, ps, ctx)
    ensures var ps := PhasePolicies(policies, phase);
            RunList(go, ordered, {phase}, ctx).0 == TsRun(ts, ps, ctx) <==> FailsNowhere(go, ps, ctx)
  {
    PhaseSequence(policies, ordered, phase);
    GoRunsEnabled(go, ordered, phase, ctx);
    FailuresDecide(go, ts, PhasePolicies(policies, phase), ctx);
  }

  // ---- Such differences exist ----------------------------------------------

  const GO_KINDS := {"jwt_auth", "cache", "cors", "ip_whitelist", "rate_limit", "circuit_breaker",
                     "request_transform", "response_transform"}
  const TS_KINDS := GO_KINDS + {"auth", "api_key_auth", "transform"}

  /** The policy engine knows fewer kinds; a chain that its own compiler accepted has
      none of the others. */
  lemma {:induction false} CompiledKindsAgree(reg: PC.Registry, defs: seq<PC.Def>, newId: nat -> string)
    requires forall kind :: reg.known(kind) <==> kind in GO_KINDS
    ensures forall p :: p in PC.PoliciesOf(reg, defs, newId) ==> p.kind in GO_KINDS && p.kind in TS_KINDS
  {
    if defs != [] {
      CompiledKindsAgree(reg, defs[..|defs| - 1], newId);
    }
  }

  /** A policy of one of the other kinds is run by the gateway alone. */
  lemma RegistriesDiffer<S>(go: Engine<S>, ts: Engine<S>, p: Policy, ctx: Ctx<S>)
    requires forall kind :: go.known(kind) <==> kind in GO_KINDS
    requires forall kind :: ts.known(kind) <==> kind in TS_KINDS
    requires p.kind == "api_key_auth" && p.condition == "" && !ctx.Stopped()
    ensures GoRun(go, [p], ctx) == ctx && TsRun(ts, [p], ctx) == ts.execute(p, ctx).ctx
  {
    assert TsRun(ts, [p][1..], ts.execute(p, ctx).ctx) == ts.execute(p, ctx).ctx;
    assert "api_key_auth" !in GO_KINDS by {
      assert |"api_key_auth"| == 12 && |"ip_whitelist"| == 12;
      assert "api_key_auth"[0] != "ip_whitelist"[0];
    }
  }

  /** A policy whose condition asks for a claim that is a number, say, is run by the
      gateway alone too. */
  lemma ConditionsDiffer(go: Engine<C.Request>, ts: Engine<C.Request>, p: Policy, name: string, expected: string,
                         ctx: Ctx<C.Request>)
    requires forall cond, c :: go.holds(cond, c) == C.GoHolds(cond, c.rest)
    requires forall cond, c :: ts.holds(cond, c) == C.TsHolds(cond, c.rest)
    requires name != "" && '=' !in name && !T.IsBlank(name[|name| - 1])
    requires expected != "" && !T.IsBlank(expected[0]) && !T.IsBlank(expected[|expected| - 1])
    requires name in ctx.rest.claims && ctx.rest.claims[name] == C.Other(expected)
    requires p.condition == C.CLAIM + name + "=" + expected && ts.known(p.kind) && !ctx.Stopped()
    ensures GoRun(go, [p], ctx) == ctx && TsRun(ts, [p], ctx) == ts.execute(p, ctx).ctx
  {
    C.OtherClaimDiffers(name, expected, ctx.rest);
    assert TsRun(ts, [p][1..], ts.execute(p, ctx).ctx) == ts.execute(p, ctx).ctx;
  }

  /** The last policy of a phase fails without touching the context: the policy engine
      answers 500, and the gateway lets the request go on. */
  lemma FailuresDiffer<S>(e: Engine<S>, p: Policy, ctx: Ctx<S>)
    requires !ctx.Stopped() && Passes(e, p, ctx) && e.execute(p, ctx) == PluginResult(ctx, true)
    ensures TsRun(e, [p], ctx) == ctx
    ensures GoRun(e, [p], ctx) ==
              ctx.(aborted := true, abortCode := 500, abortMsg := "policy engine internal error: " + p.kind)
  {
    assert TsRun(e, [p][1..], ctx) == ctx;
  }

  /** A request that is already stopped: the policy engine still runs the first policy
      that passes, and the gateway none. */
  lemma StoppedStartsDiffer<S>(e: Engine<S>, p: Policy, ctx: Ctx<S>)
    requires ctx.Stopped() && Passes(e, p, ctx)
    ensures GoRun(e, [p], ctx) == Apply(e, p, ctx) && TsRun(e, [p], ctx) == ctx
  {}
}
