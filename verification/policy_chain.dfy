/** The policy compiler and the two executors, with plugins as opaque state changes. */
module PolicyChain {
  import opened Wrappers
  import opened Sorting

  datatype Phase = PreRequest | PostRequest | PreResponse | PostResponse {
    /** PhaseOrder */
    function Rank(): nat {
      match this
      case PreRequest => 0
      case PostRequest => 1
      case PreResponse => 2
      case PostResponse => 3
    }
  }

  const PHASES := [PreRequest, PostRequest, PreResponse, PostResponse]

  datatype Policy = Policy(id: string, kind: string, phase: Phase, order: int, enabled: bool,
                           config: map<string, string>, condition: string)

  /** The context of one request; everything only plugins look at is in `rest`. */
  datatype Ctx<S> = Ctx(aborted: bool, abortCode: int, abortMsg: string, cacheHit: bool, rest: S) {
    predicate Stopped() { aborted || cacheHit }

    function Abort(code: int, msg: string): Ctx<S> {
      this.(aborted := true, abortCode := code, abortMsg := msg)
    }
  }

  datatype PluginResult<S> = PluginResult(ctx: Ctx<S>, failed: bool)

  /** The plugin registry and the meaning of conditions. */
  datatype Engine<!S> = Engine(known: string -> bool,
                               holds: (string, Ctx<S>) -> bool,
                               execute: (Policy, Ctx<S>) -> PluginResult<S>)

  /** `stats` counts the executed plugins by phase. */
  datatype Result = Result(aborted: bool, abortCode: int, abortMsg: string, cacheHit: bool, stats: multiset<Phase>) {
    predicate Stopped() { aborted || cacheHit }
  }

  const NOTHING := Result(false, 0, "", false, multiset{})

  /** By phase, then by order. */
  predicate Leq(p: Policy, q: Policy) {
    p.phase.Rank() < q.phase.Rank() || (p.phase == q.phase && p.order <= q.order)
  }

  lemma LeqTotal()
    ensures TotalPreorder(Leq)
  {}

  /** The order of the phases, and within a phase that of the definitions. */
  predicate Precedes(p: Policy, q: Policy) {
    match p.phase
    case PreRequest => q.phase != PreRequest || p.order <= q.order
    case PostRequest =>
      q.phase == PreResponse || q.phase == PostResponse || (q.phase == PostRequest && p.order <= q.order)
    case PreResponse => q.phase == PostResponse || (q.phase == PreResponse && p.order <= q.order)
    case PostResponse => q.phase == PostResponse && p.order <= q.order
  }

  lemma LeqIsPrecedes(p: Policy, q: Policy)
    ensures Leq(p, q) <==> Precedes(p, q)
  {}

  // ---- The Go executor -----------------------------------------------------

  /** An empty filter lets every phase run. */
  predicate Runs<S>(e: Engine<S>, p: Policy, filter: set<Phase>, ctx: Ctx<S>) {
    && p.enabled
    && (filter == {} || p.phase in filter)
    && (p.condition == "" || e.holds(p.condition, ctx))
    && e.known(p.kind)
  }

  const INTERNAL := "policy engine internal error: "

  /** A plugin error counts as an abort with status 500. */
  function Apply<S>(e: Engine<S>, p: Policy, ctx: Ctx<S>): Ctx<S> {
    var r := e.execute(p, ctx);
    if r.failed then r.ctx.Abort(500, INTERNAL + p.kind) else r.ctx
  }

  function StopResult<S>(ctx: Ctx<S>, phase: Phase): Result {
    Result(ctx.aborted, if ctx.aborted then ctx.abortCode else 0, if ctx.aborted then ctx.abortMsg else "",
           ctx.cacheHit, multiset{phase})
  }

  /** The loop over an ordered list of policies. */
  function RunList<S>(e: Engine<S>, ps: seq<Policy>, filter: set<Phase>, ctx: Ctx<S>): (Ctx<S>, Result)
    decreases |ps|
  {
    if ps == [] then (ctx, NOTHING)
    else if !Runs(e, ps[0], filter, ctx) then RunList(e, ps[1..], filter, ctx)
    else
      var ctx' := Apply(e, ps[0], ctx);
      if ctx'.Stopped() then (ctx', StopResult(ctx', ps[0].phase))
      else
        var (end, r) := RunList(e, ps[1..], filter, ctx');
        (end, r.(stats := multiset{ps[0].phase} + r.stats))
  }

  /** What a run reports is what it left in the context, if it ended early. */
  lemma {:induction false} ReportIsTheContext<S>(e: Engine<S>, ps: seq<Policy>, filter: set<Phase>, ctx: Ctx<S>)
    ensures var (end, r) := RunList(e, ps, filter, ctx);
            && (r.aborted ==> end.aborted && r.abortCode == end.abortCode && r.abortMsg == end.abortMsg)
            && (!r.aborted ==> r.abortCode == 0 && r.abortMsg == "")
            && (r.cacheHit ==> end.cacheHit)
            && (!ctx.aborted && !ctx.cacheHit ==> r.aborted == end.aborted && r.cacheHit == end.cacheHit)
    decreases |ps|
  {
    if ps != [] {
      ReportIsTheContext(e, ps[1..], filter, ctx);
      ReportIsTheContext(e, ps[1..], filter, Apply(e, ps[0], ctx));
    }
  }

  /** Go's sort.Slice on a copy: some ordered permutation, nothing more. */
  method SortSlice(ps: seq<Policy>) returns (r: seq<Policy>)
    ensures SortOf(r, ps, Leq)
  {
    LeqTotal();
    SortedSorts(ps, Leq);
    r := Sorted(ps, Leq);
  }

  class ExecContext<S> {
    var view: Ctx<S>

    constructor (v: Ctx<S>)
      ensures view == v
    {
      view := v;
    }
  }

  /** Execute; ExecutePhase passes a single phase as the filter. */
  method Execute<S>(e: Engine<S>, policies: seq<Policy>, execCtx: ExecContext<S>, filter: set<Phase>)
    returns (result: Result)
    modifies execCtx
    ensures exists ordered :: SortOf(ordered, policies, Leq)
              && (execCtx.view, result) == RunList(e, ordered, filter, old(execCtx.view))
    ensures result.aborted ==>
              && execCtx.view.aborted
              && result.abortCode == execCtx.view.abortCode && result.abortMsg == execCtx.view.abortMsg
    ensures !result.aborted ==> result.abortCode == 0 && result.abortMsg == ""
    ensures result.cacheHit ==> execCtx.view.cacheHit
    ensures !old(execCtx.view).aborted && !old(execCtx.view).cacheHit ==>
              result.aborted == execCtx.view.aborted && result.cacheHit == execCtx.view.cacheHit
  {
    var ordered := SortSlice(policies);
    ReportIsTheContext(e, ordered, filter, execCtx.view);
    result := ExecuteOrdered(e, ordered, execCtx, filter);
  }

  method ExecuteOrdered<S>(e: Engine<S>, ordered: seq<Policy>, execCtx: ExecContext<S>, filter: set<Phase>)
    returns (result: Result)
    modifies execCtx
    ensures (execCtx.view, result) == RunList(e, ordered, filter, old(execCtx.view))
  {
    result := NOTHING;
    var i := 0;
    assert ordered[0..] == ordered;
    StatsSum(multiset{}, multiset{}, RunList(e, ordered, filter, execCtx.view).1.stats);
    while i < |ordered|
      invariant 0 <= i <= |ordered|
      invariant result == NOTHING.(stats := result.stats)
      invariant var (end, r) := RunList(e, ordered[i..], filter, execCtx.view);
                RunList(e, ordered, filter, old(execCtx.view)) == (end, r.(stats := result.stats + r.stats))
    {
      var policy := ordered[i];
      assert ordered[i..][0] == policy && ordered[i..][1..] == ordered[i + 1..];
      ghost var was := result.stats;
      i := i + 1;
      if !policy.enabled || (filter != {} && policy.phase !in filter) {
        continue;
      }
      if policy.condition != "" && !e.holds(policy.condition, execCtx.view) {
        continue;
      }
      if !e.known(policy.kind) {
        continue;
      }
      assert Runs(e, policy, filter, execCtx.view);
      ghost var next := Apply(e, policy, execCtx.view);
      var done := e.execute(policy, execCtx.view);
      execCtx.view := done.ctx;
      if done.failed {
        execCtx.view := execCtx.view.Abort(500, INTERNAL + policy.kind);
      }
      assert execCtx.view == next;
      hide Apply, Runs;
      result := result.(stats := result.stats + multiset{policy.phase});
      if execCtx.view.aborted {
        result := result.(aborted := true, abortCode := execCtx.view.abortCode, abortMsg := execCtx.view.abortMsg);
        if execCtx.view.cacheHit {
          result := result.(cacheHit := true);
        }
        return;
      }
      if execCtx.view.cacheHit {
        result := result.(cacheHit := true);
        return;
      }
      StatsSum(was, multiset{policy.phase}, RunList(e, ordered[i..], filter, execCtx.view).1.stats);
    }
    StatsSum(result.stats, multiset{}, multiset{});
  }

  // ---- Whole chain and phase by phase --------------------------------------

  function Select(ps: seq<Policy>, phase: Phase): seq<Policy> {
    if ps == [] then []
    else if ps[0].phase == phase then [ps[0]] + Select(ps[1..], phase)
    else Select(ps[1..], phase)
  }

  lemma {:induction false} FilterIsSelect<S>(e: Engine<S>, ps: seq<Policy>, phase: Phase, ctx: Ctx<S>)
    ensures RunList(e, ps, {phase}, ctx) == RunList(e, Select(ps, phase), {}, ctx)
    decreases |ps|
  {
    if ps != [] {
      var p := ps[0];
      if p.phase == phase {
        assert Select(ps, phase)[0] == p && Select(ps, phase)[1..] == Select(ps[1..], phase);
        FilterIsSelect(e, ps[1..], phase, ctx);
        FilterIsSelect(e, ps[1..], phase, Apply(e, p, ctx));
      } else {
        FilterIsSelect(e, ps[1..], phase, ctx);
      }
    }
  }

  /** The policies of the phases from the i-th on, one phase after another. */
  function From(ps: seq<Policy>, i: nat): seq<Policy>
    requires i <= 4
    decreases 4 - i
  {
    if i == 4 then [] else Select(ps, PHASES[i]) + From(ps, i + 1)
  }

  /** An ordered chain is its four phases one after another. */
  lemma {:induction false} OrderedSplits(ps: seq<Policy>)
    requires Ordered(ps, Leq)
    ensures ps == From(ps, 0)
  {
    if ps == [] {
      EmptyFrom(0);
    } else {
      var p, rest := ps[0], ps[1..];
      OrderedSplits(rest);
      FromCons(p, rest, 0);
      assert ps == [p] + rest;
    }
  }

  lemma {:induction false} EmptyFrom(i: nat)
    requires i <= 4
    ensures From([], i) == []
    decreases 4 - i
  {
    if i < 4 {
      EmptyFrom(i + 1);
    }
  }

  lemma {:induction false} FromCons(p: Policy, rest: seq<Policy>, i: nat)
    requires i <= 4 && forall q :: q in rest ==> Leq(p, q)
    ensures From([p] + rest, i) == (if i <= p.phase.Rank() then [p] else []) + From(rest, i)
    decreases 4 - i
  {
    assert ([p] + rest)[1..] == rest;
    if i < 4 {
      FromCons(p, rest, i + 1);
      if i < p.phase.Rank() {
        NoneEarlier(rest, p, PHASES[i]);
      }
    }
  }

  lemma {:induction false} NoneEarlier(ps: seq<Policy>, p: Policy, phase: Phase)
    requires phase.Rank() < p.phase.Rank() && forall q :: q in ps ==> Leq(p, q)
    ensures Select(ps, phase) == []
  {
    if ps != [] {
      assert Leq(p, ps[0]);
      NoneEarlier(ps[1..], p, phase);
    }
  }

  lemma {:induction false} RunAppend<S>(e: Engine<S>, a: seq<Policy>, b: seq<Policy>, ctx: Ctx<S>)
    ensures var (mid, first) := RunList(e, a, {}, ctx);
            var (end, second) := RunList(e, b, {}, mid);
            RunList(e, a + b, {}, ctx) ==
              if first.Stopped() then (mid, first) else (end, second.(stats := first.stats + second.stats))
    decreases |a|
  {
    if a == [] {
      assert [] + b == b;
      StatsSum(multiset{}, multiset{}, RunList(e, b, {}, ctx).1.stats);
    } else {
      var rest, phase := a[1..], multiset{a[0].phase};
      assert (a + b)[1..] == rest + b;
      if !Runs(e, a[0], {}, ctx) {
        RunAppend(e, rest, b, ctx);
      } else {
        var ctx' := Apply(e, a[0], ctx);
        RunAppend(e, rest, b, ctx');
        var (mid, first) := RunList(e, rest, {}, ctx');
        StatsSum(phase, first.stats, RunList(e, b, {}, mid).1.stats);
      }
    }
  }

  lemma StatsSum(a: multiset<Phase>, b: multiset<Phase>, c: multiset<Phase>)
    ensures a + (b + c) == (a + b) + c && multiset{} + c == c && a + multiset{} == a
  {
  }

  /** A run that was not stopped reports no abort. */
  lemma {:induction false} NotStopped<S>(e: Engine<S>, ps: seq<Policy>, filter: set<Phase>, ctx: Ctx<S>)
    ensures var r := RunList(e, ps, filter, ctx).1;
            !r.Stopped() ==> r == NOTHING.(stats := r.stats)
    decreases |ps|
  {
    if ps != [] {
      NotStopped(e, ps[1..], filter, ctx);
      NotStopped(e, ps[1..], filter, Apply(e, ps[0], ctx));
    }
  }

  /** One run per phase, from the i-th phase on, each on its own sorted copy of the
      chain, stopping at the first abort or cache hit and adding up the statistics. */
  function InTurn<S>(e: Engine<S>, copies: seq<seq<Policy>>, i: nat, ctx: Ctx<S>): (Ctx<S>, Result)
    requires |copies| == 4 && i <= 4
    decreases 4 - i
  {
    if i == 4 then (ctx, NOTHING)
    else
      var (mid, first) := RunList(e, copies[i], {PHASES[i]}, ctx);
      if first.Stopped() then (mid, first)
      else
        var (end, second) := InTurn(e, copies, i + 1, mid);
        (end, second.(stats := first.stats + second.stats))
  }

  lemma {:induction false} FromIsInTurn<S>(e: Engine<S>, ps: seq<Policy>, i: nat, ctx: Ctx<S>)
    requires i <= 4
    ensures RunList(e, From(ps, i), {}, ctx) == InTurn(e, [ps, ps, ps, ps], i, ctx)
    decreases 4 - i
  {
    if i < 4 {
      var mid := RunList(e, ps, {PHASES[i]}, ctx).0;
      FilterIsSelect(e, ps, PHASES[i], ctx);
      RunAppend(e, Select(ps, PHASES[i]), From(ps, i + 1), ctx);
      FromIsInTurn(e, ps, i + 1, mid);
    }
  }

  /** With distinct (phase, order) pairs the unstable sorts leave no choice, and
      running the whole chain is running its four phases in turn. */
  lemma ChainIsPhases<S>(e: Engine<S>, policies: seq<Policy>, whole: seq<Policy>, copies: seq<seq<Policy>>, ctx: Ctx<S>)
    requires Strict(policies, Leq) && SortOf(whole, policies, Leq)
    requires |copies| == 4 && forall i :: 0 <= i < 4 ==> SortOf(copies[i], policies, Leq)
    ensures RunList(e, whole, {}, ctx) == InTurn(e, copies, 0, ctx)
  {
    LeqTotal();
    StrictPermutes(policies, whole, Leq);
    forall i | 0 <= i < 4 ensures copies[i] == whole {
      SortUnique(whole, copies[i], Leq);
    }
    assert copies == [whole, whole, whole, whole];
    OrderedSplits(whole);
    FromIsInTurn(e, whole, 0, ctx);
  }

  // ---- The TypeScript executor ---------------------------------------------

  predicate LeqOrder(p: Policy, q: Policy) {
    p.order <= q.order
  }

  function Enabled(ps: seq<Policy>, phase: Phase): seq<Policy> {
    if ps == [] then []
    else if ps[0].enabled && ps[0].phase == phase then [ps[0]] + Enabled(ps[1..], phase)
    else Enabled(ps[1..], phase)
  }

  /** filter, then the stable sort by order alone */
  function PhasePolicies(ps: seq<Policy>, phase: Phase): seq<Policy> {
    Sorted(Enabled(ps, phase), LeqOrder)
  }

  lemma {:induction false} EnabledCounts(ps: seq<Policy>, phase: Phase, p: Policy)
    ensures multiset(Enabled(ps, phase))[p] == if p.enabled && p.phase == phase then multiset(ps)[p] else 0
  {
    if ps != [] {
      EnabledCounts(ps[1..], phase, p);
      assert ps == [ps[0]] + ps[1..];
    }
  }

  lemma {:induction false} EnabledOrdered(ps: seq<Policy>, phase: Phase)
    requires Ordered(ps, Leq)
    ensures Ordered(Enabled(ps, phase), LeqOrder)
    ensures forall p :: p in Enabled(ps, phase) ==> p in ps && p.phase == phase
  {
    if ps != [] {
      EnabledOrdered(ps[1..], phase);
    }
  }

  lemma {:induction false} EnabledStrict(ps: seq<Policy>, phase: Phase)
    requires Strict(ps, Leq)
    ensures Strict(Enabled(ps, phase), LeqOrder)
    ensures forall p :: p in Enabled(ps, phase) ==> p in ps && p.phase == phase
  {
    if ps != [] {
      EnabledStrict(ps[1..], phase);
      var r := Enabled(ps[1..], phase);
      forall p | p in r ensures !(Leq(ps[0], p) && Leq(p, ps[0])) {
        assert p in ps[1..];
      }
    }
  }

  /** Filtering before a stable sort by order gives the sequence that filtering after
      the sort by phase and order gives. */
  lemma SameSequence(policies: seq<Policy>, ordered: seq<Policy>, phase: Phase)
    requires Strict(policies, Leq) && SortOf(ordered, policies, Leq)
    ensures PhasePolicies(policies, phase) == Enabled(ordered, phase)
  {
    assert TotalPreorder(LeqOrder);
    var a, b := Enabled(policies, phase), Enabled(ordered, phase);
    SortedSorts(a, LeqOrder);
    forall p ensures multiset(a)[p] == multiset(b)[p] {
      EnabledCounts(policies, phase, p);
      EnabledCounts(ordered, phase, p);
    }
    assert multiset(a) == multiset(b);
    EnabledStrict(policies, phase);
    EnabledOrdered(ordered, phase);
    StrictPermutes(a, Sorted(a, LeqOrder), LeqOrder);
    SortUnique(Sorted(a, LeqOrder), b, LeqOrder);
  }

  /** The loop of executePhase: it looks at the context before each policy, and a
      plugin that throws is only logged. */
  function TsRun<S>(e: Engine<S>, ps: seq<Policy>, ctx: Ctx<S>): Ctx<S>
    decreases |ps|
  {
    if ps == [] || ctx.Stopped() then ctx
    else if (ps[0].condition != "" && !e.holds(ps[0].condition, ctx)) || !e.known(ps[0].kind) then
      TsRun(e, ps[1..], ctx)
    else TsRun(e, ps[1..], e.execute(ps[0], ctx).ctx)
  }

  /** What executePhase returns, but for the time it took. */
  datatype Summary = Summary(aborted: bool, abortCode: int, abortMsg: string, cacheHit: bool)

  function SummaryOf<S>(ctx: Ctx<S>): Summary {
    Summary(ctx.aborted, ctx.abortCode, ctx.abortMsg, ctx.cacheHit)
  }

  /** The gateway's context also names the phase; a plugin finds that in its policy too. */
  class GatewayContext<S> {
    var view: Ctx<S>
    var phase: Option<Phase>

    constructor (v: Ctx<S>)
      ensures view == v && phase == None
    {
      view, phase := v, None;
    }
  }

  /** Without a chain nothing is run and nothing reported. */
  method ExecutePhase<S>(e: Engine<S>, chain: Option<seq<Policy>>, execCtx: GatewayContext<S>, phase: Phase)
    returns (r: Summary)
    modifies execCtx
    ensures chain == None ==>
              && execCtx.view == old(execCtx.view) && execCtx.phase == old(execCtx.phase)
              && r == Summary(false, 0, "", false)
    ensures chain.Some? ==>
              && execCtx.view == TsRun(e, PhasePolicies(chain.value, phase), old(execCtx.view))
              && execCtx.phase == Some(phase)
              && r.aborted == execCtx.view.aborted && r.cacheHit == execCtx.view.cacheHit
              && r.abortCode == execCtx.view.abortCode && r.abortMsg == execCtx.view.abortMsg
  {
    if chain == None {
      return Summary(false, 0, "", false);
    }
    execCtx.phase := Some(phase);
    var ps := PhasePolicies(chain.value, phase);
    var i := 0;
    while i < |ps|
      invariant 0 <= i <= |ps|
      invariant TsRun(e, ps[i..], execCtx.view) == TsRun(e, ps, old(execCtx.view))
      invariant execCtx.phase == Some(phase)
    {
      var policy := ps[i];
      assert ps[i..][0] == policy && ps[i..][1..] == ps[i + 1..];
      if execCtx.view.Stopped() {
        break;
      }
      i := i + 1;
      if policy.condition != "" && !e.holds(policy.condition, execCtx.view) {
        continue;
      }
      if !e.known(policy.kind) {
        continue;
      }
      execCtx.view := e.execute(policy, execCtx.view).ctx;
    }
    return SummaryOf(execCtx.view);
  }
}
