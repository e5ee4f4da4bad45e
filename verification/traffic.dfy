/** The plugin under traffic: many requests of many clients, one after another. */
module Traffic {
  import opened Wrappers
  import opened RequestLog
  import SW = SlidingWindow
  import FW = FixedWindow
  import TB = TokenBucket
  import WC = WindowCascade
  import opened RateLimitHeaders
  import opened WindowReports
  import opened RedisScripts

  /** A request to the plugin: whose it is, and its readings of the clock. */
  datatype Arrival = Arrival(subject: string, request: WC.Request, resets: seq<int>, headerNow: int, retryNow: int)

  predicate WellTimed(arrivals: seq<Arrival>) {
    forall a :: a in arrivals ==> |a.request.calls| == |a.resets| == 3
  }

  /** The requests of one client. */
  function OfClient(arrivals: seq<Arrival>, subject: string): (reqs: seq<WC.Request>)
    requires WellTimed(arrivals)
    ensures forall q :: q in reqs ==> |q.calls| == 3
  {
    if arrivals == [] then []
    else
      assert arrivals[0] in arrivals && forall a :: a in arrivals[1..] ==> a in arrivals;
      if arrivals[0].subject == subject then [arrivals[0].request] + OfClient(arrivals[1..], subject)
      else OfClient(arrivals[1..], subject)
  }

  /** What came of them, of all that came of the arrivals. */
  function For<T>(arrivals: seq<Arrival>, outs: seq<T>, subject: string): seq<T>
    requires |outs| == |arrivals|
  {
    if arrivals == [] then []
    else (if arrivals[0].subject == subject then [outs[0]] else []) + For(arrivals[1..], outs[1..], subject)
  }

  lemma {:induction false} ForSnoc<T>(arrivals: seq<Arrival>, outs: seq<T>, a: Arrival, out: T, subject: string)
    requires |outs| == |arrivals|
    ensures For(arrivals + [a], outs + [out], subject) ==
              if a.subject == subject then For(arrivals, outs, subject) + [out] else For(arrivals, outs, subject)
  {
    if arrivals == [] {
      assert arrivals + [a] == [a] && outs + [out] == [out];
      assert For([a][1..], [out][1..], subject) == [];
    } else {
      ForSnoc(arrivals[1..], outs[1..], a, out, subject);
      assert (arrivals + [a])[1..] == arrivals[1..] + [a] && (outs + [out])[1..] == outs[1..] + [out];
      var first := if arrivals[0].subject == subject then [outs[0]] else [];
      assert For(arrivals, outs, subject) == first + For(arrivals[1..], outs[1..], subject);
      assert For(arrivals + [a], outs + [out], subject) == first + For(arrivals[1..] + [a], outs[1..] + [out], subject);
      hide For;
    }
  }

  // ---- Windows -------------------------------------------------------------

  predicate IsFixed(strategy: Strategy) {
    strategy == FixedStrategy
  }

  /** The plugin called once for every request: for each client the windows, and what came
      of its requests, are those of serving these one after another. */
  method ServeAll(redis: Redis, strategy: Strategy, limits: seq<int>, arrivals: seq<Arrival>) returns (outs: seq<nat>)
    requires |limits| == 3 && AnyLimit(limits) && strategy != TokenStrategy && WellTimed(arrivals)
    modifies redis
    ensures |outs| == |arrivals|
    ensures forall subject ::
              var (keys, ats) := WC.Serve(old(redis.Keys(IsFixed(strategy), subject)), Windows(limits),
                                          OfClient(arrivals, subject));
              redis.Keys(IsFixed(strategy), subject) == keys && For(arrivals, outs, subject) == ats
    ensures forall subject, ids, start ::
              Begins(old(redis.Keys(IsFixed(strategy), subject)), limits, ids, start, OfClient(arrivals, subject)) ==>
              KeepsLimits(OfClient(arrivals, subject), For(arrivals, outs, subject), limits, IsFixed(strategy))
  {
    hide WC.Serve, WC.Cascade, Windows, OfClient, For, Ahead, Infos, InfoOf, ToldOf, DeniedAt, ReportsWindow,
      Summarizes, Tightest, Written, SameAt, TB.Step;
    ghost var fixed := IsFixed(strategy);
    var n := 0;
    outs := [];
    forall subject
      ensures Ahead(redis.Keys(fixed, subject), [], limits, arrivals, 0, subject) ==
              WC.Serve(redis.Keys(fixed, subject), Windows(limits), OfClient(arrivals, subject))
    {
      AheadAll(redis.Keys(fixed, subject), limits, arrivals, subject);
    }
    assert forall subject :: For(arrivals[..0], outs, subject) == [] by {
      NobodyYet(arrivals, outs);
    }
    while n < |arrivals|
      invariant 0 <= n <= |arrivals| && |outs| == n
      invariant forall subject ::
                  Ahead(redis.Keys(fixed, subject), For(arrivals[..n], outs, subject), limits, arrivals, n, subject) ==
                  WC.Serve(old(redis.Keys(fixed, subject)), Windows(limits), OfClient(arrivals, subject))
    {
      var a := arrivals[n];
      ThreeCalls(arrivals, n);
      var headers := new Headers();
      label before:
      ghost var outs0 := outs;
      var denied, _ := redis.RateLimit(strategy, a.subject, limits, 1, 1.0, a.request.calls, a.resets, headers,
                                       a.headerNow, a.retryNow);
      outs := outs + [DeniedAt(denied)];
      forall subject
        ensures Ahead(redis.Keys(fixed, subject), For(arrivals[..n + 1], outs, subject), limits, arrivals, n + 1,
                      subject) ==
                Ahead(old@before(redis.Keys(fixed, subject)), For(arrivals[..n], outs0, subject), limits, arrivals, n,
                      subject)
      {
        assert arrivals[..n + 1] == arrivals[..n] + [a];
        ForSnoc(arrivals[..n], outs0, a, DeniedAt(denied), subject);
        AheadNext(old@before(redis.Keys(fixed, subject)), For(arrivals[..n], outs0, subject), limits, arrivals, n,
                  subject);
      }
      n := n + 1;
    }
    assert arrivals[..n] == arrivals;
    forall subject
      ensures Ahead(redis.Keys(fixed, subject), For(arrivals, outs, subject), limits, arrivals, n, subject) ==
              (redis.Keys(fixed, subject), For(arrivals, outs, subject))
    {
      AheadNone(redis.Keys(fixed, subject), For(arrivals, outs, subject), limits, arrivals, subject);
    }
    forall subject, ids, start |
      Begins(old(redis.Keys(fixed, subject)), limits, ids, start, OfClient(arrivals, subject))
      ensures KeepsLimits(OfClient(arrivals, subject), For(arrivals, outs, subject), limits, fixed)
    {
      LimitsInNumbers(old(redis.Keys(fixed, subject)), limits, ids, start, OfClient(arrivals, subject), fixed);
    }
  }

  /** A client without any windows yet makes requests that draw different ids. */
  ghost predicate Begins(keys: seq<WC.Key>, limits: seq<int>, ids: WC.Draws, start: int, reqs: seq<WC.Request>)
    requires |keys| == |limits| == 3
  {
    && (forall i :: 0 <= i < 3 ==> WC.EmptyKey(keys[i]))
    && WC.NoneTwice(ids) && WC.Timed(start, WC.EventsOfAll(reqs)) && WC.Newcomers(WC.Fresh(keys, start), ids, reqs)
  }

  /** What a limit lets through in a time as long as its window. */
  function Most(limit: nat, fixed: bool): nat {
    if fixed then 2 * limit else limit
  }

  /** The requests that got past the minute's limit, in any minute; past the hour's, in any
      hour; past the day's, in any day. */
  ghost predicate KeepsLimits(reqs: seq<WC.Request>, ats: seq<nat>, limits: seq<int>, fixed: bool) {
    && |ats| == |reqs| && |limits| == 3 && (forall q :: q in reqs ==> |q.calls| == 3)
    && (limits[0] > 0 ==> WithinLimit(WC.Entered(map[], reqs, ats, 0), 60000, Most(limits[0], fixed)))
    && (limits[1] > 0 ==> WithinLimit(WC.Entered(map[], reqs, ats, 1), 3600000, Most(limits[1], fixed)))
    && (limits[2] > 0 ==> WithinLimit(WC.Entered(map[], reqs, ats, 2), 86400000, Most(limits[2], fixed)))
  }

  lemma LimitsInNumbers(keys: seq<WC.Key>, limits: seq<int>, ids: WC.Draws, start: int, reqs: seq<WC.Request>,
                        fixed: bool)
    requires |keys| == |limits| == 3 && (forall i :: 0 <= i < 3 ==> keys[i].Fixed? == fixed)
    requires WC.CallsFor(reqs, Windows(limits)) && Begins(keys, limits, ids, start, reqs)
    ensures KeepsLimits(reqs, WC.Serve(keys, Windows(limits), reqs).1, limits, fixed)
  {
    var ws := Windows(limits);
    WindowsSpec(limits);
    WC.ServeKinds(keys, ws, reqs);
    hide Windows, WC.Serve, WC.Entered, WC.NoneTwice, WC.Timed, WC.Newcomers, Count;
    ServeOutcomes(keys, limits, ids, start, reqs);
    forall i | 0 <= i < 3 && limits[i] > 0
      ensures WithinLimit(WC.Entered(map[], reqs, WC.Serve(keys, ws, reqs).1, i), ws[i].sec * 1000,
                          Most(limits[i], fixed))
    {
      WC.ServedWithinBound(keys, ws, ids, start, reqs, i);
    }
  }

  lemma ServeOutcomes(keys: seq<WC.Key>, limits: seq<int>, ids: WC.Draws, start: int, reqs: seq<WC.Request>)
    requires |keys| == |limits| == 3 && WC.CallsFor(reqs, Windows(limits)) && Begins(keys, limits, ids, start, reqs)
    ensures |WC.Serve(keys, Windows(limits), reqs).1| == |reqs|
  {
    WC.ServeIsARun(WC.Fresh(keys, start), Windows(limits), ids, reqs);
  }

  lemma ThreeCalls(arrivals: seq<Arrival>, n: nat)
    requires WellTimed(arrivals) && n < |arrivals|
    ensures |arrivals[n].request.calls| == |arrivals[n].resets| == 3
  {}

  lemma NobodyYet(arrivals: seq<Arrival>, outs: seq<nat>)
    requires outs == []
    ensures forall subject :: For(arrivals[..0], outs, subject) == []
  {}

  /** A client's windows at the end, and what came of all its requests, seen from the n-th
      arrival on. */
  ghost function Ahead(keys: seq<WC.Key>, ats: seq<nat>, limits: seq<int>, arrivals: seq<Arrival>, n: nat,
                       subject: string): (seq<WC.Key>, seq<nat>)
    requires |keys| == |limits| == 3 && n <= |arrivals| && WellTimed(arrivals)
  {
    assert forall a :: a in arrivals[n..] ==> a in arrivals;
    var (keys', ats') := WC.Serve(keys, Windows(limits), OfClient(arrivals[n..], subject));
    (keys', ats + ats')
  }

  lemma AheadAll(keys: seq<WC.Key>, limits: seq<int>, arrivals: seq<Arrival>, subject: string)
    requires |keys| == |limits| == 3 && WellTimed(arrivals)
    ensures Ahead(keys, [], limits, arrivals, 0, subject) ==
            WC.Serve(keys, Windows(limits), OfClient(arrivals, subject))
  {
    hide WC.Serve;
    assert arrivals[0..] == arrivals;
    var ats := WC.Serve(keys, Windows(limits), OfClient(arrivals, subject)).1;
    assert [] + ats == ats;
  }

  lemma AheadNone(keys: seq<WC.Key>, ats: seq<nat>, limits: seq<int>, arrivals: seq<Arrival>, subject: string)
    requires |keys| == |limits| == 3 && WellTimed(arrivals)
    ensures Ahead(keys, ats, limits, arrivals, |arrivals|, subject) == (keys, ats)
  {
    assert arrivals[|arrivals|..] == [];
    assert ats + [] == ats;
  }

  lemma AheadNext(keys: seq<WC.Key>, ats: seq<nat>, limits: seq<int>, arrivals: seq<Arrival>, n: nat, subject: string)
    requires |keys| == |limits| == 3 && WellTimed(arrivals) && n < |arrivals|
    ensures |arrivals[n].request.calls| == 3
    ensures var ws, a := Windows(limits), arrivals[n];
            var (keys', at) := WC.Cascade(keys, ws, a.request.calls, 0);
            && |keys'| == 3
            && Ahead(keys, ats, limits, arrivals, n, subject) ==
                 if a.subject == subject then Ahead(keys', ats + [at], limits, arrivals, n + 1, subject)
                 else Ahead(keys, ats, limits, arrivals, n + 1, subject)
  {
    var ws, a := Windows(limits), arrivals[n];
    assert a in arrivals && arrivals[n..][1..] == arrivals[n + 1..];
    WC.CascadeLength(keys, ws, a.request.calls, 0);
    if a.subject == subject {
      var rest := OfClient(arrivals[n + 1..], subject);
      assert OfClient(arrivals[n..], subject) == [a.request] + rest;
      assert ([a.request] + rest)[1..] == rest;
      hide WC.Cascade, Windows, OfClient;
      WC.ServeFirst(keys, ws, [a.request] + rest);
      var (keys', at) := WC.Cascade(keys, ws, a.request.calls, 0);
      var ats' := WC.Serve(keys', ws, rest).1;
      assert ats + ([at] + ats') == ats + [at] + ats';
    }
  }

  // ---- Tokens --------------------------------------------------------------

  /** The first call of each request: the bucket is asked once. */
  function Firsts(reqs: seq<WC.Request>): seq<Call>
    requires forall q :: q in reqs ==> |q.calls| == 3
  {
    if reqs == [] then []
    else
      assert reqs[0] in reqs && forall q :: q in reqs[1..] ==> q in reqs;
      [reqs[0].calls[0]] + Firsts(reqs[1..])
  }

  /** The requests admitted from a full bucket, as a log: no more of them from `s` to `t`
      than the capacity and what was refilled. */
  ghost predicate KeepsRate(calls: seq<Call>, oks: seq<bool>, capacity: nat, rate: real) {
    |oks| == |calls| && forall s, u :: s <= u ==> WithinAt(TB.AdmittedLog(map[], calls, oks), capacity, rate, s, u)
  }

  predicate WithinAt(log: Log, capacity: nat, rate: real, s: int, t: int) {
    Count(log, s - 1, t) as real <= capacity as real + rate * ((t - s) as real / 1000.0)
  }

  /** The plugin with buckets, called once for every request: what came of a client's
      requests is what its bucket decided, and they keep to its rate, one token each. */
  method ServeTokens(redis: Redis, capacity: nat, rate: real, limits: seq<int>, arrivals: seq<Arrival>)
    returns (oks: seq<bool>)
    requires |limits| == 3 && AnyLimit(limits) && capacity > 0 && rate > 0.0 && WellTimed(arrivals)
    modifies redis
    ensures |oks| == |arrivals|
    ensures forall subject ::
              For(arrivals, oks, subject) ==
              TB.Run(old(redis.BucketAt(BucketKey(subject))), OneToken(capacity, rate),
                     Firsts(OfClient(arrivals, subject)))
    ensures forall subject, start ::
              old(redis.BucketAt(BucketKey(subject))).Absent?
              && Continues({}, start, Firsts(OfClient(arrivals, subject))) ==>
              KeepsRate(Firsts(OfClient(arrivals, subject)), For(arrivals, oks, subject), capacity, rate)
  {
    hide TB.Run, TB.Step, OfClient, For, Firsts, Rest, WC.Cascade, Windows, Infos, InfoOf, ToldOf, ReportsWindow,
      Summarizes, Tightest, Written, SameAt, KeepsRate, BucketKey;
    ghost var cfg := OneToken(capacity, rate);
    var n := 0;
    oks := [];
    forall subject
      ensures Rest(redis.BucketAt(BucketKey(subject)), cfg, For(arrivals[..0], oks, subject), arrivals, 0, subject) ==
              TB.Run(redis.BucketAt(BucketKey(subject)), cfg, Firsts(OfClient(arrivals, subject)))
    {
      RestAll(redis.BucketAt(BucketKey(subject)), cfg, oks, arrivals, subject);
    }
    while n < |arrivals|
      invariant 0 <= n <= |arrivals| && |oks| == n
      invariant forall subject ::
                  Rest(redis.BucketAt(BucketKey(subject)), cfg, For(arrivals[..n], oks, subject), arrivals, n,
                       subject) ==
                  TB.Run(old(redis.BucketAt(BucketKey(subject))), cfg, Firsts(OfClient(arrivals, subject)))
    {
      var a := arrivals[n];
      ThreeCalls(arrivals, n);
      var headers := new Headers();
      label before:
      ghost var oks0 := oks;
      var denied, _ := redis.RateLimit(TokenStrategy, a.subject, limits, capacity, rate, a.request.calls, a.resets,
                                       headers, a.headerNow, a.retryNow);
      oks := oks + [denied == None];
      forall subject
        ensures Rest(redis.BucketAt(BucketKey(subject)), cfg, For(arrivals[..n + 1], oks, subject), arrivals, n + 1,
                     subject) ==
                Rest(old@before(redis.BucketAt(BucketKey(subject))), cfg, For(arrivals[..n], oks0, subject), arrivals,
                     n, subject)
      {
        assert arrivals[..n + 1] == arrivals[..n] + [a];
        ForSnoc(arrivals[..n], oks0, a, denied == None, subject);
        RestNext(old@before(redis.BucketAt(BucketKey(subject))), cfg, For(arrivals[..n], oks0, subject), arrivals, n,
                 subject);
      }
      n := n + 1;
    }
    assert arrivals[..n] == arrivals;
    forall subject
      ensures Rest(redis.BucketAt(BucketKey(subject)), cfg, For(arrivals, oks, subject), arrivals, n, subject) ==
              For(arrivals, oks, subject)
    {
      RestNone(redis.BucketAt(BucketKey(subject)), cfg, For(arrivals, oks, subject), arrivals, subject);
    }
    forall subject, start |
      old(redis.BucketAt(BucketKey(subject))).Absent? && Continues({}, start, Firsts(OfClient(arrivals, subject)))
      ensures KeepsRate(Firsts(OfClient(arrivals, subject)), For(arrivals, oks, subject), capacity, rate)
    {
      RateInNumbers(capacity, rate, start, Firsts(OfClient(arrivals, subject)));
    }
  }

  lemma RateInNumbers(capacity: nat, rate: real, start: int, calls: seq<Call>)
    requires capacity > 0 && rate > 0.0 && Continues({}, start, calls)
    ensures KeepsRate(calls, TB.Run(TB.Absent, OneToken(capacity, rate), calls), capacity, rate)
  {
    var cfg := OneToken(capacity, rate);
    TB.RunLength(TB.Absent, cfg, calls);
    var log := TB.AdmittedLog(map[], calls, TB.Run(TB.Absent, cfg, calls));
    hide TB.Run, TB.AdmittedLog, Continues, Count;
    forall s, u | s <= u ensures WithinAt(log, capacity, rate, s, u) {
      TB.EveryRunWithinRate(cfg, start, calls, s, u);
      assert Count(log, s - 1, u) as real * 1.0 == Count(log, s - 1, u) as real;
    }
  }

  /** What came of all of a client's requests, seen from the n-th arrival on. */
  function Rest(b: TB.Bucket, cfg: TB.Config, oks: seq<bool>, arrivals: seq<Arrival>, n: nat, subject: string)
    : seq<bool>
    requires cfg.Valid() && n <= |arrivals| && WellTimed(arrivals)
  {
    assert forall a :: a in arrivals[n..] ==> a in arrivals;
    oks + TB.Run(b, cfg, Firsts(OfClient(arrivals[n..], subject)))
  }

  lemma RestAll(b: TB.Bucket, cfg: TB.Config, oks: seq<bool>, arrivals: seq<Arrival>, subject: string)
    requires cfg.Valid() && WellTimed(arrivals) && oks == []
    ensures Rest(b, cfg, For(arrivals[..0], oks, subject), arrivals, 0, subject) ==
            TB.Run(b, cfg, Firsts(OfClient(arrivals, subject)))
  {
    assert arrivals[0..] == arrivals;
    var all := TB.Run(b, cfg, Firsts(OfClient(arrivals, subject)));
    assert [] + all == all;
  }

  lemma RestNone(b: TB.Bucket, cfg: TB.Config, oks: seq<bool>, arrivals: seq<Arrival>, subject: string)
    requires cfg.Valid() && WellTimed(arrivals)
    ensures Rest(b, cfg, oks, arrivals, |arrivals|, subject) == oks
  {
    assert arrivals[|arrivals|..] == [];
    assert oks + [] == oks;
  }

  lemma RestNext(b: TB.Bucket, cfg: TB.Config, oks: seq<bool>, arrivals: seq<Arrival>, n: nat, subject: string)
    requires cfg.Valid() && WellTimed(arrivals) && n < |arrivals|
    ensures |arrivals[n].request.calls| == 3
    ensures var (b', r) := TB.Step(b, cfg, arrivals[n].request.calls[0].now);
            Rest(b, cfg, oks, arrivals, n, subject) ==
              if arrivals[n].subject == subject then Rest(b', cfg, oks + [r.allowed], arrivals, n + 1, subject)
              else Rest(b, cfg, oks, arrivals, n + 1, subject)
  {
    var a := arrivals[n];
    assert a in arrivals && arrivals[n..][1..] == arrivals[n + 1..];
    if a.subject == subject {
      var rest := OfClient(arrivals[n + 1..], subject);
      assert OfClient(arrivals[n..], subject) == [a.request] + rest;
      assert ([a.request] + rest)[1..] == rest;
      var (b', r) := TB.Step(b, cfg, a.request.calls[0].now);
      var calls := Firsts(rest);
      assert Firsts([a.request] + rest) == [a.request.calls[0]] + calls;
      assert ([a.request.calls[0]] + calls)[1..] == calls;
      hide TB.Step, OfClient, Firsts;
      assert oks + ([r.allowed] + TB.Run(b', cfg, calls)) == oks + [r.allowed] + TB.Run(b', cfg, calls);
    }
  }
}
