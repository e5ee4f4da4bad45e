/** The token-bucket script: a hash holding a token balance and its refill time. */
module TokenBucket {
  import opened RequestLog

  /** `rate` tokens per second, never more than `capacity` at once; every call asks for
      `requested` of them. */
  datatype Config = Config(capacity: real, rate: real, requested: real) {
    predicate Valid() { capacity > 0.0 && rate > 0.0 && requested > 0.0 }
  }

  /** The hash under one key; `deadline` is the millisecond at which it expires. */
  datatype Bucket = Absent | Bucket(tokens: real, last: int, deadline: int)

  datatype Reply = Reply(remaining: int, allowed: bool, waitMs: int)

  /** math.ceil */
  function Ceil(x: real): int {
    -((-x).Floor)
  }

  function Min(a: real, b: real): real {
    if a <= b then a else b
  }

  /** The tokens that `ms` milliseconds bring in. */
  function Accrued(cfg: Config, ms: int): real {
    ms as real / 1000.0 * cfg.rate
  }

  /** The balance after refilling the stored one, whether or not the key has expired. */
  function Refilled(b: Bucket, cfg: Config, now: int): real
    requires b.Bucket?
  {
    Min(cfg.capacity, b.tokens + Accrued(cfg, now - b.last))
  }

  /** What the script finds at `now`: a full bucket when there is no key. */
  function Available(b: Bucket, cfg: Config, now: int): real {
    if b.Absent? || b.deadline <= now then cfg.capacity else Refilled(b, cfg, now)
  }

  function Lifetime(cfg: Config): int
    requires cfg.Valid()
  {
    Ceil(cfg.capacity / cfg.rate) * 2000
  }

  /** One call. */
  function Step(b: Bucket, cfg: Config, now: int): (Bucket, Reply)
    requires cfg.Valid()
  {
    var tokens := Available(b, cfg, now);
    if tokens >= cfg.requested then
      (Bucket(tokens - cfg.requested, now, now + Lifetime(cfg)), Reply((tokens - cfg.requested).Floor, true, 0))
    else
      (Bucket(tokens, now, now + Lifetime(cfg)),
       Reply(tokens.Floor, false, Ceil((cfg.requested - tokens) / cfg.rate * 1000.0)))
  }

  /** A call at `now` is denied. */
  predicate Denies(b: Bucket, cfg: Config, now: int) {
    Available(b, cfg, now) < cfg.requested
  }

  // ---- Arithmetic of refilling ---------------------------------------------

  lemma AccruedAdds(cfg: Config, a: int, b: int)
    ensures Accrued(cfg, a + b) == Accrued(cfg, a) + Accrued(cfg, b)
  {
    assert (a + b) as real / 1000.0 == a as real / 1000.0 + b as real / 1000.0;
  }

  lemma AccruedGrows(cfg: Config, a: int, b: int)
    requires cfg.Valid() && a <= b
    ensures Accrued(cfg, a) <= Accrued(cfg, b)
  {
    AccruedAdds(cfg, a, b - a);
    assert (b - a) as real / 1000.0 * cfg.rate >= 0.0;
  }

  /** ms milliseconds bring in `need` tokens exactly from ceil(need / rate * 1000) on. */
  lemma AccruedReaches(cfg: Config, need: real, ms: int)
    requires cfg.Valid()
    ensures need <= Accrued(cfg, ms) <==> Ceil(need / cfg.rate * 1000.0) <= ms
  {
    var x := need / cfg.rate;
    assert x * cfg.rate == need;
    var y := ms as real / 1000.0;
    assert x <= y <==> x * cfg.rate <= y * cfg.rate by {
      if x <= y {
        assert (y - x) * cfg.rate >= 0.0;
      } else {
        assert (x - y) * cfg.rate > 0.0;
      }
    }
    assert Ceil(x * 1000.0) <= ms <==> x * 1000.0 <= ms as real;
  }

  /** A bucket left alone for its lifetime has refilled completely. */
  lemma LifetimeFills(cfg: Config, ms: int)
    requires cfg.Valid() && Lifetime(cfg) <= ms
    ensures cfg.capacity <= Accrued(cfg, ms)
  {
    var q := cfg.capacity / cfg.rate;
    assert q > 0.0 by {
      assert q * cfg.rate == cfg.capacity;
    }
    assert Ceil(q * 1000.0) <= Ceil(q) * 2000;
    AccruedReaches(cfg, cfg.capacity, ms);
  }

  // ---- The stored balance --------------------------------------------------

  ghost predicate Inv(b: Bucket, cfg: Config, last: int)
    requires cfg.Valid()
  {
    b.Bucket? ==> 0.0 <= b.tokens <= cfg.capacity && b.last <= last && b.deadline == b.last + Lifetime(cfg)
  }

  lemma StepKeepsInv(b: Bucket, cfg: Config, last: int, now: int)
    requires cfg.Valid() && Inv(b, cfg, last) && last <= now
    ensures Inv(Step(b, cfg, now).0, cfg, now)
    ensures 0.0 <= Available(b, cfg, now) <= cfg.capacity
    ensures Step(b, cfg, now).1.allowed ==> Step(b, cfg, now).1.waitMs == 0
  {
    if b.Bucket? {
      AccruedGrows(cfg, 0, now - b.last);
      assert Accrued(cfg, 0) == 0.0;
    }
  }

  /** Losing the key to its expiry is indistinguishable from keeping it. */
  lemma ExpiryUnobservable(b: Bucket, cfg: Config, last: int, now: int)
    requires cfg.Valid() && Inv(b, cfg, last) && last <= now && b.Bucket? && b.deadline <= now
    ensures Refilled(b, cfg, now) == Available(Absent, cfg, now)
  {
    LifetimeFills(cfg, now - b.last);
  }

  /** Refilling twice is refilling once. */
  lemma SplitRefill(b: Bucket, cfg: Config, last: int, mid: int, now: int)
    requires cfg.Valid() && Inv(b, cfg, last) && last <= mid <= now
    ensures Available(b, cfg, now) == Min(cfg.capacity, Available(b, cfg, mid) + Accrued(cfg, now - mid))
  {
    AccruedGrows(cfg, 0, now - mid);
    if b.Bucket? {
      AccruedAdds(cfg, mid - b.last, now - mid);
      if b.deadline <= mid {
        ExpiryUnobservable(b, cfg, last, mid);
      }
      if b.deadline <= now {
        ExpiryUnobservable(b, cfg, last, now);
      }
    }
  }

  // ---- Denied calls leave no trace -----------------------------------------

  /** From `from` on the two buckets look alike. */
  ghost predicate SameFrom(a: Bucket, b: Bucket, cfg: Config, from: int) {
    forall now :: from <= now ==> Available(a, cfg, now) == Available(b, cfg, now)
  }

  lemma DenialLeavesNoTrace(b: Bucket, cfg: Config, last: int, now: int)
    requires cfg.Valid() && Inv(b, cfg, last) && last <= now
    requires Denies(b, cfg, now)
    ensures !Step(b, cfg, now).1.allowed
    ensures SameFrom(Step(b, cfg, now).0, b, cfg, now)
  {
    var b' := Step(b, cfg, now).0;
    StepKeepsInv(b, cfg, last, now);
    forall later | now <= later ensures Available(b', cfg, later) == Available(b, cfg, later) {
      SplitRefill(b, cfg, last, now, later);
      SplitRefill(b', cfg, now, now, later);
      assert Accrued(cfg, 0) == 0.0;
    }
  }

  function Run(b: Bucket, cfg: Config, calls: seq<Call>): seq<bool>
    requires cfg.Valid()
    decreases |calls|
  {
    if calls == [] then []
    else
      var (b', r) := Step(b, cfg, calls[0].now);
      [r.allowed] + Run(b', cfg, calls[1..])
  }

  lemma {:induction false} RunLength(b: Bucket, cfg: Config, calls: seq<Call>)
    requires cfg.Valid()
    ensures |Run(b, cfg, calls)| == |calls|
    decreases |calls|
  {
    if calls != [] {
      RunLength(Step(b, cfg, calls[0].now).0, cfg, calls[1..]);
    }
  }

  lemma {:induction false} SameRun(a: Bucket, b: Bucket, cfg: Config, used: set<string>, last: int, calls: seq<Call>)
    requires cfg.Valid() && SameFrom(a, b, cfg, last) && Continues(used, last, calls)
    ensures Run(a, cfg, calls) == Run(b, cfg, calls)
    decreases |calls|
  {
    if calls != [] {
      var c := calls[0];
      var (a', _) := Step(a, cfg, c.now);
      var (b', _) := Step(b, cfg, c.now);
      assert a' == b';
      assert SameFrom(a', b', cfg, c.now);
      SameRun(a', b', cfg, used + {c.id}, c.now, calls[1..]);
    }
  }

  /** The calls that a run admits. */
  function Admitted(calls: seq<Call>, oks: seq<bool>): (r: seq<Call>)
    requires |calls| == |oks|
    ensures |r| <= |calls|
    decreases |calls|
  {
    if calls == [] then []
    else (if oks[0] then [calls[0]] else []) + Admitted(calls[1..], oks[1..])
  }

  /** Leaving every denied call out of a run changes nothing for the others: all of
      them are still admitted. */
  lemma {:induction false} DeniedCallsDoNotMatter(b: Bucket, cfg: Config, used: set<string>, last: int,
                                                  calls: seq<Call>)
    requires cfg.Valid() && Inv(b, cfg, last) && Continues(used, last, calls)
    ensures |Run(b, cfg, calls)| == |calls|
    ensures var kept := Admitted(calls, Run(b, cfg, calls));
            && Continues(used, last, kept)
            && Run(b, cfg, kept) == seq(|kept|, _ => true)
    decreases |calls|
  {
    RunLength(b, cfg, calls);
    if calls != [] {
      var c, rest := calls[0], calls[1..];
      var (b', r) := Step(b, cfg, c.now);
      StepKeepsInv(b, cfg, last, c.now);
      DeniedCallsDoNotMatter(b', cfg, used + {c.id}, c.now, rest);
      var keptRest := Admitted(rest, Run(b', cfg, rest));
      assert Run(b, cfg, calls)[1..] == Run(b', cfg, rest);
      if r.allowed {
        assert ([c] + keptRest)[1..] == keptRest;
      } else {
        DenialLeavesNoTrace(b, cfg, last, c.now);
        SameRun(b', b, cfg, used + {c.id}, c.now, keptRest);
        Relax(used, used + {c.id}, last, c.now, keptRest);
        assert [] + keptRest == keptRest;
      }
    }
  }

  lemma {:induction false} Relax(used: set<string>, used': set<string>, last: int, last': int, calls: seq<Call>)
    requires used <= used' && last <= last' && Continues(used', last', calls)
    ensures Continues(used, last, calls)
    decreases |calls|
  {
    if calls != [] {
      var c := calls[0];
      Relax(used + {c.id}, used' + {c.id}, c.now, c.now, calls[1..]);
    }
  }

  // ---- The remaining tokens ------------------------------------------------

  /** The tokens that `n` calls take. */
  function Taken(cfg: Config, n: int): real {
    n as real * cfg.requested
  }

  lemma TakenOneMore(cfg: Config, n: int)
    ensures Taken(cfg, n + 1) == Taken(cfg, n) + cfg.requested
  {
    assert (n + 1) as real == n as real + 1.0;
  }

  /** Of the calls of one moment the first ones are admitted, as many as the bucket has
      tokens for. */
  lemma {:induction false} Burst(b: Bucket, cfg: Config, last: int, now: int, calls: seq<Call>)
    requires cfg.Valid() && Inv(b, cfg, last) && last <= now && AllAt(calls, now)
    ensures Run(b, cfg, calls) == seq(|calls|, i => Fits(cfg, i, Available(b, cfg, now)))
    decreases |calls|
  {
    if calls != [] {
      var b' := Step(b, cfg, now).0;
      StepKeepsInv(b, cfg, last, now);
      StoredNow(b, cfg, last, now);
      Burst(b', cfg, now, now, calls[1..]);
      var tokens := Available(b, cfg, now);
      var left := tokens - cfg.requested;
      assert Fits(cfg, 0, tokens) <==> cfg.requested <= tokens;
      forall i | i >= 0 ensures Fits(cfg, i, left) <==> Fits(cfg, i + 1, tokens) {
        TakenOneMore(cfg, i + 1);
      }
      forall i | i >= 0 ensures tokens < cfg.requested ==> !Fits(cfg, i, tokens) {
        TakenGrows(cfg, 1, i + 1);
      }
      hide Fits, Available;
    }
  }

  /** `tokens` are enough for `i` calls and one more. */
  predicate Fits(cfg: Config, i: int, tokens: real) {
    Taken(cfg, i + 1) <= tokens
  }

  lemma TakenGrows(cfg: Config, m: int, n: int)
    requires cfg.Valid() && m <= n
    ensures Taken(cfg, m) <= Taken(cfg, n)
  {
    assert (n - m) as real * cfg.requested >= 0.0;
  }

  /** What a call stores is what the next one at the same moment finds. */
  lemma StoredNow(b: Bucket, cfg: Config, last: int, now: int)
    requires cfg.Valid() && Inv(b, cfg, last) && last <= now
    ensures var b' := Step(b, cfg, now).0;
            Available(b', cfg, now) == b'.tokens
  {
    StepKeepsInv(b, cfg, last, now);
    LifetimePositive(cfg);
    assert Accrued(cfg, 0) == 0.0;
  }

  /** The remaining tokens of a reply are exact: of the requests for a single token that
      follow at the same moment, the first `remaining` are admitted and no others. */
  lemma RemainingIsExact(b: Bucket, cfg: Config, last: int, now: int, calls: seq<Call>)
    requires cfg.Valid() && cfg.requested == 1.0 && Inv(b, cfg, last) && last <= now && AllAt(calls, now)
    ensures var (b', r) := Step(b, cfg, now);
            Run(b', cfg, calls) == seq(|calls|, i => i < r.remaining)
  {
    var (b', r) := Step(b, cfg, now);
    StepKeepsInv(b, cfg, last, now);
    StoredNow(b, cfg, last, now);
    Burst(b', cfg, now, now, calls);
    var tokens := b'.tokens;
    assert r.remaining == tokens.Floor;
    hide Run, Step, Available, Inv;
    forall i: int ensures Fits(cfg, i, tokens) <==> i < tokens.Floor {
      WholeTokens(cfg, i, tokens);
    }
    hide Fits;
  }

  lemma WholeTokens(cfg: Config, i: int, tokens: real)
    requires cfg.requested == 1.0
    ensures Fits(cfg, i, tokens) <==> i < tokens.Floor
  {
    assert Taken(cfg, i + 1) == (i + 1) as real;
  }

  // ---- The rate bound ------------------------------------------------------

  /** Between any two times, s and t included, the admitted requests took no more
      tokens than the bucket holds plus what it refilled in between. */
  ghost predicate WithinRate(log: Log, cfg: Config) {
    forall lo, t :: lo < t ==> Taken(cfg, Count(log, lo, t)) <= cfg.capacity + Accrued(cfg, t - (lo + 1))
  }

  /** Every admission since `s` was paid for, and so is the present balance. */
  ghost predicate Paid(b: Bucket, log: Log, cfg: Config, last: int) {
    && (forall id :: id in log ==> log[id] <= last)
    && forall lo :: lo < last ==>
         Taken(cfg, Count(log, lo, last)) + Available(b, cfg, last) <= cfg.capacity + Accrued(cfg, last - (lo + 1))
  }

  lemma CountFrom(log: Log, lo: int, t: int, t': int)
    requires forall id :: id in log ==> log[id] <= t && log[id] <= t'
    ensures Count(log, lo, t) == Count(log, lo, t')
  {
    assert Within(log, lo, t) == Within(log, lo, t');
  }

  /** Time passing keeps every admission paid for. */
  lemma PaidLater(b: Bucket, log: Log, cfg: Config, last: int, now: int)
    requires cfg.Valid() && Inv(b, cfg, last) && last <= now && Paid(b, log, cfg, last)
    ensures Paid(b, log, cfg, now)
  {
    StepKeepsInv(b, cfg, last, now);
    SplitRefill(b, cfg, last, last, now);
    forall lo | lo < now
      ensures Taken(cfg, Count(log, lo, now)) + Available(b, cfg, now) <= cfg.capacity + Accrued(cfg, now - (lo + 1))
    {
      if lo < last {
        CountFrom(log, lo, last, now);
        AccruedAdds(cfg, last - (lo + 1), now - last);
      } else {
        assert Within(log, lo, now) == {};
        AccruedGrows(cfg, 0, now - (lo + 1));
      }
    }
  }

  lemma StepKeepsRate(b: Bucket, log: Log, cfg: Config, last: int, c: Call)
    requires cfg.Valid() && Inv(b, cfg, last) && last <= c.now && c.id !in log
    requires Paid(b, log, cfg, last) && WithinRate(log, cfg)
    ensures var (b', r) := Step(b, cfg, c.now);
            Paid(b', Admit(log, c, r.allowed), cfg, c.now) && WithinRate(Admit(log, c, r.allowed), cfg)
  {
    var (b', r) := Step(b, cfg, c.now);
    PaidLater(b, log, cfg, last, c.now);
    StepKeepsInv(b, cfg, last, c.now);
    StoredNow(b, cfg, last, c.now);
    if r.allowed {
      var log' := log[c.id := c.now];
      forall lo | lo < c.now
        ensures Taken(cfg, Count(log', lo, c.now)) + b'.tokens <= cfg.capacity + Accrued(cfg, c.now - (lo + 1))
      {
        CountAdmit(log, c, lo, c.now);
        TakenOneMore(cfg, Count(log, lo, c.now));
      }
      forall lo, t | lo < t ensures Taken(cfg, Count(log', lo, t)) <= cfg.capacity + Accrued(cfg, t - (lo + 1)) {
        CountAdmit(log, c, lo, t);
        if lo < c.now <= t {
          CountFrom(log', lo, c.now, t);
          AccruedGrows(cfg, c.now - (lo + 1), t - (lo + 1));
        }
      }
    }
  }

  lemma LifetimePositive(cfg: Config)
    requires cfg.Valid()
    ensures Lifetime(cfg) > 0
  {
    var q := cfg.capacity / cfg.rate;
    assert q * cfg.rate == cfg.capacity;
    assert q > 0.0;
  }

  function AdmittedLog(log: Log, calls: seq<Call>, oks: seq<bool>): Log
    requires |calls| == |oks|
    decreases |calls|
  {
    if calls == [] then log else AdmittedLog(Admit(log, calls[0], oks[0]), calls[1..], oks[1..])
  }

  /** For every run: at most capacity + rate * (t - s) / 1000 tokens are taken from s to t. */
  lemma {:induction false} RunWithinRate(b: Bucket, log: Log, used: set<string>, cfg: Config, last: int,
                                         calls: seq<Call>)
    requires cfg.Valid() && Inv(b, cfg, last) && Paid(b, log, cfg, last) && WithinRate(log, cfg)
    requires log.Keys <= used && Continues(used, last, calls)
    ensures |Run(b, cfg, calls)| == |calls|
    ensures WithinRate(AdmittedLog(log, calls, Run(b, cfg, calls)), cfg)
    decreases |calls|
  {
    hide WithinRate, Paid, Inv, Step;
    RunLength(b, cfg, calls);
    if calls != [] {
      var c := calls[0];
      var (b', r) := Step(b, cfg, c.now);
      StepKeepsRate(b, log, cfg, last, c);
      StepKeepsInv(b, cfg, last, c.now);
      RunWithinRate(b', Admit(log, c, r.allowed), used + {c.id}, cfg, c.now, calls[1..]);
      assert Run(b, cfg, calls)[1..] == Run(b', cfg, calls[1..]);
    }
  }

  lemma FreshBucketPaid(cfg: Config, start: int)
    requires cfg.Valid()
    ensures Inv(Absent, cfg, start) && Paid(Absent, map[], cfg, start) && WithinRate(map[], cfg)
  {
    forall lo, t | lo < t ensures Count(map[], lo, t) == 0 && Accrued(cfg, t - (lo + 1)) >= 0.0 {
      assert Within(map[], lo, t) == {};
      AccruedGrows(cfg, 0, t - (lo + 1));
    }
  }

  /** So from an absent key every run keeps to the rate. */
  lemma EveryRunWithinRate(cfg: Config, start: int, calls: seq<Call>, s: int, t: int)
    requires cfg.Valid() && Continues({}, start, calls) && s <= t
    ensures |Run(Absent, cfg, calls)| == |calls|
    ensures var log := AdmittedLog(map[], calls, Run(Absent, cfg, calls));
            Count(log, s - 1, t) as real * cfg.requested <= cfg.capacity + cfg.rate * ((t - s) as real / 1000.0)
  {
    hide Run, AdmittedLog, Continues, Inv, Paid, Count, Accrued, Taken, WithinRate;
    FreshBucketPaid(cfg, start);
    RunWithinRate(Absent, map[], {}, cfg, start, calls);
    RateBetween(AdmittedLog(map[], calls, Run(Absent, cfg, calls)), cfg, s, t);
  }

  lemma RateBetween(log: Log, cfg: Config, s: int, t: int)
    requires WithinRate(log, cfg) && s <= t
    ensures Count(log, s - 1, t) as real * cfg.requested <= cfg.capacity + cfg.rate * ((t - s) as real / 1000.0)
  {
    hide Count;
    assert Taken(cfg, Count(log, s - 1, t)) <= cfg.capacity + Accrued(cfg, t - (s - 1 + 1));
  }

  // ---- The wait is exact ---------------------------------------------------

  /** Left alone, the bucket admits from `opening` on and not before; one that cannot hold
      the requested tokens never does. */
  ghost predicate OpensAt(b: Bucket, cfg: Config, from: int, opening: int) {
    forall now :: from <= now ==>
      (Available(b, cfg, now) >= cfg.requested <==> cfg.capacity >= cfg.requested && opening <= now)
  }

  /** A denial announces the opening, and a denied call does not move it. */
  lemma DenialOpensAt(b: Bucket, cfg: Config, last: int, now: int)
    requires cfg.Valid() && Inv(b, cfg, last) && last <= now && Denies(b, cfg, now)
    ensures var (b', r) := Step(b, cfg, now);
            !r.allowed && OpensAt(b', cfg, now, now + r.waitMs)
  {
    var (b', r) := Step(b, cfg, now);
    var tokens := Available(b, cfg, now);
    DenialLeavesNoTrace(b, cfg, last, now);
    forall later | now <= later
      ensures Available(b', cfg, later) >= cfg.requested <==> cfg.capacity >= cfg.requested && now + r.waitMs <= later
    {
      assert Available(b', cfg, later) == Available(b, cfg, later);
      SplitRefill(b, cfg, last, now, later);
      AccruedReaches(cfg, cfg.requested - tokens, later - now);
    }
  }

  /** After a denial, until somebody is admitted, every request before the opening
      is denied and the first one from then on is admitted. */
  lemma {:induction false} OpeningIsExact(b: Bucket, cfg: Config, used: set<string>, last: int, opening: int,
                                          calls: seq<Call>)
    requires cfg.Valid() && Inv(b, cfg, last) && OpensAt(b, cfg, last, opening) && Continues(used, last, calls)
    ensures OpensExactlyAt(calls, Run(b, cfg, calls), cfg.capacity >= cfg.requested, opening)
    decreases |calls|
  {
    RunLength(b, cfg, calls);
    if calls != [] {
      var c, rest := calls[0], calls[1..];
      var b' := Step(b, cfg, c.now).0;
      assert Run(b, cfg, calls)[1..] == Run(b', cfg, rest);
      if !Step(b, cfg, c.now).1.allowed {
        DenialLeavesNoTrace(b, cfg, last, c.now);
        StepKeepsInv(b, cfg, last, c.now);
        OpeningIsExact(b', cfg, used + {c.id}, c.now, opening, rest);
      }
    }
  }
}
