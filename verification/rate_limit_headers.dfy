/** The headers that tell a client about its windows and when to come back. */
module RateLimitHeaders {
  import opened Wrappers
  import opened RequestLog
  import SW = SlidingWindow
  import FW = FixedWindow
  import TB = TokenBucket

  datatype Period = Minute | Hour | Day

  datatype WindowInfo = WindowInfo(limit: int, current: int, windowMs: int, resetAtMs: int, period: Period)

  /** A header value, before it is written as text. */
  datatype Value = Num(n: int) | LimitPerWindow(limit: int, windowSec: int)

  function Max(a: int, b: int): int {
    if a < b then b else a
  }

  /** Math.ceil(ms / 1000) */
  function CeilSec(ms: int): int {
    -((-ms) / 1000)
  }

  function Remaining(w: WindowInfo): int {
    w.limit - w.current
  }

  /** The names of the headers: ratelimit-limit, ratelimit-remaining, ratelimit-reset,
      retry-after, x-ratelimit-limit-<period>, x-ratelimit-remaining-<period>, and all
      the others. */
  datatype Name = Limit | Left | Reset | RetryAfter
                | PeriodLimit(p: Period) | PeriodLeft(p: Period) | Other(name: string)

  predicate DistinctPeriods(windows: seq<WindowInfo>) {
    forall i, j :: 0 <= i < j < |windows| ==> windows[i].period != windows[j].period
  }

  /** The seconds a denied client is told to wait. */
  function RetryAfterSec(resetAtMs: int, nowMs: int): int {
    Max(1, CeilSec(resetAtMs - nowMs))
  }

  class Headers {
    var values: map<Name, Value>

    constructor ()
      ensures values == map[]
    {
      values := map[];
    }
  }

  /** The first of the windows with the least remaining. */
  ghost predicate Tightest(windows: seq<WindowInfo>, w: WindowInfo) {
    exists k :: 0 <= k < |windows| && windows[k] == w
      && (forall j :: 0 <= j < |windows| ==> Remaining(w) <= Remaining(windows[j]))
      && (forall j :: 0 <= j < k ==> Remaining(w) < Remaining(windows[j]))
  }

  /** applyRateLimitHeaders: the tightest window speaks for all of them, each window is
      reported under its own name, Retry-After is set exactly on a denial, and nothing
      else changes. The clock is read once for the reset and again for Retry-After. */
  method ApplyRateLimitHeaders(headers: Headers, windows: seq<WindowInfo>, denied: Option<WindowInfo>,
                               nowMs: int, retryNowMs: int)
    requires DistinctPeriods(windows)
    modifies headers
    ensures windows == [] ==> headers.values == old(headers.values)
    ensures windows != [] ==> exists w :: Tightest(windows, w) && Summarizes(headers.values, w, nowMs)
    ensures forall w :: w in windows ==> ReportsWindow(headers.values, w)
    ensures windows != [] && denied.Some? ==>
              Reports(headers.values, RetryAfter, Num(RetryAfterSec(denied.value.resetAtMs, retryNowMs)))
    ensures forall n :: !Written(windows, denied, n) ==> SameAt(headers.values, old(headers.values), n)
  {
    if |windows| == 0 {
      return;
    }
    var primary := Primary(windows);
    var h := headers.values;
    h := h[Limit := LimitPerWindow(primary.limit, CeilSec(primary.windowMs))];
    h := h[Left := Num(Max(0, Remaining(primary)))];
    h := h[Reset := Num(Max(0, CeilSec(primary.resetAtMs - nowMs)))];
    assert Summarizes(h, primary, nowMs);
    var r := WritePeriods(h, windows);
    assert Summarizes(r, primary, nowMs) by {
      assert SameAt(r, h, Limit) && SameAt(r, h, Left) && SameAt(r, h, Reset);
    }
    if denied.Some? {
      r := r[RetryAfter := Num(RetryAfterSec(denied.value.resetAtMs, retryNowMs))];
    }
    headers.values := r;
  }

  /** The reduce that picks the window to speak for the others. */
  method Primary(windows: seq<WindowInfo>) returns (primary: WindowInfo)
    requires windows != []
    ensures Tightest(windows, primary)
  {
    primary := windows[0];
    ghost var k := 0;
    for i := 1 to |windows|
      invariant 0 <= k < i && windows[k] == primary
      invariant forall j :: 0 <= j < i ==> Remaining(primary) <= Remaining(windows[j])
      invariant forall j :: 0 <= j < k ==> Remaining(primary) < Remaining(windows[j])
    {
      if Remaining(windows[i]) < Remaining(primary) {
        primary := windows[i];
        k := i;
      }
    }
  }

  /** The loop over the windows. */
  method WritePeriods(h: map<Name, Value>, windows: seq<WindowInfo>) returns (r: map<Name, Value>)
    requires DistinctPeriods(windows)
    ensures forall w :: w in windows ==> ReportsWindow(r, w)
    ensures forall n :: !IsPeriodName(windows, n) ==> SameAt(r, h, n)
  {
    r := h;
    for i := 0 to |windows|
      invariant forall j :: 0 <= j < i ==> ReportsWindow(r, windows[j])
      invariant forall n :: !IsPeriodName(windows, n) ==> SameAt(r, h, n)
    {
      var w := windows[i];
      ghost var before := r;
      r := r[PeriodLimit(w.period) := Num(w.limit)];
      r := r[PeriodLeft(w.period) := Num(Max(0, Remaining(w)))];
      forall n | !IsPeriodName(windows, n)
        ensures SameAt(r, h, n)
      {
        assert SameAt(before, h, n);
      }
      forall j | 0 <= j <= i
        ensures ReportsWindow(r, windows[j])
      {
        if j < i {
          assert ReportsWindow(before, windows[j]);
        }
      }
    }
  }

  /** What the headers of one window say. */
  predicate ReportsWindow(h: map<Name, Value>, w: WindowInfo) {
    && Reports(h, PeriodLimit(w.period), Num(w.limit))
    && Reports(h, PeriodLeft(w.period), Num(Max(0, Remaining(w))))
  }

  predicate Reports(h: map<Name, Value>, name: Name, v: Value) {
    name in h && h[name] == v
  }

  predicate SameAt(h: map<Name, Value>, h': map<Name, Value>, n: Name) {
    (n in h <==> n in h') && (n in h ==> h[n] == h'[n])
  }

  predicate Summarizes(h: map<Name, Value>, w: WindowInfo, nowMs: int) {
    && Reports(h, Limit, LimitPerWindow(w.limit, CeilSec(w.windowMs)))
    && Reports(h, Left, Num(Max(0, Remaining(w))))
    && Reports(h, Reset, Num(Max(0, CeilSec(w.resetAtMs - nowMs))))
  }

  ghost predicate IsPeriodName(windows: seq<WindowInfo>, n: Name) {
    exists w :: w in windows && (n == PeriodLimit(w.period) || n == PeriodLeft(w.period))
  }

  ghost predicate Written(windows: seq<WindowInfo>, denied: Option<WindowInfo>, n: Name) {
    windows != []
    && (n == Limit || n == Left || n == Reset || (n == RetryAfter && denied.Some?) || IsPeriodName(windows, n))
  }

  // ---- What the headers say ------------------------------------------------

  /** A value is the least whole number of seconds, at least `least`, that `ms` fit in. */
  predicate LeastSeconds(v: Value, ms: int, least: int) {
    && v.Num? && least <= v.n && ms <= 1000 * v.n
    && forall n :: least <= n && ms <= 1000 * n ==> v.n <= n
  }

  /** The period of a window has the window's limit and what is left of it, never less than
      nothing. */
  lemma ReportsExactly(h: map<Name, Value>, w: WindowInfo)
    ensures ReportsWindow(h, w) <==>
            && PeriodLimit(w.period) in h && h[PeriodLimit(w.period)] == Num(w.limit)
            && PeriodLeft(w.period) in h
            && h[PeriodLeft(w.period)] == Num(if w.current < w.limit then w.limit - w.current else 0)
  {}

  /** And so do the summarizing headers, which also have the window's length and the time
      to its reset, both in seconds. */
  lemma SummarizesSays(h: map<Name, Value>, w: WindowInfo, nowMs: int)
    requires Summarizes(h, w, nowMs)
    ensures Limit in h && h[Limit].LimitPerWindow? && h[Limit].limit == w.limit
    ensures w.windowMs == 1000 * (w.windowMs / 1000) ==> h[Limit].windowSec == w.windowMs / 1000
    ensures Left in h && h[Left] == Num(if w.current < w.limit then w.limit - w.current else 0)
    ensures Reset in h && LeastSeconds(h[Reset], w.resetAtMs - nowMs, 0)
  {}

  /** The window that speaks for the others has the least left. */
  lemma TightestHasLeast(windows: seq<WindowInfo>, w: WindowInfo)
    requires Tightest(windows, w)
    ensures w in windows && forall v :: v in windows ==> w.limit - w.current <= v.limit - v.current
  {}

  // ---- Waiting as told -----------------------------------------------------

  /** The gateway's Retry-After is the least whole number of seconds, at least one, that
      reaches the reset time. */
  lemma RetryAfterExact(resetAtMs: int, nowMs: int, sec: int)
    ensures RetryAfterSec(resetAtMs, nowMs) <= sec <==> 1 <= sec && resetAtMs <= nowMs + 1000 * sec
  {}

  /** The wait that the policy engine announces drops the part of a second. */
  function TruncatedRetrySec(waitMs: int): int {
    Max(1, waitMs / 1000)
  }

  /** The wait is a whole number of seconds, or at most one. */
  predicate WholeSeconds(waitMs: int) {
    waitMs <= 1000 || waitMs % 1000 == 0
  }

  lemma TruncatedReaches(waitMs: int)
    ensures waitMs <= 1000 * TruncatedRetrySec(waitMs) <==> WholeSeconds(waitMs)
  {}

  /** So a client of the policy engine that waits as told is early unless the wait was
      one of those: left alone, the bucket denies it again. */
  lemma TruncatedRetryExact(b: TB.Bucket, cfg: TB.Config, last: int, now: int)
    requires cfg.Valid() && cfg.capacity >= cfg.requested && TB.Inv(b, cfg, last) && last <= now
    requires TB.Denies(b, cfg, now)
    ensures var (b', r) := TB.Step(b, cfg, now);
            TB.Step(b', cfg, now + 1000 * TruncatedRetrySec(r.waitMs)).1.allowed <==> WholeSeconds(r.waitMs)
  {
    var (b', r) := TB.Step(b, cfg, now);
    TB.DenialOpensAt(b, cfg, last, now);
    TruncatedReaches(r.waitMs);
  }

  /** And whoever else calls: at a retry made as soon as it was told, somebody has been
      admitted since the denial exactly in those cases. */
  lemma TruncatedRetryInRuns(b: TB.Bucket, cfg: TB.Config, used: set<string>, last: int, now: int,
                             calls: seq<Call>, i: nat)
    requires cfg.Valid() && cfg.capacity >= cfg.requested && TB.Inv(b, cfg, last) && last <= now
    requires TB.Denies(b, cfg, now) && Continues(used, now, calls) && i < |calls|
    ensures var (b', r) := TB.Step(b, cfg, now);
            var oks := TB.Run(b', cfg, calls);
            |oks| == |calls| &&
            (calls[i].now == now + 1000 * TruncatedRetrySec(r.waitMs) ==>
               ((exists j :: 0 <= j <= i && oks[j]) <==> WholeSeconds(r.waitMs)))
  {
    var (b', r) := TB.Step(b, cfg, now);
    TB.DenialOpensAt(b, cfg, last, now);
    TB.StepKeepsInv(b, cfg, last, now);
    TB.OpeningIsExact(b', cfg, used, now, now + r.waitMs, calls);
    OpeningServesExactly(calls, TB.Run(b', cfg, calls), true, now + r.waitMs, used, now, i);
    TruncatedReaches(r.waitMs);
  }

  const SLOW := TB.Config(1.0, 0.4, 1.0)

  lemma SlowNumbers()
    ensures SLOW.Valid() && TB.Lifetime(SLOW) == 6000
    ensures TB.Accrued(SLOW, 0) == 0.0 && TB.Accrued(SLOW, 2000) == 0.8
    ensures TB.Ceil((SLOW.requested - 0.0) / SLOW.rate * 1000.0) == 2500
  {
    assert 1.0 / 0.4 == 2.5;
    assert 2.5.Floor == 2 && (-2.5).Floor == -3;
    assert 2.5 * 1000.0 == 2500.0 && (-2500.0).Floor == -2500;
    assert 0.0 / 1000.0 == 0.0 && 2000.0 / 1000.0 == 2.0;
  }

  /** Such a denial: one token, refilled at 0.4 a second. The second request is told to
      come back after 2 seconds of the 2.5 it has to wait, and is denied again. */
  lemma TruncatedRetryFails()
    ensures SLOW.Valid()
    ensures var (b, first) := TB.Step(TB.Absent, SLOW, 0);
            var (b', second) := TB.Step(b, SLOW, 0);
            && first.allowed && !second.allowed && second.waitMs == 2500 && TruncatedRetrySec(second.waitMs) == 2
            && !TB.Step(b', SLOW, 2000).1.allowed
  {
    SlowNumbers();
    hide TB.Lifetime, TB.Accrued, TB.Ceil;
    assert TB.Step(TB.Absent, SLOW, 0).0 == TB.Bucket(0.0, 0, 6000);
    assert TB.Step(TB.Bucket(0.0, 0, 6000), SLOW, 0).0 == TB.Bucket(0.0, 0, 6000);
  }

  /** A client denied by the token bucket that waits the gateway's Retry-After is turned
      away again only if somebody else was admitted in the meantime. The clock is read
      for the script, for the reset time and for the header, in that order. */
  lemma TokenBucketRetry(b: TB.Bucket, cfg: TB.Config, used: set<string>, last: int, now: int, resetNow: int,
                         headerNow: int, calls: seq<Call>, i: nat)
    requires cfg.Valid() && cfg.capacity >= cfg.requested && TB.Inv(b, cfg, last)
    requires last <= now <= resetNow <= headerNow
    requires TB.Denies(b, cfg, now) && Continues(used, now, calls) && i < |calls|
    ensures var (b', r) := TB.Step(b, cfg, now);
            var oks := TB.Run(b', cfg, calls);
            |oks| == |calls| &&
            (headerNow + 1000 * RetryAfterSec(resetNow + r.waitMs, headerNow) <= calls[i].now ==>
               exists j :: 0 <= j <= i && oks[j])
  {
    var (b', r) := TB.Step(b, cfg, now);
    TB.DenialOpensAt(b, cfg, last, now);
    TB.StepKeepsInv(b, cfg, last, now);
    TB.OpeningIsExact(b', cfg, used, now, now + r.waitMs, calls);
    RetryAfterExact(resetNow + r.waitMs, headerNow, RetryAfterSec(resetNow + r.waitMs, headerNow));
    OpeningServesExactly(calls, TB.Run(b', cfg, calls), true, now + r.waitMs, used, now, i);
  }

  /** The reset time both gateways derive from a sliding-window reply. */
  function ResetAt(r: SW.Reply, windowMs: int, now: int): int {
    if r.oldest > 0 then r.oldest + windowMs else now + windowMs
  }

  /** After a denial by the sliding window, whoever comes once the oldest admission has
      left the window is turned away only if somebody else was admitted before. */
  lemma ServedAfterReset(z: SW.ZSet, log: Log, used: set<string>, last: int, windowMs: int, limit: nat,
                         c: Call, calls: seq<Call>, i: nat)
    requires windowMs > 0 && limit > 0 && SW.Inv(z, log, last, windowMs, limit) && last <= c.now && c.id !in log
    requires !SW.Step(z, windowMs, limit, c).1.allowed
    requires log.Keys <= used && Continues(used, c.now, calls) && i < |calls|
    requires SW.Step(z, windowMs, limit, c).1.oldest + windowMs <= calls[i].now
    ensures var oks := SW.Run(SW.Step(z, windowMs, limit, c).0, windowMs, limit, calls).1;
            |oks| == |calls| && exists j :: 0 <= j <= i && oks[j]
  {
    var (z', r) := SW.Step(z, windowMs, limit, c);
    var opening := r.oldest + windowMs;
    SW.DenialIsFull(z, log, last, windowMs, limit, c);
    SW.ResetIsExact(z', log, used, c.now, windowMs, limit, opening, calls);
    OpeningServesExactly(calls, SW.Run(z', windowMs, limit, calls).1, true, opening, used, c.now, i);
  }

  /** The gateway's Retry-After for the sliding window is long enough; the header is
      written no earlier than the script's time. */
  lemma SlidingWindowRetry(z: SW.ZSet, log: Log, used: set<string>, last: int, windowMs: int, limit: nat,
                           c: Call, headerNow: int, calls: seq<Call>, i: nat)
    requires windowMs > 0 && limit > 0 && SW.Inv(z, log, last, windowMs, limit) && last <= c.now <= headerNow
    requires c.id !in log && !SW.Step(z, windowMs, limit, c).1.allowed
    requires log.Keys <= used && Continues(used, c.now, calls) && i < |calls|
    requires var r := SW.Step(z, windowMs, limit, c).1;
             headerNow + 1000 * RetryAfterSec(ResetAt(r, windowMs, c.now), headerNow) <= calls[i].now
    ensures var oks := SW.Run(SW.Step(z, windowMs, limit, c).0, windowMs, limit, calls).1;
            |oks| == |calls| && exists j :: 0 <= j <= i && oks[j]
  {
    var r := SW.Step(z, windowMs, limit, c).1;
    var reset := ResetAt(r, windowMs, c.now);
    NoLaterThanNow(z, log, last, windowMs, limit, c);
    RetryAfterExact(reset, headerNow, RetryAfterSec(reset, headerNow));
    ServedAfterReset(z, log, used, last, windowMs, limit, c, calls, i);
  }

  /** The policy engine tells every denied client to wait a whole window, which is long
      enough too. */
  lemma WholeWindowRetry(z: SW.ZSet, log: Log, used: set<string>, last: int, windowMs: int, limit: nat,
                         c: Call, calls: seq<Call>, i: nat)
    requires windowMs > 0 && limit > 0 && SW.Inv(z, log, last, windowMs, limit) && last <= c.now && c.id !in log
    requires !SW.Step(z, windowMs, limit, c).1.allowed
    requires log.Keys <= used && Continues(used, c.now, calls) && i < |calls|
    requires c.now + windowMs <= calls[i].now
    ensures var oks := SW.Run(SW.Step(z, windowMs, limit, c).0, windowMs, limit, calls).1;
            |oks| == |calls| && exists j :: 0 <= j <= i && oks[j]
  {
    NoLaterThanNow(z, log, last, windowMs, limit, c);
    ServedAfterReset(z, log, used, last, windowMs, limit, c, calls, i);
  }

  lemma NoLaterThanNow(z: SW.ZSet, log: Log, last: int, windowMs: int, limit: nat, c: Call)
    requires windowMs > 0 && limit > 0 && SW.Inv(z, log, last, windowMs, limit) && last <= c.now && c.id !in log
    requires !SW.Step(z, windowMs, limit, c).1.allowed
    ensures SW.Step(z, windowMs, limit, c).1.oldest <= c.now
  {
    SW.DenialIsFull(z, log, last, windowMs, limit, c);
    SW.OldestExists(SW.Step(z, windowMs, limit, c).0.scores);
  }

  // ---- Fixed windows -------------------------------------------------------

  /** After a denial by a fixed window, a client that comes back at some time finds that
      somebody has been admitted exactly if the window is over by then. */
  lemma FixedWaitExact(cs: FW.Counters, log: Log, used: set<string>, windowSec: nat, limit: nat, now: int,
                       calls: seq<Call>, i: nat)
    requires windowSec > 0 && limit > 0 && FW.Inv(cs, log, windowSec, limit)
    requires !FW.Step(cs, windowSec, limit, now).1.allowed
    requires forall w :: w in cs ==> w <= FW.WindowId(now, windowSec)
    requires Continues(used, now, calls) && i < |calls|
    ensures var oks := FW.Run(FW.Step(cs, windowSec, limit, now).0, windowSec, limit, calls).1;
            |oks| == |calls| && ((exists j :: 0 <= j <= i && oks[j]) <==> FW.EndOf(now, windowSec) <= calls[i].now)
  {
    var cs' := FW.Step(cs, windowSec, limit, now).0;
    FW.DenialIsFull(cs, log, windowSec, limit, now);
    FW.EndIsExact(cs', windowSec, limit, used, now, calls);
    OpeningServesExactly(calls, FW.Run(cs', windowSec, limit, calls).1, true, FW.EndOf(now, windowSec), used, now, i);
  }

  /** The policy engine tells it to wait for what Redis says is left of the key's life. That
      ends a window's length after the window's first request, but is rounded: the client
      is early exactly if rounding cut off more than the time that the first request came
      after the window had begun. */
  lemma FixedRetryExact(cs: FW.Counters, log: Log, used: set<string>, windowSec: nat, limit: nat, now: int,
                        calls: seq<Call>, i: nat)
    requires windowSec > 0 && limit > 0 && FW.Inv(cs, log, windowSec, limit)
    requires !FW.Step(cs, windowSec, limit, now).1.allowed
    requires forall w :: w in cs ==> w <= FW.WindowId(now, windowSec)
    requires Continues(used, now, calls) && i < |calls|
    requires calls[i].now == now + 1000 * FW.Step(cs, windowSec, limit, now).1.ttlSec
    ensures var id := FW.WindowId(now, windowSec);
            var (cs', r) := FW.Step(cs, windowSec, limit, now);
            var oks := FW.Run(cs', windowSec, limit, calls).1;
            var firstCall := cs'[id].deadline - windowSec * 1000;
            var cutOff := cs'[id].deadline - now - 1000 * r.ttlSec;
            && |oks| == |calls| && -500 <= cutOff < 500
            && ((exists j :: 0 <= j <= i && oks[j]) <==> cutOff <= firstCall - id * (windowSec * 1000))
  {
    FixedWaitExact(cs, log, used, windowSec, limit, now, calls, i);
    var id := FW.WindowId(now, windowSec);
    assert FW.EndOf(now, windowSec) == id * (windowSec * 1000) + windowSec * 1000;
    hide FW.Run, FW.Inv, FW.WindowId, Continues;
  }

  /** The gateway's Retry-After is at least a second, so that its client is not early either
      if the life was rounded to nothing. */
  lemma GatewayFixedRetryExact(cs: FW.Counters, log: Log, used: set<string>, windowSec: nat, limit: nat, now: int,
                               calls: seq<Call>, i: nat)
    requires windowSec > 0 && limit > 0 && FW.Inv(cs, log, windowSec, limit)
    requires !FW.Step(cs, windowSec, limit, now).1.allowed
    requires forall w :: w in cs ==> w <= FW.WindowId(now, windowSec)
    requires Continues(used, now, calls) && i < |calls|
    requires var r := FW.Step(cs, windowSec, limit, now).1;
             calls[i].now == now + 1000 * RetryAfterSec(now + Max(0, r.ttlSec) * 1000, now)
    ensures var id := FW.WindowId(now, windowSec);
            var (cs', r) := FW.Step(cs, windowSec, limit, now);
            var oks := FW.Run(cs', windowSec, limit, calls).1;
            var firstCall := cs'[id].deadline - windowSec * 1000;
            var cutOff := cs'[id].deadline - now - 1000 * r.ttlSec;
            && |oks| == |calls|
            && ((exists j :: 0 <= j <= i && oks[j]) <==>
                  r.ttlSec == 0 || cutOff <= firstCall - id * (windowSec * 1000))
  {
    FixedWaitExact(cs, log, used, windowSec, limit, now, calls, i);
    var id := FW.WindowId(now, windowSec);
    var r := FW.Step(cs, windowSec, limit, now).1;
    assert FW.EndOf(now, windowSec) == id * (windowSec * 1000) + windowSec * 1000;
    FW.DenialIsFull(cs, log, windowSec, limit, now);
    FW.WindowEnd(now, windowSec * 1000);
    assert r.ttlSec >= 0;
    RetryAfterExact(now + r.ttlSec * 1000, now, if r.ttlSec == 0 then 1 else r.ttlSec);
    RetryAfterExact(now + r.ttlSec * 1000, now, RetryAfterSec(now + r.ttlSec * 1000, now));
    hide FW.Run, FW.Inv, FW.WindowId, Continues;
  }

  /** Such a denial: the only admission of a minute is its first moment, and 1.3 seconds
      before its end both gateways say to come back after one. */
  lemma FixedRetryFails()
    ensures var (cs, first) := FW.Step(map[], 60, 1, 0);
            var (cs', second) := FW.Step(cs, 60, 1, 58700);
            && first.allowed && !second.allowed && second.ttlSec == 1
            && RetryAfterSec(58700 + second.ttlSec * 1000, 58700) == 1
            && !FW.Step(cs', 60, 1, 58700 + 1000).1.allowed
  {
    assert FW.WindowId(0, 60) == FW.WindowId(58700, 60) == FW.WindowId(59700, 60) == 0;
  }
}
