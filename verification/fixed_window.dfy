/** The fixed-window script: INCR and EXPIRE on a key that names its window. */
module FixedWindow {
  import opened RequestLog
  import opened Wrappers

  /** A counter key: its value and the millisecond at which it expires. */
  datatype Counter = Counter(count: nat, deadline: int)

  /** The counters of one client and one period, by window id. */
  type Counters = map<int, Counter>

  /** `ttlSec` is what Redis says is left of the key's life, rounded to seconds. */
  datatype Reply = Reply(current: nat, allowed: bool, ttlSec: int)

  function WindowId(now: int, windowSec: nat): int
    requires windowSec > 0
  {
    now / (windowSec * 1000)
  }

  /** INCR starts from nothing when the key is absent or has expired; only the
      first increment sets the expiry. */
  function Step(cs: Counters, windowSec: nat, limit: nat, now: int): (Counters, Reply)
    requires windowSec > 0
  {
    var id := WindowId(now, windowSec);
    var live := id in cs && now < cs[id].deadline;
    var current := if live then cs[id].count + 1 else 1;
    var deadline := if current == 1 then now + windowSec * 1000 else cs[id].deadline;
    (cs[id := Counter(current, deadline)], Reply(current, current <= limit, TtlSec(deadline, now)))
  }

  /** TTL */
  function TtlSec(deadline: int, now: int): int {
    (deadline - now + 500) / 1000
  }

  /** The admitted requests of one window. */
  function InWindow(log: Log, windowSec: nat, id: int): set<string>
    requires windowSec > 0
  {
    set r | r in log && WindowId(log[r], windowSec) == id
  }

  /** What every run keeps. The counter also counts denied requests, so the log
      determines it only up to the limit; and it outlives its own window. */
  ghost predicate Inv(cs: Counters, log: Log, windowSec: nat, limit: nat)
    requires windowSec > 0
  {
    forall id ::
      && |InWindow(log, windowSec, id)| ==
           (if id !in cs then 0 else if cs[id].count <= limit then cs[id].count else limit)
      && (id in cs ==> cs[id].count > 0 && (id + 1) * (windowSec * 1000) <= cs[id].deadline)
  }

  lemma WindowEnd(now: int, windowMs: int)
    requires windowMs > 0
    ensures now / windowMs * windowMs <= now < (now / windowMs + 1) * windowMs
  {
    assert now == now / windowMs * windowMs + now % windowMs;
  }

  /** The policy engine divides whole seconds; both gateways come to the same key. */
  lemma SameWindowKey(now: int, windowSec: nat)
    requires windowSec > 0
    ensures now / 1000 / windowSec == WindowId(now, windowSec)
  {
    var id, sec := WindowId(now, windowSec), now / 1000;
    WindowEnd(now, windowSec * 1000);
    assert id * windowSec * 1000 <= now < (id + 1) * windowSec * 1000;
    assert id * windowSec <= sec < (id + 1) * windowSec;
    Quotient(sec, windowSec, id);
  }

  lemma Quotient(n: int, d: int, q: int)
    requires d > 0 && q * d <= n < (q + 1) * d
    ensures n / d == q
  {
    WindowEnd(n, d);
    NoMoreThan(n / d, q, d, n);
    NoMoreThan(q, n / d, d, n);
  }

  lemma NoMoreThan(p: int, q: int, d: int, n: int)
    requires d > 0 && p * d <= n < (q + 1) * d
    ensures p <= q
  {
    assert p * d == (q + 1) * d + (p - (q + 1)) * d;
    assert q < p ==> (p - (q + 1)) * d >= 0;
  }

  lemma InWindowAdmit(log: Log, windowSec: nat, c: Call, id: int)
    requires windowSec > 0 && c.id !in log
    ensures var before := InWindow(log, windowSec, id);
            InWindow(log[c.id := c.now], windowSec, id) ==
              if WindowId(c.now, windowSec) == id then before + {c.id} else before
  {}

  /** A request is admitted exactly when its own window has admitted fewer than
      `limit`. The key never expires inside its own window: Redis and the callers read one
      clock. */
  lemma StepAgreesWithLog(cs: Counters, log: Log, windowSec: nat, limit: nat, c: Call)
    requires windowSec > 0 && Inv(cs, log, windowSec, limit) && c.id !in log
    ensures var (cs', r) := Step(cs, windowSec, limit, c.now);
            && (r.allowed <==> |InWindow(log, windowSec, WindowId(c.now, windowSec))| < limit)
            && Inv(cs', Admit(log, c, r.allowed), windowSec, limit)
  {
    var (cs', r) := Step(cs, windowSec, limit, c.now);
    var here := WindowId(c.now, windowSec);
    WindowEnd(c.now, windowSec * 1000);
    assert |InWindow(log, windowSec, here)| >= 0;
    assert here in cs ==> c.now < cs[here].deadline;
    var log' := Admit(log, c, r.allowed);
    forall id
      ensures |InWindow(log', windowSec, id)| ==
                (if id !in cs' then 0 else if cs'[id].count <= limit then cs'[id].count else limit)
      ensures id in cs' ==> cs'[id].count > 0 && (id + 1) * (windowSec * 1000) <= cs'[id].deadline
    {
      InWindowAdmit(log, windowSec, c, id);
      assert c.id !in InWindow(log, windowSec, id);
    }
  }

  /** An interval no longer than the window meets at most two windows. */
  lemma TwoWindows(cs: Counters, log: Log, windowSec: nat, limit: nat)
    requires windowSec > 0 && Inv(cs, log, windowSec, limit)
    ensures WithinLimit(log, windowSec * 1000, 2 * limit)
  {
    var ms := windowSec * 1000;
    forall lo, hi | hi <= lo + ms ensures Count(log, lo, hi) <= 2 * limit {
      var id := WindowId(lo, windowSec);
      var first, second := InWindow(log, windowSec, id), InWindow(log, windowSec, id + 1);
      forall r | r in Within(log, lo, hi) ensures r in first + second {
        NextWindow(lo, log[r], ms);
      }
      SubsetCount(Within(log, lo, hi), first + second);
    }
  }

  lemma NextWindow(lo: int, t: int, ms: int)
    requires ms > 0 && lo < t <= lo + ms
    ensures t / ms == lo / ms || t / ms == lo / ms + 1
  {
    WindowEnd(lo, ms);
    var a := lo / ms;
    if t < (a + 1) * ms {
      Quotient(t, ms, a);
    } else {
      Quotient(t, ms, a + 1);
    }
  }

  // ---- Whole runs ----------------------------------------------------------

  function Run(cs: Counters, windowSec: nat, limit: nat, calls: seq<Call>): (Counters, seq<bool>)
    requires windowSec > 0
    decreases |calls|
  {
    if calls == [] then (cs, [])
    else
      var (cs', r) := Step(cs, windowSec, limit, calls[0].now);
      var (cs'', oks) := Run(cs', windowSec, limit, calls[1..]);
      (cs'', [r.allowed] + oks)
  }

  /** The simple form: count the admissions of the window the request falls in. */
  function WindowLogRun(log: Log, windowSec: nat, limit: nat, calls: seq<Call>): (Log, seq<bool>)
    requires windowSec > 0
    decreases |calls|
  {
    if calls == [] then (log, [])
    else
      var c := calls[0];
      var ok := |InWindow(log, windowSec, WindowId(c.now, windowSec))| < limit;
      var (log', oks) := WindowLogRun(Admit(log, c, ok), windowSec, limit, calls[1..]);
      (log', [ok] + oks)
  }

  lemma {:induction false} RunRefinesLog(cs: Counters, log: Log, windowSec: nat, limit: nat, calls: seq<Call>)
    requires windowSec > 0 && Inv(cs, log, windowSec, limit)
    requires forall i :: 0 <= i < |calls| ==> calls[i].id !in log
    requires forall i, j :: 0 <= i < j < |calls| ==> calls[i].id != calls[j].id
    ensures var (cs', oks) := Run(cs, windowSec, limit, calls);
            var (log', oks') := WindowLogRun(log, windowSec, limit, calls);
            oks == oks' && |oks| == |calls| && Inv(cs', log', windowSec, limit)
    decreases |calls|
  {
    hide Inv, Step;
    if calls == [] {
    } else {
      var c := calls[0];
      var (cs', r) := Step(cs, windowSec, limit, c.now);
      StepAgreesWithLog(cs, log, windowSec, limit, c);
      RunRefinesLog(cs', Admit(log, c, r.allowed), windowSec, limit, calls[1..]);
    }
  }

  /** What a reply leaves of the limit is exact: of the requests that follow in the same
      window, however late, the first `limit - current` are admitted and no others. */
  lemma RemainingIsExact(cs: Counters, log: Log, windowSec: nat, limit: nat, now: int, calls: seq<Call>)
    requires windowSec > 0 && Inv(cs, log, windowSec, limit)
    requires forall c :: c in calls ==> WindowId(c.now, windowSec) == WindowId(now, windowSec)
    ensures var (cs', r) := Step(cs, windowSec, limit, now);
            Run(cs', windowSec, limit, calls).1 == seq(|calls|, i => i < limit - r.current)
  {
    var id := WindowId(now, windowSec);
    WindowEnd(now, windowSec * 1000);
    assert |InWindow(log, windowSec, id)| >= 0;
    WindowBurst(Step(cs, windowSec, limit, now).0, windowSec, limit, id, calls);
  }

  lemma {:induction false} WindowBurst(cs: Counters, windowSec: nat, limit: nat, id: int, calls: seq<Call>)
    requires windowSec > 0 && id in cs && cs[id].count > 0 && (id + 1) * (windowSec * 1000) <= cs[id].deadline
    requires forall c :: c in calls ==> WindowId(c.now, windowSec) == id
    ensures Run(cs, windowSec, limit, calls).1 == seq(|calls|, i => i < limit - cs[id].count)
    decreases |calls|
  {
    if calls != [] {
      WindowEnd(calls[0].now, windowSec * 1000);
      WindowBurst(Step(cs, windowSec, limit, calls[0].now).0, windowSec, limit, id, calls[1..]);
    }
  }

  /** From absent keys the script decides as the log does: at most `limit` in every
      window, and so at most twice that in any interval as long as a window. */
  lemma RunWithinLimit(windowSec: nat, limit: nat, calls: seq<Call>)
    requires windowSec > 0
    requires forall i, j :: 0 <= i < j < |calls| ==> calls[i].id != calls[j].id
    ensures var (log, oks) := WindowLogRun(map[], windowSec, limit, calls);
            && Run(map[], windowSec, limit, calls).1 == oks
            && (forall id :: |InWindow(log, windowSec, id)| <= limit)
            && WithinLimit(log, windowSec * 1000, 2 * limit)
  {
    RunRefinesLog(map[], map[], windowSec, limit, calls);
    var (cs, _) := Run(map[], windowSec, limit, calls);
    TwoWindows(cs, WindowLogRun(map[], windowSec, limit, calls).0, windowSec, limit);
  }

  // ---- The end of the window is exact --------------------------------------

  /** The window that `last` falls in is full, and nobody has called in a later one. */
  predicate FullAt(cs: Counters, windowSec: nat, limit: nat, last: int)
    requires windowSec > 0
  {
    var id := WindowId(last, windowSec);
    && id in cs && limit <= cs[id].count && (id + 1) * (windowSec * 1000) <= cs[id].deadline && cs[id].count > 0
    && forall w :: w in cs ==> w <= id
  }

  function EndOf(now: int, windowSec: nat): int
    requires windowSec > 0
  {
    (WindowId(now, windowSec) + 1) * (windowSec * 1000)
  }

  /** Before the end of a full window every request is denied, and from then on the next
      one is admitted. */
  lemma FullStep(cs: Counters, windowSec: nat, limit: nat, last: int, now: int)
    requires windowSec > 0 && FullAt(cs, windowSec, limit, last) && last <= now
    ensures var (cs', r) := Step(cs, windowSec, limit, now);
            && (r.allowed <==> limit > 0 && EndOf(last, windowSec) <= now)
            && (now < EndOf(last, windowSec) ==>
                  FullAt(cs', windowSec, limit, now) && EndOf(now, windowSec) == EndOf(last, windowSec))
  {
    var ms := windowSec * 1000;
    WindowEnd(last, ms);
    WindowEnd(now, ms);
    if now < EndOf(last, windowSec) {
      Quotient(now, ms, WindowId(last, windowSec));
    } else {
      NoMoreThan(WindowId(last, windowSec) + 1, WindowId(now, windowSec), ms, now);
    }
  }

  /** After a denial the end of the window is exact, whoever calls in between. */
  lemma {:induction false} EndIsExact(cs: Counters, windowSec: nat, limit: nat, used: set<string>, last: int,
                                      calls: seq<Call>)
    requires windowSec > 0 && limit > 0 && FullAt(cs, windowSec, limit, last) && Continues(used, last, calls)
    ensures OpensExactlyAt(calls, Run(cs, windowSec, limit, calls).1, true, EndOf(last, windowSec))
    decreases |calls|
  {
    hide FullAt, Step, EndOf;
    RunLength(cs, windowSec, limit, calls);
    if calls != [] {
      var c, rest := calls[0], calls[1..];
      var cs' := Step(cs, windowSec, limit, c.now).0;
      FullStep(cs, windowSec, limit, last, c.now);
      assert Run(cs, windowSec, limit, calls).1[1..] == Run(cs', windowSec, limit, rest).1;
      if c.now < EndOf(last, windowSec) {
        EndIsExact(cs', windowSec, limit, used + {c.id}, c.now, rest);
      }
    }
  }

  lemma {:induction false} RunLength(cs: Counters, windowSec: nat, limit: nat, calls: seq<Call>)
    requires windowSec > 0
    ensures |Run(cs, windowSec, limit, calls).1| == |calls|
    decreases |calls|
  {
    if calls != [] {
      RunLength(Step(cs, windowSec, limit, calls[0].now).0, windowSec, limit, calls[1..]);
    }
  }

  /** A denial leaves its window full. */
  lemma DenialIsFull(cs: Counters, log: Log, windowSec: nat, limit: nat, now: int)
    requires windowSec > 0 && Inv(cs, log, windowSec, limit) && !Step(cs, windowSec, limit, now).1.allowed
    requires forall w :: w in cs ==> w <= WindowId(now, windowSec)
    ensures FullAt(Step(cs, windowSec, limit, now).0, windowSec, limit, now)
  {
    WindowEnd(now, windowSec * 1000);
    assert |InWindow(log, windowSec, WindowId(now, windowSec))| >= 0;
  }

  // ---- When a key expires --------------------------------------------------

  /** The first call that falls in the window. */
  function FirstIn(calls: seq<Call>, windowSec: nat, id: int): Option<int>
    requires windowSec > 0
  {
    if calls == [] then None
    else if WindowId(calls[0].now, windowSec) == id then Some(calls[0].now)
    else FirstIn(calls[1..], windowSec, id)
  }

  /** The first call of a window gives its key a window's length to live, and no later call
      changes that. */
  lemma {:induction false} FirstCallSetsExpiry(cs: Counters, windowSec: nat, limit: nat, calls: seq<Call>, id: int)
    requires windowSec > 0
    requires id in cs ==> cs[id].count > 0 && (id + 1) * (windowSec * 1000) <= cs[id].deadline
    ensures var cs' := Run(cs, windowSec, limit, calls).0;
            if id in cs then id in cs' && cs'[id].deadline == cs[id].deadline
            else
              var first := FirstIn(calls, windowSec, id);
              (id in cs' <==> first.Some?) && (id in cs' ==> cs'[id].deadline == first.value + windowSec * 1000)
    decreases |calls|
  {
    if calls != [] {
      WindowEnd(calls[0].now, windowSec * 1000);
      FirstCallSetsExpiry(Step(cs, windowSec, limit, calls[0].now).0, windowSec, limit, calls[1..], id);
    }
  }
}
