/** The sliding-window script: a sorted set of admission times under one Redis key. */
module SlidingWindow {
  import opened RequestLog

  /** A sorted set and the time its key expires; an empty set is an absent key. */
  datatype ZSet = ZSet(scores: map<string, int>, deadline: int)

  /** What the script returns; window and limit are echoed arguments. */
  datatype Reply = Reply(current: int, allowed: bool, oldest: int)

  const EMPTY := ZSet(map[], 0)

  /** The members Redis still sees at `now`: none once the key has expired. */
  function Live(z: ZSet, now: int): map<string, int> {
    if z.deadline <= now then map[] else z.scores
  }

  /** ZREMRANGEBYSCORE key -inf start */
  function Purge(scores: map<string, int>, start: int): map<string, int> {
    map m | m in scores && start < scores[m] :: scores[m]
  }

  ghost predicate IsOldest(scores: map<string, int>, m: string) {
    m in scores && forall n :: n in scores ==> scores[m] <= scores[n]
  }

  lemma {:induction false} OldestExists(scores: map<string, int>)
    requires |scores| > 0
    ensures exists m :: IsOldest(scores, m)
    decreases |scores|
  {
    var m :| m in scores;
    var rest := scores - {m};
    assert rest.Keys == scores.Keys - {m};
    if |rest| == 0 {
      assert scores.Keys == {m} by {
        assert |scores.Keys - {m}| == 0;
      }
      assert IsOldest(scores, m);
    } else {
      OldestExists(rest);
      var n :| IsOldest(rest, n);
      assert forall k :: k in scores && k != m ==> k in rest && rest[n] <= scores[k];
      assert IsOldest(scores, if scores[m] <= scores[n] then m else n);
    }
  }

  /** ZRANGE key 0 0 WITHSCORES, and 0 when the set is empty. */
  ghost function OldestScore(scores: map<string, int>): int {
    if |scores| == 0 then 0
    else
      OldestExists(scores);
      var m :| IsOldest(scores, m);
      scores[m]
  }

  /** The script on the members that survived the purge. */
  ghost function Decide(kept: map<string, int>, deadline: int, windowMs: int, limit: nat, c: Call): (ZSet, Reply) {
    if |kept| < limit then
      (ZSet(kept[c.id := c.now], c.now + windowMs * 2), Reply(|kept| + 1, true, 0))
    else
      (ZSet(kept, deadline), Reply(|kept|, false, OldestScore(kept)))
  }

  ghost function Step(z: ZSet, windowMs: int, limit: nat, c: Call): (ZSet, Reply) {
    Decide(Purge(Live(z, c.now), c.now - windowMs), z.deadline, windowMs, limit, c)
  }

  // ---- The sorted set is the recent part of the log ------------------------

  /** `z` is the key after a run whose last call came no later than `last` and
      whose admissions are `log`: it holds every recent one and nothing else. */
  ghost predicate Mirrors(z: ZSet, log: Log, last: int, windowMs: int) {
    && (forall id :: id in log ==> log[id] <= last && log[id] + windowMs * 2 <= z.deadline)
    && (forall id :: id in log && last < log[id] + windowMs ==> id in z.scores)
    && (forall id :: id in z.scores ==> id in log && log[id] == z.scores[id])
  }

  /** What every run keeps. */
  ghost predicate Inv(z: ZSet, log: Log, last: int, windowMs: int, limit: nat) {
    && Mirrors(z, log, last, windowMs)
    && |z.scores| <= limit
    && WithinLimit(log, windowMs, limit)
  }

  lemma InitialInv(last: int, windowMs: int, limit: nat)
    ensures Inv(EMPTY, map[], last, windowMs, limit)
  {}

  /** Purging, with or without losing the key to its expiry first, leaves exactly
      the requests logged in the last window. */
  lemma KeptIsRecent(z: ZSet, log: Log, last: int, windowMs: int, now: int, kept: map<string, int>)
    requires windowMs > 0 && Mirrors(z, log, last, windowMs) && last <= now
    requires kept == Purge(Live(z, now), now - windowMs) || kept == Purge(z.scores, now - windowMs)
    ensures kept.Keys == Within(log, now - windowMs, now)
    ensures |kept| == Count(log, now - windowMs, now)
    ensures Mirrors(ZSet(kept, z.deadline), log, now, windowMs)
    ensures |kept| <= |z.scores|
  {
    assert kept.Keys == Within(log, now - windowMs, now);
    SubsetCount(kept.Keys, z.scores.Keys);
  }

  /** The decision on a purged key that mirrors the log. */
  lemma DecideAgreesWithLog(kept: map<string, int>, deadline: int, log: Log, windowMs: int, limit: nat, c: Call)
    requires windowMs > 0 && Inv(ZSet(kept, deadline), log, c.now, windowMs, limit) && c.id !in log
    requires |kept| == Count(log, c.now - windowMs, c.now)
    ensures var (z', r) := Decide(kept, deadline, windowMs, limit, c);
            && (r.allowed <==> Count(log, c.now - windowMs, c.now) < limit)
            && r.current == Count(Admit(log, c, r.allowed), c.now - windowMs, c.now)
            && Inv(z', Admit(log, c, r.allowed), c.now, windowMs, limit)
  {
    if |kept| < limit {
      CountAdmit(log, c, c.now - windowMs, c.now);
      assert kept[c.id := c.now].Keys == kept.Keys + {c.id};
      assert |kept[c.id := c.now].Keys| <= |kept.Keys| + 1;
      AdmitKeepsLimit(log, windowMs, limit, c);
    }
  }

  /** One call agrees with the log, and keeps the invariant. */
  lemma StepAgreesWithLog(z: ZSet, log: Log, last: int, windowMs: int, limit: nat, c: Call)
    requires windowMs > 0 && Inv(z, log, last, windowMs, limit) && last <= c.now && c.id !in log
    ensures var (z', r) := Step(z, windowMs, limit, c);
            && (r.allowed <==> Count(log, c.now - windowMs, c.now) < limit)
            && r.current == Count(Admit(log, c, r.allowed), c.now - windowMs, c.now)
            && Inv(z', Admit(log, c, r.allowed), c.now, windowMs, limit)
  {
    var kept := Purge(Live(z, c.now), c.now - windowMs);
    KeptIsRecent(z, log, last, windowMs, c.now, kept);
    DecideAgreesWithLog(kept, z.deadline, log, windowMs, limit, c);
  }

  /** The expiry of 2 * window_ms is never observable: a key that has reached its
      deadline may be dropped or kept, and every reply and every later state is
      the same. */
  lemma ExpiryUnobservable(z: ZSet, log: Log, last: int, windowMs: int, limit: nat, c: Call)
    requires windowMs > 0 && Inv(z, log, last, windowMs, limit)
    requires last <= c.now && z.deadline <= c.now
    ensures var kept := Decide(Purge(z.scores, c.now - windowMs), z.deadline, windowMs, limit, c);
            var dropped := Decide(map[], 0, windowMs, limit, c);
            kept.1 == dropped.1 && kept.0.scores == dropped.0.scores
            && (kept.0.scores != map[] ==> kept.0 == dropped.0)
  {
    assert Purge(z.scores, c.now - windowMs) == map[] by {
      assert forall m :: m in z.scores ==> z.scores[m] <= c.now - windowMs;
    }
  }

  // ---- Whole runs ----------------------------------------------------------

  /** The script called once per element: the final key and every decision. */
  ghost function Run(z: ZSet, windowMs: int, limit: nat, calls: seq<Call>): (ZSet, seq<bool>)
    decreases |calls|
  {
    if calls == [] then (z, [])
    else
      var (z', r) := Step(z, windowMs, limit, calls[0]);
      var (z'', oks) := Run(z', windowMs, limit, calls[1..]);
      (z'', [r.allowed] + oks)
  }

  /** The bounded sorted set refines the unbounded log, over every run. */
  lemma {:induction false} RunRefinesLog(z: ZSet, log: Log, used: set<string>, last: int,
                                         windowMs: int, limit: nat, calls: seq<Call>)
    returns (end: int)
    requires windowMs > 0 && Inv(z, log, last, windowMs, limit)
    requires log.Keys <= used && Continues(used, last, calls)
    ensures var (z', oks) := Run(z, windowMs, limit, calls);
            var (log', oks') := LogRun(log, windowMs, limit, calls);
            oks == oks' && |oks| == |calls| && Inv(z', log', end, windowMs, limit)
    decreases |calls|
  {
    hide Inv, Step, Count;
    if calls == [] {
      end := last;
    } else {
      var c := calls[0];
      var (z', r) := Step(z, windowMs, limit, c);
      StepAgreesWithLog(z, log, last, windowMs, limit, c);
      end := RunRefinesLog(z', Admit(log, c, r.allowed), used + {c.id}, c.now, windowMs, limit, calls[1..]);
    }
  }

  /** From an absent key, the script decides as the log does, and no interval
      (lo, hi] as long as the window ever admits more than `limit` requests. */
  lemma RunWithinLimit(start: int, windowMs: int, limit: nat, calls: seq<Call>)
    requires windowMs > 0 && Continues({}, start, calls)
    ensures var (log, oks) := LogRun(map[], windowMs, limit, calls);
            && Run(EMPTY, windowMs, limit, calls).1 == oks
            && WithinLimit(log, windowMs, limit)
  {
    InitialInv(start, windowMs, limit);
    var _ := RunRefinesLog(EMPTY, map[], {}, start, windowMs, limit, calls);
  }

  /** What a reply leaves of the limit is exact: of the requests that follow at the same
      moment, the first `limit - current` are admitted and no others. */
  lemma RemainingIsExact(z: ZSet, log: Log, used: set<string>, last: int, windowMs: int, limit: nat,
                         c: Call, calls: seq<Call>)
    requires windowMs > 0 && Inv(z, log, last, windowMs, limit) && last <= c.now && c.id !in log
    requires log.Keys <= used && Continues(used + {c.id}, c.now, calls) && AllAt(calls, c.now)
    ensures var (z', r) := Step(z, windowMs, limit, c);
            Run(z', windowMs, limit, calls).1 == seq(|calls|, i => i < limit - r.current)
  {
    hide Inv, Step, Count, AllAt, Continues, LogRun, Run;
    var (z', r) := Step(z, windowMs, limit, c);
    StepAgreesWithLog(z, log, last, windowMs, limit, c);
    var log' := Admit(log, c, r.allowed);
    var _ := RunRefinesLog(z', log', used + {c.id}, c.now, windowMs, limit, calls);
    LogBurst(log', used + {c.id}, windowMs, limit, c.now, calls);
  }

  // ---- The reset time is exact ---------------------------------------------

  /** A full key whose members are all younger than `until - windowMs`. */
  ghost predicate FullUntil(z: ZSet, log: Log, last: int, windowMs: int, limit: nat, until: int) {
    && Inv(z, log, last, windowMs, limit)
    && |z.scores| == limit > 0
    && (exists m :: m in z.scores && z.scores[m] + windowMs == until)
    && (forall m :: m in z.scores ==> until <= z.scores[m] + windowMs)
  }

  /** A denial says when the key stops being full: the oldest admission plus the window. */
  lemma DenialIsFull(z: ZSet, log: Log, last: int, windowMs: int, limit: nat, c: Call)
    requires windowMs > 0 && limit > 0 && Inv(z, log, last, windowMs, limit)
    requires last <= c.now && c.id !in log
    requires !Step(z, windowMs, limit, c).1.allowed
    ensures var (z', r) := Step(z, windowMs, limit, c);
            && FullUntil(z', log, c.now, windowMs, limit, r.oldest + windowMs)
            && c.now < r.oldest + windowMs
  {
    StepAgreesWithLog(z, log, last, windowMs, limit, c);
    OldestExists(Step(z, windowMs, limit, c).0.scores);
  }

  /** While the key is full every request is denied and the key stays as it is;
      the first request at or after `until` is admitted. */
  lemma FullStep(z: ZSet, log: Log, last: int, windowMs: int, limit: nat, until: int, c: Call)
    requires windowMs > 0 && FullUntil(z, log, last, windowMs, limit, until)
    requires last <= c.now && c.id !in log
    ensures var (z', r) := Step(z, windowMs, limit, c);
            && (r.allowed <==> until <= c.now)
            && (c.now < until ==> FullUntil(z', log, c.now, windowMs, limit, until))
  {
    var kept := Purge(Live(z, c.now), c.now - windowMs);
    KeptIsRecent(z, log, last, windowMs, c.now, kept);
    var m :| m in z.scores && z.scores[m] + windowMs == until;
    if c.now < until {
      assert kept == z.scores;
    } else {
      assert m !in kept;
      SubsetCount(kept.Keys, z.scores.Keys);
    }
  }

  /** After a denial, `oldest + window_ms` is exact whoever calls in between:
      everything before it is denied and the first call from then on is admitted. */
  lemma {:induction false} ResetIsExact(z: ZSet, log: Log, used: set<string>, last: int,
                                        windowMs: int, limit: nat, until: int, calls: seq<Call>)
    requires windowMs > 0 && FullUntil(z, log, last, windowMs, limit, until)
    requires log.Keys <= used && Continues(used, last, calls)
    ensures OpensExactlyAt(calls, Run(z, windowMs, limit, calls).1, true, until)
    decreases |calls|
  {
    hide FullUntil, Step;
    RunLength(z, windowMs, limit, calls);
    if calls != [] {
      var c, rest := calls[0], calls[1..];
      var z' := Step(z, windowMs, limit, c).0;
      FullStep(z, log, last, windowMs, limit, until, c);
      assert Run(z, windowMs, limit, calls).1[1..] == Run(z', windowMs, limit, rest).1;
      if c.now < until {
        ResetIsExact(z', log, used + {c.id}, c.now, windowMs, limit, until, rest);
      }
    }
  }

  lemma {:induction false} RunLength(z: ZSet, windowMs: int, limit: nat, calls: seq<Call>)
    ensures |Run(z, windowMs, limit, calls).1| == |calls|
    decreases |calls|
  {
    if calls != [] {
      RunLength(Step(z, windowMs, limit, calls[0]).0, windowMs, limit, calls[1..]);
    }
  }
}
