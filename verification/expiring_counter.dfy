/** A Redis counter that is incremented and whose expiry is set again on every
    increment, as the login limiter and the circuit breaker use it. */
module ExpiringCounter {
  /** The counter's value and expiry time; one that never was, or was deleted, is NONE. */
  datatype Counter = Counter(count: nat, deadline: int)

  const NONE := Counter(0, 0)

  function Live(c: Counter, now: int): nat {
    if now < c.deadline then c.count else 0
  }

  /** INCR followed by EXPIRE */
  function Bump(c: Counter, now: int, ttl: int): Counter {
    Counter(Live(c, now) + 1, now + ttl)
  }

  function Bumps(times: seq<int>, ttl: int): Counter {
    if times == [] then NONE
    else Bump(Bumps(times[..|times| - 1], ttl), times[|times| - 1], ttl)
  }

  /** How many of `times` belong to the streak that is still going on at `now`: going
      back from `now`, the increments until the first pause as long as `ttl`. */
  function Streak(times: seq<int>, ttl: int, now: int): nat {
    if times == [] || times[|times| - 1] + ttl <= now then 0
    else 1 + Streak(times[..|times| - 1], ttl, times[|times| - 1])
  }

  /** The counter never counts a window: it counts the streak. */
  lemma {:induction false} CountIsStreak(times: seq<int>, ttl: int, now: int)
    ensures Live(Bumps(times, ttl), now) == Streak(times, ttl, now)
  {
    if times != [] {
      CountIsStreak(times[..|times| - 1], ttl, times[|times| - 1]);
    }
  }

  lemma BumpsAppend(times: seq<int>, ttl: int, now: int)
    ensures Bumps(times + [now], ttl) == Bump(Bumps(times, ttl), now, ttl)
    ensures ttl > 0 ==> Streak(times + [now], ttl, now) == 1 + Streak(times, ttl, now)
  {
    assert (times + [now])[..|times|] == times;
  }

  /** A limiter that bumps on every request and admits while the count is small. */
  function Decisions(c: Counter, ttl: int, max: int, times: seq<int>): (Counter, seq<bool>)
    decreases |times|
  {
    if times == [] then (c, [])
    else
      var c' := Bump(c, times[0], ttl);
      var (c'', oks) := Decisions(c', ttl, max, times[1..]);
      (c'', [c'.count <= max] + oks)
  }

  /** Every request comes less than `ttl` after the one before it. */
  predicate Steady(last: int, ttl: int, times: seq<int>)
    decreases |times|
  {
    times == [] || (last <= times[0] < last + ttl && Steady(times[0], ttl, times[1..]))
  }

  /** Under steady traffic the counter never starts again: however long it lasts,
      exactly the first `max` requests of the streak are admitted. */
  lemma {:induction false} SteadyTrafficNeverResets(c: Counter, ttl: int, max: int, last: int, times: seq<int>)
    requires c.deadline == last + ttl && Steady(last, ttl, times)
    ensures var (c', oks) := Decisions(c, ttl, max, times);
            && c'.count == c.count + |times|
            && oks == seq(|times|, i => c.count + i + 1 <= max)
    decreases |times|
  {
    if times != [] {
      var c' := Bump(c, times[0], ttl);
      SteadyTrafficNeverResets(c', ttl, max, times[0], times[1..]);
      assert times == [times[0]] + times[1..];
    }
  }

  lemma SteadyFromNone(ttl: int, max: int, last: int, times: seq<int>)
    requires Steady(last, ttl, times)
    ensures Decisions(NONE, ttl, max, times).1 == seq(|times|, i => i < max)
  {
    if times != [] {
      SteadyTrafficNeverResets(Bump(NONE, times[0], ttl), ttl, max, times[0], times[1..]);
    }
  }

  /** The same decisions made by looking back at the streak each request belongs to. */
  function StreakDecisions(history: seq<int>, ttl: int, max: int, times: seq<int>): seq<bool>
    decreases |times|
  {
    if times == [] then []
    else
      var seen := history + [times[0]];
      [Streak(seen, ttl, times[0]) <= max] + StreakDecisions(seen, ttl, max, times[1..])
  }

  lemma {:induction false} DecidedByStreak(history: seq<int>, ttl: int, max: int, times: seq<int>)
    requires ttl > 0
    ensures var (c', oks) := Decisions(Bumps(history, ttl), ttl, max, times);
            c' == Bumps(history + times, ttl) && oks == StreakDecisions(history, ttl, max, times)
    decreases |times|
  {
    if times == [] {
      assert history + times == history;
    } else {
      var t := times[0];
      BumpsAppend(history, ttl, t);
      CountIsStreak(history, ttl, t);
      DecidedByStreak(history + [t], ttl, max, times[1..]);
      assert history + [t] + times[1..] == history + times;
    }
  }
}
