/** The auth service's limiter on login attempts. */
module LoginLimiter {
  import opened ExpiringCounter

  const WINDOW_MS := 60000

  class RateLimitStore {
    var counters: map<string, Counter>

    constructor ()
      ensures counters == map[]
    {
      counters := map[];
    }

    function At(key: string): Counter
      reads this
    {
      if key in counters then counters[key] else NONE
    }

    method Allow(key: string, maxRequests: int, now: int) returns (ok: bool)
      modifies this
      ensures ([ok] == Decisions(old(At(key)), WINDOW_MS, maxRequests, [now]).1)
      ensures At(key) == Decisions(old(At(key)), WINDOW_MS, maxRequests, [now]).0
      ensures forall k :: k != key ==> At(k) == old(At(k))
    {
      var live := if key in counters && now < counters[key].deadline then counters[key].count else 0;
      counters := counters[key := Counter(live + 1, 0)];
      counters := counters[key := counters[key].(deadline := now + WINDOW_MS)];
      ok := counters[key].count <= maxRequests;
    }
  }

  /** The number of attempts made in the minute that ends at `now`. */
  function LastMinute(times: seq<int>, now: int): nat {
    if times == [] then 0
    else LastMinute(times[..|times| - 1], now) + if now - WINDOW_MS < times[|times| - 1] <= now then 1 else 0
  }

  /** The limiter is not the per-minute limiter it is described as: three attempts
      half a minute apart are refused a limit of two although no minute holds more
      than two of them. */
  lemma NotPerMinute()
    ensures var times := [0, 30000, 60000];
            && Decisions(NONE, WINDOW_MS, 2, times).1 == [true, true, false]
            && forall i :: 0 <= i < |times| ==> LastMinute(times[..i + 1], times[i]) <= 2
  {
    var times := [0, 30000, 60000];
    var c1 := Bump(NONE, 0, WINDOW_MS);
    var c2 := Bump(c1, 30000, WINDOW_MS);
    assert times[1..] == [30000, 60000] && times[1..][1..] == [60000];
    assert Decisions(c2, WINDOW_MS, 2, [60000]).1 == [false];
    assert Decisions(c1, WINDOW_MS, 2, [30000, 60000]).1 == [true, false];
    forall i | 0 <= i < |times| ensures LastMinute(times[..i + 1], times[i]) <= 2 {
      AtMost(times[..i + 1], times[i]);
    }
  }

  lemma AtMost(times: seq<int>, now: int)
    requires times == [0] || times == [0, 30000] || (times == [0, 30000, 60000] && now == 60000)
    ensures LastMinute(times, now) <= 2
  {
    if |times| == 3 {
      assert times[..2] == [0, 30000] && times[..2][..1] == [0];
    } else if |times| == 2 {
      assert times[..1] == [0];
    }
  }

  /** Oldest first, none later than `now`. */
  predicate History(times: seq<int>, now: int) {
    && (forall i, j :: 0 <= i < j < |times| ==> times[i] <= times[j])
    && (forall i :: 0 <= i < |times| ==> times[i] <= now)
  }

  /** The limiter is never laxer than a per-minute one, and counts the same exactly when
      the minute holds no attempt, or all of them, or a pause of a minute came before the
      first of those it holds. */
  lemma StricterThanPerMinute(times: seq<int>, now: int)
    requires History(times, now)
    ensures var m := LastMinute(times, now);
            && m <= Streak(times, WINDOW_MS, now) <= |times|
            && (m == Streak(times, WINDOW_MS, now) <==>
                  m == 0 || m == |times| || times[|times| - m - 1] + WINDOW_MS <= times[|times| - m])
  {
    var m := LastMinute(times, now);
    StreakCoversMinute(times, now);
    if m < |times| {
      StreakReaches(times, now, m + 1);
      MinuteIsASuffix(times, now, m);
      MinuteIsASuffix(times, now, m + 1);
      if m > 0 {
        StreakReaches(times, now, m);
      }
    }
  }

  /** The last `n` attempts come without a pause of a minute, up to `now`. */
  predicate NoPause(times: seq<int>, now: int, n: nat)
    requires n <= |times|
  {
    n == 0 ||
    (now < times[|times| - 1] + WINDOW_MS
     && forall i :: |times| - n < i < |times| ==> times[i] < times[i - 1] + WINDOW_MS)
  }

  lemma {:induction false} StreakReaches(times: seq<int>, now: int, n: nat)
    requires n <= |times|
    ensures n <= Streak(times, WINDOW_MS, now) <==> NoPause(times, now, n)
  {
    if n > 0 {
      var rest, t := times[..|times| - 1], times[|times| - 1];
      StreakReaches(rest, t, n - 1);
      if n > 1 {
        assert NoPause(rest, t, n - 1) <==>
               forall i :: |times| - n < i < |times| ==> times[i] < times[i - 1] + WINDOW_MS;
      }
    }
  }

  // ---- The decisions -------------------------------------------------------

  predicate Rising(times: seq<int>) {
    forall i, j :: 0 <= i < j < |times| ==> times[i] <= times[j]
  }

  function Last(times: seq<int>): int
    requires times != []
  {
    times[|times| - 1]
  }

  /** The decisions of a limiter that admits an attempt when `count`, of all attempts up
      to and with it, is at most `max`. Like the code it counts refused attempts. */
  function Judged(history: seq<int>, max: int, times: seq<int>, count: seq<int> -> int): seq<bool>
    decreases |times|
  {
    if times == [] then []
    else
      var seen := history + [times[0]];
      [count(seen) <= max] + Judged(seen, max, times[1..], count)
  }

  /** On no attempt of the run the two decide differently. */
  ghost predicate Nowhere(history: seq<int>, times: seq<int>, bad: seq<int> -> bool) {
    forall n :: |history| < n <= |history| + |times| ==> !bad((history + times)[..n])
  }

  /** `bad` says on which attempts the limiter and one that goes by `count` differ. */
  ghost predicate DiffersOn(max: int, count: seq<int> -> int, bad: seq<int> -> bool) {
    forall seen :: seen != [] && Rising(seen) ==>
      ((Streak(seen, WINDOW_MS, Last(seen)) <= max <==> count(seen) <= max) <==> !bad(seen))
  }

  lemma NextNowhere(history: seq<int>, t: int, rest: seq<int>, bad: seq<int> -> bool)
    ensures Nowhere(history, [t] + rest, bad) <==>
            !bad(history + [t]) && Nowhere(history + [t], rest, bad)
  {
    var all, seen := history + ([t] + rest), history + [t];
    assert all == seen + rest && all[..|seen|] == seen;
  }

  lemma NextRising(history: seq<int>, times: seq<int>)
    requires times != [] && Rising(history + times)
    ensures var seen := history + [times[0]];
            Rising(seen + times[1..]) && Rising(seen)
  {
    var seen := history + [times[0]];
    assert seen + times[1..] == history + times;
    assert forall i :: 0 <= i < |seen| ==> seen[i] == (history + times)[i];
  }

  lemma NextDecisions(history: seq<int>, max: int, times: seq<int>, count: seq<int> -> int)
    requires times != []
    ensures var rest, seen := times[1..], history + [times[0]];
            StreakDecisions(history, WINDOW_MS, max, times) == Judged(history, max, times, count) <==>
            (Streak(seen, WINDOW_MS, times[0]) <= max <==> count(seen) <= max)
            && StreakDecisions(seen, WINDOW_MS, max, rest) == Judged(seen, max, rest, count)
  {
    var rest, seen := times[1..], history + [times[0]];
    var a, b := StreakDecisions(seen, WINDOW_MS, max, rest), Judged(seen, max, rest, count);
    var x, y := Streak(seen, WINDOW_MS, times[0]) <= max, count(seen) <= max;
    assert StreakDecisions(history, WINDOW_MS, max, times) == [x] + a;
    assert Judged(history, max, times, count) == [y] + b;
    hide *;
    assert ([x] + a)[0] == x && ([y] + b)[0] == y && ([x] + a)[1..] == a && ([y] + b)[1..] == b;
  }

  lemma {:induction false} StreaksAgreeExactly(history: seq<int>, max: int, times: seq<int>, count: seq<int> -> int,
                                               bad: seq<int> -> bool)
    requires Rising(history + times) && DiffersOn(max, count, bad)
    ensures StreakDecisions(history, WINDOW_MS, max, times) == Judged(history, max, times, count) <==>
            Nowhere(history, times, bad)
    decreases |times|
  {
    if times == [] {
      assert history + times == history;
    } else {
      var seen, rest := history + [times[0]], times[1..];
      assert times == [times[0]] + rest && Last(seen) == times[0];
      NextRising(history, times);
      NextNowhere(history, times[0], rest, bad);
      assert (Streak(seen, WINDOW_MS, times[0]) <= max <==> count(seen) <= max) <==> !bad(seen);
      hide *;
      StreaksAgreeExactly(seen, max, rest, count, bad);
      NextDecisions(history, max, times, count);
    }
  }

  lemma DecisionsAgreeExactly(max: int, times: seq<int>, count: seq<int> -> int, bad: seq<int> -> bool)
    requires Rising(times) && DiffersOn(max, count, bad)
    ensures Decisions(NONE, WINDOW_MS, max, times).1 == Judged([], max, times, count) <==>
            forall n :: 0 < n <= |times| ==> !bad(times[..n])
  {
    assert [] + times == times;
    DecidedByStreak([], WINDOW_MS, max, times);
    StreaksAgreeExactly([], max, times, count, bad);
  }

  // ---- Against the last minute ---------------------------------------------

  function InLastMinute(seen: seq<int>): int {
    if seen == [] then 0 else LastMinute(seen, Last(seen))
  }

  /** The last attempt of `seen` follows `max` others without a pause of a minute, the
      first of which is more than a minute old. */
  predicate Stretched(seen: seq<int>, max: int) {
    0 <= max < |seen| && NoPause(seen, Last(seen), max + 1) && seen[|seen| - 1 - max] + WINDOW_MS <= Last(seen)
  }

  /** A per-minute limiter decides differently exactly on such an attempt. */
  lemma DecisionsDifferExactly(seen: seq<int>, max: int)
    requires seen != [] && Rising(seen)
    ensures (Streak(seen, WINDOW_MS, Last(seen)) <= max <==> InLastMinute(seen) <= max) <==> !Stretched(seen, max)
  {
    var now := Last(seen);
    assert History(seen, now);
    StreakCoversMinute(seen, now);
    if 0 <= max < |seen| {
      StreakReaches(seen, now, max + 1);
      MinuteIsASuffix(seen, now, max + 1);
    } else if max < 0 {
      MinuteIsASuffix(seen, now, 0);
    }
  }

  /** So over a run they decide alike exactly if no attempt is stretched. */
  lemma RunsAgreeExactly(max: int, times: seq<int>)
    requires Rising(times)
    ensures Decisions(NONE, WINDOW_MS, max, times).1 == Judged([], max, times, InLastMinute) <==>
            forall n :: 0 < n <= |times| ==> !Stretched(times[..n], max)
  {
    var bad := (seen: seq<int>) => Stretched(seen, max);
    forall seen | seen != [] && Rising(seen)
      ensures (Streak(seen, WINDOW_MS, Last(seen)) <= max <==> InLastMinute(seen) <= max) <==> !bad(seen)
    {
      DecisionsDifferExactly(seen, max);
    }
    hide InLastMinute, Stretched, Decisions, Judged;
    DecisionsAgreeExactly(max, times, InLastMinute, bad);
  }

  // ---- Against a fixed window ----------------------------------------------

  /** The attempts since the fixed window of the last one began. A window begins with an
      attempt and takes a minute; the next attempt after that begins another. */
  function InFixedWindow(seen: seq<int>): (n: int)
    ensures 0 <= n <= |seen| && (seen != [] ==> n > 0)
  {
    if seen == [] then 0
    else
      var before := seen[..|seen| - 1];
      var n := InFixedWindow(before);
      if n > 0 && Last(seen) < before[|before| - n] + WINDOW_MS then n + 1 else 1
  }

  /** The counter that does that sets its expiry only with its first increment. */
  function BumpFixed(c: Counter, now: int): Counter {
    if Live(c, now) > 0 then c.(count := c.count + 1) else Counter(1, now + WINDOW_MS)
  }

  function FixedBumps(times: seq<int>): Counter {
    if times == [] then NONE else BumpFixed(FixedBumps(times[..|times| - 1]), Last(times))
  }

  lemma {:induction false} FixedCounterCounts(times: seq<int>)
    ensures FixedBumps(times).count == InFixedWindow(times)
    ensures times != [] ==> FixedBumps(times).deadline == times[|times| - InFixedWindow(times)] + WINDOW_MS
  {
    if times != [] {
      FixedCounterCounts(times[..|times| - 1]);
    }
  }

  lemma {:induction false} StreakCoversFixed(seen: seq<int>)
    requires seen != [] && Rising(seen)
    ensures InFixedWindow(seen) <= Streak(seen, WINDOW_MS, Last(seen)) <= |seen|
  {
    var before := seen[..|seen| - 1];
    if before != [] {
      StreakCoversFixed(before);
    }
  }

  /** The fixed window of the last attempt holds at most `max`, but the attempt follows
      `max` others without a pause of a minute. */
  predicate Carried(seen: seq<int>, max: int) {
    0 <= max < |seen| && NoPause(seen, Last(seen), max + 1) && InFixedWindow(seen) <= max
  }

  /** Nor is the limiter the fixed window that its comment names: over a run they decide
      alike exactly if no attempt is carried over from an earlier window. */
  lemma FixedRunsAgreeExactly(max: int, times: seq<int>)
    requires Rising(times)
    ensures Decisions(NONE, WINDOW_MS, max, times).1 == Judged([], max, times, InFixedWindow) <==>
            forall n :: 0 < n <= |times| ==> !Carried(times[..n], max)
  {
    var bad := (seen: seq<int>) => Carried(seen, max);
    forall seen | seen != [] && Rising(seen)
      ensures (Streak(seen, WINDOW_MS, Last(seen)) <= max <==> InFixedWindow(seen) <= max) <==> !bad(seen)
    {
      StreakCoversFixed(seen);
      if 0 <= max < |seen| {
        StreakReaches(seen, Last(seen), max + 1);
      }
    }
    hide InFixedWindow, Carried, Decisions, Judged;
    DecisionsAgreeExactly(max, times, InFixedWindow, bad);
  }

  lemma {:induction false} StreakCoversMinute(times: seq<int>, now: int)
    requires History(times, now)
    ensures LastMinute(times, now) <= Streak(times, WINDOW_MS, now) <= |times|
  {
    if times != [] {
      var rest, t := times[..|times| - 1], times[|times| - 1];
      StreakCoversMinute(rest, t);
      if t + WINDOW_MS <= now {
        MinuteIsASuffix(times, now, 1);
      } else {
        Narrows(rest, t, now);
      }
    }
  }

  lemma {:induction false} MinuteIsASuffix(times: seq<int>, now: int, k: nat)
    requires History(times, now) && k <= |times|
    ensures k <= LastMinute(times, now) <==> k == 0 || now - WINDOW_MS < times[|times| - k]
  {
    if times != [] {
      var rest, t := times[..|times| - 1], times[|times| - 1];
      if k > 0 && now - WINDOW_MS < t {
        MinuteIsASuffix(rest, now, k - 1);
      } else if k > 0 {
        Older(times, now);
      }
    }
  }

  lemma {:induction false} Older(times: seq<int>, now: int)
    requires forall i :: 0 <= i < |times| ==> times[i] + WINDOW_MS <= now
    ensures LastMinute(times, now) == 0
  {
    if times != [] {
      Older(times[..|times| - 1], now);
    }
  }

  lemma {:induction false} Narrows(times: seq<int>, t: int, now: int)
    requires t <= now && forall i :: 0 <= i < |times| ==> times[i] <= t
    ensures LastMinute(times, now) <= LastMinute(times, t)
  {
    if times != [] {
      Narrows(times[..|times| - 1], t, now);
    }
  }
}
