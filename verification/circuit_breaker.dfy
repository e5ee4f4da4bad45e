/** The circuit breaker shared through Redis, one plugin call per step. */
module CircuitBreaker {
  import opened ExpiringCounter

  /** All positive: the plugin replaces anything else by its default. */
  datatype Config = Config(threshold: int, timeoutSec: int, halfOpenMax: int, windowSec: int, errThreshold: int) {
    predicate Valid() {
      threshold > 0 && timeoutSec > 0 && halfOpenMax > 0 && windowSec > 0 && errThreshold > 0
    }
  }

  datatype Phase = Closed | Open | HalfOpen

  /** The keys of one API; `openAt` is in seconds and 0 when absent. */
  datatype Keys = Keys(phase: Phase, openAt: int, fail: Counter, total: Counter, half: Counter)

  const FRESH := Keys(Closed, 0, NONE, NONE, NONE)

  /** A plugin call: status 0 before the upstream has answered; `probe` says that the
      request carries the header of a half-open probe. */
  datatype Call = Call(now: int, status: int, probe: bool)

  datatype Outcome = Passed | PassedHalfOpen | PassedProbe | Refused | RefusedProbe

  predicate Passes(o: Outcome) {
    !o.Refused? && !o.RefusedProbe?
  }

  /** Integer division rounds towards zero, and both operands are nonnegative. */
  predicate Trips(cfg: Config, fails: nat, total: nat) {
    fails >= cfg.threshold || (if total > 0 then fails * 100 / total else 0) >= cfg.errThreshold
  }

  function Step(k: Keys, cfg: Config, c: Call): (Keys, Outcome) {
    match k.phase
    case Open =>
      if c.now / 1000 - k.openAt >= cfg.timeoutSec then
        (k.(phase := HalfOpen, half := NONE), PassedHalfOpen)
      else (k, Refused)
    case HalfOpen =>
      var half := Bump(k.half, c.now, cfg.timeoutSec * 1000);
      (k.(half := half), if half.count > cfg.halfOpenMax then RefusedProbe else PassedProbe)
    case Closed =>
      if c.status == 0 then (k, Passed)
      else
        var total := Bump(k.total, c.now, cfg.windowSec * 1000);
        if c.status >= 500 then
          var fail := Bump(k.fail, c.now, cfg.windowSec * 1000);
          if Trips(cfg, fail.count, total.count) then
            (k.(phase := Open, openAt := c.now / 1000, fail := NONE, total := NONE), Passed)
          else (k.(fail := fail, total := total), Passed)
        else if c.probe then (FRESH, Passed)
        else (k.(total := total), Passed)
  }

  /** The plugin, on keys that other gateways share. */
  class Breaker {
    var phase: Phase
    var openAt: int
    var fail: Counter
    var total: Counter
    var half: Counter

    constructor ()
      ensures View() == FRESH
    {
      phase, openAt, fail, total, half := Closed, 0, NONE, NONE, NONE;
    }

    function View(): Keys
      reads this
    {
      Keys(phase, openAt, fail, total, half)
    }

    method Execute(cfg: Config, c: Call) returns (o: Outcome)
      modifies this
      ensures (View(), o) == Step(old(View()), cfg, c)
    {
      match phase {
        case Open =>
          if c.now / 1000 - openAt >= cfg.timeoutSec {
            phase := HalfOpen;
            half := NONE;
            return PassedHalfOpen;
          }
          return Refused;
        case HalfOpen =>
          half := Bump(half, c.now, cfg.timeoutSec * 1000);
          if half.count > cfg.halfOpenMax {
            return RefusedProbe;
          }
          return PassedProbe;
        case Closed =>
          if c.status == 0 {
            return Passed;
          }
          total := Bump(total, c.now, cfg.windowSec * 1000);
          if c.status >= 500 {
            fail := Bump(fail, c.now, cfg.windowSec * 1000);
            var failRate := 0;
            if total.count > 0 {
              failRate := fail.count * 100 / total.count;
            }
            if fail.count >= cfg.threshold || failRate >= cfg.errThreshold {
              phase := Open;
              openAt := c.now / 1000;
              fail, total := NONE, NONE;
            }
          } else if c.probe {
            phase := Closed;
            fail, total, half, openAt := NONE, NONE, NONE, 0;
          }
          return Passed;
      }
    }
  }

  // ---- Whole runs ----------------------------------------------------------

  function Run(k: Keys, cfg: Config, calls: seq<Call>): (Keys, seq<Outcome>)
    decreases |calls|
  {
    if calls == [] then (k, [])
    else
      var (k', o) := Step(k, cfg, calls[0]);
      var (k'', os) := Run(k', cfg, calls[1..]);
      (k'', [o] + os)
  }

  predicate Timed(last: int, calls: seq<Call>)
    decreases |calls|
  {
    calls == [] || (last <= calls[0].now && Timed(calls[0].now, calls[1..]))
  }

  // ---- Closed --------------------------------------------------------------

  /** A probe that has succeeded. */
  predicate Resets(c: Call) {
    c.probe && c.status != 0 && c.status < 500
  }

  /** The responses recorded since the last successful probe. */
  function Posts(calls: seq<Call>): seq<int>
    decreases |calls|
  {
    if calls == [] || Resets(calls[|calls| - 1]) then []
    else
      var c := calls[|calls| - 1];
      Posts(calls[..|calls| - 1]) + if c.status == 0 then [] else [c.now]
  }

  function Failures(calls: seq<Call>): seq<int>
    decreases |calls|
  {
    if calls == [] || Resets(calls[|calls| - 1]) then []
    else
      var c := calls[|calls| - 1];
      Failures(calls[..|calls| - 1]) + if c.status >= 500 then [c.now] else []
  }

  /** The failing call `c` after `calls` trips the breaker, judged from the calls alone:
      the streak of failures reaches the threshold, or is too large a share of the
      streak of responses. */
  predicate TripsAfter(cfg: Config, calls: seq<Call>, c: Call) {
    c.status >= 500
    && Trips(cfg, Streak(Failures(calls + [c]), cfg.windowSec * 1000, c.now),
                  Streak(Posts(calls + [c]), cfg.windowSec * 1000, c.now))
  }

  /** No call of the run tripped the breaker. */
  predicate Quiet(cfg: Config, calls: seq<Call>)
    decreases |calls|
  {
    calls == [] ||
    var rest, c := calls[..|calls| - 1], calls[|calls| - 1];
    Quiet(cfg, rest) && !TripsAfter(cfg, rest, c)
  }

  lemma SnocParts(calls: seq<Call>, c: Call)
    ensures (calls + [c])[..|calls|] == calls
    ensures Posts(calls + [c]) == if Resets(c) then [] else Posts(calls) + if c.status == 0 then [] else [c.now]
    ensures Failures(calls + [c]) == if Resets(c) then [] else Failures(calls) + if c.status >= 500 then [c.now] else []
  {
    assert (calls + [c])[..|calls|] == calls;
  }

  function StateAfter(cfg: Config, calls: seq<Call>): Keys
    decreases |calls|
  {
    if calls == [] then FRESH
    else Step(StateAfter(cfg, calls[..|calls| - 1]), cfg, calls[|calls| - 1]).0
  }

  /** While the breaker stays closed its two counters are the streaks of the calls. */
  lemma {:induction false} QuietCounters(cfg: Config, calls: seq<Call>)
    requires cfg.Valid() && Quiet(cfg, calls)
    ensures StateAfter(cfg, calls) == Keys(Closed, 0, Bumps(Failures(calls), cfg.windowSec * 1000),
                                           Bumps(Posts(calls), cfg.windowSec * 1000), NONE)
    decreases |calls|
  {
    if calls != [] {
      var rest, c := calls[..|calls| - 1], calls[|calls| - 1];
      assert calls == rest + [c];
      QuietCounters(cfg, rest);
      SnocParts(rest, c);
      StepCounts(cfg, rest, c);
      assert Bumps([], cfg.windowSec * 1000) == NONE;
      hide Bumps, Streak, Posts, Failures;
    }
  }

  /** While the breaker stays closed every call passes. */
  lemma QuietPasses(cfg: Config, calls: seq<Call>, c: Call)
    requires cfg.Valid() && Quiet(cfg, calls)
    ensures Step(StateAfter(cfg, calls), cfg, c).1 == Passed
  {
    QuietCounters(cfg, calls);
  }

  lemma StepCounts(cfg: Config, calls: seq<Call>, c: Call)
    requires cfg.Valid()
    ensures var w := cfg.windowSec * 1000;
            var posts, posts' := Posts(calls), Posts(calls + [c]);
            var fails, fails' := Failures(calls), Failures(calls + [c]);
            && posts' == (if Resets(c) then [] else if c.status == 0 then posts else posts + [c.now])
            && fails' == (if Resets(c) then [] else if c.status >= 500 then fails + [c.now] else fails)
            && Bumps(posts + [c.now], w) == Bump(Bumps(posts, w), c.now, w)
            && Bumps(fails + [c.now], w) == Bump(Bumps(fails, w), c.now, w)
            && Bumps(posts + [c.now], w).count == Streak(posts + [c.now], w, c.now)
            && Bumps(fails + [c.now], w).count == Streak(fails + [c.now], w, c.now)
  {
    var w := cfg.windowSec * 1000;
    SnocParts(calls, c);
    BumpsAppend(Posts(calls), w, c.now);
    BumpsAppend(Failures(calls), w, c.now);
    CountIsStreak(Posts(calls), w, c.now);
    CountIsStreak(Failures(calls), w, c.now);
  }

  /** The breaker opens at exactly the first call that trips it. */
  lemma OpensExactlyWhenTripped(cfg: Config, calls: seq<Call>, c: Call)
    requires cfg.Valid() && Quiet(cfg, calls)
    ensures StateAfter(cfg, calls + [c]).phase == Open <==> TripsAfter(cfg, calls, c)
  {
    QuietCounters(cfg, calls);
    SnocParts(calls, c);
    StepCounts(cfg, calls, c);
    hide Bumps, Streak, Posts, Failures, Quiet;
    assert StateAfter(cfg, calls + [c]) == Step(StateAfter(cfg, calls), cfg, c).0;
  }

  /** One failure opens a fresh breaker unless its error rate exceeds 100 percent,
      whatever threshold above 1 is configured. */
  lemma FirstFailureOpens(cfg: Config, now: int, status: int)
    requires cfg.Valid() && status >= 500
    ensures Step(FRESH, cfg, Call(now, status, false)).0.phase == Open <==>
            cfg.threshold == 1 || cfg.errThreshold <= 100
  {}

  /** The live failures are some of the live responses, fewer than the threshold and
      below the error rate. */
  predicate Safe(k: Keys, cfg: Config, now: int) {
    var fails, total := Live(k.fail, now), Live(k.total, now);
    fails <= total && !Trips(cfg, fails, total)
  }

  /** Every reachable closed breaker is safe, although the counters expire separately. */
  predicate ClosedSafe(k: Keys, cfg: Config, last: int) {
    k.phase == Closed ==>
      && (k.fail.count > 0 ==> k.fail.deadline <= k.total.deadline <= last + cfg.windowSec * 1000)
      && Safe(k, cfg, last)
  }

  lemma TripsByProduct(cfg: Config, fails: nat, total: nat)
    requires cfg.Valid()
    ensures Trips(cfg, fails, total) <==>
            fails >= cfg.threshold || (total > 0 && fails * 100 >= cfg.errThreshold * total)
  {
    if total > 0 {
      Rate(fails * 100, total, cfg.errThreshold);
    }
  }

  lemma Rate(n: nat, t: int, e: int)
    requires t > 0
    ensures n / t >= e <==> n >= e * t
  {
    var q := n / t;
    assert q * t <= n < (q + 1) * t by {
      assert n == q * t + n % t;
    }
    assert q >= e ==> q * t >= e * t;
    assert q + 1 <= e ==> (q + 1) * t <= e * t;
  }

  /** The gateway's own breaker divides before it multiplies, and rounds at the end; without
      rounding in between it computes the same rate. */
  lemma SameRate(fails: nat, total: nat)
    requires total > 0
    ensures (fails as real / total as real * 100.0).Floor == fails * 100 / total
  {
    var x, q := fails as real / total as real * 100.0, fails * 100 / total;
    assert x * total as real == (fails * 100) as real;
    Rate(fails * 100, total, q);
    Rate(fails * 100, total, q + 1);
    assert q as real <= x by {
      assert (q * total) as real == q as real * total as real;
      assert x < q as real ==> (x - q as real) * total as real < 0.0;
    }
    assert x < (q + 1) as real by {
      assert ((q + 1) * total) as real == (q + 1) as real * total as real;
      assert x >= (q + 1) as real ==> (x - (q + 1) as real) * total as real >= 0.0;
    }
  }

  lemma SafeLater(k: Keys, cfg: Config, last: int, now: int)
    requires cfg.Valid() && ClosedSafe(k, cfg, last) && last <= now && k.phase == Closed
    ensures Safe(k, cfg, now)
  {
    TripsByProduct(cfg, Live(k.fail, last), Live(k.total, last));
    TripsByProduct(cfg, Live(k.fail, now), Live(k.total, now));
    hide Trips;
    if Live(k.fail, now) == 0 && Live(k.total, now) > 0 {
      assert cfg.errThreshold * Live(k.total, now) > 0;
    }
  }

  lemma StepKeepsSafe(k: Keys, cfg: Config, last: int, c: Call)
    requires cfg.Valid() && ClosedSafe(k, cfg, last) && last <= c.now
    ensures ClosedSafe(Step(k, cfg, c).0, cfg, c.now)
  {
    if k.phase == Closed {
      SafeLater(k, cfg, last, c.now);
      var fails, total := Live(k.fail, c.now), Live(k.total, c.now);
      TripsByProduct(cfg, fails, total);
      TripsByProduct(cfg, fails, total + 1);
      TripsByProduct(cfg, 0, 0);
      assert cfg.errThreshold * (total + 1) == cfg.errThreshold * total + cfg.errThreshold;
      hide Trips;
    }
  }

  lemma {:induction false} EveryReachableStateSafe(k: Keys, cfg: Config, last: int, calls: seq<Call>)
    requires cfg.Valid() && ClosedSafe(k, cfg, last) && Timed(last, calls)
    ensures var end := if calls == [] then last else calls[|calls| - 1].now;
            ClosedSafe(Run(k, cfg, calls).0, cfg, end)
    decreases |calls|
  {
    if calls != [] {
      StepKeepsSafe(k, cfg, last, calls[0]);
      EveryReachableStateSafe(Step(k, cfg, calls[0]).0, cfg, calls[0].now, calls[1..]);
    }
  }

  lemma EveryFreshRunSafe(cfg: Config, start: int, calls: seq<Call>)
    requires cfg.Valid() && Timed(start, calls)
    ensures var end := if calls == [] then start else calls[|calls| - 1].now;
            var k := Run(FRESH, cfg, calls).0;
            k.phase == Closed ==> forall now :: end <= now ==> Safe(k, cfg, now)
  {
    EveryReachableStateSafe(FRESH, cfg, start, calls);
    var end := if calls == [] then start else calls[|calls| - 1].now;
    var k := Run(FRESH, cfg, calls).0;
    hide Run, Step;
    if k.phase == Closed {
      forall now | end <= now ensures Safe(k, cfg, now) {
        SafeLater(k, cfg, end, now);
      }
    }
  }

  // ---- Open and half-open --------------------------------------------------

  /** For the whole timeout after opening every call is refused and nothing changes. */
  lemma {:induction false} OpenRefusesAll(k: Keys, cfg: Config, calls: seq<Call>)
    requires k.phase == Open
    requires forall c :: c in calls ==> c.now / 1000 < k.openAt + cfg.timeoutSec
    ensures var (k', os) := Run(k, cfg, calls);
            k' == k && |os| == |calls| && forall o :: o in os ==> o == Refused
    decreases |calls|
  {
    if calls != [] {
      OpenRefusesAll(k, cfg, calls[1..]);
    }
  }

  /** A breaker that has opened never closes again: half-open is a state that no call
      leaves, whatever the upstream answers. */
  lemma {:induction false} NeverCloses(k: Keys, cfg: Config, calls: seq<Call>)
    requires k.phase != Closed
    ensures var k' := Run(k, cfg, calls).0;
            && k'.phase != Closed
            && (k.phase == HalfOpen ==> k'.phase == HalfOpen)
            && k'.openAt == k.openAt
    decreases |calls|
  {
    if calls != [] {
      NeverCloses(Step(k, cfg, calls[0]).0, cfg, calls[1..]);
    }
  }

  function Times(calls: seq<Call>): seq<int> {
    seq(|calls|, i requires 0 <= i < |calls| => calls[i].now)
  }

  function PassedOf(os: seq<Outcome>): seq<bool> {
    seq(|os|, i requires 0 <= i < |os| => Passes(os[i]))
  }

  /** Half-open, the breaker is a refreshing limiter of `half_open_max` probes. */
  lemma {:induction false} HalfOpenLimits(k: Keys, cfg: Config, calls: seq<Call>)
    requires k.phase == HalfOpen
    ensures var (k', os) := Run(k, cfg, calls);
            var (half, oks) := Decisions(k.half, cfg.timeoutSec * 1000, cfg.halfOpenMax, Times(calls));
            k' == k.(half := half) && |os| == |calls| && PassedOf(os) == oks
    decreases |calls|
  {
    if calls != [] {
      var (k', o) := Step(k, cfg, calls[0]);
      HalfOpenLimits(k', cfg, calls[1..]);
      assert Times(calls)[1..] == Times(calls[1..]);
      var os := Run(k', cfg, calls[1..]).1;
      assert PassedOf([o] + os) == [Passes(o)] + PassedOf(os);
    }
  }

  /** From the call that ends the timeout on, as long as calls stay less than the
      timeout apart: that call and the next `half_open_max` pass, and no other ever. */
  lemma HalfOpenBudget(k: Keys, cfg: Config, first: Call, calls: seq<Call>)
    requires cfg.Valid() && k.phase == Open && first.now / 1000 - k.openAt >= cfg.timeoutSec
    requires Steady(first.now, cfg.timeoutSec * 1000, Times(calls))
    ensures Step(k, cfg, first).1 == PassedHalfOpen
    ensures var (k', os) := Run(Step(k, cfg, first).0, cfg, calls);
            && k'.phase == HalfOpen
            && PassedOf(os) == seq(|calls|, i => i < cfg.halfOpenMax)
  {
    HalfOpenLimits(Step(k, cfg, first).0, cfg, calls);
    SteadyFromNone(cfg.timeoutSec * 1000, cfg.halfOpenMax, first.now, Times(calls));
  }

  // ---- From closed to half-open --------------------------------------------

  lemma {:induction false} RunSplit(k: Keys, cfg: Config, a: seq<Call>, b: seq<Call>)
    ensures var (k1, os1) := Run(k, cfg, a);
            var (k2, os2) := Run(k1, cfg, b);
            Run(k, cfg, a + b) == (k2, os1 + os2) && |os1| == |a|
    decreases |a|
  {
    if a == [] {
      assert a + b == b;
      assert [] + Run(k, cfg, b).1 == Run(k, cfg, b).1;
    } else {
      var (k', o) := Step(k, cfg, a[0]);
      RunSplit(k', cfg, a[1..], b);
      assert (a + b)[1..] == a[1..] + b;
      var (k1, os1) := Run(k', cfg, a[1..]);
      var os2 := Run(k1, cfg, b).1;
      assert [o] + (os1 + os2) == [o] + os1 + os2;
    }
  }

  function Repeat<T>(n: nat, x: T): seq<T> {
    seq(n, _ => x)
  }

  lemma {:induction false} QuietRun(cfg: Config, calls: seq<Call>)
    requires cfg.Valid() && Quiet(cfg, calls)
    ensures Run(FRESH, cfg, calls) == (StateAfter(cfg, calls), Repeat(|calls|, Passed))
    decreases |calls|
  {
    if calls != [] {
      var rest, c := calls[..|calls| - 1], calls[|calls| - 1];
      assert calls == rest + [c];
      QuietRun(cfg, rest);
      QuietPasses(cfg, rest, c);
      RunSplit(FRESH, cfg, rest, [c]);
      OneCall(StateAfter(cfg, rest), cfg, c);
      assert Repeat(|rest|, Passed) + [Passed] == Repeat(|calls|, Passed);
    } else {
      assert Run(FRESH, cfg, calls) == (FRESH, []);
      assert Repeat(|calls|, Passed) == [];
    }
  }

  lemma OneCall(k: Keys, cfg: Config, c: Call)
    ensures Run(k, cfg, [c]) == (Step(k, cfg, c).0, [Step(k, cfg, c).1])
  {
    var (k', o) := Step(k, cfg, c);
    assert [c][1..] == [] && Run(k', cfg, []) == (k', []);
    assert [o] + [] == [o];
  }

  /** The life of a breaker, told by its calls alone: as long as nothing trips it every call
      passes, and so does the one that does. For the whole timeout from that call on every
      call is refused and changes nothing. The first call after that passes, and then
      half_open_max more, and no other while calls stay less than the timeout apart. */
  lemma Life(cfg: Config, quiet: seq<Call>, trip: Call, refused: seq<Call>, first: Call, probes: seq<Call>)
    requires cfg.Valid() && Quiet(cfg, quiet) && TripsAfter(cfg, quiet, trip)
    requires forall c :: c in refused ==> c.now / 1000 - trip.now / 1000 < cfg.timeoutSec
    requires first.now / 1000 - trip.now / 1000 >= cfg.timeoutSec
    requires Steady(first.now, cfg.timeoutSec * 1000, Times(probes))
    ensures Run(FRESH, cfg, quiet + [trip]).1 == Repeat(|quiet| + 1, Passed)
    ensures var k := Run(FRESH, cfg, quiet + [trip]).0;
            && Run(k, cfg, refused) == (k, Repeat(|refused|, Refused))
            && Step(k, cfg, first).1 == PassedHalfOpen
            && PassedOf(Run(Step(k, cfg, first).0, cfg, probes).1) == seq(|probes|, i => i < cfg.halfOpenMax)
  {
    hide *;
    var k := TrippedRun(cfg, quiet, trip);
    Refusals(k, cfg, trip, refused);
    HalfOpenBudget(k, cfg, first, probes);
  }

  lemma Refusals(k: Keys, cfg: Config, trip: Call, refused: seq<Call>)
    requires k.phase == Open && k.openAt == trip.now / 1000
    requires forall c :: c in refused ==> c.now / 1000 - trip.now / 1000 < cfg.timeoutSec
    ensures Run(k, cfg, refused) == (k, Repeat(|refused|, Refused))
  {
    OpenRefusesAll(k, cfg, refused);
    var os := Run(k, cfg, refused).1;
    assert forall i :: 0 <= i < |os| ==> os[i] in os;
    assert os == Repeat(|refused|, Refused);
  }

  lemma TrippedRun(cfg: Config, quiet: seq<Call>, trip: Call) returns (k: Keys)
    requires cfg.Valid() && Quiet(cfg, quiet) && TripsAfter(cfg, quiet, trip)
    ensures Run(FRESH, cfg, quiet + [trip]) == (k, Repeat(|quiet| + 1, Passed))
    ensures k.phase == Open && k.openAt == trip.now / 1000
  {
    k := TrippedAt(cfg, quiet, trip);
    QuietRun(cfg, quiet);
    QuietPasses(cfg, quiet, trip);
    RunSplit(FRESH, cfg, quiet, [trip]);
    OneCall(StateAfter(cfg, quiet), cfg, trip);
    assert Repeat(|quiet|, Passed) + [Passed] == Repeat(|quiet| + 1, Passed);
  }

  /** The breaker notes when it was tripped. */
  lemma TrippedAt(cfg: Config, quiet: seq<Call>, trip: Call) returns (k: Keys)
    requires cfg.Valid() && Quiet(cfg, quiet) && TripsAfter(cfg, quiet, trip)
    ensures k == Step(StateAfter(cfg, quiet), cfg, trip).0 && k.phase == Open && k.openAt == trip.now / 1000
  {
    k := Step(StateAfter(cfg, quiet), cfg, trip).0;
    QuietCounters(cfg, quiet);
    SnocParts(quiet, trip);
    StepCounts(cfg, quiet, trip);
    hide Bumps, Streak, Posts, Failures, Quiet;
  }
}
