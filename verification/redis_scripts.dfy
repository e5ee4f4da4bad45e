/** The rate-limit keyspace in Redis, and the scripts and loops that change it. */
module RedisScripts {
  import opened RequestLog
  import SW = SlidingWindow
  import FW = FixedWindow
  import TB = TokenBucket
  import WC = WindowCascade
  import opened Wrappers
  import opened RateLimitHeaders
  import opened WindowReports

  datatype Strategy = SlidingStrategy | FixedStrategy | TokenStrategy

  const PERIODS := ["rpm", "rph", "rpd"]

  function SlidingKey(period: string, subject: string): string {
    "rl:sw:" + period + ":" + subject
  }

  /** Without the window id, which indexes the counters under this prefix. */
  function FixedKey(period: string, subject: string): string {
    "rl:fw:" + period + ":" + subject
  }

  lemma KeysDiffer(prefix: string, i: nat, a: string, j: nat, b: string)
    requires i < 3 && j < 3 && (i != j || a != b) && |prefix| == 6
    ensures prefix + PERIODS[i] + ":" + a != prefix + PERIODS[j] + ":" + b
  {
    var x, y := prefix + PERIODS[i] + ":" + a, prefix + PERIODS[j] + ":" + b;
    assert x[8] == PERIODS[i][2] && y[8] == PERIODS[j][2];
    assert x[10..] == a && y[10..] == b;
  }

  class Redis {
    var zsets: map<string, SW.ZSet>
    var counters: map<string, FW.Counters>
    var buckets: map<string, TB.Bucket>

    constructor ()
      ensures zsets == map[] && counters == map[] && buckets == map[]
    {
      zsets, counters, buckets := map[], map[], map[];
    }

    function ZSetAt(key: string): SW.ZSet
      reads this`zsets
    {
      if key in zsets then zsets[key] else SW.EMPTY
    }

    function CountersAt(key: string): FW.Counters
      reads this`counters
    {
      if key in counters then counters[key] else map[]
    }

    function BucketAt(key: string): TB.Bucket
      reads this`buckets
    {
      if key in buckets then buckets[key] else TB.Absent
    }

    /** SLIDING_WINDOW */
    method SlidingWindow(key: string, windowMs: int, limit: nat, c: Call) returns (r: SW.Reply)
      modifies this`zsets
      ensures (ZSetAt(key), r) == SW.Step(old(ZSetAt(key)), windowMs, limit, c)
      ensures forall k :: k != key ==> ZSetAt(k) == old(ZSetAt(k))
    {
      var windowStart := c.now - windowMs;
      var z := ZSetAt(key);
      if z.deadline <= c.now {
        z := z.(scores := map[]);
      }
      zsets := zsets[key := z.(scores := SW.Purge(z.scores, windowStart))];
      var current := |zsets[key].scores|;
      var oldest := 0;
      if current < limit {
        zsets := zsets[key := zsets[key].(scores := zsets[key].scores[c.id := c.now])];
        zsets := zsets[key := zsets[key].(deadline := c.now + windowMs * 2)];
        r := SW.Reply(current + 1, true, oldest);
      } else {
        var scores := zsets[key].scores;
        if current > 0 {
          SW.OldestExists(scores);
          var m :| m in scores && forall n :: n in scores ==> scores[m] <= scores[n];
          oldest := scores[m];
          assert SW.IsOldest(scores, m);
        }
        r := SW.Reply(current, false, oldest);
      }
    }

    /** FIXED_WINDOW */
    method FixedWindow(key: string, windowSec: nat, limit: nat, now: int) returns (r: FW.Reply)
      requires windowSec > 0
      modifies this`counters
      ensures (CountersAt(key), r) == FW.Step(old(CountersAt(key)), windowSec, limit, now)
      ensures forall k :: k != key ==> CountersAt(k) == old(CountersAt(k))
    {
      var id := FW.WindowId(now, windowSec);
      var cs := CountersAt(key);
      if id in cs && cs[id].deadline <= now {
        cs := cs - {id};
      }
      var current := if id in cs then cs[id].count + 1 else 1;
      cs := cs[id := FW.Counter(current, if id in cs then cs[id].deadline else 0)];
      if current == 1 {
        cs := cs[id := FW.Counter(current, now + windowSec * 1000)];
      }
      counters := counters[key := cs];
      assert cs == FW.Step(old(CountersAt(key)), windowSec, limit, now).0;
      r := FW.Reply(current, current <= limit, FW.TtlSec(cs[id].deadline, now));
    }

    /** TOKEN_BUCKET */
    method TokenBucket(key: string, cfg: TB.Config, now: int) returns (r: TB.Reply)
      requires cfg.Valid()
      modifies this`buckets
      ensures (BucketAt(key), r) == TB.Step(old(BucketAt(key)), cfg, now)
      ensures forall k :: k != key ==> BucketAt(k) == old(BucketAt(k))
    {
      var data := BucketAt(key);
      if data.Bucket? && data.deadline <= now {
        data := TB.Absent;
      }
      var tokens := if data.Bucket? then data.tokens else cfg.capacity;
      var lastMs := if data.Bucket? then data.last else now;
      var elapsed := (now - lastMs) as real / 1000.0;
      var refilled := elapsed * cfg.rate;
      assert refilled == TB.Accrued(cfg, now - lastMs);
      assert data.Absent? ==> elapsed == 0.0 && refilled == 0.0;
      tokens := TB.Min(cfg.capacity, tokens + refilled);
      assert tokens == TB.Available(BucketAt(key), cfg, now);
      hide TB.Available, TB.Lifetime, TB.Accrued, TB.Ceil;
      var waitMs := 0;
      if tokens >= cfg.requested {
        tokens := tokens - cfg.requested;
        buckets := buckets[key := TB.Bucket(tokens, now, now + TB.Lifetime(cfg))];
        r := TB.Reply(tokens.Floor, true, 0);
      } else {
        waitMs := TB.Ceil((cfg.requested - tokens) / cfg.rate * 1000.0);
        buckets := buckets[key := TB.Bucket(tokens, now, now + TB.Lifetime(cfg))];
        r := TB.Reply(tokens.Floor, false, waitMs);
      }
    }

    // ---- The windows of one client -----------------------------------------

    /** The state behind a window; every strategy but the fixed window slides here. */
    ghost function KeyAt(fixed: bool, subject: string, i: nat): WC.Key
      requires i < 3
      reads this`zsets, this`counters
    {
      if fixed then WC.Fixed(CountersAt(FixedKey(PERIODS[i], subject)))
      else WC.Sliding(ZSetAt(SlidingKey(PERIODS[i], subject)))
    }

    /** What the three windows of one client hold. */
    ghost function Keys(fixed: bool, subject: string): (keys: seq<WC.Key>)
      reads this`zsets, this`counters
      ensures |keys| == 3
    {
      [KeyAt(fixed, subject, 0), KeyAt(fixed, subject, 1), KeyAt(fixed, subject, 2)]
    }

    method CheckWindow(fixed: bool, subject: string, i: nat, limit: nat, c: Call, resetNow: int)
      returns (allowed: bool, info: WindowInfo)
      requires i < 3
      modifies this`zsets, this`counters
      ensures var k := old(Keys(fixed, subject))[i];
              var (k', ok) := WC.Check(k, WC.Window(SECONDS[i], limit), c);
              && Keys(fixed, subject) == old(Keys(fixed, subject))[i := k']
              && allowed == ok && info == InfoOf(k, i, limit, c, resetNow)
      ensures limit > 0 ==>
                Told(old(Keys(fixed, subject))[i], Keys(fixed, subject)[i], i, limit, c, resetNow, info)
      ensures forall f, other :: f != fixed || other != subject ==> Keys(f, other) == old(Keys(f, other))
    {
      hide Told, SW.Step, FW.Step, ResetAt;
      if fixed {
        var r := FixedWindow(FixedKey(PERIODS[i], subject), SECONDS[i], limit, c.now);
        allowed := r.allowed;
        info := WindowInfo(limit, r.current, SECONDS[i] * 1000, resetNow + Max(0, r.ttlSec) * 1000, NAMES[i]);
      } else {
        var r := SlidingWindow(SlidingKey(PERIODS[i], subject), SECONDS[i] * 1000, limit, c);
        allowed := r.allowed;
        info := WindowInfo(limit, r.current, SECONDS[i] * 1000, ResetAt(r, SECONDS[i] * 1000, c.now), NAMES[i]);
      }
      if limit > 0 {
        InfoTold(old(KeyAt(fixed, subject, i)), i, limit, c, resetNow);
      }
      forall f, other, j | 0 <= j < 3 && (f != fixed || other != subject || j != i)
        ensures KeyAt(f, other, j) == old(KeyAt(f, other, j))
      {
        if f == fixed {
          KeysDiffer("rl:sw:", i, subject, j, other);
          KeysDiffer("rl:fw:", i, subject, j, other);
        }
      }
    }

    /** Checks the configured windows in order and stops at the first denial. Returns the
        index of the denying window, or 3, and the windows that were checked. */
    method CheckWindows(fixed: bool, subject: string, limits: seq<int>, calls: seq<Call>, resets: seq<int>)
      returns (denied: nat, infos: seq<WindowInfo>)
      requires |limits| == |calls| == |resets| == 3
      modifies this`zsets, this`counters
      ensures (Keys(fixed, subject), denied) == WC.Cascade(old(Keys(fixed, subject)), Windows(limits), calls, 0)
      ensures denied <= 3 && (denied < 3 ==>
                && Windows(limits)[denied].limit > 0 && infos != []
                && infos[|infos| - 1] == InfoOf(old(Keys(fixed, subject))[denied], denied,
                                                Windows(limits)[denied].limit, calls[denied], resets[denied]))
      ensures infos == Infos(old(Keys(fixed, subject)), limits, calls, resets, if denied < 3 then denied + 1 else 3)
      ensures forall f, other :: f != fixed || other != subject ==> Keys(f, other) == old(Keys(f, other))
    {
      hide *;
      infos := [];
      ghost var keys, ws := Keys(fixed, subject), Windows(limits);
      WindowsSpec(limits);
      assert Infos(keys, limits, calls, resets, 0) == [] by {
        InfosNone(keys, limits, calls, resets);
      }
      var i := 0;
      while i < 3
        invariant 0 <= i <= 3
        invariant forall j :: i <= j < 3 ==> Keys(fixed, subject)[j] == keys[j]
        invariant infos == Infos(keys, limits, calls, resets, i)
        invariant forall f, other :: f != fixed || other != subject ==> Keys(f, other) == old(Keys(f, other))
        invariant WC.Cascade(Keys(fixed, subject), ws, calls, i) == WC.Cascade(keys, ws, calls, 0)
      {
        WC.CascadeNext(Keys(fixed, subject), ws, calls, i);
        InfosNext(keys, limits, calls, resets, i);
        if limits[i] > 0 {
          var allowed, info := CheckWindow(fixed, subject, i, limits[i], calls[i], resets[i]);
          infos := infos + [info];
          if !allowed {
            return i, infos;
          }
        }
        i := i + 1;
      }
      denied := 3;
      WC.CascadeEnd(Keys(fixed, subject), ws, calls);
    }

    /** The bucket of one client, reported as the window of a minute. */
    method CheckBucket(subject: string, capacity: nat, rate: real, now: int, resetNow: int)
      returns (allowed: bool, info: WindowInfo)
      requires capacity > 0 && rate > 0.0
      modifies this`buckets
      ensures var (b, r) := TB.Step(old(BucketAt(BucketKey(subject))), OneToken(capacity, rate), now);
              && BucketAt(BucketKey(subject)) == b && allowed == r.allowed
              && Remaining(info) == r.remaining && info.resetAtMs == resetNow + r.waitMs
              && info.limit == capacity && info.windowMs == 60000 && info.period == Minute
      ensures forall other :: other != subject ==> BucketAt(BucketKey(other)) == old(BucketAt(BucketKey(other)))
    {
      var r := TokenBucket(BucketKey(subject), OneToken(capacity, rate), now);
      allowed := r.allowed;
      info := WindowInfo(capacity, capacity - r.remaining, 60000, resetNow + r.waitMs, Minute);
      forall other | other != subject ensures BucketKey(other) != BucketKey(subject) {
        assert BucketKey(other)[6..] == other && BucketKey(subject)[6..] == subject;
      }
    }

    /** The plugin: nothing happens without a limit; otherwise the configured strategy
        decides, its windows are written to the headers, and the denying one, if any, is
        what the request is turned away for. */
    method RateLimit(strategy: Strategy, subject: string, limits: seq<int>, capacity: nat, rate: real,
                     calls: seq<Call>, resets: seq<int>, headers: Headers, headerNow: int, retryNow: int)
      returns (denied: Option<WindowInfo>, ghost infos: seq<WindowInfo>)
      requires |limits| == |calls| == |resets| == 3 && capacity > 0 && rate > 0.0
      modifies this, headers
      ensures !AnyLimit(limits) ==>
                && denied == None && infos == [] && headers.values == old(headers.values)
                && zsets == old(zsets) && counters == old(counters) && buckets == old(buckets)
      ensures AnyLimit(limits) && strategy == TokenStrategy ==>
                var (b, r) := TB.Step(old(BucketAt(BucketKey(subject))), OneToken(capacity, rate), calls[0].now);
                && BucketAt(BucketKey(subject)) == b && zsets == old(zsets) && counters == old(counters)
                && |infos| == 1 && denied == (if r.allowed then None else Some(infos[0]))
                && infos[0].resetAtMs == resets[0] + r.waitMs && Remaining(infos[0]) == r.remaining
      ensures AnyLimit(limits) && strategy != TokenStrategy ==>
                var fixed := strategy == FixedStrategy;
                var keys := old(Keys(fixed, subject));
                var (keys', at) := WC.Cascade(keys, Windows(limits), calls, 0);
                && Keys(fixed, subject) == keys' && buckets == old(buckets) && at <= 3
                && infos == Infos(keys, limits, calls, resets, if at < 3 then at + 1 else 3)
                && denied == (if at == 3 then None
                              else Some(InfoOf(keys[at], at, Windows(limits)[at].limit, calls[at], resets[at])))
                && DeniedAt(denied) == at
      ensures AnyLimit(limits) && strategy != TokenStrategy ==>
                var fixed := strategy == FixedStrategy;
                && (forall w :: w in infos ==>
                      ToldOf(old(Keys(fixed, subject)), Keys(fixed, subject), limits, calls, resets, w))
                && (denied.Some? ==> denied.value in infos)
                && NoneMissing(limits, infos, DeniedAt(denied))
      ensures forall other :: other != subject ==> BucketAt(BucketKey(other)) == old(BucketAt(BucketKey(other)))
      ensures forall f, other :: other != subject ==> Keys(f, other) == old(Keys(f, other))
      ensures forall n :: !Written(infos, denied, n) ==> SameAt(headers.values, old(headers.values), n)
      ensures infos != [] ==> exists w :: Tightest(infos, w) && Summarizes(headers.values, w, headerNow)
      ensures forall w :: w in infos ==> ReportsWindow(headers.values, w)
      ensures denied.Some? ==> Reports(headers.values, RetryAfter, Num(RetryAfterSec(denied.value.resetAtMs, retryNow)))
    {
      hide TB.Step, WC.Cascade, Infos, InfoOf, Windows, KeyAt, Tightest, Summarizes, ReportsWindow, DistinctPeriods,
        ToldOf, NoneMissing;
      denied, infos := None, [];
      if !AnyLimit(limits) {
        return;
      }
      var windows: seq<WindowInfo>;
      if strategy == TokenStrategy {
        var allowed, info := CheckBucket(subject, capacity, rate, calls[0].now, resets[0]);
        windows := [info];
        OnePeriod(info);
        if !allowed {
          denied := Some(info);
        }
      } else {
        var at;
        at, windows := CheckWindows(strategy == FixedStrategy, subject, limits, calls, resets);
        ghost var keys := old(Keys(strategy == FixedStrategy, subject));
        InfosApart(keys, limits, calls, resets, if at < 3 then at + 1 else 3);
        InfosTold(keys, limits, calls, resets);
        InfosComplete(keys, limits, calls, resets, if at < 3 then at + 1 else 3);
        assert NoneMissing(limits, windows, at);
        if at < 3 {
          denied := Some(windows[|windows| - 1]);
          InfoPeriod(keys[at], at, Windows(limits)[at].limit, calls[at], resets[at]);
        }
      }
      infos := windows;
      ApplyRateLimitHeaders(headers, windows, denied, headerNow, retryNow);
    }
  }

  /** The window that denied the request, or 3. */
  function DeniedAt(denied: Option<WindowInfo>): nat {
    match denied
    case None => 3
    case Some(w) => (match w.period
                     case Minute => 0
                     case Hour => 1
                     case Day => 2)
  }

  /** The report is true of one of the configured windows. */
  ghost predicate ToldOf(keys: seq<WC.Key>, keys': seq<WC.Key>, limits: seq<int>, calls: seq<Call>, resets: seq<int>,
                         w: WindowInfo)
    requires |keys| == |keys'| == |limits| == |calls| == |resets| == 3
  {
    exists j :: 0 <= j < 3 && limits[j] > 0 && Told(keys[j], keys'[j], j, limits[j], calls[j], resets[j], w)
  }

  /** Every configured window up to the denying one is reported. */
  ghost predicate NoneMissing(limits: seq<int>, infos: seq<WindowInfo>, at: nat)
    requires |limits| == 3
  {
    forall j :: 0 <= j < 3 && j <= at && limits[j] > 0 ==> exists w :: w in infos && DeniedAt(Some(w)) == j
  }

  lemma {:induction false} InfosComplete(keys: seq<WC.Key>, limits: seq<int>, calls: seq<Call>, resets: seq<int>,
                                         n: nat)
    requires |keys| == |limits| == |calls| == |resets| == 3 && n <= 3
    ensures forall j :: 0 <= j < n && limits[j] > 0 ==>
              exists w :: w in Infos(keys, limits, calls, resets, n) && DeniedAt(Some(w)) == j
    ensures forall at: nat :: (n == if at < 3 then at + 1 else 3) ==>
              NoneMissing(limits, Infos(keys, limits, calls, resets, n), at)
  {
    if n > 0 {
      InfosComplete(keys, limits, calls, resets, n - 1);
      var before, infos := Infos(keys, limits, calls, resets, n - 1), Infos(keys, limits, calls, resets, n);
      assert forall w :: w in before ==> w in infos;
      if limits[n - 1] > 0 {
        var info := InfoOf(keys[n - 1], n - 1, limits[n - 1], calls[n - 1], resets[n - 1]);
        InfoPeriod(keys[n - 1], n - 1, limits[n - 1], calls[n - 1], resets[n - 1]);
        assert info in infos;
      }
    }
  }

  lemma InfoPeriod(k: WC.Key, i: nat, limit: nat, c: Call, resetNow: int)
    requires i < 3
    ensures DeniedAt(Some(InfoOf(k, i, limit, c, resetNow))) == i
  {}

  /** So all reports are. */
  lemma InfosTold(keys: seq<WC.Key>, limits: seq<int>, calls: seq<Call>, resets: seq<int>)
    requires |keys| == |limits| == |calls| == |resets| == 3
    ensures var (keys', at) := WC.Cascade(keys, Windows(limits), calls, 0);
            && |keys'| == 3 && at <= 3
            && forall w :: w in Infos(keys, limits, calls, resets, if at < 3 then at + 1 else 3) ==>
                 ToldOf(keys, keys', limits, calls, resets, w)
  {
    hide WC.Check, WC.Cascade, Told, InfoOf, Infos, Windows;
    var ws := Windows(limits);
    var (keys', at) := WC.Cascade(keys, ws, calls, 0);
    WC.CascadeEnds(keys, ws, calls, 0);
    WC.CascadeLength(keys, ws, calls, 0);
    WindowsSpec(limits);
    forall w | w in Infos(keys, limits, calls, resets, if at < 3 then at + 1 else 3)
      ensures ToldOf(keys, keys', limits, calls, resets, w)
    {
      var j := InfosFrom(keys, limits, calls, resets, if at < 3 then at + 1 else 3, w);
      WC.CheckedKey(keys, ws, calls, 0, j);
      InfoTold(keys[j], j, limits[j], calls[j], resets[j]);
    }
  }

  lemma {:induction false} InfosFrom(keys: seq<WC.Key>, limits: seq<int>, calls: seq<Call>, resets: seq<int>, n: nat,
                                     w: WindowInfo) returns (j: nat)
    requires |keys| == |limits| == |calls| == |resets| == 3 && n <= 3 && w in Infos(keys, limits, calls, resets, n)
    ensures j < n && limits[j] > 0 && w == InfoOf(keys[j], j, limits[j], calls[j], resets[j])
  {
    hide InfoOf;
    if limits[n - 1] > 0 && w == InfoOf(keys[n - 1], n - 1, limits[n - 1], calls[n - 1], resets[n - 1]) {
      j := n - 1;
    } else {
      j := InfosFrom(keys, limits, calls, resets, n - 1, w);
    }
  }

  predicate AnyLimit(limits: seq<int>)
    requires |limits| == 3
  {
    limits[0] > 0 || limits[1] > 0 || limits[2] > 0
  }

  lemma OnePeriod(info: WindowInfo)
    ensures DistinctPeriods([info])
  {}

  /** Every caller asks for a single token. */
  function OneToken(capacity: nat, rate: real): TB.Config {
    TB.Config(capacity as real, rate, 1.0)
  }

  function BucketKey(subject: string): string {
    "rl:tb:" + subject
  }

  /** A limit that is absent or not positive does not count. */
  function Windows(limits: seq<int>): (ws: seq<WC.Window>)
    requires |limits| == 3
    ensures |ws| == 3 && forall i :: 0 <= i < 3 ==> ws[i].sec > 0
  {
    seq(3, i requires 0 <= i < 3 => WC.Window(SECONDS[i], if limits[i] > 0 then limits[i] else 0))
  }

  lemma WindowsSpec(limits: seq<int>)
    requires |limits| == 3
    ensures forall i :: 0 <= i < 3 ==>
              Windows(limits)[i] == WC.Window(SECONDS[i], if limits[i] > 0 then limits[i] else 0)
  {}

  /** The windows before the n-th that are configured. */
  ghost function Infos(keys: seq<WC.Key>, limits: seq<int>, calls: seq<Call>, resets: seq<int>, n: nat): seq<WindowInfo>
    requires |keys| == |limits| == |calls| == |resets| == 3 && n <= 3
  {
    if n == 0 then []
    else
      var before := Infos(keys, limits, calls, resets, n - 1);
      if limits[n - 1] > 0 then before + [InfoOf(keys[n - 1], n - 1, limits[n - 1], calls[n - 1], resets[n - 1])]
      else before
  }

  lemma InfosNone(keys: seq<WC.Key>, limits: seq<int>, calls: seq<Call>, resets: seq<int>)
    requires |keys| == |limits| == |calls| == |resets| == 3
    ensures Infos(keys, limits, calls, resets, 0) == []
  {}

  lemma InfosNext(keys: seq<WC.Key>, limits: seq<int>, calls: seq<Call>, resets: seq<int>, i: nat)
    requires |keys| == |limits| == |calls| == |resets| == 3 && i < 3
    ensures Infos(keys, limits, calls, resets, i + 1) == Infos(keys, limits, calls, resets, i) +
              if limits[i] > 0 then [InfoOf(keys[i], i, limits[i], calls[i], resets[i])] else []
  {}

  lemma {:induction false} InfosApart(keys: seq<WC.Key>, limits: seq<int>, calls: seq<Call>, resets: seq<int>, n: nat)
    requires |keys| == |limits| == |calls| == |resets| == 3 && n <= 3
    ensures var infos := Infos(keys, limits, calls, resets, n);
            && DistinctPeriods(infos)
            && forall w :: w in infos ==> exists i :: 0 <= i < n && w.period == NAMES[i]
  {
    if n > 0 {
      InfosApart(keys, limits, calls, resets, n - 1);
    }
  }
}
