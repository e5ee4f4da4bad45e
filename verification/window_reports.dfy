/** What a check reports of its window: how much is left, and from when there is more. */
module WindowReports {
  import opened RequestLog
  import SW = SlidingWindow
  import FW = FixedWindow
  import WC = WindowCascade
  import opened RateLimitHeaders

  const SECONDS := [60, 3600, 86400]
  const NAMES := [Minute, Hour, Day]

  /** The reset time of a fixed window comes from the life that the key has left, and from
      another look at the clock. */
  ghost function InfoOf(k: WC.Key, i: nat, limit: nat, c: Call, resetNow: int): WindowInfo
    requires i < 3
  {
    var ms := SECONDS[i] * 1000;
    match k
    case Sliding(z) =>
      var r := SW.Step(z, ms, limit, c).1;
      WindowInfo(limit, r.current, ms, ResetAt(r, ms, c.now), NAMES[i])
    case Fixed(cs) =>
      var r := FW.Step(cs, SECONDS[i], limit, c.now).1;
      WindowInfo(limit, r.current, ms, resetNow + Max(0, r.ttlSec) * 1000, NAMES[i])
  }

  // ---- Told to the client --------------------------------------------------

  /** The decisions on calls that come to the key. */
  ghost function KeyRun(k: WC.Key, w: WC.Window, calls: seq<Call>): seq<bool>
    requires w.sec > 0
  {
    match k
    case Sliding(z) => SW.Run(z, w.sec * 1000, w.limit, calls).1
    case Fixed(cs) => FW.Run(cs, w.sec, w.limit, calls).1
  }

  /** After a run with these admissions the call `c` may come, and then `calls`. */
  predicate MayFollow(log: Log, used: set<string>, last: int, c: Call, calls: seq<Call>) {
    last <= c.now && c.id !in log && log.Keys <= used && Continues(used + {c.id}, c.now, calls)
  }

  /** Of the requests that follow at the same moment exactly the first ones are admitted, as
      many as are reported to remain. */
  ghost predicate TellsRemaining(k: WC.Key, k': WC.Key, w: WC.Window, c: Call, info: WindowInfo)
    requires w.sec > 0
  {
    forall log, used, last, calls ::
      WC.KeyOk(k, log, last, w) && MayFollow(log, used, last, c, calls) && AllAt(calls, c.now) ==>
        KeyRun(k', w, calls) == seq(|calls|, i => i < Max(0, Remaining(info)))
  }

  predicate Positive(log: Log) {
    forall id :: id in log ==> log[id] > 0
  }

  /** After a denial by a sliding window every request before the reported reset time is
      denied, whoever makes it, and the first one from then on is admitted. */
  ghost predicate TellsOpening(k: WC.Key, k': WC.Key, w: WC.Window, c: Call, info: WindowInfo)
    requires w.sec > 0
  {
    forall log, used, last, calls ::
      WC.KeyOk(k, log, last, w) && MayFollow(log, used, last, c, calls) && Positive(log) ==>
        OpensExactlyAt(calls, KeyRun(k', w, calls), true, info.resetAtMs)
  }

  /** A fixed window is reported to last as long as its key lives, to half a second. */
  ghost predicate TellsLife(k: WC.Key, k': WC.Key, w: WC.Window, c: Call, resetNow: int, info: WindowInfo)
    requires w.sec > 0
  {
    forall log, last :: WC.KeyOk(k, log, last, w) ==>
      && k'.Fixed? && FW.WindowId(c.now, w.sec) in k'.counters
      && var life := k'.counters[FW.WindowId(c.now, w.sec)].deadline - c.now;
         life - 500 < info.resetAtMs - resetNow <= life + 500
  }

  function Seconds(i: nat): nat {
    if i == 0 then 60 else if i == 1 then 3600 else 86400
  }

  /** The report on the i-th window of a check that left the key `k'`. */
  ghost predicate Told(k: WC.Key, k': WC.Key, i: nat, limit: nat, c: Call, resetNow: int, info: WindowInfo) {
    var w := WC.Window(Seconds(i), limit);
    && info.limit == limit && info.windowMs == Seconds(i) * 1000
    && info.period == (if i == 0 then Minute else if i == 1 then Hour else Day)
    && TellsRemaining(k, k', w, c, info)
    && (k.Sliding? && WC.Check(k, w, c).1 ==> info.resetAtMs == c.now + Seconds(i) * 1000)
    && (k.Sliding? && !WC.Check(k, w, c).1 ==> TellsOpening(k, k', w, c, info))
    && (k.Fixed? ==> TellsLife(k, k', w, c, resetNow, info))
  }

  lemma InfoTellsRemaining(k: WC.Key, i: nat, limit: nat, c: Call, resetNow: int)
    requires i < 3 && limit > 0
    ensures var w := WC.Window(Seconds(i), limit);
            TellsRemaining(k, WC.Check(k, w, c).0, w, c, InfoOf(k, i, limit, c, resetNow))
  {
    var w := WC.Window(Seconds(i), limit);
    var k', info := WC.Check(k, w, c).0, InfoOf(k, i, limit, c, resetNow);
    forall log, used, last, calls |
      WC.KeyOk(k, log, last, w) && MayFollow(log, used, last, c, calls) && AllAt(calls, c.now)
      ensures KeyRun(k', w, calls) == seq(|calls|, i => i < Max(0, Remaining(info)))
    {
      match k
      case Sliding(z) => SW.RemainingIsExact(z, log, used, last, w.sec * 1000, limit, c, calls);
      case Fixed(cs) => FW.RemainingIsExact(cs, log, w.sec, limit, c.now, calls);
      hide SW.Run, FW.Run, SW.Step, FW.Step, WC.KeyOk, MayFollow, AllAt;
    }
  }

  lemma InfoTellsOpening(k: WC.Key, i: nat, limit: nat, c: Call, resetNow: int)
    requires i < 3 && limit > 0 && k.Sliding?
    ensures var w := WC.Window(Seconds(i), limit);
            var info := InfoOf(k, i, limit, c, resetNow);
            if WC.Check(k, w, c).1 then info.resetAtMs == c.now + Seconds(i) * 1000
            else TellsOpening(k, WC.Check(k, w, c).0, w, c, info)
  {
    var w := WC.Window(Seconds(i), limit);
    var k', info := WC.Check(k, w, c).0, InfoOf(k, i, limit, c, resetNow);
    var ms := w.sec * 1000;
    if !WC.Check(k, w, c).1 {
      forall log, used, last, calls |
        WC.KeyOk(k, log, last, w) && MayFollow(log, used, last, c, calls) && Positive(log)
        ensures OpensExactlyAt(calls, KeyRun(k', w, calls), true, info.resetAtMs)
      {
        hide SW.Inv, SW.Step, SW.Run, ResetAt, OpensExactlyAt, Positive;
        OpeningTold(k.zset, log, used + {c.id}, last, ms, limit, c, calls);
      }
    }
  }

  lemma OpeningTold(z: SW.ZSet, log: Log, used: set<string>, last: int, ms: int, limit: nat, c: Call, calls: seq<Call>)
    requires ms > 0 && limit > 0 && SW.Inv(z, log, last, ms, limit) && last <= c.now && c.id !in log
    requires !SW.Step(z, ms, limit, c).1.allowed && Positive(log)
    requires log.Keys <= used && Continues(used, c.now, calls)
    ensures var (z', r) := SW.Step(z, ms, limit, c);
            OpensExactlyAt(calls, SW.Run(z', ms, limit, calls).1, true, ResetAt(r, ms, c.now))
  {
    hide SW.Step, SW.FullUntil, SW.Inv, SW.Run, Positive, Continues, OpensExactlyAt;
    var (z', r) := SW.Step(z, ms, limit, c);
    SW.DenialIsFull(z, log, last, ms, limit, c);
    OldestPositive(z, log, last, ms, limit, c);
    SW.ResetIsExact(z', log, used, c.now, ms, limit, r.oldest + ms, calls);
  }

  lemma OldestPositive(z: SW.ZSet, log: Log, last: int, ms: int, limit: nat, c: Call)
    requires ms > 0 && limit > 0 && SW.Inv(z, log, last, ms, limit) && last <= c.now && c.id !in log
    requires !SW.Step(z, ms, limit, c).1.allowed && Positive(log)
    ensures SW.Step(z, ms, limit, c).1.oldest > 0
  {
    SW.DenialIsFull(z, log, last, ms, limit, c);
    SW.OldestExists(SW.Step(z, ms, limit, c).0.scores);
  }

  lemma InfoTellsLife(k: WC.Key, i: nat, limit: nat, c: Call, resetNow: int)
    requires i < 3 && limit > 0 && k.Fixed?
    ensures var w := WC.Window(Seconds(i), limit);
            TellsLife(k, WC.Check(k, w, c).0, w, c, resetNow, InfoOf(k, i, limit, c, resetNow))
  {
    FW.WindowEnd(c.now, Seconds(i) * 1000);
  }

  /** So a check tells the truth. */
  lemma InfoTold(k: WC.Key, i: nat, limit: nat, c: Call, resetNow: int)
    requires i < 3 && limit > 0
    ensures Told(k, WC.Check(k, WC.Window(SECONDS[i], limit), c).0, i, limit, c, resetNow,
                 InfoOf(k, i, limit, c, resetNow))
  {
    InfoTellsRemaining(k, i, limit, c, resetNow);
    if k.Sliding? {
      InfoTellsOpening(k, i, limit, c, resetNow);
    } else {
      InfoTellsLife(k, i, limit, c, resetNow);
    }
    hide TellsRemaining, TellsOpening, TellsLife, SW.Step, FW.Step;
  }
}
