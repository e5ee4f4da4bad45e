/** The simple log that every rate limiter is measured against: which requests
    were admitted, and when. Nothing is ever dropped from it. */
module RequestLog {
  datatype Call = Call(now: int, id: string)

  /** Admission time by request id. */
  type Log = map<string, int>

  function Admit(log: Log, c: Call, ok: bool): Log {
    if ok then log[c.id := c.now] else log
  }

  /** The requests logged in the half-open interval (lo, hi]. */
  function Within(log: Log, lo: int, hi: int): set<string> {
    set id | id in log && lo < log[id] <= hi
  }

  function Count(log: Log, lo: int, hi: int): nat {
    |Within(log, lo, hi)|
  }

  /** No interval of length at most `windowMs` holds more than `limit` requests. */
  ghost predicate WithinLimit(log: Log, windowMs: int, limit: nat) {
    forall lo, hi :: hi <= lo + windowMs ==> Count(log, lo, hi) <= limit
  }

  /** `calls` may follow a run that ended at `last` and used the request ids `used`:
      the one clock never runs backwards and no id is used twice. */
  predicate Continues(used: set<string>, last: int, calls: seq<Call>)
    decreases |calls|
  {
    calls == [] ||
    (last <= calls[0].now && calls[0].id !in used
     && Continues(used + {calls[0].id}, calls[0].now, calls[1..]))
  }

  lemma SubsetCount(small: set<string>, big: set<string>)
    requires small <= big
    ensures |small| <= |big|
    ensures small != big ==> |small| < |big|
  {
    assert big == small + (big - small);
    assert |big| == |small| + |big - small|;
  }

  lemma CountAdmit(log: Log, c: Call, lo: int, hi: int)
    requires c.id !in log
    ensures Count(log[c.id := c.now], lo, hi) == Count(log, lo, hi) + if lo < c.now <= hi then 1 else 0
  {
    var log' := log[c.id := c.now];
    assert Within(log', lo, hi) == if lo < c.now <= hi then Within(log, lo, hi) + {c.id} else Within(log, lo, hi);
  }

  /** Admitting only when the last window holds fewer than `limit` is enough. */
  lemma AdmitKeepsLimit(log: Log, windowMs: int, limit: nat, c: Call)
    requires WithinLimit(log, windowMs, limit) && c.id !in log
    requires forall id :: id in log ==> log[id] <= c.now
    requires Count(log, c.now - windowMs, c.now) < limit
    ensures WithinLimit(log[c.id := c.now], windowMs, limit)
  {
    var log' := log[c.id := c.now];
    forall lo, hi | hi <= lo + windowMs ensures Count(log', lo, hi) <= limit {
      CountAdmit(log, c, lo, hi);
      if lo < c.now <= hi {
        SubsetCount(Within(log, lo, hi), Within(log, c.now - windowMs, c.now));
      }
    }
  }

  /** The simple form of a sliding limiter: count the last window in the log. */
  function LogRun(log: Log, windowMs: int, limit: nat, calls: seq<Call>): (Log, seq<bool>)
    decreases |calls|
  {
    if calls == [] then (log, [])
    else
      var c := calls[0];
      var ok := Count(log, c.now - windowMs, c.now) < limit;
      var (log', oks) := LogRun(Admit(log, c, ok), windowMs, limit, calls[1..]);
      (log', [ok] + oks)
  }

  predicate AllAt(calls: seq<Call>, now: int) {
    forall c :: c in calls ==> c.now == now
  }

  /** What the window has left is how many requests of one moment are admitted, and
      they are the first ones. */
  lemma {:induction false} LogBurst(log: Log, used: set<string>, windowMs: int, limit: nat, now: int, calls: seq<Call>)
    requires windowMs > 0 && log.Keys <= used && Continues(used, now, calls) && AllAt(calls, now)
    ensures LogRun(log, windowMs, limit, calls).1 ==
              seq(|calls|, i => Count(log, now - windowMs, now) + i < limit)
    decreases |calls|
  {
    if calls != [] {
      var c := calls[0];
      var n := Count(log, now - windowMs, now);
      CountAdmit(log, c, now - windowMs, now);
      LogBurst(Admit(log, c, n < limit), used + {c.id}, windowMs, limit, now, calls[1..]);
    }
  }

  /** Until somebody is admitted, a request is admitted exactly when it comes no
      earlier than `opening`, and never if `ever` is false. */
  predicate OpensExactlyAt(calls: seq<Call>, oks: seq<bool>, ever: bool, opening: int)
    decreases |calls|
  {
    |oks| == |calls| &&
    (calls != [] ==>
       && (oks[0] <==> ever && opening <= calls[0].now)
       && (!oks[0] ==> OpensExactlyAt(calls[1..], oks[1..], ever, opening)))
  }

  /** So up to a call somebody is admitted exactly if the call is no earlier than the
      opening. */
  lemma {:induction false} OpeningServesExactly(calls: seq<Call>, oks: seq<bool>, ever: bool, opening: int,
                                                used: set<string>, last: int, i: nat)
    requires OpensExactlyAt(calls, oks, ever, opening) && Continues(used, last, calls) && i < |calls|
    ensures (exists j :: 0 <= j <= i && oks[j]) <==> ever && opening <= calls[i].now
    ensures last <= calls[i].now
    decreases i
  {
    var c := calls[0];
    if i > 0 && oks[0] {
      NotBefore(used, last, calls, i);
    } else if i > 0 {
      OpeningServesExactly(calls[1..], oks[1..], ever, opening, used + {c.id}, c.now, i - 1);
      assert forall j :: 0 <= j <= i && oks[j] ==> j > 0 && oks[1..][j - 1];
      assert forall j :: 0 <= j <= i - 1 && oks[1..][j] ==> oks[j + 1];
    }
  }

  lemma {:induction false} NotBefore(used: set<string>, last: int, calls: seq<Call>, i: nat)
    requires Continues(used, last, calls) && i < |calls|
    ensures last <= calls[0].now <= calls[i].now
    decreases i
  {
    if i > 0 {
      NotBefore(used + {calls[0].id}, calls[0].now, calls[1..], i - 1);
    }
  }
}
