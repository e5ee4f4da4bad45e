/** The windows of one client (minute, hour, day) checked one after another: each
    check is one atomic script, and the checks of concurrent requests interleave. */
module WindowCascade {
  import opened RequestLog
  import SW = SlidingWindow
  import FW = FixedWindow

  /** A limit of 0 is an unconfigured window, which is skipped. */
  datatype Window = Window(sec: nat, limit: nat)

  /** The Redis state behind one window, by strategy. */
  datatype Key = Sliding(zset: SW.ZSet) | Fixed(counters: FW.Counters)

  /** How far a request got: it waits for window `next`, or window `at` denied it. */
  datatype Progress = Checking(next: nat) | Denied(at: nat)

  /** The shared keys, the clock, and for every request what became of it. */
  datatype State = State(keys: seq<Key>, logs: seq<Log>, clock: int, progress: map<string, Progress>)

  ghost predicate WellFormed(s: State, ws: seq<Window>) {
    |s.keys| == |s.logs| == |ws| && forall i :: 0 <= i < |ws| ==> ws[i].sec > 0
  }

  /** The id that a request draws for each window. No two requests draw the same one for
      the same window. */
  type Draws = (string, nat) -> string

  ghost predicate NoneTwice(ids: Draws) {
    forall q, r, i: nat :: q != r ==> ids(q, i) != ids(r, i)
  }

  function ProgressOf(s: State, r: string): Progress {
    if r in s.progress then s.progress[r] else Checking(0)
  }

  /** One script call on the key of window `w`. */
  ghost function Check(k: Key, w: Window, c: Call): (Key, bool)
    requires w.sec > 0
  {
    match k
    case Sliding(z) => var (z', r) := SW.Step(z, w.sec * 1000, w.limit, c); (Sliding(z'), r.allowed)
    case Fixed(cs) => var (cs', r) := FW.Step(cs, w.sec, w.limit, c.now); (Fixed(cs'), r.allowed)
  }

  /** Request `r` runs its next check, if it has one left, at time `now`. */
  ghost function Step(s: State, ws: seq<Window>, ids: Draws, r: string, now: int): State
    requires WellFormed(s, ws)
    ensures WellFormed(Step(s, ws, ids, r, now), ws)
  {
    match ProgressOf(s, r)
    case Denied(_) => s.(clock := now)
    case Checking(i) =>
      if i >= |ws| then s.(clock := now)
      else if ws[i].limit == 0 then s.(clock := now, progress := s.progress[r := Checking(i + 1)])
      else
        var c := Call(now, ids(r, i));
        var (k, ok) := Check(s.keys[i], ws[i], c);
        State(s.keys[i := k], s.logs[i := Admit(s.logs[i], c, ok)], now,
              s.progress[r := if ok then Checking(i + 1) else Denied(i)])
  }

  // ---- What every interleaving keeps ---------------------------------------

  ghost predicate KeyOk(k: Key, log: Log, clock: int, w: Window)
    requires w.sec > 0
  {
    match k
    case Sliding(z) => SW.Inv(z, log, clock, w.sec * 1000, w.limit)
    case Fixed(cs) => FW.Inv(cs, log, w.sec, w.limit)
  }

  /** Window `i` let the request through. */
  predicate Cleared(p: Progress, i: nat) {
    match p
    case Checking(next) => i < next
    case Denied(at) => i < at
  }

  /** The log of window `i` holds exactly the requests the window let through, each under
      the id that it drew. */
  ghost predicate LogMatches(log: Log, s: State, w: Window, ids: Draws, i: nat) {
    && (forall r :: ids(r, i) in log <==> w.limit > 0 && Cleared(ProgressOf(s, r), i))
    && (forall id :: id in log ==> exists r :: id == ids(r, i))
  }

  ghost predicate Inv(s: State, ws: seq<Window>, ids: Draws) {
    && NoneTwice(ids)
    && WellFormed(s, ws)
    && (forall i :: 0 <= i < |ws| ==> KeyOk(s.keys[i], s.logs[i], s.clock, ws[i]))
    && (forall i :: 0 <= i < |ws| ==> LogMatches(s.logs[i], s, ws[i], ids, i))
  }

  /** The sliding key mirrors the log at every later time too. */
  lemma TimePasses(k: Key, log: Log, clock: int, now: int, w: Window)
    requires w.sec > 0 && KeyOk(k, log, clock, w) && clock <= now
    ensures KeyOk(k, log, now, w)
  {}

  lemma CheckKeepsKey(k: Key, log: Log, clock: int, w: Window, c: Call)
    requires w.sec > 0 && KeyOk(k, log, clock, w) && clock <= c.now && c.id !in log
    ensures var (k', ok) := Check(k, w, c);
            KeyOk(k', Admit(log, c, ok), c.now, w)
  {
    match k
    case Sliding(z) => SW.StepAgreesWithLog(z, log, clock, w.sec * 1000, w.limit, c);
    case Fixed(cs) => FW.StepAgreesWithLog(cs, log, w.sec, w.limit, c);
  }

  lemma StepKeepsInv(s: State, ws: seq<Window>, ids: Draws, r: string, now: int)
    requires Inv(s, ws, ids) && s.clock <= now
    ensures Inv(Step(s, ws, ids, r, now), ws, ids)
  {
    hide KeyOk, Check, LogMatches;
    var s' := Step(s, ws, ids, r, now);
    var p := ProgressOf(s, r);
    forall i | 0 <= i < |ws|
      ensures KeyOk(s'.keys[i], s'.logs[i], now, ws[i])
      ensures LogMatches(s'.logs[i], s', ws[i], ids, i)
    {
      TimePasses(s.keys[i], s.logs[i], s.clock, now, ws[i]);
      StepKeepsLog(s, ws, ids, r, now, i);
      if p == Checking(i) && ws[i].limit > 0 {
        NotYetLogged(s, ws, ids, r, i);
        CheckKeepsKey(s.keys[i], s.logs[i], s.clock, ws[i], Call(now, ids(r, i)));
      }
    }
  }

  lemma NotYetLogged(s: State, ws: seq<Window>, ids: Draws, r: string, i: nat)
    requires i < |ws| && |s.logs| == |ws| && LogMatches(s.logs[i], s, ws[i], ids, i) && ProgressOf(s, r) == Checking(i)
    ensures ids(r, i) !in s.logs[i]
  {}

  lemma StepKeepsLog(s: State, ws: seq<Window>, ids: Draws, r: string, now: int, i: nat)
    requires WellFormed(s, ws) && NoneTwice(ids) && i < |ws| && LogMatches(s.logs[i], s, ws[i], ids, i)
    ensures var s' := Step(s, ws, ids, r, now);
            LogMatches(s'.logs[i], s', ws[i], ids, i)
  {
    hide Check, LogMatches;
    var s' := Step(s, ws, ids, r, now);
    assert forall q :: q != r ==> ProgressOf(s', q) == ProgressOf(s, q);
    if ProgressOf(s, r) == Checking(i) && ws[i].limit > 0 {
      var c := Call(now, ids(r, i));
      LogOfChecked(s, s', ws[i], ids, r, i, c, Check(s.keys[i], ws[i], c).1);
    } else {
      LogOfOthers(s, s', ws[i], ids, r, i);
    }
  }

  lemma LogOfChecked(s: State, s': State, w: Window, ids: Draws, r: string, i: nat, c: Call, ok: bool)
    requires NoneTwice(ids) && i < |s.logs| && LogMatches(s.logs[i], s, w, ids, i)
    requires ProgressOf(s, r) == Checking(i) && w.limit > 0 && c.id == ids(r, i)
    requires ProgressOf(s', r) == (if ok then Checking(i + 1) else Denied(i))
    requires forall q :: q != r ==> ProgressOf(s', q) == ProgressOf(s, q)
    ensures LogMatches(Admit(s.logs[i], c, ok), s', w, ids, i)
  {}

  lemma LogOfOthers(s: State, s': State, w: Window, ids: Draws, r: string, i: nat)
    requires i < |s.logs| && LogMatches(s.logs[i], s, w, ids, i)
    requires w.limit > 0 ==> (Cleared(ProgressOf(s', r), i) <==> Cleared(ProgressOf(s, r), i))
    requires forall q :: q != r ==> ProgressOf(s', q) == ProgressOf(s, q)
    ensures LogMatches(s.logs[i], s', w, ids, i)
  {}

  datatype Event = Event(request: string, now: int)

  ghost function Run(s: State, ws: seq<Window>, ids: Draws, events: seq<Event>): State
    requires WellFormed(s, ws)
    decreases |events|
  {
    if events == [] then s else Run(Step(s, ws, ids, events[0].request, events[0].now), ws, ids, events[1..])
  }

  /** The clock never runs backwards. */
  predicate Timed(clock: int, events: seq<Event>)
    decreases |events|
  {
    events == [] || (clock <= events[0].now && Timed(events[0].now, events[1..]))
  }

  lemma {:induction false} RunKeepsInv(s: State, ws: seq<Window>, ids: Draws, events: seq<Event>)
    requires Inv(s, ws, ids) && Timed(s.clock, events)
    ensures Inv(Run(s, ws, ids, events), ws, ids)
    decreases |events|
  {
    hide Inv, Step;
    if events != [] {
      StepKeepsInv(s, ws, ids, events[0].request, events[0].now);
      StepClock(s, ws, ids, events[0].request, events[0].now);
      RunKeepsInv(Step(s, ws, ids, events[0].request, events[0].now), ws, ids, events[1..]);
    }
  }

  lemma StepClock(s: State, ws: seq<Window>, ids: Draws, r: string, now: int)
    requires Inv(s, ws, ids)
    ensures WellFormed(s, ws) && Step(s, ws, ids, r, now).clock == now
  {}

  function Fresh(keys: seq<Key>, start: int): State {
    State(keys, seq(|keys|, _ => map[]), start, map[])
  }

  predicate EmptyKey(k: Key) {
    k == Sliding(SW.EMPTY) || k == Fixed(map[])
  }

  /** The requests that no window turned away. */
  ghost predicate Served(s: State, ws: seq<Window>, r: string) {
    r in s.progress && s.progress[r] == Checking(|ws|)
  }

  ghost predicate DeniedAfter(s: State, i: nat, r: string) {
    r in s.progress && s.progress[r].Denied? && i < s.progress[r].at
  }

  /** The most a window lets through in any interval of its own length. */
  function Bound(k: Key, w: Window): nat {
    if k.Sliding? then w.limit else 2 * w.limit
  }

  /** Every configured window stays within its bound, fixed ones also within their limit
      in each window; what a later window records every earlier one has recorded; served
      requests are recorded by all of them; and a request denied by one window has still
      used up all the earlier ones. */
  ghost predicate Fair(s: State, ws: seq<Window>, ids: Draws) {
    && WellFormed(s, ws)
    && (forall i :: 0 <= i < |ws| ==> WithinLimit(s.logs[i], ws[i].sec * 1000, Bound(s.keys[i], ws[i])))
    && (forall i, w :: 0 <= i < |ws| && s.keys[i].Fixed? ==> |FW.InWindow(s.logs[i], ws[i].sec, w)| <= ws[i].limit)
    && (forall i, j, r :: 0 <= i < j < |ws| && ws[i].limit > 0 && ids(r, j) in s.logs[j] ==> ids(r, i) in s.logs[i])
    && (forall i, r :: 0 <= i < |ws| && ws[i].limit > 0 && (Served(s, ws, r) || DeniedAfter(s, i, r))
          ==> ids(r, i) in s.logs[i])
  }

  lemma InvIsFair(s: State, ws: seq<Window>, ids: Draws)
    requires Inv(s, ws, ids)
    ensures Fair(s, ws, ids)
  {
    forall i | 0 <= i < |ws|
      ensures WithinLimit(s.logs[i], ws[i].sec * 1000, Bound(s.keys[i], ws[i]))
      ensures s.keys[i].Fixed? ==> forall w :: |FW.InWindow(s.logs[i], ws[i].sec, w)| <= ws[i].limit
    {
      if s.keys[i].Fixed? {
        FW.TwoWindows(s.keys[i].counters, s.logs[i], ws[i].sec, ws[i].limit);
      }
    }
    assert forall i :: 0 <= i < |ws| ==> LogMatches(s.logs[i], s, ws[i], ids, i);
    hide KeyOk, WithinLimit;
  }

  /** Every interleaving of any number of requests is fair, whatever the strategies. */
  lemma EveryInterleaving(keys: seq<Key>, ws: seq<Window>, ids: Draws, start: int, events: seq<Event>)
    requires |keys| == |ws| && forall i :: 0 <= i < |ws| ==> ws[i].sec > 0 && EmptyKey(keys[i])
    requires NoneTwice(ids) && Timed(start, events)
    ensures Fair(Run(Fresh(keys, start), ws, ids, events), ws, ids)
  {
    var s := Fresh(keys, start);
    forall i | 0 <= i < |ws| ensures KeyOk(keys[i], map[], start, ws[i]) {
      SW.InitialInv(start, ws[i].sec * 1000, ws[i].limit);
      assert forall id :: FW.InWindow(map[], ws[i].sec, id) == {};
    }
    assert forall i, r :: 0 <= i < |ws| ==> !Cleared(ProgressOf(s, r), i);
    assert Inv(s, ws, ids);
    RunKeepsInv(s, ws, ids, events);
    InvIsFair(Run(s, ws, ids, events), ws, ids);
  }

  // ---- One request on its own ----------------------------------------------

  /** The loop over the windows, from window `i` on: the keys afterwards and the
      window that denied the request, or |ws| when none did. Every check reads the
      clock and draws its request id anew. */
  ghost function Cascade(keys: seq<Key>, ws: seq<Window>, calls: seq<Call>, i: nat): (seq<Key>, nat)
    requires |keys| == |ws| == |calls| && i <= |ws|
    requires forall j :: 0 <= j < |ws| ==> ws[j].sec > 0
    decreases |ws| - i
  {
    if i == |ws| then (keys, i)
    else if ws[i].limit == 0 then Cascade(keys, ws, calls, i + 1)
    else
      var (k, ok) := Check(keys[i], ws[i], calls[i]);
      if ok then Cascade(keys[i := k], ws, calls, i + 1) else (keys[i := k], i)
  }

  lemma CascadeEnd(keys: seq<Key>, ws: seq<Window>, calls: seq<Call>)
    requires |keys| == |ws| == |calls| && forall j :: 0 <= j < |ws| ==> ws[j].sec > 0
    ensures Cascade(keys, ws, calls, |ws|) == (keys, |ws|)
  {}

  lemma CascadeNext(keys: seq<Key>, ws: seq<Window>, calls: seq<Call>, i: nat)
    requires |keys| == |ws| == |calls| && i < |ws| && forall j :: 0 <= j < |ws| ==> ws[j].sec > 0
    ensures Cascade(keys, ws, calls, i) ==
              if ws[i].limit == 0 then Cascade(keys, ws, calls, i + 1)
              else
                var (k, ok) := Check(keys[i], ws[i], calls[i]);
                if ok then Cascade(keys[i := k], ws, calls, i + 1) else (keys[i := k], i)
  {}

  lemma {:induction false} CascadeEnds(keys: seq<Key>, ws: seq<Window>, calls: seq<Call>, i: nat)
    requires |keys| == |ws| == |calls| && i <= |ws| && forall n :: 0 <= n < |ws| ==> ws[n].sec > 0
    ensures i <= Cascade(keys, ws, calls, i).1 <= |ws|
    decreases |ws| - i
  {
    hide Check;
    if i < |ws| {
      CascadeEnds(keys, ws, calls, i + 1);
      CascadeEnds(keys[i := Check(keys[i], ws[i], calls[i]).0], ws, calls, i + 1);
    }
  }

  /** A window that was checked has the key that its check left. */
  lemma {:induction false} CheckedKey(keys: seq<Key>, ws: seq<Window>, calls: seq<Call>, i: nat, j: nat)
    requires |keys| == |ws| == |calls| && i <= |ws| && forall n :: 0 <= n < |ws| ==> ws[n].sec > 0
    requires j < |ws| && j <= Cascade(keys, ws, calls, i).1
    ensures |Cascade(keys, ws, calls, i).0| == |ws|
    ensures Cascade(keys, ws, calls, i).0[j] ==
              if i <= j && ws[j].limit > 0 then Check(keys[j], ws[j], calls[j]).0 else keys[j]
    decreases |ws| - i
  {
    hide Check;
    CascadeLength(keys, ws, calls, i);
    if i < |ws| {
      CascadeNext(keys, ws, calls, i);
      if ws[i].limit == 0 {
        CheckedKey(keys, ws, calls, i + 1, j);
      } else if Check(keys[i], ws[i], calls[i]).1 {
        CheckedKey(keys[i := Check(keys[i], ws[i], calls[i]).0], ws, calls, i + 1, j);
      }
    }
  }

  function EventsOf(calls: seq<Call>, r: string): seq<Event> {
    seq(|calls|, i requires 0 <= i < |calls| => Event(r, calls[i].now))
  }

  function Outcome(denied: nat, ws: seq<Window>): Progress {
    if denied < |ws| then Denied(denied) else Checking(|ws|)
  }

  /** What a loop from window `i` on leaves in the log of window `j`: the request, if the
      loop got past it. */
  function LogAfter(log: Log, ws: seq<Window>, calls: seq<Call>, denied: nat, i: nat, j: nat): Log
    requires j < |ws| == |calls|
  {
    if i <= j && ws[j].limit > 0 then Admit(log, calls[j], j < denied) else log
  }

  /** The loop is what the steps of one request do when nobody comes in between. */
  lemma {:induction false} CascadeIsARun(s: State, ws: seq<Window>, ids: Draws, calls: seq<Call>, r: string, i: nat)
    requires WellFormed(s, ws) && |calls| == |ws| && i <= |ws|
    requires ProgressOf(s, r) == Checking(i)
    requires forall j :: 0 <= j < |calls| ==> calls[j].id == ids(r, j)
    ensures var s' := Run(s, ws, ids, EventsOf(calls, r)[i..]);
            var (keys, denied) := Cascade(s.keys, ws, calls, i);
            s'.keys == keys && ProgressOf(s', r) == Outcome(denied, ws)
    decreases |ws| - i
  {
    var events := EventsOf(calls, r);
    if i < |ws| {
      assert events[i..][0] == Event(r, calls[i].now) && events[i..][1..] == events[i + 1..];
      assert calls[i] == Call(calls[i].now, ids(r, i));
      var s' := Step(s, ws, ids, r, calls[i].now);
      StepDoes(s, ws, ids, r, calls[i], i);
      CascadeNext(s.keys, ws, calls, i);
      assert Run(s, ws, ids, events[i..]) == Run(s', ws, ids, events[i + 1..]);
      hide Check, Step, Cascade, ProgressOf, Run, EventsOf, Admit;
      if ProgressOf(s', r) == Checking(i + 1) {
        CascadeIsARun(s', ws, ids, calls, r, i + 1);
      } else {
        DeniedStays(s', ws, ids, r, events[i + 1..]);
      }
    }
  }

  /** And it leaves the request in the log of every window that it got past. */
  lemma {:induction false} CascadeLogs(s: State, ws: seq<Window>, ids: Draws, calls: seq<Call>, r: string, i: nat,
                                       j: nat)
    requires WellFormed(s, ws) && |calls| == |ws| && i <= |ws| && j < |ws|
    requires ProgressOf(s, r) == Checking(i)
    requires forall j :: 0 <= j < |calls| ==> calls[j].id == ids(r, j)
    ensures var s' := Run(s, ws, ids, EventsOf(calls, r)[i..]);
            |s'.logs| == |ws| && s'.logs[j] == LogAfter(s.logs[j], ws, calls, Cascade(s.keys, ws, calls, i).1, i, j)
    decreases |ws| - i
  {
    var events := EventsOf(calls, r);
    if i < |ws| {
      assert events[i..][0] == Event(r, calls[i].now) && events[i..][1..] == events[i + 1..];
      var s' := Step(s, ws, ids, r, calls[i].now);
      StepDoes(s, ws, ids, r, calls[i], i);
      CascadeNext(s.keys, ws, calls, i);
      assert Run(s, ws, ids, events[i..]) == Run(s', ws, ids, events[i + 1..]);
      var at := Cascade(s.keys, ws, calls, i).1;
      if ProgressOf(s', r) == Checking(i + 1) {
        assert at == Cascade(s'.keys, ws, calls, i + 1).1;
        hide Check, Step, Cascade, ProgressOf, Run, EventsOf, Admit;
        CascadeEnds(s'.keys, ws, calls, i + 1);
        CascadeLogs(s', ws, ids, calls, r, i + 1, j);
      } else {
        assert at == i;
        hide Check, Step, Cascade, Run, EventsOf;
        DeniedStays(s', ws, ids, r, events[i + 1..]);
      }
    }
  }

  lemma StepDoes(s: State, ws: seq<Window>, ids: Draws, r: string, c: Call, i: nat)
    requires WellFormed(s, ws) && i < |ws| && ProgressOf(s, r) == Checking(i) && c.id == ids(r, i)
    ensures var s' := Step(s, ws, ids, r, c.now);
            WellFormed(s', ws) &&
            if ws[i].limit == 0 then s'.keys == s.keys && s'.logs == s.logs && ProgressOf(s', r) == Checking(i + 1)
            else
              var (k, ok) := Check(s.keys[i], ws[i], c);
              && s'.keys == s.keys[i := k] && s'.logs == s.logs[i := Admit(s.logs[i], c, ok)]
              && ProgressOf(s', r) == if ok then Checking(i + 1) else Denied(i)
  {
    hide Check, Admit;
    assert c == Call(c.now, ids(r, i));
  }

  lemma {:induction false} DeniedStays(s: State, ws: seq<Window>, ids: Draws, r: string, events: seq<Event>)
    requires WellFormed(s, ws) && ProgressOf(s, r).Denied?
    requires forall e :: e in events ==> e.request == r
    ensures var s' := Run(s, ws, ids, events);
            s'.keys == s.keys && s'.logs == s.logs && ProgressOf(s', r) == ProgressOf(s, r)
    decreases |events|
  {
    if events != [] {
      DeniedStays(Step(s, ws, ids, r, events[0].now), ws, ids, r, events[1..]);
    }
  }

  // ---- Requests one after another ------------------------------------------

  /** A request and the calls it makes, one for each window. */
  datatype Request = Request(name: string, calls: seq<Call>)

  predicate CallsFor(reqs: seq<Request>, ws: seq<Window>) {
    forall q :: q in reqs ==> |q.calls| == |ws|
  }

  /** The keys after all of them, and for each the window that denied it, or |ws|. */
  ghost function Serve(keys: seq<Key>, ws: seq<Window>, reqs: seq<Request>): (seq<Key>, seq<nat>)
    requires |keys| == |ws| && CallsFor(reqs, ws) && forall j :: 0 <= j < |ws| ==> ws[j].sec > 0
    decreases |reqs|
  {
    if reqs == [] then (keys, [])
    else
      assert reqs[0] in reqs && forall q :: q in reqs[1..] ==> q in reqs;
      var (keys', at) := Cascade(keys, ws, reqs[0].calls, 0);
      CascadeLength(keys, ws, reqs[0].calls, 0);
      var (keys'', ats) := Serve(keys', ws, reqs[1..]);
      (keys'', [at] + ats)
  }

  lemma {:induction false} CascadeLength(keys: seq<Key>, ws: seq<Window>, calls: seq<Call>, i: nat)
    requires |keys| == |ws| == |calls| && i <= |ws| && forall j :: 0 <= j < |ws| ==> ws[j].sec > 0
    ensures |Cascade(keys, ws, calls, i).0| == |ws|
    decreases |ws| - i
  {
    if i < |ws| {
      CascadeNext(keys, ws, calls, i);
      CascadeLength(keys, ws, calls, i + 1);
      CascadeLength(keys[i := Check(keys[i], ws[i], calls[i]).0], ws, calls, i + 1);
    }
  }

  function EventsOfAll(reqs: seq<Request>): seq<Event> {
    if reqs == [] then [] else EventsOf(reqs[0].calls, reqs[0].name) + EventsOfAll(reqs[1..])
  }

  lemma {:induction false} RunSplit(s: State, ws: seq<Window>, ids: Draws, a: seq<Event>, b: seq<Event>)
    requires WellFormed(s, ws)
    ensures WellFormed(Run(s, ws, ids, a), ws)
    ensures Run(s, ws, ids, a + b) == Run(Run(s, ws, ids, a), ws, ids, b)
    decreases |a|
  {
    hide WellFormed, Step;
    if a == [] {
      assert a + b == b;
    } else {
      RunSplit(Step(s, ws, ids, a[0].request, a[0].now), ws, ids, a[1..], b);
      assert (a + b)[1..] == a[1..] + b;
    }
  }

  /** A request's own steps leave the progress of the others alone. */
  lemma {:induction false} OthersStay(s: State, ws: seq<Window>, ids: Draws, events: seq<Event>, r: string, q: string)
    requires WellFormed(s, ws) && q != r && forall e :: e in events ==> e.request == r
    ensures ProgressOf(Run(s, ws, ids, events), q) == ProgressOf(s, q)
    decreases |events|
  {
    hide Check;
    if events != [] {
      OthersStay(Step(s, ws, ids, r, events[0].now), ws, ids, events[1..], r, q);
    }
  }

  /** New requests, with the ids that they draw. */
  ghost predicate Newcomers(s: State, ids: Draws, reqs: seq<Request>) {
    && (forall q :: q in reqs ==> ProgressOf(s, q.name) == Checking(0))
    && (forall q :: q in reqs ==> forall j :: 0 <= j < |q.calls| ==> q.calls[j].id == ids(q.name, j))
    && (forall i, j :: 0 <= i < j < |reqs| ==> reqs[i].name != reqs[j].name)
  }

  /** Serving requests one after another is a run of the protocol too. */
  lemma {:induction false} ServeIsARun(s: State, ws: seq<Window>, ids: Draws, reqs: seq<Request>)
    requires WellFormed(s, ws) && CallsFor(reqs, ws) && Newcomers(s, ids, reqs)
    ensures var s' := Run(s, ws, ids, EventsOfAll(reqs));
            var (keys, ats) := Serve(s.keys, ws, reqs);
            && s'.keys == keys && |ats| == |reqs|
            && (forall k :: 0 <= k < |reqs| ==> ProgressOf(s', reqs[k].name) == Outcome(ats[k], ws))
            && |s'.logs| == |ws|
            && (forall i :: 0 <= i < |ws| && ws[i].limit > 0 ==> s'.logs[i] == Entered(s.logs[i], reqs, ats, i))
            && (forall q :: (forall k :: 0 <= k < |reqs| ==> reqs[k].name != q)
                  ==> ProgressOf(s', q) == ProgressOf(s, q))
    decreases |reqs|
  {
    hide Newcomers, CallsFor, Run, Cascade, EventsOf, EventsOfAll, ProgressOf, Entered, Serve;
    if reqs == [] {
      NoneServed(s, ws, ids, reqs);
    } else {
      var rest := reqs[1..];
      var s1 := FirstServed(s, ws, ids, reqs);
      assert forall k :: 0 < k < |reqs| ==> reqs[k] == rest[k - 1];
      ServeIsARun(s1, ws, ids, rest);
      ServeFirst(s.keys, ws, reqs);
      EnteredFirst(ws, reqs, Serve(s.keys, ws, reqs).1);
    }
  }

  lemma NoneServed(s: State, ws: seq<Window>, ids: Draws, none: seq<Request>)
    requires WellFormed(s, ws) && none == []
    ensures CallsFor(none, ws) && Serve(s.keys, ws, none) == (s.keys, [])
    ensures Run(s, ws, ids, EventsOfAll(none)) == s
    ensures forall log, i :: Entered(log, none, [], i) == log
  {}

  lemma ServeFirst(keys: seq<Key>, ws: seq<Window>, reqs: seq<Request>)
    requires |keys| == |ws| && CallsFor(reqs, ws) && (forall j :: 0 <= j < |ws| ==> ws[j].sec > 0) && reqs != []
    ensures |reqs[0].calls| == |ws| && CallsFor(reqs[1..], ws)
    ensures var (keys', at) := Cascade(keys, ws, reqs[0].calls, 0);
            |keys'| == |ws| &&
            var (keys'', ats) := Serve(keys', ws, reqs[1..]);
            Serve(keys, ws, reqs) == (keys'', [at] + ats)
  {
    hide Cascade;
    assert reqs[0] in reqs;
    CascadeLength(keys, ws, reqs[0].calls, 0);
  }

  lemma EnteredFirst(ws: seq<Window>, reqs: seq<Request>, ats: seq<nat>)
    requires reqs != [] && |ats| == |reqs| && CallsFor(reqs, ws)
    ensures reqs[0] in reqs && CallsFor(reqs[1..], ws)
    ensures forall i, log :: 0 <= i < |ws| ==>
              Entered(log, reqs, ats, i) == Entered(Admit(log, reqs[0].calls[i], i < ats[0]), reqs[1..], ats[1..], i)
  {}

  lemma FirstServed(s: State, ws: seq<Window>, ids: Draws, reqs: seq<Request>) returns (s1: State)
    requires reqs != [] && WellFormed(s, ws) && CallsFor(reqs, ws) && Newcomers(s, ids, reqs)
    ensures |reqs[0].calls| == |ws| && WellFormed(s1, ws) && CallsFor(reqs[1..], ws)
    ensures Newcomers(s1, ids, reqs[1..]) && forall k :: 0 < k < |reqs| ==> reqs[k].name != reqs[0].name
    ensures var (keys, at) := Cascade(s.keys, ws, reqs[0].calls, 0);
            && s1.keys == keys && ProgressOf(s1, reqs[0].name) == Outcome(at, ws)
            && forall i :: 0 <= i < |ws| && ws[i].limit > 0 ==> s1.logs[i] == Admit(s.logs[i], reqs[0].calls[i], i < at)
    ensures forall q :: q != reqs[0].name ==> ProgressOf(s1, q) == ProgressOf(s, q)
    ensures Run(s, ws, ids, EventsOfAll(reqs)) == Run(s1, ws, ids, EventsOfAll(reqs[1..]))
  {
    var first, rest := reqs[0], reqs[1..];
    var events := EventsOf(first.calls, first.name);
    assert first in reqs && events[0..] == events;
    s1 := Run(s, ws, ids, events);
    CascadeIsARun(s, ws, ids, first.calls, first.name, 0);
    forall i | 0 <= i < |ws| && ws[i].limit > 0
      ensures |s1.logs| == |ws|
      ensures s1.logs[i] == Admit(s.logs[i], first.calls[i], i < Cascade(s.keys, ws, first.calls, 0).1)
    {
      CascadeLogs(s, ws, ids, first.calls, first.name, 0, i);
    }
    RunSplit(s, ws, ids, events, EventsOfAll(rest));
    forall q | q != first.name ensures ProgressOf(s1, q) == ProgressOf(s, q) {
      OthersStay(s, ws, ids, events, first.name, q);
    }
    hide Run, Cascade, ProgressOf, WellFormed;
    assert forall q :: q in rest ==> q in reqs;
    assert forall k :: 0 <= k < |rest| ==> rest[k] == reqs[k + 1];
  }

  /** The requests that got past window `i`, as a log. */
  function Entered(log: Log, reqs: seq<Request>, ats: seq<nat>, i: nat): Log
    requires |ats| == |reqs| && forall q :: q in reqs ==> i < |q.calls|
    decreases |reqs|
  {
    if reqs == [] then log
    else
      assert reqs[0] in reqs && forall q :: q in reqs[1..] ==> q in reqs;
      Entered(Admit(log, reqs[0].calls[i], i < ats[0]), reqs[1..], ats[1..], i)
  }

  /** So requests served one after another from empty keys are served fairly. */
  lemma ServedFairly(keys: seq<Key>, ws: seq<Window>, ids: Draws, start: int, reqs: seq<Request>)
    requires |keys| == |ws| && forall i :: 0 <= i < |ws| ==> ws[i].sec > 0 && EmptyKey(keys[i])
    requires NoneTwice(ids) && CallsFor(reqs, ws) && Timed(start, EventsOfAll(reqs))
    requires Newcomers(Fresh(keys, start), ids, reqs)
    ensures var s := Run(Fresh(keys, start), ws, ids, EventsOfAll(reqs));
            var (keys', ats) := Serve(keys, ws, reqs);
            && s.keys == keys' && Fair(s, ws, ids) && |ats| == |reqs|
            && forall k :: 0 <= k < |reqs| ==> ProgressOf(s, reqs[k].name) == Outcome(ats[k], ws)
  {
    ServeIsARun(Fresh(keys, start), ws, ids, reqs);
    EveryInterleaving(keys, ws, ids, start, EventsOfAll(reqs));
  }

  /** No key changes its strategy. */
  ghost predicate SameKinds(keys: seq<Key>, keys': seq<Key>) {
    |keys| == |keys'| && forall i :: 0 <= i < |keys| ==> keys[i].Sliding? == keys'[i].Sliding?
  }

  lemma {:induction false} CascadeKinds(keys: seq<Key>, ws: seq<Window>, calls: seq<Call>, i: nat)
    requires |keys| == |ws| == |calls| && i <= |ws| && forall j :: 0 <= j < |ws| ==> ws[j].sec > 0
    ensures SameKinds(keys, Cascade(keys, ws, calls, i).0)
    decreases |ws| - i
  {
    if i < |ws| {
      CascadeKinds(keys, ws, calls, i + 1);
      CascadeKinds(keys[i := Check(keys[i], ws[i], calls[i]).0], ws, calls, i + 1);
    }
  }

  lemma {:induction false} ServeKinds(keys: seq<Key>, ws: seq<Window>, reqs: seq<Request>)
    requires |keys| == |ws| && CallsFor(reqs, ws) && forall j :: 0 <= j < |ws| ==> ws[j].sec > 0
    ensures SameKinds(keys, Serve(keys, ws, reqs).0)
    decreases |reqs|
  {
    if reqs != [] {
      ServeFirst(keys, ws, reqs);
      CascadeKinds(keys, ws, reqs[0].calls, 0);
      hide Cascade, CallsFor, Serve;
      ServeKinds(Cascade(keys, ws, reqs[0].calls, 0).0, ws, reqs[1..]);
    }
  }

  /** In particular the requests that got past a window keep to its bound. */
  lemma ServedWithinBound(keys: seq<Key>, ws: seq<Window>, ids: Draws, start: int, reqs: seq<Request>, i: nat)
    requires |keys| == |ws| && forall i :: 0 <= i < |ws| ==> ws[i].sec > 0 && EmptyKey(keys[i])
    requires NoneTwice(ids) && CallsFor(reqs, ws) && Timed(start, EventsOfAll(reqs))
    requires Newcomers(Fresh(keys, start), ids, reqs) && i < |ws| && ws[i].limit > 0
    ensures var (keys', ats) := Serve(keys, ws, reqs);
            && |keys'| == |ws| && |ats| == |reqs|
            && WithinLimit(Entered(map[], reqs, ats, i), ws[i].sec * 1000, Bound(keys'[i], ws[i]))
  {
    hide Run, Serve, EventsOfAll, Newcomers, Entered, ProgressOf, WithinLimit, Fair, NoneTwice, Timed;
    var s := Run(Fresh(keys, start), ws, ids, EventsOfAll(reqs));
    ServeIsARun(Fresh(keys, start), ws, ids, reqs);
    EveryInterleaving(keys, ws, ids, start, EventsOfAll(reqs));
    FairBound(s, ws, ids, i);
    assert Fresh(keys, start).logs[i] == map[];
  }

  lemma FairBound(s: State, ws: seq<Window>, ids: Draws, i: nat)
    requires Fair(s, ws, ids) && i < |ws|
    ensures WellFormed(s, ws) && WithinLimit(s.logs[i], ws[i].sec * 1000, Bound(s.keys[i], ws[i]))
  {
    hide WithinLimit;
  }
}
