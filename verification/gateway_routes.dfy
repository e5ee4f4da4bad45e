/** The gateway's route table, its copy in Redis, and what a restart makes of it. */
module GatewayRoutes {
  import opened Wrappers
  import opened RouteEntry
  import opened RouteSync
  import opened RouteCache

  /** The table, when it was last in sync, and the copy, if one was written, with the time
      at which it expires. */
  datatype Stored = Stored(routes: seq<Entry>, lastSyncAt: int, cached: Option<seq<Payload>>, cachedUntil: int)

  const FRESH := Stored([], 0, None, 0)

  /** A response that was applied, or a new start of the gateway, and the time of it. */
  datatype Op = Delta(now: int, rows: seq<Payload>) | Full(now: int, rows: seq<Payload>) | Restart(now: int)

  /** A delta writes the copy only if it leaves a route; a full sync always does. */
  function Next(s: Stored, op: Op, ttlSec: int): Stored {
    match op
    case Delta(now, rows) =>
      var rs := Applied(s.routes, rows);
      if rs != [] then Stored(rs, now / 1000, Some(CachedAll(rs)), now + ttlSec * 1000)
      else s.(routes := rs, lastSyncAt := now / 1000)
    case Full(now, rows) =>
      Stored(Rebuilt(rows), now / 1000, Some(CachedAll(Rebuilt(rows))), now + ttlSec * 1000)
    case Restart(now) => s.(routes := Restarted(s, now), lastSyncAt := 0)
  }

  function After(ops: seq<Op>, ttlSec: int): Stored {
    if ops == [] then FRESH else Next(After(ops[..|ops| - 1], ttlSec), ops[|ops| - 1], ttlSec)
  }

  /** A gateway that starts again reads the copy, if there is one that has not expired. */
  function Restarted(s: Stored, now: int): seq<Entry> {
    if Live(s, now) then NormalizeAll(s.cached.value) else []
  }

  predicate Live(s: Stored, now: int) {
    s.cached.Some? && now < s.cachedUntil
  }

  /** The clock never runs backwards. */
  predicate Timed(ops: seq<Op>, now: int) {
    ops == [] || (ops[|ops| - 1].now <= now && Timed(ops[..|ops| - 1], ops[|ops| - 1].now))
  }

  // ---- What a restart restores ---------------------------------------------

  /** The copy that was written last: the table then, and the time. */
  datatype Write = Write(routes: seq<Entry>, at: int)

  function LastWrite(ops: seq<Op>, ttlSec: int): Option<Write> {
    if ops == [] then None
    else if Writes(ops, ttlSec) then Some(Write(After(ops, ttlSec).routes, ops[|ops| - 1].now))
    else LastWrite(ops[..|ops| - 1], ttlSec)
  }

  predicate Writes(ops: seq<Op>, ttlSec: int)
    requires ops != []
  {
    var op := ops[|ops| - 1];
    op.Full? || (op.Delta? && After(ops, ttlSec).routes != [])
  }

  /** A restart reads that table, until its copy expires. */
  lemma {:induction false} CopyIsLastWritten(ops: seq<Op>, ttlSec: int, now: int)
    ensures var w := LastWrite(ops, ttlSec);
            && (Live(After(ops, ttlSec), now) <==> w.Some? && now < w.value.at + ttlSec * 1000)
            && Restarted(After(ops, ttlSec), now) ==
                 if w.Some? && now < w.value.at + ttlSec * 1000 then NormalizeAll(CachedAll(w.value.routes)) else []
  {
    if ops != [] {
      CopyIsLastWritten(ops[..|ops| - 1], ttlSec, now);
    }
  }

  lemma {:induction false} RunNormal(ops: seq<Op>, ttlSec: int)
    ensures AllNormal(After(ops, ttlSec).routes)
    ensures LastWrite(ops, ttlSec).Some? ==> AllNormal(LastWrite(ops, ttlSec).value.routes)
  {
    if ops != [] {
      var before, op := After(ops[..|ops| - 1], ttlSec), ops[|ops| - 1];
      RunNormal(ops[..|ops| - 1], ttlSec);
      match op
      case Delta(_, rows) => AppliedNormal(before.routes, rows);
      case Full(_, rows) => RebuiltNormal(rows);
      case Restart(_) =>
        if before.cached.Some? {
          AllOfNormal(before.cached.value);
        }
    }
  }

  lemma {:induction false} AppliedNormal(rs: seq<Entry>, rows: seq<Payload>)
    requires AllNormal(rs)
    ensures AllNormal(Applied(rs, rows))
    decreases |rows|
  {
    hide Key, Normalize;
    if rows != [] {
      var r := Normalize(rows[0]);
      if r.Some? {
        assert Normal(r.value);
        AppliedNormal(Upsert(rs, r.value), rows[1..]);
      } else {
        AppliedNormal(rs, rows[1..]);
      }
    }
  }

  lemma {:induction false} AllOfNormal(rows: seq<Payload>)
    ensures AllNormal(NormalizeAll(rows))
  {
    hide Key, Normalize;
    if rows != [] {
      AllOfNormal(rows[1..]);
      var r := Normalize(rows[0]);
      assert r.Some? ==> Normal(r.value);
    }
  }

  lemma {:induction false} RebuiltNormal(rows: seq<Payload>)
    ensures AllNormal(Rebuilt(rows))
  {
    hide Key, Normalize;
    if rows != [] {
      RebuiltNormal(rows[1..]);
      var r := Normalize(rows[0]);
      assert r.Some? ==> Normal(r.value);
    }
  }

  /** After any run a restart restores the table exactly when:
      the copy has expired, or was never written, and the table is empty;
      or else nothing has happened since the last restart;
      or the copy was just written, and all entries survive the cache;
      or a delta has just left no route, and the copy, from an earlier write, has none that
      can be read back. */
  lemma SurvivesExactly(ops: seq<Op>, ttlSec: int, now: int)
    requires Timed(ops, now)
    ensures var s := After(ops, ttlSec);
            var w := LastWrite(ops, ttlSec);
            Restarted(s, now) == s.routes <==>
            if w == None || w.value.at + ttlSec * 1000 <= now then s.routes == []
            else if ops[|ops| - 1].Restart? then true
            else if Writes(ops, ttlSec) then forall e :: e in s.routes ==> Reloadable(e)
            else forall e :: e in w.value.routes ==> e.pathPrefix == ""
  {
    var s, w := After(ops, ttlSec), LastWrite(ops, ttlSec);
    CopyIsLastWritten(ops, ttlSec, now);
    RunNormal(ops, ttlSec);
    if w.Some? {
      TableReloadExact(w.value.routes);
      ReadsBackEmpty(w.value.routes);
      if ops[|ops| - 1].Restart? {
        CopyIsLastWritten(ops[..|ops| - 1], ttlSec, ops[|ops| - 1].now);
      }
    }
    hide NormalizeAll, CachedAll, AllNormal, Applied, Rebuilt, Reloadable, Live;
  }

  /** The last route is deactivated by a delta: a restart brings it back, active, until the
      copy expires, and from then on leaves the table empty as it was. */
  lemma DeactivatedComesBack(p: Payload, fullAt: int, deltaAt: int, now: int, ttlSec: int)
    requires p.active && Normalize(p).Some? && Reloadable(Normalize(p).value)
    ensures var s := After([Full(fullAt, [p]), Delta(deltaAt, [p.(active := false)])], ttlSec);
            && s.routes == [] && Normalize(p).value.active
            && Restarted(s, now) == if now < fullAt + ttlSec * 1000 then [Normalize(p).value] else []
  {
    hide Key, Normalize, Applied, Rebuilt, Reloadable, NormalizeAll, CachedAll, Next, After;
    var e := Normalize(p).value;
    AfterTwo(Full(fullAt, [p]), Delta(deltaAt, [p.(active := false)]), ttlSec);
    AddedThenRemovedAt(p, fullAt, deltaAt, ttlSec);
    AddedThenRemoved(p);
    assert Normal(e) && AllNormal([e]);
    TableReloadExact([e]);
  }

  lemma AfterTwo(first: Op, second: Op, ttlSec: int)
    ensures After([first, second], ttlSec) == Next(Next(FRESH, first, ttlSec), second, ttlSec)
  {
    assert [first, second][..1] == [first] && [first][..0] == [];
    assert After([first], ttlSec) == Next(After([], ttlSec), first, ttlSec);
  }

  lemma AddedThenRemovedAt(p: Payload, fullAt: int, deltaAt: int, ttlSec: int)
    requires p.active && Normalize(p).Some?
    ensures Next(Next(FRESH, Full(fullAt, [p]), ttlSec), Delta(deltaAt, [p.(active := false)]), ttlSec) ==
              Stored([], deltaAt / 1000, Some(CachedAll([Normalize(p).value])), fullAt + ttlSec * 1000)
  {
    hide Key, Normalize, Applied, Rebuilt, CachedAll;
    AddedThenRemoved(p);
  }

  lemma AddedThenRemoved(p: Payload)
    requires p.active && Normalize(p).Some?
    ensures Rebuilt([p]) == [Normalize(p).value] && Normalize(p).value.active
    ensures Applied([Normalize(p).value], [p.(active := false)]) == []
  {
    var e, q := Normalize(p).value, p.(active := false);
    assert [p][1..] == [] && [q][1..] == [];
    assert Rebuilt([]) == [];
    assert Key(Normalize(q).value) == Key(e) && !Normalize(q).value.active;
    hide Key, Normalize;
    assert Upsert([e], Normalize(q).value) == [] by {
      assert [e][..0] + [e][1..] == [];
    }
    assert Applied([e], [q]) == Applied([], []);
  }

  // ---- The module state ----------------------------------------------------

  /** normalizeRoutes */
  method NormalizeRoutes(next: seq<Payload>) returns (rs: seq<Entry>)
    ensures rs == NormalizeAll(next)
  {
    hide Normalize;
    rs := [];
    for n := 0 to |next|
      invariant rs + NormalizeAll(next[n..]) == NormalizeAll(next)
    {
      assert next[n..][0] == next[n] && next[n..][1..] == next[n + 1..];
      var r := Normalize(next[n]);
      if r.Some? {
        rs := rs + [r.value];
      }
    }
    assert rs + [] == rs;
  }

  function Actives(rs: seq<Entry>): seq<Entry> {
    if rs == [] then [] else (if rs[0].active then [rs[0]] else []) + Actives(rs[1..])
  }

  /** filter((r) => r.active) */
  method FilterActive(rs: seq<Entry>) returns (r: seq<Entry>)
    ensures r == Actives(rs)
  {
    r := [];
    for n := 0 to |rs|
      invariant r + Actives(rs[n..]) == Actives(rs)
    {
      assert rs[n..][0] == rs[n] && rs[n..][1..] == rs[n + 1..];
      if rs[n].active {
        r := r + [rs[n]];
      }
    }
    assert r + [] == r;
  }

  /** Normalizing all rows and then keeping the active ones. */
  lemma {:induction false} ActivesOfAll(ps: seq<Payload>)
    ensures Actives(NormalizeAll(ps)) == Rebuilt(ps)
  {
    hide Normalize;
    if ps != [] {
      ActivesOfAll(ps[1..]);
      var r := Normalize(ps[0]);
      if r.Some? {
        assert ([r.value] + NormalizeAll(ps[1..]))[1..] == NormalizeAll(ps[1..]);
      } else {
        assert [] + Rebuilt(ps[1..]) == Rebuilt(ps[1..]);
      }
    }
  }

  class RouteTable {
    var routes: seq<Entry>
    var lastSyncAt: int
    /** The value in Redis and the time at which it expires there. */
    var cached: Option<seq<Payload>>
    var cachedUntil: int
    /** ROUTE_CACHE_TTL_S */
    const ttlSec: int

    constructor (ttlSec: int)
      ensures View() == FRESH && this.ttlSec == ttlSec
    {
      routes, lastSyncAt, cached, cachedUntil := [], 0, None, 0;
      this.ttlSec := ttlSec;
    }

    function View(): Stored
      reads this
    {
      Stored(routes, lastSyncAt, cached, cachedUntil)
    }

    method ApplyDelta(delta: seq<Payload>)
      modifies this`routes
      ensures routes == Applied(old(routes), delta)
    {
      for n := 0 to |delta|
        invariant Applied(routes, delta[n..]) == Applied(old(routes), delta)
      {
        assert delta[n..][1..] == delta[n + 1..];
        var r := Normalize(delta[n]);
        if r == None {
          continue;
        }
        var key := Key(r.value);
        var idx := IndexOf(routes, key);
        if !r.value.active {
          if idx < |routes| {
            routes := routes[..idx] + routes[idx + 1..];
          }
        } else if idx < |routes| {
          routes := routes[idx := r.value];
        } else {
          routes := routes + [r.value];
        }
      }
    }

    /** syncRoutes; a failed request, or one without a list of routes, is `None`. */
    method SyncRoutes(response: Option<seq<Payload>>, nowMs: int)
      modifies this
      ensures View() ==
                if response == None then old(View()) else Next(old(View()), Delta(nowMs, response.value), ttlSec)
    {
      if response == None {
        return;
      }
      ApplyDelta(response.value);
      lastSyncAt := nowMs / 1000;
      if |routes| > 0 {
        cached, cachedUntil := Some(CachedAll(routes)), nowMs + ttlSec * 1000;
      }
    }

    method FullSync(response: Option<seq<Payload>>, nowMs: int)
      modifies this
      ensures View() ==
                if response == None then old(View()) else Next(old(View()), Full(nowMs, response.value), ttlSec)
    {
      if response == None {
        return;
      }
      var all := NormalizeRoutes(response.value);
      routes := FilterActive(all);
      ActivesOfAll(response.value);
      lastSyncAt := nowMs / 1000;
      cached, cachedUntil := Some(CachedAll(routes)), nowMs + ttlSec * 1000;
    }

    /** Whatever is cached, active or not, unless it has expired. */
    method LoadFromCache(nowMs: int)
      modifies this`routes
      ensures routes == if Live(old(View()), nowMs) then NormalizeAll(cached.value) else old(routes)
    {
      if cached.Some? && nowMs < cachedUntil {
        routes := NormalizeRoutes(cached.value);
      }
    }

    /** A new process: the module starts with its initial values, and Redis has what the
        old one left there. */
    method StartAgain(nowMs: int)
      modifies this`routes, this`lastSyncAt
      ensures View() == Next(old(View()), Restart(nowMs), ttlSec)
    {
      routes, lastSyncAt := [], 0;
      LoadFromCache(nowMs);
    }
  }
}
