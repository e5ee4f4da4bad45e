/** The gateway's route table kept in sync with the registry, by its own time of the last
    sync. */
module RouteRuns {
  import opened Wrappers
  import opened RouteEntry
  import opened RouteSync
  import opened DeltaSync
  import opened GatewayRoutes

  /** The time of the last sync is the whole second of it, so that every row stamped after
      a sync is in the next response. */
  lemma SinceIsTheSecond(s: Stored, op: Op, ttlSec: int)
    requires !op.Restart?
    ensures var since := Next(s, op, ttlSec).lastSyncAt;
            since * 1000 <= op.now < (since + 1) * 1000
  {}

  lemma LaterRowsArrive(s: Stored, op: Op, ttlSec: int, rows: seq<Row>, row: Row, key: string)
    requires !op.Restart? && OneRowPerKey(Payloads(rows)) && row in rows && Concerns(row.payload, key)
    requires op.now < row.updatedAt
    ensures LastRow(UpdatedAfter(rows, Next(s, op, ttlSec).lastSyncAt * 1000), key) == Normalize(row.payload)
  {
    var sinceMs := Next(s, op, ttlSec).lastSyncAt * 1000;
    SinceIsTheSecond(s, op, ttlSec);
    OnlyRow(rows, row, key);
    RowAtSpec(rows, key);
    ResponseHas(rows, sinceMs, key);
    ResponseRow(rows, sinceMs, key);
  }

  /** What the registry answers to a gateway in this state. */
  function Response(s: Stored, rows: seq<Row>): seq<Payload> {
    UpdatedAfter(rows, s.lastSyncAt * 1000)
  }

  function Follow(s: Stored, syncs: seq<Sync>, ttlSec: int): Stored
    decreases |syncs|
  {
    if syncs == [] then s
    else Follow(Next(s, Delta(syncs[0].nowMs, Response(s, syncs[0].rows)), ttlSec), syncs[1..], ttlSec)
  }

  /** After every one of the syncs the table is what a full sync would have given. */
  ghost predicate KeepsUp(s: Stored, syncs: seq<Sync>, ttlSec: int)
    decreases |syncs|
  {
    syncs == [] ||
    var s' := Next(s, Delta(syncs[0].nowMs, Response(s, syncs[0].rows)), ttlSec);
    InSync(s'.routes, syncs[0].rows) && KeepsUp(s', syncs[1..], ttlSec)
  }

  lemma {:induction false} KeepsUpIsAlwaysInSync(s: Stored, syncs: seq<Sync>, ttlSec: int)
    ensures KeepsUp(s, syncs, ttlSec) <==> AlwaysInSync(s.routes, s.lastSyncAt, syncs)
    ensures Follow(s, syncs, ttlSec).routes == AfterSyncs(s.routes, s.lastSyncAt, syncs)
    decreases |syncs|
  {
    hide InSync, Applied;
    if syncs != [] {
      KeepsUpIsAlwaysInSync(Next(s, Delta(syncs[0].nowMs, Response(s, syncs[0].rows)), ttlSec), syncs[1..], ttlSec);
    }
  }

  /** From any state on: a full sync, and then deltas since the gateway's own time of the
      last sync. The table is always in sync exactly when no row is overlooked. */
  lemma FullThenDeltas(s: Stored, rows: seq<Row>, readMs: int, nowMs: int, syncs: seq<Sync>, ttlSec: int)
    requires History(rows, readMs, syncs) && forall r :: r in rows ==> r.updatedAt > 0
    ensures var s' := Next(s, Full(nowMs, UpdatedAfter(rows, 0)), ttlSec);
            && InSync(s'.routes, rows) && UniqueKeys(s'.routes) && AllActive(s'.routes)
            && (KeepsUp(s', syncs, ttlSec) <==> NoneOverlooked(rows, readMs, nowMs / 1000, syncs))
  {
    var s' := Next(s, Full(nowMs, UpdatedAfter(rows, 0)), ttlSec);
    FromFullSync(rows, readMs, nowMs, syncs);
    KeepsUpIsAlwaysInSync(s', syncs, ttlSec);
  }

  /** The same on the table itself: a full sync and syncs, each asking since the table's own
      `lastSyncAt`. `kept` says whether after every one of them the table was in sync. */
  method Run(t: RouteTable, rows: seq<Row>, nowMs: int, syncs: seq<Sync>) returns (ghost kept: bool)
    modifies t
    ensures var s := Next(old(t.View()), Full(nowMs, UpdatedAfter(rows, 0)), t.ttlSec);
            t.View() == Follow(s, syncs, t.ttlSec)
    ensures forall readMs :: History(rows, readMs, syncs) && (forall r :: r in rows ==> r.updatedAt > 0) ==>
              (kept <==> NoneOverlooked(rows, readMs, nowMs / 1000, syncs))
  {
    t.FullSync(Some(UpdatedAfter(rows, 0)), nowMs);
    ghost var s := t.View();
    forall readMs | History(rows, readMs, syncs) && (forall r :: r in rows ==> r.updatedAt > 0)
      ensures InSync(t.routes, rows)
      ensures KeepsUp(s, syncs, t.ttlSec) <==> NoneOverlooked(rows, readMs, nowMs / 1000, syncs)
    {
      FullThenDeltas(old(t.View()), rows, readMs, nowMs, syncs, t.ttlSec);
    }
    hide InSync, History, NoneOverlooked, Applied, UpdatedAfter;
    ghost var first := InSync(t.routes, rows);
    kept := first;
    for n := 0 to |syncs|
      invariant Follow(t.View(), syncs[n..], t.ttlSec) == Follow(s, syncs, t.ttlSec)
      invariant (kept && KeepsUp(t.View(), syncs[n..], t.ttlSec)) <==> (first && KeepsUp(s, syncs, t.ttlSec))
    {
      assert syncs[n..][0] == syncs[n] && syncs[n..][1..] == syncs[n + 1..];
      t.SyncRoutes(Some(UpdatedAfter(syncs[n].rows, t.lastSyncAt * 1000)), syncs[n].nowMs);
      kept := kept && InSync(t.routes, syncs[n].rows);
    }
  }
}
