/** Deltas from the registry over time: what a response contains depends on when a row was
    stamped, and what a read sees on when it was committed. */
module DeltaSync {
  import opened Wrappers
  import opened RouteEntry
  import opened RouteSync

  /** A row of gateway_routes: updated_at, which is the start of the transaction that wrote
      it, and the commit of that transaction, both in milliseconds. */
  datatype Row = Row(payload: Payload, updatedAt: int, committedAt: int)

  function Payloads(rows: seq<Row>): seq<Payload> {
    if rows == [] then [] else [rows[0].payload] + Payloads(rows[1..])
  }

  /** GetRoutesUpdatedAfter */
  function UpdatedAfter(rows: seq<Row>, sinceMs: int): seq<Payload> {
    if rows == [] then []
    else if rows[0].updatedAt > sinceMs then [rows[0].payload] + UpdatedAfter(rows[1..], sinceMs)
    else UpdatedAfter(rows[1..], sinceMs)
  }

  /** With one row per key, a key's row is either in the response or has not changed
      since. */
  lemma {:induction false} ResponseRow(rows: seq<Row>, sinceMs: int, key: string)
    requires OneRowPerKey(Payloads(rows))
    ensures LastRow(UpdatedAfter(rows, sinceMs), key).Some? ==>
              LastRow(UpdatedAfter(rows, sinceMs), key) == LastRow(Payloads(rows), key)
  {
    if rows != [] {
      ResponseRow(rows[1..], sinceMs, key);
      assert Payloads(rows)[1..] == Payloads(rows[1..]);
      if rows[0].updatedAt > sinceMs {
        assert UpdatedAfter(rows, sinceMs)[1..] == UpdatedAfter(rows[1..], sinceMs);
      }
    }
  }

  /** An earlier `since` asks for more. */
  lemma {:induction false} EarlierHasMore(rows: seq<Row>, early: int, late: int, key: string)
    requires early <= late && LastRow(UpdatedAfter(rows, early), key) == None
    ensures LastRow(UpdatedAfter(rows, late), key) == None
  {
    if rows != [] {
      var rest := rows[1..];
      if rows[0].updatedAt > early {
        assert UpdatedAfter(rows, early)[1..] == UpdatedAfter(rest, early);
      }
      if rows[0].updatedAt > late {
        assert UpdatedAfter(rows, late)[1..] == UpdatedAfter(rest, late);
      }
      EarlierHasMore(rest, early, late, key);
    }
  }

  /** The table is, as a keyed map, what a full rebuild from `rows` gives. */
  ghost predicate InSync(rs: seq<Entry>, rows: seq<Row>) {
    SameTable(rs, Rebuilt(Payloads(rows)))
  }

  /** Every key whose active row differs between the two states has a row in the later
      one that changed after `sinceMs`. */
  ghost predicate ChangesSeen(rows: seq<Row>, rows': seq<Row>, sinceMs: int) {
    forall key :: LastRow(UpdatedAfter(rows', sinceMs), key) == None ==>
      Lookup(Rebuilt(Payloads(rows)), key) == Lookup(Rebuilt(Payloads(rows')), key)
  }

  /** A delta brings a table that was in sync back in sync exactly when no change is
      missing from the response. */
  lemma DeltaSyncsExactly(rs: seq<Entry>, rows: seq<Row>, rows': seq<Row>, sinceMs: int)
    requires UniqueKeys(rs) && AllActive(rs) && InSync(rs, rows) && OneRowPerKey(Payloads(rows'))
    ensures var rs' := Applied(rs, UpdatedAfter(rows', sinceMs));
            && UniqueKeys(rs') && AllActive(rs')
            && (InSync(rs', rows') <==> ChangesSeen(rows, rows', sinceMs))
  {
    var rs' := Applied(rs, UpdatedAfter(rows', sinceMs));
    DeltaLookup(rs, UpdatedAfter(rows', sinceMs), "");
    forall key
      ensures Lookup(rs', key) == Lookup(Rebuilt(Payloads(rows')), key) <==>
              (LastRow(UpdatedAfter(rows', sinceMs), key) == None ==>
                 Lookup(Rebuilt(Payloads(rows)), key) == Lookup(Rebuilt(Payloads(rows')), key))
    {
      DeltaLookup(rs, UpdatedAfter(rows', sinceMs), key);
      RebuiltLookup(Payloads(rows'), key);
      ResponseRow(rows', sinceMs, key);
      assert Lookup(rs, key) == Lookup(Rebuilt(Payloads(rows)), key);
    }
  }

  /** One sync: the rows the registry read at `readMs`, and the gateway's clock when it
      had applied them. The next sync asks for changes since the whole second of that. */
  datatype Sync = Sync(rows: seq<Row>, readMs: int, nowMs: int)

  function AfterSyncs(rs: seq<Entry>, since: int, syncs: seq<Sync>): seq<Entry>
    decreases |syncs|
  {
    if syncs == [] then rs
    else AfterSyncs(Applied(rs, UpdatedAfter(syncs[0].rows, since * 1000)), syncs[0].nowMs / 1000, syncs[1..])
  }

  /** After every one of the syncs the table is in sync with what the registry read. */
  ghost predicate AlwaysInSync(rs: seq<Entry>, since: int, syncs: seq<Sync>)
    decreases |syncs|
  {
    syncs == [] ||
    var rs' := Applied(rs, UpdatedAfter(syncs[0].rows, since * 1000));
    InSync(rs', syncs[0].rows) && AlwaysInSync(rs', syncs[0].nowMs / 1000, syncs[1..])
  }

  /** Every change is in the first response after it. */
  ghost predicate NoChangeMissed(rows: seq<Row>, since: int, syncs: seq<Sync>)
    decreases |syncs|
  {
    syncs == [] ||
    (ChangesSeen(rows, syncs[0].rows, since * 1000)
     && NoChangeMissed(syncs[0].rows, syncs[0].nowMs / 1000, syncs[1..]))
  }

  ghost predicate OneRowEach(syncs: seq<Sync>) {
    forall s :: s in syncs ==> OneRowPerKey(Payloads(s.rows))
  }

  /** From a table in sync on, it always is exactly when no change is missed. */
  lemma {:induction false} AlwaysInSyncExactly(rs: seq<Entry>, rows: seq<Row>, since: int, syncs: seq<Sync>)
    requires UniqueKeys(rs) && AllActive(rs) && InSync(rs, rows) && OneRowEach(syncs)
    ensures AlwaysInSync(rs, since, syncs) <==> NoChangeMissed(rows, since, syncs)
    decreases |syncs|
  {
    hide InSync, ChangesSeen;
    if syncs != [] {
      var next := syncs[0];
      var rs' := Applied(rs, UpdatedAfter(next.rows, since * 1000));
      assert next in syncs && forall s :: s in syncs[1..] ==> s in syncs;
      DeltaSyncsExactly(rs, rows, next.rows, since * 1000);
      if InSync(rs', next.rows) {
        AlwaysInSyncExactly(rs', next.rows, next.nowMs / 1000, syncs[1..]);
      }
    }
  }

  /** And after any number of deltas that miss no change the table equals, as a keyed map,
      a full rebuild from the last state the registry was seen in. */
  lemma {:induction false} DeltasEqualRebuild(rs: seq<Entry>, rows: seq<Row>, since: int, syncs: seq<Sync>)
    requires UniqueKeys(rs) && AllActive(rs) && InSync(rs, rows) && OneRowEach(syncs)
    requires NoChangeMissed(rows, since, syncs)
    ensures var rs' := AfterSyncs(rs, since, syncs);
            && UniqueKeys(rs') && AllActive(rs')
            && InSync(rs', if syncs == [] then rows else syncs[|syncs| - 1].rows)
    decreases |syncs|
  {
    hide InSync, ChangesSeen;
    if syncs != [] {
      var next := syncs[0];
      assert next in syncs && forall s :: s in syncs[1..] ==> s in syncs;
      DeltaSyncsExactly(rs, rows, next.rows, since * 1000);
      DeltasEqualRebuild(Applied(rs, UpdatedAfter(next.rows, since * 1000)), next.rows, next.nowMs / 1000, syncs[1..]);
    }
  }

  // ---- Stamps and commits --------------------------------------------------

  /** The last row with this key. */
  function RowAt(rows: seq<Row>, key: string): Option<Row> {
    if rows == [] then None
    else
      var later := RowAt(rows[1..], key);
      if later.Some? then later else if Concerns(rows[0].payload, key) then Some(rows[0]) else None
  }

  lemma {:induction false} RowAtSpec(rows: seq<Row>, key: string)
    ensures var r := RowAt(rows, key);
            && LastRow(Payloads(rows), key) == (if r.Some? then Normalize(r.value.payload) else None)
            && (r.Some? ==> r.value in rows && Concerns(r.value.payload, key))
  {
    hide Key, Normalize;
    if rows != [] {
      RowAtSpec(rows[1..], key);
      assert Payloads(rows)[1..] == Payloads(rows[1..]);
    }
  }

  lemma {:induction false} OnlyRow(rows: seq<Row>, row: Row, key: string)
    requires OneRowPerKey(Payloads(rows)) && row in rows && Concerns(row.payload, key)
    ensures RowAt(rows, key) == Some(row)
  {
    hide Key, Normalize;
    assert Payloads(rows)[1..] == Payloads(rows[1..]);
    if row in rows[1..] {
      OnlyRow(rows[1..], row, key);
    } else {
      RowAtSpec(rows[1..], key);
    }
  }

  /** A response has the row of a key exactly if it is stamped after `sinceMs`. */
  lemma {:induction false} ResponseHas(rows: seq<Row>, sinceMs: int, key: string)
    requires OneRowPerKey(Payloads(rows))
    ensures LastRow(UpdatedAfter(rows, sinceMs), key).Some? <==>
            RowAt(rows, key).Some? && RowAt(rows, key).value.updatedAt > sinceMs
  {
    hide Key, Normalize;
    if rows != [] {
      var rest := rows[1..];
      assert Payloads(rows)[1..] == Payloads(rest);
      ResponseHas(rest, sinceMs, key);
      RowAtSpec(rest, key);
      if rows[0].updatedAt > sinceMs {
        assert UpdatedAfter(rows, sinceMs)[1..] == UpdatedAfter(rest, sinceMs);
      }
    }
  }

  /** From a read at `readMs` to a later one: what had been committed by then was read, and
      no row has been deleted. */
  ghost predicate Evolves(rows: seq<Row>, rows': seq<Row>, readMs: int) {
    forall key :: RowAt(rows', key) == None || RowAt(rows', key).value.committedAt <= readMs
      ==> RowAt(rows, key) == RowAt(rows', key)
  }

  /** A row that the read was too early for and the next `since` is too late for, and that
      changes the table. */
  predicate Overlooked(row: Row, rows: seq<Row>, readMs: int, since: int) {
    && readMs < row.committedAt && row.updatedAt <= since * 1000
    && Normalize(row.payload).Some?
    && IfActive(Normalize(row.payload)) != Lookup(Rebuilt(Payloads(rows)), Key(Normalize(row.payload).value))
  }

  /** The next response has every change exactly when no row is overlooked. */
  lemma SeenExactly(rows: seq<Row>, rows': seq<Row>, readMs: int, since: int)
    requires OneRowPerKey(Payloads(rows)) && OneRowPerKey(Payloads(rows')) && Evolves(rows, rows', readMs)
    ensures ChangesSeen(rows, rows', since * 1000) <==>
            forall row :: row in rows' ==> !Overlooked(row, rows, readMs, since)
  {
    hide Key, Normalize;
    if forall row :: row in rows' ==> !Overlooked(row, rows, readMs, since) {
      forall key | LastRow(UpdatedAfter(rows', since * 1000), key) == None
        ensures Lookup(Rebuilt(Payloads(rows)), key) == Lookup(Rebuilt(Payloads(rows')), key)
      {
        ResponseHas(rows', since * 1000, key);
        RebuiltLookup(Payloads(rows), key);
        RebuiltLookup(Payloads(rows'), key);
        RowAtSpec(rows, key);
        RowAtSpec(rows', key);
      }
    }
    if ChangesSeen(rows, rows', since * 1000) {
      forall row | row in rows' ensures !Overlooked(row, rows, readMs, since) {
        if Overlooked(row, rows, readMs, since) {
          var key := Key(Normalize(row.payload).value);
          OnlyRow(rows', row, key);
          ResponseHas(rows', since * 1000, key);
          RebuiltLookup(Payloads(rows'), key);
          RowAtSpec(rows', key);
        }
      }
    }
  }

  /** What the registry does between the reads of a run. */
  ghost predicate History(rows: seq<Row>, readMs: int, syncs: seq<Sync>)
    decreases |syncs|
  {
    OneRowPerKey(Payloads(rows)) &&
    (syncs == [] || (Evolves(rows, syncs[0].rows, readMs) && History(syncs[0].rows, syncs[0].readMs, syncs[1..])))
  }

  ghost predicate NoneOverlooked(rows: seq<Row>, readMs: int, since: int, syncs: seq<Sync>)
    decreases |syncs|
  {
    syncs == [] ||
    ((forall row :: row in syncs[0].rows ==> !Overlooked(row, rows, readMs, since))
     && NoneOverlooked(syncs[0].rows, syncs[0].readMs, syncs[0].nowMs / 1000, syncs[1..]))
  }

  lemma {:induction false} MissedIsOverlooked(rows: seq<Row>, readMs: int, since: int, syncs: seq<Sync>)
    requires History(rows, readMs, syncs)
    ensures NoChangeMissed(rows, since, syncs) <==> NoneOverlooked(rows, readMs, since, syncs)
    ensures OneRowEach(syncs)
    decreases |syncs|
  {
    hide ChangesSeen, Overlooked, Evolves;
    if syncs != [] {
      var next := syncs[0];
      MissedIsOverlooked(next.rows, next.readMs, next.nowMs / 1000, syncs[1..]);
      SeenExactly(rows, next.rows, readMs, since);
      assert forall s :: s in syncs ==> s == next || s in syncs[1..];
    }
  }

  /** A full sync and any number of deltas: the table always is what a full sync would
      have given exactly when no row is ever overlooked. */
  lemma FromFullSync(rows: seq<Row>, readMs: int, nowMs: int, syncs: seq<Sync>)
    requires History(rows, readMs, syncs) && forall r :: r in rows ==> r.updatedAt > 0
    ensures var rs := Rebuilt(UpdatedAfter(rows, 0));
            && InSync(rs, rows) && UniqueKeys(rs) && AllActive(rs)
            && (AlwaysInSync(rs, nowMs / 1000, syncs) <==> NoneOverlooked(rows, readMs, nowMs / 1000, syncs))
  {
    AllUpdated(rows);
    RebuiltLookup(Payloads(rows), "");
    MissedIsOverlooked(rows, readMs, nowMs / 1000, syncs);
    AlwaysInSyncExactly(Rebuilt(Payloads(rows)), rows, nowMs / 1000, syncs);
  }

  lemma {:induction false} AllUpdated(rows: seq<Row>)
    requires forall r :: r in rows ==> r.updatedAt > 0
    ensures UpdatedAfter(rows, 0) == Payloads(rows)
  {
    if rows != [] {
      AllUpdated(rows[1..]);
    }
  }

  /** A row stamped no later than `since` is lost for good: as long as the registry stays
      as it is, no later delta brings it. */
  lemma {:induction false} LostForGood(rs: seq<Entry>, rows: seq<Row>, since: int, syncs: seq<Sync>, key: string)
    requires UniqueKeys(rs) && AllActive(rs) && LastRow(UpdatedAfter(rows, since * 1000), key) == None
    requires forall s :: s in syncs ==> s.rows == rows && since <= s.nowMs / 1000
    requires forall i, j :: 0 <= i < j < |syncs| ==> syncs[i].nowMs <= syncs[j].nowMs
    ensures Lookup(AfterSyncs(rs, since, syncs), key) == Lookup(rs, key)
    decreases |syncs|
  {
    if syncs != [] {
      var since' := syncs[0].nowMs / 1000;
      DeltaLookup(rs, UpdatedAfter(rows, since * 1000), key);
      EarlierHasMore(rows, since * 1000, since' * 1000, key);
      assert forall s :: s in syncs[1..] ==> s in syncs;
      forall j | 0 <= j < |syncs[1..]| ensures since' <= syncs[1..][j].nowMs / 1000 {
        assert syncs[0].nowMs <= syncs[1 + j].nowMs;
      }
      LostForGood(Applied(rs, UpdatedAfter(rows, since * 1000)), rows, since', syncs[1..], key);
    }
  }

  /** A route added by a transaction that commits after a read and is stamped no later than
      the second in which the gateway then looks at its clock. */
  lemma AddedAndLost(p: Payload, stampMs: int, commitMs: int, readMs: int, nowMs: int, later: seq<Sync>)
    requires Normalize(p).Some? && p.active && readMs < commitMs && stampMs <= nowMs / 1000 * 1000
    requires forall s :: s in later ==> s.rows == [Row(p, stampMs, commitMs)] && nowMs <= s.nowMs
    requires forall i, j :: 0 <= i < j < |later| ==> later[i].nowMs <= later[j].nowMs
    ensures var row, key := Row(p, stampMs, commitMs), Key(Normalize(p).value);
            && Evolves([], [row], readMs) && Overlooked(row, [], readMs, nowMs / 1000)
            && Lookup(AfterSyncs([], nowMs / 1000, later), key) == None
            && Lookup(Rebuilt(Payloads([row])), key) == Normalize(p)
  {
    var row, key := Row(p, stampMs, commitMs), Key(Normalize(p).value);
    var rows := [row];
    assert rows[1..] == [] && Payloads(rows) == [p] && [p][1..] == [];
    assert UpdatedAfter(rows, nowMs / 1000 * 1000) == [];
    assert RowAt(rows[1..], key) == None;
    hide Key, Normalize;
    assert forall k :: RowAt(rows, k) == (if Concerns(p, k) then Some(row) else None);
    LostForGood([], rows, nowMs / 1000, later, key);
    assert Rebuilt([p]) == [Normalize(p).value] by {
      assert Rebuilt([]) == [];
    }
    assert LastRow([], key) == None && Payloads([]) == [];
  }

  /** There are two ways for that: the route is added after the read, but in a second that
      has begun when the gateway looks at its clock; */
  lemma SecondCrossed(p: Payload, later: seq<Sync>)
    requires Normalize(p).Some? && p.active
    requires forall s :: s in later ==> s.rows == [Row(p, 10500, 10600)] && 11100 <= s.nowMs
    requires forall i, j :: 0 <= i < j < |later| ==> later[i].nowMs <= later[j].nowMs
    ensures Overlooked(Row(p, 10500, 10600), [], 10200, 11100 / 1000)
    ensures Lookup(AfterSyncs([], 11100 / 1000, later), Key(Normalize(p).value)) == None
  {
    hide *;
    AddedAndLost(p, 10500, 10600, 10200, 11100, later);
  }

  /** or read and clock fall in one second, but the transaction began in an earlier one. */
  lemma LongTransaction(p: Payload, later: seq<Sync>)
    requires Normalize(p).Some? && p.active
    requires forall s :: s in later ==> s.rows == [Row(p, 9900, 10300)] && 10400 <= s.nowMs
    requires forall i, j :: 0 <= i < j < |later| ==> later[i].nowMs <= later[j].nowMs
    ensures Overlooked(Row(p, 9900, 10300), [], 10200, 10400 / 1000)
    ensures Lookup(AfterSyncs([], 10400 / 1000, later), Key(Normalize(p).value)) == None
  {
    hide *;
    AddedAndLost(p, 9900, 10300, 10200, 10400, later);
  }

  /** What is enough: every row committed after a read is stamped in a second after that
      in which the gateway looks at its clock. */
  predicate StampedLater(readMs: int, since: int, syncs: seq<Sync>)
    decreases |syncs|
  {
    syncs == [] ||
    ((forall row :: row in syncs[0].rows && readMs < row.committedAt ==> since * 1000 < row.updatedAt)
     && StampedLater(syncs[0].readMs, syncs[0].nowMs / 1000, syncs[1..]))
  }

  lemma {:induction false} StampedLaterOverlooksNone(rows: seq<Row>, readMs: int, since: int, syncs: seq<Sync>)
    requires StampedLater(readMs, since, syncs)
    ensures NoneOverlooked(rows, readMs, since, syncs)
    decreases |syncs|
  {
    if syncs != [] {
      StampedLaterOverlooksNone(syncs[0].rows, syncs[0].readMs, syncs[0].nowMs / 1000, syncs[1..]);
    }
  }
}
