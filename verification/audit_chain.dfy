/** The audit log as many appenders build it: each runs one transaction, a statement
    at a time, under READ COMMITTED and one transaction-scoped advisory lock. */
module AuditChain {
  datatype Record = Record(topic: string, payload: string)

  datatype Row = Row(id: nat, rec: Record, prevHash: string, rowHash: string)

  /** How far a transaction got. */
  datatype Stage = Begun | Locked | Selected(prevHash: string) | Inserted(row: Row)

  datatype Tx = Tx(rec: Record, stage: Stage)

  datatype Lock = Free | Held(owner: nat)

  /** `committed` holds the rows a new snapshot sees, in the order of their commits;
      `nextId` is the id sequence, which a rollback does not turn back; `lost` are the
      ids that rolled-back inserts had drawn. */
  datatype State = State(committed: seq<Row>, lock: Lock, nextId: nat, txs: map<nat, Tx>, lost: set<nat>)

  const EMPTY := State([], Free, 1, map[], {})

  datatype Event =
    | Begin(a: nat, rec: Record)
    | AcquireLock(a: nat)
    | SelectLast(a: nat)
    | Insert(a: nat)
    | Commit(a: nat)
    | Rollback(a: nat)

  function HashInput(prevHash: string, rec: Record): string {
    prevHash + "|" + rec.topic + "|" + rec.payload
  }

  /** A digest is a hexadecimal text. */
  ghost predicate IsDigest(h: string -> string) {
    forall x: string :: h(x) != "" && '|' !in h(x)
  }

  /** SELECT row_hash ... ORDER BY id DESC LIMIT 1, and '' when there is no row. */
  function NewestHash(rows: seq<Row>): string {
    if rows == [] then "" else Newest(rows).rowHash
  }

  function Newest(rows: seq<Row>): Row
    requires rows != []
  {
    if |rows| == 1 then rows[0]
    else
      var best := Newest(rows[1..]);
      if best.id < rows[0].id then rows[0] else best
  }

  predicate At(s: State, a: nat, stage: Stage) {
    a in s.txs && s.txs[a].stage == stage
  }

  predicate HoldsLock(t: Tx) {
    !t.stage.Begun?
  }

  /** A statement whose turn it is not, or that has to wait, changes nothing. */
  function Step(h: string -> string, s: State, e: Event): State {
    match e
    case Begin(a, rec) =>
      if a in s.txs then s else s.(txs := s.txs[a := Tx(rec, Begun)])
    case AcquireLock(a) =>
      if At(s, a, Begun) && s.lock.Free? then
        s.(lock := Held(a), txs := s.txs[a := s.txs[a].(stage := Locked)])
      else s
    case SelectLast(a) =>
      if At(s, a, Locked) then
        s.(txs := s.txs[a := s.txs[a].(stage := Selected(NewestHash(s.committed)))])
      else s
    case Insert(a) =>
      if a in s.txs && s.txs[a].stage.Selected? then
        var t := s.txs[a];
        var prev := t.stage.prevHash;
        var row := Row(s.nextId, t.rec, prev, h(HashInput(prev, t.rec)));
        s.(nextId := s.nextId + 1, txs := s.txs[a := t.(stage := Inserted(row))])
      else s
    case Commit(a) =>
      if a in s.txs && s.txs[a].stage.Inserted? then
        s.(committed := s.committed + [s.txs[a].stage.row], lock := Free, txs := s.txs - {a})
      else s
    case Rollback(a) =>
      if a in s.txs then
        var t := s.txs[a];
        State(s.committed, if HoldsLock(t) then Free else s.lock, s.nextId, s.txs - {a},
              s.lost + if t.stage.Inserted? then {t.stage.row.id} else {})
      else s
  }

  function Run(h: string -> string, s: State, events: seq<Event>): State
    decreases |events|
  {
    if events == [] then s else Run(h, Step(h, s, events[0]), events[1..])
  }

  // ---- One unforked chain --------------------------------------------------

  predicate Linked(h: string -> string, row: Row, prevHash: string) {
    row.prevHash == prevHash && row.rowHash == h(HashInput(prevHash, row.rec))
  }

  function TipHash(rows: seq<Row>): string {
    if rows == [] then "" else rows[|rows| - 1].rowHash
  }

  function TipId(rows: seq<Row>): nat {
    if rows == [] then 0 else rows[|rows| - 1].id
  }

  /** Ids rise from 1, the first row has no predecessor, and every other row names the
      one before it. */
  predicate Chain(h: string -> string, rows: seq<Row>)
    decreases |rows|
  {
    rows == [] ||
    var before, last := rows[..|rows| - 1], rows[|rows| - 1];
    Chain(h, before) && TipId(before) < last.id && Linked(h, last, TipHash(before))
  }

  lemma ChainGrows(h: string -> string, rows: seq<Row>, row: Row)
    requires Chain(h, rows) && TipId(rows) < row.id && Linked(h, row, TipHash(rows))
    ensures Chain(h, rows + [row])
  {
    assert (rows + [row])[..|rows|] == rows;
  }

  /** The hash of the row before row `i`. */
  function HashBefore(rows: seq<Row>, i: nat): string
    requires i < |rows|
  {
    if i == 0 then "" else rows[i - 1].rowHash
  }

  /** The same, row by row. */
  lemma {:induction false} ChainLink(h: string -> string, rows: seq<Row>, i: nat)
    requires Chain(h, rows) && i < |rows|
    ensures Linked(h, rows[i], HashBefore(rows, i))
  {
    if i < |rows| - 1 {
      ChainLink(h, rows[..|rows| - 1], i);
    }
  }

  lemma {:induction false} ChainIds(h: string -> string, rows: seq<Row>)
    requires Chain(h, rows)
    ensures forall i :: 0 <= i < |rows| ==> 0 < rows[i].id <= TipId(rows)
    ensures forall i, j :: 0 <= i < j < |rows| ==> rows[i].id < rows[j].id
  {
    if rows != [] {
      ChainIds(h, rows[..|rows| - 1]);
    }
  }

  lemma {:induction false} NewestIsLast(rows: seq<Row>)
    requires rows != [] && forall i, j :: 0 <= i < j < |rows| ==> rows[i].id < rows[j].id
    ensures Newest(rows) == rows[|rows| - 1]
  {
    if |rows| > 1 {
      NewestIsLast(rows[1..]);
    }
  }

  lemma NewestHashIsTip(h: string -> string, rows: seq<Row>)
    requires Chain(h, rows)
    ensures NewestHash(rows) == TipHash(rows)
  {
    ChainIds(h, rows);
    if rows != [] {
      NewestIsLast(rows);
    }
  }

  function Ids(rows: seq<Row>): set<nat> {
    set r | r in rows :: r.id
  }

  /** One transaction at a time has the lock, and only that one is past it. */
  predicate LockOk(s: State) {
    && (s.lock.Held? ==> s.lock.owner in s.txs)
    && (forall a :: a in s.txs ==> (HoldsLock(s.txs[a]) <==> s.lock == Held(a)))
  }

  /** The lock holder still sees the tip, and its row, if any, extends it. */
  predicate HolderOk(h: string -> string, s: State) {
    s.lock.Held? && s.lock.owner in s.txs ==>
      match s.txs[s.lock.owner].stage
      case Begun => true
      case Locked => true
      case Selected(prev) => prev == TipHash(s.committed)
      case Inserted(row) => Linked(h, row, TipHash(s.committed)) && TipId(s.committed) < row.id < s.nextId
  }

  predicate InFlight(s: State, id: nat) {
    s.lock.Held? && s.lock.owner in s.txs
    && s.txs[s.lock.owner].stage.Inserted? && s.txs[s.lock.owner].stage.row.id == id
  }

  /** Every id drawn so far is committed, in flight or lost, and only one of them. */
  predicate IdsOk(s: State) {
    && (forall id :: 0 < id < s.nextId ==> id in Ids(s.committed) || id in s.lost || InFlight(s, id))
    && (forall id :: id in s.lost ==> 0 < id < s.nextId && id !in Ids(s.committed) && !InFlight(s, id))
  }

  /** What every step keeps. */
  predicate Inv(h: string -> string, s: State) {
    Chain(h, s.committed) && TipId(s.committed) < s.nextId && LockOk(s) && HolderOk(h, s) && IdsOk(s)
  }

  lemma IdsBounded(h: string -> string, rows: seq<Row>)
    requires Chain(h, rows)
    ensures forall id :: id in Ids(rows) ==> 0 < id <= TipId(rows)
  {
    ChainIds(h, rows);
  }

  lemma CommitKeepsInv(h: string -> string, s: State, a: nat)
    requires Inv(h, s) && a in s.txs && s.txs[a].stage.Inserted?
    ensures Inv(h, Step(h, s, Commit(a)))
  {
    var row := s.txs[a].stage.row;
    assert HoldsLock(s.txs[a]) && InFlight(s, row.id);
    ChainGrows(h, s.committed, row);
    assert Ids(s.committed + [row]) == Ids(s.committed) + {row.id};
    hide Chain, Ids;
  }

  lemma RollbackKeepsInv(h: string -> string, s: State, a: nat)
    requires Inv(h, s) && a in s.txs
    ensures Inv(h, Step(h, s, Rollback(a)))
  {
    IdsBounded(h, s.committed);
    hide Chain, Ids, Linked, TipId, TipHash;
  }

  lemma StepKeepsInv(h: string -> string, s: State, e: Event)
    requires Inv(h, s)
    ensures Inv(h, Step(h, s, e))
  {
    IdsBounded(h, s.committed);
    NewestHashIsTip(h, s.committed);
    hide Chain, Ids, HashInput, NewestHash, TipHash, TipId;
    match e
    case Begin(a, rec) =>
    case AcquireLock(a) =>
    case SelectLast(a) =>
    case Insert(a) =>
    case Commit(a) =>
      if a in s.txs && s.txs[a].stage.Inserted? {
        CommitKeepsInv(h, s, a);
      }
    case Rollback(a) =>
      if a in s.txs {
        RollbackKeepsInv(h, s, a);
      }
  }

  lemma {:induction false} RunKeepsInv(h: string -> string, s: State, events: seq<Event>)
    requires Inv(h, s)
    ensures Inv(h, Run(h, s, events))
    decreases |events|
  {
    hide Inv, Step;
    if events != [] {
      StepKeepsInv(h, s, events[0]);
      RunKeepsInv(h, Step(h, s, events[0]), events[1..]);
    }
  }

  /** In every interleaving of any number of appenders, rollbacks included, the
      committed rows form one unforked chain in the order of their ids. */
  lemma EveryInterleavingChains(h: string -> string, events: seq<Event>)
    ensures var rows := Run(h, EMPTY, events).committed;
            && Chain(h, rows)
            && (forall i, j :: 0 <= i < j < |rows| ==> rows[i].id < rows[j].id)
            && (forall i :: 0 <= i < |rows| ==> Linked(h, rows[i], HashBefore(rows, i)))
            && (forall i :: 0 <= i < |rows| ==>
                  && rows[i].prevHash == (if i == 0 then "" else rows[i - 1].rowHash)
                  && rows[i].rowHash == h(rows[i].prevHash + "|" + rows[i].rec.topic + "|" + rows[i].rec.payload))
  {
    RunKeepsInv(h, EMPTY, events);
    ChainSays(h, Run(h, EMPTY, events).committed);
    hide Run, Chain, Ids, Linked, HashBefore;
  }

  lemma ChainSays(h: string -> string, rows: seq<Row>)
    requires Chain(h, rows)
    ensures forall i, j :: 0 <= i < j < |rows| ==> rows[i].id < rows[j].id
    ensures forall i :: 0 <= i < |rows| ==> Linked(h, rows[i], HashBefore(rows, i))
    ensures forall i :: 0 <= i < |rows| ==>
              && rows[i].prevHash == (if i == 0 then "" else rows[i - 1].rowHash)
              && rows[i].rowHash == h(rows[i].prevHash + "|" + rows[i].rec.topic + "|" + rows[i].rec.payload)
  {
    ChainIds(h, rows);
    hide *;
    forall i | 0 <= i < |rows|
      ensures Linked(h, rows[i], HashBefore(rows, i))
      ensures rows[i].prevHash == (if i == 0 then "" else rows[i - 1].rowHash)
      ensures rows[i].rowHash == h(rows[i].prevHash + "|" + rows[i].rec.topic + "|" + rows[i].rec.payload)
    {
      LinkSays(h, rows, i);
    }
  }

  /** A link written out: the last hash of the row before, empty for the first row, and
      the hash of that and the record. */
  lemma LinkSays(h: string -> string, rows: seq<Row>, i: nat)
    requires Chain(h, rows) && i < |rows|
    ensures Linked(h, rows[i], HashBefore(rows, i))
    ensures rows[i].prevHash == (if i == 0 then "" else rows[i - 1].rowHash)
    ensures rows[i].rowHash == h(rows[i].prevHash + "|" + rows[i].rec.topic + "|" + rows[i].rec.payload)
  {
    ChainLink(h, rows, i);
    hide Chain;
  }

  /** The record an event commits, if any. */
  function CommittedAt(s: State, e: Event): seq<Record> {
    if e.Commit? && e.a in s.txs && s.txs[e.a].stage.Inserted? then [s.txs[e.a].rec] else []
  }

  /** The records whose transactions commit, in that order. */
  function CommittedBy(h: string -> string, s: State, events: seq<Event>): seq<Record>
    decreases |events|
  {
    if events == [] then []
    else CommittedAt(s, events[0]) + CommittedBy(h, Step(h, s, events[0]), events[1..])
  }

  function Contents(rows: seq<Row>): seq<Record> {
    seq(|rows|, i requires 0 <= i < |rows| => rows[i].rec)
  }

  /** The rows carry the records of their own transactions. */
  predicate OwnRecords(s: State) {
    forall a :: a in s.txs && s.txs[a].stage.Inserted? ==> s.txs[a].stage.row.rec == s.txs[a].rec
  }

  lemma StepContents(h: string -> string, s: State, e: Event)
    requires OwnRecords(s)
    ensures OwnRecords(Step(h, s, e))
    ensures Contents(Step(h, s, e).committed) == Contents(s.committed) + CommittedAt(s, e)
  {
    hide HashInput, NewestHash;
  }

  /** Exactly the committed appends are in the log, once each and in order. */
  lemma {:induction false} NothingLostOrInvented(h: string -> string, s: State, events: seq<Event>)
    requires OwnRecords(s)
    ensures Contents(Run(h, s, events).committed) == Contents(s.committed) + CommittedBy(h, s, events)
    decreases |events|
  {
    if events == [] {
      assert Contents(s.committed) + [] == Contents(s.committed);
    } else {
      var s', e := Step(h, s, events[0]), events[0];
      StepContents(h, s, e);
      hide Step, OwnRecords, Contents, CommittedAt;
      NothingLostOrInvented(h, s', events[1..]);
    }
  }

  /** Somebody can always move: an open transaction is never stuck behind the lock
      unless its holder can go on. */
  lemma NeverStuck(h: string -> string, events: seq<Event>)
    ensures var s := Run(h, EMPTY, events);
            s.txs != map[] ==> exists e :: Step(h, s, e) != s && !e.Begin? && !e.Rollback?
  {
    RunKeepsInv(h, EMPTY, events);
    var s := Run(h, EMPTY, events);
    if s.txs != map[] {
      var a :| a in s.txs;
      var b := if s.lock.Held? then s.lock.owner else a;
      var e := match s.txs[b].stage
        case Begun => AcquireLock(b)
        case Locked => SelectLast(b)
        case Selected(_) => Insert(b)
        case Inserted(_) => Commit(b);
      assert Step(h, s, e).txs != s.txs || Step(h, s, e).lock != s.lock;
    }
  }

  // ---- The documented check by neighbouring ids ----------------------------

  /** docs/DEPLOYMENT.md:374 compares row N with the row whose id is N - 1. */
  ghost predicate NeighbourCheck(rows: seq<Row>, i: nat)
    requires i < |rows|
  {
    exists j :: 0 <= j < |rows| && rows[j].id + 1 == rows[i].id && rows[j].rowHash == rows[i].prevHash
  }

  /** The sequence does not roll back, so the check succeeds on a row exactly when the
      id before it was not lost to a rolled-back insert. */
  lemma NeighbourCheckExact(h: string -> string, events: seq<Event>, i: nat)
    requires var s := Run(h, EMPTY, events); 0 < i < |s.committed|
    ensures var s := Run(h, EMPTY, events);
            NeighbourCheck(s.committed, i) <==> s.committed[i].id - 1 !in s.lost
  {
    RunKeepsInv(h, EMPTY, events);
    var s := Run(h, EMPTY, events);
    NeighbourIds(h, s, i);
  }

  lemma NeighbourIds(h: string -> string, s: State, i: nat)
    requires Inv(h, s) && 0 < i < |s.committed|
    ensures NeighbourCheck(s.committed, i) <==> s.committed[i].id - 1 !in s.lost
  {
    var rows, id := s.committed, s.committed[i].id - 1;
    ChainIds(h, rows);
    ChainLink(h, rows, i);
    assert 0 < id < s.nextId && !InFlight(s, id);
    assert id in Ids(rows) <==> id !in s.lost;
    hide Inv, Chain, Linked;
    OnlyNeighbour(rows, i);
  }

  lemma OnlyNeighbour(rows: seq<Row>, i: nat)
    requires 0 < i < |rows| && rows[i].prevHash == rows[i - 1].rowHash
    requires forall i, j :: 0 <= i < j < |rows| ==> rows[i].id < rows[j].id
    ensures NeighbourCheck(rows, i) <==> rows[i - 1].id + 1 == rows[i].id
    ensures rows[i].id - 1 in Ids(rows) <==> rows[i - 1].id + 1 == rows[i].id
  {
    assert rows[i - 1] in rows;
    if rows[i].id - 1 in Ids(rows) {
      var r :| r in rows && r.id == rows[i].id - 1;
      var j :| 0 <= j < |rows| && rows[j] == r;
      assert j == i - 1;
    }
  }

  function Append(a: nat, rec: Record): seq<Event> {
    [Begin(a, rec), AcquireLock(a), SelectLast(a), Insert(a)]
  }

  lemma {:induction false} RunSplit(h: string -> string, s: State, first: seq<Event>, second: seq<Event>)
    ensures Run(h, s, first + second) == Run(h, Run(h, s, first), second)
    decreases |first|
  {
    if first == [] {
      assert [] + second == second;
    } else {
      RunSplit(h, Step(h, s, first[0]), first[1..], second);
      assert (first + second)[1..] == first[1..] + second;
    }
  }

  lemma AppendThen(h: string -> string, s: State, a: nat, rec: Record, e: Event)
    requires s.lock == Free && s.txs == map[] && (e == Commit(a) || e == Rollback(a))
    ensures var prev := NewestHash(s.committed);
            var row := Row(s.nextId, rec, prev, h(HashInput(prev, rec)));
            Run(h, s, Append(a, rec) + [e]) ==
              State(if e.Commit? then s.committed + [row] else s.committed, Free, s.nextId + 1, map[],
                    if e.Commit? then s.lost else s.lost + {s.nextId})
  {
    var events := Append(a, rec) + [e];
    var s1 := Step(h, s, Begin(a, rec));
    var s2 := Step(h, s1, AcquireLock(a));
    var s3 := Step(h, s2, SelectLast(a));
    var s4 := Step(h, s3, Insert(a));
    assert events[1..] == [AcquireLock(a), SelectLast(a), Insert(a), e];
    assert events[1..][1..] == [SelectLast(a), Insert(a), e];
    assert events[1..][1..][1..] == [Insert(a), e];
    assert events[1..][1..][1..][1..] == [e];
    assert Step(h, s4, e).txs == map[];
    hide Step;
    assert Run(h, s3, [Insert(a), e]) == Run(h, s4, [e]) == Run(h, Step(h, s4, e), []);
    assert Run(h, s1, events[1..]) == Run(h, s2, events[1..][1..]) == Run(h, s3, events[1..][1..][1..]);
  }

  /** Such rows exist: an append that fails after its insert, between two that do not. */
  lemma NeighbourCheckCanFail(h: string -> string, rec: Record)
    ensures var events := Append(0, rec) + [Commit(0)] + (Append(1, rec) + [Rollback(1)])
                          + (Append(2, rec) + [Commit(2)]);
            var rows := Run(h, EMPTY, events).committed;
            |rows| == 2 && Chain(h, rows) && !NeighbourCheck(rows, 1)
  {
    var e0, e1, e2 := Append(0, rec) + [Commit(0)], Append(1, rec) + [Rollback(1)], Append(2, rec) + [Commit(2)];
    RunSplit(h, EMPTY, e0 + e1, e2);
    RunSplit(h, EMPTY, e0, e1);
    AppendThen(h, EMPTY, 0, rec, Commit(0));
    AppendThen(h, Run(h, EMPTY, e0), 1, rec, Rollback(1));
    AppendThen(h, Run(h, EMPTY, e0 + e1), 2, rec, Commit(2));
    EveryInterleavingChains(h, e0 + e1 + e2);
    NeighbourCheckExact(h, e0 + e1 + e2, 1);
  }
}
