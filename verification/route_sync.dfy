/** The in-memory route table, kept up to date from the registry's deltas. */
module RouteSync {
  import opened Wrappers
  import opened RouteEntry

  // ---- The table as a list -------------------------------------------------

  /** findIndex by identity key: the first entry, or |rs|. */
  function IndexOf(rs: seq<Entry>, key: string): (i: nat)
    ensures i <= |rs|
  {
    if rs == [] || Key(rs[0]) == key then 0 else 1 + IndexOf(rs[1..], key)
  }

  /** One row of a delta: a splice, an assignment or a push. */
  function Upsert(rs: seq<Entry>, r: Entry): seq<Entry> {
    var i := IndexOf(rs, Key(r));
    if i == |rs| then (if r.active then rs + [r] else rs)
    else if r.active then rs[i := r]
    else rs[..i] + rs[i + 1..]
  }

  function Applied(rs: seq<Entry>, delta: seq<Payload>): seq<Entry>
    decreases |delta|
  {
    if delta == [] then rs
    else
      var r := Normalize(delta[0]);
      Applied(if r.Some? then Upsert(rs, r.value) else rs, delta[1..])
  }

  /** normalizeRoutes(...).filter(active) */
  function Rebuilt(ps: seq<Payload>): seq<Entry> {
    if ps == [] then []
    else
      var r := Normalize(ps[0]);
      (if r.Some? && r.value.active then [r.value] else []) + Rebuilt(ps[1..])
  }

  /** normalizeRoutes */
  function NormalizeAll(ps: seq<Payload>): seq<Entry> {
    if ps == [] then []
    else
      var r := Normalize(ps[0]);
      if r.Some? then [r.value] + NormalizeAll(ps[1..]) else NormalizeAll(ps[1..])
  }

  predicate UniqueKeys(rs: seq<Entry>) {
    rs == [] || (IndexOf(rs[1..], Key(rs[0])) == |rs| - 1 && UniqueKeys(rs[1..]))
  }

  predicate AllActive(rs: seq<Entry>) {
    forall r :: r in rs ==> r.active
  }

  /** The table as a keyed map. */
  function Lookup(rs: seq<Entry>, key: string): Option<Entry> {
    var i := IndexOf(rs, key);
    if i == |rs| then None else Some(rs[i])
  }

  // ---- What a list of payloads says about a key ----------------------------

  predicate Concerns(p: Payload, key: string) {
    Normalize(p).Some? && Key(Normalize(p).value) == key
  }

  /** The last row with this key. */
  function LastRow(ps: seq<Payload>, key: string): Option<Entry> {
    if ps == [] then None
    else
      var later := LastRow(ps[1..], key);
      if later.Some? then later else if Concerns(ps[0], key) then Normalize(ps[0]) else None
  }

  /** The first active row with this key. */
  function FirstActive(ps: seq<Payload>, key: string): Option<Entry> {
    if ps == [] then None
    else if Concerns(ps[0], key) && Normalize(ps[0]).value.active then Normalize(ps[0])
    else FirstActive(ps[1..], key)
  }

  function IfActive(r: Option<Entry>): Option<Entry> {
    if r.Some? && r.value.active then r else None
  }

  predicate OneRowPerKey(ps: seq<Payload>)
    decreases |ps|
  {
    ps == [] ||
    ((Normalize(ps[0]).Some? ==> LastRow(ps[1..], Key(Normalize(ps[0]).value)) == None) && OneRowPerKey(ps[1..]))
  }

  // ---- One upsert ----------------------------------------------------------

  lemma {:induction false} IndexOfSpec(rs: seq<Entry>, key: string)
    ensures var i := IndexOf(rs, key);
            && (i < |rs| ==> Key(rs[i]) == key)
            && forall j :: 0 <= j < i ==> Key(rs[j]) != key
  {
    hide Key;
    if rs != [] && Key(rs[0]) != key {
      IndexOfSpec(rs[1..], key);
    }
  }

  lemma {:induction false} IndexOfUnique(rs: seq<Entry>, key: string, i: nat)
    requires i <= |rs| && (i < |rs| ==> Key(rs[i]) == key) && forall j :: 0 <= j < i ==> Key(rs[j]) != key
    ensures IndexOf(rs, key) == i
  {
    hide Key;
    if i > 0 {
      IndexOfUnique(rs[1..], key, i - 1);
    }
  }

  lemma {:induction false} UniqueKeysSpec(rs: seq<Entry>)
    ensures UniqueKeys(rs) <==> forall i, j :: 0 <= i < j < |rs| ==> Key(rs[i]) != Key(rs[j])
  {
    hide Key;
    if rs != [] {
      UniqueKeysSpec(rs[1..]);
      IndexOfSpec(rs[1..], Key(rs[0]));
      if forall i, j :: 0 <= i < j < |rs| ==> Key(rs[i]) != Key(rs[j]) {
        IndexOfUnique(rs[1..], Key(rs[0]), |rs| - 1);
      }
    }
  }

  /** An upsert keeps keys unique and entries active. */
  lemma UpsertKeeps(rs: seq<Entry>, r: Entry)
    requires UniqueKeys(rs) && AllActive(rs)
    ensures UniqueKeys(Upsert(rs, r)) && AllActive(Upsert(rs, r))
  {
    hide Key;
    UniqueKeysSpec(rs);
    UniqueKeysSpec(Upsert(rs, r));
    IndexOfSpec(rs, Key(r));
  }

  /** It changes the table at its own key only. */
  lemma UpsertLookup(rs: seq<Entry>, r: Entry, key: string)
    requires UniqueKeys(rs)
    ensures Lookup(Upsert(rs, r), key) == if key == Key(r) then IfActive(Some(r)) else Lookup(rs, key)
  {
    var i := IndexOf(rs, Key(r));
    UniqueKeysSpec(rs);
    IndexOfSpec(rs, Key(r));
    IndexOfSpec(rs, key);
    hide UniqueKeys, IndexOf, Key;
    if i < |rs| && !r.active {
      RemoveLookup(rs, i, key);
    } else if r.active {
      PutLookup(rs, i, r, key);
    }
  }

  lemma PutLookup(rs: seq<Entry>, i: nat, r: Entry, key: string)
    requires i == IndexOf(rs, Key(r))
    ensures Lookup(if i < |rs| then rs[i := r] else rs + [r], key) == if key == Key(r) then Some(r) else Lookup(rs, key)
  {
    hide Key;
    var k, rs' := IndexOf(rs, key), if i < |rs| then rs[i := r] else rs + [r];
    IndexOfSpec(rs, Key(r));
    IndexOfSpec(rs, key);
    IndexOfUnique(rs', key, if key == Key(r) then i else if k < |rs| then k else |rs'|);
  }

  lemma RemoveLookup(rs: seq<Entry>, i: nat, key: string)
    requires i < |rs| && forall m, n :: 0 <= m < n < |rs| ==> Key(rs[m]) != Key(rs[n])
    ensures Lookup(rs[..i] + rs[i + 1..], key) == if key == Key(rs[i]) then None else Lookup(rs, key)
  {
    hide Key;
    var k, rs' := IndexOf(rs, key), rs[..i] + rs[i + 1..];
    IndexOfSpec(rs, key);
    assert forall j :: 0 <= j < |rs'| ==> rs'[j] == rs[if j < i then j else j + 1];
    IndexOfUnique(rs', key, if key == Key(rs[i]) then |rs'| else if i < k then k - 1 else k);
  }

  // ---- Deltas --------------------------------------------------------------

  /** After a delta the table holds, at every key, the last row that the delta has for
      it, and what it held before when there is none. */
  lemma {:induction false} DeltaLookup(rs: seq<Entry>, delta: seq<Payload>, key: string)
    requires UniqueKeys(rs) && AllActive(rs)
    ensures UniqueKeys(Applied(rs, delta)) && AllActive(Applied(rs, delta))
    ensures Lookup(Applied(rs, delta), key) ==
              var row := LastRow(delta, key);
              if row.Some? then IfActive(row) else Lookup(rs, key)
    decreases |delta|
  {
    if delta != [] {
      var r := Normalize(delta[0]);
      if r.Some? {
        UpsertKeeps(rs, r.value);
        UpsertLookup(rs, r.value, key);
        DeltaLookup(Upsert(rs, r.value), delta[1..], key);
      } else {
        DeltaLookup(rs, delta[1..], key);
      }
    }
  }

  /** A rebuild holds, at every key, the first active row. */
  lemma {:induction false} RebuiltFirst(ps: seq<Payload>, key: string)
    ensures Lookup(Rebuilt(ps), key) == FirstActive(ps, key) && AllActive(Rebuilt(ps))
  {
    hide Key, Normalize;
    if ps != [] {
      RebuiltFirst(ps[1..], key);
      var r := Normalize(ps[0]);
      if r.Some? && r.value.active {
        assert ([r.value] + Rebuilt(ps[1..]))[1..] == Rebuilt(ps[1..]);
      } else {
        assert [] + Rebuilt(ps[1..]) == Rebuilt(ps[1..]);
      }
    }
  }

  /** With one row per key that is its only row, if active. */
  lemma {:induction false} FirstIsLast(ps: seq<Payload>, key: string)
    requires OneRowPerKey(ps)
    ensures FirstActive(ps, key) == IfActive(LastRow(ps, key))
  {
    hide Key, Normalize;
    if ps != [] {
      FirstIsLast(ps[1..], key);
    }
  }

  lemma {:induction false} RebuiltUnique(ps: seq<Payload>)
    requires OneRowPerKey(ps)
    ensures UniqueKeys(Rebuilt(ps))
  {
    hide Key, Normalize;
    if ps != [] {
      RebuiltUnique(ps[1..]);
      var r := Normalize(ps[0]);
      if r.Some? && r.value.active {
        RebuiltFirst(ps[1..], Key(r.value));
        FirstIsLast(ps[1..], Key(r.value));
        assert ([r.value] + Rebuilt(ps[1..]))[1..] == Rebuilt(ps[1..]);
      } else {
        assert [] + Rebuilt(ps[1..]) == Rebuilt(ps[1..]);
      }
    }
  }

  /** So a full rebuild then holds exactly the active rows. */
  lemma RebuiltLookup(ps: seq<Payload>, key: string)
    requires OneRowPerKey(ps)
    ensures UniqueKeys(Rebuilt(ps)) && AllActive(Rebuilt(ps))
    ensures Lookup(Rebuilt(ps), key) == IfActive(LastRow(ps, key))
  {
    RebuiltUnique(ps);
    RebuiltFirst(ps, key);
    FirstIsLast(ps, key);
  }

  ghost predicate SameTable(a: seq<Entry>, b: seq<Entry>) {
    forall key :: Lookup(a, key) == Lookup(b, key)
  }

  /** The last row of the key, if active, is its first active one, and if not, the key has
      none; a key without a row is not in the old table. */
  predicate LastDecides(rs: seq<Entry>, ps: seq<Payload>, key: string) {
    if LastRow(ps, key).Some? then IfActive(LastRow(ps, key)) == FirstActive(ps, key) else Lookup(rs, key) == None
  }

  /** The same rows as a delta and as a rebuild, whatever they are: the tables agree
      exactly when that is so at every key. */
  lemma DeltaIsRebuildExactly(rs: seq<Entry>, ps: seq<Payload>)
    requires UniqueKeys(rs) && AllActive(rs)
    ensures SameTable(Applied(rs, ps), Rebuilt(ps)) <==> forall key :: LastDecides(rs, ps, key)
  {
    forall key
      ensures Lookup(Applied(rs, ps), key) == Lookup(Rebuilt(ps), key) <==> LastDecides(rs, ps, key)
    {
      DeltaLookup(rs, ps, key);
      RebuiltFirst(ps, key);
      NoRowNoneActive(ps, key);
    }
    hide LastDecides;
  }

  lemma {:induction false} NoRowNoneActive(ps: seq<Payload>, key: string)
    ensures LastRow(ps, key) == None ==> FirstActive(ps, key) == None
  {
    hide Key, Normalize;
    if ps != [] {
      NoRowNoneActive(ps[1..], key);
    }
  }

  /** Two rows with one key are not handled alike: a delta keeps the last of them, and
      a rebuild the first active one. */
  lemma TwoRowsDiffer(p: Payload)
    requires Normalize(p).Some? && p.active
    ensures var ps := [p, p.(active := false)];
            Applied([], ps) == [] && Rebuilt(ps) == [Normalize(p).value]
  {
    var q := p.(active := false);
    var ps := [p, q];
    assert ps[1..] == [q];
    assert Key(Normalize(q).value) == Key(Normalize(p).value);
    assert Upsert([], Normalize(p).value) == [Normalize(p).value];
    assert Applied([Normalize(p).value], [q]) == Applied(Upsert([Normalize(p).value], Normalize(q).value), []);
    assert Rebuilt([q]) == [];
  }
}
