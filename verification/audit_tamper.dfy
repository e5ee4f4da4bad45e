/** What the last row_hash of an audit log says about everything before it. */
module AuditTamper {
  import opened AuditChain
  import opened Text

  /** The hashed text determines its three parts. */
  lemma InputInjective(prev: string, rec: Record, prev': string, rec': Record)
    requires '|' !in prev && '|' !in prev' && '|' !in rec.topic && '|' !in rec'.topic
    requires HashInput(prev, rec) == HashInput(prev', rec')
    ensures prev == prev' && rec == rec'
  {
    var tail, tail' := rec.topic + "|" + rec.payload, rec'.topic + "|" + rec'.payload;
    assert HashInput(prev, rec) == prev + "|" + tail && HashInput(prev', rec') == prev' + "|" + tail';
    SplitOnce(prev, tail, prev', tail', '|');
    SplitOnce(rec.topic, rec.payload, rec'.topic, rec'.payload, '|');
  }

  predicate PlainTopics(rows: seq<Row>) {
    forall r :: r in rows ==> '|' !in r.rec.topic
  }

  /** Two logs that end in the same row_hash, whatever their lengths, hold the same
      records in the same order, or exhibit two texts with the same digest. */
  lemma {:induction false} SameTipSameLog(h: string -> string, a: seq<Row>, b: seq<Row>)
    returns (x: string, y: string)
    requires IsDigest(h) && Chain(h, a) && Chain(h, b) && PlainTopics(a) && PlainTopics(b)
    requires a != [] && b != [] && TipHash(a) == TipHash(b)
    ensures Contents(a) == Contents(b) || (x != y && h(x) == h(y))
    decreases |a|
  {
    var a', r, b', q := a[..|a| - 1], a[|a| - 1], b[..|b| - 1], b[|b| - 1];
    x, y := HashInput(r.prevHash, r.rec), HashInput(q.prevHash, q.rec);
    if x == y {
      TipIsDigest(h, a');
      TipIsDigest(h, b');
      InputInjective(r.prevHash, r.rec, q.prevHash, q.rec);
      assert TipHash(a') == TipHash(b') && r.rec == q.rec;
      ContentsSnoc(a);
      ContentsSnoc(b);
      hide HashInput, Linked, TipHash, Contents;
      if a' != [] && b' != [] {
        x, y := SameTipSameLog(h, a', b');
      }
    }
  }

  lemma ContentsSnoc(rows: seq<Row>)
    requires rows != []
    ensures Contents(rows) == Contents(rows[..|rows| - 1]) + [rows[|rows| - 1].rec]
  {}

  lemma TipIsDigest(h: string -> string, rows: seq<Row>)
    requires IsDigest(h) && Chain(h, rows)
    ensures '|' !in TipHash(rows) && (TipHash(rows) == "" <==> rows == [])
  {
    if rows != [] {
      var last := rows[|rows| - 1];
      assert last.rowHash == h(HashInput(last.prevHash, last.rec));
    }
  }
}
