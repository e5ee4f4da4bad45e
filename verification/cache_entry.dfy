/** The byte format of cached responses: status, header lines, an empty line, body. */
module CacheEntry {
  import opened Wrappers

  newtype byte = x: int | 0 <= x < 256

  type Bytes = seq<byte>

  const NL: byte := 10
  const COLON: byte := 58
  const ZERO: byte := 48
  const PLUS: byte := 43
  const MINUS: byte := 45

  datatype Entry = Entry(status: int, headers: map<Bytes, Bytes>, body: Bytes)

  // ---- Numbers -------------------------------------------------------------

  predicate IsInt64(n: int) {
    -0x8000_0000_0000_0000 <= n < 0x8000_0000_0000_0000
  }

  predicate IsDigit(b: byte) {
    ZERO <= b <= ZERO + 9
  }

  function Digits(n: nat): (r: Bytes)
    ensures r != [] && forall b :: b in r ==> IsDigit(b)
  {
    if n < 10 then [ZERO + n as byte] else Digits(n / 10) + [ZERO + (n % 10) as byte]
  }

  /** strconv.Itoa */
  function Itoa(n: int): Bytes {
    if n < 0 then [MINUS] + Digits(-n) else Digits(n)
  }

  function Value(digits: Bytes): int {
    if digits == [] then 0
    else Value(digits[..|digits| - 1]) * 10 + (digits[|digits| - 1] as int - ZERO as int)
  }

  /** strconv.Atoi: an optional sign, at least one digit, and a 64-bit result. */
  function Atoi(s: Bytes): Option<int> {
    var digits := if s != [] && (s[0] == PLUS || s[0] == MINUS) then s[1..] else s;
    if digits == [] || exists b :: b in digits && !IsDigit(b) then None
    else
      var n := if s[0] == MINUS then -Value(digits) else Value(digits);
      if IsInt64(n) then Some(n) else None
  }

  lemma {:induction false} ValueOfDigits(n: nat)
    ensures Value(Digits(n)) == n
  {
    if n < 10 {
      assert Value([]) == 0;
      assert Digits(n)[..0] == [];
    } else {
      ValueOfDigits(n / 10);
      var r := Digits(n);
      assert r[..|r| - 1] == Digits(n / 10);
    }
  }

  lemma AtoiItoa(n: int)
    requires IsInt64(n)
    ensures Atoi(Itoa(n)) == Some(n)
    ensures NL !in Itoa(n)
  {
    hide Digits, Value;
    var digits := Digits(if n < 0 then -n else n);
    ValueOfDigits(if n < 0 then -n else n);
    assert digits[0] in digits;
    assert n < 0 ==> Itoa(n)[1..] == digits;
  }

  // ---- Printing ------------------------------------------------------------

  function Line(k: Bytes, v: Bytes): Bytes {
    k + [COLON] + v + [NL]
  }

  predicate Covers(order: seq<Bytes>, headers: map<Bytes, Bytes>) {
    forall k :: k in order ==> k in headers
  }

  function Lines(order: seq<Bytes>, headers: map<Bytes, Bytes>): Bytes
    requires Covers(order, headers)
  {
    if order == [] then [] else Line(order[0], headers[order[0]]) + Lines(order[1..], headers)
  }

  /** An entry as printed when the headers come in the given order. */
  function Printed(e: Entry, order: seq<Bytes>): Bytes
    requires Covers(order, e.headers)
  {
    Itoa(e.status) + [NL] + Lines(order, e.headers) + [NL] + e.body
  }

  ghost predicate Enumerates(order: seq<Bytes>, headers: map<Bytes, Bytes>) {
    && (forall k :: k in order <==> k in headers)
    && (forall i, j :: 0 <= i < j < |order| ==> order[i] != order[j])
  }

  lemma {:induction false} LinesSnoc(order: seq<Bytes>, k: Bytes, headers: map<Bytes, Bytes>)
    requires k in headers && Covers(order, headers)
    ensures Lines(order + [k], headers) == Lines(order, headers) + Line(k, headers[k])
  {
    if order == [] {
      assert [] + [k] == [k];
    } else {
      LinesSnoc(order[1..], k, headers);
      assert (order + [k])[1..] == order[1..] + [k];
    }
  }

  /** marshalCacheEntry: the map is enumerated in whatever order it likes. */
  method MarshalCacheEntry(e: Entry) returns (r: Bytes)
    ensures exists order :: Enumerates(order, e.headers) && r == Printed(e, order)
  {
    var sb := Itoa(e.status) + [NL];
    var todo := e.headers.Keys;
    ghost var order: seq<Bytes> := [];
    while todo != {}
      invariant todo <= e.headers.Keys
      invariant forall k :: k in order <==> k in e.headers && k !in todo
      invariant forall i, j :: 0 <= i < j < |order| ==> order[i] != order[j]
      invariant sb == Itoa(e.status) + [NL] + Lines(order, e.headers)
      decreases todo
    {
      var k :| k in todo;
      LinesSnoc(order, k, e.headers);
      sb := sb + k;
      sb := sb + [COLON];
      sb := sb + e.headers[k];
      sb := sb + [NL];
      order := order + [k];
      todo := todo - {k};
    }
    r := sb + [NL] + e.body;
    assert Enumerates(order, e.headers) && r == Printed(e, order);
  }

  // ---- Parsing -------------------------------------------------------------

  /** The first position of `b` at or after `from`, or -1. */
  function Find(data: Bytes, b: byte, from: nat): (i: int)
    requires from <= |data|
    ensures i == -1 || from <= i < |data|
    decreases |data| - from
  {
    if from == |data| then -1 else if data[from] == b then from else Find(data, b, from + 1)
  }

  /** The header lines from `idx` on, added to those read so far, and where the body
      starts. A line without ':' or with nothing before it is dropped; data that end
      before the empty line count as body. */
  function Headers(data: Bytes, idx: nat, headers: map<Bytes, Bytes>): (r: (map<Bytes, Bytes>, nat))
    requires idx <= |data|
    ensures idx <= r.1 <= |data|
    decreases |data| - idx
  {
    var nl := Find(data, NL, idx);
    if nl < 0 then (headers, idx)
    else
      var line := data[idx..nl];
      if line == [] then (headers, nl + 1)
      else
        var sep := Find(line, COLON, 0);
        Headers(data, nl + 1, if sep > 0 then headers[line[..sep] := line[sep + 1..]] else headers)
  }

  function Parsed(data: Bytes): Option<Entry> {
    var nl := Find(data, NL, 0);
    if nl < 0 || Atoi(data[..nl]) == None then None
    else
      var (headers, body) := Headers(data, nl + 1, map[]);
      Some(Entry(Atoi(data[..nl]).value, headers, data[body..]))
  }

  method IndexOf(data: Bytes, b: byte, from: nat) returns (r: int)
    requires from <= |data|
    ensures r == Find(data, b, from)
  {
    var i := from;
    while i < |data|
      invariant from <= i <= |data|
      invariant Find(data, b, i) == Find(data, b, from)
    {
      if data[i] == b {
        return i;
      }
      i := i + 1;
    }
    return -1;
  }

  /** parseCacheEntry, on any bytes at all. */
  method ParseCacheEntry(data: Bytes) returns (r: Option<Entry>)
    ensures r == Parsed(data)
    ensures r.Some? ==> exists i :: 0 <= i <= |data| && r.value.body == data[i..]
  {
    var idx := 0;
    var nlIdx := IndexOf(data, NL, idx);
    if nlIdx < 0 {
      return None;
    }
    var status := Atoi(data[idx..nlIdx]);
    assert data[idx..nlIdx] == data[..nlIdx];
    if status == None {
      return None;
    }
    idx := nlIdx + 1;
    var headers: map<Bytes, Bytes> := map[];
    var done := false;
    while idx < |data| && !done
      invariant nlIdx + 1 <= idx <= |data|
      invariant Headers(data, nlIdx + 1, map[]) == if done then (headers, idx) else Headers(data, idx, headers)
      decreases |data| - idx, !done
    {
      var nl := IndexOf(data, NL, idx);
      if nl < 0 {
        break;
      }
      var line := data[idx..nl];
      idx := nl + 1;
      if line == [] {
        done := true;
      } else {
        var sep := IndexOf(line, COLON, 0);
        if sep > 0 {
          headers := headers[line[..sep] := line[sep + 1..]];
        }
      }
    }
    return Some(Entry(status.value, headers, data[idx..]));
  }

  // ---- The round trip ------------------------------------------------------

  /** No key is empty or holds ':' or a newline, and no value holds a newline. */
  predicate Clean(headers: map<Bytes, Bytes>) {
    forall k :: k in headers ==> k != [] && COLON !in k && NL !in k && NL !in headers[k]
  }

  lemma {:induction false} FindAfter(before: Bytes, b: byte, data: Bytes, from: nat)
    requires from <= |before| && b !in before[from..] && |before| < |data|
    requires before == data[..|before|] && data[|before|] == b
    ensures Find(data, b, from) == |before|
    decreases |before| - from
  {
    if from < |before| {
      assert before[from] in before[from..];
      assert before[from] == data[from];
      FindAfter(before, b, data, from + 1);
    }
  }

  function Collected(order: seq<Bytes>, headers: map<Bytes, Bytes>, acc: map<Bytes, Bytes>): map<Bytes, Bytes>
    requires Covers(order, headers)
    decreases |order|
  {
    if order == [] then acc else Collected(order[1..], headers, acc[order[0] := headers[order[0]]])
  }

  lemma {:induction false} CollectedAt(order: seq<Bytes>, headers: map<Bytes, Bytes>, acc: map<Bytes, Bytes>, k: Bytes)
    requires Covers(order, headers)
    ensures var r := Collected(order, headers, acc);
            && (k in r <==> k in order || k in acc)
            && (k in order ==> r[k] == headers[k])
            && (k in acc && k !in order ==> r[k] == acc[k])
    decreases |order|
  {
    if order != [] {
      CollectedAt(order[1..], headers, acc[order[0] := headers[order[0]]], k);
      assert k in order <==> k == order[0] || k in order[1..];
    }
  }

  lemma CollectedAll(order: seq<Bytes>, headers: map<Bytes, Bytes>)
    requires Enumerates(order, headers)
    ensures Collected(order, headers, map[]) == headers
  {
    var r := Collected(order, headers, map[]);
    forall k
      ensures k in r <==> k in headers
      ensures k in r && k in headers ==> r[k] == headers[k]
    {
      CollectedAt(order, headers, map[], k);
    }
    hide Collected;
  }

  /** Reading the clean lines printed from `idx` on gives back their headers. */
  lemma {:induction false} ReadsLines(data: Bytes, idx: nat, order: seq<Bytes>, headers: map<Bytes, Bytes>,
                                      acc: map<Bytes, Bytes>, body: Bytes)
    requires Clean(headers) && Covers(order, headers)
    requires idx <= |data| && data[idx..] == Lines(order, headers) + [NL] + body
    ensures var (r, start) := Headers(data, idx, acc);
            data[start..] == body && r == Collected(order, headers, acc)
    decreases |order|
  {
    hide *;
    if order == [] {
      LinesNone(order, headers, acc, body);
      EmptyLineRead(data, idx, body, acc);
    } else {
      CollectedFirst(order, headers, acc);
      var k, v := order[0], headers[order[0]];
      FirstLineRead(data, idx, order, headers, acc, body);
      ReadsLines(data, idx + |k| + |v| + 2, order[1..], headers, acc[k := v], body);
    }
  }

  lemma LinesNone(order: seq<Bytes>, headers: map<Bytes, Bytes>, acc: map<Bytes, Bytes>, body: Bytes)
    requires order == []
    ensures Covers(order, headers) && Lines(order, headers) + [NL] + body == [NL] + body
    ensures Collected(order, headers, acc) == acc
  {}

  lemma CollectedFirst(order: seq<Bytes>, headers: map<Bytes, Bytes>, acc: map<Bytes, Bytes>)
    requires order != [] && Covers(order, headers)
    ensures Covers(order[1..], headers) && order[0] in headers
    ensures Collected(order, headers, acc) == Collected(order[1..], headers, acc[order[0] := headers[order[0]]])
  {}

  lemma CleanLine(headers: map<Bytes, Bytes>, k: Bytes)
    requires Clean(headers) && k in headers
    ensures k != [] && COLON !in k && NL !in k && NL !in headers[k]
  {}

  lemma HeadersLine(data: Bytes, idx: nat, nl: nat, k: Bytes, v: Bytes, acc: map<Bytes, Bytes>)
    requires idx <= nl < |data| && Find(data, NL, idx) == nl && data[idx..nl] == k + [COLON] + v
    requires k != [] && Find(data[idx..nl], COLON, 0) == |k|
    ensures Headers(data, idx, acc) == Headers(data, nl + 1, acc[k := v])
  {
    hide Find;
    assert data[idx..nl][..|k|] == k && data[idx..nl][|k| + 1..] == v;
  }

  lemma FirstLineRead(data: Bytes, idx: nat, order: seq<Bytes>, headers: map<Bytes, Bytes>,
                      acc: map<Bytes, Bytes>, body: Bytes)
    requires Clean(headers) && order != [] && Covers(order, headers)
    requires idx <= |data| && data[idx..] == Lines(order, headers) + [NL] + body
    ensures var k, v := order[0], headers[order[0]];
            var next := idx + |k| + |v| + 2;
            && next <= |data| && data[next..] == Lines(order[1..], headers) + [NL] + body
            && Headers(data, idx, acc) == Headers(data, next, acc[k := v])
  {
    hide *;
    CollectedFirst(order, headers, acc);
    var k, v := order[0], headers[order[0]];
    var rest := Lines(order[1..], headers) + [NL] + body;
    LinesFirst(order, headers);
    assert data[idx..] == Line(k, v) + rest;
    CleanLine(headers, k);
    LineRead(data, idx, k, v, rest);
    HeadersLine(data, idx, idx + |k| + 1 + |v|, k, v, acc);
  }

  lemma LinesFirst(order: seq<Bytes>, headers: map<Bytes, Bytes>)
    requires order != [] && Covers(order, headers)
    ensures Covers(order[1..], headers) && order[0] in headers
    ensures Lines(order, headers) == Line(order[0], headers[order[0]]) + Lines(order[1..], headers)
  {}

  lemma EmptyLineRead(data: Bytes, idx: nat, body: Bytes, acc: map<Bytes, Bytes>)
    requires idx <= |data| && data[idx..] == [NL] + body
    ensures Headers(data, idx, acc) == (acc, idx + 1) && data[idx + 1..] == body
  {
    assert data[idx] == data[idx..][0] == NL;
    assert data[idx + 1..] == data[idx..][1..] == body;
  }

  lemma LineRead(data: Bytes, idx: nat, k: Bytes, v: Bytes, rest: Bytes)
    requires k != [] && COLON !in k && NL !in k && NL !in v
    requires idx <= |data| && data[idx..] == Line(k, v) + rest
    ensures var nl := idx + |k| + 1 + |v|;
            && nl < |data|
            && Find(data, NL, idx) == nl
            && data[idx..nl] == k + [COLON] + v
            && Find(data[idx..nl], COLON, 0) == |k|
            && data[nl + 1..] == rest
  {
    var line := k + [COLON] + v;
    var nl := idx + |line|;
    assert data[idx..nl] == data[idx..][..|line|] == line;
    assert data[nl] == data[idx..][|line|] == NL;
    assert data[..nl][idx..] == line;
    FindAfter(data[..nl], NL, data, idx);
    FindAfter(k, COLON, line, 0);
    assert data[nl + 1..] == data[idx..][|line| + 1..] == rest;
  }

  /** Whatever bytes are read, the headers that come out are clean. */
  lemma {:induction false} HeadersClean(data: Bytes, idx: nat, acc: map<Bytes, Bytes>)
    requires idx <= |data| && Clean(acc)
    ensures Clean(Headers(data, idx, acc).0)
    decreases |data| - idx
  {
    var nl := Find(data, NL, idx);
    if nl >= 0 && data[idx..nl] != [] {
      var line := data[idx..nl];
      FindIsFirst(data, NL, idx);
      var sep := Find(line, COLON, 0);
      FindIsFirst(line, COLON, 0);
      HeadersClean(data, nl + 1, if sep > 0 then acc[line[..sep] := line[sep + 1..]] else acc);
    }
  }

  lemma {:induction false} FindIsFirst(data: Bytes, b: byte, from: nat)
    requires from <= |data|
    ensures var i := Find(data, b, from);
            b !in data[from..if i < 0 then |data| else i] && (i >= 0 ==> data[i] == b)
    decreases |data| - from
  {
    if from < |data| && data[from] != b {
      FindIsFirst(data, b, from + 1);
    }
  }

  /** Whatever the order of the headers, parsing undoes printing exactly when the
      headers are clean. */
  lemma RoundTrip(e: Entry, order: seq<Bytes>)
    requires IsInt64(e.status) && Enumerates(order, e.headers)
    ensures Parsed(Printed(e, order)) == Some(e) <==> Clean(e.headers)
  {
    var data, status := Printed(e, order), Itoa(e.status);
    var idx := |status| + 1;
    assert Covers(order, e.headers) && Clean(map[]);
    hide *;
    StatusRead(e, order);
    HeadersClean(data, idx, map[]);
    if Clean(e.headers) {
      ReadsLines(data, idx, order, e.headers, map[], e.body);
      CollectedAll(order, e.headers);
    } else {
      assert Parsed(data).value.headers != e.headers;
    }
  }

  lemma StatusRead(e: Entry, order: seq<Bytes>)
    requires IsInt64(e.status) && Covers(order, e.headers)
    ensures var data, idx := Printed(e, order), |Itoa(e.status)| + 1;
            && idx <= |data| && data[idx..] == Lines(order, e.headers) + [NL] + e.body
            && Parsed(data) == Some(Entry(e.status, Headers(data, idx, map[]).0, data[Headers(data, idx, map[]).1..]))
  {
    var tail := Lines(order, e.headers) + [NL] + e.body;
    AtoiItoa(e.status);
    FirstLine(Itoa(e.status), tail);
    hide Lines, Itoa, Find, Headers, Atoi;
    assert Printed(e, order) == Itoa(e.status) + [NL] + tail;
  }

  lemma FirstLine(line: Bytes, tail: Bytes)
    requires NL !in line
    ensures var data := line + [NL] + tail;
            Find(data, NL, 0) == |line| && data[..|line|] == line && data[|line| + 1..] == tail
  {
    var data := line + [NL] + tail;
    assert data[..|line|] == line;
    FindAfter(line, NL, data, 0);
  }

  /** Print, then parse. */
  method StoreAndLoad(e: Entry) returns (r: Option<Entry>)
    requires IsInt64(e.status)
    ensures r == Some(e) <==> Clean(e.headers)
  {
    var data := MarshalCacheEntry(e);
    ghost var order :| Enumerates(order, e.headers) && data == Printed(e, order);
    RoundTrip(e, order);
    r := ParseCacheEntry(data);
  }

  // ---- The format ----------------------------------------------------------

  /** Status 200, header a:b and body c, in bytes. */
  lemma Example()
    ensures Printed(Entry(200, map[[97] := [98]], [99]), [[97]]) == [50, 48, 48, 10, 97, 58, 98, 10, 10, 99]
  {
    var headers: map<Bytes, Bytes> := map[[97] := [98]];
    assert Digits(2) == [50] && Digits(20) == [50] + [48] && Digits(200) == [50] + [48] + [48];
    var order: seq<Bytes> := [[97]];
    assert order[1..] == [] && Lines([], headers) == [];
    assert Lines(order, headers) == Line([97], [98]) + [];
    assert Line([97], [98]) == [97, 58, 98, 10];
  }

  /** A status may have a sign; without digits, or with anything else, it is none. */
  lemma StatusForms(n: int, other: Bytes)
    requires 0 <= n && IsInt64(n)
    ensures Atoi(Digits(n)) == Some(n) && Atoi([PLUS] + Digits(n)) == Some(n) && Atoi([MINUS] + Digits(n)) == Some(-n)
    ensures Atoi([]) == Atoi([PLUS]) == Atoi([MINUS]) == None
    ensures (exists b :: b in other && !IsDigit(b) && b != PLUS && b != MINUS) ==> Atoi(other) == None
  {
    hide Digits, Value;
    var digits := Digits(n);
    ValueOfDigits(n);
    assert digits[0] in digits;
    assert ([PLUS] + digits)[1..] == digits && ([MINUS] + digits)[1..] == digits;
  }

  /** Data without a first line that is a status are no entry. */
  lemma StatusLine(line: Bytes, rest: Bytes)
    requires NL !in line
    ensures Parsed(line) == None
    ensures Parsed(line + [NL] + rest) == None <==> Atoi(line) == None
    ensures Parsed(line + [NL] + rest).Some? ==> Parsed(line + [NL] + rest).value.status == Atoi(line).value
  {
    FirstLine(line, rest);
    FindNone(line, NL, 0);
    assert line[..|line|] == line;
  }

  lemma {:induction false} FindNone(data: Bytes, b: byte, from: nat)
    requires from <= |data| && b !in data[from..]
    ensures Find(data, b, from) == -1
    decreases |data| - from
  {
    if from < |data| {
      assert data[from] == data[from..][0];
      FindNone(data, b, from + 1);
    }
  }

  /** A header line after that: the part before the first ':' is the name, and a later line
      with the same name wins. */
  lemma HeaderLine(before: Bytes, k: Bytes, v: Bytes, rest: Bytes, acc: map<Bytes, Bytes>)
    requires NL !in k && NL !in v && COLON !in k
    ensures var data := before + (k + [COLON] + v) + [NL] + rest;
            var next := |before| + |k| + |v| + 2;
            next <= |data| && data[next..] == rest &&
            Headers(data, |before|, acc) == Headers(data, next, if k == [] then acc else acc[k := v])
  {
    var line := k + [COLON] + v;
    LineAt(before, line, rest);
    assert line[..|k|] == k;
    FindAfter(k, COLON, line, 0);
    assert line[|k| + 1..] == v;
    hide Find;
  }

  /** A line without ':' counts for nothing. */
  lemma NamelessLine(before: Bytes, line: Bytes, rest: Bytes, acc: map<Bytes, Bytes>)
    requires NL !in line && COLON !in line && line != []
    ensures var data := before + line + [NL] + rest;
            var next := |before| + |line| + 1;
            next <= |data| && data[next..] == rest && Headers(data, |before|, acc) == Headers(data, next, acc)
  {
    LineAt(before, line, rest);
    FindNone(line, COLON, 0);
    hide Find;
  }

  /** An empty line, or data without another newline, ends the headers. */
  lemma HeadersEnd(before: Bytes, rest: Bytes, last: Bytes, acc: map<Bytes, Bytes>)
    requires NL !in last
    ensures Headers(before + [NL] + rest, |before|, acc) == (acc, |before| + 1)
    ensures Headers(before + last, |before|, acc) == (acc, |before|)
  {
    LineAt(before, [], rest);
    assert before + [] + [NL] + rest == before + [NL] + rest;
    assert (before + last)[|before|..] == last;
    FindNone(before + last, NL, |before|);
    hide Find;
  }

  lemma LineAt(before: Bytes, line: Bytes, rest: Bytes)
    requires NL !in line
    ensures var data := before + line + [NL] + rest;
            var nl := |before| + |line|;
            nl < |data| && Find(data, NL, |before|) == nl && data[|before|..nl] == line && data[nl + 1..] == rest
  {
    var data := before + line + [NL] + rest;
    var upTo := before + line;
    assert data[..|upTo|] == upTo && upTo[|before|..] == line;
    FindAfter(upTo, NL, data, |before|);
  }
}
