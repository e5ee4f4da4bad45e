/** The move operation: get, set, then delete, where the two paths may overlap. */
module JsonMove {
  import opened Wrappers
  import opened JsonOps

  function Init(path: seq<string>): seq<string>
    requires path != []
  {
    path[..|path| - 1]
  }

  function Last(path: seq<string>): string
    requires path != []
  {
    path[|path| - 1]
  }

  ghost function Written(h: Heap, o: Obj, k: string, v: Value): Heap
    requires o in h
  {
    h[o := h[o][k := v]]
  }

  /** Everything that was at and below `from` is now at and below `to`. */
  ghost predicate Carried(h: Heap, h': Heap, root: Obj, from: seq<string>, to: seq<string>) {
    forall r :: Get(h', root, to + r) == Get(h, root, from + r)
  }

  // ---- Walking in two heaps ------------------------------------------------

  ghost predicate SameField(h: Heap, h': Heap, o: Option<Obj>, k: string) {
    o.Some? ==>
      && (o.value in h <==> o.value in h')
      && (o.value in h ==>
            (k in h[o.value] <==> k in h'[o.value]) && (k in h[o.value] ==> h[o.value][k] == h'[o.value][k]))
  }

  /** A walk looks at one field of each object on its way, and at nothing else. */
  lemma {:induction false} LocalWalk(h: Heap, h': Heap, root: Obj, q: seq<string>)
    requires forall i :: 0 <= i < |q| ==> SameField(h, h', Walk(h, root, q[..i]), q[i])
    ensures Walk(h', root, q) == Walk(h, root, q) && Get(h', root, q) == Get(h, root, q)
  {
    if q != [] {
      var q' := Init(q);
      forall i | 0 <= i < |q'| ensures SameField(h, h', Walk(h, root, q'[..i]), q'[i]) {
        assert q'[..i] == q[..i];
      }
      LocalWalk(h, h', root, q');
      assert SameField(h, h', Walk(h, root, q'), Last(q));
    }
  }

  lemma WalkIsGet(h: Heap, root: Obj, q: seq<string>)
    ensures Walk(h, root, q).Some? <==> Get(h, root, q).Some? && Get(h, root, q).value.Ref?
    ensures Walk(h, root, q).Some? ==> Get(h, root, q).value.obj == Walk(h, root, q).value
  {}

  /** Every prefix of a path to an object leads to an object. */
  lemma WalkPrefix(h: Heap, root: Obj, p: seq<string>, q: seq<string>)
    requires Extends(q, p) && Walk(h, root, q).Some?
    ensures Walk(h, root, p).Some?
  {
    if Walk(h, root, p) == None {
      NothingBelow(h, root, p, q);
    }
  }

  /** The heap before the write, and the object that is written to. */
  ghost predicate Writing(mid: Heap, root: Obj, from: seq<string>, to: seq<string>, at: Obj) {
    && Tree(mid, root) && from != [] && to != []
    && Walk(mid, root, Init(to)) == Some(at) && at in mid
  }

  ghost predicate Moving(mid: Heap, root: Obj, from: seq<string>, to: seq<string>, at: Obj, val: Value) {
    Writing(mid, root, from, to, at) && Get(mid, root, from) == Some(val)
  }

  /** No object at or below `from` differs between the heaps. */
  ghost predicate SameBelow(h: Heap, h': Heap, root: Obj, from: seq<string>) {
    forall r :: SameAt(h, h', Walk(h, root, from + r))
  }

  ghost predicate SameAt(h: Heap, h': Heap, o: Option<Obj>) {
    o.Some? ==> o.value in h && o.value in h' && h'[o.value] == h[o.value]
  }

  /** A value found at another path in another heap brings everything below it along. */
  lemma {:induction false} Grafted(mid: Heap, h': Heap, root: Obj, from: seq<string>, to: seq<string>, r: seq<string>)
    requires Get(mid, root, from).Some? && Get(h', root, to) == Get(mid, root, from)
    requires SameBelow(mid, h', root, from)
    ensures Walk(h', root, to + r) == Walk(mid, root, from + r)
    ensures Get(h', root, to + r) == Get(mid, root, from + r)
    decreases |r|
  {
    hide Walk, Get, SameBelow;
    if r == [] {
      assert to + r == to && from + r == from;
      WalkIsGet(mid, root, from);
      WalkIsGet(h', root, to);
    } else {
      var r', k := Init(r), Last(r);
      Grafted(mid, h', root, from, to, r');
      assert to + r == to + r' + [k] && from + r == from + r' + [k];
      GetBelow(mid, root, from + r', k);
      GetBelow(h', root, to + r', k);
      assert SameAt(mid, h', Walk(mid, root, from + r')) by {
        SameThere(mid, h', root, from, r');
      }
    }
  }

  lemma SameThere(h: Heap, h': Heap, root: Obj, from: seq<string>, r: seq<string>)
    requires SameBelow(h, h', root, from)
    ensures SameAt(h, h', Walk(h, root, from + r))
  {}

  /** The object written to is neither the moved one nor below it. */
  lemma NotAbove(mid: Heap, root: Obj, from: seq<string>, to: seq<string>, at: Obj, r: seq<string>)
    requires Writing(mid, root, from, to, at) && !Extends(to, from)
    ensures Walk(mid, root, from + r) != Some(at)
  {
    assert (from + r)[..|from|] == from;
    assert |from| < |to| ==> Init(to)[..|from|] == to[..|from|];
    if Walk(mid, root, from + r) == Some(at) {
      OnePath(mid, root, from + r, Init(to));
    }
  }

  // ---- From a path to itself or to something below it ----------------------

  /** The deletion finds the object that held the value before. */
  lemma DownParent(mid: Heap, root: Obj, from: seq<string>, to: seq<string>, at: Obj, val: Value) returns (c: Obj)
    requires Writing(mid, root, from, to, at) && Extends(to, from)
    ensures Walk(mid, root, Init(from)) == Some(c) && c in mid && (c == at ==> from == to)
    ensures var h1 := Written(mid, at, Last(to), val);
            Deleted(h1, root, from) == h1[c := h1[c] - {Last(from)}]
  {
    hide Tree, Walk, Get;
    var h1 := Written(mid, at, Last(to), val);
    assert to == Init(to) + [Last(to)];
    assert !Extends(Init(from), to);
    assert Extends(Init(to), Init(from)) by {
      assert Init(to)[..|from| - 1] == to[..|from|][..|from| - 1];
    }
    FieldFrame(mid, h1, root, Init(to), at, Last(to), Init(from));
    WalkPrefix(mid, root, Init(from), Init(to));
    c := Walk(mid, root, Init(from)).value;
    WalkStays(mid, root, Init(from));
    assert |from| == |to| ==> from == to by {
      assert |from| == |to| ==> to[..|from|] == to;
    }
    if c == at {
      OnePath(mid, root, Init(from), Init(to));
    }
  }

  /** The value is lost. */
  lemma MoveDown(mid: Heap, root: Obj, from: seq<string>, to: seq<string>, at: Obj, val: Value)
    requires Writing(mid, root, from, to, at) && Extends(to, from)
    ensures var h2 := Deleted(Written(mid, at, Last(to), val), root, from);
            && Get(h2, root, from) == None && Get(h2, root, to) == None
            && forall q :: !Extends(q, from) ==> Get(h2, root, q) == Get(mid, root, q)
  {
    hide Tree, Walk, Get, Deleted, TwoFields, Extends;
    var c := DownParent(mid, root, from, to, at, val);
    var h2 := Deleted(Written(mid, at, Last(to), val), root, from);
    WriteAndDelete(mid, root, from, to, at, val, c);
    forall q | !Extends(q, from) ensures Get(h2, root, q) == Get(mid, root, q) {
      DownFrame(mid, h2, root, from, to, at, val, c, q);
    }
    NotExtended(from);
    DownFrame(mid, h2, root, from, to, at, val, c, Init(from));
    GoneBelow(h2, root, from, to, c);
  }

  lemma NotExtended(q: seq<string>)
    requires q != []
    ensures !Extends(Init(q), q)
  {}

  lemma WriteAndDelete(mid: Heap, root: Obj, from: seq<string>, to: seq<string>, at: Obj, val: Value, c: Obj)
    requires Writing(mid, root, from, to, at) && c in mid
    ensures var h1 := Written(mid, at, Last(to), val);
            var h2 := h1[c := h1[c] - {Last(from)}];
            && TwoFields(mid, h2, c, Last(from), at, Last(to)) && Last(from) !in h2[c]
            && (!(c == at && Last(from) == Last(to)) ==> Last(to) in h2[at] && h2[at][Last(to)] == val)
  {
    hide Tree, Walk, Get;
  }

  lemma DownFrame(mid: Heap, h2: Heap, root: Obj, from: seq<string>, to: seq<string>, at: Obj, val: Value,
                  c: Obj, q: seq<string>)
    requires Writing(mid, root, from, to, at) && Walk(mid, root, Init(from)) == Some(c) && Extends(to, from)
    requires TwoFields(mid, h2, c, Last(from), at, Last(to)) && !Extends(q, from)
    ensures Walk(h2, root, q) == Walk(mid, root, q) && Get(h2, root, q) == Get(mid, root, q)
  {
    hide Tree, Walk, Get, TwoFields;
    assert from == Init(from) + [Last(from)] && to == Init(to) + [Last(to)];
    if Extends(q, to) {
      BothExtend(q, from, to);
    }
    Untouched(mid, h2, root, Init(from), c, Last(from), Init(to), at, Last(to), q);
  }

  lemma ShorterExtends(q: seq<string>, p: seq<string>)
    requires q != [] && !Extends(q, p)
    ensures !Extends(Init(q), p)
  {
    assert |p| < |q| ==> Init(q)[..|p|] == q[..|p|];
  }

  lemma BothExtend(q: seq<string>, p: seq<string>, longer: seq<string>)
    requires Extends(longer, p) && Extends(q, longer)
    ensures Extends(q, p)
  {
    assert q[..|p|] == q[..|longer|][..|p|];
  }

  lemma GoneBelow(h: Heap, root: Obj, from: seq<string>, to: seq<string>, c: Obj)
    requires from != [] && Extends(to, from)
    requires Walk(h, root, Init(from)) == Some(c) && c in h && Last(from) !in h[c]
    ensures Get(h, root, from) == None && Get(h, root, to) == None
  {
    NothingBelow(h, root, from, to);
    assert |to| == |from| ==> to == from by {
      assert |to| == |from| ==> to[..|from|] == to;
    }
  }

  /** The heaps have the same objects and differ at most in two fields. */
  ghost predicate TwoFields(h: Heap, h': Heap, o1: Obj, k1: string, o2: Obj, k2: string) {
    h.Keys == h'.Keys
    && forall o, k :: o in h && !(o == o1 && k == k1) && !(o == o2 && k == k2) ==> SameField(h, h', Some(o), k)
  }

  lemma SameObject(h: Heap, h': Heap, o1: Obj, k1: string, o2: Obj, k2: string, o: Obj)
    requires TwoFields(h, h', o1, k1, o2, k2) && o in h && o != o1 && o != o2
    ensures SameAt(h, h', Some(o))
  {
    forall k
      ensures k in h[o] <==> k in h'[o]
      ensures k in h[o] && k in h'[o] ==> h[o][k] == h'[o][k]
    {
      assert SameField(h, h', Some(o), k);
    }
  }

  /** A walk that passes neither of two fields is not affected by them. */
  lemma Untouched(h: Heap, h': Heap, root: Obj, p1: seq<string>, o1: Obj, k1: string,
                  p2: seq<string>, o2: Obj, k2: string, q: seq<string>)
    requires Tree(h, root) && Walk(h, root, p1) == Some(o1) && Walk(h, root, p2) == Some(o2)
    requires TwoFields(h, h', o1, k1, o2, k2)
    requires !Extends(q, p1 + [k1]) && !Extends(q, p2 + [k2])
    ensures Walk(h', root, q) == Walk(h, root, q) && Get(h', root, q) == Get(h, root, q)
  {
    forall i | 0 <= i < |q| ensures SameField(h, h', Walk(h, root, q[..i]), q[i]) {
      var o := Walk(h, root, q[..i]);
      if o.Some? {
        WalkStays(h, root, q[..i]);
        assert q[..i + 1] == q[..i] + [q[i]];
        if o.value == o1 && q[i] == k1 {
          OnePath(h, root, q[..i], p1);
        }
        if o.value == o2 && q[i] == k2 {
          OnePath(h, root, q[..i], p2);
        }
      }
    }
    LocalWalk(h, h', root, q);
  }

  // ---- From a path to an unrelated one -------------------------------------

  lemma AcrossParent(mid: Heap, root: Obj, from: seq<string>, to: seq<string>, at: Obj, val: Value) returns (c: Obj)
    requires Moving(mid, root, from, to, at, val) && !Extends(to, from) && !Extends(from, to)
    ensures Walk(mid, root, Init(from)) == Some(c) && c in mid && !(c == at && Last(from) == Last(to))
    ensures var h1 := Written(mid, at, Last(to), val);
            Deleted(h1, root, from) == h1[c := h1[c] - {Last(from)}]
  {
    var h1 := Written(mid, at, Last(to), val);
    assert to == Init(to) + [Last(to)] && from == Init(from) + [Last(from)];
    ShorterExtends(from, to);
    FieldFrame(mid, h1, root, Init(to), at, Last(to), Init(from));
    c := Walk(mid, root, Init(from)).value;
    WalkStays(mid, root, Init(from));
    assert from[..|from|] == from;
    if c == at {
      OnePath(mid, root, Init(from), Init(to));
    }
  }

  /** The value is carried over and nothing else changes. */
  lemma MoveAcross(mid: Heap, root: Obj, from: seq<string>, to: seq<string>, at: Obj, val: Value)
    requires Moving(mid, root, from, to, at, val) && !Extends(to, from) && !Extends(from, to)
    ensures var h2 := Deleted(Written(mid, at, Last(to), val), root, from);
            && Get(h2, root, from) == None && Carried(mid, h2, root, from, to)
            && forall q :: !Extends(q, from) && !Extends(q, to) ==> Get(h2, root, q) == Get(mid, root, q)
  {
    hide Tree, Walk, Get, Deleted, Carried, TwoFields, Extends;
    var c := AcrossParent(mid, root, from, to, at, val);
    var h2 := Deleted(Written(mid, at, Last(to), val), root, from);
    WriteAndDelete(mid, root, from, to, at, val, c);
    forall q | !Extends(q, from) && !Extends(q, to) ensures Get(h2, root, q) == Get(mid, root, q) {
      AcrossFrame(mid, h2, root, from, to, at, val, c, q);
    }
    AcrossEnds(mid, h2, root, from, to, at, val, c);
    AcrossGrafts(mid, h2, root, from, to, at, val, c);
  }

  lemma AcrossFrame(mid: Heap, h2: Heap, root: Obj, from: seq<string>, to: seq<string>, at: Obj, val: Value,
                    c: Obj, q: seq<string>)
    requires Moving(mid, root, from, to, at, val) && Walk(mid, root, Init(from)) == Some(c)
    requires TwoFields(mid, h2, c, Last(from), at, Last(to)) && !Extends(q, from) && !Extends(q, to)
    ensures Walk(h2, root, q) == Walk(mid, root, q) && Get(h2, root, q) == Get(mid, root, q)
  {
    hide Tree, Walk, Get, TwoFields;
    assert from == Init(from) + [Last(from)] && to == Init(to) + [Last(to)];
    Untouched(mid, h2, root, Init(from), c, Last(from), Init(to), at, Last(to), q);
  }

  lemma AcrossEnds(mid: Heap, h2: Heap, root: Obj, from: seq<string>, to: seq<string>, at: Obj, val: Value, c: Obj)
    requires Moving(mid, root, from, to, at, val) && Walk(mid, root, Init(from)) == Some(c)
    requires TwoFields(mid, h2, c, Last(from), at, Last(to)) && !Extends(to, from) && !Extends(from, to)
    requires c in h2 && Last(from) !in h2[c] && at in h2 && Last(to) in h2[at] && h2[at][Last(to)] == val
    ensures Get(h2, root, from) == None && Get(h2, root, to) == Some(val)
  {
    hide TwoFields, Tree;
    ShorterExtends(from, to);
    ShorterExtends(to, from);
    AcrossFrame(mid, h2, root, from, to, at, val, c, Init(from));
    AcrossFrame(mid, h2, root, from, to, at, val, c, Init(to));
  }

  lemma AcrossGrafts(mid: Heap, h2: Heap, root: Obj, from: seq<string>, to: seq<string>, at: Obj, val: Value, c: Obj)
    requires Moving(mid, root, from, to, at, val) && !Extends(to, from)
    requires Walk(mid, root, Init(from)) == Some(c) && Get(h2, root, to) == Some(val)
    requires TwoFields(mid, h2, c, Last(from), at, Last(to))
    ensures Carried(mid, h2, root, from, to)
  {
    forall o | o in mid && o != c && o != at ensures SameAt(mid, h2, Some(o)) {
      SameObject(mid, h2, c, Last(from), at, Last(to), o);
    }
    hide Tree, Walk, Get, TwoFields;
    assert forall r: seq<string> :: |from + r| > |Init(from)|;
    forall r ensures SameAt(mid, h2, Walk(mid, root, from + r)) {
      WalkStays(mid, root, from + r);
      NotAbove(mid, root, from, to, at, r);
      if Walk(mid, root, from + r) == Some(c) {
        OnePath(mid, root, from + r, Init(from));
      }
    }
    assert SameBelow(mid, h2, root, from);
    forall r ensures Get(h2, root, to + r) == Get(mid, root, from + r) {
      Grafted(mid, h2, root, from, to, r);
    }
  }

  // ---- From a path to one above it -----------------------------------------

  /** The write does not touch what is below `from`, nor the way to `to`. */
  lemma UpGrafts(mid: Heap, root: Obj, from: seq<string>, to: seq<string>, at: Obj, val: Value)
    requires Moving(mid, root, from, to, at, val) && !Extends(to, from)
    ensures var h1 := Written(mid, at, Last(to), val);
            && Get(h1, root, to) == Some(val) && Carried(mid, h1, root, from, to)
            && forall r :: Walk(h1, root, to + r) == Walk(mid, root, from + r)
    ensures var h1 := Written(mid, at, Last(to), val);
            forall q :: !Extends(q, to)
              ==> Walk(h1, root, q) == Walk(mid, root, q) && Get(h1, root, q) == Get(mid, root, q)
  {
    var h1 := Written(mid, at, Last(to), val);
    assert to == Init(to) + [Last(to)];
    WriteStep(mid, root, Init(to), at, Last(to), val);
    hide Tree, Walk, Get;
    forall r ensures SameAt(mid, h1, Walk(mid, root, from + r)) {
      WalkStays(mid, root, from + r);
      NotAbove(mid, root, from, to, at, r);
    }
    assert SameBelow(mid, h1, root, from);
    forall r
      ensures Get(h1, root, to + r) == Get(mid, root, from + r)
      ensures Walk(h1, root, to + r) == Walk(mid, root, from + r)
    {
      Grafted(mid, h1, root, from, to, r);
    }
    forall q | !Extends(q, to)
      ensures Walk(h1, root, q) == Walk(mid, root, q) && Get(h1, root, q) == Get(mid, root, q)
    {
      FieldFrame(mid, h1, root, Init(to), at, Last(to), q);
    }
  }

  lemma ProperlyLonger(from: seq<string>, to: seq<string>)
    requires Extends(from, to) && from != to
    ensures |to| < |from| && !Extends(to, from)
  {
    assert from == to + from[|to|..];
  }

  /** The object that loses a field is below `from`. */
  lemma UpParent(mid: Heap, root: Obj, from: seq<string>, to: seq<string>, at: Obj, val: Value, c: Obj)
    requires Moving(mid, root, from, to, at, val) && Extends(from, to) && from != to
    requires Walk(Written(mid, at, Last(to), val), root, Init(from)) == Some(c)
    ensures c in mid && !Extends(to, from)
    ensures Walk(mid, root, from + Init(from[|to|..])) == Some(c)
  {
    var rest := from[|to|..];
    assert from == to + rest && Init(from) == to + Init(rest);
    ProperlyLonger(from, to);
    UpGrafts(mid, root, from, to, at, val);
    hide Get;
    WalkStays(mid, root, from + Init(rest));
  }

  /** A walk that does not pass `to` does not come to it. */
  lemma UpAside(mid: Heap, root: Obj, from: seq<string>, to: seq<string>, at: Obj, val: Value, c: Obj, q: seq<string>)
    requires Moving(mid, root, from, to, at, val) && Extends(from, to) && from != to && !Extends(q, to)
    requires Walk(Written(mid, at, Last(to), val), root, Init(from)) == Some(c)
    ensures Walk(Written(mid, at, Last(to), val), root, q) != Some(c)
  {
    hide Tree, Walk, Get;
    var below := from + Init(from[|to|..]);
    UpParent(mid, root, from, to, at, val, c);
    UpGrafts(mid, root, from, to, at, val);
    assert below[..|to|] == from[..|to|] == to;
    if Walk(mid, root, q) == Some(c) {
      OnePath(mid, root, q, below);
    }
  }

  /** It is the last object on the way to it. */
  lemma UpWay(mid: Heap, root: Obj, from: seq<string>, to: seq<string>, at: Obj, val: Value, c: Obj, n: nat)
    requires Moving(mid, root, from, to, at, val) && Extends(from, to) && from != to && n < |from| - 1
    requires Walk(Written(mid, at, Last(to), val), root, Init(from)) == Some(c)
    ensures Walk(Written(mid, at, Last(to), val), root, from[..n]) != Some(c)
  {
    hide Tree, Walk, Get;
    var rest := from[|to|..];
    UpParent(mid, root, from, to, at, val, c);
    UpGrafts(mid, root, from, to, at, val);
    if n < |to| {
      UpAside(mid, root, from, to, at, val, c, from[..n]);
    } else {
      var part := rest[..n - |to|];
      assert from[..n] == to + part;
      assert |from + part| < |from + Init(rest)|;
      if Walk(mid, root, from + part) == Some(c) {
        OnePath(mid, root, from + part, from + Init(rest));
      }
    }
  }

  lemma UpDeleted(mid: Heap, root: Obj, from: seq<string>, to: seq<string>, at: Obj, val: Value)
    requires Moving(mid, root, from, to, at, val) && Extends(from, to) && from != to
    ensures var h1 := Written(mid, at, Last(to), val);
            var h2 := Deleted(h1, root, from);
            && Get(h2, root, from) == None
            && (Get(h1, root, from) == None ==> h2 == h1)
            && forall q :: !Extends(q, to) || q == to ==> Get(h2, root, q) == Get(h1, root, q)
  {
    var h1 := Written(mid, at, Last(to), val);
    var h2 := Deleted(h1, root, from);
    if Walk(h1, root, Init(from)).Some? {
      var c := Walk(h1, root, Init(from)).value;
      UpParent(mid, root, from, to, at, val, c);
      assert h2 == h1[c := h1[c] - {Last(from)}];
      assert Last(from) !in h1[c] ==> h1[c] - {Last(from)} == h1[c];
      assert OnlyDiffers(h1, h2, c);
      UpAfter(mid, h2, root, from, to, at, val, c);
    }
  }

  ghost predicate OnlyDiffers(h: Heap, h': Heap, c: Obj) {
    h.Keys == h'.Keys && forall o :: o in h && o != c ==> h'[o] == h[o]
  }

  lemma UpAfter(mid: Heap, h2: Heap, root: Obj, from: seq<string>, to: seq<string>, at: Obj, val: Value, c: Obj)
    requires Moving(mid, root, from, to, at, val) && Extends(from, to) && from != to
    requires Walk(Written(mid, at, Last(to), val), root, Init(from)) == Some(c)
    requires OnlyDiffers(Written(mid, at, Last(to), val), h2, c)
    ensures var h1 := Written(mid, at, Last(to), val);
            && Walk(h2, root, Init(from)) == Some(c)
            && forall q :: !Extends(q, to) || q == to ==> Get(h2, root, q) == Get(h1, root, q)
  {
    hide Tree, Walk, Get;
    var h1 := Written(mid, at, Last(to), val);
    var way := Init(from);
    forall i | 0 <= i < |way| ensures SameField(h1, h2, Walk(h1, root, way[..i]), way[i]) {
      assert way[..i] == from[..i];
      UpWay(mid, root, from, to, at, val, c, i);
    }
    LocalWalk(h1, h2, root, way);
    forall q | !Extends(q, to) || q == to ensures Get(h2, root, q) == Get(h1, root, q) {
      forall i | 0 <= i < |q| ensures SameField(h1, h2, Walk(h1, root, q[..i]), q[i]) {
        assert |to| <= i ==> q[..i][..|to|] == q[..|to|];
        UpAside(mid, root, from, to, at, val, c, q[..i]);
      }
      LocalWalk(h1, h2, root, q);
    }
  }

  /** The value arrives, but without the field that used to be at `from`. */
  lemma MoveUp(mid: Heap, root: Obj, from: seq<string>, to: seq<string>, at: Obj, val: Value)
    requires Moving(mid, root, from, to, at, val) && Extends(from, to) && from != to
    ensures var h2 := Deleted(Written(mid, at, Last(to), val), root, from);
            && Get(h2, root, from) == None && Get(h2, root, to) == Some(val)
            && (Carried(mid, h2, root, from, to) <==> Get(mid, root, from + from[|to|..]) == None)
            && forall q :: !Extends(q, to) ==> Get(h2, root, q) == Get(mid, root, q)
  {
    var h1 := Written(mid, at, Last(to), val);
    var h2 := Deleted(h1, root, from);
    var rest := from[|to|..];
    assert from == to + rest;
    ProperlyLonger(from, to);
    UpGrafts(mid, root, from, to, at, val);
    assert Get(h1, root, from) == Get(mid, root, from + rest);
    UpDeleted(mid, root, from, to, at, val);
    hide Tree, Walk, Get, Deleted;
    if Get(mid, root, from + rest) == None {
      assert h2 == h1;
    } else {
      assert Get(h2, root, to + rest) == None;
    }
    forall q | !Extends(q, to) ensures Get(h2, root, q) == Get(mid, root, q) {
      assert Get(h1, root, q) == Get(mid, root, q);
    }
  }

  // ---- The operation -------------------------------------------------------

  /** Whether a move carries everything over, seen before it is made: the target is not
      the root, nor the source or below it, and if it is above the source then the value
      must have nothing at the place where the source stood under the target. */
  ghost predicate CarriesOver(h: Heap, root: Obj, from: seq<string>, to: seq<string>) {
    to != [] && !Extends(to, from) && (Extends(from, to) ==> Get(h, root, from + from[|to|..]) == None)
  }

  lemma MoveExact(h: Heap, mid: Heap, root: Obj, from: seq<string>, to: seq<string>, at: Obj, val: Value)
    requires Writing(mid, root, from, to, at) && Get(h, root, from) == Some(val)
    requires forall q :: !Replaced(h, root, to, q) ==> Get(mid, root, q) == Get(h, root, q)
    ensures var h2 := Deleted(Written(mid, at, Last(to), val), root, from);
            && Get(h2, root, from) == None
            && (Carried(h, h2, root, from, to) <==> CarriesOver(h, root, from, to))
            && forall q :: !Extends(q, from) && !Extends(q, to) && !Replaced(h, root, to, q)
                 ==> Get(h2, root, q) == Get(h, root, q)
  {
    var h2 := Deleted(Written(mid, at, Last(to), val), root, from);
    assert to + [] == to && from + [] == from;
    if Extends(to, from) {
      MoveDown(mid, root, from, to, at, val);
      hide Writing, Tree, Walk, Replaced, Deleted, Get;
      assert Get(h2, root, to + []) != Get(h, root, from + []);
    } else {
      forall r ensures Get(mid, root, from + r) == Get(h, root, from + r) {
        assert (from + r)[..|from|] == from;
        NotReplaced(h, root, from, to, r);
      }
      assert Get(mid, root, from + []) == Some(val);
      hide Writing, Tree, Walk, Get, Replaced, Deleted;
      if Extends(from, to) {
        assert to[..|to|] == to;
        MoveUp(mid, root, from, to, at, val);
        SameCarried(h, mid, h2, root, from, to);
      } else {
        MoveAcross(mid, root, from, to, at, val);
        SameCarried(h, mid, h2, root, from, to);
      }
    }
  }

  lemma NotReplaced(h: Heap, root: Obj, from: seq<string>, to: seq<string>, r: seq<string>)
    requires !Extends(to, from)
    ensures !Replaced(h, root, to, from + r)
  {
    assert (from + r)[..|from|] == from;
    assert |from + r| <= |to| ==> to[..|from + r|][..|from|] == to[..|from|];
  }

  lemma SameCarried(h: Heap, mid: Heap, h2: Heap, root: Obj, from: seq<string>, to: seq<string>)
    requires forall r :: Get(mid, root, from + r) == Get(h, root, from + r)
    ensures Carried(mid, h2, root, from, to) <==> Carried(h, h2, root, from, to)
  {
    hide Get;
    if Carried(mid, h2, root, from, to) {
      forall r ensures Get(h2, root, to + r) == Get(h, root, from + r) {
        assert Get(mid, root, from + r) == Get(h, root, from + r);
      }
    }
    if Carried(h, h2, root, from, to) {
      forall r ensures Get(h2, root, to + r) == Get(mid, root, from + r) {
        assert Get(mid, root, from + r) == Get(h, root, from + r);
      }
    }
  }

  /** Moving to the root writes nothing, so that the value is only deleted. */
  lemma MoveToRoot(h: Heap, root: Obj, from: seq<string>)
    requires Tree(h, root) && from != [] && Get(h, root, from).Some?
    ensures var h' := Deleted(h, root, from);
            && Get(h', root, from) == None
            && !Carried(h, h', root, from, []) && !CarriesOver(h, root, from, [])
            && forall q :: !Extends(q, from) ==> Get(h', root, q) == Get(h, root, q)
  {
    DeletedSpec(h, root, from);
    WalkStays(h, root, from);
    WalkIsGet(h, root, from);
    var here: seq<string> := [];
    assert here + here == here && from + here == from;
    assert Get(Deleted(h, root, from), root, here) == Some(Ref(root));
  }

  /** Every value of a tree can be written into a larger one. */
  lemma TreeCloses(h: Heap, root: Obj, from: seq<string>, mid: Heap, at: Obj, k: string)
    requires Tree(h, root) && Get(h, root, from).Some? && Tree(mid, root) && h.Keys <= mid.Keys && at in mid
    ensures Closed(mid, root) && Closed(Written(mid, at, k, Get(h, root, from).value), root)
  {
    WalkStays(h, root, from);
    WalkIsGet(h, root, from);
  }

  lemma RootItself(h: Heap, root: Obj)
    ensures Get(h, root, []) == Some(Ref(root))
  {}

  /** The operation `move`: afterwards the source reads undefined, everything at and below
      it is at and below the target exactly when the move carries over, and every path
      related to neither reads as before. A move from the root deletes nothing and puts the
      root below itself. */
  method MovePath(obj: Obj, from: seq<string>, to: seq<string>, ghost objs: set<Obj>) returns (ghost objs': set<Obj>)
    requires Tree(Snap(objs), obj)
    modifies objs
    ensures old(Get(Snap(objs), obj, from)) == None ==> objs' == objs && Snap(objs') == old(Snap(objs))
    ensures from != [] ==> Get(Snap(objs'), obj, from) == None
    ensures from != [] && old(Get(Snap(objs), obj, from)).Some? ==>
              (Carried(old(Snap(objs)), Snap(objs'), obj, from, to) <==> old(CarriesOver(Snap(objs), obj, from, to)))
    ensures from == [] && to == [] ==> Snap(objs') == old(Snap(objs))
    ensures from == [] && to != [] ==>
              && Get(Snap(objs'), obj, to) == Some(Ref(obj)) && Walk(Snap(objs'), obj, to) == Some(obj)
              && forall q :: !Extends(q, to) && !old(Replaced(Snap(objs), obj, to, q))
                   ==> Get(Snap(objs'), obj, q) == old(Get(Snap(objs), obj, q))
    ensures forall q :: !Extends(q, from) && (to == [] || !Extends(q, to)) && !old(Replaced(Snap(objs), obj, to, q))
              ==> Get(Snap(objs'), obj, q) == old(Get(Snap(objs), obj, q))
  {
    objs' := objs;
    ghost var h := Snap(objs);
    var val := GetPath(obj, from, objs);
    if val.Some? {
      ghost var mid, at;
      objs', mid, at := SetPath(obj, to, val.value, objs);
      hide Tree, Walk, Get, Carried, CarriesOver, Replaced;
      if to == [] {
        TreeCloses(h, obj, from, h, obj, "");
      } else {
        TreeCloses(h, obj, from, mid, at, Last(to));
      }
      DeletePath(obj, from, objs');
      if from == [] {
        assert forall q: seq<string> :: Extends(q, from);
        WalkIsGet(Snap(objs'), obj, to);
        RootItself(h, obj);
      } else if to == [] {
        MoveToRoot(h, obj, from);
      } else {
        MoveExact(h, mid, obj, from, to, at, val.value);
      }
    }
  }
}
