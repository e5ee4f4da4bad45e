/** Setting, reading and deleting a path in a tree of mutable JSON objects. */
module JsonOps {
  import opened Wrappers

  /** Anything but an object, null included, is just data. */
  datatype Value = Data(text: string) | Ref(obj: Obj)

  class Obj {
    var fields: map<string, Value>

    constructor ()
      ensures fields == map[]
    {
      fields := map[];
    }
  }

  /** The contents of a set of objects at one moment. */
  type Heap = map<Obj, map<string, Value>>

  ghost function Snap(objs: set<Obj>): Heap
    reads objs
  {
    map o | o in objs :: o.fields
  }

  /** A tree: fields lead to objects of the heap, no object is in two places, and the
      root is in none. */
  ghost predicate Tree(h: Heap, root: Obj) {
    && root in h
    && (forall o, k :: o in h && k in h[o] && h[o][k].Ref? ==> h[o][k].obj in h && h[o][k].obj != root)
    && (forall o, k, o', k' :: o in h && k in h[o] && o' in h && k' in h[o'] && h[o][k].Ref? && h[o][k] == h[o'][k']
          ==> o == o' && k == k')
  }

  /** Fields lead to objects of the heap. */
  ghost predicate Closed(h: Heap, root: Obj) {
    root in h && forall o, k :: o in h && k in h[o] && h[o][k].Ref? ==> h[o][k].obj in h
  }

  /** The object that a path leads to. */
  ghost function Walk(h: Heap, root: Obj, path: seq<string>): Option<Obj> {
    if path == [] then Some(root)
    else
      var o, k := Walk(h, root, path[..|path| - 1]), path[|path| - 1];
      if o.Some? && o.value in h && k in h[o.value] && h[o.value][k].Ref? then Some(h[o.value][k].obj) else None
  }

  /** What a path reads; `None` is undefined. */
  ghost function Get(h: Heap, root: Obj, path: seq<string>): Option<Value> {
    if path == [] then Some(Ref(root))
    else
      var o, k := Walk(h, root, path[..|path| - 1]), path[|path| - 1];
      if o.Some? && o.value in h && k in h[o.value] then Some(h[o.value][k]) else None
  }

  lemma GetBelow(h: Heap, root: Obj, path: seq<string>, k: string)
    ensures var o := Walk(h, root, path);
            && Get(h, root, path + [k]) ==
                 (if o.Some? && o.value in h && k in h[o.value] then Some(h[o.value][k]) else None)
            && Walk(h, root, path + [k]) ==
                 (if o.Some? && o.value in h && k in h[o.value] && h[o.value][k].Ref? then Some(h[o.value][k].obj)
                  else None)
  {
    assert (path + [k])[..|path|] == path;
  }

  predicate Extends(path: seq<string>, prefix: seq<string>) {
    |prefix| <= |path| && path[..|prefix|] == prefix
  }

  lemma ExtendsLonger(q: seq<string>, longer: seq<string>, prefix: seq<string>)
    requires Extends(longer, q)
    ensures Extends(q, prefix) ==> Extends(longer, prefix)
  {
    if |prefix| <= |q| {
      assert longer[..|prefix|] == q[..|prefix|];
    }
  }

  lemma {:induction false} WalkInside(h: Heap, root: Obj, path: seq<string>)
    requires Closed(h, root)
    ensures Walk(h, root, path).Some? ==> Walk(h, root, path).value in h
  {
    if path != [] {
      WalkInside(h, root, path[..|path| - 1]);
    }
  }

  lemma {:induction false} WalkStays(h: Heap, root: Obj, path: seq<string>)
    requires Tree(h, root)
    ensures var o := Walk(h, root, path);
            o.Some? ==> o.value in h && (path != [] ==> o.value != root)
  {
    if path != [] {
      WalkStays(h, root, path[..|path| - 1]);
    }
  }

  /** In a tree only one path leads to an object. */
  lemma {:induction false} OnePath(h: Heap, root: Obj, p: seq<string>, q: seq<string>)
    requires Tree(h, root) && Walk(h, root, p).Some? && Walk(h, root, p) == Walk(h, root, q)
    ensures p == q
  {
    WalkStays(h, root, p);
    WalkStays(h, root, q);
    if p != [] && q != [] {
      var p', q' := p[..|p| - 1], q[..|q| - 1];
      WalkStays(h, root, p');
      WalkStays(h, root, q');
      OnePath(h, root, p', q');
      assert p == p' + [p[|p| - 1]] && q == q' + [q[|q| - 1]];
    }
  }

  /** `h'` differs from `h` only in the field `k` of the object at `path`, and in
      objects that `h` does not have. */
  ghost predicate Differs(h: Heap, h': Heap, cur: Obj, k: string) {
    && h.Keys <= h'.Keys && cur in h
    && (forall o :: o in h && o != cur ==> h'[o] == h[o])
    && (forall j :: j != k ==> (j in h'[cur] <==> j in h[cur]) && (j in h[cur] ==> h'[cur][j] == h[cur][j]))
  }

  /** Every path that does not go through that field reads as before. */
  lemma {:induction false} FieldFrame(h: Heap, h': Heap, root: Obj, path: seq<string>, cur: Obj, k: string,
                                      q: seq<string>)
    requires Tree(h, root) && Walk(h, root, path) == Some(cur) && Differs(h, h', cur, k)
    requires !Extends(q, path + [k])
    ensures Walk(h', root, q) == Walk(h, root, q)
    ensures Get(h', root, q) == Get(h, root, q)
  {
    if q != [] {
      var q', j := q[..|q| - 1], q[|q| - 1];
      ExtendsLonger(q', q, path + [k]);
      FieldFrame(h, h', root, path, cur, k, q');
      WalkStays(h, root, q');
      if Walk(h, root, q') == Some(cur) {
        OnePath(h, root, path, q');
        assert q == path + [j];
      }
    }
  }

  /** Nothing can be read below a path that leads to no object. */
  lemma {:induction false} NothingBelow(h: Heap, root: Obj, path: seq<string>, q: seq<string>)
    requires Walk(h, root, path) == None && Extends(q, path)
    ensures Walk(h, root, q) == None
    ensures |q| > |path| ==> Get(h, root, q) == None
  {
    if |q| > |path| {
      assert Extends(q[..|q| - 1], path);
      NothingBelow(h, root, path, q[..|q| - 1]);
    } else {
      assert q == path;
    }
  }

  lemma {:induction false} NothingInEmpty(h: Heap, root: Obj, path: seq<string>, o: Obj, q: seq<string>)
    requires Walk(h, root, path) == Some(o) && o in h && h[o] == map[] && Extends(q, path) && |q| > |path|
    ensures Walk(h, root, q) == None && Get(h, root, q) == None
  {
    var q' := q[..|q| - 1];
    if |q'| > |path| {
      assert Extends(q', path);
      NothingInEmpty(h, root, path, o, q');
    } else {
      assert q' == path;
    }
  }

  // ---- The steps of setPath ------------------------------------------------

  /** Putting a new empty object into a field that holds none keeps the tree. */
  lemma NewObjectTree(h: Heap, root: Obj, cur: Obj, k: string, o: Obj)
    requires Tree(h, root) && cur in h && o !in h
    ensures Tree(h[cur := h[cur][k := Ref(o)]][o := map[]], root)
  {}

  lemma NewObjectWalk(h: Heap, root: Obj, path: seq<string>, cur: Obj, k: string, o: Obj)
    requires Tree(h, root) && Walk(h, root, path) == Some(cur) && cur in h && o !in h
    requires k !in h[cur] || !h[cur][k].Ref?
    ensures Walk(h, root, path + [k]) == None
    ensures Walk(h[cur := h[cur][k := Ref(o)]][o := map[]], root, path + [k]) == Some(o)
  {
    hide Tree, Walk, Get;
    var h' := h[cur := h[cur][k := Ref(o)]][o := map[]];
    FieldFrame(h, h', root, path, cur, k, path);
    GetBelow(h, root, path, k);
    GetBelow(h', root, path, k);
  }

  /** And it changes no path but the one that leads to it. */
  lemma NewObjectFrame(h: Heap, root: Obj, path: seq<string>, cur: Obj, k: string, o: Obj, q: seq<string>)
    requires Tree(h, root) && Walk(h, root, path) == Some(cur) && cur in h && o !in h
    requires k !in h[cur] || !h[cur][k].Ref?
    requires q != path + [k]
    ensures Get(h[cur := h[cur][k := Ref(o)]][o := map[]], root, q) == Get(h, root, q)
  {
    var h', p' := h[cur := h[cur][k := Ref(o)]][o := map[]], path + [k];
    if Extends(q, p') {
      NewObjectWalk(h, root, path, cur, k, o);
      NothingBelow(h, root, p', q);
      NothingInEmpty(h', root, p', o, q);
    } else {
      FieldFrame(h, h', root, path, cur, k, q);
    }
  }

  lemma DataKeepsTree(h: Heap, root: Obj, cur: Obj, k: string, v: Value)
    requires Tree(h, root) && cur in h && v.Data?
    ensures Tree(h[cur := h[cur][k := v]], root)
  {}

  lemma RemovalKeepsTree(h: Heap, root: Obj, cur: Obj, k: string)
    requires Tree(h, root) && cur in h
    ensures Tree(h[cur := h[cur] - {k}], root)
  {}

  lemma WriteStep(h: Heap, root: Obj, path: seq<string>, cur: Obj, k: string, v: Value)
    requires Tree(h, root) && Walk(h, root, path) == Some(cur)
    ensures cur in h
    ensures var h' := h[cur := h[cur][k := v]];
            && (v.Data? ==> Tree(h', root))
            && Get(h', root, path + [k]) == Some(v)
            && forall q :: !Extends(q, path + [k]) ==> Get(h', root, q) == Get(h, root, q)
  {
    WalkStays(h, root, path);
    hide Tree, Walk, Get;
    var h', p' := h[cur := h[cur][k := v]], path + [k];
    if v.Data? {
      DataKeepsTree(h, root, cur, k, v);
    }
    FieldFrame(h, h', root, path, cur, k, path);
    GetBelow(h', root, path, k);
    forall q | !Extends(q, p') ensures Get(h', root, q) == Get(h, root, q) {
      FieldFrame(h, h', root, path, cur, k, q);
    }
  }

  /** What deletePath leaves. */
  ghost function Deleted(h: Heap, root: Obj, keys: seq<string>): Heap {
    if keys == [] then h
    else
      var o := Walk(h, root, keys[..|keys| - 1]);
      if o.Some? && o.value in h then h[o.value := h[o.value] - {keys[|keys| - 1]}] else h
  }

  /** In a tree: the path reads undefined, and every path that does not extend it reads
      as before. */
  lemma DeletedSpec(h: Heap, root: Obj, keys: seq<string>)
    requires Tree(h, root)
    ensures var h' := Deleted(h, root, keys);
            && Tree(h', root)
            && (keys != [] ==> Get(h', root, keys) == None)
            && forall q :: keys == [] || !Extends(q, keys) ==> Get(h', root, q) == Get(h, root, q)
  {
    if keys != [] {
      var path, k := keys[..|keys| - 1], keys[|keys| - 1];
      assert keys == path + [k];
      WalkStays(h, root, path);
      if Walk(h, root, path).Some? {
        DeleteStep(h, root, path, Walk(h, root, path).value, k);
      }
    }
  }

  lemma DeleteStep(h: Heap, root: Obj, path: seq<string>, cur: Obj, k: string)
    requires Tree(h, root) && Walk(h, root, path) == Some(cur)
    ensures cur in h
    ensures var h' := h[cur := h[cur] - {k}];
            && Tree(h', root) && Get(h', root, path + [k]) == None
            && forall q :: !Extends(q, path + [k]) ==> Get(h', root, q) == Get(h, root, q)
  {
    WalkStays(h, root, path);
    hide Tree, Walk, Get;
    var h', p' := h[cur := h[cur] - {k}], path + [k];
    RemovalKeepsTree(h, root, cur, k);
    FieldFrame(h, h', root, path, cur, k, path);
    GetBelow(h', root, path, k);
    forall q | !Extends(q, p') ensures Get(h', root, q) == Get(h, root, q) {
      FieldFrame(h, h', root, path, cur, k, q);
    }
  }

  // ---- The code ------------------------------------------------------------

  /** `q` is a proper prefix of `keys` at which there was no object: setPath puts one
      there. */
  ghost predicate Replaced(h: Heap, root: Obj, keys: seq<string>, q: seq<string>) {
    Extends(keys, q) && 0 < |q| < |keys| && !(Get(h, root, q).Some? && Get(h, root, q).value.Ref?)
  }

  method GetPath(obj: Obj, keys: seq<string>, ghost objs: set<Obj>) returns (r: Option<Value>)
    requires Tree(Snap(objs), obj)
    ensures r == Get(Snap(objs), obj, keys)
  {
    var cur := Some(Ref(obj));
    for i := 0 to |keys|
      invariant cur == Get(Snap(objs), obj, keys[..i])
      invariant cur.Some? && cur.value.Ref? ==> Walk(Snap(objs), obj, keys[..i]) == Some(cur.value.obj)
      invariant !(cur.Some? && cur.value.Ref?) ==> Walk(Snap(objs), obj, keys[..i]) == None
    {
      assert keys[..i + 1][..i] == keys[..i];
      if cur == None || !cur.value.Ref? {
        NothingBelow(Snap(objs), obj, keys[..i], keys);
        return None;
      }
      WalkStays(Snap(objs), obj, keys[..i]);
      var o := cur.value.obj;
      cur := if keys[i] in o.fields then Some(o.fields[keys[i]]) else None;
    }
    assert keys[..|keys|] == keys;
    return cur;
  }

  predicate IsRef(v: Option<Value>) {
    v.Some? && v.value.Ref?
  }

  /** One turn of the loop: go down one key, making an object if there is none. */
  method Descend(obj: Obj, cur: Obj, k: string, ghost path: seq<string>, ghost objs: set<Obj>)
    returns (next: Obj, ghost objs': set<Obj>)
    requires Tree(Snap(objs), obj) && Walk(Snap(objs), obj, path) == Some(cur) && cur in objs
    modifies cur
    ensures objs <= objs' && fresh(objs' - objs) && next in objs'
    ensures Tree(Snap(objs'), obj) && Walk(Snap(objs'), obj, path + [k]) == Some(next)
    ensures forall q :: q != path + [k] || old(IsRef(Get(Snap(objs), obj, q)))
              ==> Get(Snap(objs'), obj, q) == old(Get(Snap(objs), obj, q))
  {
    ghost var h, p' := Snap(objs), path + [k];
    assert p'[..|p'| - 1] == path;
    objs' := objs;
    if k !in cur.fields || !cur.fields[k].Ref? {
      var o := new Obj();
      NewObjectTree(h, obj, cur, k, o);
      NewObjectWalk(h, obj, path, cur, k, o);
      forall q | q != p'
        ensures Get(h[cur := h[cur][k := Ref(o)]][o := map[]], obj, q) == Get(h, obj, q)
      {
        NewObjectFrame(h, obj, path, cur, k, o, q);
      }
      cur.fields := cur.fields[k := Ref(o)];
      objs' := objs' + {o};
      assert Snap(objs') == h[cur := h[cur][k := Ref(o)]][o := map[]];
    } else {
      WalkStays(h, obj, p');
    }
    next := cur.fields[k].obj;
  }

  /** The loop of setPath: an object at every proper prefix, made where there was none. */
  method MakeParents(obj: Obj, keys: seq<string>, ghost objs: set<Obj>) returns (cur: Obj, ghost objs': set<Obj>)
    requires keys != [] && Tree(Snap(objs), obj)
    modifies objs
    ensures objs <= objs' && fresh(objs' - objs) && cur in objs'
    ensures Tree(Snap(objs'), obj) && Walk(Snap(objs'), obj, keys[..|keys| - 1]) == Some(cur)
    ensures forall q :: !old(Replaced(Snap(objs), obj, keys, q))
              ==> Get(Snap(objs'), obj, q) == old(Get(Snap(objs), obj, q))
  {
    ghost var h0 := Snap(objs);
    cur, objs' := obj, objs;
    for i := 0 to |keys| - 1
      invariant objs <= objs' && fresh(objs' - objs) && cur in objs'
      invariant Tree(Snap(objs'), obj) && Walk(Snap(objs'), obj, keys[..i]) == Some(cur)
      invariant forall q :: !Replaced(h0, obj, keys, q) ==> Get(Snap(objs'), obj, q) == Get(h0, obj, q)
    {
      assert keys[..i + 1] == keys[..i] + [keys[i]];
      hide Tree, Walk, Get;
      cur, objs' := Descend(obj, cur, keys[i], keys[..i], objs');
    }
  }

  /** After setPath the path reads the value; every path neither a prefix nor an
      extension of it reads as before, and so does every prefix that led to an object.
      `mid` is the heap just before the write, and `at` the object written to. */
  method SetPath(obj: Obj, keys: seq<string>, value: Value, ghost objs: set<Obj>)
    returns (ghost objs': set<Obj>, ghost mid: Heap, ghost at: Obj)
    requires Tree(Snap(objs), obj)
    modifies objs
    ensures objs <= objs' && fresh(objs' - objs)
    ensures keys == [] ==> Snap(objs') == old(Snap(objs))
    ensures keys != [] ==>
              && Tree(mid, obj) && Walk(mid, obj, keys[..|keys| - 1]) == Some(at) && mid.Keys == objs' && at in mid
              && Snap(objs') == mid[at := mid[at][keys[|keys| - 1] := value]]
              && forall q :: !old(Replaced(Snap(objs), obj, keys, q))
                   ==> Get(mid, obj, q) == old(Get(Snap(objs), obj, q))
    ensures keys == [] || value.Data? ==> Tree(Snap(objs'), obj)
    ensures keys != [] ==> Get(Snap(objs'), obj, keys) == Some(value)
    ensures forall q :: (keys == [] || !Extends(q, keys)) && !old(Replaced(Snap(objs), obj, keys, q))
              ==> Get(Snap(objs'), obj, q) == old(Get(Snap(objs), obj, q))
  {
    objs', mid, at := objs, Snap(objs), obj;
    if |keys| == 0 {
      return;
    }
    var cur;
    cur, objs' := MakeParents(obj, keys, objs);
    mid, at := Snap(objs'), cur;
    ghost var path, k := keys[..|keys| - 1], keys[|keys| - 1];
    assert keys == path + [k];
    hide Tree, Walk, Get;
    WriteStep(mid, obj, path, cur, k, value);
    cur.fields := cur.fields[keys[|keys| - 1] := value];
    assert Snap(objs') == mid[at := mid[at][k := value]];
  }

  method DeletePath(obj: Obj, keys: seq<string>, ghost objs: set<Obj>)
    requires Closed(Snap(objs), obj)
    modifies objs
    ensures Snap(objs) == Deleted(old(Snap(objs)), obj, keys)
  {
    if |keys| == 0 {
      return;
    }
    ghost var h := Snap(objs);
    var cur := obj;
    for i := 0 to |keys| - 1
      invariant Snap(objs) == h && cur in objs && Walk(h, obj, keys[..i]) == Some(cur)
    {
      var k := keys[i];
      assert keys[..i + 1][..i] == keys[..i];
      if k !in cur.fields || !cur.fields[k].Ref? {
        NothingBelow(h, obj, keys[..i + 1], keys[..|keys| - 1]);
        return;
      }
      cur := cur.fields[k].obj;
    }
    cur.fields := cur.fields - {keys[|keys| - 1]};
  }

  method Wrap(body: Obj, key: string) returns (o: Obj)
    ensures fresh(o) && o.fields == map[key := Ref(body)]
  {
    o := new Obj();
    o.fields := map[key := Ref(body)];
  }

  method Unwrap(body: Obj, key: string) returns (o: Obj)
    ensures o == if key in body.fields && body.fields[key].Ref? then body.fields[key].obj else body
  {
    if key in body.fields && body.fields[key].Ref? {
      return body.fields[key].obj;
    }
    return body;
  }

  /** Wrapping and unwrapping with one key gives back the very same object. */
  method WrapThenUnwrap(body: Obj, key: string) returns (o: Obj)
    ensures o == body && o.fields == old(body.fields)
  {
    var wrapped := Wrap(body, key);
    o := Unwrap(wrapped, key);
  }
}
