/** What the two measures of a query measure. */
module QueryMeasures {
  import opened QueryLimits

  /** A way down into the query: which selection is entered at each level. */
  predicate IsDescent(tree: seq<Selection>, path: seq<nat>)
    decreases |path|
  {
    path == [] ||
    (path[0] < |tree| && (tree[path[0]].Field? || tree[path[0]].Inline?) && IsDescent(tree[path[0]].sub, path[1..]))
  }

  /** The fields on it; inline fragments do not count. */
  function FieldsEntered(tree: seq<Selection>, path: seq<nat>): nat
    requires IsDescent(tree, path)
    decreases |path|
  {
    if path == [] then 0
    else (if tree[path[0]].Field? then 1 else 0) + FieldsEntered(tree[path[0]].sub, path[1..])
  }

  /** The nesting depth is the largest number of fields that can be entered one inside
      another. */
  lemma {:induction false} NestingIsDeepest(tree: seq<Selection>) returns (deepest: seq<nat>)
    ensures IsDescent(tree, deepest) && FieldsEntered(tree, deepest) == Nesting(tree)
    ensures forall path :: IsDescent(tree, path) ==> FieldsEntered(tree, path) <= Nesting(tree)
    decreases tree
  {
    if tree == [] {
      deepest := [];
    } else {
      var below := [];
      if tree[0].Field? || tree[0].Inline? {
        below := NestingIsDeepest(tree[0].sub);
      }
      var later := NestingIsDeepest(tree[1..]);
      deepest := Deepest(tree, below, later);
      forall path | IsDescent(tree, path) ensures FieldsEntered(tree, path) <= Nesting(tree) {
        if path != [] && path[0] > 0 {
          var shifted := [path[0] - 1] + path[1..];
          assert shifted[1..] == path[1..];
          assert IsDescent(tree[1..], shifted) && FieldsEntered(tree[1..], shifted) == FieldsEntered(tree, path);
        }
      }
    }
  }

  lemma Deepest(tree: seq<Selection>, below: seq<nat>, later: seq<nat>) returns (deepest: seq<nat>)
    requires tree != []
    requires if tree[0].Field? || tree[0].Inline? then
               IsDescent(tree[0].sub, below) && FieldsEntered(tree[0].sub, below) == Nesting(tree[0].sub)
             else below == []
    requires IsDescent(tree[1..], later) && FieldsEntered(tree[1..], later) == Nesting(tree[1..])
    ensures IsDescent(tree, deepest) && FieldsEntered(tree, deepest) == Nesting(tree)
  {
    if NestingOf(tree[0]) >= Nesting(tree[1..]) {
      if tree[0].Field? || tree[0].Inline? {
        deepest := [0] + below;
        assert deepest[1..] == below;
      } else {
        deepest := [];
      }
    } else {
      deepest := [later[0] + 1] + later[1..];
      assert deepest[1..] == later[1..];
    }
  }

  /** A field stands at this place: an index for every level down to it. */
  predicate IsFieldAt(tree: seq<Selection>, p: seq<nat>)
    decreases |p|
  {
    p != [] && p[0] < |tree| &&
    if |p| == 1 then tree[p[0]].Leaf? || tree[p[0]].Field?
    else (tree[p[0]].Field? || tree[p[0]].Inline?) && IsFieldAt(tree[p[0]].sub, p[1..])
  }

  /** All places of fields, in document order. */
  function Places(tree: seq<Selection>): seq<seq<nat>> {
    if tree == [] then [] else PlacesOf(tree[0]) + Moved(Places(tree[1..]))
  }

  function PlacesOf(t: Selection): seq<seq<nat>> {
    match t
    case Leaf => [[0]]
    case Field(sub) => [[0]] + Inside(Places(sub))
    case Inline(sub) => Inside(Places(sub))
    case Spread(_) => []
  }

  function Inside(ps: seq<seq<nat>>): seq<seq<nat>> {
    seq(|ps|, i requires 0 <= i < |ps| => [0] + ps[i])
  }

  /** One selection further on. */
  function Moved(ps: seq<seq<nat>>): seq<seq<nat>> {
    seq(|ps|, i requires 0 <= i < |ps| => if ps[i] == [] then [] else [ps[i][0] + 1] + ps[i][1..])
  }

  /** `ps` lists the places at which a field stands, each once. */
  ghost predicate Lists(ps: seq<seq<nat>>, tree: seq<Selection>) {
    && (forall p :: p in ps <==> IsFieldAt(tree, p))
    && (forall i, j :: 0 <= i < j < |ps| ==> ps[i] != ps[j])
  }

  lemma InsideHas(ps: seq<seq<nat>>, p: seq<nat>)
    ensures p in Inside(ps) <==> p != [] && p[0] == 0 && p[1..] in ps
  {
    if p != [] && p[0] == 0 && p[1..] in ps {
      var i :| 0 <= i < |ps| && ps[i] == p[1..];
      assert Inside(ps)[i] == p;
    }
  }

  lemma MovedHas(ps: seq<seq<nat>>, p: seq<nat>)
    requires [] !in ps
    ensures p in Moved(ps) <==> p != [] && p[0] > 0 && [p[0] - 1] + p[1..] in ps
  {
    if p != [] && p[0] > 0 && [p[0] - 1] + p[1..] in ps {
      var i :| 0 <= i < |ps| && ps[i] == [p[0] - 1] + p[1..];
      Next(p, ps[i]);
      assert Moved(ps)[i] == p;
    }
    if p in Moved(ps) {
      var i :| 0 <= i < |ps| && Moved(ps)[i] == p;
      Before(p, ps[i]);
      assert ps[i] in ps;
    }
  }

  lemma Next(p: seq<nat>, q: seq<nat>)
    requires p != [] && p[0] > 0 && q == [p[0] - 1] + p[1..]
    ensures [q[0] + 1] + q[1..] == p
  {
    assert q[1..] == p[1..];
  }

  lemma Before(p: seq<nat>, q: seq<nat>)
    requires q != [] && p == [q[0] + 1] + q[1..]
    ensures p != [] && p[0] > 0 && [p[0] - 1] + p[1..] == q
  {
    assert p[1..] == q[1..];
  }

  lemma MovedApart(ps: seq<seq<nat>>)
    requires [] !in ps && forall i, j :: 0 <= i < j < |ps| ==> ps[i] != ps[j]
    ensures forall i, j :: 0 <= i < j < |ps| ==> Moved(ps)[i] != Moved(ps)[j]
  {
    forall i, j | 0 <= i < j < |ps| ensures Moved(ps)[i] != Moved(ps)[j] {
      var p, q := ps[i], ps[j];
      assert p == [p[0]] + p[1..] && q == [q[0]] + q[1..];
      var p', q' := [p[0] + 1] + p[1..], [q[0] + 1] + q[1..];
      assert Moved(ps)[i] == p' && Moved(ps)[j] == q';
      assert p'[1..] == p[1..] && q'[1..] == q[1..] && p'[0] == p[0] + 1 && q'[0] == q[0] + 1;
    }
  }

  lemma InsideApart(ps: seq<seq<nat>>)
    requires forall i, j :: 0 <= i < j < |ps| ==> ps[i] != ps[j]
    ensures forall i, j :: 0 <= i < j < |ps| ==> Inside(ps)[i] != Inside(ps)[j]
  {
    forall i, j | 0 <= i < j < |ps| ensures Inside(ps)[i] != Inside(ps)[j] {
      assert Inside(ps)[i][1..] == ps[i] && Inside(ps)[j][1..] == ps[j];
    }
  }

  /** The complexity is the number of places at which a field stands. */
  lemma {:induction false} FieldsAreCounted(tree: seq<Selection>)
    ensures Lists(Places(tree), tree) && |Places(tree)| == Fields(tree)
    decreases tree
  {
    if tree != [] {
      var t, rest := tree[0], tree[1..];
      FieldsAreCounted(rest);
      assert [] !in Places(rest);
      MovedApart(Places(rest));
      PlacesOfOne(t);
      forall p ensures p in Places(tree) <==> IsFieldAt(tree, p) {
        MovedHas(Places(rest), p);
        if p != [] && p[0] > 0 {
          var back := [p[0] - 1] + p[1..];
          assert back[1..] == p[1..];
          assert IsFieldAt(rest, back) <==> IsFieldAt(tree, p);
        } else if p != [] {
          assert IsFieldAt([t], p) <==> IsFieldAt(tree, p);
        }
      }
      forall i, j | 0 <= i < j < |Places(tree)| ensures Places(tree)[i] != Places(tree)[j] {
        MovedHas(Places(rest), Places(tree)[j]);
        if i < |PlacesOf(t)| <= j {
          assert Places(tree)[i] in PlacesOf(t) && Places(tree)[j] in Moved(Places(rest));
        }
      }
    }
  }

  lemma PlacesOfOne(t: Selection)
    ensures Lists(PlacesOf(t), [t]) && |PlacesOf(t)| == FieldsOf(t)
    decreases t
  {
    if t.Field? || t.Inline? {
      var ps := Places(t.sub);
      FieldsAreCounted(t.sub);
      InsideApart(ps);
      forall p ensures p in PlacesOf(t) <==> IsFieldAt([t], p) {
        InsideHas(ps, p);
        assert t.Field? ==> (p in PlacesOf(t) <==> p == [0] || p in Inside(ps));
        assert |p| == 1 ==> p[1..] == [] && p == [p[0]];
      }
      if t.Field? {
        InsideHas(ps, [0]);
        assert [0][1..] == [] && [] !in ps;
        assert forall j :: 0 < j < |PlacesOf(t)| ==>
                 PlacesOf(t)[j] == Inside(ps)[j - 1] && PlacesOf(t)[j] in Inside(ps);
      }
    } else {
      forall p ensures p in PlacesOf(t) <==> IsFieldAt([t], p) {
        assert |p| == 1 ==> p == [p[0]];
      }
    }
  }

  /** For example: { a { b { c } } ...F } with fragment F on T { d { e } }. */
  lemma Example()
    ensures var frags := map["F" := [Field([Leaf])]];
            var query := [Field([Field([Leaf])]), Spread("F")];
            Depth(frags, query, {}) == 2 && Complexity(frags, query, {}) == 5
  {
    var frags := map["F" := [Field([Leaf])]];
    var query := [Field([Field([Leaf])]), Spread("F")];
    assert query[1..] == [Spread("F")] && [Spread("F")][1..] == [];
    assert [Field([Leaf])][1..] == [] && [Leaf][1..] == [] && [Field([Field([Leaf])])][1..] == [];
    forall seen: set<string>
      ensures Depth(frags, [Leaf], seen) == 0 && Complexity(frags, [Leaf], seen) == 1
      ensures Depth(frags, [Field([Leaf])], seen) == 1 && Complexity(frags, [Field([Leaf])], seen) == 2
    {}
    assert DepthOf(frags, query[0], {}) == 2 && ComplexityOf(frags, query[0], {}) == 3;
  }
}
