/** The depth and complexity measures on GraphQL documents, whose fragments may
    spread one another in cycles. */
module QueryLimits {
  /** A field may have a selection set of its own; names of fields do not matter. */
  datatype Selection =
    | Leaf
    | Field(sub: seq<Selection>)
    | Inline(sub: seq<Selection>)
    | Spread(name: string)

  type Fragments = map<string, seq<Selection>>

  function Max(a: nat, b: nat): nat {
    if a < b then b else a
  }

  // ---- The guarded measures ------------------------------------------------

  /** How many levels of fields lie below `sels`, not entering a fragment that is
      already being walked. Terminates on every document: a fragment entered shrinks
      the set of names not yet seen, anything else shrinks the selection. */
  function Depth(frags: Fragments, sels: seq<Selection>, seen: set<string>): nat
    decreases frags.Keys - seen, sels
  {
    if sels == [] then 0
    else Max(DepthOf(frags, sels[0], seen), Depth(frags, sels[1..], seen))
  }

  function DepthOf(frags: Fragments, sel: Selection, seen: set<string>): nat
    decreases frags.Keys - seen, sel
  {
    match sel
    case Leaf => 0
    case Field(sub) => 1 + Depth(frags, sub, seen)
    case Inline(sub) => Depth(frags, sub, seen)
    case Spread(name) =>
      if name in seen || name !in frags then 0 else Depth(frags, frags[name], seen + {name})
  }

  /** measureComplexity */
  function Complexity(frags: Fragments, sels: seq<Selection>, seen: set<string>): nat
    decreases frags.Keys - seen, sels
  {
    if sels == [] then 0
    else ComplexityOf(frags, sels[0], seen) + Complexity(frags, sels[1..], seen)
  }

  function ComplexityOf(frags: Fragments, sel: Selection, seen: set<string>): nat
    decreases frags.Keys - seen, sel
  {
    match sel
    case Leaf => 1
    case Field(sub) => 1 + Complexity(frags, sub, seen)
    case Inline(sub) => Complexity(frags, sub, seen)
    case Spread(name) =>
      if name in seen || name !in frags then 0 else Complexity(frags, frags[name], seen + {name})
  }

  lemma {:induction false} DepthAtMostComplexity(frags: Fragments, sels: seq<Selection>, seen: set<string>)
    ensures Depth(frags, sels, seen) <= Complexity(frags, sels, seen)
    decreases frags.Keys - seen, sels
  {
    if sels != [] {
      DepthAtMostComplexity(frags, sels[1..], seen);
      match sels[0]
      case Leaf =>
      case Field(sub) => DepthAtMostComplexity(frags, sub, seen);
      case Inline(sub) => DepthAtMostComplexity(frags, sub, seen);
      case Spread(name) =>
        if name !in seen && name in frags {
          DepthAtMostComplexity(frags, frags[name], seen + {name});
        }
    }
  }

  // ---- The query with every fragment inlined -------------------------------

  /** `tree` is `sels` with every spread replaced by an inline fragment holding the
      inlined fragment, empty when the document does not define it. Nothing here looks
      at names already seen: a spread that leads back to itself has no such tree. */
  ghost predicate Inlines(frags: Fragments, sels: seq<Selection>, tree: seq<Selection>)
    decreases tree
  {
    |sels| == |tree| &&
    (sels == [] || (InlinesOne(frags, sels[0], tree[0]) && Inlines(frags, sels[1..], tree[1..])))
  }

  ghost predicate InlinesOne(frags: Fragments, sel: Selection, t: Selection)
    decreases t
  {
    match sel
    case Leaf => t == Leaf
    case Field(sub) => t.Field? && Inlines(frags, sub, t.sub)
    case Inline(sub) => t.Inline? && Inlines(frags, sub, t.sub)
    case Spread(name) => t.Inline? && Inlines(frags, if name in frags then frags[name] else [], t.sub)
  }

  /** Plain nesting depth and field count of a query without spreads. */
  function Nesting(tree: seq<Selection>): nat {
    if tree == [] then 0 else Max(NestingOf(tree[0]), Nesting(tree[1..]))
  }

  function NestingOf(t: Selection): nat {
    match t
    case Leaf => 0
    case Field(sub) => 1 + Nesting(sub)
    case Inline(sub) => Nesting(sub)
    case Spread(_) => 0
  }

  function Fields(tree: seq<Selection>): nat {
    if tree == [] then 0 else FieldsOf(tree[0]) + Fields(tree[1..])
  }

  function FieldsOf(t: Selection): nat {
    match t
    case Leaf => 1
    case Field(sub) => 1 + Fields(sub)
    case Inline(sub) => Fields(sub)
    case Spread(_) => 0
  }

  function Size(tree: seq<Selection>): nat {
    if tree == [] then 0 else SizeOf(tree[0]) + Size(tree[1..])
  }

  function SizeOf(t: Selection): nat {
    1 + match t
        case Leaf => 0
        case Field(sub) => Size(sub)
        case Inline(sub) => Size(sub)
        case Spread(_) => 0
  }

  /** There is only one way to inline. */
  lemma {:induction false} InliningUnique(frags: Fragments, sels: seq<Selection>, a: seq<Selection>, b: seq<Selection>)
    requires Inlines(frags, sels, a) && Inlines(frags, sels, b)
    ensures a == b
    decreases a
  {
    if sels != [] {
      InliningUnique(frags, sels[1..], a[1..], b[1..]);
      match sels[0]
      case Leaf =>
      case Field(sub) => InliningUnique(frags, sub, a[0].sub, b[0].sub);
      case Inline(sub) => InliningUnique(frags, sub, a[0].sub, b[0].sub);
      case Spread(name) =>
        InliningUnique(frags, if name in frags then frags[name] else [], a[0].sub, b[0].sub);
    }
  }

  /** Every fragment being walked has an inlining at least as large as what is being walked. */
  ghost predicate Enclosing(frags: Fragments, seen: set<string>, walked: map<string, seq<Selection>>, size: nat) {
    walked.Keys == seen &&
    forall n :: n in walked ==> n in frags && Inlines(frags, frags[n], walked[n]) && size <= Size(walked[n])
  }

  /** So the guard never fires where an inlining exists, and the guarded measures are
      the plain ones. */
  lemma {:induction false} GuardNeverFires(frags: Fragments, sels: seq<Selection>, tree: seq<Selection>,
                                           seen: set<string>, walked: map<string, seq<Selection>>)
    requires Inlines(frags, sels, tree) && Enclosing(frags, seen, walked, Size(tree))
    ensures Depth(frags, sels, seen) == Nesting(tree)
    ensures Complexity(frags, sels, seen) == Fields(tree)
    decreases tree
  {
    if sels != [] {
      var t := tree[0];
      assert Size(tree[1..]) < Size(tree) && SizeOf(t) <= Size(tree);
      GuardNeverFires(frags, sels[1..], tree[1..], seen, walked);
      match sels[0]
      case Leaf =>
      case Field(sub) => GuardNeverFires(frags, sub, t.sub, seen, walked);
      case Inline(sub) => GuardNeverFires(frags, sub, t.sub, seen, walked);
      case Spread(name) =>
        if name in frags {
          if name in seen {
            InliningUnique(frags, frags[name], walked[name], t.sub);
            assert false;
          }
          GuardNeverFires(frags, frags[name], t.sub, seen + {name}, walked[name := t.sub]);
        } else {
          GuardNeverFires(frags, [], t.sub, seen, walked);
        }
    }
  }

  /** On a query that can be inlined, the measures are those of the inlined query. */
  lemma MeasuresOfInlined(frags: Fragments, sels: seq<Selection>, tree: seq<Selection>)
    requires Inlines(frags, sels, tree)
    ensures Depth(frags, sels, {}) == Nesting(tree)
    ensures Complexity(frags, sels, {}) == Fields(tree)
  {
    GuardNeverFires(frags, sels, tree, {}, map[]);
  }

  // ---- Which queries can be inlined ----------------------------------------

  /** The names spread somewhere in `sels`, fragments not entered. */
  function Spreads(sels: seq<Selection>): set<string> {
    if sels == [] then {} else SpreadsOf(sels[0]) + Spreads(sels[1..])
  }

  function SpreadsOf(sel: Selection): set<string> {
    match sel
    case Leaf => {}
    case Field(sub) => Spreads(sub)
    case Inline(sub) => Spreads(sub)
    case Spread(name) => {name}
  }

  /** Each fragment is spread in the one before it, the first in `sels`. */
  predicate IsChain(frags: Fragments, sels: seq<Selection>, chain: seq<string>)
    decreases |chain|
  {
    chain == [] ||
    (chain[0] in Spreads(sels) && chain[0] in frags && IsChain(frags, frags[chain[0]], chain[1..]))
  }

  predicate NoRepeats(chain: seq<string>) {
    chain == [] || (chain[0] !in chain[1..] && NoRepeats(chain[1..]))
  }

  /** No chain of spreads that starts in `sels` meets a fragment twice. */
  ghost predicate Acyclic(frags: Fragments, sels: seq<Selection>) {
    forall chain :: IsChain(frags, sels, chain) ==> NoRepeats(chain)
  }

  /** An inlined query contains the inlining of each fragment it spreads. */
  lemma {:induction false} SpreadInside(frags: Fragments, sels: seq<Selection>, tree: seq<Selection>, name: string)
    returns (u: seq<Selection>)
    requires Inlines(frags, sels, tree) && name in Spreads(sels) && name in frags
    ensures Inlines(frags, frags[name], u) && Size(u) < Size(tree)
    decreases sels
  {
    var t := tree[0];
    if name in Spreads(sels[1..]) {
      u := SpreadInside(frags, sels[1..], tree[1..], name);
    } else {
      match sels[0]
      case Field(sub) => u := SpreadInside(frags, sub, t.sub, name);
      case Inline(sub) => u := SpreadInside(frags, sub, t.sub, name);
      case Spread(_) => u := t.sub;
    }
  }

  lemma {:induction false} ChainInside(frags: Fragments, sels: seq<Selection>, tree: seq<Selection>,
                                       chain: seq<string>, name: string)
    returns (u: seq<Selection>)
    requires Inlines(frags, sels, tree) && IsChain(frags, sels, chain) && name in chain
    ensures name in frags && Inlines(frags, frags[name], u) && Size(u) < Size(tree)
    decreases |chain|
  {
    u := SpreadInside(frags, sels, tree, chain[0]);
    if name != chain[0] {
      u := ChainInside(frags, frags[chain[0]], u, chain[1..], name);
    }
  }

  lemma {:induction false} InlinableHasNoCycle(frags: Fragments, sels: seq<Selection>, tree: seq<Selection>,
                                               chain: seq<string>)
    requires Inlines(frags, sels, tree) && IsChain(frags, sels, chain)
    ensures NoRepeats(chain)
    decreases |chain|
  {
    if chain != [] {
      var first, rest := chain[0], chain[1..];
      var u := SpreadInside(frags, sels, tree, first);
      InlinableHasNoCycle(frags, frags[first], u, rest);
      if first in rest {
        var v := ChainInside(frags, frags[first], u, rest, first);
        InliningUnique(frags, frags[first], u, v);
        assert false;
      }
    }
  }

  /** Inlining under the guard. */
  function Expand(frags: Fragments, sels: seq<Selection>, seen: set<string>): seq<Selection>
    decreases frags.Keys - seen, sels
  {
    if sels == [] then []
    else [ExpandOf(frags, sels[0], seen)] + Expand(frags, sels[1..], seen)
  }

  function ExpandOf(frags: Fragments, sel: Selection, seen: set<string>): Selection
    decreases frags.Keys - seen, sel
  {
    match sel
    case Leaf => Leaf
    case Field(sub) => Field(Expand(frags, sub, seen))
    case Inline(sub) => Inline(Expand(frags, sub, seen))
    case Spread(name) =>
      Inline(if name in seen || name !in frags then [] else Expand(frags, frags[name], seen + {name}))
  }

  /** No chain from `sels` repeats a fragment or meets one already seen. */
  ghost predicate Unseen(frags: Fragments, sels: seq<Selection>, seen: set<string>) {
    forall chain :: IsChain(frags, sels, chain) ==> NoRepeats(chain) && forall n :: n in chain ==> n !in seen
  }

  lemma UnseenPart(frags: Fragments, part: seq<Selection>, sels: seq<Selection>, seen: set<string>)
    requires Unseen(frags, sels, seen) && Spreads(part) <= Spreads(sels)
    ensures Unseen(frags, part, seen)
  {
    forall chain | IsChain(frags, part, chain)
      ensures NoRepeats(chain) && forall n :: n in chain ==> n !in seen
    {
      assert IsChain(frags, sels, chain);
    }
  }

  lemma UnseenBody(frags: Fragments, name: string, sels: seq<Selection>, seen: set<string>)
    requires Unseen(frags, sels, seen) && name in Spreads(sels) && name in frags
    ensures name !in seen && Unseen(frags, frags[name], seen + {name})
  {
    assert IsChain(frags, sels, [name]);
    forall chain | IsChain(frags, frags[name], chain)
      ensures NoRepeats(chain) && forall n :: n in chain ==> n !in seen + {name}
    {
      var longer := [name] + chain;
      assert longer[1..] == chain;
      assert IsChain(frags, sels, longer) && NoRepeats(longer);
      assert forall n :: n in chain ==> n in longer;
    }
  }

  lemma {:induction false} AcyclicExpands(frags: Fragments, sels: seq<Selection>, seen: set<string>)
    requires Unseen(frags, sels, seen)
    ensures Inlines(frags, sels, Expand(frags, sels, seen))
    decreases frags.Keys - seen, sels
  {
    if sels != [] {
      UnseenPart(frags, sels[1..], sels, seen);
      AcyclicExpands(frags, sels[1..], seen);
      match sels[0]
      case Leaf =>
      case Field(sub) =>
        UnseenPart(frags, sub, sels, seen);
        AcyclicExpands(frags, sub, seen);
      case Inline(sub) =>
        UnseenPart(frags, sub, sels, seen);
        AcyclicExpands(frags, sub, seen);
      case Spread(name) =>
        if name in frags {
          UnseenBody(frags, name, sels, seen);
          AcyclicExpands(frags, frags[name], seen + {name});
        }
    }
  }

  ghost predicate Inlinable(frags: Fragments, sels: seq<Selection>) {
    exists tree :: Inlines(frags, sels, tree)
  }

  /** A query can be inlined exactly when no chain of its spreads is cyclic, and then
      the measures, guard and all, are the depth and field count of the inlined query. */
  lemma InlinableIffAcyclic(frags: Fragments, sels: seq<Selection>)
    ensures Acyclic(frags, sels) <==> Inlinable(frags, sels)
    ensures forall tree :: Inlines(frags, sels, tree) ==>
              Depth(frags, sels, {}) == Nesting(tree) && Complexity(frags, sels, {}) == Fields(tree)
  {
    forall tree | Inlines(frags, sels, tree)
      ensures Depth(frags, sels, {}) == Nesting(tree) && Complexity(frags, sels, {}) == Fields(tree)
    {
      MeasuresOfInlined(frags, sels, tree);
    }
    if Acyclic(frags, sels) {
      assert Unseen(frags, sels, {});
      AcyclicExpands(frags, sels, {});
    }
    if Inlinable(frags, sels) {
      var tree :| Inlines(frags, sels, tree);
      forall chain | IsChain(frags, sels, chain) ensures NoRepeats(chain) {
        InlinableHasNoCycle(frags, sels, tree, chain);
      }
    }
  }

  // ---- The code ------------------------------------------------------------

  /** measureDepth: the depth is passed down and the maximum kept in a loop. */
  method MeasureDepth(node: seq<Selection>, frags: Fragments, depth: nat, seen: set<string>) returns (max: nat)
    ensures max == depth + Depth(frags, node, seen)
    decreases frags.Keys - seen, node
  {
    max := depth;
    var i := 0;
    while i < |node|
      invariant 0 <= i <= |node| && depth <= max
      invariant Max(max, depth + Depth(frags, node[i..], seen)) == depth + Depth(frags, node, seen)
    {
      var sel := node[i];
      assert node[i..][1..] == node[i + 1..] && node[i..][0] == sel;
      match sel {
        case Leaf =>
        case Field(sub) =>
          var d := MeasureDepth(sub, frags, depth + 1, seen);
          if d > max { max := d; }
        case Inline(sub) =>
          var d := MeasureDepth(sub, frags, depth, seen);
          if d > max { max := d; }
        case Spread(name) =>
          if name !in seen && name in frags {
            var d := MeasureDepth(frags[name], frags, depth, seen + {name});
            if d > max { max := d; }
          }
      }
      i := i + 1;
    }
  }

  datatype Definition =
    | FragmentDef(name: string, sels: seq<Selection>)
    | OperationDef(sels: seq<Selection>)
    | OtherDef

  datatype Verdict = Accepted | TooDeep(depth: nat) | TooComplex(complexity: nat)

  /** The last definition of a name counts. */
  function FragmentsOf(defs: seq<Definition>): Fragments {
    if defs == [] then map[]
    else
      var last := defs[|defs| - 1];
      var before := FragmentsOf(defs[..|defs| - 1]);
      if last.FragmentDef? then before[last.name := last.sels] else before
  }

  /** A name is known exactly if some definition has it, and stands for the last one. */
  lemma {:induction false} FragmentsSpec(defs: seq<Definition>, name: string)
    ensures var frags := FragmentsOf(defs);
            && (name in frags <==> exists i :: 0 <= i < |defs| && defs[i].FragmentDef? && defs[i].name == name)
            && (name in frags ==> exists i :: LastNamed(defs, name, i) && frags[name] == defs[i].sels)
  {
    if defs != [] {
      var n := |defs| - 1;
      FragmentsSpec(defs[..n], name);
      if defs[n].FragmentDef? && defs[n].name == name {
        assert LastNamed(defs, name, n);
      } else if name in FragmentsOf(defs) {
        var i :| LastNamed(defs[..n], name, i) && FragmentsOf(defs[..n])[name] == defs[..n][i].sels;
        assert LastNamed(defs, name, i);
      }
    }
  }

  predicate LastNamed(defs: seq<Definition>, name: string, i: int) {
    && 0 <= i < |defs| && defs[i].FragmentDef? && defs[i].name == name
    && forall j :: i < j < |defs| && defs[j].FragmentDef? ==> defs[j].name != name
  }

  /** Every operation of the document, inlined. */
  ghost predicate InlinedBy(defs: seq<Definition>, trees: seq<seq<Selection>>) {
    |trees| == |defs|
    && forall k :: 0 <= k < |defs| && defs[k].OperationDef? ==> Inlines(FragmentsOf(defs), defs[k].sels, trees[k])
  }

  predicate Within(def: Definition, tree: seq<Selection>, maxDepth: nat, maxComplexity: nat) {
    def.OperationDef? ==> Nesting(tree) <= maxDepth && Fields(tree) <= maxComplexity
  }

  /** The verdict, read off the inlined operations: the first one that is over a limit is
      named, by its depth if that is too large. */
  ghost predicate Judges(v: Verdict, defs: seq<Definition>, trees: seq<seq<Selection>>, maxDepth: nat,
                         maxComplexity: nat)
    requires |trees| == |defs|
  {
    match v
    case Accepted => forall k :: 0 <= k < |defs| ==> Within(defs[k], trees[k], maxDepth, maxComplexity)
    case TooDeep(n) =>
      exists k :: 0 <= k < |defs| && defs[k].OperationDef? && n == Nesting(trees[k]) > maxDepth
        && forall j :: 0 <= j < k ==> Within(defs[j], trees[j], maxDepth, maxComplexity)
    case TooComplex(n) =>
      exists k :: 0 <= k < |defs| && defs[k].OperationDef? && n == Fields(trees[k]) > maxComplexity
        && Nesting(trees[k]) <= maxDepth
        && forall j :: 0 <= j < k ==> Within(defs[j], trees[j], maxDepth, maxComplexity)
  }

  function VerdictOn(frags: Fragments, def: Definition, maxDepth: nat, maxComplexity: nat): Verdict {
    if !def.OperationDef? then Accepted
    else if Depth(frags, def.sels, {}) > maxDepth then TooDeep(Depth(frags, def.sels, {}))
    else if Complexity(frags, def.sels, {}) > maxComplexity then TooComplex(Complexity(frags, def.sels, {}))
    else Accepted
  }

  /** didResolveOperation: every operation of the document is checked, and the first
      one over a limit is reported, its depth before its complexity. */
  method CheckDocument(defs: seq<Definition>, maxDepth: nat, maxComplexity: nat) returns (v: Verdict)
    ensures var frags := FragmentsOf(defs);
            if v == Accepted then
              forall d :: d in defs && d.OperationDef? ==>
                Depth(frags, d.sels, {}) <= maxDepth && Complexity(frags, d.sels, {}) <= maxComplexity
            else
              exists k :: 0 <= k < |defs| && VerdictOn(frags, defs[k], maxDepth, maxComplexity) == v
                && forall j :: 0 <= j < k ==> VerdictOn(frags, defs[j], maxDepth, maxComplexity) == Accepted
    ensures forall trees :: InlinedBy(defs, trees) ==> Judges(v, defs, trees, maxDepth, maxComplexity)
  {
    var frags: Fragments := map[];
    for i := 0 to |defs|
      invariant frags == FragmentsOf(defs[..i])
    {
      assert defs[..i + 1][..i] == defs[..i];
      if defs[i].FragmentDef? {
        frags := frags[defs[i].name := defs[i].sels];
      }
    }
    assert defs[..|defs|] == defs;
    for i := 0 to |defs|
      invariant forall j :: 0 <= j < i ==> VerdictOn(frags, defs[j], maxDepth, maxComplexity) == Accepted
    {
      if defs[i].OperationDef? {
        var depth := MeasureDepth(defs[i].sels, frags, 0, {});
        if depth > maxDepth {
          JudgedAt(defs, i, maxDepth, maxComplexity);
          return TooDeep(depth);
        }
        var complexity := Complexity(frags, defs[i].sels, {});
        if complexity > maxComplexity {
          JudgedAt(defs, i, maxDepth, maxComplexity);
          return TooComplex(complexity);
        }
      }
    }
    AllJudged(defs, maxDepth, maxComplexity);
    return Accepted;
  }

  lemma WithinIsAccepted(defs: seq<Definition>, trees: seq<seq<Selection>>, k: nat, maxDepth: nat, maxComplexity: nat)
    requires InlinedBy(defs, trees) && k < |defs|
    ensures VerdictOn(FragmentsOf(defs), defs[k], maxDepth, maxComplexity) ==
              if Within(defs[k], trees[k], maxDepth, maxComplexity) then Accepted
              else if Nesting(trees[k]) > maxDepth then TooDeep(Nesting(trees[k]))
              else TooComplex(Fields(trees[k]))
  {
    if defs[k].OperationDef? {
      MeasuresOfInlined(FragmentsOf(defs), defs[k].sels, trees[k]);
    }
  }

  /** The first operation that is not accepted gives the verdict. */
  lemma JudgedAt(defs: seq<Definition>, k: nat, maxDepth: nat, maxComplexity: nat)
    requires k < |defs| && VerdictOn(FragmentsOf(defs), defs[k], maxDepth, maxComplexity) != Accepted
    requires forall j :: 0 <= j < k ==> VerdictOn(FragmentsOf(defs), defs[j], maxDepth, maxComplexity) == Accepted
    ensures forall trees :: InlinedBy(defs, trees) ==>
              Judges(VerdictOn(FragmentsOf(defs), defs[k], maxDepth, maxComplexity), defs, trees, maxDepth,
                     maxComplexity)
  {
    hide FragmentsOf, Nesting, Fields, Inlines, VerdictOn;
    forall trees | InlinedBy(defs, trees)
      ensures Judges(VerdictOn(FragmentsOf(defs), defs[k], maxDepth, maxComplexity), defs, trees, maxDepth,
                     maxComplexity)
    {
      forall j | 0 <= j <= k
        ensures VerdictOn(FragmentsOf(defs), defs[j], maxDepth, maxComplexity) == Accepted <==>
                Within(defs[j], trees[j], maxDepth, maxComplexity)
      {
        WithinIsAccepted(defs, trees, j, maxDepth, maxComplexity);
      }
      WithinIsAccepted(defs, trees, k, maxDepth, maxComplexity);
    }
  }

  lemma AllJudged(defs: seq<Definition>, maxDepth: nat, maxComplexity: nat)
    requires forall j :: 0 <= j < |defs| ==> VerdictOn(FragmentsOf(defs), defs[j], maxDepth, maxComplexity) == Accepted
    ensures forall trees :: InlinedBy(defs, trees) ==> Judges(Accepted, defs, trees, maxDepth, maxComplexity)
  {
    forall trees | InlinedBy(defs, trees) ensures Judges(Accepted, defs, trees, maxDepth, maxComplexity) {
      forall k | 0 <= k < |defs| ensures Within(defs[k], trees[k], maxDepth, maxComplexity) {
        WithinIsAccepted(defs, trees, k, maxDepth, maxComplexity);
      }
    }
  }
}
