/** Which routes count as the same one, at the gateway and at the registry. */
module RouteKeys {
  import opened Wrappers
  import opened Sorting
  import opened RouteEntry
  import opened Text

  // ---- Method lists --------------------------------------------------------

  lemma {:induction false} LexTotal(a: string, b: string)
    ensures LexLeq(a, b) || LexLeq(b, a)
    ensures LexLeq(a, b) && LexLeq(b, a) ==> a == b
  {
    if a != "" && b != "" {
      LexTotal(a[1..], b[1..]);
      assert a == [a[0]] + a[1..] && b == [b[0]] + b[1..];
    }
  }

  lemma {:induction false} LexTransitive(a: string, b: string, c: string)
    requires LexLeq(a, b) && LexLeq(b, c)
    ensures LexLeq(a, c)
  {
    if a != "" {
      if a[0] == b[0] == c[0] {
        LexTransitive(a[1..], b[1..], c[1..]);
      }
    }
  }

  /** The order of a dictionary: the first difference decides, and a beginning comes first. */
  lemma {:induction false} FirstDifference(a: string, b: string, k: nat)
    requires k <= |a| && k <= |b| && a[..k] == b[..k]
    ensures k < |a| && k < |b| && a[k] != b[k] ==> (LexLeq(a, b) <==> a[k] < b[k])
    ensures k == |a| ==> LexLeq(a, b)
    ensures k == |b| < |a| ==> !LexLeq(a, b)
  {
    if k > 0 {
      assert a[..k][0] == b[..k][0] && a[1..][..k - 1] == a[..k][1..] && b[1..][..k - 1] == b[..k][1..];
      FirstDifference(a[1..], b[1..], k - 1);
    }
  }

  lemma LexPreorder()
    ensures TotalPreorder(LexLeq)
  {
    forall a, b ensures LexLeq(a, b) || LexLeq(b, a) {
      LexTotal(a, b);
    }
    forall a, b, c | LexLeq(a, b) && LexLeq(b, c) ensures LexLeq(a, c) {
      LexTransitive(a, b, c);
    }
  }

  predicate NoRepeats(s: seq<string>) {
    forall i, j :: 0 <= i < j < |s| ==> s[i] != s[j]
  }

  lemma {:induction false} CountOnce(s: seq<string>, x: string)
    requires NoRepeats(s)
    ensures multiset(s)[x] == if x in s then 1 else 0
  {
    if s != [] {
      CountOnce(s[1..], x);
      assert s == [s[0]] + s[1..];
    }
  }

  /** Without repetitions there is one sorted list of the same strings. */
  lemma SortedOnce(a: seq<string>, b: seq<string>)
    requires NoRepeats(a) && NoRepeats(b) && forall x :: x in a <==> x in b
    ensures Sorted(a, LexLeq) == Sorted(b, LexLeq)
    ensures Ordered(a, LexLeq) ==> Sorted(a, LexLeq) == a
  {
    LexPreorder();
    forall x ensures multiset(a)[x] == multiset(b)[x] {
      CountOnce(a, x);
      CountOnce(b, x);
    }
    assert multiset(a) == multiset(b);
    SortedSorts(a, LexLeq);
    SortedSorts(b, LexLeq);
    DistinctIsStrict(a);
    StrictPermutes(a, Sorted(a, LexLeq), LexLeq);
    hide *;
    SortOnly(Sorted(a, LexLeq), a, Sorted(b, LexLeq));
  }

  lemma SortOnly(s: seq<string>, a: seq<string>, t: seq<string>)
    requires TotalPreorder(LexLeq) && Strict(s, LexLeq) && Ordered(s, LexLeq) && Ordered(t, LexLeq)
    requires multiset(s) == multiset(a) == multiset(t)
    ensures s == t
    ensures Ordered(a, LexLeq) ==> s == a
  {
    SortUnique(s, t, LexLeq);
    if Ordered(a, LexLeq) {
      SortUnique(s, a, LexLeq);
    }
  }

  lemma DistinctIsStrict(s: seq<string>)
    requires NoRepeats(s)
    ensures Strict(s, LexLeq)
  {
    forall i, j | 0 <= i < j < |s| ensures !(LexLeq(s[i], s[j]) && LexLeq(s[j], s[i])) {
      LexTotal(s[i], s[j]);
    }
  }

  /** The methods a list stands for, whatever their case and order. */
  function MethodSet(methods: seq<string>): set<string> {
    set m | m in methods && m != "" :: Mapped(m, Upper)
  }

  lemma {:induction false} DistinctSpec(methods: seq<string>)
    ensures var d := Distinct(methods);
            NoRepeats(d) && forall x :: x in d <==> x in MethodSet(methods)
  {
    if methods != [] {
      DistinctSpec(methods[..|methods| - 1]);
      assert methods == methods[..|methods| - 1] + [methods[|methods| - 1]];
    }
  }

  /** Two method lists normalize alike exactly when they stand for the same methods. */
  lemma MethodsCanonical(a: seq<string>, b: seq<string>)
    ensures NormalizeMethods(a) == NormalizeMethods(b) <==> MethodSet(a) == MethodSet(b)
  {
    DistinctSpec(a);
    DistinctSpec(b);
    NormalizedSet(a);
    NormalizedSet(b);
    hide Distinct, Sorted, MethodSet;
    if MethodSet(a) == MethodSet(b) {
      SortedOnce(Distinct(a), Distinct(b));
    }
  }

  lemma NormalizedSet(methods: seq<string>)
    ensures forall x :: x in NormalizeMethods(methods) <==> x in MethodSet(methods)
  {
    var d := Distinct(methods);
    DistinctSpec(methods);
    LexPreorder();
    SortedSorts(d, LexLeq);
    forall x ensures x in Sorted(d, LexLeq) <==> x in d {
      assert x in multiset(d) <==> x in multiset(Sorted(d, LexLeq));
    }
  }

  /** Normalizing a second time changes nothing. */
  lemma MethodsStable(methods: seq<string>)
    ensures NormalizeMethods(NormalizeMethods(methods)) == NormalizeMethods(methods)
  {
    NormalizedSet(methods);
    var r := NormalizeMethods(methods);
    forall x ensures x in MethodSet(r) <==> x in MethodSet(methods) {
      if x in MethodSet(r) {
        var m :| m in r && m != "" && x == Mapped(m, Upper);
        var n :| n in methods && n != "" && m == Mapped(n, Upper);
        UpperTwice(n);
      }
      if x in MethodSet(methods) {
        var n :| n in methods && n != "" && x == Mapped(n, Upper);
        UpperTwice(n);
        assert x in r && x != "";
      }
    }
    assert MethodSet(r) == MethodSet(methods);
    MethodsCanonical(r, methods);
  }

  // ---- The registry's method lists -----------------------------------------

  predicate Names(x: string, methods: seq<string>) {
    x != "" && exists m :: m in methods && x == Mapped(Trim(m), Upper)
  }

  /** normalizeRouteMethods in the registry: trimmed, in upper case, without repetitions
      and sorted; the gateway finds nothing left to normalize. */
  method NormalizeRouteMethods(methods: seq<string>) returns (normalized: seq<string>)
    ensures forall x :: x in normalized <==> Names(x, methods)
    ensures NoRepeats(normalized) && Ordered(normalized, LexLeq)
    ensures NormalizeMethods(normalized) == normalized
  {
    var seen: set<string> := {};
    normalized := [];
    for i := 0 to |methods|
      invariant forall x :: x in normalized <==> x in seen
      invariant forall x :: x in seen <==> Names(x, methods[..i])
      invariant NoRepeats(normalized)
    {
      assert methods[..i + 1] == methods[..i] + [methods[i]];
      var value := Mapped(Trim(methods[i]), Upper);
      if value == "" || value in seen {
        continue;
      }
      seen := seen + {value};
      normalized := normalized + [value];
    }
    assert methods[..|methods|] == methods;
    ghost var unsorted := normalized;
    normalized := Sorted(normalized, LexLeq);
    SortedKeeps(unsorted);
    UpperNamed(normalized, methods);
  }

  lemma SortedKeeps(s: seq<string>)
    requires NoRepeats(s)
    ensures var r := Sorted(s, LexLeq);
            && (forall x :: x in r <==> x in s)
            && NoRepeats(r) && Ordered(r, LexLeq)
  {
    LexPreorder();
    SortedSorts(s, LexLeq);
    DistinctIsStrict(s);
    StrictPermutes(s, Sorted(s, LexLeq), LexLeq);
    var r := Sorted(s, LexLeq);
    forall x ensures x in r <==> x in s {
      assert x in multiset(s) <==> x in multiset(r);
    }
    forall i, j | 0 <= i < j < |r| ensures r[i] != r[j] {
      assert !(LexLeq(r[i], r[j]) && LexLeq(r[j], r[i]));
      LexTotal(r[i], r[j]);
    }
  }

  lemma UpperNamed(r: seq<string>, methods: seq<string>)
    requires NoRepeats(r) && Ordered(r, LexLeq) && forall x :: x in r ==> Names(x, methods)
    ensures NormalizeMethods(r) == r
  {
    forall x | x in r ensures x != "" && Mapped(x, Upper) == x {
      var m :| m in methods && x == Mapped(Trim(m), Upper);
      UpperTwice(Trim(m));
    }
    assert forall x :: x in MethodSet(r) <==> x in r;
    DistinctSpec(r);
    hide Sorted, Distinct, MethodSet, Names;
    SortedOnce(r, Distinct(r));
  }

  // ---- Keys ----------------------------------------------------------------

  lemma {:induction false} JoinedInjective(a: seq<string>, b: seq<string>, sep: char)
    requires (forall s :: s in a ==> sep !in s) && (forall s :: s in b ==> sep !in s)
    requires a != [] && b != [] && Joined(a, [sep]) == Joined(b, [sep])
    ensures a == b
    decreases |a|
  {
    JoinedHas(a, sep);
    JoinedHas(b, sep);
    if |a| > 1 && |b| > 1 {
      SplitOnce(a[0], Joined(a[1..], [sep]), b[0], Joined(b[1..], [sep]), sep);
      JoinedInjective(a[1..], b[1..], sep);
      assert a == [a[0]] + a[1..] && b == [b[0]] + b[1..];
    }
  }

  lemma JoinedHas(a: seq<string>, sep: char)
    requires a != [] && sep !in a[0]
    ensures sep in Joined(a, [sep]) <==> |a| > 1
  {
    if |a| > 1 {
      assert Joined(a, [sep])[|a[0]|] == sep;
    }
  }

  /** What the gateway's key is made of holds none of the separators. */
  predicate Plain(e: Entry) {
    && '\0' !in e.apiId && '\0' !in e.pathPrefix && '\0' !in e.version
    && (e.host.Some? ==> '\0' !in e.host.value)
    && (forall m :: m in e.methods ==> '\0' !in m && ',' !in m)
  }

  /** A host spelled like the wildcard is keyed like no host, and methods likewise. */
  function KeyedHost(host: Option<string>): Option<string> {
    if host == Some("*") then None else host
  }

  function KeyedMethods(methods: seq<string>): seq<string> {
    if methods == ["*"] then [] else methods
  }

  function MethodsKey(methods: seq<string>): string {
    if methods == [] then "*" else Joined(methods, ",")
  }

  lemma {:induction false} JoinedPlain(methods: seq<string>)
    requires forall m :: m in methods ==> '\0' !in m
    ensures '\0' !in Joined(methods, ",")
  {
    if |methods| > 1 {
      JoinedPlain(methods[1..]);
    }
  }

  lemma MethodsKeyInjective(a: seq<string>, b: seq<string>)
    requires forall m :: m in a ==> ',' !in m
    requires forall m :: m in b ==> ',' !in m
    ensures MethodsKey(a) == MethodsKey(b) <==> KeyedMethods(a) == KeyedMethods(b)
  {
    assert Joined(["*"], ",") == "*";
    if MethodsKey(a) == MethodsKey(b) {
      JoinedInjective(if a == [] then ["*"] else a, if b == [] then ["*"] else b, ',');
    }
  }

  /** Two entries are the same route exactly when API, host, prefix, methods and version
      agree, where a wildcard is as good as nothing. */
  lemma KeyIdentifies(a: Entry, b: Entry)
    requires Plain(a) && Plain(b)
    ensures Key(a) == Key(b) <==>
            a.apiId == b.apiId && KeyedHost(a.host) == KeyedHost(b.host) && a.pathPrefix == b.pathPrefix
            && KeyedMethods(a.methods) == KeyedMethods(b.methods) && a.version == b.version
  {
    JoinedPlain(a.methods);
    JoinedPlain(b.methods);
    MethodsKeyInjective(a.methods, b.methods);
    var p, q := KeyParts(a), KeyParts(b);
    assert Key(a) == Joined(p, "\0") && Key(b) == Joined(q, "\0");
    assert p == q <==> p[0] == q[0] && p[1] == q[1] && p[2] == q[2] && p[3] == q[3] && p[4] == q[4];
    if Key(a) == Key(b) {
      assert forall s :: s in p ==> '\0' !in s;
      assert forall s :: s in q ==> '\0' !in s;
      JoinedInjective(p, q, '\0');
    }
  }

  function KeyParts(e: Entry): seq<string> {
    [e.apiId, if e.host.Some? then e.host.value else "*", e.pathPrefix, MethodsKey(e.methods), e.version]
  }
}
