/** Choosing the route for a request: host before path length before method. */
module RouteMatch {
  import opened Wrappers
  import opened Sorting
  import opened RouteEntry
  import opened Text

  predicate MatchesPathPrefix(path: string, prefix: string) {
    prefix == "/" || path == prefix || StartsWith(path, prefix + "/")
  }

  /** An empty host does not bind the route. */
  function BoundHost(e: Entry): Option<string> {
    if e.host == Some("") then None else e.host
  }

  /** A request as matchRoute normalizes it. */
  datatype Request = Request(host: Option<string>, path: string, httpMethod: string)

  function RequestOf(host: string, path: string, httpMethod: string): Request {
    Request(NormalizeHost(host), NormalizePath(path), Mapped(httpMethod, Upper))
  }

  predicate Matches(e: Entry, q: Request) {
    && e.active
    && (BoundHost(e) == None || BoundHost(e) == q.host)
    && (e.methods == [] || q.httpMethod in e.methods)
    && MatchesPathPrefix(q.path, e.pathPrefix)
  }

  /** The comparator lets `a` stand before `b`. */
  predicate Leq(a: Entry, b: Entry) {
    if BoundHost(a).Some? != BoundHost(b).Some? then BoundHost(a).Some?
    else if |a.pathPrefix| != |b.pathPrefix| then |a.pathPrefix| > |b.pathPrefix|
    else a.methods != [] || b.methods == []
  }

  lemma LeqTotal()
    ensures TotalPreorder(Leq)
  {}

  function Candidates(rs: seq<Entry>, q: Request): seq<Entry> {
    if rs == [] then []
    else
      var last := rs[|rs| - 1];
      if Matches(last, q) then Candidates(rs[..|rs| - 1], q) + [last] else Candidates(rs[..|rs| - 1], q)
  }

  /** `i` is the place of the route for `q`: it matches, no match beats it, and every
      earlier match is beaten by it. */
  ghost predicate IsBest(rs: seq<Entry>, q: Request, i: nat) {
    && i < |rs| && Matches(rs[i], q)
    && (forall e :: e in rs && Matches(e, q) ==> Leq(rs[i], e))
    && (forall e :: e in rs[..i] && Matches(e, q) ==> !Leq(e, rs[i]))
  }

  lemma {:induction false} CandidatesSpec(rs: seq<Entry>, q: Request)
    ensures forall e :: e in Candidates(rs, q) <==> e in rs && Matches(e, q)
  {
    if rs != [] {
      CandidatesSpec(rs[..|rs| - 1], q);
    }
  }

  lemma BestSnoc(rs: seq<Entry>, last: Entry, q: Request, k: nat)
    requires IsBest(rs, q, k)
    ensures IsBest(rs + [last], q, if Matches(last, q) && !Leq(rs[k], last) then |rs| else k)
  {
    LeqTotal();
    hide Leq, Matches;
    assert (rs + [last])[..k] == rs[..k] && (rs + [last])[..|rs|] == rs;
  }

  lemma BestFirst(rs: seq<Entry>, last: Entry, q: Request)
    requires Matches(last, q) && forall e :: e in rs ==> !Matches(e, q)
    ensures IsBest(rs + [last], q, |rs|)
  {
    assert (rs + [last])[..|rs|] == rs;
  }

  /** The head of the stably sorted candidates is the best match. */
  lemma {:induction false} HeadIsBest(rs: seq<Entry>, q: Request) returns (i: nat)
    requires Candidates(rs, q) != []
    ensures Sorted(Candidates(rs, q), Leq) != []
    ensures IsBest(rs, q, i) && rs[i] == Sorted(Candidates(rs, q), Leq)[0]
  {
    LeqTotal();
    var rest, last := rs[..|rs| - 1], rs[|rs| - 1];
    var before := Candidates(rest, q);
    CandidatesSpec(rest, q);
    assert rs == rest + [last];
    hide Leq, Matches, IsBest;
    if before == [] {
      i := |rest|;
      assert Candidates(rs, q) == [last];
      assert [last][..0] == [];
      BestFirst(rest, last, q);
    } else {
      i := HeadIsBest(rest, q);
      BestSnoc(rest, last, q, i);
      if Matches(last, q) {
        assert Candidates(rs, q)[..|before|] == before;
        SortedSorts(before, Leq);
        InsertHead(Sorted(before, Leq), last, Leq);
        i := if Leq(rest[i], last) then i else |rest|;
      }
    }
  }

  // ---- The answer, in terms of routes and request --------------------------

  /** split("/") */
  function Segments(path: string): seq<string>
    decreases |path|
  {
    if '/' !in path then [path]
    else
      AfterShorter(path, '/');
      [Before(path, '/')] + Segments(After(path, '/'))
  }

  /** A prefix matches whole segments. */
  lemma {:induction false} PrefixBySegments(path: string, prefix: string)
    ensures path == prefix || StartsWith(path, prefix + "/") <==> Segments(prefix) <= Segments(path)
    decreases |path|
  {
    FirstSegment(path);
    FirstSegment(prefix);
    if '/' !in prefix {
      assert Segments(prefix) <= Segments(path) <==> prefix == Before(path, '/');
      OneSegment(path, prefix);
    } else if '/' !in path {
      if path == prefix || StartsWith(path, prefix + "/") {
        HasSlash(path, prefix);
      }
      assert |Segments(prefix)| > 1;
    } else {
      AfterShorter(path, '/');
      PrefixBySegments(After(path, '/'), After(prefix, '/'));
      MoreSegments(path, prefix);
      var a, b := Segments(prefix), Segments(path);
      assert a <= b <==> a[0] == b[0] && a[1..] <= b[1..] by {
        if a[0] == b[0] && a[1..] <= b[1..] {
          assert a == [a[0]] + a[1..] && b == [b[0]] + b[1..];
        }
      }
    }
  }

  lemma FirstSegment(s: string)
    ensures '/' in s ==> s == Before(s, '/') + "/" + After(s, '/') && Segments(s)[0] == Before(s, '/')
                         && Segments(s)[1..] == Segments(After(s, '/'))
    ensures '/' !in s ==> Before(s, '/') == s
    ensures Segments(s) != [] && Segments(s)[0] == Before(s, '/')
  {
    CutAt(s, '/');
    BeforeKeeps(s, '/');
  }

  lemma HasSlash(path: string, prefix: string)
    requires StartsWith(path, prefix + "/") || (path == prefix && '/' in prefix)
    ensures '/' in path
  {
    if StartsWith(path, prefix + "/") {
      assert path[..|prefix| + 1][|prefix|] == '/';
    }
  }

  lemma OneSegment(path: string, prefix: string)
    requires '/' !in prefix
    ensures path == prefix || StartsWith(path, prefix + "/") <==> prefix == Before(path, '/')
  {
    CutAt(path, '/');
    BeforeKeeps(path, '/');
    if '/' in path {
      assert path[..|Before(path, '/')| + 1] == Before(path, '/') + "/";
    }
    if StartsWith(path, prefix + "/") {
      var rest := path[|prefix| + 1..];
      assert path == prefix + ['/'] + rest;
      SplitAtFirst(prefix, '/', rest);
    }
  }

  lemma MoreSegments(path: string, prefix: string)
    requires '/' in path && '/' in prefix
    ensures path == prefix || StartsWith(path, prefix + "/") <==>
            Before(path, '/') == Before(prefix, '/')
            && (After(path, '/') == After(prefix, '/') || StartsWith(After(path, '/'), After(prefix, '/') + "/"))
  {
    CutAt(path, '/');
    CutAt(prefix, '/');
    BeforeKeeps(path, '/');
    BeforeKeeps(prefix, '/');
    var p, p', q, q' := Before(path, '/'), After(path, '/'), Before(prefix, '/'), After(prefix, '/');
    hide Before, After, StartsWith;
    SameCut(p, p', q, q');
    StartsCut(p, p', q, q');
  }

  lemma SameCut(p: string, p': string, q: string, q': string)
    requires '/' !in p && '/' !in q
    ensures p + ['/'] + p' == q + ['/'] + q' <==> p == q && p' == q'
  {
    if p + ['/'] + p' == q + ['/'] + q' {
      SplitOnce(p, p', q, q', '/');
    }
  }

  lemma StartsCut(p: string, p': string, q: string, q': string)
    requires '/' !in p && '/' !in q
    ensures StartsWith(p + ['/'] + p', q + ['/'] + q' + "/") <==> p == q && StartsWith(p', q' + "/")
  {
    var path, prefix := p + ['/'] + p', q + ['/'] + q';
    if StartsWith(path, prefix + "/") {
      var rest := path[|prefix| + 1..];
      assert path == prefix + "/" + rest == q + ['/'] + (q' + "/" + rest);
      SplitOnce(p, p', q, q' + "/" + rest, '/');
      assert p'[..|q'| + 1] == q' + "/";
    }
    if p == q && StartsWith(p', q' + "/") {
      assert path[..|prefix| + 1] == prefix + "/";
    }
  }

  /** The route is bound to a host. */
  predicate Binds(e: Entry) {
    e.host.Some? && e.host.value != ""
  }

  /** The route may answer the request: it is active, and host, method and path fit. */
  predicate Serves(e: Entry, host: string, path: string, httpMethod: string) {
    && e.active
    && (Binds(e) ==> e.host == NormalizeHost(host))
    && (e.methods != [] ==> Mapped(httpMethod, Upper) in e.methods)
    && (e.pathPrefix == "/" || Segments(e.pathPrefix) <= Segments(NormalizePath(path)))
  }

  /** `e` is no better an answer than `r`: a bound host counts before a longer prefix, and
      that before bound methods. */
  predicate NoBetter(e: Entry, r: Entry) {
    && (Binds(e) ==> Binds(r))
    && (Binds(e) == Binds(r) ==> |e.pathPrefix| <= |r.pathPrefix|)
    && (Binds(e) == Binds(r) && |e.pathPrefix| == |r.pathPrefix| && e.methods != [] ==> r.methods != [])
  }

  /** And it is a worse one. */
  predicate Worse(e: Entry, r: Entry) {
    || (Binds(r) && !Binds(e))
    || (Binds(e) == Binds(r) && |r.pathPrefix| > |e.pathPrefix|)
    || (Binds(e) == Binds(r) && |r.pathPrefix| == |e.pathPrefix| && r.methods != [] && e.methods == [])
  }

  lemma MatchesServes(e: Entry, host: string, path: string, httpMethod: string)
    ensures Matches(e, RequestOf(host, path, httpMethod)) <==> Serves(e, host, path, httpMethod)
  {
    PrefixBySegments(NormalizePath(path), e.pathPrefix);
    hide Segments, NormalizePath, NormalizeHost;
  }

  /** The best match, without the comparator: nothing that serves is better, and what
      serves and stands earlier is worse. */
  lemma BestServes(rs: seq<Entry>, host: string, path: string, httpMethod: string, i: nat)
    requires IsBest(rs, RequestOf(host, path, httpMethod), i)
    ensures Serves(rs[i], host, path, httpMethod)
    ensures forall e :: e in rs && Serves(e, host, path, httpMethod) ==> NoBetter(e, rs[i])
    ensures forall j :: 0 <= j < i && Serves(rs[j], host, path, httpMethod) ==> Worse(rs[j], rs[i])
  {
    hide RequestOf, Matches, Serves;
    MatchesServes(rs[i], host, path, httpMethod);
    forall e | e in rs && Serves(e, host, path, httpMethod) ensures NoBetter(e, rs[i]) {
      MatchesServes(e, host, path, httpMethod);
    }
    forall j | 0 <= j < i && Serves(rs[j], host, path, httpMethod) ensures Worse(rs[j], rs[i]) {
      MatchesServes(rs[j], host, path, httpMethod);
      assert rs[j] in rs[..i];
    }
  }

  /** matchRoute */
  method MatchRoute(routes: seq<Entry>, host: string, path: string, httpMethod: string) returns (r: Option<Entry>)
    ensures var q := RequestOf(host, path, httpMethod);
            && (r == None <==> forall e :: e in routes ==> !Matches(e, q))
            && (r.Some? ==> exists i: nat :: IsBest(routes, q, i) && routes[i] == r.value)
    ensures r == None <==> forall e :: e in routes ==> !Serves(e, host, path, httpMethod)
    ensures r.Some? ==>
              exists i: nat :: i < |routes| && routes[i] == r.value && Serves(routes[i], host, path, httpMethod)
                && (forall e :: e in routes && Serves(e, host, path, httpMethod) ==> NoBetter(e, routes[i]))
                && (forall j :: 0 <= j < i && Serves(routes[j], host, path, httpMethod) ==> Worse(routes[j], routes[i]))
  {
    hide Matches, Serves, IsBest, Leq;
    var q := RequestOf(host, path, httpMethod);
    var candidates := Candidates(routes, q);
    CandidatesSpec(routes, q);
    forall e | e in routes ensures Matches(e, q) <==> Serves(e, host, path, httpMethod) {
      MatchesServes(e, host, path, httpMethod);
    }
    if |candidates| == 0 {
      return None;
    }
    assert candidates[0] in candidates;
    var i := HeadIsBest(routes, q);
    BestIsThere(routes, q, i);
    BestServes(routes, host, path, httpMethod, i);
    candidates := Sorted(candidates, Leq);
    return Some(candidates[0]);
  }

  lemma BestIsThere(rs: seq<Entry>, q: Request, i: nat)
    requires IsBest(rs, q, i)
    ensures i < |rs|
  {}

  // ---- Ties ----------------------------------------------------------------

  /** What a normalized prefix looks like. */
  predicate Rooted(e: Entry) {
    e.pathPrefix == "" || e.pathPrefix[0] == '/'
  }

  lemma NormalIsRooted(rs: seq<Entry>)
    requires AllNormal(rs)
    ensures forall e :: e in rs ==> Rooted(e)
  {
    forall e | e in rs ensures Rooted(e) {
      var p :| Normalize(p) == Some(e);
      PrefixStable(p.pathPrefix);
    }
  }

  /** Prefixes of one path that are equally long are equal. */
  lemma SameLengthSamePrefix(path: string, a: string, b: string)
    requires MatchesPathPrefix(path, a) && MatchesPathPrefix(path, b) && |a| == |b|
    requires (a == "" || a[0] == '/') && (b == "" || b[0] == '/')
    ensures a == b
  {
    if a != "/" && b != "/" {
      assert a == path[..|a|] by {
        if a != path { assert path[..|a| + 1][..|a|] == a; }
      }
      assert b == path[..|b|] by {
        if b != path { assert path[..|b| + 1][..|b|] == b; }
      }
    }
  }

  /** What a route is chosen by. */
  datatype Shape = Shape(host: Option<string>, pathPrefix: string, anyMethod: bool)

  function ShapeOf(e: Entry): Shape {
    Shape(BoundHost(e), e.pathPrefix, e.methods == [])
  }

  /** Two matches that tie have the same shape. */
  lemma TiesShareShape(a: Entry, b: Entry, q: Request)
    requires Matches(a, q) && Matches(b, q) && Leq(a, b) && Leq(b, a) && Rooted(a) && Rooted(b)
    ensures ShapeOf(a) == ShapeOf(b)
  {
    SameLengthSamePrefix(q.path, a.pathPrefix, b.pathPrefix);
  }

  /** So where no two matching routes share a shape, the order of the table does not
      matter. */
  lemma OrderDoesNotMatter(rs: seq<Entry>, rs': seq<Entry>, q: Request, i: nat, j: nat)
    requires AllNormal(rs) && forall e :: e in rs <==> e in rs'
    requires forall a, b :: a in rs && b in rs && Matches(a, q) && Matches(b, q) && ShapeOf(a) == ShapeOf(b) ==> a == b
    requires IsBest(rs, q, i) && IsBest(rs', q, j)
    ensures rs[i] == rs'[j]
  {
    NormalIsRooted(rs);
    assert rs[i] in rs' && rs'[j] in rs;
    TiesShareShape(rs[i], rs'[j], q);
  }

  /** Every order of the table gives `r`. */
  ghost predicate SameInAnyOrder(rs: seq<Entry>, q: Request, r: Entry) {
    forall rs', j: nat :: multiset(rs') == multiset(rs) && IsBest(rs', q, j) ==> rs'[j] == r
  }

  /** No other match has the shape of `r`. */
  ghost predicate OnlyOfItsShape(rs: seq<Entry>, q: Request, r: Entry) {
    forall e :: e in rs && Matches(e, q) && ShapeOf(e) == ShapeOf(r) ==> e == r
  }

  /** The order of a table does not matter exactly when no other match has the shape of
      the best one. */
  lemma OrderMattersExactly(rs: seq<Entry>, q: Request, i: nat)
    requires AllNormal(rs) && IsBest(rs, q, i)
    ensures SameInAnyOrder(rs, q, rs[i]) <==> OnlyOfItsShape(rs, q, rs[i])
  {
    NormalIsRooted(rs);
    if OnlyOfItsShape(rs, q, rs[i]) {
      forall rs', j: nat | multiset(rs') == multiset(rs) && IsBest(rs', q, j) ensures rs'[j] == rs[i] {
        assert rs'[j] in multiset(rs) && rs[i] in multiset(rs');
        TiesShareShape(rs[i], rs'[j], q);
      }
    } else {
      var e :| e in rs && Matches(e, q) && ShapeOf(e) == ShapeOf(rs[i]) && e != rs[i];
      var k :| 0 <= k < |rs| && rs[k] == e;
      var rs' := ToFront(rs, q, i, k);
      assert rs'[0] == e;
    }
  }

  /** A match with the shape of the best one, moved to the front, is the best. */
  lemma ToFront(rs: seq<Entry>, q: Request, i: nat, k: nat) returns (rs': seq<Entry>)
    requires IsBest(rs, q, i) && k < |rs| && Matches(rs[k], q) && ShapeOf(rs[k]) == ShapeOf(rs[i])
    ensures multiset(rs') == multiset(rs) && IsBest(rs', q, 0) && rs'[0] == rs[k]
  {
    rs' := rs[0 := rs[k]][k := rs[0]];
    assert multiset(rs') == multiset(rs);
    forall e | e in rs' && Matches(e, q) ensures Leq(rs[k], e) {
      assert e in multiset(rs);
      assert Leq(rs[i], e);
    }
    assert rs'[..0] == [];
  }
}
