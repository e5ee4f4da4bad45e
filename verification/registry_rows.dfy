/** When the registry's unique index gives the gateway one row per key. */
module RegistryRows {
  import opened Wrappers
  import opened RouteEntry
  import opened Text
  import opened RouteSync
  import opened RouteKeys

  /** routeHostKey */
  function HostKey(host: string): string {
    var trimmed := Mapped(Trim(host), Lower);
    if trimmed == "" then "*" else trimmed
  }

  /** The columns of the unique index on gateway_routes. */
  datatype RowKey = RowKey(apiId: string, hostKey: string, pathPrefix: string, methodsKey: string, version: string)

  function RowKeyOf(p: Payload): RowKey {
    RowKey(p.apiId, HostKey(p.host), p.pathPrefix, MethodsKey(p.methods), p.version)
  }

  /** The gateway finds nothing to normalize but the case and the blanks of the host. */
  predicate Settled(p: Payload) {
    && NormalizePathPrefix(p.pathPrefix) == p.pathPrefix
    && NormalizeMethods(p.methods) == p.methods
    && KeyedHost(NormalizeHost(p.host)) == (if HostKey(p.host) == "*" then None else Some(HostKey(p.host)))
    && Normalize(p).Some? && Plain(Normalize(p).value)
  }

  /** Two settled rows are one route at the gateway exactly when they are one row at the
      registry. */
  lemma KeysAgree(p: Payload, q: Payload)
    requires Settled(p) && Settled(q)
    ensures Key(Normalize(p).value) == Key(Normalize(q).value) <==> RowKeyOf(p) == RowKeyOf(q)
  {
    var a, b := Normalize(p).value, Normalize(q).value;
    assert a.methods == p.methods && b.methods == q.methods;
    KeyIdentifies(a, b);
    hide Key, NormalizeHost, NormalizePathPrefix, NormalizeMethods, HostKey;
    MethodsKeyInjective(p.methods, q.methods);
  }

  /** So the index is enough for settled rows. */
  lemma {:induction false} UniqueIndexSuffices(ps: seq<Payload>)
    requires forall p :: p in ps ==> Settled(p)
    requires forall i, j :: 0 <= i < j < |ps| ==> RowKeyOf(ps[i]) != RowKeyOf(ps[j])
    ensures OneRowPerKey(ps)
  {
    if ps != [] {
      UniqueIndexSuffices(ps[1..]);
      NoOtherRow(ps[0], ps[1..]);
    }
  }

  lemma {:induction false} NoOtherRow(p: Payload, ps: seq<Payload>)
    requires Settled(p) && forall q :: q in ps ==> Settled(q) && RowKeyOf(q) != RowKeyOf(p)
    ensures LastRow(ps, Key(Normalize(p).value)) == None
  {
    if ps != [] {
      NoOtherRow(p, ps[1..]);
      KeysAgree(ps[0], p);
    }
  }

  /** The two rows are one route at the gateway: they agree once normalized, whatever the
      registry's index makes of them. */
  predicate SameRoute(p: Payload, q: Payload) {
    && Normalize(p).Some? && Normalize(q).Some?
    && p.apiId == q.apiId && KeyedHost(NormalizeHost(p.host)) == KeyedHost(NormalizeHost(q.host))
    && NormalizePathPrefix(p.pathPrefix) == NormalizePathPrefix(q.pathPrefix)
    && KeyedMethods(NormalizeMethods(p.methods)) == KeyedMethods(NormalizeMethods(q.methods))
    && p.version == q.version
  }

  predicate PlainRow(p: Payload) {
    Normalize(p).Some? ==> Plain(Normalize(p).value)
  }

  lemma SameRouteSameKey(p: Payload, q: Payload)
    requires PlainRow(p) && PlainRow(q)
    ensures SameRoute(p, q) <==> Normalize(p).Some? && Concerns(q, Key(Normalize(p).value))
  {
    if Normalize(p).Some? && Normalize(q).Some? {
      KeyIdentifies(Normalize(q).value, Normalize(p).value);
    }
  }

  lemma {:induction false} LastRowExists(ps: seq<Payload>, key: string)
    ensures LastRow(ps, key) == None <==> forall q :: q in ps ==> !Concerns(q, key)
  {
    hide Key, Normalize;
    if ps != [] {
      LastRowExists(ps[1..], key);
    }
  }

  ghost predicate NoSameRoutes(ps: seq<Payload>) {
    forall i, j :: 0 <= i < j < |ps| ==> !SameRoute(ps[i], ps[j])
  }

  /** The gateway has one row per key exactly when no two rows are the same route. */
  lemma {:induction false} OneRowPerKeyExactly(ps: seq<Payload>)
    requires forall p :: p in ps ==> PlainRow(p)
    ensures OneRowPerKey(ps) <==> NoSameRoutes(ps)
  {
    if ps != [] {
      var p, rest := ps[0], ps[1..];
      OneRowPerKeyExactly(rest);
      forall q | q in rest
        ensures SameRoute(p, q) <==> Normalize(p).Some? && Concerns(q, Key(Normalize(p).value))
      {
        SameRouteSameKey(p, q);
      }
      if Normalize(p).Some? {
        LastRowExists(rest, Key(Normalize(p).value));
      }
      hide SameRoute, Normalize, Key, Concerns, LastRow, PlainRow;
      assert NoSameRoutes(ps) <==> NoSameRoutes(rest) && forall q :: q in rest ==> !SameRoute(p, q) by {
        assert forall j :: 0 < j < |ps| ==> ps[j] == rest[j - 1] && ps[j] in rest;
      }
    }
  }

  lemma {:induction false} BeforeAppend(s: string, t: string, c: char)
    requires c !in s
    ensures Before(s + t, c) == s + Before(t, c)
  {
    if s == "" {
      assert s + t == t;
    } else {
      var rest := s[1..];
      assert s == [s[0]] + rest && (s + t)[1..] == rest + t;
      BeforeAppend(rest, t, c);
      assert Before(s + t, c) == [s[0]] + Before(rest + t, c);
      hide Before;
    }
  }

  /** It is not enough in general: a prefix written with and without a final slash makes
      two rows at the registry and one route at the gateway. */
  lemma SlashCollides(p: Payload)
    requires Normalize(p).Some? && '?' !in p.pathPrefix && NormalizePath(p.pathPrefix) != "/"
    ensures var q := p.(pathPrefix := p.pathPrefix + "/");
            && RowKeyOf(q) != RowKeyOf(p)
            && Normalize(q) == Normalize(p)
            && !OneRowPerKey([p, q])
  {
    var prefix := p.pathPrefix;
    var q := p.(pathPrefix := prefix + "/");
    BeforeAppend(prefix, "/", '?');
    BeforeKeeps(prefix, '?');
    assert Before("/", '?') == "/" by {
      assert Before("", '?') == "";
    }
    var path := NormalizePath(prefix);
    assert NormalizePath(q.pathPrefix) == path + "/";
    assert (path + "/")[..|path|] == path;
    assert |q.pathPrefix| != |prefix|;
    hide Key, NormalizeMethods, NormalizeHost, NormalizePath;
    assert Normalize(q) == Normalize(p);
    hide Normalize;
    OneKeyTwice(p, q);
  }

  lemma OneKeyTwice(p: Payload, q: Payload)
    requires Normalize(p).Some? && Normalize(q) == Normalize(p)
    ensures !OneRowPerKey([p, q])
  {
    hide Key, Normalize;
    assert LastRow([], Key(Normalize(p).value)) == None;
    assert [p, q][1..] == [q];
  }
}
