/** The route table written to Redis and read back after a restart. */
module RouteCache {
  import opened Wrappers
  import opened RouteEntry
  import opened Text
  import opened RouteSync
  import opened RouteKeys

  /** An entry as it is cached: it reads back as a payload. */
  function Cached(e: Entry): Payload {
    Payload(e.apiId, e.upstreamUrl, e.stripPrefix, e.active, e.version,
            if e.host.Some? then e.host.value else "", e.pathPrefix, e.methods)
  }

  function CachedAll(rs: seq<Entry>): seq<Payload> {
    if rs == [] then [] else [Cached(rs[0])] + CachedAll(rs[1..])
  }

  /** The prefix was not made of slashes only, and the part of the host before the port
      is neither empty nor ends in a blank. */
  predicate Reloadable(e: Entry) {
    e.pathPrefix != "" && (e.host.Some? ==> e.host.value != "" && !IsBlank(e.host.value[|e.host.value| - 1]))
  }

  /** An entry survives the cache exactly when it is reloadable. */
  lemma ReloadExact(p: Payload)
    requires Normalize(p).Some?
    ensures Normalize(Cached(Normalize(p).value)) == Some(Normalize(p).value) <==> Reloadable(Normalize(p).value)
  {
    var e := Normalize(p).value;
    MethodsStable(p.methods);
    ReloadPrefix(p.pathPrefix);
    if e.host.Some? {
      HostStable(p.host);
    } else {
      assert Trim("") == "";
    }
    ReloadHost(e.host);
    hide NormalizeHost, NormalizeMethods, NormalizePathPrefix;
  }

  lemma ReloadPrefix(prefix: string)
    ensures var p := NormalizePathPrefix(prefix);
            p != "" ==> NormalizePathPrefix(p) == p
  {
    PrefixStable(prefix);
    DropSlashesAll(NormalizePath(prefix));
  }

  lemma ReloadHost(host: Option<string>)
    ensures NormalizeHost("") == None
    ensures host.Some? && host.value == "" ==> NormalizeHost(host.value) == None
  {
    assert Trim("") == "" && Mapped("", Lower) == "";
  }

  /** A cached table reads back as it was exactly when all its entries do. */
  lemma {:induction false} TableReloadExact(rs: seq<Entry>)
    requires AllNormal(rs)
    ensures NormalizeAll(CachedAll(rs)) == rs <==> forall e :: e in rs ==> Reloadable(e)
  {
    if rs != [] {
      var e, rest := rs[0], rs[1..];
      assert AllNormal(rest) && Normal(e);
      var p :| Normalize(p) == Some(e);
      ReloadExact(p);
      TableReloadExact(rest);
      CachedCons(e, rest);
      NormalizeAllShorter(CachedAll(rest));
      CachedLength(rest);
      assert rs == [e] + rest;
      hide *;
      var first, back := Normalize(Cached(e)), NormalizeAll(CachedAll(rest));
      assert first.Some? ==> ([first.value] + back)[0] == first.value && ([first.value] + back)[1..] == back;
      assert rs[0] == e && rs[1..] == rest;
    }
  }

  lemma CachedCons(e: Entry, rest: seq<Entry>)
    ensures var first, back := Normalize(Cached(e)), NormalizeAll(CachedAll(rest));
            NormalizeAll(CachedAll([e] + rest)) == if first.Some? then [first.value] + back else back
  {
    assert ([e] + rest)[1..] == rest;
    assert CachedAll([e] + rest)[1..] == CachedAll(rest);
  }

  /** It reads back as no table exactly when every prefix was made of slashes only. */
  lemma {:induction false} ReadsBackEmpty(rs: seq<Entry>)
    requires AllNormal(rs)
    ensures NormalizeAll(CachedAll(rs)) == [] <==> forall e :: e in rs ==> e.pathPrefix == ""
  {
    if rs != [] {
      var e, rest := rs[0], rs[1..];
      assert AllNormal(rest) && Normal(e);
      var p :| Normalize(p) == Some(e);
      ReadsBackEmpty(rest);
      CachedCons(e, rest);
      assert rs == [e] + rest;
      hide Key, NormalizeHost, NormalizeMethods, NormalizePathPrefix, NormalizeAll, CachedAll;
    }
  }

  lemma {:induction false} NormalizeAllShorter(ps: seq<Payload>)
    ensures |NormalizeAll(ps)| <= |ps|
  {
    if ps != [] {
      NormalizeAllShorter(ps[1..]);
    }
  }

  lemma {:induction false} CachedLength(rs: seq<Entry>)
    ensures |CachedAll(rs)| == |rs|
  {
    if rs != [] {
      CachedLength(rs[1..]);
    }
  }
}
