/** Gateway routes as the registry sends them and as the gateway keeps them. */
module RouteEntry {
  import opened Wrappers
  import opened Sorting
  import opened Text

  /** A route in a registry response, once the alternative field names are resolved
      and a missing field reads as empty. */
  datatype Payload = Payload(apiId: string, upstreamUrl: string, stripPrefix: string, active: bool,
                             version: string, host: string, pathPrefix: string, methods: seq<string>)

  datatype Entry = Entry(apiId: string, upstreamUrl: string, stripPrefix: string, active: bool,
                         version: string, host: Option<string>, pathPrefix: string, methods: seq<string>)

  // ---- Normalization -------------------------------------------------------

  function NormalizeHost(host: string): Option<string> {
    var trimmed := Mapped(Trim(host), Lower);
    if trimmed == "" then None
    else if trimmed[0] == '[' then Some(trimmed)
    else Some(Before(trimmed, ':'))
  }

  function NormalizePath(path: string): string {
    var pathname := if Before(path, '?') == "" then "/" else Before(path, '?');
    if pathname[0] == '/' then pathname else "/" + pathname
  }

  function DropSlashes(s: string): string {
    if s != "" && s[|s| - 1] == '/' then DropSlashes(s[..|s| - 1]) else s
  }

  function NormalizePathPrefix(prefix: string): string {
    var normalized := NormalizePath(prefix);
    if normalized == "/" then normalized else DropSlashes(normalized)
  }

  /** The order of JavaScript's default sort. */
  predicate LexLeq(a: string, b: string) {
    a == "" || (b != "" && (a[0] < b[0] || (a[0] == b[0] && LexLeq(a[1..], b[1..]))))
  }

  /** Upper case, without empty ones and repetitions. */
  function Distinct(methods: seq<string>): seq<string> {
    if methods == [] then []
    else
      var before, m := Distinct(methods[..|methods| - 1]), Mapped(methods[|methods| - 1], Upper);
      if m == "" || m in before then before else before + [m]
  }

  function NormalizeMethods(methods: seq<string>): seq<string> {
    Sorted(Distinct(methods), LexLeq)
  }

  /** normalizeRoute: routes that lack an API, a prefix or an upstream are dropped. */
  function Normalize(p: Payload): Option<Entry> {
    if p.apiId == "" || p.pathPrefix == "" || p.upstreamUrl == "" then None
    else Some(Entry(p.apiId, p.upstreamUrl, p.stripPrefix, p.active, p.version,
                    NormalizeHost(p.host), NormalizePathPrefix(p.pathPrefix), NormalizeMethods(p.methods)))
  }

  /** The entry came from a payload. */
  ghost predicate Normal(e: Entry) {
    exists p :: Normalize(p) == Some(e)
  }

  ghost predicate AllNormal(rs: seq<Entry>) {
    forall e :: e in rs ==> Normal(e)
  }

  function Joined(parts: seq<string>, sep: string): string {
    if parts == [] then "" else if |parts| == 1 then parts[0] else parts[0] + sep + Joined(parts[1..], sep)
  }

  /** routeIdentityKey */
  function Key(e: Entry): string {
    Joined([e.apiId,
            if e.host.Some? then e.host.value else "*",
            e.pathPrefix,
            if e.methods == [] then "*" else Joined(e.methods, ","),
            e.version], "\0")
  }

  // ---- Normalizing again ---------------------------------------------------
  // loadFromCache normalizes entries that have been normalized before they were cached.

  lemma {:induction false} DropSlashesKeeps(s: string)
    ensures var r := DropSlashes(s);
            && |r| <= |s| && r == s[..|r|] && DropSlashes(r) == r
            && (r != "" ==> r[|r| - 1] != '/')
  {
    if s != "" && s[|s| - 1] == '/' {
      DropSlashesKeeps(s[..|s| - 1]);
    }
  }

  lemma {:induction false} DropSlashesAll(s: string)
    ensures DropSlashes(s) == "" <==> forall i :: 0 <= i < |s| ==> s[i] == '/'
  {
    if s != "" && s[|s| - 1] == '/' {
      DropSlashesAll(s[..|s| - 1]);
      assert forall i :: 0 <= i < |s| - 1 ==> s[..|s| - 1][i] == s[i];
    }
  }

  /** A second normalization keeps a prefix exactly when it is not two or more slashes
      and nothing else. */
  lemma PrefixStable(prefix: string)
    ensures var path, p := NormalizePath(prefix), NormalizePathPrefix(prefix);
            && (NormalizePathPrefix(p) == p <==> path == "/" || exists i :: 0 <= i < |path| && path[i] != '/')
            && (p != "" ==> p[0] == '/')
  {
    var path, p := NormalizePath(prefix), NormalizePathPrefix(prefix);
    BeforeKeeps(prefix, '?');
    assert path[0] == '/' && '?' !in path;
    DropSlashesKeeps(path);
    DropSlashesAll(path);
    BeforeKeeps(p, '?');
    if p != "" {
      assert '?' !in p && p[0] == path[0];
      assert NormalizePath(p) == p;
    }
  }

  /** A second normalization keeps a host exactly when the part before the port is
      neither empty nor ends in a blank. */
  lemma HostStable(host: string)
    requires NormalizeHost(host).Some?
    ensures var x := NormalizeHost(host).value;
            NormalizeHost(x) == Some(x) <==> x != "" && !IsBlank(x[|x| - 1])
  {
    var t := Trim(host);
    var low := Mapped(t, Lower);
    TrimLeftKeeps(host);
    TrimRightKeeps(TrimLeft(host));
    LowerTwice(t);
    assert low != "" && !IsBlank(low[0]) && !IsBlank(low[|low| - 1]);
    BeforeKeeps(low, ':');
    var x := NormalizeHost(host).value;
    assert x == low[..|x|] && Mapped(x, Lower) == x;
    if x != "" {
      assert TrimLeft(x) == x;
      TrimRightKeeps(x);
      if !IsBlank(x[|x| - 1]) {
        BeforeKeeps(x, ':');
      } else {
        var y := TrimRight(x);
        assert |y| < |x|;
        BeforeKeeps(Mapped(y, Lower), ':');
      }
    }
  }

  // ---- What normalization makes of a text ----------------------------------

  /** Blanks around a host do not matter, nor its case, nor a port. */
  lemma HostFromText(left: string, name: string, port: string, right: string)
    requires Blank(left) && Blank(right) && Solid(name) && ':' !in name && name[0] != '['
    requires port == "" || !IsBlank(port[|port| - 1])
    ensures NormalizeHost(left + name + right) == Some(Mapped(name, Lower))
    ensures NormalizeHost(left + (name + ":" + port) + right) == Some(Mapped(name, Lower))
  {
    TrimsBlanks(left, name, right);
    var low, full := Mapped(name, Lower), name + ":" + port;
    LowerKeepsMarks(name);
    BeforeKeeps(low, ':');
    assert full[|full| - 1] == if port == "" then ':' else port[|port| - 1];
    TrimsBlanks(left, full, right);
    assert Mapped(full, Lower) == low + [':'] + Mapped(port, Lower);
    SplitAtFirst(low, ':', Mapped(port, Lower));
  }

  lemma LowerKeepsMarks(s: string)
    ensures ':' !in s ==> ':' !in Mapped(s, Lower)
    ensures s != "" ==> (Mapped(s, Lower)[0] == '[' <==> s[0] == '[')
  {
    forall i | 0 <= i < |s| ensures (Lower(s[i]) == ':' <==> s[i] == ':') && (Lower(s[i]) == '[' <==> s[i] == '[') {
      Letters(s[i]);
    }
  }

  /** An address in brackets keeps what follows them. */
  lemma BracketsStay(left: string, rest: string, right: string)
    requires Blank(left) && Blank(right) && (rest == "" || !IsBlank(rest[|rest| - 1]))
    ensures NormalizeHost(left + ("[" + rest) + right) == Some(Mapped("[" + rest, Lower))
  {
    var full := "[" + rest;
    assert full[|full| - 1] == if rest == "" then '[' else rest[|rest| - 1];
    TrimsBlanks(left, full, right);
    LowerKeepsMarks(full);
  }

  lemma {:induction false} DropsSlashes(s: string, slashes: string)
    requires s != "" && s[|s| - 1] != '/' && forall i :: 0 <= i < |slashes| ==> slashes[i] == '/'
    ensures DropSlashes(s + slashes) == s
    decreases |slashes|
  {
    if slashes == "" {
      assert s + slashes == s;
    } else {
      var whole := s + slashes;
      assert whole[|whole| - 1] == '/';
      assert whole[..|whole| - 1] == s + slashes[..|slashes| - 1];
      DropsSlashes(s, slashes[..|slashes| - 1]);
    }
  }

  /** A prefix loses its query and the slashes at its end, and gains one in front if it has
      none. */
  lemma PrefixFromText(path: string, slashes: string, query: string)
    requires path != "" && path[|path| - 1] != '/' && '?' !in path
    requires forall i :: 0 <= i < |slashes| ==> slashes[i] == '/'
    ensures var rooted := if path[0] == '/' then path else "/" + path;
            && NormalizePathPrefix(path + slashes) == rooted
            && NormalizePathPrefix(path + slashes + "?" + query) == rooted
  {
    var rooted := if path[0] == '/' then path else "/" + path;
    var whole := path + slashes;
    assert '?' !in whole && whole[0] == path[0];
    BeforeKeeps(whole, '?');
    SplitAtFirst(whole, '?', query);
    assert whole + ['?'] + query == whole + "?" + query;
    assert NormalizePath(whole) == rooted + slashes by {
      assert "/" + (path + slashes) == "/" + path + slashes;
    }
    DropsSlashes(rooted, slashes);
    assert rooted + slashes != "/" by {
      assert (rooted + slashes)[|rooted| - 1] != '/';
    }
  }

  /** The root and the empty path. */
  lemma RootStays()
    ensures NormalizePath("") == "/" && NormalizePathPrefix("/") == "/"
  {
    assert Before("/", '?') == "/" by {
      assert Before("", '?') == "";
    }
  }

  /** Nothing but host, prefix and methods is normalized, and only a route without API,
      prefix or upstream is dropped. */
  lemma NormalizeKeeps(p: Payload)
    ensures Normalize(p).Some? <==> p.apiId != "" && p.pathPrefix != "" && p.upstreamUrl != ""
    ensures Normalize(p).Some? ==>
              var e := Normalize(p).value;
              && e.apiId == p.apiId && e.upstreamUrl == p.upstreamUrl && e.stripPrefix == p.stripPrefix
              && e.active == p.active && e.version == p.version
              && e.host == NormalizeHost(p.host) && e.pathPrefix == NormalizePathPrefix(p.pathPrefix)
              && e.methods == NormalizeMethods(p.methods)
  {}
}
