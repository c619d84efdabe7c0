/**
 * The URL an endpoint slice publishes (ephemeral/pkg/endpointslice) and the one the server takes apart
 * (ephemeral/pkg/virtualworkspace/builder): each must read what the other wrote.
 */
module UrlDigest {
  import opened Options
  import opened Text

  datatype Target = Wildcard | Named(name: string)

  datatype Digest = Digest(target: Target, domainKey: string, prefixToStrip: string)

  datatype ExportKey = ExportKey(cluster: string, name: string)

  /** apidomainkey.New */
  function NewKey(cluster: string, name: string): string {
    cluster + ['/'] + name
  }

  /** apidomainkey.Parse */
  function ParseKey(key: string): Option<ExportKey> {
    var parts := Split(key, '/');
    if |parts| != 2 || parts[0] == "" || parts[1] == "" then None else Some(ExportKey(parts[0], parts[1]))
  }

  predicate Segment(s: string) {
    s != "" && '/' !in s
  }

  /** A key reads back exactly when both parts are non-empty and slash-free. */
  lemma KeyRoundTrip(cluster: string, name: string)
    ensures ParseKey(NewKey(cluster, name)) == Some(ExportKey(cluster, name)) <==> Segment(cluster) && Segment(name)
  {
    if Segment(cluster) && Segment(name) {
      SplitCons(cluster, '/', name);
      SplitWhole(name, '/');
    }
    JoinSplit(NewKey(cluster, name), '/');
  }

  /** Every accepted key is the one built from its parts. */
  lemma KeyDecodes(key: string)
    requires ParseKey(key).Some?
    ensures key == NewKey(ParseKey(key).value.cluster, ParseKey(key).value.name)
    ensures Segment(ParseKey(key).value.cluster) && Segment(ParseKey(key).value.name)
  {
    JoinSplit(key, '/');
    var parts := Split(key, '/');
    assert Join(parts[1..], '/') == parts[1];
  }

  /** The first two segments, and the rest with its slash. */
  function SplitExport(s: string): Option<(string, string, string)> {
    var (cluster, afterCluster) := Cut(s, '/');
    if afterCluster == None then None
    else
      var (name, afterName) := Cut(afterCluster.value, '/');
      if afterName == None then None else Some((cluster, name, "/" + afterName.value))
  }

  /** The target after "/clusters/", and what follows it: at least a slash. */
  function SplitTarget(realPath: string): Option<(string, string)> {
    if !HasPrefix(realPath, "/clusters/") then None
    else
      var (target, rest) := Cut(realPath[|"/clusters/"|..], '/');
      Some((target, "/" + (if rest.Some? then rest.value else "")))
  }

  /** digestURL; `plain` says when a path is a single logical cluster name. */
  function DigestUrl(url: string, prefix: string, plain: string -> bool): Option<Digest> {
    if !HasPrefix(url, prefix) then None
    else match SplitExport(url[|prefix|..])
      case None => None
      case Some((cluster, name, realPath)) =>
        if cluster == "" || name == "" then None
        else match SplitTarget(realPath)
          case None => None
          case Some((target, rest)) =>
            if target != "*" && !plain(target) then None
            else Some(Digest(TargetOf(target), NewKey(cluster, name), TrimSuffix(url, rest)))
  }

  /** The root prefix BuildVirtualWorkspace hands to digestURL. */
  function ServerPrefix(rootPathPrefix: string, name: string): string {
    (if HasSuffix(rootPathPrefix, "/") then rootPathPrefix else rootPathPrefix + "/") + name + "/"
  }

  /** strings.Trim(s, "/") */
  function TrimSlashes(s: string): string {
    TrimRight(TrimLeft(s, '/'), '/')
  }

  /** The path of URLFor up to the workspace name. */
  function PublishedBase(rootPathPrefix: string, name: string): string {
    "/" + TrimSlashes(rootPathPrefix) + "/" + name
  }

  function UrlFor(externalUrl: string, rootPathPrefix: string, name: string, cluster: string,
                  exportName: string): string {
    TrimSuffix(externalUrl, "/") + PublishedBase(rootPathPrefix, name) + "/" + cluster + "/" + exportName
  }

  /** What a caller sends for a target in an export: the published path, the target, and the rest. */
  function RequestPath(base: string, cluster: string, exportName: string, target: string, rest: string): string {
    base + ("/" + ExportPath(cluster, exportName, "/clusters/" + (target + rest)))
  }

  function ExportPath(cluster: string, exportName: string, realPath: string): string {
    cluster + ("/" + (exportName + realPath))
  }

  lemma CutSlash(a: string, b: string)
    requires '/' !in a
    ensures Cut(a + ("/" + b), '/') == (a, Some(b))
  {
    CutAppend(a, '/', b);
    assert a + ("/" + b) == a + ['/'] + b;
  }

  lemma CutWhole(a: string)
    requires '/' !in a
    ensures Cut(a, '/') == (a, None)
  {
    var i := IndexOf(a, '/');
    assert forall k | 0 <= k < |a| :: a[k] in a;
    assert a[..|a|] == a;
  }

  lemma CutDecodes(s: string)
    ensures '/' !in Cut(s, '/').0
    ensures s == Cut(s, '/').0 + (if Cut(s, '/').1.Some? then "/" + Cut(s, '/').1.value else "")
  {
    var i := IndexOf(s, '/');
    assert forall k | 0 <= k < i :: s[..i][k] == s[k];
    if i < |s| {
      assert s == s[..i] + [s[i]] + s[i + 1..];
    }
  }

  lemma ExportReads(cluster: string, exportName: string, rest: string)
    requires Segment(cluster) && Segment(exportName)
    ensures SplitExport(ExportPath(cluster, exportName, "/" + rest)) == Some((cluster, exportName, "/" + rest))
  {
    CutSlash(cluster, exportName + ("/" + rest));
    CutSlash(exportName, rest);
  }

  lemma ExportDecodes(s: string)
    requires SplitExport(s).Some?
    ensures var (cluster, name, realPath) := SplitExport(s).value;
      s == ExportPath(cluster, name, realPath) && '/' !in cluster && '/' !in name
  {
    CutDecodes(s);
    CutDecodes(Cut(s, '/').1.value);
  }

  lemma TargetReads(target: string, rest: string)
    requires Segment(target) && (rest == "" || rest[0] == '/')
    ensures SplitTarget("/clusters/" + (target + rest)) == Some((target, if rest == "" then "/" else rest))
  {
    assert ("/clusters/" + (target + rest))[|"/clusters/"|..] == target + rest;
    if rest == "" {
      assert target + rest == target && "/" + "" == "/";
      CutWhole(target);
    } else {
      assert rest == "/" + rest[1..];
      CutSlash(target, rest[1..]);
    }
  }

  lemma TargetDecodes(realPath: string) returns (rest: string)
    requires SplitTarget(realPath).Some?
    ensures realPath == "/clusters/" + (SplitTarget(realPath).value.0 + rest)
    ensures '/' !in SplitTarget(realPath).value.0
    ensures rest == "" || rest[0] == '/'
    ensures SplitTarget(realPath).value.1 == if rest == "" then "/" else rest
  {
    var tail := realPath[|"/clusters/"|..];
    assert realPath == "/clusters/" + tail;
    CutDecodes(tail);
    rest := if Cut(tail, '/').1.Some? then "/" + Cut(tail, '/').1.value else "";
  }

  /** Stripping the rest leaves the path up to the target. */
  lemma TargetStrips(url: string, whole: string, target: string, rest: string)
    requires url == whole + rest && Segment(target) && HasSuffix(whole, target) && (rest == "" || rest[0] == '/')
    ensures TrimSuffix(url, if rest == "" then "/" else rest) == whole
  {
    if rest == "" {
      assert url == whole;
      var last := target[|target| - 1];
      assert last in target && whole[|whole| - |target|..][|target| - 1] == last;
      assert url[|url| - 1] == last;
      assert url[|url| - 1..] == [last];
    }
  }

  lemma SuffixGrows(a: string, b: string, t: string)
    requires HasSuffix(b, t)
    ensures HasSuffix(a + b, t)
  {
    assert (a + b)[|a| + |b| - |t|..] == b[|b| - |t|..];
  }

  lemma ExportPathSplits(cluster: string, exportName: string, realPath: string, rest: string)
    ensures ExportPath(cluster, exportName, realPath + rest) == ExportPath(cluster, exportName, realPath) + rest
  {
    Assoc(exportName, realPath, rest);
    Assoc("/", exportName + realPath, rest);
    Assoc(cluster, "/" + (exportName + realPath), rest);
  }

  lemma RequestSplits(base: string, cluster: string, exportName: string, target: string, rest: string)
    ensures RequestPath(base, cluster, exportName, target, rest)
         == RequestPath(base, cluster, exportName, target, "") + rest
  {
    var a := "/clusters/" + target;
    assert target + "" == target;
    Assoc("/clusters/", target, rest);
    ExportPathSplits(cluster, exportName, a, rest);
    var path := ExportPath(cluster, exportName, a);
    Assoc("/", path, rest);
    Assoc(base, "/" + path, rest);
  }

  lemma RequestEndsWithTarget(base: string, cluster: string, exportName: string, target: string)
    ensures HasSuffix(RequestPath(base, cluster, exportName, target, ""), target)
  {
    var a := "/clusters/" + target;
    assert target + "" == target;
    SuffixGrows("/clusters/", target, target);
    SuffixGrows(exportName, a, target);
    SuffixGrows("/", exportName + a, target);
    SuffixGrows(cluster, "/" + (exportName + a), target);
    SuffixGrows("/", ExportPath(cluster, exportName, a), target);
    SuffixGrows(base, "/" + ExportPath(cluster, exportName, a), target);
  }

  ghost predicate TargetOk(target: string, plain: string -> bool) {
    Segment(target) && (target == "*" || plain(target))
  }

  function TargetOf(target: string): Target {
    if target == "*" then Wildcard else Named(target)
  }

  /** What digestURL makes of a URL once its stages have gone through. */
  lemma DigestStages(url: string, prefix: string, plain: string -> bool,
                     cluster: string, exportName: string, realPath: string, target: string, rest: string)
    requires HasPrefix(url, prefix) && SplitExport(url[|prefix|..]) == Some((cluster, exportName, realPath))
    requires cluster != "" && exportName != "" && SplitTarget(realPath) == Some((target, rest))
    requires target == "*" || plain(target)
    ensures DigestUrl(url, prefix, plain) ==
      Some(Digest(TargetOf(target), NewKey(cluster, exportName), TrimSuffix(url, rest)))
  {}

  lemma RequestUnderBase(base: string, cluster: string, exportName: string, target: string, rest: string)
    ensures var url, prefix := RequestPath(base, cluster, exportName, target, rest), base + "/";
      && HasPrefix(url, prefix)
      && url[|prefix|..] == ExportPath(cluster, exportName, "/clusters/" + (target + rest))
  {
    var prefix, path := base + "/", ExportPath(cluster, exportName, "/clusters/" + (target + rest));
    Assoc(base, "/", path);
    assert (prefix + path)[..|prefix|] == prefix && (prefix + path)[|prefix|..] == path;
  }

  lemma ExportReadsBack(cluster: string, exportName: string, more: string)
    requires Segment(cluster) && Segment(exportName)
    ensures SplitExport(ExportPath(cluster, exportName, "/clusters/" + more))
         == Some((cluster, exportName, "/clusters/" + more))
  {
    var realPath := "/clusters/" + more;
    assert realPath == "/" + realPath[1..];
    ExportReads(cluster, exportName, realPath[1..]);
  }

  /** A request under a base digests to the export and the target it names, and strips to the rest. */
  lemma DigestOfRequest(base: string, cluster: string, exportName: string, target: string, rest: string,
                        plain: string -> bool)
    requires Segment(cluster) && Segment(exportName) && TargetOk(target, plain)
    requires rest == "" || rest[0] == '/'
    ensures DigestUrl(RequestPath(base, cluster, exportName, target, rest), base + "/", plain) ==
      Some(Digest(if target == "*" then Wildcard else Named(target), NewKey(cluster, exportName),
                  RequestPath(base, cluster, exportName, target, "")))
  {
    var url := RequestPath(base, cluster, exportName, target, rest);
    var whole := RequestPath(base, cluster, exportName, target, "");
    RequestUnderBase(base, cluster, exportName, target, rest);
    ExportReadsBack(cluster, exportName, target + rest);
    TargetReads(target, rest);
    RequestSplits(base, cluster, exportName, target, rest);
    RequestEndsWithTarget(base, cluster, exportName, target);
    TargetStrips(url, whole, target, rest);
    DigestStages(url, base + "/", plain, cluster, exportName, "/clusters/" + (target + rest), target,
                 if rest == "" then "/" else rest);
  }

  lemma AcceptedParts(url: string, prefix: string, plain: string -> bool)
    requires DigestUrl(url, prefix, plain).Some?
    ensures HasPrefix(url, prefix) && SplitExport(url[|prefix|..]).Some?
    ensures var (cluster, exportName, realPath) := SplitExport(url[|prefix|..]).value;
      && cluster != "" && exportName != "" && SplitTarget(realPath).Some?
      && (SplitTarget(realPath).value.0 == "*" || plain(SplitTarget(realPath).value.0))
      && DigestUrl(url, prefix, plain).value.target == TargetOf(SplitTarget(realPath).value.0)
  {}

  /** `url` is a well-formed request for a target of an export. */
  ghost predicate RequestFor(url: string, base: string, plain: string -> bool,
                             cluster: string, exportName: string, target: string, rest: string) {
    && Segment(cluster) && Segment(exportName) && TargetOk(target, plain)
    && (rest == "" || rest[0] == '/') && url == RequestPath(base, cluster, exportName, target, rest)
  }

  predicate Accepted(url: string, base: string, plain: string -> bool) {
    DigestUrl(url, base + "/", plain).Some? && DigestUrl(url, base + "/", plain).value.target != Named("")
  }

  lemma DigestDecodes(url: string, base: string, plain: string -> bool)
    returns (cluster: string, exportName: string, target: string, rest: string)
    ensures Accepted(url, base, plain) ==> RequestFor(url, base, plain, cluster, exportName, target, rest)
  {
    cluster, exportName, target, rest := "", "", "", "";
    if Accepted(url, base, plain) {
      var prefix := base + "/";
      AcceptedParts(url, prefix, plain);
      var after := url[|prefix|..];
      ExportDecodes(after);
      var realPath := SplitExport(after).value.2;
      cluster, exportName := SplitExport(after).value.0, SplitExport(after).value.1;
      rest := TargetDecodes(realPath);
      target := SplitTarget(realPath).value.0;
      Reassembles(url, base, cluster, exportName, target, rest);
    }
  }

  /** The URLs accepted with a non-empty target are exactly those requests, and each digests to what it names. */
  lemma AcceptedExactly(url: string, base: string, plain: string -> bool)
    ensures Accepted(url, base, plain) <==> exists c, e, t, r :: RequestFor(url, base, plain, c, e, t, r)
    ensures forall c, e, t, r | RequestFor(url, base, plain, c, e, t, r) ::
      DigestUrl(url, base + "/", plain) ==
        Some(Digest(if t == "*" then Wildcard else Named(t), NewKey(c, e), RequestPath(base, c, e, t, "")))
  {
    forall c, e, t, r | RequestFor(url, base, plain, c, e, t, r)
      ensures DigestUrl(url, base + "/", plain)
           == Some(Digest(if t == "*" then Wildcard else Named(t), NewKey(c, e), RequestPath(base, c, e, t, "")))
    {
      DigestOfRequest(base, c, e, t, r, plain);
    }
    var c, e, t, r := DigestDecodes(url, base, plain);
  }

  lemma Reassembles(url: string, base: string, cluster: string, exportName: string, target: string, rest: string)
    requires HasPrefix(url, base + "/")
    requires url[|base + "/"|..] == ExportPath(cluster, exportName, "/clusters/" + (target + rest))
    ensures url == RequestPath(base, cluster, exportName, target, rest)
  {
    var prefix := base + "/";
    assert url == prefix + url[|prefix|..];
    Assoc(base, "/", ExportPath(cluster, exportName, "/clusters/" + (target + rest)));
  }

  lemma {:induction false} TrimLeftFacts(s: string, c: char)
    ensures TrimLeft(s, c) != "" ==> TrimLeft(s, c)[0] != c
  {
    if |s| > 0 && s[0] == c {
      TrimLeftFacts(s[1..], c);
    }
  }

  lemma {:induction false} TrimRightFacts(s: string, c: char)
    ensures var t := TrimRight(s, c);
      t <= s && (t != "" ==> t[|t| - 1] != c) && forall k | |t| <= k < |s| :: s[k] == c
    decreases |s|
  {
    if |s| > 0 && s[|s| - 1] == c {
      TrimRightFacts(s[..|s| - 1], c);
    }
  }

  /** A prefix of one or more segments, with one leading slash and at most one trailing slash; or the odd "//". */
  predicate PlainPrefix(p: string) {
    p == "//" || (|p| >= 2 && p[0] == '/' && p[1] != '/' && !HasSuffix(p, "//"))
  }

  lemma TrimOfPlain(p: string)
    requires PlainPrefix(p)
    ensures "/" + TrimSlashes(p) + "/" == (if HasSuffix(p, "/") then p else p + "/")
  {
    if p == "//" {
      assert TrimLeft(p, '/') == TrimLeft(p[1..], '/') == TrimLeft(p[1..][1..], '/') == "";
    } else {
      var core := p[1..];
      assert TrimLeft(p, '/') == TrimLeft(core, '/') == core;
      var n := |p|;
      assert p[n - 1..] == [p[n - 1]] && p[n - 2..] == [p[n - 2], p[n - 1]];
      if p[n - 1] == '/' {
        assert TrimRight(core, '/') == TrimRight(core[..n - 2], '/') == core[..n - 2];
        assert "/" + core[..n - 2] + "/" == p;
      } else {
        assert TrimRight(core, '/') == core;
        assert "/" + core + "/" == p + "/";
      }
    }
  }

  lemma SlashSuffix(p: string)
    ensures HasSuffix(p, "/") <==> |p| >= 1 && p[|p| - 1] == '/'
    ensures HasSuffix(p, "//") <==> |p| >= 2 && p[|p| - 2] == '/' && p[|p| - 1] == '/'
  {
    if |p| >= 1 {
      assert p[|p| - 1..] == [p[|p| - 1]];
    }
    if |p| >= 2 {
      assert p[|p| - 2..] == [p[|p| - 2], p[|p| - 1]];
    }
  }

  lemma TrimOnlyPlain(p: string)
    requires "/" + TrimSlashes(p) + "/" == (if HasSuffix(p, "/") then p else p + "/")
    ensures PlainPrefix(p)
  {
    var t, s := TrimSlashes(p), (if HasSuffix(p, "/") then p else p + "/");
    TrimLeftFacts(p, '/');
    TrimRightFacts(TrimLeft(p, '/'), '/');
    assert s == ['/'] + t + ['/'];
    if t == "" {
      assert s == "//";
      assert p == "/" ==> p[0..] == "/";
    } else {
      assert s[1] == t[0] && s[|s| - 2] == t[|t| - 1];
      SlashSuffix(p);
    }
  }

  /** The server answers where the slice points exactly for a plain root prefix. */
  lemma PublishedPrefixAgrees(rootPathPrefix: string, name: string)
    ensures ServerPrefix(rootPathPrefix, name) == PublishedBase(rootPathPrefix, name) + "/" <==>
      PlainPrefix(rootPathPrefix)
  {
    var s := if HasSuffix(rootPathPrefix, "/") then rootPathPrefix else rootPathPrefix + "/";
    var t := "/" + TrimSlashes(rootPathPrefix) + "/";
    assert ServerPrefix(rootPathPrefix, name) == s + (name + "/");
    assert PublishedBase(rootPathPrefix, name) + "/" == t + (name + "/");
    if s + (name + "/") == t + (name + "/") {
      assert |s| == |t|;
      assert s == (s + (name + "/"))[..|s|] && t == (t + (name + "/"))[..|t|];
      TrimOnlyPlain(rootPathPrefix);
    }
    if PlainPrefix(rootPathPrefix) {
      TrimOfPlain(rootPathPrefix);
    }
  }

  /**
   * The whole round trip: behind a plain root prefix, what the controller publishes for an export, followed by
   * a target and a remainder, is digested by the server to that export's key and that target, and stripping
   * the returned prefix leaves the remainder.
   */
  lemma PublishedUrlIsServed(externalUrl: string, rootPathPrefix: string, name: string,
                             cluster: string, exportName: string, target: string, rest: string, plain: string -> bool)
    returns (path: string, d: Digest)
    requires PlainPrefix(rootPathPrefix)
    requires Segment(cluster) && Segment(exportName) && TargetOk(target, plain) && (rest == "" || rest[0] == '/')
    ensures UrlFor(externalUrl, rootPathPrefix, name, cluster, exportName) + "/clusters/" + target + rest ==
      TrimSuffix(externalUrl, "/") + path
    ensures DigestUrl(path, ServerPrefix(rootPathPrefix, name), plain) == Some(d)
    ensures d.target == (if target == "*" then Wildcard else Named(target))
    ensures ParseKey(d.domainKey) == Some(ExportKey(cluster, exportName))
    ensures path == d.prefixToStrip + rest
  {
    var base := PublishedBase(rootPathPrefix, name);
    path := RequestPath(base, cluster, exportName, target, rest);
    UrlIsHostAndPath(TrimSuffix(externalUrl, "/"), base, cluster, exportName, target, rest);
    PublishedPrefixAgrees(rootPathPrefix, name);
    DigestOfRequest(base, cluster, exportName, target, rest, plain);
    d := DigestUrl(path, ServerPrefix(rootPathPrefix, name), plain).value;
    KeyRoundTrip(cluster, exportName);
    RequestSplits(base, cluster, exportName, target, rest);
  }

  lemma UrlIsHostAndPath(host: string, base: string, cluster: string, exportName: string, target: string, rest: string)
    ensures host + base + "/" + cluster + "/" + exportName + "/clusters/" + target + rest ==
      host + RequestPath(base, cluster, exportName, target, rest)
  {
    var a := target + rest;
    var b := "/clusters/" + a;
    var c := exportName + b;
    var d := cluster + ("/" + c);
    calc {
      host + base + "/" + cluster + "/" + exportName + "/clusters/" + target + rest;
      host + base + "/" + cluster + "/" + exportName + "/clusters/" + a;
      host + base + "/" + cluster + "/" + exportName + b;
      host + base + "/" + cluster + "/" + c;
      host + base + "/" + cluster + ("/" + c);
      host + base + "/" + d;
      host + base + ("/" + d);
      host + (base + ("/" + d));
    }
  }
}
