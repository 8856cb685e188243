/**
 * Route aggregation (lib/grape-swagger.rb): the routes of an API are grouped
 * into resource buckets keyed by their first path segment, and the namespace
 * configuration is then reconciled against those buckets.  A namespace marked
 * `swagger: {nested: false}` becomes a resource of its own (together with
 * the sub-namespaces no other standalone namespace claims); any other
 * namespace's routes are appended to the bucket of its first segment; and
 * every bucket no namespace claims is passed through unchanged.
 */
module GrapeSwagger {
  import opened Support
  import opened Records

  // ---------------------------------------------------------------------------
  // The resource key of a route

  predicate IsWordChar(c: char) {
    'a' <= c <= 'z' || 'A' <= c <= 'Z' || '0' <= c <= '9' || c == '_'
  }

  /** The character class `[\w|-]`. */
  predicate IsKeyChar(c: char) { IsWordChar(c) || c == '|' || c == '-' }

  /** The characters that may end a resource segment: `[\.\/\(]`. */
  predicate IsTerminator(c: char) { c == '.' || c == '/' || c == '(' }

  /** The length of the longest run of key characters starting at `k`. */
  function RunLength(t: string, k: nat): (n: nat)
    requires k <= |t|
    ensures k + n <= |t|
    ensures forall i :: k <= i < k + n ==> IsKeyChar(t[i])
    ensures k + n < |t| ==> !IsKeyChar(t[k + n])
    decreases |t| - k
  {
    if k < |t| && IsKeyChar(t[k]) then 1 + RunLength(t, k + 1) else 0
  }

  /** `route_path.split(/^.*?#{route_prefix}/).last`: the text after the first
      occurrence of the prefix (the whole path when there is no prefix or it
      does not occur); `None` when that text is empty, because `split` drops
      trailing empty fields. */
  function AfterPrefix(path: string, prefix: string): (r: Option<string>)
    ensures r.Some? ==> r.value != []
    ensures prefix == [] || !Contains(path, prefix) ==> r == if path == [] then None else Some(path)
  {
    var rest := if prefix != [] && Contains(path, prefix) then path[IndexOf(path, prefix) + |prefix|..] else path;
    if rest == [] then None else Some(rest)
  }

  /** `match('\/([\w|-]*?)[\.\/\(]')` from position `k`: the leftmost slash
      whose run of key characters is followed by a terminator; the capture is
      that run. */
  function SegmentMatch(t: string, k: nat): (r: Option<string>)
    requires k <= |t|
    ensures r.Some? ==> forall i :: 0 <= i < |r.value| ==> IsKeyChar(r.value[i])
    decreases |t| - k
  {
    if k == |t| then None
    else
      var n := RunLength(t, k + 1);
      if t[k] == '/' && k + 1 + n < |t| && IsTerminator(t[k + 1 + n]) then Some(t[k + 1..k + 1 + n])
      else SegmentMatch(t, k + 1)
  }

  /** `match('\/([\w|-]*)$')` from position `k`: a slash followed by key
      characters up to the end of the text. */
  function TrailingMatch(t: string, k: nat): (r: Option<string>)
    requires k <= |t|
    ensures r.Some? ==> forall i :: 0 <= i < |r.value| ==> IsKeyChar(r.value[i])
    decreases |t| - k
  {
    if k == |t| then None
    else if t[k] == '/' && k + 1 + RunLength(t, k + 1) == |t| then Some(t[k + 1..])
    else TrailingMatch(t, k + 1)
  }

  /** The bucket a route belongs to, or `None` when the route is skipped. */
  function ResourceKey(route: Route): (r: Option<string>)
    ensures r.Some? ==> r.value != []
    ensures r.Some? ==> forall i :: 0 <= i < |r.value| ==> IsKeyChar(r.value[i]) && !IsUpper(r.value[i])
  {
    match AfterPrefix(route.path, route.prefix)
    case None => None
    case Some(t) =>
      var m := if SegmentMatch(t, 0).Some? then SegmentMatch(t, 0) else TrailingMatch(t, 0);
      if m.None? || m.value == [] then None else Some(Lower(m.value))
  }

  /** A segment of key characters in lower case. */
  predicate PlainKey(seg: string) {
    seg != [] && forall i :: 0 <= i < |seg| ==> IsKeyChar(seg[i]) && !IsUpper(seg[i])
  }

  lemma {:induction false} NoSegmentMatchWithoutSlash(t: string, k: nat)
    requires k <= |t|
    requires forall i :: k <= i < |t| ==> t[i] != '/'
    ensures SegmentMatch(t, k).None? && TrailingMatch(t, k).None?
    decreases |t| - k
  {
    if k < |t| {
      NoSegmentMatchWithoutSlash(t, k + 1);
    }
  }

  lemma {:induction false} RunOfKey(t: string, k: nat, n: nat)
    requires k + n <= |t|
    requires forall i :: k <= i < k + n ==> IsKeyChar(t[i])
    requires k + n < |t| ==> !IsKeyChar(t[k + n])
    ensures RunLength(t, k) == n
    decreases n
  {
    if n > 0 {
      RunOfKey(t, k + 1, n - 1);
    }
  }

  lemma LowerPlainKey(seg: string)
    requires PlainKey(seg)
    ensures Lower(seg) == seg
  {
  }

  lemma SegmentChars(t: string, j: nat, seg: string, rest: string)
    requires j < |t| && t[j..] == "/" + seg + rest && PlainKey(seg)
    ensures t[j] == '/'
    ensures forall i :: j + 1 <= i < j + 1 + |seg| ==> IsKeyChar(t[i])
  {
    assert t[j] == t[j..][0];
    forall i | j + 1 <= i < j + 1 + |seg|
      ensures IsKeyChar(t[i])
    {
      assert t[i] == t[j..][i - j] == seg[i - j - 1];
    }
  }

  /** The matches found at a slash that opens a plain segment. */
  lemma SegmentAt(t: string, j: nat, seg: string, rest: string)
    requires j < |t| && t[j..] == "/" + seg + rest && PlainKey(seg)
    requires rest == [] || IsTerminator(rest[0])
    ensures rest != [] ==> SegmentMatch(t, j) == Some(seg)
    ensures rest == [] ==> SegmentMatch(t, j).None? && TrailingMatch(t, j) == Some(seg)
  {
    SegmentChars(t, j, seg, rest);
    if rest == [] {
      assert |t| == j + 1 + |seg|;
      RunOfKey(t, j + 1, |seg|);
      NoSegmentMatchWithoutSlash(t, j + 1);
      assert t[j + 1..] == t[j..][1..] == seg;
    } else {
      assert t[j + 1 + |seg|] == t[j..][1 + |seg|] == rest[0];
      RunOfKey(t, j + 1, |seg|);
      assert t[j + 1..j + 1 + |seg|] == t[j..][1..1 + |seg|] == seg;
    }
  }

  lemma KeyFromMatches(route: Route, t: string, seg: string)
    requires route.prefix == [] && route.path == t && PlainKey(seg)
    requires SegmentMatch(t, 0) == Some(seg) || (SegmentMatch(t, 0).None? && TrailingMatch(t, 0) == Some(seg))
    ensures ResourceKey(route) == Some(seg)
  {
    assert t != [];
    LowerPlainKey(seg);
  }

  /** A path that starts with `/segment` followed by the end, a dot, a slash
      or a parenthesis is filed under that segment. */
  lemma KeyOfLeadingSegment(route: Route, seg: string, rest: string)
    requires route.prefix == [] && PlainKey(seg)
    requires route.path == "/" + seg + rest
    requires rest == [] || IsTerminator(rest[0])
    ensures ResourceKey(route) == Some(seg)
  {
    SegmentAt(route.path, 0, seg, rest);
    KeyFromMatches(route, route.path, seg);
  }

  /** A versioned path `/:version/segment...` is filed under the segment. */
  lemma KeyOfVersionedSegment(route: Route, seg: string, rest: string)
    requires route.prefix == [] && PlainKey(seg)
    requires route.path == "/:version/" + seg + rest
    requires rest == [] || IsTerminator(rest[0])
    ensures ResourceKey(route) == Some(seg)
  {
    var t := route.path;
    assert t[9..] == "/" + seg + rest;
    SegmentAt(t, 9, seg, rest);
    VersionSkipped(t);
    KeyFromMatches(route, t, seg);
  }

  /** Neither pattern matches at the slash of a leading `/:version`. */
  lemma VersionSkipped(t: string)
    requires |t| > 10 && t[..10] == "/:version/"
    ensures SegmentMatch(t, 0) == SegmentMatch(t, 9)
    ensures TrailingMatch(t, 0) == TrailingMatch(t, 9)
  {
    assert t[1] == ':';
    assert RunLength(t, 1) == 0;
    assert forall i :: 1 <= i < 9 ==> t[i] == t[..10][i] != '/';
    SkipToSlash(t, 1, 9);
    TrailingSkipToSlash(t, 1, 9);
  }

  lemma {:induction false} SkipToSlash(t: string, k: nat, j: nat)
    requires k <= j < |t|
    requires forall i :: k <= i < j ==> t[i] != '/'
    ensures SegmentMatch(t, k) == SegmentMatch(t, j)
    decreases j - k
  {
    if k < j {
      SkipToSlash(t, k + 1, j);
    }
  }

  lemma {:induction false} TrailingSkipToSlash(t: string, k: nat, j: nat)
    requires k <= j < |t|
    requires forall i :: k <= i < j ==> t[i] != '/' || i + 1 + RunLength(t, i + 1) != |t|
    ensures TrailingMatch(t, k) == TrailingMatch(t, j)
    decreases j - k
  {
    if k < j {
      TrailingSkipToSlash(t, k + 1, j);
    }
  }

  // ---------------------------------------------------------------------------
  // Raw grouping (`@combined_routes`)

  /** The endpoint's routes, each paired with the endpoint. */
  function BindingsOf(e: Endpoint): (bs: seq<Binding>)
    ensures |bs| == |e.routes|
    ensures forall i :: 0 <= i < |bs| ==> bs[i] == Binding(e.routes[i], e)
  {
    seq(|e.routes|, i requires 0 <= i < |e.routes| => Binding(e.routes[i], e))
  }

  /** `routes_with_endpoints`, flattened: every route of every endpoint, in order. */
  function Bindings(es: seq<Endpoint>): seq<Binding>
    decreases |es|
  {
    if es == [] then [] else Bindings(es[..|es| - 1]) + BindingsOf(es[|es| - 1])
  }

  /** A route under the documentation's own mount path, when that is to be hidden. */
  predicate HiddenDocRoute(cfg: DocConfig, r: Route) {
    cfg.hideDocumentationPath && Contains(r.path, cfg.mountPath)
  }

  /** A route that is appended to bucket `k` when `keyOf` names the buckets. */
  predicate FiledUnder(keyOf: Route -> Option<string>, cfg: DocConfig, k: string, b: Binding) {
    keyOf(b.route) == Some(k) && !HiddenDocRoute(cfg, b.route)
  }

  /** One iteration of the grouping loop, for a route whose key is `key`: the
      bucket is created even when the route itself is then left out. */
  function AddRoute(d: Dict<string, seq<Binding>>, b: Binding, key: Option<string>, hidden: bool): (r: Dict<string, seq<Binding>>)
    ensures d.Valid() ==> r.Valid()
  {
    match key
    case None => d
    case Some(k) =>
      var d1 := if k in d.entries then d else d.Put(k, []);
      if hidden then d1 else d1.Put(k, d1.entries[k] + [b])
  }

  /** The buckets after the first `n` routes of `bs`, each filed under the key
      `keyOf` gives its route (in the API, `keyOf` is `ResourceKey`). */
  function RawGroups(bs: seq<Binding>, n: nat, keyOf: Route -> Option<string>, cfg: DocConfig): (r: Dict<string, seq<Binding>>)
    requires n <= |bs|
    ensures r.Valid()
    decreases n
  {
    if n == 0 then EmptyDict()
    else AddRoute(RawGroups(bs, n - 1, keyOf, cfg), bs[n - 1], keyOf(bs[n - 1].route), HiddenDocRoute(cfg, bs[n - 1].route))
  }

  /** `@combined_routes` once every endpoint's routes are grouped. */
  function CombinedRoutes(app: App, keyOf: Route -> Option<string>, cfg: DocConfig): (r: Dict<string, seq<Binding>>)
    ensures r.Valid()
  {
    RawGroups(Bindings(app.endpoints), |Bindings(app.endpoints)|, keyOf, cfg)
  }

  /** A bucket exists exactly for the keys some route yields, hidden or not. */
  lemma {:induction false} RawKeys(bs: seq<Binding>, n: nat, keyOf: Route -> Option<string>, cfg: DocConfig, k: string)
    requires n <= |bs|
    ensures k in RawGroups(bs, n, keyOf, cfg).entries <==> exists i :: 0 <= i < n && keyOf(bs[i].route) == Some(k)
    decreases n
  {
    if n > 0 {
      RawKeys(bs, n - 1, keyOf, cfg, k);
      AddRouteKeys(RawGroups(bs, n - 1, keyOf, cfg), bs[n - 1], keyOf(bs[n - 1].route), HiddenDocRoute(cfg, bs[n - 1].route), k);
    }
  }

  lemma AddRouteKeys(d: Dict<string, seq<Binding>>, b: Binding, key: Option<string>, hidden: bool, k: string)
    ensures k in AddRoute(d, b, key, hidden).entries <==> k in d.entries || key == Some(k)
  {
  }

  /** Each bucket holds exactly the routes filed under its key, in iteration order. */
  lemma {:induction false} RawBucket(bs: seq<Binding>, n: nat, keyOf: Route -> Option<string>, cfg: DocConfig, k: string)
    requires n <= |bs|
    ensures RawGroups(bs, n, keyOf, cfg).Get(k, []) == Filter(bs[..n], b => FiledUnder(keyOf, cfg, k, b))
    decreases n
  {
    if n > 0 {
      var b := bs[n - 1];
      RawBucket(bs, n - 1, keyOf, cfg, k);
      FilterPrefix(bs, n - 1, b => FiledUnder(keyOf, cfg, k, b));
      AddRouteGet(RawGroups(bs, n - 1, keyOf, cfg), b, keyOf(b.route), HiddenDocRoute(cfg, b.route), k);
      assert FiledUnder(keyOf, cfg, k, b) <==> keyOf(b.route) == Some(k) && !HiddenDocRoute(cfg, b.route);
    }
  }

  /** One grouping step appends the route to its own bucket only, unless it is hidden. */
  lemma AddRouteGet(d: Dict<string, seq<Binding>>, b: Binding, key: Option<string>, hidden: bool, k: string)
    ensures AddRoute(d, b, key, hidden).Get(k, []) == d.Get(k, []) + (if key == Some(k) && !hidden then [b] else [])
  {
    if key == Some(k) && k !in d.entries {
      assert d.Put(k, []).Get(k, []) == [];
    }
  }

  // ---------------------------------------------------------------------------
  // Applications and their namespaces (`all_apps`, `combined_namespaces`)

  /** The application followed by every application mounted below it, depth first. */
  function AllApps(app: App): (r: seq<App>)
    ensures |r| >= 1 && r[0] == app
    decreases app, |app.endpoints| + 1
  {
    [app] + MountedApps(app, |app.endpoints|)
  }

  /** The applications mounted by the first `n` endpoints, each followed by its own. */
  function MountedApps(app: App, n: nat): seq<App>
    requires n <= |app.endpoints|
    decreases app, n
  {
    if n == 0 then []
    else
      var e := app.endpoints[n - 1];
      MountedApps(app, n - 1) + (if e.app.Some? then AllApps(e.app.value) else [])
  }

  /** Every application an endpoint mounts is among the applications. */
  lemma {:induction false} MountedAppsListed(app: App, n: nat, i: nat)
    requires i < n <= |app.endpoints| && app.endpoints[i].app.Some?
    ensures app.endpoints[i].app.value in MountedApps(app, n)
    decreases n
  {
    if i < n - 1 {
      MountedAppsListed(app, n - 1, i);
    }
  }

  lemma MountedAppListed(app: App, i: nat)
    requires i < |app.endpoints| && app.endpoints[i].app.Some?
    ensures app.endpoints[i].app.value in AllApps(app)
  {
    MountedAppsListed(app, |app.endpoints|, i);
  }

  /** Some endpoint of `a` mounts `b`. */
  predicate Mounts(a: App, b: App) {
    exists i :: 0 <= i < |a.endpoints| && a.endpoints[i].app == Some(b)
  }

  /** Everything listed for an application the `k`-th endpoint mounts is listed
      among the first `n` endpoints' applications. */
  lemma {:induction false} MountedAppsIncludes(app: App, n: nat, k: nat, x: App)
    requires k < n <= |app.endpoints| && app.endpoints[k].app.Some?
    requires x in AllApps(app.endpoints[k].app.value)
    ensures x in MountedApps(app, n)
    decreases n
  {
    if k < n - 1 {
      MountedAppsIncludes(app, n - 1, k, x);
    }
  }

  /** Whatever the first `n` endpoints contribute comes from the listing of an
      application one of them mounts. */
  lemma {:induction false} MountedAppsMember(app: App, n: nat, x: App)
    requires n <= |app.endpoints| && x in MountedApps(app, n)
    ensures exists k :: 0 <= k < n && app.endpoints[k].app.Some? && x in AllApps(app.endpoints[k].app.value)
    decreases n
  {
    if n > 0 {
      if x in MountedApps(app, n - 1) {
        MountedAppsMember(app, n - 1, x);
      } else {
        assert app.endpoints[n - 1].app.Some? && x in AllApps(app.endpoints[n - 1].app.value);
      }
    }
  }

  /** `all_apps` recurses into mounted applications: an application mounted by
      an endpoint of any listed application is listed too. */
  lemma {:induction false} AllAppsClosed(app: App, a: App, b: App)
    requires a in AllApps(app) && Mounts(a, b)
    ensures b in AllApps(app)
    decreases app
  {
    var i :| 0 <= i < |a.endpoints| && a.endpoints[i].app == Some(b);
    if a == app {
      MountedAppListed(app, i);
    } else {
      MountedAppsMember(app, |app.endpoints|, a);
      var k :| 0 <= k < |app.endpoints| && app.endpoints[k].app.Some? && a in AllApps(app.endpoints[k].app.value);
      AllAppsClosed(app.endpoints[k].app.value, a, b);
      MountedAppsIncludes(app, |app.endpoints|, k, b);
    }
  }

  /** `all_apps` lists nothing else: every listed application other than the
      root is mounted by an endpoint of a listed application. */
  lemma {:induction false} AllAppsMounted(app: App, b: App)
    requires b in AllApps(app)
    ensures b == app || exists a :: a in AllApps(app) && Mounts(a, b)
    decreases app
  {
    if b != app {
      MountedAppsMember(app, |app.endpoints|, b);
      var k :| 0 <= k < |app.endpoints| && app.endpoints[k].app.Some? && b in AllApps(app.endpoints[k].app.value);
      var c := app.endpoints[k].app.value;
      if b == c {
        assert Mounts(app, b);
      } else {
        AllAppsMounted(c, b);
        var a :| a in AllApps(c) && Mounts(a, b);
        MountedAppsIncludes(app, |app.endpoints|, k, a);
      }
    }
  }

  function EndpointsOf(apps: seq<App>): seq<Endpoint>
    decreases |apps|
  {
    if apps == [] then [] else EndpointsOf(apps[..|apps| - 1]) + apps[|apps| - 1].endpoints
  }

  /** `namespace.sub(/^\//, '')`. */
  function StripLeadingSlash(s: string): string {
    if s != [] && s[0] == '/' then s[1..] else s
  }

  /** An endpoint that declares namespace `name`. */
  predicate Declares(e: Endpoint, name: string) {
    e.namespace.Some? && StripLeadingSlash(e.namespacePath) == name
  }

  /** The namespaces declared by the endpoints, keyed by their path without the
      leading slash; a later endpoint overwrites an earlier one's entry. */
  function CollectNamespaces(es: seq<Endpoint>): (d: Dict<string, Namespace>)
    ensures d.Valid()
    decreases |es|
  {
    if es == [] then EmptyDict()
    else
      var d := CollectNamespaces(es[..|es| - 1]);
      var e := es[|es| - 1];
      if e.namespace.Some? then d.Put(StripLeadingSlash(e.namespacePath), e.namespace.value) else d
  }

  function CombinedNamespaces(app: App): Dict<string, Namespace> {
    CollectNamespaces(EndpointsOf(AllApps(app)))
  }

  /** A namespace is listed exactly when some endpoint declares it, and it is
      the namespace of the last endpoint that does. */
  lemma {:induction false} CollectedNamespace(es: seq<Endpoint>, name: string)
    ensures name in CollectNamespaces(es).entries <==> exists i :: 0 <= i < |es| && Declares(es[i], name)
    ensures name in CollectNamespaces(es).entries ==>
      exists i :: 0 <= i < |es| && Declares(es[i], name) && CollectNamespaces(es).entries[name] == es[i].namespace.value
        && forall j :: i < j < |es| ==> !Declares(es[j], name)
    decreases |es|
  {
    if es != [] {
      var es' := es[..|es| - 1];
      var last := |es| - 1;
      CollectedNamespace(es', name);
      assert forall i :: 0 <= i < |es'| ==> es'[i] == es[i];
      if Declares(es[last], name) {
        assert CollectNamespaces(es).entries[name] == es[last].namespace.value;
      } else {
        assert CollectNamespaces(es).entries.Keys == CollectNamespaces(es').entries.Keys + (if es[last].namespace.Some? then {StripLeadingSlash(es[last].namespacePath)} else {});
        if name in CollectNamespaces(es').entries {
          assert CollectNamespaces(es).entries[name] == CollectNamespaces(es').entries[name];
        }
      }
    }
  }

  // ---------------------------------------------------------------------------
  // Namespace reconciliation (`combine_namespace_routes`)

  /** `name.match(%r{^/?([^/]*).*$})[1]`: the first segment of a namespace name. */
  function ParentKey(name: string): string {
    var s := StripLeadingSlash(name);
    s[..SlashFrom(s, 0)]
  }

  /** The index of the first '/' at or after `i`, or `|s|`. */
  function SlashFrom(s: string, i: nat): (n: nat)
    requires i <= |s|
    ensures i <= n <= |s| && (n < |s| ==> s[n] == '/')
    ensures forall j :: i <= j < n ==> s[j] != '/'
    decreases |s| - i
  {
    if i == |s| || s[i] == '/' then i else SlashFrom(s, i + 1)
  }

  /** The parent key is the name's first segment: it holds no '/', it starts the
      name (after one leading '/'), and the name either ends there or goes on
      with a '/'. */
  lemma ParentKeySegment(name: string)
    ensures '/' !in ParentKey(name)
    ensures StartsWith(StripLeadingSlash(name), ParentKey(name))
    ensures |ParentKey(name)| < |StripLeadingSlash(name)| ==> StripLeadingSlash(name)[|ParentKey(name)|] == '/'
  {
    var s := StripLeadingSlash(name);
    var n := SlashFrom(s, 0);
    assert forall j :: 0 <= j < n ==> s[..n][j] == s[j];
  }

  /** A route that belongs to namespace `name`: its path starts with the
      namespace's path (plain or versioned) and its namespace option is that path. */
  predicate InNamespace(name: string, b: Binding) {
    && (StartsWith(b.route.path, "/" + name) || StartsWith(b.route.path, "/:version/" + name))
    && (b.route.namespace == Some("/" + name) || b.route.namespace == Some("/:version/" + name))
  }

  function NamespaceRoutes(parent: seq<Binding>, name: string): seq<Binding> {
    Filter(parent, b => InNamespace(name, b))
  }

  /** The namespace `name` in the dictionary is marked `nested: false`. */
  predicate NsStandalone(nss: Dict<string, Namespace>, name: string) {
    name in nss.entries && IsStandalone(nss.entries[name])
  }

  /** The resource name of a standalone namespace: its custom name with spaces
      turned into dashes, or else its path with `_` turned into `-` and then
      `/` into `_`. */
  function Identifier(name: string, ns: Namespace): string {
    if ns.swagger.Some? && ns.swagger.value.name.Some? then ReplaceAll(ns.swagger.value.name.value, " ", "-")
    else ReplaceAll(ReplaceAll(name, "_", "-"), "/", "_")
  }

  /** The default identifier, character by character. */
  lemma DefaultIdentifier(name: string, ns: Namespace)
    requires ns.swagger.None? || ns.swagger.value.name.None?
    ensures |Identifier(name, ns)| == |name|
    ensures forall i :: 0 <= i < |name| ==>
      Identifier(name, ns)[i] == if name[i] == '_' then '-' else if name[i] == '/' then '_' else name[i]
    ensures '/' !in Identifier(name, ns)
  {
    ReplaceCharAt(name, '_', '-');
    ReplaceCharAt(ReplaceAll(name, "_", "-"), '/', '_');
  }

  /** A custom name keeps its length and loses its spaces. */
  lemma CustomIdentifier(name: string, ns: Namespace)
    requires ns.swagger.Some? && ns.swagger.value.name.Some?
    ensures var custom := ns.swagger.value.name.value;
      && |Identifier(name, ns)| == |custom|
      && forall i :: 0 <= i < |custom| ==> Identifier(name, ns)[i] == if custom[i] == ' ' then '-' else custom[i]
  {
    ReplaceCharAt(ns.swagger.value.name.value, ' ', '-');
  }

  /** A namespace below `name` in the raw string sense. */
  predicate IsSubName(name: string, c: string) {
    StartsWith(c, name) && c != name
  }

  /** The candidate `c` extends some standalone candidate (itself included). */
  predicate Shadowed(nss: Dict<string, Namespace>, cands: seq<string>, c: string) {
    exists k :: 0 <= k < |cands| && NsStandalone(nss, cands[k]) && StartsWith(c, cands[k])
  }

  /** `standalone_sub_namespaces(name)`: the namespaces below `name`, minus every
      standalone one among them and every namespace that extends one of those. */
  function SubNamespaceNames(name: string, nss: Dict<string, Namespace>): seq<string> {
    var cands := Filter(nss.keys, c => IsSubName(name, c));
    Filter(cands, c => !Shadowed(nss, cands, c))
  }

  /** The candidates deleted once the first `i` have been visited. */
  ghost function DeletedBy(nss: Dict<string, Namespace>, cands: seq<string>, i: nat): set<string>
    requires i <= |cands|
  {
    set c | c in cands && exists k :: 0 <= k < i && NsStandalone(nss, cands[k]) && StartsWith(c, cands[k])
  }

  /** The sub-namespaces, computed the way the source does: collect the
      candidates, then visit them in order, and let each standalone one that
      has not been deleted yet delete itself and every candidate extending it. */
  method StandaloneSubNamespaces(name: string, nss: Dict<string, Namespace>) returns (subs: seq<string>)
    ensures subs == SubNamespaceNames(name, nss)
  {
    var cands: seq<string> := [];
    var i := 0;
    while i < |nss.keys|
      invariant 0 <= i <= |nss.keys|
      invariant cands == Filter(nss.keys[..i], c => IsSubName(name, c))
    {
      FilterPrefix(nss.keys, i, c => IsSubName(name, c));
      if IsSubName(name, nss.keys[i]) {
        cands := cands + [nss.keys[i]];
      }
      i := i + 1;
    }
    assert nss.keys[..i] == nss.keys;
    var deleted := DeleteShadowed(nss, cands);
    subs := [];
    i := 0;
    while i < |cands|
      invariant 0 <= i <= |cands|
      invariant subs == Filter(cands[..i], c => c !in deleted)
    {
      FilterPrefix(cands, i, c => c !in deleted);
      if cands[i] !in deleted {
        subs := subs + [cands[i]];
      }
      i := i + 1;
    }
    assert cands[..i] == cands;
    FilterCongruent(cands, c => c !in deleted, c => !Shadowed(nss, cands, c));
  }

  /** The deletion pass over the candidates. */
  method DeleteShadowed(nss: Dict<string, Namespace>, cands: seq<string>) returns (deleted: set<string>)
    ensures forall c :: c in cands ==> (c in deleted <==> Shadowed(nss, cands, c))
  {
    deleted := {};
    var i := 0;
    while i < |cands|
      invariant 0 <= i <= |cands|
      invariant deleted == DeletedBy(nss, cands, i)
    {
      if cands[i] !in deleted && NsStandalone(nss, cands[i]) {
        var j := 0;
        while j < |cands|
          invariant 0 <= j <= |cands|
          invariant deleted == DeletedBy(nss, cands, i) + (set k | 0 <= k < j && StartsWith(cands[k], cands[i]) :: cands[k])
        {
          if StartsWith(cands[j], cands[i]) {
            deleted := deleted + {cands[j]};
          }
          j := j + 1;
        }
        DeleteStandalone(nss, cands, i);
      } else {
        DeleteNothing(nss, cands, i);
      }
      i := i + 1;
    }
  }

  lemma DeleteStandalone(nss: Dict<string, Namespace>, cands: seq<string>, i: nat)
    requires i < |cands| && NsStandalone(nss, cands[i])
    ensures DeletedBy(nss, cands, i + 1)
      == DeletedBy(nss, cands, i) + (set k | 0 <= k < |cands| && StartsWith(cands[k], cands[i]) :: cands[k])
  {
  }

  /** Visiting a deleted or nested candidate deletes nothing new: whatever
      extends a deleted candidate extends the standalone one that deleted it. */
  lemma DeleteNothing(nss: Dict<string, Namespace>, cands: seq<string>, i: nat)
    requires i < |cands|
    requires cands[i] in DeletedBy(nss, cands, i) || !NsStandalone(nss, cands[i])
    ensures DeletedBy(nss, cands, i + 1) == DeletedBy(nss, cands, i)
  {
    if NsStandalone(nss, cands[i]) {
      var k :| 0 <= k < i && NsStandalone(nss, cands[k]) && StartsWith(cands[i], cands[k]);
      forall c | c in cands && StartsWith(c, cands[i])
        ensures c in DeletedBy(nss, cands, i)
      {
        StartsWithTransitive(c, cands[i], cands[k]);
      }
    }
  }

  /** Each returned name lies below `name`, is not standalone and extends no
      standalone namespace below `name`; every other namespace below `name`
      is returned. */
  lemma SubNamespacesSelected(name: string, nss: Dict<string, Namespace>, c: string)
    requires nss.Valid()
    ensures c in SubNamespaceNames(name, nss) <==>
      && c in nss.entries && IsSubName(name, c)
      && !exists t :: t in nss.entries && IsSubName(name, t) && NsStandalone(nss, t) && StartsWith(c, t)
  {
    var cands := Filter(nss.keys, c => IsSubName(name, c));
    var p := c => !Shadowed(nss, cands, c);
    FilterMember(cands, p, c);
    FilterMember(nss.keys, c => IsSubName(name, c), c);
    if c in SubNamespaceNames(name, nss) {
      forall t | t in nss.entries && IsSubName(name, t) && NsStandalone(nss, t)
        ensures !StartsWith(c, t)
      {
        FilterMember(nss.keys, c => IsSubName(name, c), t);
        var m :| 0 <= m < |cands| && cands[m] == t;
      }
    }
    if c in nss.entries && IsSubName(name, c) {
      forall m | 0 <= m < |cands| && NsStandalone(nss, cands[m])
        ensures IsSubName(name, cands[m]) && cands[m] in nss.entries
      {
        FilterMember(nss.keys, c => IsSubName(name, c), cands[m]);
      }
    }
  }

  /** A route that one of the sub-namespaces claims through its namespace option. */
  predicate ClaimedBySub(subs: seq<string>, b: Binding) {
    b.route.namespace.Some? &&
    exists j :: 0 <= j < |subs| && (b.route.namespace.value == "/" + subs[j] || b.route.namespace.value == "/:version/" + subs[j])
  }

  function SubRoutes(parent: seq<Binding>, subs: seq<string>): seq<Binding> {
    Filter(parent, b => ClaimedBySub(subs, b))
  }

  /** Some standalone namespace's name is a string prefix of `name`. */
  predicate HasStandalonePrefix(nss: Dict<string, Namespace>, name: string) {
    exists j :: 0 <= j < |nss.keys| && NsStandalone(nss, nss.keys[j]) && StartsWith(name, nss.keys[j])
  }

  /** The resource buckets and the identifier table being built. */
  datatype Combined = Combined(routes: Dict<string, seq<Binding>>, idents: Dict<string, string>)

  ghost predicate ValidCombined(c: Combined) { c.routes.Valid() && c.idents.Valid() }

  /** The bucket of every namespace's first segment exists; the source calls
      `map` on it unconditionally. */
  predicate ParentsPresent(raw: Dict<string, seq<Binding>>, nss: Dict<string, Namespace>) {
    forall name :: name in nss.entries ==> ParentKey(name) in raw.entries
  }

  /** One iteration of `combine_namespace_routes`. */
  function Step(raw: Dict<string, seq<Binding>>, nss: Dict<string, Namespace>, st: Combined, name: string): (r: Combined)
    requires name in nss.entries && ParentKey(name) in raw.entries
    ensures ValidCombined(st) ==> ValidCombined(r)
  {
    var parent := raw.entries[ParentKey(name)];
    var own := NamespaceRoutes(parent, name);
    var ns := nss.entries[name];
    if IsStandalone(ns) then
      var id := Identifier(name, ns);
      Combined(st.routes.Put(id, own + SubRoutes(parent, SubNamespaceNames(name, nss))), st.idents.Put(id, name))
    else if HasStandalonePrefix(nss, name) then st
    else Combined(st.routes.Put(ParentKey(name), st.routes.Get(ParentKey(name), []) + own), st.idents)
  }

  /** The state after the first `n` namespaces. */
  function CombineUpTo(raw: Dict<string, seq<Binding>>, nss: Dict<string, Namespace>, n: nat): (r: Combined)
    requires nss.Valid() && ParentsPresent(raw, nss) && n <= |nss.keys|
    ensures ValidCombined(r)
    decreases n, 1
  {
    if n == 0 then Combined(EmptyDict(), EmptyDict()) else StepAt(raw, nss, n)
  }

  /** The `n`-th iteration, applied to the state the first `n - 1` leave. */
  function StepAt(raw: Dict<string, seq<Binding>>, nss: Dict<string, Namespace>, n: nat): (r: Combined)
    requires nss.Valid() && ParentsPresent(raw, nss) && 0 < n <= |nss.keys|
    ensures ValidCombined(r)
    decreases n, 0
  {
    assert nss.keys[n - 1] in nss.entries;
    Step(raw, nss, CombineUpTo(raw, nss, n - 1), nss.keys[n - 1])
  }

  /** The first `n` raw keys that name no namespace, each set to its raw bucket. */
  function PassThrough(raw: Dict<string, seq<Binding>>, nss: Dict<string, Namespace>,
                       routes: Dict<string, seq<Binding>>, n: nat): (r: Dict<string, seq<Binding>>)
    requires raw.Valid() && n <= |raw.keys|
    ensures routes.Valid() ==> r.Valid()
  {
    if n == 0 then routes
    else
      var k := raw.keys[n - 1];
      var r := PassThrough(raw, nss, routes, n - 1);
      assert k in raw.entries;
      if k in nss.entries then r else r.Put(k, raw.entries[k])
  }

  /** `combined_namespace_routes` and `combined_namespace_identifiers` as
      `add_swagger_documentation` leaves them. */
  function Aggregate(raw: Dict<string, seq<Binding>>, nss: Dict<string, Namespace>): (r: Combined)
    requires raw.Valid() && nss.Valid() && ParentsPresent(raw, nss)
    ensures ValidCombined(r)
  {
    var c := CombineUpTo(raw, nss, |nss.keys|);
    Combined(PassThrough(raw, nss, c.routes, |raw.keys|), c.idents)
  }

  // ---------------------------------------------------------------------------
  // What each step does

  /** A standalone namespace gets the bucket named by its identifier, holding
      the routes of the parent bucket that belong to it, then those that a
      selected sub-namespace claims, each in parent order, and is recorded
      under that identifier; every other bucket and identifier is left alone. */
  lemma StepStandalone(raw: Dict<string, seq<Binding>>, nss: Dict<string, Namespace>, st: Combined, name: string)
    requires name in nss.entries && ParentKey(name) in raw.entries && IsStandalone(nss.entries[name])
    ensures var parent := raw.entries[ParentKey(name)];
      var id := Identifier(name, nss.entries[name]);
      var r := Step(raw, nss, st, name);
      && id in r.routes.entries && id in r.idents.entries && r.idents.entries[id] == name
      && r.routes.entries[id] == NamespaceRoutes(parent, name) + SubRoutes(parent, SubNamespaceNames(name, nss))
      && (forall x :: x in r.routes.entries[id] <==>
            x in parent && (InNamespace(name, x) || ClaimedBySub(SubNamespaceNames(name, nss), x)))
      && (forall k :: k != id ==> r.routes.Get(k, []) == st.routes.Get(k, []))
      && (forall k :: k != id ==> r.idents.Get(k, []) == st.idents.Get(k, []))
  {
    var parent := raw.entries[ParentKey(name)];
    var subs := SubNamespaceNames(name, nss);
    var own := NamespaceRoutes(parent, name);
    var claimed := SubRoutes(parent, subs);
    forall x ensures x in own + claimed <==> x in parent && (InNamespace(name, x) || ClaimedBySub(subs, x)) {
      FilterMember(parent, b => InNamespace(name, b), x);
      FilterMember(parent, b => ClaimedBySub(subs, b), x);
    }
  }

  /** A namespace that is neither standalone nor below a standalone namespace
      appends its own routes, in order, to the bucket of its first segment. */
  lemma StepFolded(raw: Dict<string, seq<Binding>>, nss: Dict<string, Namespace>, st: Combined, name: string)
    requires name in nss.entries && ParentKey(name) in raw.entries
    requires !IsStandalone(nss.entries[name]) && !HasStandalonePrefix(nss, name)
    ensures var parent := raw.entries[ParentKey(name)];
      var pk := ParentKey(name);
      var r := Step(raw, nss, st, name);
      && pk in r.routes.entries
      && r.routes.entries[pk] == st.routes.Get(pk, []) + NamespaceRoutes(parent, name)
      && r.routes.entries[pk][..|st.routes.Get(pk, [])|] == st.routes.Get(pk, [])
      && (forall x :: x in r.routes.entries[pk][|st.routes.Get(pk, [])|..] <==> x in parent && InNamespace(name, x))
      && (forall k :: k != pk ==> r.routes.Get(k, []) == st.routes.Get(k, []))
      && r.idents == st.idents
  {
    var parent := raw.entries[ParentKey(name)];
    var pk := ParentKey(name);
    var own := NamespaceRoutes(parent, name);
    var before := st.routes.Get(pk, []);
    assert (before + own)[..|before|] == before;
    assert (before + own)[|before|..] == own;
    forall x ensures x in own <==> x in parent && InNamespace(name, x) {
      FilterMember(parent, b => InNamespace(name, b), x);
    }
  }

  /** A namespace below a standalone one contributes nothing of its own. */
  lemma StepShadowed(raw: Dict<string, seq<Binding>>, nss: Dict<string, Namespace>, st: Combined, name: string)
    requires name in nss.entries && ParentKey(name) in raw.entries
    requires !IsStandalone(nss.entries[name])
    requires exists t :: t in nss.entries && NsStandalone(nss, t) && StartsWith(name, t)
    requires nss.Valid()
    ensures Step(raw, nss, st, name) == st
  {
    var t :| t in nss.entries && NsStandalone(nss, t) && StartsWith(name, t);
    var j :| 0 <= j < |nss.keys| && nss.keys[j] == t;
  }

  // ---------------------------------------------------------------------------
  // What the whole reconciliation guarantees

  /** Every identifier recorded names a standalone namespace whose identifier it is. */
  ghost predicate IdentsSound(nss: Dict<string, Namespace>, ids: Dict<string, string>) {
    forall id :: id in ids.entries ==>
      ids.entries[id] in nss.entries && IsStandalone(nss.entries[ids.entries[id]])
      && Identifier(ids.entries[id], nss.entries[ids.entries[id]]) == id
  }

  /** Every identifier recorded names a standalone namespace whose identifier
      it is, and every standalone namespace's identifier is recorded. */
  lemma AggregateIdentifiers(raw: Dict<string, seq<Binding>>, nss: Dict<string, Namespace>)
    requires raw.Valid() && nss.Valid() && ParentsPresent(raw, nss)
    ensures IdentsSound(nss, Aggregate(raw, nss).idents)
    ensures forall name :: name in nss.entries && IsStandalone(nss.entries[name]) ==>
      Identifier(name, nss.entries[name]) in Aggregate(raw, nss).idents.entries
  {
    IdentifiersUpTo(raw, nss, |nss.keys|);
    forall name | name in nss.entries && IsStandalone(nss.entries[name])
      ensures Identifier(name, nss.entries[name]) in Aggregate(raw, nss).idents.entries
    {
      var j :| 0 <= j < |nss.keys| && nss.keys[j] == name;
    }
  }

  /** The identifiers of the standalone namespaces among the first `n` are recorded. */
  ghost predicate IdentsComplete(nss: Dict<string, Namespace>, ids: Dict<string, string>, n: nat)
    requires n <= |nss.keys|
  {
    forall j :: 0 <= j < n && NsStandalone(nss, nss.keys[j]) ==>
      Identifier(nss.keys[j], nss.entries[nss.keys[j]]) in ids.entries
  }

  lemma {:induction false} IdentifiersUpTo(raw: Dict<string, seq<Binding>>, nss: Dict<string, Namespace>, n: nat)
    requires nss.Valid() && ParentsPresent(raw, nss) && n <= |nss.keys|
    ensures IdentsSound(nss, CombineUpTo(raw, nss, n).idents)
    ensures IdentsComplete(nss, CombineUpTo(raw, nss, n).idents, n)
    decreases n
  {
    if n > 0 {
      IdentifiersUpTo(raw, nss, n - 1);
      IdentifiersNext(raw, nss, n);
    }
  }

  lemma IdentifiersNext(raw: Dict<string, seq<Binding>>, nss: Dict<string, Namespace>, n: nat)
    requires nss.Valid() && ParentsPresent(raw, nss) && 0 < n <= |nss.keys|
    requires IdentsSound(nss, CombineUpTo(raw, nss, n - 1).idents)
    requires IdentsComplete(nss, CombineUpTo(raw, nss, n - 1).idents, n - 1)
    ensures IdentsSound(nss, CombineUpTo(raw, nss, n).idents)
    ensures IdentsComplete(nss, CombineUpTo(raw, nss, n).idents, n)
  {
    CombineUpToNext(raw, nss, n - 1);
    IdentifiersStep(raw, nss, CombineUpTo(raw, nss, n - 1), nss.keys[n - 1], n);
  }

  lemma IdentifiersStep(raw: Dict<string, seq<Binding>>, nss: Dict<string, Namespace>, st: Combined, name: string, n: nat)
    requires 0 < n <= |nss.keys| && name == nss.keys[n - 1]
    requires name in nss.entries && ParentKey(name) in raw.entries
    requires IdentsSound(nss, st.idents) && IdentsComplete(nss, st.idents, n - 1)
    ensures IdentsSound(nss, Step(raw, nss, st, name).idents)
    ensures IdentsComplete(nss, Step(raw, nss, st, name).idents, n)
  {
    var ids := Step(raw, nss, st, name).idents;
    StepIdents(raw, nss, st, name);
    forall id | id in ids.entries
      ensures ids.entries[id] in nss.entries && IsStandalone(nss.entries[ids.entries[id]])
      ensures Identifier(ids.entries[id], nss.entries[ids.entries[id]]) == id
    {
      if ids != st.idents && id != Identifier(name, nss.entries[name]) {
        assert id in st.idents.entries && ids.entries[id] == st.idents.entries[id];
      }
    }
  }

  /** Only a standalone namespace touches the identifier table. */
  lemma StepIdents(raw: Dict<string, seq<Binding>>, nss: Dict<string, Namespace>, st: Combined, name: string)
    requires name in nss.entries && ParentKey(name) in raw.entries
    ensures Step(raw, nss, st, name).idents ==
      if IsStandalone(nss.entries[name]) then st.idents.Put(Identifier(name, nss.entries[name]), name) else st.idents
  {
  }

  /** Every bucket key that no namespace claims ends up holding exactly its raw
      bucket, whatever the namespaces wrote there before. */
  lemma AggregatePassThrough(raw: Dict<string, seq<Binding>>, nss: Dict<string, Namespace>, k: string)
    requires raw.Valid() && nss.Valid() && ParentsPresent(raw, nss)
    requires k in raw.entries && k !in nss.entries
    ensures k in Aggregate(raw, nss).routes.entries
    ensures Aggregate(raw, nss).routes.entries[k] == raw.entries[k]
  {
    var c := CombineUpTo(raw, nss, |nss.keys|);
    var j :| 0 <= j < |raw.keys| && raw.keys[j] == k;
    PassThroughSets(raw, nss, c.routes, |raw.keys|, j);
  }

  /** The first segment of `seg + rest`, when `rest` is empty or starts a new segment. */
  lemma ParentKeyOfSegment(seg: string, rest: string)
    requires seg != [] && '/' !in seg && (rest == [] || rest[0] == '/')
    ensures ParentKey(seg + rest) == seg
  {
    var s := seg + rest;
    assert StripLeadingSlash(s) == s by { assert s[0] == seg[0]; }
    var n := SlashFrom(s, 0);
    if |seg| < |s| {
      assert s[|seg|] == rest[0];
    }
    assert s[..n] == seg;
  }

  /** No partition: a route filed under the first segment of a folded namespace
      but declared outside that namespace (its namespace option is not the
      namespace's path) is dropped by the namespace's step, and the pass-through
      skips the key because it names a namespace, so the route is in no bucket. */
  lemma AggregateDropsForeignRoute(b: Binding)
    requires b.route.namespace.None?
    ensures var raw := Dict(["users"], map["users" := [b]]);
            var nss := Dict(["users"], map["users" := Namespace(None, None)]);
            && raw.Valid() && nss.Valid() && ParentsPresent(raw, nss)
            && Aggregate(raw, nss).routes == Dict(["users"], map["users" := []])
  {
    var raw := Dict(["users"], map["users" := [b]]);
    var nss := Dict(["users"], map["users" := Namespace(None, None)]);
    ParentKeyOfSegment("users", []);
    assert "users" + [] == "users";
    assert ParentsPresent(raw, nss);
    assert NamespaceRoutes([b], "users") == [] by {
      assert !InNamespace("users", b);
      assert [b][..0] == [];
    }
    var st := Step(raw, nss, Combined(EmptyDict(), EmptyDict()), "users");
    assert st.routes == Dict(["users"], map["users" := []]);
    assert CombineUpTo(raw, nss, 1) == st;
    assert PassThrough(raw, nss, st.routes, 0) == st.routes;
  }

  /** No partition either way: when a standalone namespace's identifier is also
      a raw key that names no namespace (a namespace `admin/users` named `stats`
      beside a top-level route `/stats`), the pass-through replaces the
      namespace's bucket by the raw bucket, while the identifier table still
      maps the identifier to a standalone namespace. */
  lemma AggregateOverwritesStandalone(raw: Dict<string, seq<Binding>>, nss: Dict<string, Namespace>, name: string)
    requires raw.Valid() && nss.Valid() && ParentsPresent(raw, nss)
    requires NsStandalone(nss, name)
    requires Identifier(name, nss.entries[name]) in raw.entries && Identifier(name, nss.entries[name]) !in nss.entries
    ensures var id := Identifier(name, nss.entries[name]);
            && id in Aggregate(raw, nss).routes.entries && Aggregate(raw, nss).routes.entries[id] == raw.entries[id]
            && id in Aggregate(raw, nss).idents.entries && NsStandalone(nss, Aggregate(raw, nss).idents.entries[id])
  {
    AggregateIdentifiers(raw, nss);
    AggregatePassThrough(raw, nss, Identifier(name, nss.entries[name]));
  }

  lemma {:induction false} PassThroughSets(raw: Dict<string, seq<Binding>>, nss: Dict<string, Namespace>,
                                           routes: Dict<string, seq<Binding>>, n: nat, j: nat)
    requires raw.Valid() && j < n <= |raw.keys| && raw.keys[j] !in nss.entries
    ensures raw.keys[j] in PassThrough(raw, nss, routes, n).entries
    ensures PassThrough(raw, nss, routes, n).entries[raw.keys[j]] == raw.entries[raw.keys[j]]
    decreases n
  {
    if j < n - 1 {
      PassThroughSets(raw, nss, routes, n - 1, j);
    }
  }

  /** A route found in some bucket. */
  ghost predicate InSomeBucket(raw: Dict<string, seq<Binding>>, x: Binding) {
    exists k :: k in raw.entries && x in raw.entries[k]
  }

  /** Every route in every bucket of `d` comes from a raw bucket. */
  ghost predicate FromRaw(raw: Dict<string, seq<Binding>>, d: Dict<string, seq<Binding>>) {
    forall k, x :: k in d.entries && x in d.entries[k] ==> InSomeBucket(raw, x)
  }

  /** Reconciliation only redistributes routes: no bucket of the result holds
      a route that was not grouped in the first place. */
  lemma AggregateFromRaw(raw: Dict<string, seq<Binding>>, nss: Dict<string, Namespace>)
    requires raw.Valid() && nss.Valid() && ParentsPresent(raw, nss)
    ensures FromRaw(raw, Aggregate(raw, nss).routes)
  {
    FromRawUpTo(raw, nss, |nss.keys|);
    FromRawPassThrough(raw, nss, CombineUpTo(raw, nss, |nss.keys|).routes, |raw.keys|);
  }

  lemma {:induction false} FromRawUpTo(raw: Dict<string, seq<Binding>>, nss: Dict<string, Namespace>, n: nat)
    requires nss.Valid() && ParentsPresent(raw, nss) && n <= |nss.keys|
    ensures FromRaw(raw, CombineUpTo(raw, nss, n).routes)
    decreases n
  {
    if n == 0 {
      assert CombineUpTo(raw, nss, 0).routes == EmptyDict();
    } else {
      FromRawUpTo(raw, nss, n - 1);
      FromRawNext(raw, nss, n);
    }
  }

  lemma FromRawNext(raw: Dict<string, seq<Binding>>, nss: Dict<string, Namespace>, n: nat)
    requires nss.Valid() && ParentsPresent(raw, nss) && 0 < n <= |nss.keys|
    requires FromRaw(raw, CombineUpTo(raw, nss, n - 1).routes)
    ensures FromRaw(raw, CombineUpTo(raw, nss, n).routes)
  {
    CombineUpToNext(raw, nss, n - 1);
    FromRawStep(raw, nss, CombineUpTo(raw, nss, n - 1), nss.keys[n - 1]);
  }

  lemma FromRawStep(raw: Dict<string, seq<Binding>>, nss: Dict<string, Namespace>, st: Combined, name: string)
    requires name in nss.entries && ParentKey(name) in raw.entries
    requires FromRaw(raw, st.routes)
    ensures FromRaw(raw, Step(raw, nss, st, name).routes)
  {
    var pk := ParentKey(name);
    var parent := raw.entries[pk];
    var r := Step(raw, nss, st, name);
    forall k, x | k in r.routes.entries && x in r.routes.entries[k]
      ensures InSomeBucket(raw, x)
    {
      if IsStandalone(nss.entries[name]) {
        StepStandalone(raw, nss, st, name);
        if k != Identifier(name, nss.entries[name]) {
          assert r.routes.Get(k, []) == st.routes.Get(k, []);
        }
      } else if !HasStandalonePrefix(nss, name) {
        StepFolded(raw, nss, st, name);
        if k == pk {
          var before := st.routes.Get(pk, []);
          var all := r.routes.entries[pk];
          if x in all[..|before|] {
          } else {
            assert all == all[..|before|] + all[|before|..];
            assert x in all[|before|..];
          }
        } else {
          assert r.routes.Get(k, []) == st.routes.Get(k, []);
        }
      }
    }
  }

  lemma {:induction false} FromRawPassThrough(raw: Dict<string, seq<Binding>>, nss: Dict<string, Namespace>,
                                              routes: Dict<string, seq<Binding>>, n: nat)
    requires raw.Valid() && n <= |raw.keys| && FromRaw(raw, routes)
    ensures FromRaw(raw, PassThrough(raw, nss, routes, n))
    decreases n
  {
    if n > 0 {
      FromRawPassThrough(raw, nss, routes, n - 1);
      var k := raw.keys[n - 1];
      assert k in raw.entries;
    }
  }

  lemma AggregateUnfold(raw: Dict<string, seq<Binding>>, nss: Dict<string, Namespace>)
    requires raw.Valid() && nss.Valid() && ParentsPresent(raw, nss)
    ensures var c := CombineUpTo(raw, nss, |nss.keys|);
      Aggregate(raw, nss) == Combined(PassThrough(raw, nss, c.routes, |raw.keys|), c.idents)
  {
  }

  lemma CombineUpToNext(raw: Dict<string, seq<Binding>>, nss: Dict<string, Namespace>, i: nat)
    requires nss.Valid() && ParentsPresent(raw, nss) && i < |nss.keys|
    ensures nss.keys[i] in nss.entries && ParentKey(nss.keys[i]) in raw.entries
    ensures CombineUpTo(raw, nss, i + 1) == Step(raw, nss, CombineUpTo(raw, nss, i), nss.keys[i])
  {
    NamespaceAt(raw, nss, i);
    assert CombineUpTo(raw, nss, i + 1) == StepAt(raw, nss, i + 1);
  }

  lemma NamespaceAt(raw: Dict<string, seq<Binding>>, nss: Dict<string, Namespace>, i: nat)
    requires nss.Valid() && ParentsPresent(raw, nss) && i < |nss.keys|
    ensures nss.keys[i] in nss.entries && ParentKey(nss.keys[i]) in raw.entries
  {
    assert nss.keys[i] in nss.entries;
  }

  /** The routes of the first `n` endpoints come first among all routes. */
  lemma {:induction false} BindingsPrefix(es: seq<Endpoint>, n: nat)
    requires n <= |es|
    ensures StartsWith(Bindings(es), Bindings(es[..n]))
    decreases |es|
  {
    if n < |es| {
      var init := es[..|es| - 1];
      BindingsPrefix(init, n);
      assert init[..n] == es[..n];
      assert Bindings(es)[..|Bindings(init)|] == Bindings(init);
    } else {
      assert es[..n] == es;
    }
  }

  lemma BindingsSnoc(es: seq<Endpoint>, i: nat)
    requires i < |es|
    ensures Bindings(es[..i + 1]) == Bindings(es[..i]) + BindingsOf(es[i])
  {
    assert es[..i + 1][..i] == es[..i];
  }

  /** The routes of endpoint `i` sit right after those of the endpoints before it. */
  lemma BindingsAt(es: seq<Endpoint>, i: nat)
    requires i < |es|
    ensures |Bindings(es[..i + 1])| == |Bindings(es[..i])| + |es[i].routes| <= |Bindings(es)|
    ensures forall j :: 0 <= j < |es[i].routes| ==>
      Bindings(es)[|Bindings(es[..i])| + j] == Binding(es[i].routes[j], es[i])
  {
    BindingsSnoc(es, i);
    BindingsPrefix(es, i + 1);
    RoutesAfter(Bindings(es), Bindings(es[..i]), es[i]);
  }

  lemma RoutesAfter(all: seq<Binding>, before: seq<Binding>, e: Endpoint)
    requires StartsWith(all, before + BindingsOf(e))
    ensures forall j :: 0 <= j < |e.routes| ==> all[|before| + j] == Binding(e.routes[j], e)
  {
    var own := BindingsOf(e);
    var pre := before + own;
    forall j | 0 <= j < |e.routes|
      ensures all[|before| + j] == Binding(e.routes[j], e)
    {
      assert all[|before| + j] == all[..|pre|][|before| + j] == pre[|before| + j] == own[j];
    }
  }

  // ---------------------------------------------------------------------------
  // The API class

  /** The documented API: its application (its own endpoints and everything
      mounted below it) and the three tables `add_swagger_documentation` fills. */
  class Api {
    const app: App
    /** The rule that names a route's bucket: `ResourceKey` for every API the
        constructor builds.  The grouping loops refer to it only through this
        field, so their proofs do not depend on how keys are extracted. */
    const keyOf: Route -> Option<string>
    var combinedRoutes: Dict<string, seq<Binding>>
    var combinedNamespaceRoutes: Dict<string, seq<Binding>>
    var combinedNamespaceIdentifiers: Dict<string, string>

    constructor (app: App)
      ensures this.app == app && keyOf == ResourceKey
      ensures combinedRoutes == EmptyDict() && combinedNamespaceRoutes == EmptyDict()
      ensures combinedNamespaceIdentifiers == EmptyDict()
    {
      this.app := app;
      keyOf := ResourceKey;
      combinedRoutes := EmptyDict();
      combinedNamespaceRoutes := EmptyDict();
      combinedNamespaceIdentifiers := EmptyDict();
    }

    /** `add_swagger_documentation`: group the routes, reconcile the namespaces,
        then pass through the buckets no namespace claims. */
    method AddSwaggerDocumentation(cfg: DocConfig)
      requires ParentsPresent(CombinedRoutes(app, keyOf, cfg), CombinedNamespaces(app))
      modifies this
      ensures combinedRoutes == CombinedRoutes(app, keyOf, cfg)
      ensures Combined(combinedNamespaceRoutes, combinedNamespaceIdentifiers)
        == Aggregate(combinedRoutes, CombinedNamespaces(app))
    {
      GroupRoutes(cfg);
      combinedNamespaceRoutes := EmptyDict();
      combinedNamespaceIdentifiers := EmptyDict();
      var nss := CombinedNamespaces(app);
      CombineNamespaceRoutes(nss);
      PassExclusiveRoutes(nss);
      AggregateUnfold(combinedRoutes, nss);
    }

    /** Every bucket whose key names no namespace is copied over as it is. */
    method PassExclusiveRoutes(nss: Dict<string, Namespace>)
      requires combinedRoutes.Valid()
      modifies this
      ensures combinedRoutes == old(combinedRoutes)
      ensures combinedNamespaceIdentifiers == old(combinedNamespaceIdentifiers)
      ensures combinedNamespaceRoutes == PassThrough(combinedRoutes, nss, old(combinedNamespaceRoutes), |combinedRoutes.keys|)
    {
      ghost var start := combinedNamespaceRoutes;
      var i := 0;
      while i < |combinedRoutes.keys|
        invariant 0 <= i <= |combinedRoutes.keys|
        invariant combinedRoutes == old(combinedRoutes)
        invariant combinedNamespaceIdentifiers == old(combinedNamespaceIdentifiers)
        invariant combinedNamespaceRoutes == PassThrough(combinedRoutes, nss, start, i)
      {
        var key := combinedRoutes.keys[i];
        assert key in combinedRoutes.entries;
        if key !in nss.entries {
          combinedNamespaceRoutes := combinedNamespaceRoutes.Put(key, combinedRoutes.entries[key]);
        }
        i := i + 1;
      }
    }

    /** The grouping loop over every endpoint. */
    method GroupRoutes(cfg: DocConfig)
      modifies this
      ensures combinedRoutes == CombinedRoutes(app, keyOf, cfg)
      ensures combinedNamespaceRoutes == old(combinedNamespaceRoutes)
      ensures combinedNamespaceIdentifiers == old(combinedNamespaceIdentifiers)
    {
      combinedRoutes := EmptyDict();
      var es := app.endpoints;
      ghost var all := Bindings(es);
      var i := 0;
      while i < |es|
        invariant 0 <= i <= |es|
        invariant |Bindings(es[..i])| <= |all|
        invariant combinedRoutes == RawGroups(all, |Bindings(es[..i])|, keyOf, cfg)
        invariant combinedNamespaceRoutes == old(combinedNamespaceRoutes)
        invariant combinedNamespaceIdentifiers == old(combinedNamespaceIdentifiers)
      {
        BindingsAt(es, i);
        GroupEndpointRoutes(cfg, es[i], all, |Bindings(es[..i])|);
        i := i + 1;
      }
      assert es[..i] == es;
    }

    /** The inner grouping loop, over the routes of endpoint `e`, which sit at
        `start` onwards among all routes. */
    method GroupEndpointRoutes(cfg: DocConfig, e: Endpoint, ghost all: seq<Binding>, ghost start: nat)
      requires start + |e.routes| <= |all|
      requires forall j :: 0 <= j < |e.routes| ==> all[start + j] == Binding(e.routes[j], e)
      requires combinedRoutes == RawGroups(all, start, keyOf, cfg)
      modifies this
      ensures combinedRoutes == RawGroups(all, start + |e.routes|, keyOf, cfg)
      ensures combinedNamespaceRoutes == old(combinedNamespaceRoutes)
      ensures combinedNamespaceIdentifiers == old(combinedNamespaceIdentifiers)
    {
      var j := 0;
      while j < |e.routes|
        invariant 0 <= j <= |e.routes|
        invariant combinedRoutes == RawGroups(all, start + j, keyOf, cfg)
        invariant combinedNamespaceRoutes == old(combinedNamespaceRoutes)
        invariant combinedNamespaceIdentifiers == old(combinedNamespaceIdentifiers)
      {
        var route := e.routes[j];
        AddRouteOf(cfg, route, e);
        j := j + 1;
      }
    }

    /** One iteration of the grouping loop. */
    method AddRouteOf(cfg: DocConfig, route: Route, e: Endpoint)
      modifies this
      ensures combinedRoutes == AddRoute(old(combinedRoutes), Binding(route, e), keyOf(route), HiddenDocRoute(cfg, route))
      ensures combinedNamespaceRoutes == old(combinedNamespaceRoutes)
      ensures combinedNamespaceIdentifiers == old(combinedNamespaceIdentifiers)
    {
      var key := keyOf(route);
      if key.Some? {
        var resource := key.value;
        if resource !in combinedRoutes.entries {
          combinedRoutes := combinedRoutes.Put(resource, []);
        }
        if !HiddenDocRoute(cfg, route) {
          combinedRoutes := combinedRoutes.Put(resource, combinedRoutes.entries[resource] + [Binding(route, e)]);
        }
      }
    }

    /** `combine_namespace_routes`: one pass over the namespaces in order. */
    method CombineNamespaceRoutes(nss: Dict<string, Namespace>)
      requires nss.Valid() && ParentsPresent(combinedRoutes, nss)
      requires combinedNamespaceRoutes == EmptyDict() && combinedNamespaceIdentifiers == EmptyDict()
      modifies this
      ensures combinedRoutes == old(combinedRoutes)
      ensures Combined(combinedNamespaceRoutes, combinedNamespaceIdentifiers) == CombineUpTo(combinedRoutes, nss, |nss.keys|)
    {
      ghost var raw := combinedRoutes;
      var i := 0;
      while i < |nss.keys|
        invariant 0 <= i <= |nss.keys|
        invariant combinedRoutes == raw
        invariant Combined(combinedNamespaceRoutes, combinedNamespaceIdentifiers) == CombineUpTo(raw, nss, i)
      {
        var name := nss.keys[i];
        CombineNamespace(nss, name, i);
        i := i + 1;
      }
    }

    /** The body of the loop over the namespaces, for namespace `name`, the
        `i`-th: it takes the state after the first `i` namespaces to the state
        after the first `i + 1`. */
    method CombineNamespace(nss: Dict<string, Namespace>, name: string, ghost i: nat)
      requires nss.Valid() && ParentsPresent(combinedRoutes, nss) && i < |nss.keys| && name == nss.keys[i]
      requires Combined(combinedNamespaceRoutes, combinedNamespaceIdentifiers) == CombineUpTo(combinedRoutes, nss, i)
      modifies this
      ensures combinedRoutes == old(combinedRoutes)
      ensures Combined(combinedNamespaceRoutes, combinedNamespaceIdentifiers) == CombineUpTo(combinedRoutes, nss, i + 1)
    {
      CombineUpToNext(combinedRoutes, nss, i);
      var ns := nss.entries[name];
      var parentRouteName := ParentKey(name);
      var parentRoute := combinedRoutes.entries[parentRouteName];
      var namespaceRoutes := NamespaceRoutes(parentRoute, name);
      if IsStandalone(ns) {
        var identifier := Identifier(name, ns);
        combinedNamespaceIdentifiers := combinedNamespaceIdentifiers.Put(identifier, name);
        ghost var before := combinedNamespaceRoutes;
        combinedNamespaceRoutes := combinedNamespaceRoutes.Put(identifier, namespaceRoutes);
        var subNamespaces := StandaloneSubNamespaces(name, nss);
        var subRoutes := SubRoutes(parentRoute, subNamespaces);
        combinedNamespaceRoutes := combinedNamespaceRoutes.Put(identifier, combinedNamespaceRoutes.entries[identifier] + subRoutes);
        PutTwice(before, identifier, namespaceRoutes, namespaceRoutes + subRoutes);
      } else if !HasStandalonePrefix(nss, name) {
        combinedNamespaceRoutes := combinedNamespaceRoutes.Put(parentRouteName,
          combinedNamespaceRoutes.Get(parentRouteName, []) + namespaceRoutes);
      }
    }
  }
}
