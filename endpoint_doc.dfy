/**
 * The API declaration of one resource (`EndpointDoc` in
 * lib/grape-swagger/documentation/endpoint_doc.rb): the visible routes of the
 * resource's bucket grouped by their Swagger path, one operation per route,
 * the response messages, and the models the operations refer to together with
 * every model those include.
 */
module EndpointDoc {
  import opened Support
  import opened Records
  import opened BaseDoc
  import opened GrapeSwagger
  import opened RouteDoc
  import opened ModelDoc

  // ---------------------------------------------------------------------------
  // parse_path

  /** The first character of an identifier, `[a-zA-Z_]`. */
  predicate IsIdentStart(c: char) {
    'a' <= c <= 'z' || 'A' <= c <= 'Z' || c == '_'
  }

  /** The length of the run of word characters (`\w`) at the start of `t`. */
  function WordRun(t: string): (n: nat)
    ensures n <= |t|
    ensures forall i :: 0 <= i < n ==> IsWordChar(t[i])
    ensures n < |t| ==> !IsWordChar(t[n])
  {
    if t != [] && IsWordChar(t[0]) then 1 + WordRun(t[1..]) else 0
  }

  /** No `:` is followed by the start of an identifier. */
  predicate NoParamMarker(s: string) {
    forall i :: 0 <= i < |s| - 1 ==> !(s[i] == ':' && IsIdentStart(s[i + 1]))
  }

  /** `gsub(/:([a-zA-Z_]\w*)/, '{\1}')`: every `:name` becomes `{name}`. */
  function Templated(s: string): string
    decreases |s|
  {
    if s == [] then []
    else if s[0] == ':' && |s| > 1 && IsIdentStart(s[1]) then
      var n := WordRun(s[1..]);
      "{" + s[1..1 + n] + "}" + Templated(s[1 + n..])
    else
      [s[0]] + Templated(s[1..])
  }

  /** The result has no `:name` left, and starts with a brace or with the
      text's own first character. */
  lemma {:induction false} TemplatedNoMarker(s: string)
    ensures NoParamMarker(Templated(s))
    ensures Templated(s) != [] ==> s != [] && (Templated(s)[0] == '{' || Templated(s)[0] == s[0])
    decreases |s|
  {
    if s == [] {
    } else if s[0] == ':' && |s| > 1 && IsIdentStart(s[1]) {
      var n := WordRun(s[1..]);
      var w := s[1..1 + n];
      TemplatedNoMarker(s[1 + n..]);
      WordRunNoColon(s[1..]);
      assert w == s[1..][..n];
      BracedNoMarker(w, Templated(s[1 + n..]));
      assert Templated(s) == "{" + w + "}" + Templated(s[1 + n..]);
    } else {
      TemplatedNoMarker(s[1..]);
      ConsNoMarker(s[0], Templated(s[1..]));
      assert Templated(s) == [s[0]] + Templated(s[1..]);
    }
  }

  /** The word run at the start of a text holds no colon. */
  lemma WordRunNoColon(t: string)
    ensures ':' !in t[..WordRun(t)]
  {
    var w := t[..WordRun(t)];
    forall i | 0 <= i < |w| ensures w[i] != ':' {
      assert w[i] == t[i] && IsWordChar(t[i]);
    }
  }

  /** A braced word in front of a text without markers adds none. */
  lemma BracedNoMarker(w: string, rest: string)
    requires ':' !in w && NoParamMarker(rest)
    ensures NoParamMarker("{" + w + "}" + rest)
  {
    var r := "{" + w + "}" + rest;
    forall i | 0 <= i < |r| - 1
      ensures !(r[i] == ':' && IsIdentStart(r[i + 1]))
    {
      if i == 0 {
        assert r[i] == '{';
      } else if i <= |w| {
        assert r[i] == w[i - 1];
      } else if i == |w| + 1 {
        assert r[i] == '}';
      } else {
        assert r[i] == rest[i - |w| - 2] && r[i + 1] == rest[i - |w| - 1];
      }
    }
  }

  /** A character in front of a text without markers adds none, unless it is a
      colon followed by an identifier's first character. */
  lemma ConsNoMarker(c: char, rest: string)
    requires NoParamMarker(rest) && (c == ':' && rest != [] ==> !IsIdentStart(rest[0]))
    ensures NoParamMarker([c] + rest)
  {
    var r := [c] + rest;
    forall i | 0 < i < |r| - 1
      ensures r[i] == rest[i - 1] && r[i + 1] == rest[i]
    {
    }
  }

  /** A path without colons has nothing to rewrite. */
  lemma {:induction false} TemplatedPlain(s: string)
    requires ':' !in s
    ensures Templated(s) == s
    decreases |s|
  {
    if s != [] {
      TemplatedPlain(s[1..]);
    }
  }

  /** A stretch without colons is copied unchanged. */
  lemma {:induction false} TemplatedAfterPlain(a: string, b: string)
    requires ':' !in a
    ensures Templated(a + b) == a + Templated(b)
    decreases |a|
  {
    if a != [] {
      var s := a + b;
      assert s[0] == a[0] && a[0] != ':';
      assert s[1..] == a[1..] + b;
      assert ':' !in a[1..] by { assert forall x :: x in a[1..] ==> x in a; }
      TemplatedAfterPlain(a[1..], b);
      assert Templated(s) == [a[0]] + Templated(s[1..]);
      assert a == [a[0]] + a[1..];
    } else {
      assert a + b == b;
    }
  }

  /** `:name` followed by a non-word character (or nothing) becomes `{name}`. */
  lemma TemplatedParam(w: string, rest: string)
    requires w != [] && IsIdentStart(w[0]) && forall i :: 0 <= i < |w| ==> IsWordChar(w[i])
    requires rest == [] || !IsWordChar(rest[0])
    ensures Templated(":" + w + rest) == "{" + w + "}" + Templated(rest)
  {
    var s := ":" + w + rest;
    assert s[1..] == w + rest;
    WordRunOf(w, rest);
    assert s[1..1 + |w|] == w;
    assert s[1 + |w|..] == rest;
  }

  lemma {:induction false} WordRunOf(w: string, rest: string)
    requires forall i :: 0 <= i < |w| ==> IsWordChar(w[i])
    requires rest == [] || !IsWordChar(rest[0])
    ensures WordRun(w + rest) == |w|
    decreases |w|
  {
    if w != [] {
      assert (w + rest)[1..] == w[1..] + rest;
      WordRunOf(w[1..], rest);
    }
  }

  /** The suffix that replaces `(.:format)`. */
  function FormatSuffix(hideFormat: bool): string {
    if hideFormat then "" else ".{format}"
  }

  /** `parse_path`: the format placeholder in Swagger form (or dropped), every
      `:name` as `{name}`, and `{version}` replaced by the version when one is
      given. */
  function ParsePath(path: string, version: Option<string>, hideFormat: bool): (r: string)
    ensures version.None? ==> NoParamMarker(r)
  {
    var withFormat := ReplaceAll(path, "(.:format)", FormatSuffix(hideFormat));
    var templated := Templated(withFormat);
    TemplatedNoMarker(withFormat);
    if version.Some? then ReplaceAll(templated, "{version}", version.value) else templated
  }

  /** A path with no colon, no parenthesis and no `{version}` is its own Swagger path. */
  lemma ParsePathPlain(path: string, version: Option<string>, hideFormat: bool)
    requires ':' !in path && '(' !in path && !Contains(path, "{version}")
    ensures ParsePath(path, version, hideFormat) == path
  {
    NoCharNoMatch(path, '(', "(.:format)");
    ReplaceAbsent(path, "(.:format)", FormatSuffix(hideFormat));
    TemplatedPlain(path);
    if version.Some? {
      ReplaceAbsent(path, "{version}", version.value);
    }
  }

  /** The format placeholder after a stretch without parentheses. */
  lemma FormatReplaced(prefix: string, suffix: string)
    requires '(' !in prefix
    ensures ReplaceAll(prefix + "(.:format)", "(.:format)", suffix) == prefix + suffix
  {
    assert prefix + "(.:format)" == prefix + ("(.:format)" + []);
    ReplaceAfterPlain(prefix, "(.:format)" + [], "(.:format)", suffix);
    ReplaceAtStart([], "(.:format)", suffix);
    assert suffix + [] == suffix;
  }

  /** No `{version}` after a stretch without braces. */
  lemma NoVersionAfter(p: string, hideFormat: bool, v: string)
    requires '{' !in p
    ensures ReplaceAll(p + FormatSuffix(hideFormat), "{version}", v) == p + FormatSuffix(hideFormat)
  {
    var suffix := FormatSuffix(hideFormat);
    ReplaceAfterPlain(p, suffix, "{version}", v);
    if suffix != [] {
      ShorterNoMatch(suffix[1..], "{version}");
      assert !StartsWith(suffix, "{version}") by { assert suffix[0] == '.'; }
    }
    ReplaceAbsent(suffix, "{version}", v);
  }

  /** One `:name` marker between two stretches without colons. */
  lemma TemplatedOnce(lead: string, w: string, rest: string)
    requires ':' !in lead && ':' !in rest
    requires w != [] && IsIdentStart(w[0]) && forall i :: 0 <= i < |w| ==> IsWordChar(w[i])
    requires rest == [] || !IsWordChar(rest[0])
    ensures Templated(lead + ":" + w + rest) == lead + "{" + w + "}" + rest
  {
    var tail := ":" + w + rest;
    assert Templated(lead + ":" + w + rest) == lead + Templated(tail) by {
      Regroup(lead, ":", w, rest);
      TemplatedAfterPlain(lead, tail);
    }
    assert Templated(tail) == "{" + w + "}" + rest by {
      TemplatedParam(w, rest);
      TemplatedPlain(rest);
    }
    Regroup5(lead, "{", w, "}", rest);
  }

  lemma VersionWord()
    ensures var w := "version";
      w != [] && IsIdentStart(w[0]) && forall i :: 0 <= i < |w| ==> IsWordChar(w[i])
  {
  }

  /** A plain path with the format placeholder: the placeholder becomes
      `.{format}`, or nothing when the format is hidden; the rest is kept. */
  lemma ParsePathFormat(p: string, version: Option<string>, hideFormat: bool)
    requires ':' !in p && '(' !in p && '{' !in p
    ensures ParsePath(p + "(.:format)", version, hideFormat) == p + FormatSuffix(hideFormat)
  {
    var suffix := FormatSuffix(hideFormat);
    FormatReplaced(p, suffix);
    assert ':' !in suffix;
    TemplatedPlain(p + suffix);
    if version.Some? {
      NoVersionAfter(p, hideFormat, version.value);
    }
  }

  /** The common route shape `/:version<p>(.:format)`: the version segment
      becomes `{version}`, then the given version; the placeholder becomes
      the format suffix; a plain rest is kept. */
  lemma ParsePathVersioned(p: string, version: Option<string>, hideFormat: bool)
    requires ':' !in p && '(' !in p && '{' !in p
    requires p == [] || !IsWordChar(p[0])
    ensures version.Some? ==>
      ParsePath("/:version" + p + "(.:format)", version, hideFormat) == "/" + version.value + p + FormatSuffix(hideFormat)
    ensures version.None? ==>
      ParsePath("/:version" + p + "(.:format)", version, hideFormat) == "/{version}" + p + FormatSuffix(hideFormat)
  {
    VersionedFormat(p, hideFormat);
    VersionedTemplate(p, hideFormat);
    if version.Some? {
      VersionedSubstitution(p, hideFormat, version.value);
    }
  }

  lemma VersionedFormat(p: string, hideFormat: bool)
    requires '(' !in p
    ensures ReplaceAll("/:version" + p + "(.:format)", "(.:format)", FormatSuffix(hideFormat)) == "/:version" + (p + FormatSuffix(hideFormat))
  {
    FormatReplaced("/:version" + p, FormatSuffix(hideFormat));
  }

  lemma VersionedTemplate(p: string, hideFormat: bool)
    requires ':' !in p && (p == [] || !IsWordChar(p[0]))
    ensures Templated("/:version" + (p + FormatSuffix(hideFormat))) == "/{version}" + (p + FormatSuffix(hideFormat))
  {
    VersionMarkerTemplated(p, hideFormat);
    VersionSpelled(p + FormatSuffix(hideFormat));
  }

  lemma VersionMarkerTemplated(p: string, hideFormat: bool)
    requires ':' !in p && (p == [] || !IsWordChar(p[0]))
    ensures var rest := p + FormatSuffix(hideFormat);
      Templated("/" + ":" + "version" + rest) == "/" + "{" + "version" + "}" + rest
  {
    var suffix := FormatSuffix(hideFormat);
    var rest := p + suffix;
    assert ':' !in rest;
    assert rest == [] || !IsWordChar(rest[0]) by {
      if p == [] && suffix != [] { assert rest[0] == '.'; }
    }
    VersionWord();
    TemplatedOnce("/", "version", rest);
  }

  /** The version segment, spelt piece by piece. */
  lemma VersionSpelled(rest: string)
    ensures "/:version" + rest == "/" + ":" + "version" + rest
    ensures "/" + "{" + "version" + "}" + rest == "/{version}" + rest
    ensures "/{version}" + rest == "/" + "{version}" + rest
  {
  }

  lemma VersionedSubstitution(p: string, hideFormat: bool, v: string)
    requires '{' !in p
    ensures ReplaceAll("/{version}" + (p + FormatSuffix(hideFormat)), "{version}", v) == "/" + v + p + FormatSuffix(hideFormat)
  {
    var rest := p + FormatSuffix(hideFormat);
    NoVersionAfter(p, hideFormat, v);
    ReplaceOnce("/", "{version}", rest, v);
    VersionSpelled(rest);
    Regroup("/", v, p, FormatSuffix(hideFormat));
  }

  /** A pattern starting with a character the text lacks does not occur in it. */
  lemma {:induction false} NoCharNoMatch(s: string, c: char, pat: string)
    requires pat != [] && pat[0] == c && c !in s
    ensures !Contains(s, pat)
    decreases |s|
  {
    if s != [] {
      assert s[0] != c;
      assert s[1..] <= s[1..] && forall x :: x in s[1..] ==> x in s;
      NoCharNoMatch(s[1..], c, pat);
    }
  }

  // ---------------------------------------------------------------------------
  // visible_operations, grouped_operations, resource_path

  predicate Hidden(b: Binding) { b.route.hidden.Force() }

  /** `visible_operations`: the bucket's routes whose hidden flag (called when
      callable) is false, in bucket order. */
  function VisibleOperations(routes: seq<Binding>): (r: seq<Binding>)
    ensures forall b :: b in r <==> b in routes && !Hidden(b)
  {
    forall b ensures b in Filter(routes, b => !Hidden(b)) <==> b in routes && !Hidden(b) {
      FilterMember(routes, b => !Hidden(b), b);
    }
    Filter(routes, b => !Hidden(b))
  }

  /** Hiding works route by route: the visible routes of two stretches of a
      bucket are the visible routes of each, in order. */
  lemma VisibleAppend(a: seq<Binding>, b: seq<Binding>)
    ensures VisibleOperations(a + b) == VisibleOperations(a) + VisibleOperations(b)
  {
    FilterAppend(a, b, b => !Hidden(b));
  }

  /** The Swagger path a route is grouped under. */
  function OperationPath(b: Binding, cfg: DocConfig): string {
    ParsePath(b.route.path, cfg.apiVersion, cfg.hideFormat)
  }

  /** `group_by` over the first `n` routes: one group per path, in order of
      first appearance, each holding its routes in order.  `pathOf` is the
      grouping rule (`OperationPath` in `GroupedOperations`). */
  function GroupUpTo(bs: seq<Binding>, pathOf: Binding -> string, n: nat): (r: Dict<string, seq<Binding>>)
    requires n <= |bs|
    ensures r.Valid()
  {
    if n == 0 then EmptyDict()
    else
      var prev := GroupUpTo(bs, pathOf, n - 1);
      var key := pathOf(bs[n - 1]);
      prev.Put(key, prev.Get(key, []) + [bs[n - 1]])
  }

  /** A path has a group exactly when some route has that path, and the group
      holds exactly the routes with that path, in order. */
  lemma {:induction false} GroupUpToEntry(bs: seq<Binding>, pathOf: Binding -> string, n: nat, key: string)
    requires n <= |bs|
    ensures key in GroupUpTo(bs, pathOf, n).entries <==> exists i :: 0 <= i < n && pathOf(bs[i]) == key
    ensures GroupUpTo(bs, pathOf, n).Get(key, []) == Filter(bs[..n], b => pathOf(b) == key)
    decreases n
  {
    if n == 0 {
      assert bs[..0] == [];
      assert GroupUpTo(bs, pathOf, 0) == EmptyDict();
    } else {
      var prev := GroupUpTo(bs, pathOf, n - 1);
      var b := bs[n - 1];
      var last := pathOf(b);
      assert GroupUpTo(bs, pathOf, n) == prev.Put(last, prev.Get(last, []) + [b]);
      GroupUpToEntry(bs, pathOf, n - 1, key);
      FilterPrefix(bs, n - 1, b => pathOf(b) == key);
      if last == key {
        assert GroupUpTo(bs, pathOf, n).Get(key, []) == prev.Get(key, []) + [b];
      } else {
        assert GroupUpTo(bs, pathOf, n).Get(key, []) == prev.Get(key, []);
        assert (exists i :: 0 <= i < n && pathOf(bs[i]) == key) ==> exists i :: 0 <= i < n - 1 && pathOf(bs[i]) == key;
      }
    }
  }

  /** No path is grouped twice. */
  lemma {:induction false} GroupUpToDistinct(bs: seq<Binding>, pathOf: Binding -> string, n: nat)
    requires n <= |bs|
    ensures Distinct(GroupUpTo(bs, pathOf, n).keys)
    decreases n
  {
    if n > 0 {
      var prev := GroupUpTo(bs, pathOf, n - 1);
      var key := pathOf(bs[n - 1]);
      GroupUpToDistinct(bs, pathOf, n - 1);
      PutDistinct(prev, key, prev.Get(key, []) + [bs[n - 1]]);
    }
  }

  /** `grouped_operations`. */
  function GroupedOperations(routes: seq<Binding>, cfg: DocConfig): (r: Dict<string, seq<Binding>>)
    ensures r.Valid()
  {
    var visible := VisibleOperations(routes);
    GroupUpTo(visible, b => OperationPath(b, cfg), |visible|)
  }

  /** Every group is non-empty and holds exactly the visible routes with its
      path, in bucket order; so every visible route is in the group of its path. */
  lemma GroupedOperationsFacts(routes: seq<Binding>, cfg: DocConfig, key: string)
    ensures var g := GroupedOperations(routes, cfg);
      var visible := VisibleOperations(routes);
      && g.Get(key, []) == Filter(visible, b => OperationPath(b, cfg) == key)
      && (key in g.entries <==> g.Get(key, []) != [])
  {
    var visible := VisibleOperations(routes);
    var pathOf := b => OperationPath(b, cfg);
    var p := b => pathOf(b) == key;
    GroupUpToEntry(visible, pathOf, |visible|, key);
    assert visible[..|visible|] == visible;
    FilterCongruent(visible, p, b => OperationPath(b, cfg) == key);
    var g := GroupedOperations(routes, cfg);
    if key in g.entries {
      var i :| 0 <= i < |visible| && pathOf(visible[i]) == key;
      FilterMember(visible, p, visible[i]);
    }
  }

  /** `resource_path`: `/` and the namespace the bucket's identifier stands
      for, or the bucket's key itself. */
  function ResourcePath(routesName: string, idents: Dict<string, string>): (r: string)
    ensures |r| >= 1 && r[0] == '/'
    ensures routesName in idents.entries ==> r[1..] == idents.entries[routesName]
    ensures routesName !in idents.entries ==> r[1..] == routesName
  {
    "/" + if routesName in idents.entries then idents.entries[routesName] else routesName
  }

  /** For a standalone namespace's resource, the path is the namespace's own
      name, whatever its identifier. */
  lemma ResourcePathOfIdentifier(routesName: string, nss: Dict<string, Namespace>, ids: Dict<string, string>)
    requires IdentsSound(nss, ids) && routesName in ids.entries
    ensures var name := ResourcePath(routesName, ids)[1..];
      name in nss.entries && IsStandalone(nss.entries[name]) && Identifier(name, nss.entries[name]) == routesName
  {
    assert ResourcePath(routesName, ids)[1..] == ids.entries[routesName];
  }

  // ---------------------------------------------------------------------------
  // Operations

  /** One entry of an operation's `responseMessages`. */
  datatype ResponseMessage = ResponseMessage(code: int, message: string, responseModel: Option<string>)

  /** One operation.  The hash holds `:type => 'void'` and, when an entity is
      declared, also `'type' =>` the entity's name (a second, string key):
      `voidType` and `entityType` are those two entries. */
  datatype Operation = Operation(
    notes: string,
    summary: string,
    nickname: string,
    httpMethod: string,
    parameters: seq<Param>,
    voidType: string,
    authorizations: Option<map<string, string>>,
    consumes: Option<seq<string>>,
    responseMessages: Option<seq<ResponseMessage>>,
    entityType: Option<string>)

  /** The characters a default nickname replaces by `-`. */
  const NicknameSeparators: set<char> := {'/', ':', '(', ')', '.'}

  /** The default nickname: the method, then the path with each separator
      turned into `-`. */
  function DefaultNickname(httpMethod: string, path: string): (r: string)
    ensures |r| == |httpMethod| + |path| && r[..|httpMethod|] == httpMethod
    ensures forall i :: 0 <= i < |path| ==>
      r[|httpMethod| + i] !in NicknameSeparators &&
      r[|httpMethod| + i] == (if path[i] in NicknameSeparators then '-' else path[i])
  {
    httpMethod + seq(|path|, i requires 0 <= i < |path| => if path[i] in NicknameSeparators then '-' else path[i])
  }

  /** `parse_http_codes` for one code. */
  function ResponseMessageOf(c: HttpCode): (r: ResponseMessage)
    ensures r.code == c.code && r.message == c.message
    ensures r.responseModel.Some? <==> c.model.Some?
    ensures c.model.Some? ==> r.responseModel == Some(ParseEntityName(c.model.value))
  {
    ResponseMessage(c.code, c.message, if c.model.Some? then Some(ParseEntityName(c.model.value)) else None)
  }

  /** The response models of the codes, in order, skipping codes without one. */
  function CodeModels(codes: seq<HttpCode>): (r: seq<EntityRef>)
    ensures forall m :: m in r <==> exists i :: 0 <= i < |codes| && codes[i].model == Some(m)
    decreases |codes|
  {
    if codes == [] then []
    else
      var init := codes[..|codes| - 1];
      var c := codes[|codes| - 1];
      var r := CodeModels(init) + (if c.model.Some? then [c.model.value] else []);
      assert forall i :: 0 <= i < |init| ==> init[i] == codes[i];
      r
  }

  /** `parse_http_codes`: one response message per code, in order, and the
      models the codes name, in order. */
  method ParseHttpCodes(codes: seq<HttpCode>) returns (messages: seq<ResponseMessage>, models: seq<EntityRef>)
    ensures messages == ResponseMessages(codes)
    ensures models == CodeModels(codes)
  {
    messages := [];
    models := [];
    for i := 0 to |codes|
      invariant |messages| == i && forall j :: 0 <= j < i ==> messages[j] == ResponseMessageOf(codes[j])
      invariant models == CodeModels(codes[..i])
    {
      assert codes[..i + 1][..i] == codes[..i];
      if codes[i].model.Some? {
        models := models + [codes[i].model.value];
      }
      messages := messages + [ResponseMessageOf(codes[i])];
    }
    assert codes[..|codes|] == codes;
  }

  /** Some parameter is an uploaded file. */
  predicate HasFileParam(params: seq<Param>) {
    exists p :: p in params && p.dataType == "File"
  }

  /** The parameters' and headers' hashes are well formed. */
  ghost predicate Documentable(b: Binding) {
    b.route.params.Valid() && b.route.headers.Valid()
  }

  /** The translations of one scope; a scope with none has an empty table. */
  function ScopeTable(i18n: I18n, scope: string): map<string, string> {
    if scope in i18n then i18n[scope] else map[]
  }

  /** The translations a route's parameters are described from: those in the
      scope of the endpoint's app, when it has one. */
  function TranslationsOf(b: Binding, i18n: I18n): Translations {
    var app := b.endpoint.app;
    Translations(app.Some?, if app.Some? then ScopeTable(i18n, I18nScope(app.value.name)) else map[])
  }

  /** A route of an app translates `key` as the entry for it in the app's
      scope (`[app.name.underscore.gsub('/', '.'), key].join('.')`), or as the
      empty string when there is none. */
  lemma TranslationInAppScope(b: Binding, i18n: I18n, key: string)
    requires b.endpoint.app.Some?
    ensures var scope := I18nScope(b.endpoint.app.value.name);
      Translate(TranslationsOf(b, i18n), key)
        == Some(if scope in i18n && key in i18n[scope] then i18n[scope][key] else "")
  {
  }

  /** Routes of two apps with different scopes are described apart: a
      translation stored in the first app's scope reaches only the first. */
  lemma TranslationsApart(a: Binding, b: Binding, key: string, text: string)
    requires a.endpoint.app.Some? && b.endpoint.app.Some?
    requires I18nScope(a.endpoint.app.value.name) != I18nScope(b.endpoint.app.value.name)
    ensures var i18n := map[I18nScope(a.endpoint.app.value.name) := map[key := text]];
      && Translate(TranslationsOf(a, i18n), key) == Some(text)
      && Translate(TranslationsOf(b, i18n), key) == Some("")
  {
  }

  /** The parameters of a route's operation (`RouteDoc#parameters`). */
  function OperationParams(b: Binding, cfg: DocConfig, i18n: I18n): seq<Param>
    requires Documentable(b)
  {
    HeaderParams(b.route.headers, TranslationsOf(b, i18n), cfg.markdown)
      + ParsedParams(b.route, TranslationsOf(b, i18n), cfg.markdown)
  }

  /** The response messages of a route's codes, in order. */
  function ResponseMessages(codes: seq<HttpCode>): (r: seq<ResponseMessage>)
    ensures |r| == |codes| && forall i :: 0 <= i < |codes| ==> r[i] == ResponseMessageOf(codes[i])
  {
    seq(|codes|, i requires 0 <= i < |codes| => ResponseMessageOf(codes[i]))
  }

  /** The operation hash of a route, given its parameters and response messages.
      A declared entity list, even an empty one, is truthy: the entity type is
      the name of its first element, and `parse_entity_name(nil)` of an empty
      list is the empty name. */
  function MakeOperation(route: Route, params: seq<Param>, messages: seq<ResponseMessage>, md: Markdown): (op: Operation)
    ensures op.httpMethod == route.httpMethod && op.voidType == "void" && op.parameters == params
    ensures op.summary == route.summary.GetOr("")
    ensures route.notes.None? ==> op.notes == ""
    ensures md.NoMarkdown? && route.notes.Some? ==> op.notes == route.notes.value
    ensures route.nickname.Some? ==> op.nickname == route.nickname.value
    ensures route.nickname.None? ==> op.nickname == DefaultNickname(route.httpMethod, route.path)
    ensures op.consumes.Some? <==> HasFileParam(params)
    ensures op.consumes.Some? ==> op.consumes.value == ["multipart/form-data"]
    ensures op.authorizations.Some? <==> route.authorizations.Some? && route.authorizations.value != map[]
    ensures op.authorizations.Some? ==> op.authorizations == route.authorizations
    ensures op.responseMessages.Some? <==> messages != []
    ensures op.responseMessages.Some? ==> op.responseMessages.value == messages
    ensures op.entityType.Some? <==> route.entity.Some?
    ensures route.entity.Some? && route.entity.value != [] ==> op.entityType == Some(ParseEntityName(route.entity.value[0]))
    ensures route.entity == Some([]) ==> op.entityType == Some("")
  {
    StrippedEmpty();
    Operation(
      AsMarkdown(route.notes, md).GetOr(""),
      route.summary.GetOr(""),
      route.nickname.GetOr(DefaultNickname(route.httpMethod, route.path)),
      route.httpMethod,
      params,
      "void",
      if route.authorizations.Some? && route.authorizations.value != map[] then route.authorizations else None,
      if HasFileParam(params) then Some(["multipart/form-data"]) else None,
      if messages != [] then Some(messages) else None,
      if route.entity.None? then None
      else if route.entity.value == [] then Some(StrippedModelName(""))
      else Some(ParseEntityName(route.entity.value[0])))
  }

  /** The operation `description` builds for one route. */
  function OperationOf(b: Binding, cfg: DocConfig, i18n: I18n): Operation
    requires Documentable(b)
  {
    MakeOperation(b.route, OperationParams(b, cfg, i18n), ResponseMessages(b.route.httpCodes), cfg.markdown)
  }

  /** The models one route adds: its response models, then its entities, each once. */
  function RouteModels(b: Binding): (r: seq<EntityRef>)
    ensures forall m :: m in r <==> m in CodeModels(b.route.httpCodes) || m in b.route.entity.GetOr([])
  {
    Nub(CodeModels(b.route.httpCodes) + b.route.entity.GetOr([]))
  }

  /** The operation of one route, and the models it adds. */
  method DescribeOperation(b: Binding, cfg: DocConfig, i18n: I18n) returns (op: Operation, extra: seq<EntityRef>)
    requires Documentable(b)
    ensures op == OperationOf(b, cfg, i18n)
    ensures extra == RouteModels(b)
  {
    var route := b.route;
    var tr := TranslationsOf(b, i18n);
    var params := Parameters(route, tr, cfg.markdown);
    var messages, codeModels := ParseHttpCodes(route.httpCodes);
    assert params == OperationParams(b, cfg, i18n);
    op := MakeOperation(route, params, messages, cfg.markdown);
    extra := Nub(codeModels + route.entity.GetOr([]));
  }

  // ---------------------------------------------------------------------------
  // models_with_included_presenters

  /** The position of the first entity in the registry with the given reference. */
  function Resolve(reg: seq<Entity>, ref: EntityRef): (r: Option<nat>)
    ensures r.Some? ==> r.value < |reg| && reg[r.value].ref == ref
    ensures r.None? ==> forall i :: 0 <= i < |reg| ==> reg[i].ref != ref
    decreases |reg|
  {
    if reg == [] then None
    else if reg[0].ref == ref then Some(0)
    else
      var r := Resolve(reg[1..], ref);
      if r.Some? then Some(r.value + 1) else None
  }

  /** The exposure `name` carries documentation and uses the entity `m`. */
  predicate DocumentedUsing(e: Entity, name: string, m: EntityRef) {
    name in e.exposures.entries && e.exposures.entries[name].documented && e.exposures.entries[name].using == Some(m)
  }

  /** The `:using` entities of the exposures that carry documentation, in
      exposure order. */
  function NestedRefs(e: Entity, n: nat): (r: seq<EntityRef>)
    requires e.exposures.Valid() && n <= |e.exposures.keys|
    ensures forall m :: m in r <==> exists i :: 0 <= i < n && DocumentedUsing(e, e.exposures.keys[i], m)
  {
    if n == 0 then []
    else
      var k := e.exposures.keys[n - 1];
      assert k in e.exposures.entries;
      var x := e.exposures.entries[k];
      NestedRefs(e, n - 1) + (if x.documented && x.using.Some? then [x.using.value] else [])
  }

  function Nested(e: Entity): seq<EntityRef>
    requires e.exposures.Valid()
  {
    NestedRefs(e, |e.exposures.keys|)
  }

  /** Each entity's documented exposures refer only to entities defined before
      it.  The recursion keeps no set of visited models, so a cycle would not
      terminate; this ordering rules cycles out. */
  ghost predicate Acyclic(reg: seq<Entity>) {
    forall i :: 0 <= i < |reg| ==> reg[i].exposures.Valid() && EarlierRefs(reg, Nested(reg[i]), i)
  }

  /** Every reference resolves to an entity before position `i`. */
  ghost predicate EarlierRefs(reg: seq<Entity>, refs: seq<EntityRef>, i: nat) {
    forall m :: m in refs ==> Resolve(reg, m).Some? && Resolve(reg, m).value < i
  }

  /** The models entity `i` includes, recursively: for each documented
      exposure, its entity followed by what that one includes. */
  function IncludedBy(reg: seq<Entity>, i: nat): (r: seq<EntityRef>)
    requires Acyclic(reg) && i < |reg|
    ensures EarlierRefs(reg, r, i)
    decreases i, 1
  {
    IncludedFrom(reg, i, Nested(reg[i]))
  }

  function IncludedFrom(reg: seq<Entity>, i: nat, refs: seq<EntityRef>): (r: seq<EntityRef>)
    requires Acyclic(reg) && i < |reg| && EarlierRefs(reg, refs, i)
    ensures EarlierRefs(reg, r, i)
    decreases i, 0, |refs|
  {
    if refs == [] then []
    else
      var j := Resolve(reg, refs[0]).value;
      var inner := IncludedBy(reg, j);
      assert EarlierRefs(reg, inner, i);
      assert EarlierRefs(reg, refs[1..], i) by {
        forall m | m in refs[1..] ensures m in refs { }
      }
      [refs[0]] + inner + IncludedFrom(reg, i, refs[1..])
  }

  /** Every model that can be resolved. */
  ghost predicate AllResolve(reg: seq<Entity>, models: seq<EntityRef>) {
    forall m :: m in models ==> Resolve(reg, m).Some?
  }

  /** `models_with_included_presenters`: what each model includes, in order. */
  function ModelsWithIncludedPresenters(reg: seq<Entity>, models: seq<EntityRef>): (r: seq<EntityRef>)
    requires Acyclic(reg) && AllResolve(reg, models)
    ensures AllResolve(reg, r)
    decreases |models|
  {
    if models == [] then []
    else
      var rest := ModelsWithIncludedPresenters(reg, models[1..]);
      var head := IncludedBy(reg, Resolve(reg, models[0]).value);
      head + rest
  }

  /** The references listed first in `IncludedFrom` are included. */
  lemma {:induction false} IncludedFromHeads(reg: seq<Entity>, i: nat, refs: seq<EntityRef>, m: EntityRef)
    requires Acyclic(reg) && i < |reg| && EarlierRefs(reg, refs, i) && m in refs
    ensures m in IncludedFrom(reg, i, refs)
    decreases |refs|
  {
    if refs[0] != m {
      assert m in refs[1..];
      assert EarlierRefs(reg, refs[1..], i) by {
        forall x | x in refs[1..] ensures x in refs { }
      }
      IncludedFromHeads(reg, i, refs[1..], m);
    }
  }

  /** Inclusion is closed: whatever an included model includes directly is
      included as well. */
  lemma {:induction false} IncludedClosed(reg: seq<Entity>, i: nat, x: EntityRef, y: EntityRef)
    requires Acyclic(reg) && i < |reg| && x in IncludedBy(reg, i)
    requires Resolve(reg, x).Some? && y in Nested(reg[Resolve(reg, x).value])
    ensures y in IncludedBy(reg, i)
    decreases i, 1
  {
    IncludedFromClosed(reg, i, Nested(reg[i]), x, y);
  }

  lemma {:induction false} IncludedFromClosed(reg: seq<Entity>, i: nat, refs: seq<EntityRef>, x: EntityRef, y: EntityRef)
    requires Acyclic(reg) && i < |reg| && EarlierRefs(reg, refs, i) && x in IncludedFrom(reg, i, refs)
    requires Resolve(reg, x).Some? && y in Nested(reg[Resolve(reg, x).value])
    ensures y in IncludedFrom(reg, i, refs)
    decreases i, 0, |refs|
  {
    var j := Resolve(reg, refs[0]).value;
    var inner := IncludedBy(reg, j);
    assert EarlierRefs(reg, refs[1..], i) by {
      forall m | m in refs[1..] ensures m in refs { }
    }
    var tail := IncludedFrom(reg, i, refs[1..]);
    assert IncludedFrom(reg, i, refs) == [refs[0]] + inner + tail;
    if x == refs[0] {
      IncludedFromHeads(reg, j, Nested(reg[j]), y);
      assert y in inner;
    } else if x in inner {
      IncludedClosed(reg, j, x, y);
    } else {
      IncludedFromClosed(reg, i, refs[1..], x, y);
    }
  }

  /** The included models, joined to the models themselves, are closed under
      inclusion: every documented exposure of every listed model is listed. */
  lemma {:induction false} PresentersClosed(reg: seq<Entity>, models: seq<EntityRef>, x: EntityRef, y: EntityRef)
    requires Acyclic(reg) && AllResolve(reg, models)
    requires x in models + ModelsWithIncludedPresenters(reg, models)
    requires y in Nested(reg[Resolve(reg, x).value])
    ensures y in ModelsWithIncludedPresenters(reg, models)
    decreases |models|
  {
    var m := models[0];
    var i := Resolve(reg, m).value;
    var rest := ModelsWithIncludedPresenters(reg, models[1..]);
    assert AllResolve(reg, models[1..]) by {
      forall z | z in models[1..] ensures z in models { }
    }
    assert ModelsWithIncludedPresenters(reg, models) == IncludedBy(reg, i) + rest;
    if x == m {
      IncludedFromHeads(reg, i, Nested(reg[i]), y);
    } else if x in IncludedBy(reg, i) {
      IncludedClosed(reg, i, x, y);
    } else {
      if x in models {
        assert x in models[1..];
      }
      PresentersClosed(reg, models[1..], x, y);
    }
  }

  /** Some model of `xs` resolves to an entity with a documented exposure using `y`. */
  ghost predicate ExposedBy(reg: seq<Entity>, xs: seq<EntityRef>, y: EntityRef) {
    exists x :: x in xs && Resolve(reg, x).Some? && reg[Resolve(reg, x).value].exposures.Valid()
      && y in Nested(reg[Resolve(reg, x).value])
  }

  /** What an entity includes is a direct documented exposure of it, or of
      something it includes. */
  lemma {:induction false} IncludedSound(reg: seq<Entity>, i: nat, y: EntityRef)
    requires Acyclic(reg) && i < |reg| && y in IncludedBy(reg, i)
    ensures y in Nested(reg[i]) || ExposedBy(reg, IncludedBy(reg, i), y)
    decreases i, 1
  {
    IncludedFromSound(reg, i, Nested(reg[i]), y);
  }

  lemma {:induction false} IncludedFromSound(reg: seq<Entity>, i: nat, refs: seq<EntityRef>, y: EntityRef)
    requires Acyclic(reg) && i < |reg| && EarlierRefs(reg, refs, i) && y in IncludedFrom(reg, i, refs)
    ensures y in refs || ExposedBy(reg, IncludedFrom(reg, i, refs), y)
    decreases i, 0, |refs|
  {
    var j := Resolve(reg, refs[0]).value;
    var inner := IncludedBy(reg, j);
    assert EarlierRefs(reg, refs[1..], i) by {
      forall m | m in refs[1..] ensures m in refs { }
    }
    var tail := IncludedFrom(reg, i, refs[1..]);
    var whole := IncludedFrom(reg, i, refs);
    assert whole == [refs[0]] + inner + tail;
    if y == refs[0] {
    } else if y in inner {
      IncludedSound(reg, j, y);
      if y in Nested(reg[j]) {
        assert refs[0] in whole;
      } else {
        var x :| x in inner && Resolve(reg, x).Some? && reg[Resolve(reg, x).value].exposures.Valid()
          && y in Nested(reg[Resolve(reg, x).value]);
        assert x in whole;
      }
    } else {
      assert y in tail;
      IncludedFromSound(reg, i, refs[1..], y);
      if y in refs[1..] {
        assert y in refs;
      } else {
        var x :| x in tail && Resolve(reg, x).Some? && reg[Resolve(reg, x).value].exposures.Valid()
          && y in Nested(reg[Resolve(reg, x).value]);
        assert x in whole;
      }
    }
  }

  /** Only reachable models are added: each included model is a documented
      exposure of a given or included model. With `PresentersClosed` this makes
      the result exactly the models reachable through documented exposures. */
  lemma {:induction false} PresentersSound(reg: seq<Entity>, models: seq<EntityRef>, y: EntityRef)
    requires Acyclic(reg) && AllResolve(reg, models)
    requires y in ModelsWithIncludedPresenters(reg, models)
    ensures ExposedBy(reg, models + ModelsWithIncludedPresenters(reg, models), y)
    decreases |models|
  {
    var m := models[0];
    var i := Resolve(reg, m).value;
    assert AllResolve(reg, models[1..]) by {
      forall z | z in models[1..] ensures z in models { }
    }
    var rest := ModelsWithIncludedPresenters(reg, models[1..]);
    var all := models + ModelsWithIncludedPresenters(reg, models);
    assert ModelsWithIncludedPresenters(reg, models) == IncludedBy(reg, i) + rest;
    if y in IncludedBy(reg, i) {
      IncludedSound(reg, i, y);
      if y in Nested(reg[i]) {
        assert m in all;
      } else {
        var x :| x in IncludedBy(reg, i) && Resolve(reg, x).Some? && reg[Resolve(reg, x).value].exposures.Valid()
          && y in Nested(reg[Resolve(reg, x).value]);
        assert x in all;
      }
    } else {
      PresentersSound(reg, models[1..], y);
      var x :| x in models[1..] + rest && Resolve(reg, x).Some? && reg[Resolve(reg, x).value].exposures.Valid()
        && y in Nested(reg[Resolve(reg, x).value]);
      assert x in all;
    }
  }

  // ---------------------------------------------------------------------------
  // parse_entity_models

  /** One entry of the `models` hash. */
  datatype ModelSchema = ModelSchema(id: string, properties: Dict<string, Property>, required: Option<seq<string>>)

  /** Every entity of the registry can be rendered. */
  ghost predicate RenderableAll(reg: seq<Entity>) {
    forall i :: 0 <= i < |reg| ==> Renderable(reg[i])
  }

  /** The translations of one model's properties: those in the scope of the
      model's class name. */
  function TableOf(i18n: I18n, e: Entity): map<string, string> {
    ScopeTable(i18n, I18nScope(e.ref.name))
  }

  /** The schema `parse_entity_models` writes for one model: its id, its
      properties, and its required names when there are any. */
  function SchemaOf(e: Entity, i18n: I18n): (r: ModelSchema)
    requires Renderable(e)
    ensures r.id == Id(e)
    ensures r.required.Some? <==> RequiredProperties(e) != []
    ensures r.required.Some? ==> r.required.value == RequiredProperties(e)
    ensures r.properties == PropertiesUpTo(e, TableOf(i18n, e), |e.documentation.keys|)
  {
    var required := RequiredProperties(e);
    ModelSchema(Id(e), PropertiesUpTo(e, TableOf(i18n, e), |e.documentation.keys|),
                if required != [] then Some(required) else None)
  }

  /** The entity a model reference stands for. */
  function EntityOf(reg: seq<Entity>, m: EntityRef): Entity
    requires Resolve(reg, m).Some?
  {
    reg[Resolve(reg, m).value]
  }

  /** The names of the models, in order. */
  function ModelNames(reg: seq<Entity>, models: seq<EntityRef>): (r: seq<string>)
    requires AllResolve(reg, models)
    ensures |r| == |models| && forall i :: 0 <= i < |models| ==> r[i] == Name(EntityOf(reg, models[i]))
  {
    seq(|models|, i requires 0 <= i < |models| => Name(EntityOf(reg, models[i])))
  }

  /** The schemas of the models, in order. */
  function ModelSchemas(reg: seq<Entity>, models: seq<EntityRef>, i18n: I18n): (r: seq<ModelSchema>)
    requires RenderableAll(reg) && AllResolve(reg, models)
    ensures |r| == |models| && forall i :: 0 <= i < |models| ==> r[i] == SchemaOf(EntityOf(reg, models[i]), i18n)
  {
    seq(|models|, i requires 0 <= i < |models| => SchemaOf(EntityOf(reg, models[i]), i18n))
  }

  /** The hash `parse_entity_models` builds: each model's schema assigned to its name in turn. */
  function EntityModels(reg: seq<Entity>, models: seq<EntityRef>, i18n: I18n)
    : Dict<string, ModelSchema>
    requires RenderableAll(reg) && AllResolve(reg, models)
  {
    Assigned(ModelNames(reg, models), ModelSchemas(reg, models, i18n), |models|)
  }

  /** `parse_entity_models`: one entry per model name; a later model with the
      same name overwrites an earlier one. */
  method ParseEntityModels(reg: seq<Entity>, models: seq<EntityRef>, i18n: I18n)
    returns (result: Dict<string, ModelSchema>)
    requires RenderableAll(reg) && AllResolve(reg, models)
    ensures result == EntityModels(reg, models, i18n)
  {
    ghost var names := ModelNames(reg, models);
    ghost var schemas := ModelSchemas(reg, models, i18n);
    result := Dict([], map[]);
    for i := 0 to |models|
      invariant result == Assigned(names, schemas, i)
    {
      var doc := EntityOf(reg, models[i]);
      var props := Properties(doc, TableOf(i18n, doc));
      var required := RequiredProperties(doc);
      result := result.Put(Name(doc), ModelSchema(Id(doc), props, if required != [] then Some(required) else None));
    }
  }

  /** A name is keyed exactly when some model has it, and it holds the schema
      of the last model with that name. */
  lemma EntityModelsEntry(reg: seq<Entity>, models: seq<EntityRef>, i18n: I18n, name: string)
    requires RenderableAll(reg) && AllResolve(reg, models)
    ensures name in EntityModels(reg, models, i18n).entries <==> name in ModelNames(reg, models)
    ensures name in EntityModels(reg, models, i18n).entries ==>
      exists i: nat :: LastAt(ModelNames(reg, models), |models|, name, i) &&
        EntityModels(reg, models, i18n).entries[name] == SchemaOf(EntityOf(reg, models[i]), i18n)
  {
    var names := ModelNames(reg, models);
    var schemas := ModelSchemas(reg, models, i18n);
    var d := EntityModels(reg, models, i18n);
    AssignedMember(names, schemas, |models|, name);
    assert names[..|models|] == names;
    if name in d.entries {
      AssignedEntry(names, schemas, |models|, name);
      var i: nat :| LastAt(names, |models|, name, i) && d.entries[name] == schemas[i];
      assert d.entries[name] == SchemaOf(EntityOf(reg, models[i]), i18n);
    }
  }

  // ---------------------------------------------------------------------------
  // description

  /** One entry of `apis`: a Swagger path and the operations grouped under it. */
  datatype ApiEntry = ApiEntry(path: string, operations: seq<Operation>)

  /** The API declaration of one resource.  `produces` and `basePath` depend on
      the formatter registry and the request and are not part of this record. */
  datatype ApiDeclaration = ApiDeclaration(
    apiVersion: Option<string>,
    swaggerVersion: string,
    resourcePath: string,
    apis: seq<ApiEntry>,
    models: Option<Dict<string, ModelSchema>>,
    authorizations: Option<map<string, string>>)

  /** The models collected from `initial` and the routes of `bs`, each once, in
      order of first mention (`models |= ...` per route). */
  function ModelsFrom(initial: seq<EntityRef>, bs: seq<Binding>): seq<EntityRef>
    decreases |bs|
  {
    if bs == [] then initial
    else Nub(ModelsFrom(initial, bs[..|bs| - 1]) + RouteModels(bs[|bs| - 1]))
  }

  /** A model is collected exactly when it was there to begin with or some
      route names it. */
  lemma {:induction false} ModelsFromMember(initial: seq<EntityRef>, bs: seq<Binding>, m: EntityRef)
    ensures m in ModelsFrom(initial, bs) <==> m in initial || exists i :: 0 <= i < |bs| && m in RouteModels(bs[i])
    decreases |bs|
  {
    if bs != [] {
      var init := bs[..|bs| - 1];
      ModelsFromMember(initial, init, m);
      if i :| 0 <= i < |bs| && m in RouteModels(bs[i]) {
        if i < |init| {
          assert init[i] == bs[i];
        }
      }
      if i :| 0 <= i < |init| && m in RouteModels(init[i]) {
        assert init[i] == bs[i];
      }
    }
  }

  /** Collecting over two stretches of routes is collecting over the first,
      then continuing from its result over the second. */
  lemma {:induction false} ModelsFromAppend(initial: seq<EntityRef>, a: seq<Binding>, b: seq<Binding>)
    ensures ModelsFrom(initial, a + b) == ModelsFrom(ModelsFrom(initial, a), b)
    decreases |b|
  {
    if b == [] {
      assert a + b == a;
    } else {
      assert (a + b)[..|a + b| - 1] == a + b[..|b| - 1];
      ModelsFromAppend(initial, a, b[..|b| - 1]);
    }
  }

  /** One more route. */
  lemma ModelsFromSnoc(initial: seq<EntityRef>, bs: seq<Binding>, j: nat)
    requires j < |bs|
    ensures ModelsFrom(initial, bs[..j + 1]) == Nub(ModelsFrom(initial, bs[..j]) + RouteModels(bs[j]))
  {
    assert bs[..j + 1][..j] == bs[..j];
  }

  /** Every route of `bs` can be documented and names only known models. */
  ghost predicate Describable(reg: seq<Entity>, bs: seq<Binding>) {
    forall b :: b in bs ==> Documentable(b) && AllResolve(reg, RouteModels(b))
  }

  /** The operation of a route, as a partial function of the route. */
  function OperationFn(cfg: DocConfig, i18n: I18n): Binding --> Operation {
    b requires Documentable(b) => OperationOf(b, cfg, i18n)
  }

  /** The operations of a group, in route order. */
  function GroupOps(bs: seq<Binding>, cfg: DocConfig, i18n: I18n): (r: seq<Operation>)
    requires forall b :: b in bs ==> Documentable(b)
  {
    MapSeq(bs, OperationFn(cfg, i18n))
  }

  /** The operations of one group, and the models collected so far. */
  method DescribeGroup(bs: seq<Binding>, cfg: DocConfig, i18n: I18n, models: seq<EntityRef>)
    returns (ops: seq<Operation>, collected: seq<EntityRef>)
    requires forall b :: b in bs ==> Documentable(b)
    ensures ops == GroupOps(bs, cfg, i18n)
    ensures collected == ModelsFrom(models, bs)
  {
    ops := [];
    collected := models;
    for j := 0 to |bs|
      invariant ops == GroupOps(bs[..j], cfg, i18n)
      invariant collected == ModelsFrom(models, bs[..j])
    {
      var op, extra := DescribeOperation(bs[j], cfg, i18n);
      ModelsFromSnoc(models, bs, j);
      MapSeqSnoc(bs, OperationFn(cfg, i18n), j);
      ops := ops + [op];
      collected := Nub(collected + extra);
    }
    assert bs[..|bs|] == bs;
  }

  /** The routes of the first `n` groups, group after group. */
  function Flat(groups: Dict<string, seq<Binding>>, n: nat): seq<Binding>
    requires groups.Valid() && n <= |groups.keys|
  {
    if n == 0 then []
    else
      var k := groups.keys[n - 1];
      assert k in groups.entries;
      Flat(groups, n - 1) + groups.entries[k]
  }

  /** A route of the first `n` groups belongs to one of them. */
  lemma {:induction false} FlatMember(groups: Dict<string, seq<Binding>>, n: nat, b: Binding)
    requires groups.Valid() && n <= |groups.keys| && b in Flat(groups, n)
    ensures exists i :: 0 <= i < n && groups.keys[i] in groups.entries && b in groups.entries[groups.keys[i]]
  {
    var k := groups.keys[n - 1];
    assert k in groups.entries;
    assert Flat(groups, n) == Flat(groups, n - 1) + groups.entries[k];
    if b !in groups.entries[k] {
      FlatMember(groups, n - 1, b);
      var i :| 0 <= i < n - 1 && groups.keys[i] in groups.entries && b in groups.entries[groups.keys[i]];
    }
  }

  /** Every route of every group can be documented. */
  ghost predicate GroupsDocumentable(groups: Dict<string, seq<Binding>>) {
    forall k, b :: k in groups.entries && b in groups.entries[k] ==> Documentable(b)
  }

  /** The `apis` entry of the `i`-th group: its path and its operations. */
  function ApiOf(groups: Dict<string, seq<Binding>>, cfg: DocConfig, i18n: I18n, i: nat): (r: ApiEntry)
    requires groups.Valid() && GroupsDocumentable(groups) && i < |groups.keys|
    ensures r.path == groups.keys[i]
  {
    var k := groups.keys[i];
    assert k in groups.entries;
    ApiEntry(k, GroupOps(groups.entries[k], cfg, i18n))
  }

  /** The `apis` entries, one per group, in group order. */
  function Apis(groups: Dict<string, seq<Binding>>, cfg: DocConfig, i18n: I18n): (r: seq<ApiEntry>)
    requires groups.Valid() && GroupsDocumentable(groups)
    ensures |r| == |groups.keys|
    ensures forall i :: 0 <= i < |r| ==> r[i] == ApiOf(groups, cfg, i18n, i)
  {
    seq(|groups.keys|, i requires 0 <= i < |groups.keys| => ApiOf(groups, cfg, i18n, i))
  }

  /** Every route of a group is a visible route of the bucket. */
  lemma GroupMembersVisible(routes: seq<Binding>, cfg: DocConfig, key: string, b: Binding)
    requires key in GroupedOperations(routes, cfg).entries && b in GroupedOperations(routes, cfg).entries[key]
    ensures b in VisibleOperations(routes)
  {
    GroupedOperationsFacts(routes, cfg, key);
    FilterMember(VisibleOperations(routes), b => OperationPath(b, cfg) == key, b);
  }

  /** The models of the declaration: the configured ones and the ones the
      visible routes name, then every model those include; each once. */
  function DeclarationModels(reg: seq<Entity>, docModels: seq<EntityRef>, groups: Dict<string, seq<Binding>>): (r: seq<EntityRef>)
    requires Acyclic(reg) && groups.Valid()
    requires AllResolve(reg, ModelsFrom(Nub(docModels), Flat(groups, |groups.keys|)))
    ensures AllResolve(reg, r)
    ensures var collected := ModelsFrom(Nub(docModels), Flat(groups, |groups.keys|));
      forall m :: m in r <==> m in collected || m in ModelsWithIncludedPresenters(reg, collected)
  {
    var collected := ModelsFrom(Nub(docModels), Flat(groups, |groups.keys|));
    Nub(collected + ModelsWithIncludedPresenters(reg, collected))
  }

  /** The routes of resource `routesName`: `combined_namespace_routes[routes_name] || []`. */
  function RoutesOf(routesName: string, combined: Dict<string, seq<Binding>>): seq<Binding> {
    combined.Get(routesName, [])
  }

  /** Grouping keeps every route documentable and every model resolvable. */
  lemma DescribableGroups(reg: seq<Entity>, routes: seq<Binding>, cfg: DocConfig, docModels: seq<EntityRef>)
    requires Describable(reg, routes) && AllResolve(reg, docModels)
    ensures var groups := GroupedOperations(routes, cfg);
      && GroupsDocumentable(groups)
      && AllResolve(reg, ModelsFrom(Nub(docModels), Flat(groups, |groups.keys|)))
  {
    var groups := GroupedOperations(routes, cfg);
    forall k, b | k in groups.entries && b in groups.entries[k] ensures b in routes {
      GroupMembersVisible(routes, cfg, k, b);
    }
    var all := Flat(groups, |groups.keys|);
    forall m | m in ModelsFrom(Nub(docModels), all) ensures Resolve(reg, m).Some? {
      ModelsFromMember(Nub(docModels), all, m);
      if m !in Nub(docModels) {
        var i :| 0 <= i < |all| && m in RouteModels(all[i]);
        FlatMember(groups, |groups.keys|, all[i]);
        var j :| 0 <= j < |groups.keys| && groups.keys[j] in groups.entries && all[i] in groups.entries[groups.keys[j]];
        assert all[i] in routes;
      }
    }
  }

  /** Everything `description` needs of its inputs: models that include one
      another without cycles, renderable entities, and routes that can be
      documented and name only known models. */
  ghost predicate DescriptionReady(reg: seq<Entity>, docModels: seq<EntityRef>, routes: seq<Binding>) {
    Acyclic(reg) && RenderableAll(reg) && AllResolve(reg, docModels) && Describable(reg, routes)
  }

  /** The API declaration `description` returns for resource `routesName`. */
  function Declaration(routesName: string, combined: Dict<string, seq<Binding>>, idents: Dict<string, string>,
                       reg: seq<Entity>, docModels: seq<EntityRef>, cfg: DocConfig,
                       i18n: I18n): (r: ApiDeclaration)
    requires DescriptionReady(reg, docModels, RoutesOf(routesName, combined))
  {
    var groups := GroupedOperations(RoutesOf(routesName, combined), cfg);
    DescribableGroups(reg, RoutesOf(routesName, combined), cfg, docModels);
    var models := DeclarationModels(reg, docModels, groups);
    ApiDeclaration(cfg.apiVersion, "1.2", ResourcePath(routesName, idents), Apis(groups, cfg, i18n),
                   if models == [] then None else Some(EntityModels(reg, models, i18n)), cfg.authorizations)
  }

  /** The routes of the first `n + 1` groups extend those of the first `n`. */
  lemma FlatNext(groups: Dict<string, seq<Binding>>, n: nat)
    requires groups.Valid() && n < |groups.keys|
    ensures groups.keys[n] in groups.entries
    ensures Flat(groups, n + 1) == Flat(groups, n) + groups.entries[groups.keys[n]]
  {
    assert groups.keys[n] in groups.entries;
  }

  /** The loop of `description` over the groups: the `apis` entries, and the
      models named so far. */
  method DescribeGroups(groups: Dict<string, seq<Binding>>, cfg: DocConfig, i18n: I18n, initial: seq<EntityRef>)
    returns (apis: seq<ApiEntry>, models: seq<EntityRef>)
    requires groups.Valid() && GroupsDocumentable(groups)
    ensures apis == Apis(groups, cfg, i18n)
    ensures models == ModelsFrom(initial, Flat(groups, |groups.keys|))
  {
    models := initial;
    apis := [];
    for i := 0 to |groups.keys|
      invariant DescribedUpTo(groups, cfg, i18n, initial, i, apis, models)
    {
      GroupAt(groups, cfg, i18n, i);
      var path := groups.keys[i];
      var ops, collected := DescribeGroup(groups.entries[path], cfg, i18n, models);
      DescribeStep(groups, cfg, i18n, initial, i, apis, models, ops, collected);
      apis := apis + [ApiEntry(path, ops)];
      models := collected;
    }
    assert Apis(groups, cfg, i18n)[..|groups.keys|] == Apis(groups, cfg, i18n);
  }

  /** The `apis` entries and the models after the first `i` groups. */
  ghost predicate DescribedUpTo(groups: Dict<string, seq<Binding>>, cfg: DocConfig, i18n: I18n,
                                initial: seq<EntityRef>, i: nat, apis: seq<ApiEntry>, models: seq<EntityRef>)
    requires groups.Valid() && GroupsDocumentable(groups)
  {
    i <= |groups.keys| && apis == Apis(groups, cfg, i18n)[..i] && models == ModelsFrom(initial, Flat(groups, i))
  }

  /** Describing the `i`-th group extends the state after the first `i`. */
  lemma DescribeStep(groups: Dict<string, seq<Binding>>, cfg: DocConfig, i18n: I18n,
                     initial: seq<EntityRef>, i: nat, apis: seq<ApiEntry>, models: seq<EntityRef>,
                     ops: seq<Operation>, collected: seq<EntityRef>)
    requires groups.Valid() && GroupsDocumentable(groups) && i < |groups.keys|
    requires DescribedUpTo(groups, cfg, i18n, initial, i, apis, models)
    requires groups.keys[i] in groups.entries
    requires ops == GroupOps(groups.entries[groups.keys[i]], cfg, i18n)
    requires collected == ModelsFrom(models, groups.entries[groups.keys[i]])
    ensures DescribedUpTo(groups, cfg, i18n, initial, i + 1, apis + [ApiEntry(groups.keys[i], ops)], collected)
  {
    GroupAt(groups, cfg, i18n, i);
    ModelsNext(groups, initial, i);
    ApisNext(groups, cfg, i18n, i);
  }

  /** Collecting over the first `i + 1` groups continues from the first `i`
      over the `i`-th. */
  lemma ModelsNext(groups: Dict<string, seq<Binding>>, initial: seq<EntityRef>, i: nat)
    requires groups.Valid() && i < |groups.keys|
    ensures groups.keys[i] in groups.entries
    ensures ModelsFrom(initial, Flat(groups, i + 1)) == ModelsFrom(ModelsFrom(initial, Flat(groups, i)), groups.entries[groups.keys[i]])
  {
    FlatNext(groups, i);
    ModelsFromAppend(initial, Flat(groups, i), groups.entries[groups.keys[i]]);
  }

  /** The first `i + 1` `apis` entries extend the first `i` by the `i`-th. */
  lemma ApisNext(groups: Dict<string, seq<Binding>>, cfg: DocConfig, i18n: I18n, i: nat)
    requires groups.Valid() && GroupsDocumentable(groups) && i < |groups.keys|
    ensures Apis(groups, cfg, i18n)[..i + 1] == Apis(groups, cfg, i18n)[..i] + [ApiOf(groups, cfg, i18n, i)]
  {
    var a := Apis(groups, cfg, i18n);
    assert a[i] == ApiOf(groups, cfg, i18n, i);
    assert a[..i + 1] == a[..i] + [a[i]];
  }

  /** The `i`-th group: documentable, and its `apis` entry. */
  lemma GroupAt(groups: Dict<string, seq<Binding>>, cfg: DocConfig, i18n: I18n, i: nat)
    requires groups.Valid() && GroupsDocumentable(groups) && i < |groups.keys|
    ensures groups.keys[i] in groups.entries
    ensures forall b :: b in groups.entries[groups.keys[i]] ==> Documentable(b)
    ensures ApiOf(groups, cfg, i18n, i) == ApiEntry(groups.keys[i], GroupOps(groups.entries[groups.keys[i]], cfg, i18n))
  {
    assert groups.keys[i] in groups.entries;
  }

  /** The declaration in terms of the groups of the resource's routes. */
  lemma DeclarationUnfold(routesName: string, combined: Dict<string, seq<Binding>>, idents: Dict<string, string>,
                          reg: seq<Entity>, docModels: seq<EntityRef>, cfg: DocConfig,
                          i18n: I18n)
    requires DescriptionReady(reg, docModels, RoutesOf(routesName, combined))
    ensures var groups := GroupedOperations(RoutesOf(routesName, combined), cfg);
      && GroupsDocumentable(groups)
      && AllResolve(reg, ModelsFrom(Nub(docModels), Flat(groups, |groups.keys|)))
      && var models := DeclarationModels(reg, docModels, groups);
         Declaration(routesName, combined, idents, reg, docModels, cfg, i18n)
           == ApiDeclaration(cfg.apiVersion, "1.2", ResourcePath(routesName, idents), Apis(groups, cfg, i18n),
                             if models == [] then None else Some(EntityModels(reg, models, i18n)), cfg.authorizations)
  {
    DescribableGroups(reg, RoutesOf(routesName, combined), cfg, docModels);
  }

  /** The declaration's `apis`: no path twice, an entry for a path exactly
      when some visible route has it, and that entry holds the operations of
      exactly the visible routes with that path, in bucket order. */
  lemma DeclarationApis(routesName: string, combined: Dict<string, seq<Binding>>, idents: Dict<string, string>,
                        reg: seq<Entity>, docModels: seq<EntityRef>, cfg: DocConfig,
                        i18n: I18n, key: string)
    requires DescriptionReady(reg, docModels, RoutesOf(routesName, combined))
    ensures var apis := Declaration(routesName, combined, idents, reg, docModels, cfg, i18n).apis;
      var withKey := Filter(VisibleOperations(RoutesOf(routesName, combined)), b => OperationPath(b, cfg) == key);
      && (forall i, j :: 0 <= i < j < |apis| ==> apis[i].path != apis[j].path)
      && ((exists i :: 0 <= i < |apis| && apis[i].path == key) <==> withKey != [])
      && (forall b :: b in withKey ==> Documentable(b))
      && (forall i :: 0 <= i < |apis| && apis[i].path == key ==> apis[i].operations == GroupOps(withKey, cfg, i18n))
  {
    var routes := RoutesOf(routesName, combined);
    DeclarationUnfold(routesName, combined, idents, reg, docModels, cfg, i18n);
    var groups := GroupedOperations(routes, cfg);
    var visible := VisibleOperations(routes);
    var p := b => OperationPath(b, cfg) == key;
    GroupedOperationsFacts(routes, cfg, key);
    GroupUpToDistinct(visible, b => OperationPath(b, cfg), |visible|);
    forall b | b in Filter(visible, p) ensures Documentable(b) {
      FilterMember(visible, p, b);
    }
    if key in groups.entries {
      assert key in groups.keys;
      var i :| 0 <= i < |groups.keys| && groups.keys[i] == key;
      assert Apis(groups, cfg, i18n)[i].path == key;
    }
  }

  /** `description`: one `apis` entry per group of visible routes, collecting
      the models the operations name; then the included models, and the
      schemas of all of them. */
  method Description(routesName: string, combined: Dict<string, seq<Binding>>, idents: Dict<string, string>,
                     reg: seq<Entity>, docModels: seq<EntityRef>, cfg: DocConfig,
                     i18n: I18n)
    returns (decl: ApiDeclaration)
    requires DescriptionReady(reg, docModels, RoutesOf(routesName, combined))
    ensures decl == Declaration(routesName, combined, idents, reg, docModels, cfg, i18n)
  {
    DeclarationUnfold(routesName, combined, idents, reg, docModels, cfg, i18n);
    var groups := GroupedOperations(RoutesOf(routesName, combined), cfg);
    var apis, models := DescribeGroups(groups, cfg, i18n, Nub(docModels));
    models := Nub(models + ModelsWithIncludedPresenters(reg, models));
    var schemas: Option<Dict<string, ModelSchema>> := None;
    if models != [] {
      var parsed := ParseEntityModels(reg, models, i18n);
      schemas := Some(parsed);
    }
    decl := ApiDeclaration(cfg.apiVersion, "1.2", ResourcePath(routesName, idents), apis, schemas, cfg.authorizations);
  }
}
