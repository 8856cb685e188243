/**
 * The resource listing (lib/grape-swagger/documentation/api_doc.rb): one
 * entry per resource bucket that has a visible route, in bucket order, each
 * with its path and its description; the documentation's own bucket can be
 * left out.
 */
module ApiDoc {
  import opened Support
  import opened Records
  import opened GrapeSwagger
  import opened EndpointDoc

  /** One entry of the listing's `apis`. */
  datatype ListingEntry = ListingEntry(path: string, description: string)

  /** The resource listing.  `produces` depends on the formatter registry and
      `info` on the translations of the running application; neither is part
      of this record. */
  datatype ResourceListing = ResourceListing(
    apiVersion: Option<string>,
    swaggerVersion: string,
    apis: seq<ListingEntry>,
    authorizations: Option<map<string, string>>)

  // ---------------------------------------------------------------------------
  // hide_documentation_path

  /** The bucket belongs to the documentation's own route: `"/key/"` begins
      with the mount path, parsed without a version, and a slash. */
  predicate DocumentationRoute(key: string, cfg: DocConfig) {
    StartsWith("/" + key + "/", ParsePath(cfg.mountPath, None, cfg.hideFormat) + "/")
  }

  function DocumentationRouteOf(cfg: DocConfig): string -> bool {
    key => DocumentationRoute(key, cfg)
  }

  /** The buckets the listing goes through: all of them, or with
      `hide_documentation_path` all but the documentation's own. */
  function ListedRoutes(routes: Dict<string, seq<Binding>>, cfg: DocConfig): Dict<string, seq<Binding>> {
    if cfg.hideDocumentationPath then Rejected(routes, DocumentationRouteOf(cfg)) else routes
  }

  /** The `reject!` on the copy of the namespace routes: every bucket of the
      documentation's own route is deleted, the others stay in their order. */
  method RejectDocumentationRoutes(routes: Dict<string, seq<Binding>>, cfg: DocConfig)
    returns (kept: Dict<string, seq<Binding>>)
    requires routes.Valid()
    ensures kept == Rejected(routes, DocumentationRouteOf(cfg))
  {
    var drop := DocumentationRouteOf(cfg);
    kept := routes;
    RejectStart(routes, drop);
    for i := 0 to |routes.keys|
      invariant RejectedUpTo(routes, drop, i, kept)
    {
      var key := routes.keys[i];
      if DocumentationRoute(key, cfg) {
        RejectStep(routes, drop, i, kept, kept.Remove(key));
        kept := kept.Remove(key);
      } else {
        RejectStep(routes, drop, i, kept, kept);
      }
    }
    RejectDone(routes, drop, kept);
  }

  /** Survives the first `i` turns of the `reject!`: not among the first `i`
      keys, or not rejected. */
  function SurvivesUpTo(keys: seq<string>, drop: string -> bool, i: nat): string -> bool
    requires i <= |keys|
  {
    k => !(k in keys[..i] && drop(k))
  }

  /** The state of the `reject!` after the first `i` keys: every key and
      entry except the rejected ones among the visited keys. */
  ghost predicate RejectedUpTo(routes: Dict<string, seq<Binding>>, drop: string -> bool, i: nat,
                               kept: Dict<string, seq<Binding>>) {
    i <= |routes.keys|
    && kept.keys == Filter(routes.keys, SurvivesUpTo(routes.keys, drop, i))
    && kept.entries == map k | k in routes.entries && SurvivesUpTo(routes.keys, drop, i)(k) :: routes.entries[k]
  }

  /** Before the first key nothing is rejected. */
  lemma RejectStart(routes: Dict<string, seq<Binding>>, drop: string -> bool)
    ensures RejectedUpTo(routes, drop, 0, routes)
  {
    FilterAll(routes.keys, SurvivesUpTo(routes.keys, drop, 0));
  }

  /** Visiting the `i`-th key: deleting it when rejected. */
  lemma RejectStep(routes: Dict<string, seq<Binding>>, drop: string -> bool, i: nat,
                   kept: Dict<string, seq<Binding>>, next: Dict<string, seq<Binding>>)
    requires i < |routes.keys| && RejectedUpTo(routes, drop, i, kept)
    requires next == if drop(routes.keys[i]) then kept.Remove(routes.keys[i]) else kept
    ensures RejectedUpTo(routes, drop, i + 1, next)
  {
    var keys := routes.keys;
    var key := keys[i];
    var before := SurvivesUpTo(keys, drop, i);
    var after := SurvivesUpTo(keys, drop, i + 1);
    assert keys[..i + 1] == keys[..i] + [key];
    if drop(key) {
      FilterFilter(keys, before, Except(key), after);
    } else {
      FilterCongruent(keys, before, after);
    }
  }

  /** After the last key the state is the rejected dictionary. */
  lemma RejectDone(routes: Dict<string, seq<Binding>>, drop: string -> bool, kept: Dict<string, seq<Binding>>)
    requires routes.Valid() && RejectedUpTo(routes, drop, |routes.keys|, kept)
    ensures kept == Rejected(routes, drop)
  {
    assert routes.keys[..|routes.keys|] == routes.keys;
    FilterCongruent(routes.keys, SurvivesUpTo(routes.keys, drop, |routes.keys|), Not(drop));
    assert forall k :: k in routes.entries ==> k in routes.keys;
  }

  // ---------------------------------------------------------------------------
  // Entries

  /** Every route of the bucket is hidden; an empty bucket counts as such. */
  predicate AllHidden(bs: seq<Binding>) {
    forall b :: b in bs ==> Hidden(b)
  }

  /** The bucket under `key` has a route that is not hidden. */
  function HasVisibleRoute(routes: Dict<string, seq<Binding>>): string -> bool {
    key => key in routes.entries && !AllHidden(routes.entries[key])
  }

  /** The keys that get an entry, in bucket order (`map` then `compact`). */
  function ListedKeys(routes: Dict<string, seq<Binding>>): seq<string> {
    Filter(routes.keys, HasVisibleRoute(routes))
  }

  /** The namespace a bucket stands for: the one its identifier was recorded
      for, else the bucket's key itself. */
  function OriginalName(key: string, idents: Dict<string, string>): string {
    if key in idents.entries then idents.entries[key] else key
  }

  /** The entry's description: the namespace's `desc` (called when it is a
      callable), else "Operations about" and the namespace name in the plural.
      `pluralize` is the inflector, a parameter of the model. */
  function ListingDescription(key: string, idents: Dict<string, string>, nss: Dict<string, Namespace>,
                              pluralize: string -> string): (r: string)
    ensures var name := OriginalName(key, idents);
      if name in nss.entries && nss.entries[name].desc.Some?
      then r == nss.entries[name].desc.value.Force()
      else r == "Operations about " + pluralize(name)
  {
    var name := OriginalName(key, idents);
    if name in nss.entries && nss.entries[name].desc.Some? then nss.entries[name].desc.value.Force()
    else "Operations about " + pluralize(name)
  }

  /** The path of the bucket's entry: a slash, the key, and the format
      placeholder unless formats are hidden. */
  function ListingPath(key: string, cfg: DocConfig): (r: string)
    ensures |r| == 1 + |key| + |FormatSuffix(cfg.hideFormat)|
    ensures r[0] == '/' && r[1..1 + |key|] == key
  {
    "/" + key + FormatSuffix(cfg.hideFormat)
  }

  /** Different buckets never share an entry path. */
  lemma ListingPathInjective(k1: string, k2: string, cfg: DocConfig)
    requires ListingPath(k1, cfg) == ListingPath(k2, cfg)
    ensures k1 == k2
  {
  }

  function EntryOf(idents: Dict<string, string>, nss: Dict<string, Namespace>, cfg: DocConfig,
                   pluralize: string -> string): string -> ListingEntry {
    key => ListingEntry(ListingPath(key, cfg), ListingDescription(key, idents, nss, pluralize))
  }

  /** `authorizations`, kept only when it is given and not empty. */
  function ListingAuthorizations(cfg: DocConfig): (r: Option<map<string, string>>)
    ensures r.Some? <==> cfg.authorizations.Some? && |cfg.authorizations.value| > 0
    ensures r.Some? ==> r == cfg.authorizations
  {
    if cfg.authorizations.Some? && |cfg.authorizations.value| > 0 then cfg.authorizations else None
  }

  /** The listing `description` returns. */
  function Listing(routes: Dict<string, seq<Binding>>, idents: Dict<string, string>, nss: Dict<string, Namespace>,
                   cfg: DocConfig, pluralize: string -> string): ResourceListing
  {
    var apis := MapSeq(ListedKeys(ListedRoutes(routes, cfg)), EntryOf(idents, nss, cfg, pluralize));
    ResourceListing(cfg.apiVersion, "1.2", apis, ListingAuthorizations(cfg))
  }

  /** `description`: `routes` are the combined namespace routes, `idents` the
      combined namespace identifiers and `nss` the combined namespaces. */
  method Description(routes: Dict<string, seq<Binding>>, idents: Dict<string, string>, nss: Dict<string, Namespace>,
                     cfg: DocConfig, pluralize: string -> string)
    returns (listing: ResourceListing)
    requires routes.Valid()
    ensures listing == Listing(routes, idents, nss, cfg, pluralize)
  {
    var namespaceRoutes := routes;
    if cfg.hideDocumentationPath {
      namespaceRoutes := RejectDocumentationRoutes(routes, cfg);
    }
    var apis := MapSeq(ListedKeys(namespaceRoutes), EntryOf(idents, nss, cfg, pluralize));
    listing := ResourceListing(cfg.apiVersion, "1.2", apis, ListingAuthorizations(cfg));
  }

  // ---------------------------------------------------------------------------
  // Properties of the listing

  /** A bucket is listed when it is not hidden as the documentation's own and
      it has a route that is not hidden. */
  function Listable(routes: Dict<string, seq<Binding>>, cfg: DocConfig): string -> bool {
    key => !(cfg.hideDocumentationPath && DocumentationRoute(key, cfg))
      && key in routes.entries && !AllHidden(routes.entries[key])
  }

  /** The listed keys are the buckets' keys, in their order, that are listable. */
  lemma ListedInOrder(routes: Dict<string, seq<Binding>>, cfg: DocConfig)
    requires routes.Valid()
    ensures ListedKeys(ListedRoutes(routes, cfg)) == Filter(routes.keys, Listable(routes, cfg))
  {
    var listed := ListedRoutes(routes, cfg);
    if cfg.hideDocumentationPath {
      var drop := DocumentationRouteOf(cfg);
      RejectedFacts(routes, drop);
      FilterFilter(routes.keys, Not(drop), HasVisibleRoute(listed), Listable(routes, cfg));
    } else {
      FilterCongruent(routes.keys, HasVisibleRoute(listed), Listable(routes, cfg));
    }
  }

  /** The listing's `apis`: one entry per listable bucket, in bucket order,
      with the bucket's path and description; and the fixed fields. */
  lemma ListingEntries(routes: Dict<string, seq<Binding>>, idents: Dict<string, string>, nss: Dict<string, Namespace>,
                       cfg: DocConfig, pluralize: string -> string)
    requires routes.Valid()
    ensures var listing := Listing(routes, idents, nss, cfg, pluralize);
      var keys := Filter(routes.keys, Listable(routes, cfg));
      && listing.apiVersion == cfg.apiVersion && listing.swaggerVersion == "1.2"
      && |listing.apis| == |keys|
      && forall i :: 0 <= i < |keys| ==>
           listing.apis[i].path == ListingPath(keys[i], cfg)
           && listing.apis[i].description == ListingDescription(keys[i], idents, nss, pluralize)
  {
    ListedInOrder(routes, cfg);
    var keys := Filter(routes.keys, Listable(routes, cfg));
    forall i | 0 <= i < |keys| ensures Listing(routes, idents, nss, cfg, pluralize).apis[i] == EntryOf(idents, nss, cfg, pluralize)(keys[i]) {
      MapSeqAt(keys, EntryOf(idents, nss, cfg, pluralize), i);
    }
  }

  /** A bucket has an entry exactly when it is listable: not the
      documentation's own while that is hidden, and with a route that is not
      hidden (so never for an empty bucket). */
  lemma ListedExactly(routes: Dict<string, seq<Binding>>, idents: Dict<string, string>, nss: Dict<string, Namespace>,
                      cfg: DocConfig, pluralize: string -> string, key: string)
    requires routes.Valid()
    ensures var apis := Listing(routes, idents, nss, cfg, pluralize).apis;
      (exists i :: 0 <= i < |apis| && apis[i].path == ListingPath(key, cfg))
      <==> !(cfg.hideDocumentationPath && DocumentationRoute(key, cfg))
           && key in routes.entries && exists b :: b in routes.entries[key] && !Hidden(b)
  {
    var apis := Listing(routes, idents, nss, cfg, pluralize).apis;
    var keys := Filter(routes.keys, Listable(routes, cfg));
    ListingEntries(routes, idents, nss, cfg, pluralize);
    FilterMember(routes.keys, Listable(routes, cfg), key);
    if i :| 0 <= i < |apis| && apis[i].path == ListingPath(key, cfg) {
      ListingPathInjective(keys[i], key, cfg);
      assert keys[i] in keys;
    }
    if key in keys {
      var i :| 0 <= i < |keys| && keys[i] == key;
      assert apis[i].path == ListingPath(key, cfg);
    }
  }

  /** With the documentation path hidden and a plain mount path `/name`, the
      bucket `name` gets no entry. */
  lemma DocumentationBucketHidden(routes: Dict<string, seq<Binding>>, idents: Dict<string, string>,
                                  nss: Dict<string, Namespace>, cfg: DocConfig, pluralize: string -> string, name: string)
    requires routes.Valid() && cfg.hideDocumentationPath && cfg.mountPath == "/" + name
    requires ':' !in name && '(' !in name && !Contains(cfg.mountPath, "{version}")
    ensures var apis := Listing(routes, idents, nss, cfg, pluralize).apis;
      forall i :: 0 <= i < |apis| ==> apis[i].path != ListingPath(name, cfg)
  {
    ParsePathPlain(cfg.mountPath, None, cfg.hideFormat);
    assert DocumentationRoute(name, cfg);
    ListedExactly(routes, idents, nss, cfg, pluralize, name);
  }

  /** The description of a standalone namespace's bucket comes from that
      namespace: the one whose identifier is the bucket's key. */
  lemma DescriptionOfIdentifier(key: string, idents: Dict<string, string>, nss: Dict<string, Namespace>,
                                pluralize: string -> string)
    requires IdentsSound(nss, idents) && key in idents.entries
    ensures var name := OriginalName(key, idents);
      && name in nss.entries && IsStandalone(nss.entries[name]) && Identifier(name, nss.entries[name]) == key
      && (nss.entries[name].desc.Some? ==> ListingDescription(key, idents, nss, pluralize) == nss.entries[name].desc.value.Force())
      && (nss.entries[name].desc.None? ==> ListingDescription(key, idents, nss, pluralize) == "Operations about " + pluralize(name))
  {
  }
}
