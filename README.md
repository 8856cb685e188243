# grape-swagger core, modelled in Dafny

grape-swagger generates Swagger 1.2 documentation for a Grape API. It reads the
routes and entity models the API has already registered and produces two kinds
of JSON document. The resource listing has one entry per resource. Each
resource declaration lists the operations of one resource, grouped by path,
together with the schemas of the models they use.

This project models the logic that builds those documents. Grape, I18n and
Markdown objects are replaced by plain records (`Records`). The model has
these parts:

- `Support`: `Option`, `Lazy` (a literal value or the result of a zero-argument
  callable), and `Dict`, Ruby's insertion-ordered Hash (`keys` in insertion
  order plus a `map`). It also holds `Filter`, `MapSeq` and `Nub`, and string
  helpers (`StartsWith`, `Contains`, `ReplaceAll`, `Lower`, and `Underscore`
  with the I18n scope `I18nScope` built from it).
- `GrapeSwagger` (`lib/grape-swagger.rb`): route aggregation, written as a
  class `Api`. Its three Hash fields are filled by loops:
  - routes are grouped into buckets keyed by their first path segment;
  - namespace configuration is then reconciled against those buckets. A
    `nested: false` namespace becomes a resource of its own, together with
    the sub-namespaces it claims. Other namespaces fold into the bucket of
    their first segment. Keys no namespace claims pass through unchanged.

  Each loop is proved equal to a function on the old state: `RawGroups`,
  `CombineUpTo` and `PassThrough`. Lemmas then state what each step
  guarantees.
- `RouteDoc` (`RouteDoc` in `endpoint_doc.rb`): the parameters of one
  operation. This covers the type table, location inference, array renaming,
  removal of nested parameters (which relaxes the children's `required`),
  and header parameters.
- `EndpointDoc` (`EndpointDoc` in `endpoint_doc.rb`): one resource
  declaration. This covers path templating, visible and grouped operations,
  operation fields, response codes, the transitive model closure, the model
  schemas, and the assembled declaration.
- `ApiDoc` (`api_doc.rb`): the resource listing. The documentation's own
  bucket is optionally dropped, fully hidden buckets are skipped, and each
  entry gets its path and description.
- `ModelDoc` and `BaseDoc` (`model_doc.rb`, `base_doc.rb`):
  - property transformation, the properties hash, the required list, `id` and
    `name`;
  - `type_to_ref`, entity names, `strip_heredoc` and `as_markdown`.

`api_doc.rb` holds its own copies of `parse_path` and `strip_heredoc`. They
are identical to `EndpointDoc#parse_path` and `BaseDoc#strip_heredoc`, and are
modelled once as `EndpointDoc.ParsePath` and `BaseDoc.StripHeredoc`.

## Model

| member | source | states |
|---|---|---|
| GrapeSwagger.ResourceKey | lib/grape-swagger.rb:23-30 | a route's bucket key, when there is one, is non-empty, made only of word characters, vertical bars and dashes, and in lower case |
| GrapeSwagger.KeyOfLeadingSegment | lib/grape-swagger.rb:24-30 | with no prefix, a route `/<seg>` followed by nothing, `.`, `/` or `(` is filed under `<seg>` |
| GrapeSwagger.KeyOfVersionedSegment | lib/grape-swagger.rb:24-30 | a route `/:version/<seg>...` is filed under `<seg>`, not under `:version` |
| GrapeSwagger.RawGroups | lib/grape-swagger.rb:20-35 | the grouping of the first `n` routes is a well-formed ordered Hash: each key once, keys and entries agreeing |
| GrapeSwagger.RawKeys | lib/grape-swagger.rb:20-35 | a bucket exists exactly when some grouped route has that key, even when the route itself is the hidden documentation route |
| GrapeSwagger.RawBucket | lib/grape-swagger.rb:31-33 | each bucket holds, in iteration order, exactly the routes with its key that are not hidden documentation routes |
| GrapeSwagger.Api.AddRouteOf | lib/grape-swagger.rb:23-33 | one iteration of the grouping loop: the bucket is created, and the route is appended unless it is the hidden documentation route |
| GrapeSwagger.Api.GroupRoutes | lib/grape-swagger.rb:20-35 | after the nested loops, `combinedRoutes` equals the grouping of all routes of all endpoints, in order; the other two tables are unchanged |
| GrapeSwagger.Api.GroupEndpointRoutes | lib/grape-swagger.rb:22-34 | the inner loop files one endpoint's routes, in order, after those already filed |
| GrapeSwagger.MountedAppListed | lib/grape-swagger.rb:71-73 | every application mounted by one of the application's own endpoints is among `all_apps`, which starts with the application itself (`AllApps`) |
| GrapeSwagger.AllAppsClosed | lib/grape-swagger.rb:71-73 | the recursion reaches every depth: an application mounted by an endpoint of any listed application is listed |
| GrapeSwagger.AllAppsMounted | lib/grape-swagger.rb:71-73 | nothing else is listed: every listed application other than the root is mounted by an endpoint of a listed application |
| GrapeSwagger.CollectedNamespace | lib/grape-swagger.rb:53-67 | a name is in `combined_namespaces` exactly when some endpoint declares a namespace at that path without its leading slash; its value is the one from the last such endpoint |
| GrapeSwagger.CollectNamespaces | lib/grape-swagger.rb:53-67 | the collected namespaces form a well-formed ordered Hash |
| GrapeSwagger.ParentKeySegment | lib/grape-swagger.rb:79 | the parent key is the first segment of the namespace name: it has no `/`, it starts the name, and the name ends there or goes on with `/` |
| GrapeSwagger.DefaultIdentifier | lib/grape-swagger.rb:89-93 | without a custom name, the identifier is the namespace name with `_` turned into `-` and `/` into `_`, character by character, so it has no `/` |
| GrapeSwagger.CustomIdentifier | lib/grape-swagger.rb:89-93 | a custom `:name` becomes the identifier with each space turned into `-` |
| GrapeSwagger.StandaloneSubNamespaces | lib/grape-swagger.rb:122-136 | the deleting loop returns exactly `SubNamespaceNames`: the namespaces below `name`, minus each standalone one and each name it prefixes |
| GrapeSwagger.DeleteShadowed | lib/grape-swagger.rb:129-134 | a candidate is deleted exactly when some standalone candidate is a string prefix of it |
| GrapeSwagger.SubNamespacesSelected | lib/grape-swagger.rb:122-136 | `c` is selected iff it is a namespace strictly below `name` and no standalone namespace strictly below `name` is a prefix of it |
| GrapeSwagger.Step | lib/grape-swagger.rb:76-119 | one namespace's iteration keeps both tables well-formed ordered Hashes |
| GrapeSwagger.StepStandalone | lib/grape-swagger.rb:82-107 | a standalone namespace's bucket, under its identifier, is the parent-bucket routes of the namespace itself followed by those the selected sub-namespaces claim, each in parent order; membership is stated as well; the identifier maps back to the name; nothing else changes |
| GrapeSwagger.StepFolded | lib/grape-swagger.rb:108-118 | a non-standalone namespace under no standalone prefix makes its parent-key bucket the existing contents followed by its own routes in parent order; identifiers are unchanged |
| GrapeSwagger.StepShadowed | lib/grape-swagger.rb:108-118 | a non-standalone namespace below a standalone one changes nothing |
| GrapeSwagger.Api.CombineNamespace | lib/grape-swagger.rb:76-119 | one iteration over the namespaces takes the tables from the state after `i` namespaces to the state after `i + 1` |
| GrapeSwagger.Api.CombineNamespaceRoutes | lib/grape-swagger.rb:75-120 | the loop over all namespaces leaves both tables equal to `CombineUpTo` over every namespace, and `combinedRoutes` unchanged |
| GrapeSwagger.Api.PassExclusiveRoutes | lib/grape-swagger.rb:41-42 | every raw key that is not a namespace name is set to its raw bucket, in key order; nothing else changes |
| GrapeSwagger.AggregatePassThrough | lib/grape-swagger.rb:41-42 | in the final table, each raw key that names no namespace holds exactly its raw bucket |
| GrapeSwagger.AggregateIdentifiers | lib/grape-swagger.rb:87-94 | every recorded identifier maps to a standalone namespace whose identifier it is, and every standalone namespace's identifier is recorded |
| GrapeSwagger.AggregateDropsForeignRoute | lib/grape-swagger.rb:82-85 | a route filed under `users` whose namespace option is not `/users`, beside a folded namespace `users`, ends up in no bucket: the namespace keeps only its own routes and the pass-through skips the key (lines 41-42) |
| GrapeSwagger.AggregateOverwritesStandalone | lib/grape-swagger.rb:41-42 | when a standalone identifier is also a raw key that names no namespace, its final bucket is the raw bucket, while the identifier still maps to a standalone namespace |
| GrapeSwagger.AggregateFromRaw | lib/grape-swagger.rb:75-120 | every route in any final bucket comes from some raw bucket, so aggregation invents no routes |
| GrapeSwagger.Api.AddSwaggerDocumentation | lib/grape-swagger.rb:14-44 | `combinedRoutes` is the grouping of the API's routes; the namespace routes and identifiers are the reconciliation followed by the pass-through (`Aggregate`) |
| RouteDoc.Translate | lib/grape-swagger/documentation/endpoint_doc.rb:183-185 | a translation exists iff the endpoint belongs to an app; it is the table's entry when there is one, and the empty string (`default: ''`) when there is none |
| EndpointDoc.TranslationInAppScope | lib/grape-swagger/documentation/endpoint_doc.rb:179-185 | a route of an app translates a key as the entry for it in the app's scope, `app.name.underscore.gsub('/', '.')`, or as the empty string |
| EndpointDoc.TranslationsApart | lib/grape-swagger/documentation/endpoint_doc.rb:179-185 | routes of two apps with different scopes are described apart: a translation in the first app's scope reaches the first route and not the second |
| Support.Underscore | lib/grape-swagger/documentation/endpoint_doc.rb:184 | the `underscore` of a name has no capital and no dash, and a name without a capital, a dash or `::` is returned unchanged |
| Support.I18nScope | lib/grape-swagger/documentation/model_doc.rb:67 | a scope has no `/` and no capital |
| Support.ScopeOfNamespacedClass | lib/grape-swagger/documentation/endpoint_doc.rb:184 | the class `Api::Users` has the scope `api.users` |
| RouteDoc.GetDescription | lib/grape-swagger/documentation/endpoint_doc.rb:106-110 | the description is `:desc`, else `:description` (a callable being invoked), else the translation of `:i18n_key` or the name; nil exactly when none applies |
| RouteDoc.SelectDataTypeTable | lib/grape-swagger/documentation/endpoint_doc.rb:60-81 | every table token maps to a primitive type (an uploaded file to `File`); `Float` gives `float`, `Numeric` gives `double` |
| RouteDoc.SelectDataTypeEntity | lib/grape-swagger/documentation/endpoint_doc.rb:80 | any other plain class name is passed through as the entity name |
| RouteDoc.SelectParamType | lib/grape-swagger/documentation/endpoint_doc.rb:83-96 | `path` iff `:name` occurs in the path; otherwise `form` or `body` for POST/PUT/PATCH (primitive or not), else `query` |
| RouteDoc.RangeMembers | lib/grape-swagger/documentation/endpoint_doc.rb:100 | `Range#to_a` holds exactly the integers from the lower bound to the upper one, inclusive or exclusive |
| RouteDoc.GetParamValues | lib/grape-swagger/documentation/endpoint_doc.rb:98-104 | a range is expanded, a callable is invoked, a list is kept, and nil stays nil |
| RouteDoc.HeaderParams | lib/grape-swagger/documentation/endpoint_doc.rb:38-58 | one `header` parameter of type `String` per header, in order; each described by `get_description` of its option hash (an empty hash when it has none); required only for a declared header marked required; a default only when a truthy one is given |
| RouteDoc.ParseParam | lib/grape-swagger/documentation/endpoint_doc.rb:113-141 | explicit `:param_type` and `:full_name` win; an array is `array` with `items` and `allowMultiple`; `int32` and `int64` formats; default and enum only when given; the description is `get_description` of the options and the name |
| RouteDoc.ParseParams | lib/grape-swagger/documentation/endpoint_doc.rb:112-142 | one parsed parameter per remaining key, in order |
| RouteDoc.ParseArrayParams | lib/grape-swagger/documentation/endpoint_doc.rb:144-161 | the loop's result equals `ArrayRenamed` over all keys |
| RouteDoc.ArrayRenamed | lib/grape-swagger/documentation/endpoint_doc.rb:144-161 | the parameters after the first `n` iterations form a well-formed ordered Hash |
| RouteDoc.ArrayRenamedKeys | lib/grape-swagger/documentation/endpoint_doc.rb:144-161 | the result's keys are the renamed keys of the non-`Array` parameters, in order, each kept once |
| RouteDoc.ArrayRenamedMember | lib/grape-swagger/documentation/endpoint_doc.rb:147-158 | a key is in the result iff it is the new key of some non-`Array` parameter, so the `Array` parameters themselves are dropped |
| RouteDoc.ArrayRenamedValue | lib/grape-swagger/documentation/endpoint_doc.rb:157 | a parameter whose new key no later parameter reuses keeps its declaration under that key |
| RouteDoc.RenameRoundTrip | lib/grape-swagger/documentation/endpoint_doc.rb:153-155 | the new key starts with `<array>[][`, and removing the inserted `[]` gives the old key back |
| RouteDoc.RenameAsWrittenAgrees | lib/grape-swagger/documentation/endpoint_doc.rb:154 | the source's `split`-based renaming agrees with `Rename` whenever the array's name does not occur again in the rest of the key |
| RouteDoc.RenameAsWrittenTruncates | lib/grape-swagger/documentation/endpoint_doc.rb:154 | for array `a` and key `a[name]` the source produces `a[][n`, where `a[][name]` is meant |
| RouteDoc.CountNested | lib/grape-swagger/documentation/endpoint_doc.rb:171-175 | the count is positive iff some key is nested under the parameter; when the parameter is not required, its children are relaxed |
| RouteDoc.NonNestedParams | lib/grape-swagger/documentation/endpoint_doc.rb:163-177 | the loop over the copied parameters equals `NonNested` |
| RouteDoc.NonNestedKeys | lib/grape-swagger/documentation/endpoint_doc.rb:169-176 | a parameter is kept iff no other key has the form `<param>[<something>]` |
| RouteDoc.NonNestedValues | lib/grape-swagger/documentation/endpoint_doc.rb:165-173 | a kept value is the declared one, possibly with `required` turned off; nothing else changes |
| RouteDoc.NonNestedRequired | lib/grape-swagger/documentation/endpoint_doc.rb:163-177 | a kept parameter is required iff it was declared required and so was every parameter it is nested under, which is the converse of `ChildrenRelaxed` |
| RouteDoc.ChildrenRelaxed | lib/grape-swagger/documentation/endpoint_doc.rb:173 | a kept child of a parameter that is not required is not required |
| RouteDoc.ParsedParamsNames | lib/grape-swagger/documentation/endpoint_doc.rb:112-177 | the parsed parameters are exactly the renamed parameters with no nested child, each parsed |
| RouteDoc.Parameters | lib/grape-swagger/documentation/endpoint_doc.rb:22-24 | the header parameters come first, then the parsed parameters |
| EndpointDoc.TemplatedParam | lib/grape-swagger/documentation/endpoint_doc.rb:359 | `:ident` followed by a non-word character becomes `{ident}` |
| EndpointDoc.ParsePath | lib/grape-swagger/documentation/endpoint_doc.rb:351-362 | with no version given, the Swagger path holds no `:name` marker |
| EndpointDoc.TemplatedNoMarker | lib/grape-swagger/documentation/endpoint_doc.rb:359 | templating leaves no `:name` marker, and the result starts with `{` or with the text's own first character |
| EndpointDoc.ParsePathPlain | lib/grape-swagger/documentation/endpoint_doc.rb:351-362 | a path with no `:`, no `(` and no `{version}` is its own Swagger path |
| EndpointDoc.ParsePathFormat | lib/grape-swagger/documentation/endpoint_doc.rb:353 | a plain path followed by `(.:format)` becomes the path followed by `.{format}`, or by nothing when the format is hidden, whatever the version |
| EndpointDoc.ParsePathVersioned | lib/grape-swagger/documentation/endpoint_doc.rb:351-362 | `/:version<p>(.:format)` becomes `/<version><p>` plus the format suffix when a version is given, and `/{version}<p>` plus the suffix when none is |
| EndpointDoc.VisibleOperations | lib/grape-swagger/documentation/endpoint_doc.rb:202-206 | the visible operations are exactly the routes whose hidden flag, or whose callable's result, is false |
| EndpointDoc.VisibleAppend | lib/grape-swagger/documentation/endpoint_doc.rb:202-206 | the filter distributes over concatenation, so bucket order is kept |
| EndpointDoc.GroupedOperations | lib/grape-swagger/documentation/endpoint_doc.rb:208-212 | the groups form a well-formed ordered Hash: each path once |
| EndpointDoc.GroupedOperationsFacts | lib/grape-swagger/documentation/endpoint_doc.rb:208-212 | each group holds, in order, exactly the visible routes whose templated path is the group's key; a key exists iff its group is non-empty |
| EndpointDoc.ResourcePath | lib/grape-swagger/documentation/endpoint_doc.rb:214-222 | the resource path is `/` followed by `identifiers[routes_name]` when the bucket name is an identifier, else by the bucket name |
| EndpointDoc.ResourcePathOfIdentifier | lib/grape-swagger/documentation/endpoint_doc.rb:214-222 | for an identifier, the resource path names the standalone namespace whose identifier it is |
| EndpointDoc.DefaultNickname | lib/grape-swagger/documentation/endpoint_doc.rb:254 | the method followed by the path with each of `/ : ( ) .` turned into `-` |
| EndpointDoc.ResponseMessageOf | lib/grape-swagger/documentation/endpoint_doc.rb:312-317 | a message has the code and the message, and `responseModel` exactly when a model is given, holding `parse_entity_name` of that model |
| EndpointDoc.ParseHttpCodes | lib/grape-swagger/documentation/endpoint_doc.rb:308-321 | one message per code, in order, each as `ResponseMessageOf` states; the models are exactly the given ones, in order |
| EndpointDoc.MakeOperation | lib/grape-swagger/documentation/endpoint_doc.rb:249-265 | notes, summary, nickname, method and parameters; `consumes` iff a `File` parameter; authorizations iff non-empty; messages iff any; the entity type iff an entity list is declared, even an empty one: the name of its first entity, or the empty name for `entity: []` |
| EndpointDoc.DescribeOperation | lib/grape-swagger/documentation/endpoint_doc.rb:240-266 | the operation of one route, and the models it adds: its response models and its entities |
| EndpointDoc.ModelsWithIncludedPresenters | lib/grape-swagger/documentation/endpoint_doc.rb:323-339 | every model returned resolves to a registered entity |
| EndpointDoc.PresentersSound | lib/grape-swagger/documentation/endpoint_doc.rb:323-339 | every model returned is a documented exposure of a given or returned model; with `PresentersClosed`, the result is exactly what documented exposures reach |
| EndpointDoc.IncludedClosed | lib/grape-swagger/documentation/endpoint_doc.rb:323-339 | the models a model includes are closed under "documented exposure of" |
| EndpointDoc.PresentersClosed | lib/grape-swagger/documentation/endpoint_doc.rb:323-339 | every documented exposure of a given or included model is among the included models |
| EndpointDoc.SchemaOf | lib/grape-swagger/documentation/endpoint_doc.rb:296-302 | a schema has the model's `id`, the model's properties hash translated in the scope of the model's class name (its contents are stated by `PropertiesFacts`), and `required` exactly when some property is required |
| EndpointDoc.ParseEntityModels | lib/grape-swagger/documentation/endpoint_doc.rb:292-306 | the reducing loop equals `EntityModels`: each model's schema under its name, a later model overwriting an earlier one |
| EndpointDoc.EntityModelsEntry | lib/grape-swagger/documentation/endpoint_doc.rb:292-306 | a name has a schema iff some model has that name, and the schema is that of the last such model |
| EndpointDoc.ModelsFromMember | lib/grape-swagger/documentation/endpoint_doc.rb:237-245 | the accumulated `models` set holds exactly the configured models and every route's response models and entities |
| EndpointDoc.DescribeGroup | lib/grape-swagger/documentation/endpoint_doc.rb:240-268 | a group's operations, in order, and the models set grown by its routes |
| EndpointDoc.DescribeGroups | lib/grape-swagger/documentation/endpoint_doc.rb:239-271 | one api entry per group, in group order, and the models set after all routes |
| EndpointDoc.DeclarationModels | lib/grape-swagger/documentation/endpoint_doc.rb:273 | the final models are exactly the collected ones and the presenters they include |
| EndpointDoc.DeclarationApis | lib/grape-swagger/documentation/endpoint_doc.rb:239-271 | the api paths are distinct; a path appears iff some visible route templates to it; its operations are those routes' operations, in order |
| EndpointDoc.Description | lib/grape-swagger/documentation/endpoint_doc.rb:236-290 | the declaration has version, `1.2`, resource path and apis; `models` only when there are some; the configured authorizations when present |
| ApiDoc.RejectDocumentationRoutes | lib/grape-swagger/documentation/api_doc.rb:12-14 | the `reject!` loop removes exactly the buckets whose `/key/` starts with the mount path's template plus `/`, and keeps the others in order |
| ApiDoc.ListingDescription | lib/grape-swagger/documentation/api_doc.rb:21-24 | the namespace's `:desc` (a callable is invoked), else `Operations about` and the pluralized name |
| ApiDoc.ListingAuthorizations | lib/grape-swagger/documentation/api_doc.rb:38 | authorizations appear iff configured and non-empty |
| ApiDoc.Description | lib/grape-swagger/documentation/api_doc.rb:6-41 | the method's result equals the `Listing` function |
| ApiDoc.ListedInOrder | lib/grape-swagger/documentation/api_doc.rb:12-28 | the listed buckets are, in key order, those that are not the hidden documentation bucket and have a visible route |
| ApiDoc.ListingEntries | lib/grape-swagger/documentation/api_doc.rb:16-36 | version, `1.2`, and one entry per listed bucket with its path and description |
| ApiDoc.ListedExactly | lib/grape-swagger/documentation/api_doc.rb:12-28 | an entry with a bucket's path exists iff the bucket is not the hidden documentation bucket and some route in it is not hidden |
| ApiDoc.DocumentationBucketHidden | lib/grape-swagger/documentation/api_doc.rb:12-14 | with `hide_documentation_path`, the bucket named by a plain mount path is never listed |
| ApiDoc.DescriptionOfIdentifier | lib/grape-swagger/documentation/api_doc.rb:21-24 | an identifier's description comes from the standalone namespace it was built from |
| ModelDoc.TranslateKey | lib/grape-swagger/documentation/model_doc.rb:66-68 | a translation is nil exactly when it is missing or blank, that is empty or only whitespace (`presence`); otherwise it is the table's entry |
| ModelDoc.PropertyType | lib/grape-swagger/documentation/model_doc.rb:26-30 | the explicit `:type`, else the entity name of the exposure's `:using`, else nil |
| ModelDoc.EnumOf | lib/grape-swagger/documentation/model_doc.rb:43-47 | `:values` becomes `:enum` iff present, with a callable invoked and any other value kept |
| ModelDoc.TransformProperty | lib/grape-swagger/documentation/model_doc.rb:23-50 | an array property iff `is_array`, with `items` the type's ref, otherwise the ref inline; `:desc` else the translation; enum as above; `:required` is dropped; a key is passed through iff the property info has it and the method neither consumes nor writes it, and it keeps its value |
| ModelDoc.TransformPassesThrough | lib/grape-swagger/documentation/model_doc.rb:24-49 | a documentation key the method does not interpret, such as `:default`, reaches the property unchanged |
| ModelDoc.TransformExplicitType | lib/grape-swagger/documentation/model_doc.rb:26 | an explicitly typed property does not depend on the model's exposures |
| ModelDoc.Properties | lib/grape-swagger/documentation/model_doc.rb:16-21 | the reducing loop equals `PropertiesUpTo` over all documented names |
| ModelDoc.PropertiesFacts | lib/grape-swagger/documentation/model_doc.rb:16-21 | the properties hash has exactly the documented names in declaration order, each holding its transformed property |
| ModelDoc.RequiredProperties | lib/grape-swagger/documentation/model_doc.rb:52-56 | a name is listed iff it is documented and marked required |
| ModelDoc.RequiredInOrder | lib/grape-swagger/documentation/model_doc.rb:52-56 | the list is the documented names, in order, filtered by their `required` flag |
| ModelDoc.Name | lib/grape-swagger/documentation/model_doc.rb:62-64 | the model's `entity_name` when it has one, else its stripped class name |
| ModelDoc.Id | lib/grape-swagger/documentation/model_doc.rb:58-60 | `@root` when set, else the name |
| BaseDoc.TypeToRef | lib/grape-swagger/documentation/base_doc.rb:24-32 | `{'type' => t}` iff `t` is a primitive type, else `{'$ref' => t}`; a class contributes its name with the first letter in lower case |
| BaseDoc.ClassOfPrimitive | lib/grape-swagger/documentation/base_doc.rb:6-32 | the class named after a primitive type maps back to that primitive |
| BaseDoc.StrippedPlainName | lib/grape-swagger/documentation/base_doc.rb:47-49 | a plain class name is unchanged |
| BaseDoc.StrippedTopLevelEntities | lib/grape-swagger/documentation/base_doc.rb:47-49 | `Entities::N` becomes `N` |
| BaseDoc.StrippedNestedEntities | lib/grape-swagger/documentation/base_doc.rb:47-49 | `M::Entities::N` becomes `M::N` |
| BaseDoc.UnlinesLines | lib/grape-swagger/documentation/base_doc.rb:34-37 | splitting a text into lines and joining them again gives the text back |
| BaseDoc.LinesUnlines | lib/grape-swagger/documentation/base_doc.rb:34-37 | joining lines without newlines and splitting again gives the lines back |
| BaseDoc.StripHeredocDedents | lib/grape-swagger/documentation/base_doc.rb:34-37 | every line loses the least indentation of the lines with content, if it has that much; some line with content ends up at column 0 |
| BaseDoc.MixedIndentationAsWritten | lib/grape-swagger/documentation/base_doc.rb:35 | with the source's lexicographic `min`, `"\t\t\tfoo\n bar"` becomes `"foo\n bar"`, so the second line keeps its indentation |
| BaseDoc.MixedIndentationIntended | lib/grape-swagger/documentation/base_doc.rb:34-37 | the least-width rule turns the same text into `"\t\tfoo\nbar"` |
| BaseDoc.AsMarkdown | lib/grape-swagger/documentation/base_doc.rb:16-18 | the description is returned unchanged when it is nil or no renderer is configured, and it is nil only when it was nil |

## Left out

- `lib/grape-swagger/documentation.rb` is not part of this model. It covers option defaults, mounting, route registration, CORS headers and the 404 response; this is HTTP wiring over Grape. `create_documentation_class`, `setup` and `mount` (lib/grape-swagger.rb:15-18) are left out for the same reason.
- Grape reflection is replaced by records:
  - an `App` is the sequence of its endpoints, each with its namespace path, its innermost namespace object, its mounted app and its routes;
  - `routes_with_endpoints`, `namespace_stackable` and `settings.stack` are not modelled;
  - `constantize` is replaced by a registry of entities.
- Memoization (`@routes_with_endpoints ||=`, `@combined_namespaces ||=`, `ModelDoc.fetch`) is not modelled. The values are recomputed, and they are the same.
- `content_types` and `content_types_for` (the `produces` field) are left out. They read Grape's formatter and content-type registries.
- `parse_info` (the `info` field) is left out. It depends on I18n lookups.
- `parse_base_path` (the `basePath` field) is left out. It depends on URI joining and the request's base URL.
- I18n is a store given as a parameter (`Records.I18n`), not an I18n call. It maps each scope to that scope's translations, so a key that itself contains a dot is looked up in its scope's table rather than further down the nested hash.
- Support.Underscore: models ActiveSupport's `underscore` on ASCII with the default inflections. Acronym inflections and the down-casing of non-ASCII capitals are not modelled. An anonymous app or model class, whose `name` is nil and on which `underscore` raises, is not modelled either: a class name is always a string here.
- `pluralize` is a function given as a parameter. The Markdown renderer is a `string -> string` function. Neither is modelled further.
- Callables (a `Proc` description, hidden flag or values) are modelled by `Lazy`, which carries the result of the call as data.
  - A callable description that returns nil is not modelled.
  - A `:type` or `:desc` key present with a nil value is not modelled. `p.delete(:desc) { ... }` then returns nil, so the source neither uses the translation nor writes a description; the model treats such a key as absent and falls back to the translation.
- Regular expressions are written out as character-level functions:
  - the key extraction in `ResourceKey`;
  - templating in `ParsePath`;
  - the `Entity`/`Entities` removal in `StrippedModelName`.
- GrapeSwagger.Api.CombineNamespaceRoutes: requires that the bucket of every namespace's first segment exists (`ParentsPresent`).
  - The source calls `map` on that bucket unconditionally (lib/grape-swagger.rb:80-82), so a missing bucket raises `NoMethodError` (`nil.map`).
  - The model follows the code and excludes that input.
- GrapeSwagger.Api.AddSwaggerDocumentation: requires `ParentsPresent` for the same reason.
- EndpointDoc.ModelsWithIncludedPresenters: requires every entity to reference only entities defined before it (`Acyclic`).
  - `models_with_included_presenters` recurses with no visited set (endpoint_doc.rb:323-339), so a cycle of documented exposures does not terminate.
  - The model therefore excludes cyclic registries.
- RouteDoc.GetParamValues: a `:values` range has integer bounds (`Ranged`). A range of strings such as `'a'..'c'`, which `Range#to_a` (endpoint_doc.rb:100) also expands, cannot be expressed.
- RouteDoc.NonNestedParams: treats a parameter value that is not a Hash as not required. In Ruby, `value[:required]` on such a value raises or misbehaves.
- RouteDoc.ParseArrayParams: uses the corrected renaming `Rename`, not the source's `split` (see Findings). The two agree whenever the array's name does not occur again in the rest of the key (`RenameAsWrittenAgrees`).
- BaseDoc.AsMarkdown: dedents with the corrected `StripHeredoc`, not the source's lexicographic `min` (see Findings). The two agree when every line is indented with spaces only.
- `select_data_type` maps `Float` to `float`. Its earlier `when` clause catches `Float` before the `Numeric, Float` clause, so `Float` never becomes `double`. The model follows the code.
- EndpointDoc.Description: the declaration keeps `authorizations` whenever it is configured, even when empty (endpoint_doc.rb:287). The listing drops an empty one (api_doc.rb:38). Both behaviours are modelled as written.
- Route aggregation is not a partition: a route that has a bucket key need not end up in exactly one final bucket. The model follows the code and proves no partition property:
  - a route whose bucket key is a non-standalone namespace's first segment, but whose namespace option is not that namespace's path, is in no final bucket (`AggregateDropsForeignRoute`);
  - a raw key that equals a standalone identifier replaces that identifier's bucket (`AggregateOverwritesStandalone`);
  - what does hold is stated instead: no route is invented (`AggregateFromRaw`), and each pass-through key keeps its raw bucket (`AggregatePassThrough`).
- Order of `models`: a Ruby `Set` keeps insertion order. It is modelled as a sequence without duplicates (`Nub`), and the properties state membership and first-appearance order.

## Findings

| source | as written | input that shows it | evidently intended | confidence | as-written member | corrected member |
|---|---|---|---|---|---|---|
| lib/grape-swagger/documentation/endpoint_doc.rb:154 | `k.to_s.split(array_param)[1]` keeps only the text between the first and second occurrence of the array's name in the key | array parameter `a` followed by `a[name]`: the new key is `a[][n` | `a[][name]`: the array's name, `[]`, then the rest of the key | high; not executed | RouteDoc.RenameAsWrittenTruncates | RouteDoc.RenameRoundTrip |
| lib/grape-swagger/documentation/base_doc.rb:35 | `.min` compares the indentation strings lexicographically, and a tab sorts before a space | `"\t\t\tfoo\n bar"`: the indent is three characters, so `" bar"` is not dedented and the result is `"foo\n bar"` | dedent by the shortest indentation: `"\t\tfoo\nbar"` | medium; not executed | BaseDoc.MixedIndentationAsWritten | BaseDoc.StripHeredocDedents |
