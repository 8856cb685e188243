/**
 * The metadata the documentation generator reads: routes with their declared
 * parameters, headers and response codes; namespaces with their swagger
 * options; entity (model) classes with their documented properties and
 * exposures; and the documentation class's configuration.  Every Ruby
 * hash that the generator inspects key by key becomes a record here; a key
 * that may be absent becomes an `Option`.
 */
module Records {
  import opened Support

  /** A reference to an entity class (or a plain type token).  `name` is what
      `to_s` gives; `entityName` is present when the class defines `entity_name`. */
  datatype EntityRef = EntityRef(name: string, entityName: Option<string>)

  /** The values of a parameter's or a property's `:values` option. */
  datatype Values =
    | Listed(items: seq<Value>)
    | Ranged(lo: int, hi: int, exclusive: bool)
    | Computed(result: seq<Value>)   // a callable; `result` is what it returns

  /** A parameter or header declared with an option hash.  Keys left out of the
      hash are `None`, `Nil` or `false`. */
  datatype ParamSpec = ParamSpec(
    dataType: Option<string>,
    required: bool,
    default: Value,
    isArray: bool,
    values: Option<Values>,
    desc: Option<Lazy<string>>,
    description: Option<Lazy<string>>,
    i18nKey: Option<string>,
    paramType: Option<string>,
    fullName: Option<string>)

  /** A parameter or header value: an option hash, or anything else (the
      generator then falls back to defaults). */
  datatype ParamDecl = Declared(spec: ParamSpec) | Undeclared

  datatype HttpCode = HttpCode(code: int, message: string, model: Option<EntityRef>)

  datatype Route = Route(
    path: string,                 // route_path, e.g. "/:version/users/:id(.:format)"
    prefix: string,               // route_prefix, "" when there is none
    httpMethod: string,           // route_method, e.g. "GET"
    namespace: Option<string>,    // the :namespace option, e.g. "/users"
    hidden: Lazy<bool>,           // route_hidden, truthiness of the flag or of the callable's result
    params: Dict<string, ParamDecl>,
    headers: Dict<string, ParamDecl>,
    httpCodes: seq<HttpCode>,
    entity: Option<seq<EntityRef>>, // route_entity as a list (`Array(...)`); None when none is declared
    nickname: Option<string>,
    summary: Option<string>,      // route_description
    notes: Option<string>,
    authorizations: Option<map<string, string>>)

  /** The `swagger:` option of a namespace. */
  datatype SwaggerOptions = SwaggerOptions(nested: Option<bool>, name: Option<string>)

  datatype Namespace = Namespace(desc: Option<Lazy<string>>, swagger: Option<SwaggerOptions>)

  /** `swagger: {nested: false}`: the namespace is listed as its own resource. */
  predicate IsStandalone(ns: Namespace) {
    ns.swagger.Some? && ns.swagger.value.nested == Some(false)
  }

  /** A property type given as a string token or as a class. */
  datatype TypeRef = TypeName(token: string) | TypeClass(className: string)

  /** One entry of an entity's `documentation` hash: the keys the generator
      interprets, and `others` for every other key (`:default`, `:example`,
      `:format`, ...), each named without its colon. */
  datatype PropInfo = PropInfo(
    propType: Option<TypeRef>,
    required: bool,
    isArray: bool,
    desc: Option<string>,
    values: Option<Values>,
    others: map<string, Value>)

  /** One exposure of an entity: the `:using` entity, and whether it carries a
      `:documentation` option. */
  datatype Exposure = Exposure(using: Option<EntityRef>, documented: bool)

  datatype Entity = Entity(
    ref: EntityRef,
    root: Option<string>,                    // the class's @root
    documentation: Dict<string, PropInfo>,
    exposures: Dict<string, Exposure>)

  /** An opaque Markdown renderer, or none configured. */
  datatype Markdown = NoMarkdown | Renderer(render: string -> string)

  /** The I18n store: for each scope (a class name after `underscore`, with
      `/` turned into `.`), the translations of the keys below it, so that
      `I18n.t("scope.key")` is `i18n[scope][key]`. */
  type I18n = map<string, map<string, string>>

  /** Translation lookup for one route.  Route documentation only translates
      when the endpoint belongs to an app, and then in that app's scope; a
      missing key yields the empty string. */
  datatype Translations = Translations(hasApp: bool, table: map<string, string>)

  /** A mounted Grape application: its class name and its endpoints in
      definition order. */
  datatype App = App(name: string, endpoints: seq<Endpoint>)

  /** An endpoint: its full namespace path (e.g. "/users/admin"), the innermost
      namespace object declared around it, the application mounted by it, and
      its routes. */
  datatype Endpoint = Endpoint(
    namespacePath: string,
    namespace: Option<Namespace>,
    app: Option<App>,
    routes: seq<Route>)

  /** A `[route, endpoint]` pair as stored in the resource buckets. */
  datatype Binding = Binding(route: Route, endpoint: Endpoint)

  /** The documentation class's settings that the core reads. */
  datatype DocConfig = DocConfig(
    mountPath: string,
    apiVersion: Option<string>,
    hideFormat: bool,
    hideDocumentationPath: bool,
    markdown: Markdown,
    authorizations: Option<map<string, string>>)
}
