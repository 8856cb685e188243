/**
 * The parameters of one operation (`RouteDoc` in
 * lib/grape-swagger/documentation/endpoint_doc.rb): header parameters, then
 * the declared parameters after array renaming and nested-parameter removal,
 * each with its location, its Swagger type and its optional fields.
 */
module RouteDoc {
  import opened Support
  import opened Records
  import opened BaseDoc

  /** One entry of an operation's `parameters` list.  Header entries carry no
      `allowMultiple`; the optional fields are absent unless set. */
  datatype Param = Param(
    paramType: string,
    name: string,
    description: Option<string>,
    dataType: string,
    required: bool,
    allowMultiple: Option<bool>,
    format: Option<string>,
    items: Option<string>,
    defaultValue: Option<Value>,
    enumValues: Option<seq<Value>>)

  /** PARAM_DEFAULTS: the option hash used for a parameter declared without one. */
  const ParamDefaults: ParamSpec :=
    ParamSpec(Some("string"), false, Nil, false, None, None, None, None, None, None)

  /** The option hash of a declaration; `defaults` stands in when there is none. */
  function OptionsOf(d: ParamDecl, defaults: ParamSpec): ParamSpec {
    if d.Declared? then d.spec else defaults
  }

  // ---------------------------------------------------------------------------
  // get_description / translate

  /** `translate(key)`: looked up only when the endpoint belongs to an app; a
      missing translation is the empty string. */
  function Translate(tr: Translations, key: string): (r: Option<string>)
    ensures r.Some? <==> tr.hasApp
    ensures r.Some? && key in tr.table ==> r.value == tr.table[key]
    ensures r.Some? && key !in tr.table ==> r.value == ""
  {
    if tr.hasApp then Some(if key in tr.table then tr.table[key] else "") else None
  }

  /** `get_description`: the `:desc` option, else `:description`, else the
      translation of `:i18n_key` (or of the parameter's name); a callable is
      invoked; the result goes through `as_markdown`. */
  function GetDescription(values: ParamSpec, name: string, tr: Translations, md: Markdown): (r: Option<string>)
    ensures r.None? <==> values.desc.None? && values.description.None? && !tr.hasApp
    ensures md.NoMarkdown? && values.desc.Some? ==> r == Some(values.desc.value.Force())
    ensures md.NoMarkdown? && values.desc.None? && values.description.Some? ==> r == Some(values.description.value.Force())
    ensures md.NoMarkdown? && values.desc.None? && values.description.None? ==>
      r == Translate(tr, values.i18nKey.GetOr(name))
  {
    var s := if values.desc.Some? then Some(values.desc.value.Force())
             else if values.description.Some? then Some(values.description.value.Force())
             else Translate(tr, values.i18nKey.GetOr(name));
    AsMarkdown(s, md)
  }

  // ---------------------------------------------------------------------------
  // select_data_type

  /** The tokens the type table names; every other token is an entity name. */
  const TableTokens: set<string> :=
    {"Hash", "Rack::Multipart::UploadedFile", "Virtus::Attribute::Boolean", "Boolean", "Date",
     "Integer", "String", "Float", "BigDecimal", "DateTime", "Numeric", "Symbol"}

  /** `select_data_type`: the `case` is tried top to bottom, so `Float` is
      caught by the lower-casing branch and the later `Float` is never reached. */
  function SelectDataType(raw: string): string {
    if raw == "Hash" then "object"
    else if raw == "Rack::Multipart::UploadedFile" then "File"
    else if raw == "Virtus::Attribute::Boolean" then "boolean"
    else if raw in {"Boolean", "Date", "Integer", "String", "Float"} then Lower(raw)
    else if raw == "BigDecimal" then "long"
    else if raw == "DateTime" then "dateTime"
    else if raw in {"Numeric", "Float"} then "double"
    else if raw == "Symbol" then "string"
    else ParseEntityName(EntityRef(raw, None))
  }

  /** Every token of the table maps to a Swagger primitive type, or to `File`
      for an uploaded file; `Float` stays single precision. */
  lemma SelectDataTypeTable(raw: string)
    requires raw in TableTokens
    ensures SelectDataType(raw) in PrimitiveTypes || (raw == "Rack::Multipart::UploadedFile" && SelectDataType(raw) == "File")
    ensures raw == "Float" ==> SelectDataType(raw) == "float"
    ensures raw == "Numeric" ==> SelectDataType(raw) == "double"
  {
    if raw in {"Boolean", "Date", "Integer", "String", "Float"} {
      LowerTableToken(raw);
    }
  }

  lemma LowerTableToken(raw: string)
    requires raw in {"Boolean", "Date", "Integer", "String", "Float"}
    ensures Lower(raw) in PrimitiveTypes
    ensures raw == "Float" ==> Lower(raw) == "float"
  {
    var l := Lower(raw);
    if raw == "Boolean" {
      assert l == "boolean";
    } else if raw == "Date" {
      assert l == "date";
    } else if raw == "Integer" {
      assert l == "integer";
    } else if raw == "String" {
      assert l == "string";
    } else {
      assert l == "float";
    }
  }

  /** A token outside the table that is a plain class name is its own type. */
  lemma SelectDataTypeEntity(raw: string)
    requires raw !in TableTokens && PlainSegment(raw)
    ensures SelectDataType(raw) == raw
  {
    StrippedPlainName(raw);
  }

  // ---------------------------------------------------------------------------
  // select_param_type

  const WritingMethods: set<string> := {"POST", "PUT", "PATCH"}

  /** `select_param_type`: `path` when `:name` occurs in the route path,
      whatever the method; else `form` or `body` for a writing method,
      depending on whether the type is primitive; else `query`. */
  function SelectParamType(dataType: string, param: string, path: string, httpMethod: string): (r: string)
    ensures r == "path" <==> Contains(path, ":" + param)
    ensures r == "form" <==> !Contains(path, ":" + param) && httpMethod in WritingMethods && dataType in PrimitiveTypes
    ensures r == "body" <==> !Contains(path, ":" + param) && httpMethod in WritingMethods && dataType !in PrimitiveTypes
    ensures r == "query" <==> !Contains(path, ":" + param) && httpMethod !in WritingMethods
  {
    if Contains(path, ":" + param) then "path"
    else if httpMethod in WritingMethods then (if dataType in PrimitiveTypes then "form" else "body")
    else "query"
  }

  // ---------------------------------------------------------------------------
  // get_param_values

  /** `Range#to_a` on integers: every integer from `lo` up to `hi`, or up to
      `hi - 1` for an exclusive range; empty when the range is. */
  function RangeToA(lo: int, hi: int, exclusive: bool): (r: seq<Value>)
    ensures |r| == if (if exclusive then hi else hi + 1) <= lo then 0 else (if exclusive then hi else hi + 1) - lo
    ensures forall i :: 0 <= i < |r| ==> r[i] == Int(lo + i)
  {
    var end := if exclusive then hi else hi + 1;
    var n := if end <= lo then 0 else end - lo;
    seq(n, i => Int(lo + i))
  }

  /** An integer is listed exactly when the range covers it. */
  lemma RangeMembers(lo: int, hi: int, exclusive: bool, x: int)
    ensures Int(x) in RangeToA(lo, hi, exclusive) <==> lo <= x && (if exclusive then x < hi else x <= hi)
  {
    var r := RangeToA(lo, hi, exclusive);
    if lo <= x && (if exclusive then x < hi else x <= hi) {
      assert r[x - lo] == Int(x);
    }
  }

  /** `get_param_values`: a range is expanded, a callable invoked, anything
      else passed on. */
  function GetParamValues(v: Option<Values>): (r: Option<seq<Value>>)
    ensures r.None? <==> v.None?
    ensures v.Some? && v.value.Listed? ==> r == Some(v.value.items)
    ensures v.Some? && v.value.Computed? ==> r == Some(v.value.result)
    ensures v.Some? && v.value.Ranged? ==> r == Some(RangeToA(v.value.lo, v.value.hi, v.value.exclusive))
  {
    match v
    case None => None
    case Some(Listed(items)) => Some(items)
    case Some(Ranged(lo, hi, exclusive)) => Some(RangeToA(lo, hi, exclusive))
    case Some(Computed(result)) => Some(result)
  }

  // ---------------------------------------------------------------------------
  // header_params

  /** The empty option hash a header declared without one is described from. */
  const HeaderDefaults: ParamSpec := ParamSpec(None, false, Nil, false, None, None, None, None, None, None)

  function HeaderParam(name: string, d: ParamDecl, tr: Translations, md: Markdown): Param {
    var values := OptionsOf(d, HeaderDefaults);
    Param("header", name, GetDescription(values, name, tr, md), "String", d.Declared? && d.spec.required,
          None, None, None, if d.Declared? && Truthy(d.spec.default) then Some(d.spec.default) else None, None)
  }

  /** `header_params`: one `header` entry of type `String` per header, in
      order; required only for a declared header marked required; a default
      only when one is given. */
  function HeaderParams(headers: Dict<string, ParamDecl>, tr: Translations, md: Markdown): (r: seq<Param>)
    requires headers.Valid()
    ensures |r| == |headers.keys|
    ensures forall i :: 0 <= i < |r| ==>
      var d := headers.entries[headers.keys[i]];
      && r[i].paramType == "header" && r[i].dataType == "String" && r[i].name == headers.keys[i]
      && r[i].description == GetDescription(OptionsOf(d, HeaderDefaults), headers.keys[i], tr, md)
      && (r[i].required <==> d.Declared? && d.spec.required)
      && (r[i].defaultValue.Some? <==> d.Declared? && Truthy(d.spec.default))
      && (r[i].defaultValue.Some? ==> r[i].defaultValue.value == d.spec.default)
      && r[i].allowMultiple.None? && r[i].format.None? && r[i].items.None? && r[i].enumValues.None?
  {
    seq(|headers.keys|, i requires 0 <= i < |headers.keys| =>
      assert headers.keys[i] in headers.entries;
      HeaderParam(headers.keys[i], headers.entries[headers.keys[i]], tr, md))
  }

  // ---------------------------------------------------------------------------
  // parse_params

  /** The Swagger type a declaration names (`string` when it names none). */
  function DeclaredType(values: ParamSpec): string {
    SelectDataType(values.dataType.GetOr("string"))
  }

  /** One entry of `parse_params`. */
  function ParseParam(name: string, d: ParamDecl, route: Route, tr: Translations, md: Markdown): (r: Param)
    ensures var values := OptionsOf(d, ParamDefaults); var dataType := DeclaredType(values);
      && r.paramType == (if values.paramType.Some? then values.paramType.value else SelectParamType(dataType, name, route.path, route.httpMethod))
      && r.name == (if values.fullName.Some? then values.fullName.value else name)
      && r.required == values.required
      && r.allowMultiple == Some(values.isArray)
      && (values.isArray ==> r.dataType == "array" && r.items == Some(dataType))
      && (!values.isArray ==> r.dataType == dataType && r.items.None?)
      && (r.format == Some("int32") <==> dataType == "integer")
      && (r.format == Some("int64") <==> dataType == "long")
      && (r.format.None? <==> dataType != "integer" && dataType != "long")
      && (r.defaultValue.Some? <==> Truthy(values.default))
      && (r.defaultValue.Some? ==> r.defaultValue.value == values.default)
      && r.enumValues == GetParamValues(values.values)
      && r.description == GetDescription(values, name, tr, md)
  {
    var values := OptionsOf(d, ParamDefaults);
    var dataType := DeclaredType(values);
    Param(
      values.paramType.GetOr(SelectParamType(dataType, name, route.path, route.httpMethod)),
      values.fullName.GetOr(name),
      GetDescription(values, name, tr, md),
      if values.isArray then "array" else dataType,
      values.required,
      Some(values.isArray),
      if dataType == "integer" then Some("int32") else if dataType == "long" then Some("int64") else None,
      if values.isArray then Some(dataType) else None,
      if Truthy(values.default) then Some(values.default) else None,
      GetParamValues(values.values))
  }

  /** `parse_params`: one entry per parameter, in order. */
  function ParseParams(params: Dict<string, ParamDecl>, route: Route, tr: Translations, md: Markdown): (r: seq<Param>)
    requires params.Valid()
    ensures |r| == |params.keys|
    ensures forall i :: 0 <= i < |r| ==> r[i] == ParseParam(params.keys[i], params.entries[params.keys[i]], route, tr, md)
  {
    seq(|params.keys|, i requires 0 <= i < |params.keys| =>
      assert params.keys[i] in params.entries;
      ParseParam(params.keys[i], params.entries[params.keys[i]], route, tr, md))
  }

  // ---------------------------------------------------------------------------
  // parse_array_params

  /** A parameter declared with `type: 'Array'`. */
  predicate IsArrayDecl(d: ParamDecl) {
    d.Declared? && d.spec.dataType == Some("Array")
  }

  /** The `Array` parameter most recently seen among the first `n`. */
  function LastArray(params: Dict<string, ParamDecl>, n: nat): (r: Option<string>)
    requires params.Valid() && n <= |params.keys|
    ensures r.Some? ==> exists j :: 0 <= j < n && params.keys[j] == r.value && IsArrayDecl(params.entries[r.value])
    decreases n
  {
    if n == 0 then None
    else
      assert params.keys[n - 1] in params.entries;
      if IsArrayDecl(params.entries[params.keys[n - 1]]) then Some(params.keys[n - 1]) else LastArray(params, n - 1)
  }

  /** The name a sub-parameter of array `array` gets: the array's name, `[]`,
      and everything of the old name after the array's name. */
  function Rename(k: string, arrayName: string): string
    requires |arrayName| <= |k|
  {
    arrayName + "[]" + k[|arrayName|..]
  }

  /** Dropping the inserted `[]` gives the old name back. */
  lemma RenameRoundTrip(k: string, arrayName: string)
    requires StartsWith(k, arrayName + "[")
    ensures var nk := Rename(k, arrayName);
      StartsWith(nk, arrayName + "[][") && nk[..|arrayName|] + nk[|arrayName| + 2..] == k
  {
    var nk := Rename(k, arrayName);
    assert nk[..|arrayName|] == arrayName;
    assert nk[|arrayName| + 2..] == k[|arrayName|..];
    assert k == k[..|arrayName|] + k[|arrayName|..];
    assert k[..|arrayName|] == (arrayName + "[")[..|arrayName|] == arrayName;
    assert nk[..|arrayName| + 3] == arrayName + "[][" by {
      assert k[|arrayName|] == '[';
    }
  }

  /** The key a parameter is stored under, `array` being the last `Array`
      parameter seen before it. */
  function NewKey(k: string, arrayName: Option<string>): (r: string)
    ensures arrayName.None? || !StartsWith(k, arrayName.value + "[") ==> r == k
    ensures arrayName.Some? && StartsWith(k, arrayName.value + "[") ==> r == Rename(k, arrayName.value)
  {
    if arrayName.Some? && StartsWith(k, arrayName.value + "[") then Rename(k, arrayName.value) else k
  }

  /** The key under which the `i`-th parameter is stored. */
  function NewKeyAt(params: Dict<string, ParamDecl>, i: nat): string
    requires params.Valid() && i < |params.keys|
  {
    NewKey(params.keys[i], LastArray(params, i))
  }

  /** The keys the first `n` iterations store under, in order; an `Array`
      parameter stores nothing. */
  function EmittedKeys(params: Dict<string, ParamDecl>, n: nat): (r: seq<string>)
    requires params.Valid() && n <= |params.keys|
    decreases n
  {
    if n == 0 then []
    else
      assert params.keys[n - 1] in params.entries;
      EmittedKeys(params, n - 1)
        + (if IsArrayDecl(params.entries[params.keys[n - 1]]) then [] else [NewKeyAt(params, n - 1)])
  }

  /** `modified_params` after the first `n` iterations. */
  function ArrayRenamed(params: Dict<string, ParamDecl>, n: nat): (r: Dict<string, ParamDecl>)
    requires params.Valid() && n <= |params.keys|
    ensures r.Valid()
    decreases n
  {
    if n == 0 then EmptyDict()
    else
      var k := params.keys[n - 1];
      assert k in params.entries;
      var d := ArrayRenamed(params, n - 1);
      if IsArrayDecl(params.entries[k]) then d else d.Put(NewKeyAt(params, n - 1), params.entries[k])
  }

  /** The result lists exactly the keys stored under, in the order they were
      first stored under; an `Array` parameter's own name only when a later
      parameter is renamed to it. */
  lemma {:induction false} ArrayRenamedKeys(params: Dict<string, ParamDecl>, n: nat)
    requires params.Valid() && n <= |params.keys|
    ensures ArrayRenamed(params, n).keys == Nub(EmittedKeys(params, n))
    decreases n
  {
    if n == 0 {
      assert EmittedKeys(params, 0) == [];
      assert ArrayRenamed(params, 0).keys == [];
    } else {
      ArrayRenamedKeys(params, n - 1);
      ArrayRenamedKeysStep(params, n);
    }
  }

  lemma ArrayRenamedKeysStep(params: Dict<string, ParamDecl>, n: nat)
    requires params.Valid() && 0 < n <= |params.keys|
    requires ArrayRenamed(params, n - 1).keys == Nub(EmittedKeys(params, n - 1))
    ensures ArrayRenamed(params, n).keys == Nub(EmittedKeys(params, n))
  {
    var k := params.keys[n - 1];
    assert k in params.entries;
    var e := EmittedKeys(params, n - 1);
    var d := ArrayRenamed(params, n - 1);
    if IsArrayDecl(params.entries[k]) {
      assert EmittedKeys(params, n) == e;
      assert ArrayRenamed(params, n) == d;
    } else {
      var nk := NewKeyAt(params, n - 1);
      assert EmittedKeys(params, n) == e + [nk];
      assert ArrayRenamed(params, n) == d.Put(nk, params.entries[k]);
      NubSnoc(e, nk);
    }
  }

  /** A key is in the result exactly when some iteration stored under it. */
  lemma ArrayRenamedMember(params: Dict<string, ParamDecl>, k: string)
    requires params.Valid()
    ensures k in ArrayRenamed(params, |params.keys|).entries <==> k in EmittedKeys(params, |params.keys|)
  {
    ArrayRenamedKeys(params, |params.keys|);
  }

  /** A parameter's value is stored under its new key unless a later
      parameter takes the same key. */
  lemma {:induction false} ArrayRenamedValue(params: Dict<string, ParamDecl>, n: nat, i: nat)
    requires params.Valid() && i < n <= |params.keys|
    requires params.keys[i] in params.entries && !IsArrayDecl(params.entries[params.keys[i]])
    requires forall j :: i < j < n && params.keys[j] in params.entries && !IsArrayDecl(params.entries[params.keys[j]]) ==>
      NewKeyAt(params, j) != NewKeyAt(params, i)
    ensures NewKeyAt(params, i) in ArrayRenamed(params, n).entries
    ensures ArrayRenamed(params, n).entries[NewKeyAt(params, i)] == params.entries[params.keys[i]]
    decreases n
  {
    if n > i + 1 {
      ArrayRenamedValue(params, n - 1, i);
      assert params.keys[n - 1] in params.entries;
    }
  }

  /** `parse_array_params`: walk the parameters in order, remember the last
      `Array` parameter instead of storing it, and store every other
      parameter under its new key. */
  method ParseArrayParams(params: Dict<string, ParamDecl>) returns (modified: Dict<string, ParamDecl>)
    requires params.Valid()
    ensures modified == ArrayRenamed(params, |params.keys|)
  {
    modified := EmptyDict();
    var arrayParam: Option<string> := None;
    var i := 0;
    while i < |params.keys|
      invariant 0 <= i <= |params.keys|
      invariant arrayParam == LastArray(params, i)
      invariant modified == ArrayRenamed(params, i)
    {
      var k := params.keys[i];
      assert k in params.entries;
      if IsArrayDecl(params.entries[k]) {
        arrayParam := Some(k);
      } else {
        var newKey := k;
        if arrayParam.Some? && StartsWith(k, arrayParam.value + "[") {
          newKey := Rename(k, arrayParam.value);
        }
        modified := modified.Put(newKey, params.entries[k]);
      }
      i := i + 1;
    }
  }

  /** `k.to_s.split(array)[1]` as written: the text between the first and the
      second occurrence of the array's name, so a name that contains the
      array's name again loses its tail. */
  function RenameAsWritten(k: string, arrayName: string): string
    requires arrayName != [] && arrayName[0] != '[' && StartsWith(k, arrayName + "[")
  {
    var rest := k[|arrayName|..];
    var field := if Contains(rest, arrayName) then rest[..IndexOf(rest, arrayName)] else rest;
    arrayName + "[]" + field
  }

  /** The two agree when the array's name does not occur again. */
  lemma RenameAsWrittenAgrees(k: string, arrayName: string)
    requires arrayName != [] && arrayName[0] != '[' && StartsWith(k, arrayName + "[")
    requires !Contains(k[|arrayName|..], arrayName)
    ensures RenameAsWritten(k, arrayName) == Rename(k, arrayName)
  {
  }

  /** `a` declared as an array and `a[name]` after it: the code stores the
      sub-parameter under `a[][n`, cut at the second `a`. */
  lemma RenameAsWrittenTruncates()
    ensures RenameAsWritten("a[name]", "a") == "a[][n"
    ensures Rename("a[name]", "a") == "a[][name]"
  {
    var rest := "a[name]"[1..];
    assert rest == "[name]";
    assert StartsWith(rest[2..], "a");
    assert !StartsWith(rest, "a") && !StartsWith(rest[1..], "a");
    assert Contains(rest, "a") by {
      assert Contains(rest[1..], "a") by {
        assert rest[1..][1..] == rest[2..];
      }
    }
    var i := IndexOf(rest, "a");
    assert rest[i] == 'a' by {
      assert rest[i..i + 1][0] == rest[i];
    }
    assert i == 2;
    assert rest[..2] == "[n";
  }

  // ---------------------------------------------------------------------------
  // non_nested_params

  /** `p =~ /^#{Regexp.quote parent}\[.+\]$/` for names without a newline:
      `p` is `parent[`, at least one character, then `]`. */
  predicate NestedUnder(parent: string, p: string) {
    |p| >= |parent| + 3 && StartsWith(p, parent + "[") && p[|p| - 1] == ']'
  }

  /** Some listed name is nested under `k`. */
  predicate HasNestedChild(keys: seq<string>, k: string) {
    exists j :: 0 <= j < |keys| && NestedUnder(k, keys[j])
  }

  /** A truthy `:required` option. */
  predicate Required(d: ParamDecl) {
    d.Declared? && d.spec.required
  }

  /** `[:required] = false`: only the flag changes. */
  function Relaxed(d: ParamDecl): (r: ParamDecl)
    ensures !Required(r)
    ensures r.Declared? == d.Declared? && (d.Declared? ==> r.spec == d.spec.(required := false))
  {
    if d.Declared? then Declared(d.spec.(required := false)) else d
  }

  /** The inner `count` for parent `parent` over the first `m` names, when
      the parent is not required: each of them nested under it is relaxed. */
  function RelaxChildren(d: Dict<string, ParamDecl>, parent: string, m: nat): (r: Dict<string, ParamDecl>)
    requires d.Valid() && m <= |d.keys|
    ensures r.Valid() && r.keys == d.keys
    decreases m
  {
    if m == 0 then d
    else
      var r := RelaxChildren(d, parent, m - 1);
      var p := d.keys[m - 1];
      assert p in r.entries;
      if NestedUnder(parent, p) then r.Put(p, Relaxed(r.entries[p])) else r
  }

  /** The duplicated parameters after the first `n` turns of the `reject`
      block; each turn reads its parent's flag as earlier turns left it. */
  function RelaxUpTo(params: Dict<string, ParamDecl>, n: nat): (r: Dict<string, ParamDecl>)
    requires params.Valid() && n <= |params.keys|
    ensures r.Valid() && r.keys == params.keys
    decreases n
  {
    if n == 0 then params
    else
      var d := RelaxUpTo(params, n - 1);
      var parent := params.keys[n - 1];
      assert parent in d.entries;
      if Required(d.entries[parent]) then d else RelaxChildren(d, parent, |d.keys|)
  }

  /** The first `n` names that have no nested name, in order. */
  function KeptUpTo(keys: seq<string>, n: nat): (r: seq<string>)
    requires n <= |keys|
    decreases n
  {
    if n == 0 then []
    else KeptUpTo(keys, n - 1) + (if HasNestedChild(keys, keys[n - 1]) then [] else [keys[n - 1]])
  }

  /** `non_nested_params`: the parameters with no nested name, in order, with
      the flags as the relaxing left them. */
  function NonNested(params: Dict<string, ParamDecl>): (r: Dict<string, ParamDecl>)
    requires params.Valid()
  {
    var d := RelaxUpTo(params, |params.keys|);
    var kept := KeptUpTo(params.keys, |params.keys|);
    Dict(kept, map k | k in d.entries && k in kept :: d.entries[k])
  }

  method NonNestedParams(params: Dict<string, ParamDecl>) returns (r: Dict<string, ParamDecl>)
    requires params.Valid()
    ensures r == NonNested(params)
  {
    var dup := params;
    var kept: seq<string> := [];
    var i := 0;
    while i < |dup.keys|
      invariant 0 <= i <= |params.keys|
      invariant dup == RelaxUpTo(params, i)
      invariant kept == KeptUpTo(params.keys, i)
    {
      var param := dup.keys[i];
      assert param in dup.entries;
      var value := dup.entries[param];
      var count;
      dup, count := CountNested(dup, param, value);
      assert dup == RelaxUpTo(params, i + 1);
      if count == 0 {
        kept := kept + [param];
      }
      assert kept == KeptUpTo(params.keys, i + 1);
      i := i + 1;
    }
    assert dup == RelaxUpTo(params, |params.keys|) && kept == KeptUpTo(params.keys, |params.keys|);
    r := Dict(kept, map k | k in dup.entries && k in kept :: dup.entries[k]);
  }

  /** The `count` block of one `reject` turn: counts the names nested under
      `param`, relaxing each of them when `value` (the parameter's own
      options) is not required. */
  method CountNested(dup: Dict<string, ParamDecl>, param: string, value: ParamDecl)
    returns (relaxed: Dict<string, ParamDecl>, count: nat)
    requires dup.Valid()
    ensures relaxed == if Required(value) then dup else RelaxChildren(dup, param, |dup.keys|)
    ensures count > 0 <==> HasNestedChild(dup.keys, param)
  {
    relaxed := dup;
    count := 0;
    var j := 0;
    while j < |dup.keys|
      invariant 0 <= j <= |dup.keys|
      invariant relaxed == if Required(value) then dup else RelaxChildren(dup, param, j)
      invariant count > 0 <==> exists j' :: 0 <= j' < j && NestedUnder(param, dup.keys[j'])
    {
      var p := dup.keys[j];
      var matched := NestedUnder(param, p);
      if matched && !Required(value) {
        relaxed := relaxed.Put(p, Relaxed(relaxed.entries[p]));
      }
      if matched {
        count := count + 1;
      }
      j := j + 1;
    }
  }

  /** A name is kept exactly when it is listed and has no nested name. */
  lemma {:induction false} KeptMember(keys: seq<string>, n: nat, k: string)
    requires n <= |keys|
    ensures k in KeptUpTo(keys, n) <==> (exists i :: 0 <= i < n && keys[i] == k) && !HasNestedChild(keys, k)
    decreases n
  {
    if n > 0 {
      KeptMember(keys, n - 1, k);
      if keys[n - 1] == k && !HasNestedChild(keys, k) {
        assert k in KeptUpTo(keys, n);
      }
    }
  }

  /** The result lists each parameter that has no nested name, and nothing else. */
  lemma NonNestedKeys(params: Dict<string, ParamDecl>)
    requires params.Valid()
    ensures NonNested(params).Valid()
    ensures forall k :: k in NonNested(params).entries <==> k in params.entries && !HasNestedChild(params.keys, k)
  {
    var r := NonNested(params);
    forall k ensures k in r.entries <==> k in params.entries && !HasNestedChild(params.keys, k)
                 ensures k in r.keys <==> k in r.entries {
      KeptMember(params.keys, |params.keys|, k);
      if k in params.entries {
        var i :| 0 <= i < |params.keys| && params.keys[i] == k;
      }
    }
  }

  /** A value that is the declared one, or the declared one made optional
      because some parameter's name has it nested. */
  predicate FromDeclared(params: Dict<string, ParamDecl>, k: string, v: ParamDecl)
    requires k in params.entries
  {
    v == params.entries[k] ||
    (v == Relaxed(params.entries[k]) && exists j :: 0 <= j < |params.keys| && NestedUnder(params.keys[j], k))
  }

  lemma {:induction false} RelaxChildrenOrigin(d: Dict<string, ParamDecl>, parent: string, m: nat, k: string)
    requires d.Valid() && m <= |d.keys| && k in d.entries
    ensures var v := RelaxChildren(d, parent, m).entries[k];
      v == d.entries[k] || (NestedUnder(parent, k) && v == Relaxed(d.entries[k]))
    decreases m
  {
    if m > 0 {
      RelaxChildrenOrigin(d, parent, m - 1, k);
    }
  }

  lemma {:induction false} RelaxUpToOrigin(params: Dict<string, ParamDecl>, n: nat, k: string)
    requires params.Valid() && n <= |params.keys| && k in params.entries
    ensures FromDeclared(params, k, RelaxUpTo(params, n).entries[k])
    decreases n
  {
    if n > 0 {
      RelaxUpToOrigin(params, n - 1, k);
      var d := RelaxUpTo(params, n - 1);
      var parent := params.keys[n - 1];
      assert parent in d.entries;
      if !Required(d.entries[parent]) {
        RelaxChildrenOrigin(d, parent, |d.keys|, k);
      }
    }
  }

  /** Only the `required` flag ever changes, and only for a name nested under
      some parameter's name. */
  lemma NonNestedValues(params: Dict<string, ParamDecl>, k: string)
    requires params.Valid() && k in NonNested(params).entries
    ensures k in params.entries && FromDeclared(params, k, NonNested(params).entries[k])
  {
    RelaxUpToOrigin(params, |params.keys|, k);
  }

  /** Relaxing never makes a parameter required again. */
  lemma {:induction false} RelaxChildrenKeepsOptional(d: Dict<string, ParamDecl>, parent: string, m: nat, k: string)
    requires d.Valid() && m <= |d.keys| && k in d.entries && !Required(d.entries[k])
    ensures !Required(RelaxChildren(d, parent, m).entries[k])
  {
    RelaxChildrenOrigin(d, parent, m, k);
  }

  /** Every name nested under the parent among the first `m` is optional afterwards. */
  lemma {:induction false} RelaxChildrenRelaxes(d: Dict<string, ParamDecl>, parent: string, m: nat, j: nat)
    requires d.Valid() && j < m <= |d.keys| && NestedUnder(parent, d.keys[j])
    ensures d.keys[j] in d.entries && !Required(RelaxChildren(d, parent, m).entries[d.keys[j]])
    decreases m
  {
    assert d.keys[j] in d.entries;
    if m > j + 1 {
      RelaxChildrenRelaxes(d, parent, m - 1, j);
    }
  }

  lemma {:induction false} RelaxUpToKeepsOptional(params: Dict<string, ParamDecl>, m: nat, n: nat, k: string)
    requires params.Valid() && m <= n <= |params.keys| && k in params.entries
    requires !Required(RelaxUpTo(params, m).entries[k])
    ensures !Required(RelaxUpTo(params, n).entries[k])
    decreases n
  {
    if n > m {
      RelaxUpToKeepsOptional(params, m, n - 1, k);
      var d := RelaxUpTo(params, n - 1);
      var parent := params.keys[n - 1];
      assert parent in d.entries;
      if !Required(d.entries[parent]) {
        RelaxChildrenKeepsOptional(d, parent, |d.keys|, k);
      }
    }
  }

  /** A parameter that is not required makes every name nested under it
      optional; the parent's own flag is left as it is. */
  lemma ChildrenRelaxed(params: Dict<string, ParamDecl>, i: nat, c: string)
    requires params.Valid() && i < |params.keys|
    requires params.keys[i] in params.entries && !Required(params.entries[params.keys[i]])
    requires c in NonNested(params).entries && NestedUnder(params.keys[i], c)
    ensures !Required(NonNested(params).entries[c])
  {
    var parent := params.keys[i];
    var d := RelaxUpTo(params, i);
    RelaxUpToOrigin(params, i, parent);
    assert !Required(d.entries[parent]);
    assert c in params.entries;
    var j :| 0 <= j < |params.keys| && params.keys[j] == c;
    RelaxChildrenRelaxes(d, parent, |d.keys|, j);
    assert RelaxUpTo(params, i + 1) == RelaxChildren(d, parent, |d.keys|);
    RelaxUpToKeepsOptional(params, i + 1, |params.keys|, c);
  }

  /** Nesting is transitive: `a[x][y]` is nested under `a`. */
  lemma NestedTransitive(a: string, b: string, c: string)
    requires NestedUnder(a, b) && NestedUnder(b, c)
    ensures NestedUnder(a, c)
  {
    assert c[..|a + "["|] == c[..|b + "["|][..|a + "["|] == (b + "[")[..|a + "["|] == b[..|a + "["|] == a + "[";
  }

  /** After relaxing under `parent`, a name is required exactly when it was
      and is not nested under `parent`. */
  lemma RelaxChildrenRequired(d: Dict<string, ParamDecl>, parent: string, k: string)
    requires d.Valid() && k in d.entries
    ensures Required(RelaxChildren(d, parent, |d.keys|).entries[k]) <==> Required(d.entries[k]) && !NestedUnder(parent, k)
  {
    RelaxChildrenOrigin(d, parent, |d.keys|, k);
    if NestedUnder(parent, k) {
      assert k in d.keys;
      var j :| 0 <= j < |d.keys| && d.keys[j] == k;
      RelaxChildrenRelaxes(d, parent, |d.keys|, j);
    }
  }

  /** The name was declared required, and so was every one of the first `n`
      names it is nested under. */
  ghost predicate RequiredThroughout(params: Dict<string, ParamDecl>, n: nat, k: string)
    requires params.Valid() && n <= |params.keys| && k in params.entries
  {
    Required(params.entries[k]) &&
    forall j :: 0 <= j < n && NestedUnder(params.keys[j], k) ==>
      params.keys[j] in params.entries && Required(params.entries[params.keys[j]])
  }

  /** After `n` turns a name is still required exactly when it and all of the
      first `n` names it is nested under were declared required: a parent
      relaxed by an earlier turn relaxes only names its own relaxing parent
      already covers. */
  lemma {:induction false} RelaxUpToRequired(params: Dict<string, ParamDecl>, n: nat, k: string)
    requires params.Valid() && n <= |params.keys| && k in params.entries
    ensures RequiredAgrees(params, n, k)
    decreases n
  {
    if n == 0 {
      assert RelaxUpTo(params, 0) == params;
      assert RequiredThroughout(params, 0, k) == Required(params.entries[k]);
    } else {
      var p := params.keys[n - 1];
      assert p in params.entries;
      RelaxUpToRequired(params, n - 1, k);
      RelaxUpToRequired(params, n - 1, p);
      RelaxUpToRequiredStep(params, n, k);
    }
  }

  /** The flag after `n` turns is as `RequiredThroughout` says. */
  ghost predicate RequiredAgrees(params: Dict<string, ParamDecl>, n: nat, k: string)
    requires params.Valid() && n <= |params.keys| && k in params.entries
  {
    Required(RelaxUpTo(params, n).entries[k]) <==> RequiredThroughout(params, n, k)
  }

  lemma RelaxUpToRequiredStep(params: Dict<string, ParamDecl>, n: nat, k: string)
    requires params.Valid() && 0 < n <= |params.keys| && k in params.entries && params.keys[n - 1] in params.entries
    requires RequiredAgrees(params, n - 1, k) && RequiredAgrees(params, n - 1, params.keys[n - 1])
    ensures RequiredAgrees(params, n, k)
  {
    var d := RelaxUpTo(params, n - 1);
    var p := params.keys[n - 1];
    RequiredThroughoutNext(params, n, k);
    if Required(d.entries[p]) {
      assert RelaxUpTo(params, n) == d;
    } else {
      assert RelaxUpTo(params, n) == RelaxChildren(d, p, |d.keys|);
      RelaxChildrenRequired(d, p, k);
      if NestedUnder(p, k) && Required(params.entries[p]) {
        var j :| 0 <= j < n - 1 && NestedUnder(params.keys[j], p) &&
          !(params.keys[j] in params.entries && Required(params.entries[params.keys[j]]));
        NestedTransitive(params.keys[j], p, k);
        assert !RequiredThroughout(params, n - 1, k);
      }
    }
  }

  lemma RequiredThroughoutNext(params: Dict<string, ParamDecl>, n: nat, k: string)
    requires params.Valid() && 0 < n <= |params.keys| && k in params.entries && params.keys[n - 1] in params.entries
    ensures RequiredThroughout(params, n, k) <==>
      RequiredThroughout(params, n - 1, k) &&
      (NestedUnder(params.keys[n - 1], k) ==> Required(params.entries[params.keys[n - 1]]))
  {
  }

  /** A kept parameter stays required exactly when it was declared required
      and every parameter it is nested under was declared required too. */
  lemma NonNestedRequired(params: Dict<string, ParamDecl>, c: string)
    requires params.Valid() && c in NonNested(params).entries
    ensures c in params.entries
    ensures Required(NonNested(params).entries[c]) <==>
      Required(params.entries[c]) &&
      forall j :: 0 <= j < |params.keys| && NestedUnder(params.keys[j], c) ==>
        params.keys[j] in params.entries && Required(params.entries[params.keys[j]])
  {
    NonNestedKeys(params);
    RelaxUpToRequired(params, |params.keys|, c);
  }

  // ---------------------------------------------------------------------------
  // parameters

  /** The declared parameters as `parse_params` lists them: array parameters
      renamed, nested parameters removed, each parsed. */
  function ParsedParams(route: Route, tr: Translations, md: Markdown): (r: seq<Param>)
    requires route.params.Valid()
    ensures var kept := NonNested(ArrayRenamed(route.params, |route.params.keys|));
      |r| == |kept.keys| &&
      forall i :: 0 <= i < |r| ==> kept.keys[i] in kept.entries && r[i] == ParseParam(kept.keys[i], kept.entries[kept.keys[i]], route, tr, md)
  {
    var renamed := ArrayRenamed(route.params, |route.params.keys|);
    NonNestedKeys(renamed);
    ParseParams(NonNested(renamed), route, tr, md)
  }

  /** `parameters`: the header entries, then the parsed parameters. */
  method Parameters(route: Route, tr: Translations, md: Markdown) returns (ps: seq<Param>)
    requires route.params.Valid() && route.headers.Valid()
    ensures |ps| == |route.headers.keys| + |ParsedParams(route, tr, md)|
    ensures ps[..|route.headers.keys|] == HeaderParams(route.headers, tr, md)
    ensures ps[|route.headers.keys|..] == ParsedParams(route, tr, md)
  {
    var renamed := ParseArrayParams(route.params);
    var kept := NonNestedParams(renamed);
    NonNestedKeys(renamed);
    ps := HeaderParams(route.headers, tr, md) + ParseParams(kept, route, tr, md);
  }

  /** Every parsed entry comes from a parameter, after renaming, that has no
      nested parameter; and every such parameter is listed. */
  lemma ParsedParamsNames(route: Route, tr: Translations, md: Markdown, k: string)
    requires route.params.Valid()
    ensures var renamed := ArrayRenamed(route.params, |route.params.keys|);
      var kept := NonNested(renamed);
      (k in kept.keys <==> k in renamed.entries && !HasNestedChild(renamed.keys, k)) &&
      (k in kept.keys ==> k in kept.entries && ParseParam(k, kept.entries[k], route, tr, md) in ParsedParams(route, tr, md))
  {
    var renamed := ArrayRenamed(route.params, |route.params.keys|);
    var kept := NonNested(renamed);
    NonNestedKeys(renamed);
    var r := ParsedParams(route, tr, md);
    if k in kept.keys {
      var i :| 0 <= i < |kept.keys| && kept.keys[i] == k;
      assert r[i] == ParseParam(k, kept.entries[k], route, tr, md);
    }
  }
}
