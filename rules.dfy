/**
  The document-level bodies of the linter's rules: what each rule reports for
  one family of one version, given the files it reads, already parsed. Every
  body runs inside a `try`: what it emitted before an exception stays
  recorded, what it had collected in a local array is lost, and its `catch`
  either reports the exception or swallows it.
 */
module Rules {
  import opened Json
  import opened Walker
  import opened Findings
  import opened Resolver

  const VERSIONS: seq<string> := ["2025-09-29", "2025-12-12", "2026-01-16", "2026-01-30", "unreleased"]

  /** The version the description and example coverage rules look at. */
  const UNRELEASED: string := "unreleased"

  /** For each family, the definitions it must not declare, in key order. */
  const PROHIBITED_SCHEMAS: seq<(string, seq<string>)> := [("agentic_checkout", ["Refund"])]

  /** Property names that hold an amount and must be integers. */
  const CRITICAL_AMOUNT_FIELDS: seq<string> :=
    ["base_amount", "discount", "subtotal", "tax", "total", "amount", "max_amount", "unit_amount"]

  /** A file's content: parsed, or refused by the parser with its message. */
  datatype Loaded = Parsed(doc: Json) | Unparsable(message: string)

  /** A file the linter looks for; `None` when it does not exist. */
  type File = Option<Loaded>

  /**
    What the linter finds on disk. The listings give, per version, the family
    names found in the `json-schema` and `openapi` directories (a version with
    no entry has no directory). The document maps give the file of a
    (version, family) pair; a pair with no entry has no file.
   */
  datatype Corpus = Corpus(
    jsonSchemaSpecs: map<string, seq<string>>,
    openApiSpecs: map<string, seq<string>>,
    jsonSchemas: map<(string, string), Loaded>,
    openApis: map<(string, string), Loaded>,
    exampleSets: map<(string, string), Loaded>)

  function Listing(m: map<string, seq<string>>, version: string): seq<string> {
    if version in m then m[version] else []
  }

  function FileAt(m: map<(string, string), Loaded>, version: string, spec: string): File {
    if (version, spec) in m then Some(m[(version, spec)]) else None
  }

  /** What the schema validator answers for one example. */
  datatype Verdict = Conforms | Mismatches(details: seq<string>)

  /**
    The schema validator, as far as the linter depends on it: whether it
    registers a document, and, for a registered document, a key and an
    example, either nothing (no schema under that key, or the validator threw)
    or a verdict.
   */
  datatype Ajv = Ajv(accepts: Json -> bool, check: (Json, string, Json) -> Option<Verdict>)

  // ---------------------------------------------------------------- partial runs

  /**
    A rule body cut short or not: the notices it emitted, what it pushed onto
    its local array, and the exception that ended it, if any.
   */
  datatype Partial = Partial(emitted: seq<Notice>, collected: seq<string>, thrown: Option<Exception>)

  const Nothing: Partial := Partial([], [], None)

  /** `first`, then `rest` unless `first` threw. */
  function Then(first: Partial, rest: Partial): (p: Partial)
    ensures first.thrown.Some? ==> p == first
    ensures first.thrown.None? ==> p.emitted == first.emitted + rest.emitted && p.collected == first.collected + rest.collected
    ensures p.thrown.None? <==> first.thrown.None? && rest.thrown.None?
  {
    if first.thrown.Some? then first
    else Partial(first.emitted + rest.emitted, first.collected + rest.collected, rest.thrown)
  }

  /** `Object.keys(defs).forEach(...)`: the step for each entry, in order, until one throws. */
  function Sweep(ms: seq<Member>, step: Member -> Partial): (p: Partial)
    ensures p.thrown.None? <==> forall i :: 0 <= i < |ms| ==> step(ms[i]).thrown.None?
    decreases |ms|
  {
    if ms == [] then Nothing
    else
      var rest := Sweep(ms[1..], step);
      assert forall i :: 1 <= i < |ms| ==> ms[i] == ms[1..][i - 1];
      Then(step(ms[0]), rest)
  }

  /** A property every step's notices have, the notices of the whole sweep have. */
  lemma {:induction false} SweepKeeps(ms: seq<Member>, step: Member -> Partial, ok: Notice -> bool)
    requires forall i :: 0 <= i < |ms| ==> forall n | n in step(ms[i]).emitted :: ok(n)
    ensures forall n | n in Sweep(ms, step).emitted :: ok(n)
    decreases |ms|
  {
    if ms != [] {
      assert forall i :: 1 <= i < |ms| ==> ms[i] == ms[1..][i - 1];
      SweepKeeps(ms[1..], step, ok);
    }
  }

  /** One `error(...)` per item, in order. */
  function ErrorEach(version: string, spec: string, items: seq<string>, issue: string -> Issue): (ns: seq<Notice>)
    ensures |ns| == |items|
    ensures forall i :: 0 <= i < |items| ==> ns[i] == Error(Finding(version, spec, issue(items[i])))
    ensures forall n | n in ns :: n.Error?
  {
    seq(|items|, i requires 0 <= i < |items| => Error(Finding(version, spec, issue(items[i]))))
  }

  /** An error per item is made of it by one of these. */
  function FieldIssue(path: string): Issue { FieldMissingDescription(path) }
  function ModelExampleIssue(model: string): Issue { ModelMissingExample(model) }
  function OpenApiFieldIssue(path: string): Issue { OpenApiFieldMissingDescription(path) }
  function OpenApiExampleIssue(schema: string): Issue { OpenApiSchemaMissingExample(schema) }

  /**
    The definitions a document declares: `$defs` for a JSON Schema, and
    `components.schemas` for an OpenAPI document (whose falsy `components`
    stands for the whole `&&`). Reading either from a null document throws.
   */
  function DefinitionsOf(doc: Json, openApi: bool): (r: Try<Value>)
    ensures r.Throw? <==> doc == JNull
  {
    if !openApi then ReadProp(Some(doc), "$defs")
    else
      match ReadProp(Some(doc), "components")
      case Throw(e) => Throw(e)
      case Ok(comps) => if Truthy(comps) then Ok(Get(comps.value, "schemas")) else Ok(None)
  }

  /** The entries a truthy definitions value is iterated over with. */
  function DefinitionEntries(defs: Value): seq<Member> {
    if Truthy(defs) then Entries(defs.value) else []
  }

  // ---------------------------------------------------------------- 1, 2: syntax

  /** `validateJsonSchemaSyntax` for one family (lines 141-161). */
  function SchemaSyntax(version: string, spec: string, file: File): (ns: seq<Notice>)
    ensures |ns| <= 1
    ensures ns == [] <==> file.Some? && file.value.Parsed? && Truthy(Get(file.value.doc, "$schema"))
    ensures ns != [] && ns[0].Warning? <==> file.None?
    ensures file == Some(Parsed(JNull)) ==> ns == [Error(Finding(version, spec, InvalidJson(NullRead("$schema"))))]
  {
    match file
    case None => [Warning(Finding(version, spec, SchemaNotFound))]
    case Some(Unparsable(m)) => [Error(Finding(version, spec, InvalidJson(SyntaxError(m))))]
    case Some(Parsed(doc)) =>
      match ReadProp(Some(doc), "$schema")
      case Throw(e) => [Error(Finding(version, spec, InvalidJson(e)))]
      case Ok(dialect) => if Truthy(dialect) then [] else [Error(Finding(version, spec, MissingSchemaDialect))]
  }

  /** `validateOpenApiSyntax` for one family (lines 173-192). */
  function OpenApiSyntax(version: string, spec: string, file: File): (ns: seq<Notice>)
    ensures |ns| <= 1
    ensures ns == [] <==> file.Some? && file.value.Parsed? && var doc := file.value.doc;
                          Truthy(Get(doc, "openapi")) && Truthy(Get(doc, "info")) && Truthy(Get(doc, "paths"))
    ensures ns != [] && ns[0].Warning? <==> file.None?
  {
    match file
    case None => [Warning(Finding(version, spec, OpenApiNotFound))]
    case Some(Unparsable(m)) => [Error(Finding(version, spec, InvalidYaml(SyntaxError(m))))]
    case Some(Parsed(doc)) =>
      match ReadProp(Some(doc), "openapi")
      case Throw(e) => [Error(Finding(version, spec, InvalidYaml(e)))]
      case Ok(o) =>
        if Truthy(o) && Truthy(Get(doc, "info")) && Truthy(Get(doc, "paths")) then []
        else [Error(Finding(version, spec, InvalidOpenApiStructure))]
  }

  // ---------------------------------------------------------------- 3: prohibited definitions

  /** `PROHIBITED_SCHEMAS[spec]` */
  function ProhibitedNames(spec: string): seq<string> {
    if spec == PROHIBITED_SCHEMAS[0].0 then PROHIBITED_SCHEMAS[0].1 else []
  }

  /** `Object.keys(PROHIBITED_SCHEMAS)` */
  function ProhibitedFamilies(): seq<string> {
    [PROHIBITED_SCHEMAS[0].0]
  }

  /** One error per forbidden name that is a truthy entry of a truthy `$defs` (lines 210-221). */
  function ProhibitedIn(version: string, spec: string, defs: Value, names: seq<string>): (ns: seq<Notice>)
    ensures |ns| <= |names|
    ensures forall n | n in ns :: n.Error? && n.finding.version == version && n.finding.spec == spec && n.finding.issue.ProhibitedSchema?
    ensures forall name :: Error(Finding(version, spec, ProhibitedSchema(name))) in ns <==>
                             name in names && Truthy(defs) && Truthy(Get(defs.value, name))
    decreases |names|
  {
    if names == [] then []
    else
      var here := if Truthy(defs) && Truthy(Get(defs.value, names[0])) then [Error(Finding(version, spec, ProhibitedSchema(names[0])))] else [];
      here + ProhibitedIn(version, spec, defs, names[1..])
  }

  /** `checkProhibitedSchemas` for one family: a missing, unparsable or null document reports nothing. */
  function ProhibitedCheck(version: string, spec: string, file: File): (ns: seq<Notice>)
    ensures file.None? || file.value.Unparsable? ==> ns == []
    ensures forall n | n in ns :: n.Error? && n.finding.issue.ProhibitedSchema?
  {
    match file
    case None => []
    case Some(Unparsable(_)) => []
    case Some(Parsed(doc)) =>
      match ReadProp(Some(doc), "$defs")
      case Throw(_) => []
      case Ok(defs) => ProhibitedIn(version, spec, defs, ProhibitedNames(spec))
  }

  // ---------------------------------------------------------------- 4: amount field types

  /** A property composed from other schemas is not type-checked (lines 256-258, 302-304). */
  predicate Composed(prop: Json) {
    Truthy(Get(prop, "$ref")) || Truthy(Get(prop, "allOf")) || Truthy(Get(prop, "oneOf")) || Truthy(Get(prop, "anyOf"))
  }

  /** A direct property the amount rule reports: an amount name, not composed, and `type !== 'integer'`. */
  predicate AmountReported(m: Member) {
    m.key in CRITICAL_AMOUNT_FIELDS && !Composed(m.value) && Get(m.value, "type") != Some(JStr("integer"))
  }

  function AmountNotice(version: string, spec: string, defName: string, m: Member, openApi: bool): Notice {
    Error(Finding(version, spec, AmountNotInteger(defName, m.key, Get(m.value, "type"), openApi)))
  }

  /** The amount rule's step for one property; reading `$ref` of a null amount property throws. */
  function AmountProp(version: string, spec: string, defName: string, m: Member, openApi: bool): (p: Partial)
    ensures p.collected == []
    ensures p.thrown.Some? <==> m.key in CRITICAL_AMOUNT_FIELDS && m.value == JNull
    ensures p.thrown.None? ==> p.emitted == if AmountReported(m) then [AmountNotice(version, spec, defName, m, openApi)] else []
  {
    if m.key !in CRITICAL_AMOUNT_FIELDS then Nothing
    else
      match ReadProp(Some(m.value), "$ref")
      case Throw(e) => Partial([], [], Some(e))
      case Ok(_) =>
        if Composed(m.value) then Nothing
        else if Get(m.value, "type") != Some(JStr("integer")) then Partial([AmountNotice(version, spec, defName, m, openApi)], [], None)
        else Nothing
  }

  /** The direct properties of a definition the amount rule visits: the entries of a truthy `properties`. */
  function DirectProperties(def: Json): seq<Member> {
    DefinitionEntries(Get(def, "properties"))
  }

  /** The amount rule's step for one definition; reading `properties` of a null definition throws. */
  function AmountDef(version: string, spec: string, d: Member, openApi: bool): Partial {
    match ReadProp(Some(d.value), "properties")
    case Throw(e) => Partial([], [], Some(e))
    case Ok(_) => Sweep(DirectProperties(d.value), m => AmountProp(version, spec, d.key, m, openApi))
  }

  /** `validateFieldTypes` for one file of either kind (lines 243-276, 289-321); every exception is swallowed. */
  function AmountCheck(version: string, spec: string, file: File, openApi: bool): (ns: seq<Notice>)
    ensures file.None? || file.value.Unparsable? ==> ns == []
    ensures forall n | n in ns :: n.Error? && n.finding.issue.AmountNotInteger? && n.finding.issue.openApi == openApi
  {
    match file
    case None => []
    case Some(Unparsable(_)) => []
    case Some(Parsed(doc)) =>
      match DefinitionsOf(doc, openApi)
      case Throw(_) => []
      case Ok(defs) =>
        var step := d => AmountDef(version, spec, d, openApi);
        var ok := (n: Notice) => n.Error? && n.finding.issue.AmountNotInteger? && n.finding.issue.openApi == openApi;
        forall i | 0 <= i < |DefinitionEntries(defs)| ensures forall n | n in step(DefinitionEntries(defs)[i]).emitted :: ok(n) {
          AmountDefEmitted(version, spec, DefinitionEntries(defs)[i], openApi);
        }
        SweepKeeps(DefinitionEntries(defs), step, ok);
        Sweep(DefinitionEntries(defs), step).emitted
  }

  /** Every notice of the amount rule for one definition is an amount error of the right kind of file. */
  lemma AmountDefEmitted(version: string, spec: string, d: Member, openApi: bool)
    ensures forall n | n in AmountDef(version, spec, d, openApi).emitted ::
              n.Error? && n.finding.issue.AmountNotInteger? && n.finding.issue.openApi == openApi
  {
    var step := m => AmountProp(version, spec, d.key, m, openApi);
    SweepKeeps(DirectProperties(d.value), step, (n: Notice) => n.Error? && n.finding.issue.AmountNotInteger? && n.finding.issue.openApi == openApi);
  }

  // ---------------------------------------------------------------- 5: field descriptions

  /**
    The description rule's step for one definition (lines 350-362): a falsy
    `description` is reported at once; the walk of the definition from the
    path `[defName]` is pushed onto the local array.
   */
  function DescribeDef(version: string, spec: string, d: Member): (p: Partial)
    ensures p.thrown.Some? <==> d.value == JNull
    ensures p.thrown.None? ==> p.collected == Joined(Walk(d.value, [Key(d.key)], JsonSchemaOptions))
    ensures forall n | n in p.emitted :: n.Error?
  {
    match ReadProp(Some(d.value), "description")
    case Throw(e) => Partial([], [], Some(e))
    case Ok(desc) =>
      var own := if Truthy(desc) then [] else [Error(Finding(version, spec, ModelMissingDescription(d.key)))];
      Partial(own, Joined(Walk(d.value, [Key(d.key)], JsonSchemaOptions)), None)
  }

  /** `validateFieldDescriptions` for one family (lines 333-378). */
  function FieldDescriptionsCheck(version: string, spec: string, file: File): (ns: seq<Notice>)
    ensures file.None? ==> ns == [Warning(Finding(version, spec, SchemaNotFound))]
    ensures file.Some? ==> forall n | n in ns :: n.Error?
    ensures file.Some? && file.value.Unparsable? ==>
              ns == [Error(Finding(version, spec, FieldDescriptionsFailed(SyntaxError(file.value.message))))]
  {
    match file
    case None => [Warning(Finding(version, spec, SchemaNotFound))]
    case Some(Unparsable(m)) => [Error(Finding(version, spec, FieldDescriptionsFailed(SyntaxError(m))))]
    case Some(Parsed(doc)) =>
      match DefinitionsOf(doc, false)
      case Throw(e) => [Error(Finding(version, spec, FieldDescriptionsFailed(e)))]
      case Ok(defs) =>
        var step := d => DescribeDef(version, spec, d);
        SweepKeeps(DefinitionEntries(defs), step, (n: Notice) => n.Error?);
        var p := Sweep(DefinitionEntries(defs), step);
        if p.thrown.Some? then p.emitted + [Error(Finding(version, spec, FieldDescriptionsFailed(p.thrown.value)))]
        else p.emitted + ErrorEach(version, spec, p.collected, FieldIssue)
  }

  // ---------------------------------------------------------------- 6: model examples

  /** A definition with neither `example` nor `examples` (line 410). */
  predicate LacksExample(def: Json) {
    !Truthy(Get(def, "example")) && !Truthy(Get(def, "examples"))
  }

  /** The example rule's step for one definition; reading `example` of a null definition throws. */
  function ExampleDef(d: Member): (p: Partial)
    ensures p.emitted == []
    ensures p.thrown.Some? <==> d.value == JNull
    ensures p.thrown.None? ==> p.collected == if LacksExample(d.value) then [d.key] else []
  {
    match ReadProp(Some(d.value), "example")
    case Throw(e) => Partial([], [], Some(e))
    case Ok(_) => if LacksExample(d.value) then Partial([], [d.key], None) else Nothing
  }

  /** `validateModelExamples` for one family (lines 388-428). */
  function ModelExamplesCheck(version: string, spec: string, file: File): (ns: seq<Notice>)
    ensures file.None? ==> ns == [Warning(Finding(version, spec, SchemaNotFound))]
    ensures file.Some? ==> forall n | n in ns :: n.Error? && (n.finding.issue.ModelMissingExample? || n.finding.issue.ModelExamplesFailed?)
  {
    match file
    case None => [Warning(Finding(version, spec, SchemaNotFound))]
    case Some(Unparsable(m)) => [Error(Finding(version, spec, ModelExamplesFailed(SyntaxError(m))))]
    case Some(Parsed(doc)) =>
      match DefinitionsOf(doc, false)
      case Throw(e) => [Error(Finding(version, spec, ModelExamplesFailed(e)))]
      case Ok(defs) =>
        var p := Sweep(DefinitionEntries(defs), ExampleDef);
        if p.thrown.Some? then [Error(Finding(version, spec, ModelExamplesFailed(p.thrown.value)))]
        else ErrorEach(version, spec, p.collected, ModelExampleIssue)
  }

  // ---------------------------------------------------------------- 7: OpenAPI descriptions

  /** The walks of the OpenAPI schemas, each from the path `[schemaName]`, concatenated. */
  function OpenApiWalks(ms: seq<Member>): seq<string>
    decreases |ms|
  {
    if ms == [] then [] else Joined(Walk(ms[0].value, [Key(ms[0].key)], OpenApiOptions)) + OpenApiWalks(ms[1..])
  }

  /** `validateOpenApiDescriptions` for one family (lines 440-482). */
  function OpenApiDescriptionsCheck(version: string, spec: string, file: File): (ns: seq<Notice>)
    ensures file.None? ==> ns == []
    ensures forall n | n in ns :: n.Error?
  {
    match file
    case None => []
    case Some(Unparsable(m)) => [Error(Finding(version, spec, OpenApiDescriptionsFailed(SyntaxError(m))))]
    case Some(Parsed(doc)) =>
      match DefinitionsOf(doc, true)
      case Throw(e) => [Error(Finding(version, spec, OpenApiDescriptionsFailed(e)))]
      case Ok(schemas) =>
        ErrorEach(version, spec, OpenApiWalks(DefinitionEntries(schemas)), OpenApiFieldIssue)
  }

  // ---------------------------------------------------------------- 8: OpenAPI examples

  /** A reusable OpenAPI schema that needs an example (lines 518-522). */
  predicate OpenApiLacksExample(def: Json) {
    && !Truthy(Get(def, "example")) && !Truthy(Get(def, "examples"))
    && Get(def, "type") == Some(JStr("object"))
    && !Truthy(Get(def, "$ref")) && !Truthy(Get(def, "enum"))
    && !Truthy(Get(def, "allOf")) && !Truthy(Get(def, "oneOf")) && !Truthy(Get(def, "anyOf"))
  }

  function OpenApiExampleDef(d: Member): (p: Partial)
    ensures p.emitted == []
    ensures p.thrown.Some? <==> d.value == JNull
    ensures p.thrown.None? ==> p.collected == if OpenApiLacksExample(d.value) then [d.key] else []
  {
    match ReadProp(Some(d.value), "example")
    case Throw(e) => Partial([], [], Some(e))
    case Ok(_) => if OpenApiLacksExample(d.value) then Partial([], [d.key], None) else Nothing
  }

  /** `validateOpenApiExamples` for one family (lines 493-538). */
  function OpenApiExamplesCheck(version: string, spec: string, file: File): (ns: seq<Notice>)
    ensures file.None? ==> ns == []
    ensures forall n | n in ns :: n.Error?
  {
    match file
    case None => []
    case Some(Unparsable(m)) => [Error(Finding(version, spec, OpenApiExamplesFailed(SyntaxError(m))))]
    case Some(Parsed(doc)) =>
      match DefinitionsOf(doc, true)
      case Throw(e) => [Error(Finding(version, spec, OpenApiExamplesFailed(e)))]
      case Ok(schemas) =>
        var p := Sweep(DefinitionEntries(schemas), OpenApiExampleDef);
        if p.thrown.Some? then [Error(Finding(version, spec, OpenApiExamplesFailed(p.thrown.value)))]
        else ErrorEach(version, spec, p.collected, OpenApiExampleIssue)
  }

  // ---------------------------------------------------------------- 9: examples against schemas

  /**
    One example (lines 573-633): resolved to a reference, looked up under the
    key built from `$id`, and reported when the validator lists mismatches.
    Every other outcome, an exception included, is skipped silently.
   */
  function ExampleVerdict(version: string, spec: string, schema: Json, ajv: Ajv, e: Member): (ns: seq<Notice>)
    ensures |ns| <= 1
    ensures ns != [] ==> ResolveExample(spec, e.key).Some? && ns[0].Error? && ns[0].finding.issue.ExampleInvalid?
                         && ns[0].finding.issue.example == e.key
  {
    match ResolveExample(spec, e.key)
    case None => []
    case Some(ref) =>
      match ReadProp(Some(schema), "$id")
      case Throw(_) => []
      case Ok(id) =>
        match ajv.check(schema, LookupKey(id, ref), e.value)
        case Some(Mismatches(details)) => [Error(Finding(version, spec, ExampleInvalid(e.key, details)))]
        case _ => []
  }

  function ExampleVerdicts(version: string, spec: string, schema: Json, ajv: Ajv, es: seq<Member>): (ns: seq<Notice>)
    ensures |ns| <= |es|
    ensures forall n | n in ns :: n.Error? && n.finding.issue.ExampleInvalid?
    decreases |es|
  {
    if es == [] then []
    else ExampleVerdict(version, spec, schema, ajv, es[0]) + ExampleVerdicts(version, spec, schema, ajv, es[1..])
  }

  /** `validateExamples` for one family (lines 547-639). */
  function ExamplesCheck(version: string, spec: string, schemaFile: File, examplesFile: File, ajv: Ajv): (ns: seq<Notice>)
    ensures schemaFile.None? || examplesFile.None? ==> ns == []
    ensures forall n | n in ns :: n.Error?
  {
    if schemaFile.None? || examplesFile.None? then []
    else
      match schemaFile.value
      case Unparsable(m) => [Error(Finding(version, spec, ExamplesFailed(SyntaxError(m))))]
      case Parsed(schema) =>
        match examplesFile.value
        case Unparsable(m) => [Error(Finding(version, spec, ExamplesFailed(SyntaxError(m))))]
        case Parsed(examples) =>
          if !ajv.accepts(schema) then [Error(Finding(version, spec, ExamplesFailed(SchemaRejected)))]
          else if examples == JNull then [Error(Finding(version, spec, ExamplesFailed(NullToObject)))]
          else ExampleVerdicts(version, spec, schema, ajv, Entries(examples))
  }

  // ---------------------------------------------------------------- the rules and the run

  /** The rule functions, one per check the linter runs (the field type rule counts once per kind of file). */
  datatype Rule =
    | JsonSchemaSyntaxRule
    | OpenApiSyntaxRule
    | ProhibitedSchemasRule
    | JsonSchemaFieldTypesRule
    | OpenApiFieldTypesRule
    | FieldDescriptionsRule
    | ModelExamplesRule
    | OpenApiDescriptionsRule
    | OpenApiExamplesRule
    | ExamplesRule

  /** The order the main script calls the rules in (lines 647-655). */
  const RULE_ORDER: seq<Rule> := [
    JsonSchemaSyntaxRule, OpenApiSyntaxRule, ProhibitedSchemasRule,
    JsonSchemaFieldTypesRule, OpenApiFieldTypesRule,
    FieldDescriptionsRule, ModelExamplesRule, OpenApiDescriptionsRule, OpenApiExamplesRule,
    ExamplesRule
  ]

  /** The coverage rules look at the unreleased version only; the others at every version. */
  function Versions(r: Rule): (vs: seq<string>)
    ensures |vs| > 0
  {
    match r
    case FieldDescriptionsRule | ModelExamplesRule | OpenApiDescriptionsRule | OpenApiExamplesRule => [UNRELEASED]
    case _ => VERSIONS
  }

  /** The families a rule visits for one version. */
  function Families(r: Rule, c: Corpus, version: string): seq<string> {
    match r
    case ProhibitedSchemasRule => ProhibitedFamilies()
    case OpenApiSyntaxRule | OpenApiFieldTypesRule | OpenApiDescriptionsRule | OpenApiExamplesRule => Listing(c.openApiSpecs, version)
    case _ => Listing(c.jsonSchemaSpecs, version)
  }

  /** What one rule reports for one family of one version. */
  function Check(r: Rule, c: Corpus, ajv: Ajv, version: string, spec: string): seq<Notice> {
    var schema := FileAt(c.jsonSchemas, version, spec);
    var openApi := FileAt(c.openApis, version, spec);
    match r
    case JsonSchemaSyntaxRule => SchemaSyntax(version, spec, schema)
    case OpenApiSyntaxRule => OpenApiSyntax(version, spec, openApi)
    case ProhibitedSchemasRule => ProhibitedCheck(version, spec, schema)
    case JsonSchemaFieldTypesRule => AmountCheck(version, spec, schema, false)
    case OpenApiFieldTypesRule => AmountCheck(version, spec, openApi, true)
    case FieldDescriptionsRule => FieldDescriptionsCheck(version, spec, schema)
    case ModelExamplesRule => ModelExamplesCheck(version, spec, schema)
    case OpenApiDescriptionsRule => OpenApiDescriptionsCheck(version, spec, openApi)
    case OpenApiExamplesRule => OpenApiExamplesCheck(version, spec, openApi)
    case ExamplesRule => ExamplesCheck(version, spec, schema, FileAt(c.exampleSets, version, spec), ajv)
  }

  /** A rule over the given families of one version, in order. */
  function AcrossFamilies(r: Rule, c: Corpus, ajv: Ajv, version: string, specs: seq<string>): seq<Notice>
    decreases |specs|
  {
    if specs == [] then []
    else AcrossFamilies(r, c, ajv, version, specs[..|specs| - 1]) + Check(r, c, ajv, version, specs[|specs| - 1])
  }

  /** A rule over the given versions, in order, each over its listed families. */
  function AcrossVersions(r: Rule, c: Corpus, ajv: Ajv, versions: seq<string>): seq<Notice>
    decreases |versions|
  {
    if versions == [] then []
    else
      var v := versions[|versions| - 1];
      AcrossVersions(r, c, ajv, versions[..|versions| - 1]) + AcrossFamilies(r, c, ajv, v, Families(r, c, v))
  }

  /** Everything one rule function reports. */
  function RuleNotices(r: Rule, c: Corpus, ajv: Ajv): seq<Notice> {
    AcrossVersions(r, c, ajv, Versions(r))
  }

  /** The given rules, one after another. */
  function RunRules(rules: seq<Rule>, c: Corpus, ajv: Ajv): seq<Notice>
    decreases |rules|
  {
    if rules == [] then []
    else RunRules(rules[..|rules| - 1], c, ajv) + RuleNotices(rules[|rules| - 1], c, ajv)
  }

  /** Everything a run of the linter records, in order. */
  function AllNotices(c: Corpus, ajv: Ajv): seq<Notice> {
    RunRules(RULE_ORDER, c, ajv)
  }
}
