/**
  What the rules promise: each rule reports exactly the definitions,
  properties and examples its conditions single out, in document order, and
  an exception cuts a rule short for one file only.
 */
module RuleProperties {
  import opened Json
  import opened Walker
  import opened Findings
  import opened Resolver
  import opened Rules

  // ---------------------------------------------------------------- sweeps

  /** When no step throws, the sweep emits and collects exactly what its steps do. */
  lemma {:induction false} SweepFrom(ms: seq<Member>, step: Member -> Partial, n: Notice, x: string)
    requires Sweep(ms, step).thrown.None?
    ensures n in Sweep(ms, step).emitted <==> exists i :: 0 <= i < |ms| && n in step(ms[i]).emitted
    ensures x in Sweep(ms, step).collected <==> exists i :: 0 <= i < |ms| && x in step(ms[i]).collected
    decreases |ms|
  {
    if ms != [] {
      var rest := ms[1..];
      assert forall i :: 1 <= i < |ms| ==> ms[i] == rest[i - 1];
      SweepFrom(rest, step, n, x);
      if exists i :: 0 <= i < |ms| && n in step(ms[i]).emitted {
        var i :| 0 <= i < |ms| && n in step(ms[i]).emitted;
        if i > 0 {
          assert n in step(rest[i - 1]).emitted;
        }
      }
      if exists i :: 0 <= i < |ms| && x in step(ms[i]).collected {
        var i :| 0 <= i < |ms| && x in step(ms[i]).collected;
        if i > 0 {
          assert x in step(rest[i - 1]).collected;
        }
      }
    }
  }

  /**
    An exception in the step for entry `k` ends the sweep there: what the
    earlier steps emitted stays, nothing after `k` runs, and the exception is
    the one the sweep ends with.
   */
  lemma {:induction false} SweepStops(ms: seq<Member>, step: Member -> Partial, k: nat)
    requires k < |ms| && step(ms[k]).thrown.Some?
    requires forall i :: 0 <= i < k ==> step(ms[i]).thrown.None?
    ensures Sweep(ms, step).thrown == step(ms[k]).thrown
    ensures Sweep(ms, step).emitted == Sweep(ms[..k], step).emitted + step(ms[k]).emitted
    decreases k
  {
    if k > 0 {
      var rest := ms[1..];
      assert forall i :: 1 <= i < |ms| ==> ms[i] == rest[i - 1];
      SweepStops(rest, step, k - 1);
      assert ms[..k][1..] == rest[..k - 1];
    }
  }

  /** The keys of the entries whose value satisfies `p`, in order. */
  function KeysWhere(ms: seq<Member>, p: Json -> bool): (ks: seq<string>)
    ensures |ks| <= |ms|
    ensures forall k :: k in ks <==> exists i :: 0 <= i < |ms| && ms[i].key == k && p(ms[i].value)
    decreases |ms|
  {
    if ms == [] then []
    else
      var rest := KeysWhere(ms[1..], p);
      assert forall i :: 1 <= i < |ms| ==> ms[i] == ms[1..][i - 1];
      (if p(ms[0].value) then [ms[0].key] else []) + rest
  }

  /** A sweep whose steps only collect the keys satisfying `p` collects `KeysWhere(ms, p)`. */
  lemma {:induction false} SweepCollectsKeys(ms: seq<Member>, step: Member -> Partial, p: Json -> bool)
    requires forall i :: 0 <= i < |ms| ==> step(ms[i]) == if p(ms[i].value) then Partial([], [ms[i].key], None) else Nothing
    ensures Sweep(ms, step) == Partial([], KeysWhere(ms, p), None)
    decreases |ms|
  {
    if ms != [] {
      assert forall i :: 1 <= i < |ms| ==> ms[i] == ms[1..][i - 1];
      SweepCollectsKeys(ms[1..], step, p);
    }
  }

  // ---------------------------------------------------------------- amount fields

  /** The amount errors for the direct properties of one definition: one per reported property, in order. */
  function AmountReports(version: string, spec: string, defName: string, props: seq<Member>, openApi: bool): (ns: seq<Notice>)
    ensures forall n :: n in ns <==> exists k :: 0 <= k < |props| && AmountReported(props[k]) && n == AmountNotice(version, spec, defName, props[k], openApi)
    decreases |props|
  {
    if props == [] then []
    else
      var rest := AmountReports(version, spec, defName, props[1..], openApi);
      assert forall k :: 1 <= k < |props| ==> props[k] == props[1..][k - 1];
      (if AmountReported(props[0]) then [AmountNotice(version, spec, defName, props[0], openApi)] else []) + rest
  }

  /** No amount-named property of these is null, so the amount rule cannot throw on them. */
  predicate AmountsNotNull(props: seq<Member>) {
    forall k :: 0 <= k < |props| && props[k].key in CRITICAL_AMOUNT_FIELDS ==> props[k].value != JNull
  }

  /**
    For one definition whose amount properties are not null, the amount rule
    reports exactly one error per amount-named, non-composed direct property
    whose `type` is not `"integer"`, in property order, and nothing else:
    other names, composed properties and properties nested deeper give none.
   */
  lemma {:induction false} AmountPropsExact(version: string, spec: string, defName: string, props: seq<Member>, openApi: bool)
    requires AmountsNotNull(props)
    ensures Sweep(props, m => AmountProp(version, spec, defName, m, openApi)) == Partial(AmountReports(version, spec, defName, props, openApi), [], None)
    decreases |props|
  {
    if props != [] {
      assert forall k :: 1 <= k < |props| ==> props[k] == props[1..][k - 1];
      AmountPropsExact(version, spec, defName, props[1..], openApi);
    }
  }

  /** The amount errors for a list of definitions: each definition's direct properties in turn. */
  function AmountReportsAll(version: string, spec: string, defs: seq<Member>, openApi: bool): seq<Notice>
    decreases |defs|
  {
    if defs == [] then []
    else AmountReports(version, spec, defs[0].key, DirectProperties(defs[0].value), openApi)
         + AmountReportsAll(version, spec, defs[1..], openApi)
  }

  /** No definition is null and no amount-named direct property of one is null, so the amount rule cannot throw. */
  predicate AmountsSafe(defs: seq<Member>) {
    forall i :: 0 <= i < |defs| ==> defs[i].value != JNull && AmountsNotNull(DirectProperties(defs[i].value))
  }

  /** The definitions the amount rule iterates over in a parsed document of either kind. */
  function AmountDefinitions(doc: Json, openApi: bool): seq<Member> {
    if openApi then OpenApiSchemas(doc) else JsonSchemaDefinitions(doc)
  }

  lemma AmountDefExact(version: string, spec: string, d: Member, openApi: bool)
    requires d.value != JNull && AmountsNotNull(DirectProperties(d.value))
    ensures AmountDef(version, spec, d, openApi) == Partial(AmountReports(version, spec, d.key, DirectProperties(d.value), openApi), [], None)
  {
    AmountPropsExact(version, spec, d.key, DirectProperties(d.value), openApi);
  }

  /** Over definitions the rule cannot throw on, the outer loop gives each definition's amount errors in turn. */
  lemma {:induction false} AmountSweepExact(version: string, spec: string, defs: seq<Member>, openApi: bool)
    requires AmountsSafe(defs)
    ensures Sweep(defs, d => AmountDef(version, spec, d, openApi)) == Partial(AmountReportsAll(version, spec, defs, openApi), [], None)
    decreases |defs|
  {
    if defs != [] {
      assert forall k :: 1 <= k < |defs| ==> defs[k] == defs[1..][k - 1];
      AmountDefExact(version, spec, defs[0], openApi);
      AmountSweepExact(version, spec, defs[1..], openApi);
    }
  }

  /**
    For a parsed, non-null document of either kind whose definitions and
    amount properties are not null, the amount rule reports exactly, and in
    order, one error per amount-named, non-composed direct property whose
    `type` is not `"integer"`, definition by definition.
   */
  lemma AmountCheckExact(version: string, spec: string, doc: Json, openApi: bool)
    requires doc != JNull && AmountsSafe(AmountDefinitions(doc, openApi))
    ensures AmountCheck(version, spec, Some(Parsed(doc)), openApi) == AmountReportsAll(version, spec, AmountDefinitions(doc, openApi), openApi)
  {
    AmountSweepExact(version, spec, AmountDefinitions(doc, openApi), openApi);
  }

  /** A `tax` property typed `"string"` is one amount error of its definition. */
  lemma TaxPropertyReported(version: string, spec: string, tax: Member)
    requires tax == Member("tax", JObj([Member("type", JStr("string"))]))
    ensures AmountReports(version, spec, "LineItem", [tax], false)
            == [Error(Finding(version, spec, AmountNotInteger("LineItem", "tax", Some(JStr("string")), false)))]
  {
    assert "tax" in CRITICAL_AMOUNT_FIELDS by {
      assert CRITICAL_AMOUNT_FIELDS[3] == "tax";
    }
    assert Get(tax.value, "type") == Some(JStr("string"));
    assert !Composed(tax.value);
    assert [tax][1..] == [];
  }

  /**
    Scenario: a JSON Schema whose `LineItem` has a `tax` property typed
    `"string"` gives exactly the one amount error from the amount rule.
   */
  lemma StringTaxReported(version: string, spec: string, doc: Json, tax: Member)
    requires tax == Member("tax", JObj([Member("type", JStr("string"))]))
    requires doc == JObj([Member("$defs", JObj([Member("LineItem", JObj([Member("properties", JObj([tax]))]))]))])
    ensures AmountCheck(version, spec, Some(Parsed(doc)), false)
            == [Error(Finding(version, spec, AmountNotInteger("LineItem", "tax", Some(JStr("string")), false)))]
  {
    var lineItem := Member("LineItem", JObj([Member("properties", JObj([tax]))]));
    assert Get(doc, "$defs") == Some(JObj([lineItem]));
    assert Get(lineItem.value, "properties") == Some(JObj([tax]));
    assert AmountDefinitions(doc, false) == [lineItem];
    assert DirectProperties(lineItem.value) == [tax];
    assert [lineItem][1..] == [];
    TaxPropertyReported(version, spec, tax);
    AmountCheckExact(version, spec, doc, false);
  }

  // ---------------------------------------------------------------- prohibited definitions

  /**
    The prohibited-definition rule reports a name for a parsed document if and
    only if the document is not null, the name is forbidden for the family,
    and `$defs` is truthy with a truthy entry under that name.
   */
  lemma ProhibitedExact(version: string, spec: string, doc: Json, name: string)
    ensures Error(Finding(version, spec, ProhibitedSchema(name))) in ProhibitedCheck(version, spec, Some(Parsed(doc))) <==>
            doc != JNull && name in ProhibitedNames(spec) && var defs := Get(doc, "$defs");
            Truthy(defs) && Truthy(Get(defs.value, name))
  {
  }

  /** Scenario: a checkout schema that declares `Refund` gives exactly one prohibited-definition error. */
  lemma RefundInCheckoutReported(version: string)
    ensures var doc := JObj([Member("$defs", JObj([Member("Refund", JObj([]))]))]);
            ProhibitedCheck(version, "agentic_checkout", Some(Parsed(doc)))
            == [Error(Finding(version, "agentic_checkout", ProhibitedSchema("Refund")))]
  {
    var doc := JObj([Member("$defs", JObj([Member("Refund", JObj([]))]))]);
    assert Get(doc, "$defs") == Some(JObj([Member("Refund", JObj([]))]));
    assert ProhibitedNames("agentic_checkout") == ["Refund"];
    assert ["Refund"][1..] == [];
  }

  /** Only the checkout family has forbidden definitions. */
  lemma OnlyCheckoutProhibits(version: string, spec: string, file: File)
    requires spec != "agentic_checkout"
    ensures ProhibitedCheck(version, spec, file) == []
  {
    match file
    case None =>
    case Some(Unparsable(_)) =>
    case Some(Parsed(doc)) =>
      assert ProhibitedNames(spec) == [];
  }

  // ---------------------------------------------------------------- field descriptions

  /** No definition of these is null, so reading a definition's property cannot throw. */
  predicate NoNullDefinition(ms: seq<Member>) {
    forall i :: 0 <= i < |ms| ==> ms[i].value != JNull
  }

  /** The definitions of a parsed JSON Schema, or none when `$defs` is falsy. */
  function JsonSchemaDefinitions(doc: Json): seq<Member> {
    DefinitionEntries(Get(doc, "$defs"))
  }

  /** The error list `ErrorEach` makes holds the error of an item exactly when the item is listed. */
  lemma ErrorEachIff(version: string, spec: string, items: seq<string>, issue: string -> Issue, x: string)
    requires forall a, b :: issue(a) == issue(b) ==> a == b
    ensures Error(Finding(version, spec, issue(x))) in ErrorEach(version, spec, items, issue) <==> x in items
  {
    var ns := ErrorEach(version, spec, items, issue);
    if Error(Finding(version, spec, issue(x))) in ns {
      var k :| 0 <= k < |ns| && ns[k] == Error(Finding(version, spec, issue(x)));
      assert items[k] == x;
    }
    if x in items {
      var k :| 0 <= k < |items| && items[k] == x;
      assert ns[k] == Error(Finding(version, spec, issue(x)));
    }
  }

  /** The sweep of the description rule over definitions none of which is null. */
  function DescriptionSweep(version: string, spec: string, defs: seq<Member>): Partial {
    Sweep(defs, d => DescribeDef(version, spec, d))
  }

  lemma DescriptionsShape(version: string, spec: string, doc: Json)
    requires doc != JNull && NoNullDefinition(JsonSchemaDefinitions(doc))
    ensures var p := DescriptionSweep(version, spec, JsonSchemaDefinitions(doc));
            p.thrown.None? && FieldDescriptionsCheck(version, spec, Some(Parsed(doc))) == p.emitted + ErrorEach(version, spec, p.collected, FieldIssue)
  {
  }

  lemma DescribedModels(version: string, spec: string, defs: seq<Member>, model: string)
    requires NoNullDefinition(defs)
    ensures var p := DescriptionSweep(version, spec, defs);
            Error(Finding(version, spec, ModelMissingDescription(model))) in p.emitted <==>
            exists i :: 0 <= i < |defs| && defs[i].key == model && !Truthy(Get(defs[i].value, "description"))
  {
    var step := d => DescribeDef(version, spec, d);
    var n := Error(Finding(version, spec, ModelMissingDescription(model)));
    SweepFrom(defs, step, n, model);
    forall i | 0 <= i < |defs|
      ensures n in step(defs[i]).emitted <==> defs[i].key == model && !Truthy(Get(defs[i].value, "description"))
    {
      DescribeDefEmits(version, spec, defs[i], model);
    }
  }

  /** One definition's step reports its model exactly when its `description` is falsy. */
  lemma DescribeDefEmits(version: string, spec: string, d: Member, model: string)
    requires d.value != JNull
    ensures Error(Finding(version, spec, ModelMissingDescription(model))) in DescribeDef(version, spec, d).emitted
            <==> d.key == model && !Truthy(Get(d.value, "description"))
  {
  }

  lemma DescribedFields(version: string, spec: string, defs: seq<Member>, field: string)
    requires NoNullDefinition(defs)
    ensures var p := DescriptionSweep(version, spec, defs);
            field in p.collected <==>
            exists i :: 0 <= i < |defs| && field in Joined(Walk(defs[i].value, [Key(defs[i].key)], JsonSchemaOptions))
  {
    var step := d => DescribeDef(version, spec, d);
    SweepFrom(defs, step, Error(Finding(version, spec, FieldMissingDescription(field))), field);
    forall i | 0 <= i < |defs|
      ensures step(defs[i]).collected == Joined(Walk(defs[i].value, [Key(defs[i].key)], JsonSchemaOptions))
    {
    }
  }

  lemma DescriptionSweepErrors(version: string, spec: string, defs: seq<Member>)
    ensures forall n | n in DescriptionSweep(version, spec, defs).emitted :: n.Error? && n.finding.issue.ModelMissingDescription?
  {
    var step := d => DescribeDef(version, spec, d);
    SweepKeeps(defs, step, (n: Notice) => n.Error? && n.finding.issue.ModelMissingDescription?);
  }

  /**
    For a document with no null definition, the description rule reports a
    model as undescribed if and only if its definition has a falsy
    `description`, and a field path if and only if the walk of some definition
    from its own name reports it.
   */
  lemma FieldDescriptionsExact(version: string, spec: string, doc: Json, model: string, field: string)
    requires doc != JNull && NoNullDefinition(JsonSchemaDefinitions(doc))
    ensures var ns := FieldDescriptionsCheck(version, spec, Some(Parsed(doc)));
            var defs := JsonSchemaDefinitions(doc);
            && (Error(Finding(version, spec, ModelMissingDescription(model))) in ns <==>
                  exists i :: 0 <= i < |defs| && defs[i].key == model && !Truthy(Get(defs[i].value, "description")))
            && (Error(Finding(version, spec, FieldMissingDescription(field))) in ns <==>
                  exists i :: 0 <= i < |defs| && field in Joined(Walk(defs[i].value, [Key(defs[i].key)], JsonSchemaOptions)))
  {
    ModelsReported(version, spec, doc, model);
    FieldsReported(version, spec, doc, field);
  }

  lemma ModelsReported(version: string, spec: string, doc: Json, model: string)
    requires doc != JNull && NoNullDefinition(JsonSchemaDefinitions(doc))
    ensures var defs := JsonSchemaDefinitions(doc);
            Error(Finding(version, spec, ModelMissingDescription(model))) in FieldDescriptionsCheck(version, spec, Some(Parsed(doc))) <==>
            exists i :: 0 <= i < |defs| && defs[i].key == model && !Truthy(Get(defs[i].value, "description"))
  {
    var defs := JsonSchemaDefinitions(doc);
    var p := DescriptionSweep(version, spec, defs);
    var n := Error(Finding(version, spec, ModelMissingDescription(model)));
    DescriptionsShape(version, spec, doc);
    DescribedModels(version, spec, defs, model);
    assert n !in ErrorEach(version, spec, p.collected, FieldIssue);
  }

  lemma FieldsReported(version: string, spec: string, doc: Json, field: string)
    requires doc != JNull && NoNullDefinition(JsonSchemaDefinitions(doc))
    ensures var defs := JsonSchemaDefinitions(doc);
            Error(Finding(version, spec, FieldMissingDescription(field))) in FieldDescriptionsCheck(version, spec, Some(Parsed(doc))) <==>
            exists i :: 0 <= i < |defs| && field in Joined(Walk(defs[i].value, [Key(defs[i].key)], JsonSchemaOptions))
  {
    var defs := JsonSchemaDefinitions(doc);
    var p := DescriptionSweep(version, spec, defs);
    var n := Error(Finding(version, spec, FieldMissingDescription(field)));
    DescriptionsShape(version, spec, doc);
    DescribedFields(version, spec, defs, field);
    DescriptionSweepErrors(version, spec, defs);
    ErrorEachIff(version, spec, p.collected, FieldIssue, field);
    assert n !in p.emitted;
  }

  /** A one-segment path joins to the name itself. */
  lemma JoinSingle(name: string)
    ensures Join([Key(name)]) == name
  {
  }

  /**
    A typed definition with no description, no `enum`, `const` or
    composition keyword is reported twice: once as a model and once as the
    field path of its own name.
   */
  lemma TypedUndescribedReportedTwice(version: string, spec: string, doc: Json, i: nat)
    requires doc != JNull && NoNullDefinition(JsonSchemaDefinitions(doc))
    requires i < |JsonSchemaDefinitions(doc)|
    requires SelfReport(JsonSchemaDefinitions(doc)[i].value, 1, JsonSchemaOptions)
    ensures var name := JsonSchemaDefinitions(doc)[i].key;
            var ns := FieldDescriptionsCheck(version, spec, Some(Parsed(doc)));
            Error(Finding(version, spec, ModelMissingDescription(name))) in ns
            && Error(Finding(version, spec, FieldMissingDescription(name))) in ns
  {
    var d := JsonSchemaDefinitions(doc)[i];
    OwnPathReported(d.value, [Key(d.key)], JsonSchemaOptions);
    JoinSingle(d.key);
    var walked := Walk(d.value, [Key(d.key)], JsonSchemaOptions);
    var k :| 0 <= k < |walked| && walked[k] == [Key(d.key)];
    assert Joined(walked)[k] == d.key;
    FieldDescriptionsExact(version, spec, doc, d.key, d.key);
  }

  lemma GetOfSingle(m: Member, key: string)
    ensures Get(JObj([m]), key) == if m.key == key then Some(m.value) else None
  {
    assert [m][1..] == [];
  }

  lemma GetOfPair(m0: Member, m1: Member, key: string)
    ensures Get(JObj([m0, m1]), key) == if m0.key == key then Some(m0.value) else if m1.key == key then Some(m1.value) else None
  {
    var ms := [m0, m1];
    assert FindKey([m1], key) == if m1.key == key then Some(0) else None by {
      assert [m1][1..] == [];
    }
    assert ms[1..] == [m1];
  }

  /** A node without children reports its own path or nothing. */
  lemma LeafWalk(j: Json, p: Path, o: Options)
    requires j.JObj? && Children(j) == []
    ensures Walk(j, p, o) == Own(j, p, o)
  {
    assert Own(j, p, o) + [] == Own(j, p, o);
  }

  /** A node with one child reports its own path, then what the child's walk reports. */
  lemma SingleChildWalk(j: Json, c: Child, p: Path, o: Options)
    requires j.JObj? && Children(j) == [c]
    ensures Walk(j, p, o) == Own(j, p, o) + Walk(c.node, p + [c.seg], o)
  {
    var cs := Children(j);
    assert cs[..|cs| - 1] == [];
    assert WalkChildren(j, cs, p, o) == [] + Walk(c.node, p + [c.seg], o);
  }

  /** The `Order` definition of the scenarios: a description and one property. */
  function OrderWith(status: Json): Json {
    JObj([Member("description", JStr("An order")), Member("properties", JObj([Member("status", status)]))])
  }

  lemma OrderChildren(status: Json)
    ensures Children(OrderWith(status)) == [Child(Key("status"), status)]
    ensures !SelfReport(OrderWith(status), 1, JsonSchemaOptions)
  {
    var order := OrderWith(status);
    var m0 := Member("description", JStr("An order"));
    var m1 := Member("properties", JObj([Member("status", status)]));
    GetOfPair(m0, m1, "properties");
    GetOfPair(m0, m1, "items");
    GetOfPair(m0, m1, "oneOf");
    GetOfPair(m0, m1, "anyOf");
    GetOfPair(m0, m1, "allOf");
    GetOfPair(m0, m1, "additionalProperties");
    GetOfPair(m0, m1, "type");
    assert PropertyChildren(order) == [Child(Key("status"), status)];
  }

  /**
    Scenario: an undescribed `status` property typed `"string"` of a
    described definition `Order` is reported at `Order.status`.
   */
  lemma StatusPathReported(status: Json)
    requires status == JObj([Member("type", JStr("string"))])
    ensures Joined(Walk(OrderWith(status), [Key("Order")], JsonSchemaOptions)) == ["Order.status"]
  {
    StatusWalk(status);
    OrderStatusJoined([Key("Order"), Key("status")]);
  }

  lemma StatusWalk(status: Json)
    requires status == JObj([Member("type", JStr("string"))])
    ensures Walk(OrderWith(status), [Key("Order")], JsonSchemaOptions) == [[Key("Order"), Key("status")]]
  {
    var p := [Key("Order"), Key("status")];
    TypedLeaf();
    LeafWalk(status, p, JsonSchemaOptions);
    OrderChildren(status);
    SingleChildWalk(OrderWith(status), Child(Key("status"), status), [Key("Order")], JsonSchemaOptions);
    assert [Key("Order")] + [Key("status")] == p;
  }

  /** The path of the scenario renders as `Order.status`. */
  lemma OrderStatusJoined(p: Path)
    requires p == [Key("Order"), Key("status")]
    ensures Joined([p]) == ["Order.status"]
  {
    assert p[1..] == [Key("status")];
    assert Join(p) == "Order.status";
    assert Joined([p])[0] == Join(p);
  }

  /** A node with only `type: "string"` has no children and is reported below the top level. */
  lemma TypedLeaf()
    ensures var status := JObj([Member("type", JStr("string"))]);
            Children(status) == [] && SelfReport(status, 2, JsonSchemaOptions)
  {
    var m := Member("type", JStr("string"));
    var status := JObj([m]);
    GetOfSingle(m, "properties");
    GetOfSingle(m, "items");
    GetOfSingle(m, "oneOf");
    GetOfSingle(m, "anyOf");
    GetOfSingle(m, "allOf");
    GetOfSingle(m, "additionalProperties");
    GetOfSingle(m, "type");
    GetOfSingle(m, "description");
    GetOfSingle(m, "enum");
    GetOfSingle(m, "const");
  }

  /** Scenario: the same property with an `enum` is not reported. */
  lemma EnumStatusExempt()
    ensures Walk(OrderWith(JObj([Member("type", JStr("string")), Member("enum", JArr([JStr("open")]))])), [Key("Order")], JsonSchemaOptions) == []
  {
    var m0 := Member("type", JStr("string"));
    var m1 := Member("enum", JArr([JStr("open")]));
    var status := JObj([m0, m1]);
    GetOfPair(m0, m1, "properties");
    GetOfPair(m0, m1, "items");
    GetOfPair(m0, m1, "oneOf");
    GetOfPair(m0, m1, "anyOf");
    GetOfPair(m0, m1, "allOf");
    GetOfPair(m0, m1, "additionalProperties");
    assert Children(status) == [];
    GetOfPair(m0, m1, "enum");
    assert !SelfReport(status, 2, JsonSchemaOptions);
    LeafWalk(status, [Key("Order"), Key("status")], JsonSchemaOptions);
    OrderChildren(status);
    SingleChildWalk(OrderWith(status), Child(Key("status"), status), [Key("Order")], JsonSchemaOptions);
  }

  // ---------------------------------------------------------------- model examples

  /**
    For a document with no null definition, the model example rule reports
    exactly the definitions lacking both `example` and `examples`, one error
    each, in `$defs` order.
   */
  lemma ModelExamplesExact(version: string, spec: string, doc: Json)
    requires doc != JNull && NoNullDefinition(JsonSchemaDefinitions(doc))
    ensures var ns := ModelExamplesCheck(version, spec, Some(Parsed(doc)));
            var lacking := KeysWhere(JsonSchemaDefinitions(doc), LacksExample);
            |ns| == |lacking| && forall k :: 0 <= k < |lacking| ==> ns[k] == Error(Finding(version, spec, ModelMissingExample(lacking[k])))
  {
    var defs := JsonSchemaDefinitions(doc);
    forall i | 0 <= i < |defs|
      ensures ExampleDef(defs[i]) == if LacksExample(defs[i].value) then Partial([], [defs[i].key], None) else Nothing
    {
    }
    SweepCollectsKeys(defs, ExampleDef, LacksExample);
  }

  /** A null definition makes the model example rule report the failure alone: no model is reported for the file. */
  lemma ModelExamplesNullDefinition(version: string, spec: string, doc: Json, k: nat)
    requires doc != JNull && k < |JsonSchemaDefinitions(doc)| && JsonSchemaDefinitions(doc)[k].value == JNull
    ensures ModelExamplesCheck(version, spec, Some(Parsed(doc))) == [Error(Finding(version, spec, ModelExamplesFailed(NullRead("example"))))]
  {
    var defs := JsonSchemaDefinitions(doc);
    var first :| 0 <= first <= k && defs[first].value == JNull && forall i :: 0 <= i < first ==> defs[i].value != JNull by {
      FirstNull(defs, k);
    }
    SweepStops(defs, ExampleDef, first);
  }

  lemma FirstNull(ms: seq<Member>, k: nat)
    requires k < |ms| && ms[k].value == JNull
    ensures exists first :: 0 <= first <= k && ms[first].value == JNull && forall i :: 0 <= i < first ==> ms[i].value != JNull
    decreases k
  {
    if exists i :: 0 <= i < k && ms[i].value == JNull {
      var i :| 0 <= i < k && ms[i].value == JNull;
      FirstNull(ms, i);
    }
  }

  // ---------------------------------------------------------------- OpenAPI rules

  /** The schemas of a parsed OpenAPI document, or none when `components` or `components.schemas` is falsy. */
  function OpenApiSchemas(doc: Json): seq<Member> {
    var comps := Get(doc, "components");
    if Truthy(comps) then DefinitionEntries(Get(comps.value, "schemas")) else []
  }

  /**
    The OpenAPI description walk never reports a schema itself: every path it
    reports starts at the schema's name and goes at least one level below it.
   */
  lemma OpenApiTopLevelExempt(j: Json, name: string, q: Path)
    requires q in Walk(j, [Key(name)], OpenApiOptions)
    ensures |q| >= 2 && q[0] == Key(name)
  {
    WalkSound(j, [Key(name)], OpenApiOptions, q);
    var n :| At(j, q[1..], n) && SelfReport(n, |q|, OpenApiOptions);
    assert q[0] == q[..1][0];
  }

  lemma {:induction false} OpenApiWalksFrom(ms: seq<Member>, f: string)
    ensures f in OpenApiWalks(ms) <==> exists i :: 0 <= i < |ms| && f in Joined(Walk(ms[i].value, [Key(ms[i].key)], OpenApiOptions))
    decreases |ms|
  {
    if ms != [] {
      var rest := ms[1..];
      assert forall i :: 1 <= i < |ms| ==> ms[i] == rest[i - 1];
      OpenApiWalksFrom(rest, f);
      if exists i :: 0 <= i < |ms| && f in Joined(Walk(ms[i].value, [Key(ms[i].key)], OpenApiOptions)) {
        var i :| 0 <= i < |ms| && f in Joined(Walk(ms[i].value, [Key(ms[i].key)], OpenApiOptions));
        if i > 0 {
          assert f in Joined(Walk(rest[i - 1].value, [Key(rest[i - 1].key)], OpenApiOptions));
        }
      }
    }
  }

  /**
    For a parsed, non-null OpenAPI document, the description rule reports a
    field path if and only if the walk of some schema, with the top level and
    `$ref` nodes exempt, reports it.
   */
  lemma OpenApiDescriptionsExact(version: string, spec: string, doc: Json, field: string)
    requires doc != JNull
    ensures var schemas := OpenApiSchemas(doc);
            Error(Finding(version, spec, OpenApiFieldMissingDescription(field))) in OpenApiDescriptionsCheck(version, spec, Some(Parsed(doc))) <==>
            exists i :: 0 <= i < |schemas| && field in Joined(Walk(schemas[i].value, [Key(schemas[i].key)], OpenApiOptions))
  {
    var schemas := OpenApiSchemas(doc);
    var walks := OpenApiWalks(schemas);
    var ns := OpenApiDescriptionsCheck(version, spec, Some(Parsed(doc)));
    assert ns == ErrorEach(version, spec, walks, OpenApiFieldIssue);
    OpenApiWalksFrom(schemas, field);
    ErrorEachIff(version, spec, walks, OpenApiFieldIssue, field);
  }

  /**
    For an OpenAPI document with no null schema, the example rule reports
    exactly the schemas of `type: object` that have no `example`, no
    `examples`, and none of `$ref`, `enum`, `allOf`, `oneOf`, `anyOf`, one
    error each, in order.
   */
  lemma OpenApiExamplesExact(version: string, spec: string, doc: Json)
    requires doc != JNull && NoNullDefinition(OpenApiSchemas(doc))
    ensures var ns := OpenApiExamplesCheck(version, spec, Some(Parsed(doc)));
            var lacking := KeysWhere(OpenApiSchemas(doc), OpenApiLacksExample);
            |ns| == |lacking| && forall k :: 0 <= k < |lacking| ==> ns[k] == Error(Finding(version, spec, OpenApiSchemaMissingExample(lacking[k])))
  {
    var schemas := OpenApiSchemas(doc);
    forall i | 0 <= i < |schemas|
      ensures OpenApiExampleDef(schemas[i]) == if OpenApiLacksExample(schemas[i].value) then Partial([], [schemas[i].key], None) else Nothing
    {
    }
    SweepCollectsKeys(schemas, OpenApiExampleDef, OpenApiLacksExample);
  }

  // ---------------------------------------------------------------- examples against schemas

  lemma {:induction false} VerdictsFrom(version: string, spec: string, schema: Json, ajv: Ajv, es: seq<Member>, n: Notice)
    ensures n in ExampleVerdicts(version, spec, schema, ajv, es) <==> exists k :: 0 <= k < |es| && n in ExampleVerdict(version, spec, schema, ajv, es[k])
    decreases |es|
  {
    if es != [] {
      var rest := es[1..];
      assert forall k :: 1 <= k < |es| ==> es[k] == rest[k - 1];
      VerdictsFrom(version, spec, schema, ajv, rest, n);
      if exists k :: 0 <= k < |es| && n in ExampleVerdict(version, spec, schema, ajv, es[k]) {
        var k :| 0 <= k < |es| && n in ExampleVerdict(version, spec, schema, ajv, es[k]);
        if k > 0 {
          assert n in ExampleVerdict(version, spec, schema, ajv, rest[k - 1]);
        }
      }
    }
  }

  /** One example is reported with `details` exactly when it resolves and the validator lists those mismatches. */
  lemma VerdictExact(version: string, spec: string, schema: Json, ajv: Ajv, e: Member, name: string, details: seq<string>)
    ensures Error(Finding(version, spec, ExampleInvalid(name, details))) in ExampleVerdict(version, spec, schema, ajv, e) <==>
            e.key == name && schema != JNull && ResolveExample(spec, name).Some? &&
            ajv.check(schema, LookupKey(Get(schema, "$id"), ResolveExample(spec, name).value), e.value) == Some(Mismatches(details))
  {
  }

  /**
    Once both files are parsed, the validator has registered the schema and
    the examples are not null, an example is reported with the mismatches
    the validator lists if and only if its name resolves to a reference, the
    schema is not null, and the validator, asked under the key built from
    `$id`, answers with those mismatches.
   */
  lemma ExampleReportedExact(version: string, spec: string, schema: Json, examples: Json, ajv: Ajv, name: string, details: seq<string>)
    requires ajv.accepts(schema) && examples != JNull
    ensures var es := Entries(examples);
            Error(Finding(version, spec, ExampleInvalid(name, details))) in ExamplesCheck(version, spec, Some(Parsed(schema)), Some(Parsed(examples)), ajv) <==>
            schema != JNull && ResolveExample(spec, name).Some? &&
            exists k :: 0 <= k < |es| && es[k].key == name &&
              ajv.check(schema, LookupKey(Get(schema, "$id"), ResolveExample(spec, name).value), es[k].value) == Some(Mismatches(details))
  {
    var es := Entries(examples);
    var n := Error(Finding(version, spec, ExampleInvalid(name, details)));
    assert ExamplesCheck(version, spec, Some(Parsed(schema)), Some(Parsed(examples)), ajv) == ExampleVerdicts(version, spec, schema, ajv, es);
    VerdictsFrom(version, spec, schema, ajv, es, n);
    forall k | 0 <= k < |es|
      ensures n in ExampleVerdict(version, spec, schema, ajv, es[k]) <==>
              es[k].key == name && schema != JNull && ResolveExample(spec, name).Some? &&
              ajv.check(schema, LookupKey(Get(schema, "$id"), ResolveExample(spec, name).value), es[k].value) == Some(Mismatches(details))
    {
      VerdictExact(version, spec, schema, ajv, es[k], name, details);
    }
  }

  /**
    Scenario: an error example of the payment family, alone in its file, is
    checked against `Error` and reported when it does not conform.
   */
  lemma PaymentErrorExampleReported(version: string, schema: Json, name: string, example: Json, ajv: Ajv, details: seq<string>)
    requires StartsWith(name, "delegate_payment_error_")
    requires ajv.accepts(schema) && schema != JNull
    requires ajv.check(schema, LookupKey(Get(schema, "$id"), "#/$defs/Error"), example) == Some(Mismatches(details))
    ensures ExamplesCheck(version, "delegate_payment", Some(Parsed(schema)), Some(Parsed(JObj([Member(name, example)]))), ajv)
            == [Error(Finding(version, "delegate_payment", ExampleInvalid(name, details)))]
  {
    var m := Member(name, example);
    PaymentErrorsUseError(name);
    ResolvedVerdict(version, "delegate_payment", schema, ajv, m, "#/$defs/Error", details);
    SingleExample(version, "delegate_payment", schema, ajv, m);
  }

  /** An example whose name resolves is reported with exactly the mismatches the validator lists. */
  lemma ResolvedVerdict(version: string, spec: string, schema: Json, ajv: Ajv, m: Member, ref: string, details: seq<string>)
    requires ResolveExample(spec, m.key) == Some(ref) && schema != JNull
    requires ajv.check(schema, LookupKey(Get(schema, "$id"), ref), m.value) == Some(Mismatches(details))
    ensures ExampleVerdict(version, spec, schema, ajv, m) == [Error(Finding(version, spec, ExampleInvalid(m.key, details)))]
  {
  }

  /** A file with one example gets exactly that example's verdict. */
  lemma SingleExample(version: string, spec: string, schema: Json, ajv: Ajv, m: Member)
    requires ajv.accepts(schema)
    ensures ExamplesCheck(version, spec, Some(Parsed(schema)), Some(Parsed(JObj([m]))), ajv)
            == ExampleVerdict(version, spec, schema, ajv, m)
  {
    assert Entries(JObj([m])) == [m];
    assert [m][1..] == [];
  }
}
