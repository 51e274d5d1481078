# Consistency linter of the Agentic Commerce Protocol, in Dafny

`scripts/validate-consistency.js` lints the protocol's published artifacts,
version by version:
- the JSON Schema documents (`spec/<version>/json-schema/schema.<family>.json`);
- the OpenAPI documents (`spec/<version>/openapi/openapi.<family>.yaml`);
- the example files (`examples/<version>/examples.<family>.json`).

Nine rule functions run in a fixed order. Each calls `error(...)` or `warn(...)` for what it finds. The two module-level lists those calls append to decide the exit status.

This project models that rule engine once files have been read and parsed:

- `json.dfy` (module `Json`) gives parsed documents and the JavaScript notions the rules rely on:
  - truthiness;
  - a property read that throws on `null`/`undefined`;
  - `Object.keys`;
  - the string that `+` makes of a value.
- `walker.dfy` (module `Walker`) covers the description walker `checkProperties`:
  - `Walk` is a specification function over structured paths;
  - lemmas prove it reports exactly the reachable nodes that are typed, undescribed and not exempt;
  - the method `CheckProperties` is the recursive walk with its loop over children, proved to return `Walk`'s paths joined with dots.
- `findings.dfy` (module `Findings`) holds what `error`/`warn` record, and the summary and exit decision.
- `resolver.dfy` (module `Resolver`) holds two things from `validateExamples`:
  - the example-name resolver, proved equal to a first-match decision table;
  - the construction of the lookup key from `$id`.
- `rules.dfy` (module `Rules`) gives, for each rule, what it reports for one family of one version. Every rule body sits inside a `try`:
  - `Partial`, `Then` and `Sweep` model a `forEach` over definitions that an exception can cut short;
  - notices emitted before the exception stay recorded;
  - what was pushed onto a local array is lost;
  - the rule's `catch` reports the exception or swallows it, as the source does.
- `rule_properties.dfy` (module `RuleProperties`) holds what the rules promise:
  - exactly which definitions, properties, schemas and examples each rule reports: as ordered lists for the amount, model-example and OpenAPI example rules, and as membership (reported if and only if) for the description and example-validation rules;
  - how an exception ends a rule for one file;
  - concrete scenarios (a `Refund` in the checkout schema, a `tax` typed `"string"`, an undescribed `status` property, a payment error example).
- `linter.dfy` (module `Linter`) is the imperative shell:
  - the class `Report` holds the `errors` and `warnings` lists;
  - its methods run the nested version × family loops of each rule and the rule sequence of the main script;
  - each method is proved to append exactly the findings the pure rule functions give;
  - `Validate` is a whole run, proved to exit with status 1 exactly when some rule reported an error.

## Model

| member | source | states |
|---|---|---|
| Json.Entries | scripts/validate-consistency.js:250 | `Object.keys` iteration gives an object's members in order; an array's positions `"0"`, `"1"`, … each with its element; a string's positions each with its one-character string; nothing for null, numbers and booleans |
| Walker.OwnPathReported | scripts/validate-consistency.js:47-60 | the starting path is returned iff the node has a truthy `type` and a falsy `description`, is not a skipped `$ref`, is not skipped top level (path length ≤ 1), and has none of `enum`, `const`, `oneOf`, `anyOf`, `allOf` |
| Walker.WalkSound | scripts/validate-consistency.js:62-88 | every returned path extends the starting path by the segments leading to a descendant that is itself reported at that depth |
| Walker.WalkComplete | scripts/validate-consistency.js:62-88 | every descendant reached through `properties`, `items`, `oneOf`/`anyOf`/`allOf` elements or object-valued `additionalProperties` that is reported appears under its path: exemptions never stop the descent |
| Walker.WalkExactly | scripts/validate-consistency.js:39-89 | a path is returned iff it is at least as long as the starting path, extends it, and leads to a node reported at its depth |
| Walker.NonObjectWalk | scripts/validate-consistency.js:42 | a null or non-object node gives no path |
| Walker.CheckProperties | scripts/validate-consistency.js:39-89 | the recursive walk returns the node's own path (if reported) and then each child's paths in visit order, joined with `.`, i.e. exactly the joined `Walk` |
| Findings.ErrorsOfMembers | scripts/validate-consistency.js:113-119 | a finding is in `errors` iff `error` was called with it |
| Findings.WarningsOfMembers | scripts/validate-consistency.js:121-127 | a finding is in `warnings` iff `warn` was called with it |
| Findings.ErrorsOfAppend | scripts/validate-consistency.js:114 | `errors` only grows: the findings of later calls follow those of earlier ones |
| Findings.WarningsOfAppend | scripts/validate-consistency.js:122 | `warnings` only grows in call order |
| Findings.NoticesPartition | scripts/validate-consistency.js:113-127 | every call lands in exactly one of the two lists |
| Findings.Summarize | scripts/validate-consistency.js:660-676 | failure iff some error; all passed iff both lists empty; passed with warnings iff no error and some warning |
| Findings.FailsIffSomeError | scripts/validate-consistency.js:660-676 | the run exits with 1 iff some recorded call was an `error`; warnings alone give 0 |
| Resolver.ResolveExample | scripts/validate-consistency.js:579-599 | a reference is only ever found for the checkout and payment families, and it always points under `#/$defs/` |
| Resolver.FirstMatchIsFirst | scripts/validate-consistency.js:581-599 | a decision table lookup yields nothing iff no row applies, else the target of an applying row with no earlier row applying |
| Resolver.ResolverIsFirstMatch | scripts/validate-consistency.js:579-599 | the chain of conditionals equals the first-match lookup in the seven-row table, for every family and name |
| Resolver.CompleteResponseFirst | scripts/validate-consistency.js:582-585 | `complete_checkout_session_response` contains `checkout_session` yet resolves to `CheckoutSessionWithOrder` |
| Resolver.PaymentErrorsUseError | scripts/validate-consistency.js:596-597 | every payment example named `delegate_payment_error_…` is checked against `#/$defs/Error` |
| Resolver.OtherFamiliesUnresolved | scripts/validate-consistency.js:579-605 | examples of any other family never resolve, so they are skipped without a notice |
| Resolver.LookupKey | scripts/validate-consistency.js:609 | the key ends with the reference, and equals it iff `$id` is falsy or converts to the empty string |
| Resolver.KeyOfStringId | scripts/validate-consistency.js:609 | a non-empty string `$id` is prefixed verbatim |
| Rules.Sweep | scripts/validate-consistency.js:350-363 | a `forEach` over definitions completes iff no step throws |
| Rules.SweepKeeps | scripts/validate-consistency.js:350-363 | a property of every step's notices holds of the whole loop's notices |
| Rules.DefinitionsOf | scripts/validate-consistency.js:349 | reading `$defs` or `components.schemas` throws exactly for a null document |
| Rules.SchemaSyntax | scripts/validate-consistency.js:141-161 | at most one notice; none iff the parsed document has a truthy `$schema`; a warning iff the file is missing; a null document gives an "Invalid JSON" error |
| Rules.OpenApiSyntax | scripts/validate-consistency.js:173-192 | at most one notice; none iff the parsed document has truthy `openapi`, `info` and `paths`; a warning iff the file is missing |
| Rules.ProhibitedIn | scripts/validate-consistency.js:210-221 | one error per forbidden name that is a truthy entry of a truthy `$defs`, and no other notice |
| Rules.ProhibitedCheck | scripts/validate-consistency.js:201-227 | missing or unparsable files report nothing; everything reported is a prohibited-definition error |
| Rules.AmountProp | scripts/validate-consistency.js:253-268 | an amount-named property throws iff it is null; otherwise it is reported iff it is not composed and its `type` is not `"integer"` |
| Rules.AmountDefEmitted | scripts/validate-consistency.js:250-271 | one definition's amount checks give only amount errors of the right file kind |
| Rules.AmountCheck | scripts/validate-consistency.js:243-276 | the amount rule reports nothing for missing or unparsable files, and only amount errors otherwise |
| Rules.DescribeDef | scripts/validate-consistency.js:350-362 | a definition's step throws iff it is null; otherwise it collects exactly the joined walk from `[defName]` |
| Rules.FieldDescriptionsCheck | scripts/validate-consistency.js:334-379 | a missing file gives exactly the "Schema not found" warning; a present one only errors; an unparsable one exactly the rule's failure error |
| Rules.ExampleDef | scripts/validate-consistency.js:405-413 | a definition's step throws iff it is null; otherwise it collects its name iff it lacks both `example` and `examples` |
| Rules.ModelExamplesCheck | scripts/validate-consistency.js:389-429 | a missing file gives exactly the warning; a present one only missing-example or failure errors |
| Rules.OpenApiDescriptionsCheck | scripts/validate-consistency.js:440-483 | a missing file reports nothing; everything reported is an error |
| Rules.OpenApiExampleDef | scripts/validate-consistency.js:511-524 | a schema's step throws iff it is null; otherwise it collects its name iff it needs an example |
| Rules.OpenApiExamplesCheck | scripts/validate-consistency.js:493-539 | a missing file reports nothing; everything reported is an error |
| Rules.ExampleVerdict | scripts/validate-consistency.js:573-633 | at most one notice per example, and only for a resolved name, naming that example |
| Rules.ExampleVerdicts | scripts/validate-consistency.js:573-633 | at most one notice per example, each an invalid-example error |
| Rules.ExamplesCheck | scripts/validate-consistency.js:549-639 | nothing unless both files exist; only errors |
| RuleProperties.SweepFrom | scripts/validate-consistency.js:350-363 | when no step throws, the loop emits and collects exactly what some step emits or collects |
| RuleProperties.SweepStops | scripts/validate-consistency.js:376-378 | the first null definition ends the loop with its exception, keeping only what earlier steps emitted |
| RuleProperties.KeysWhere | scripts/validate-consistency.js:404-414 | the collected names are exactly the keys of definitions meeting the condition |
| RuleProperties.SweepCollectsKeys | scripts/validate-consistency.js:404-414 | a loop that only collects qualifying names collects them in key order |
| RuleProperties.AmountReports | scripts/validate-consistency.js:253-268 | the amount errors of one definition are exactly those of its reported direct properties |
| RuleProperties.AmountPropsExact | scripts/validate-consistency.js:250-271 | without null amount properties, the amount rule emits exactly one error per amount-named, non-composed direct property whose `type` is not `"integer"`, in property order, and never throws |
| RuleProperties.AmountSweepExact | scripts/validate-consistency.js:250-271 | over definitions none of which, nor any amount property of which, is null, the loop over `$defs` gives each definition's amount errors in turn and never throws |
| RuleProperties.AmountCheckExact | scripts/validate-consistency.js:243-321 | for a non-null document of either kind with no null definition or amount property, the amount rule's notices are exactly, in order, one error per amount-named, non-composed direct property whose `type` is not `"integer"`, definition by definition |
| RuleProperties.StringTaxReported | scripts/validate-consistency.js:249-271 | a JSON Schema whose `LineItem` has a `tax` property typed `"string"` gives exactly one amount error from the amount rule |
| RuleProperties.ProhibitedExact | scripts/validate-consistency.js:210-221 | a name is reported iff the document is not null, the name is forbidden for the family, and `$defs` and its entry under that name are truthy |
| RuleProperties.RefundInCheckoutReported | scripts/validate-consistency.js:25-27 | a checkout schema declaring `Refund` gives exactly one prohibited-definition error |
| RuleProperties.OnlyCheckoutProhibits | scripts/validate-consistency.js:201-221 | no other family ever gets a prohibited-definition error |
| RuleProperties.ErrorEachIff | scripts/validate-consistency.js:367-372 | an item's error is emitted iff the item was collected |
| RuleProperties.DescribedModels | scripts/validate-consistency.js:354-359 | a model is reported as undescribed iff some definition of that name has a falsy `description` |
| RuleProperties.DescribedFields | scripts/validate-consistency.js:362 | a field path is collected iff the walk of some definition from its own name reports it |
| RuleProperties.FieldDescriptionsExact | scripts/validate-consistency.js:349-375 | with no null definition, the rule reports a model iff its `description` is falsy, and a field path iff some definition's walk reports it |
| RuleProperties.TypedUndescribedReportedTwice | scripts/validate-consistency.js:354-362 | a typed, undescribed, non-exempt definition is reported both as a model and as the field path of its own name |
| RuleProperties.StatusPathReported | scripts/validate-consistency.js:63-67 | an undescribed `status` typed `"string"` under a described `Order` is reported as exactly `Order.status` |
| RuleProperties.EnumStatusExempt | scripts/validate-consistency.js:57 | the same property with an `enum` is not reported |
| RuleProperties.ModelExamplesExact | scripts/validate-consistency.js:404-422 | with no null definition, the rule reports exactly the definitions lacking both `example` and `examples`, one error each, in `$defs` order |
| RuleProperties.ModelExamplesNullDefinition | scripts/validate-consistency.js:426-428 | a null definition makes the failure error the rule's only notice for the file |
| RuleProperties.OpenApiTopLevelExempt | scripts/validate-consistency.js:464-467 | an OpenAPI schema is never reported itself: every reported path starts at its name and goes at least one level below |
| RuleProperties.OpenApiWalksFrom | scripts/validate-consistency.js:458-468 | a path is collected iff the walk of some schema reports it |
| RuleProperties.OpenApiDescriptionsExact | scripts/validate-consistency.js:451-476 | for a non-null document, a field path is reported iff the walk of some schema, with the top level and `$ref` nodes exempt, reports it |
| RuleProperties.OpenApiExamplesExact | scripts/validate-consistency.js:511-532 | with no null schema, the rule reports exactly the schemas with no `example`/`examples`, `type: object`, and none of `$ref`, `enum`, `allOf`, `oneOf`, `anyOf`, in order |
| RuleProperties.VerdictsFrom | scripts/validate-consistency.js:573-633 | a notice of the examples loop is the notice of some example |
| RuleProperties.VerdictExact | scripts/validate-consistency.js:602-628 | an example is reported with given mismatches iff its name matches, it resolves, the schema is not null, and the validator lists those mismatches under the `$id`-based key |
| RuleProperties.ExampleReportedExact | scripts/validate-consistency.js:570-633 | once both files parse and the schema is registered, an example is reported iff it resolves and the validator, asked under the `$id`-based key, lists mismatches for it |
| RuleProperties.ResolvedVerdict | scripts/validate-consistency.js:607-628 | a resolved example the validator rejects gives exactly one invalid-example error |
| RuleProperties.PaymentErrorExampleReported | scripts/validate-consistency.js:596-628 | a lone `delegate_payment_error_…` example that fails `Error` gives exactly one error |
| Linter.Report.constructor | scripts/validate-consistency.js:34-35 | both lists start empty |
| Linter.Report.AddError | scripts/validate-consistency.js:113-119 | `error` appends its finding to `errors` and leaves `warnings` alone |
| Linter.Report.AddWarning | scripts/validate-consistency.js:121-127 | `warn` appends its finding to `warnings` and leaves `errors` alone |
| Linter.Report.Record | scripts/validate-consistency.js:113-127 | a sequence of calls appends exactly the errors and warnings among them, in order |
| Linter.Report.Apply | scripts/validate-consistency.js:137-162 | a rule's versions × families loops append exactly the rule's notices, version by version, family by family |
| Linter.Report.RunAll | scripts/validate-consistency.js:647-655 | the main script appends the notices of the nine rule functions in call order |
| Linter.Validate | scripts/validate-consistency.js:647-676 | a run's lists are exactly the errors and warnings of all notices, and the exit status is 1 iff one of them is an error |

## Left out

- Reading the file system is not modelled. This covers `getJsonSchemaFiles`, `getOpenApiFiles`, `fs.existsSync`, `fs.readFileSync` and path building (lines 92-111, 141-146 and the like). The `Corpus` gives each version's listed families and each file as inputs, and a missing file is `None`.
- Directory listing order is taken as given.
- The listing's name mangling (`replace('schema.', '')`) is not modelled.
- `JSON.parse` and `yaml.load` are not modelled. A file is either a parsed `Json` or `Unparsable` with the parser's message. An empty YAML file is taken as a null document.
- A document is assumed to have distinct keys. Property reads take the first member of a name, while `JSON.parse` keeps the last.
- Numbers are integers. Fractions, and the way JavaScript prints large or non-integer numbers when `$id` is a number, are not modelled.
- The Ajv validator is an oracle, because it is a foreign library:
  - `accepts` stands for `addSchema` not throwing;
  - `check` gives no answer when `getSchema` finds nothing or validation throws, and otherwise whether the example conforms, with the listed mismatches.
  - `addFormats` and the options passed to `new Ajv` are not modelled.
- Console output is not modelled, including `success`, message texts and the `reason` field of the prohibited-definition context, which is derived from the other fields.
- `process.exit` is modelled only as the returned exit status.
- A missing OpenAPI document gives a warning only from the syntax rule, and only when a listed document is absent. The description and example rules for OpenAPI documents skip a missing file silently. A family with no OpenAPI document is not listed, so it gets no warning at all.
- Rules.ProhibitedNames: written for the single entry of `PROHIBITED_SCHEMAS`. A second family in that table would have to be added to it.
- RuleProperties.FieldDescriptionsExact: stated only for documents with no null definition. For other documents only the general contract of `Rules.FieldDescriptionsCheck` and `RuleProperties.SweepStops` apply.
- RuleProperties.ModelExamplesExact: stated only for documents with no null definition. `RuleProperties.ModelExamplesNullDefinition` covers the other case.
- RuleProperties.OpenApiExamplesExact: stated only for documents with no null schema.
- RuleProperties.AmountPropsExact: stated only for definitions with no null amount property. A null one ends the rule for that file, as `Rules.AmountProp` states.
- RuleProperties.AmountCheckExact: stated only for documents with no null definition and no null amount property. A null one ends the rule for that file with no further notice, as `RuleProperties.SweepStops` and `Rules.AmountProp` state.
- Rules.AmountCheck: its contract states only the shape of the notices. What is reported is stated by `RuleProperties.AmountCheckExact`.
- Rules.FieldDescriptionsCheck: its contract states only the shape of the notices. What is reported is stated by `RuleProperties.FieldDescriptionsExact`.
- Rules.ModelExamplesCheck: its contract states only the shape of the notices. What is reported is stated by `RuleProperties.ModelExamplesExact`.
- The Python package (`library/python`) is not part of this model. It holds model declarations and tests that call a live service.
