/**
  What the consistency linter records: every `error(...)` and `warn(...)` call
  becomes a notice carrying the version and family it is about and the issue,
  and the run ends with an outcome decided by the two lists alone.
 */
module Findings {
  import opened Json

  /** The issues the rules report; the message text of each is not modelled, only its content. */
  datatype Issue =
    | SchemaNotFound
    | OpenApiNotFound
    | InvalidJson(cause: Exception)
    | MissingSchemaDialect
    | InvalidYaml(cause: Exception)
    | InvalidOpenApiStructure
    | ProhibitedSchema(schema: string)
    | AmountNotInteger(schema: string, field: string, fieldType: Value, openApi: bool)
    | ModelMissingDescription(model: string)
    | FieldMissingDescription(field: string)
    | FieldDescriptionsFailed(cause: Exception)
    | ModelMissingExample(model: string)
    | ModelExamplesFailed(cause: Exception)
    | OpenApiFieldMissingDescription(field: string)
    | OpenApiDescriptionsFailed(cause: Exception)
    | OpenApiSchemaMissingExample(schema: string)
    | OpenApiExamplesFailed(cause: Exception)
    | ExampleInvalid(example: string, details: seq<string>)
    | ExamplesFailed(cause: Exception)

  /** The context object every `error`/`warn` call passes: `{ version, spec, ... }`. */
  datatype Finding = Finding(version: string, spec: string, issue: Issue)

  /** One call of `error` or of `warn`. */
  datatype Notice = Error(finding: Finding) | Warning(finding: Finding)

  /** The findings `error` appended, in call order. */
  function ErrorsOf(ns: seq<Notice>): (r: seq<Finding>)
    ensures |r| <= |ns|
  {
    if ns == [] then []
    else
      var last := ns[|ns| - 1];
      ErrorsOf(ns[..|ns| - 1]) + (if last.Error? then [last.finding] else [])
  }

  /** The findings `warn` appended, in call order. */
  function WarningsOf(ns: seq<Notice>): (r: seq<Finding>)
    ensures |r| <= |ns|
  {
    if ns == [] then []
    else
      var last := ns[|ns| - 1];
      WarningsOf(ns[..|ns| - 1]) + (if last.Warning? then [last.finding] else [])
  }

  /** A finding is among the errors exactly when `error` was called with it. */
  lemma {:induction false} ErrorsOfMembers(ns: seq<Notice>, f: Finding)
    ensures f in ErrorsOf(ns) <==> Error(f) in ns
    decreases |ns|
  {
    if ns != [] {
      var init := ns[..|ns| - 1];
      assert ns == init + [ns[|ns| - 1]];
      ErrorsOfMembers(init, f);
    }
  }

  /** A finding is among the warnings exactly when `warn` was called with it. */
  lemma {:induction false} WarningsOfMembers(ns: seq<Notice>, f: Finding)
    ensures f in WarningsOf(ns) <==> Warning(f) in ns
    decreases |ns|
  {
    if ns != [] {
      var init := ns[..|ns| - 1];
      assert ns == init + [ns[|ns| - 1]];
      WarningsOfMembers(init, f);
    }
  }

  lemma {:induction false} ErrorsOfAppend(a: seq<Notice>, b: seq<Notice>)
    ensures ErrorsOf(a + b) == ErrorsOf(a) + ErrorsOf(b)
    decreases |b|
  {
    if b != [] {
      var init := b[..|b| - 1];
      assert (a + b)[..|a + b| - 1] == a + init;
      ErrorsOfAppend(a, init);
    } else {
      assert a + b == a;
    }
  }

  lemma {:induction false} WarningsOfAppend(a: seq<Notice>, b: seq<Notice>)
    ensures WarningsOf(a + b) == WarningsOf(a) + WarningsOf(b)
    decreases |b|
  {
    if b != [] {
      var init := b[..|b| - 1];
      assert (a + b)[..|a + b| - 1] == a + init;
      WarningsOfAppend(a, init);
    } else {
      assert a + b == a;
    }
  }

  /** Taking one more notice of `ns` appends its finding to the list of its kind. */
  lemma NoticesSnoc(ns: seq<Notice>, i: nat)
    requires i < |ns|
    ensures ErrorsOf(ns[..i + 1]) == ErrorsOf(ns[..i]) + (if ns[i].Error? then [ns[i].finding] else [])
    ensures WarningsOf(ns[..i + 1]) == WarningsOf(ns[..i]) + (if ns[i].Warning? then [ns[i].finding] else [])
  {
    assert ns[..i + 1][..i] == ns[..i];
  }

  /** Every notice is either an error or a warning, and none is lost or duplicated. */
  lemma {:induction false} NoticesPartition(ns: seq<Notice>)
    ensures |ErrorsOf(ns)| + |WarningsOf(ns)| == |ns|
    decreases |ns|
  {
    if ns != [] {
      NoticesPartition(ns[..|ns| - 1]);
    }
  }

  /** How the summary at the end of a run reads. */
  datatype Outcome = AllPassed | PassedWithWarnings | Failed

  /** The summary decision (lines 660-676). */
  function Summarize(errors: seq<Finding>, warnings: seq<Finding>): (r: Outcome)
    ensures r == Failed <==> |errors| > 0
    ensures r == AllPassed <==> |errors| == 0 && |warnings| == 0
    ensures r == PassedWithWarnings <==> |errors| == 0 && |warnings| > 0
  {
    if |errors| == 0 && |warnings| == 0 then AllPassed
    else if |errors| > 0 then Failed
    else PassedWithWarnings
  }

  /** The status `process.exit` is given. */
  function ExitCode(o: Outcome): (code: int)
    ensures code == 0 || code == 1
    ensures code == 1 <==> o == Failed
  {
    if o == Failed then 1 else 0
  }

  /**
    The run fails if and only if some rule called `error`: warnings alone,
    however many, give exit status 0.
   */
  lemma {:induction false} FailsIffSomeError(ns: seq<Notice>)
    ensures ExitCode(Summarize(ErrorsOf(ns), WarningsOf(ns))) == 1 <==> exists i :: 0 <= i < |ns| && ns[i].Error?
  {
    if exists i :: 0 <= i < |ns| && ns[i].Error? {
      var i :| 0 <= i < |ns| && ns[i].Error?;
      ErrorsOfMembers(ns, ns[i].finding);
    } else if ErrorsOf(ns) != [] {
      var f := ErrorsOf(ns)[0];
      ErrorsOfMembers(ns, f);
    }
  }
}
