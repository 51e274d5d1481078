/**
  The linter's state: the module-level `errors` and `warnings` arrays
  (lines 34-35) that `error` and `warn` append to, and the loops of the rule
  functions and of the main script that fill them.
 */
module Linter {
  import opened Json
  import opened Findings
  import opened Rules

  class Report {
    var errors: seq<Finding>
    var warnings: seq<Finding>

    constructor ()
      ensures errors == [] && warnings == []
    {
      errors := [];
      warnings := [];
    }

    /** `error(message, context)` (lines 113-119): the finding is appended to `errors`. */
    method AddError(f: Finding)
      modifies this
      ensures errors == old(errors) + [f]
      ensures warnings == old(warnings)
    {
      errors := errors + [f];
    }

    /** `warn(message, context)` (lines 121-127): the finding is appended to `warnings`. */
    method AddWarning(f: Finding)
      modifies this
      ensures warnings == old(warnings) + [f]
      ensures errors == old(errors)
    {
      warnings := warnings + [f];
    }

    /** Calls `error` or `warn` for each notice, in order. */
    method Record(ns: seq<Notice>)
      modifies this
      ensures errors == old(errors) + ErrorsOf(ns)
      ensures warnings == old(warnings) + WarningsOf(ns)
    {
      var i := 0;
      while i < |ns|
        invariant 0 <= i <= |ns|
        invariant errors == old(errors) + ErrorsOf(ns[..i])
        invariant warnings == old(warnings) + WarningsOf(ns[..i])
      {
        NoticesSnoc(ns, i);
        match ns[i] {
          case Error(f) => AddError(f);
          case Warning(f) => AddWarning(f);
        }
        i := i + 1;
      }
      assert ns[..i] == ns;
    }

    /**
      One rule function: `VERSIONS.forEach(version => specs.forEach(spec => ...))`,
      the body for each family of each version, in order.
     */
    method Apply(r: Rule, c: Corpus, ajv: Ajv)
      modifies this
      ensures errors == old(errors) + ErrorsOf(RuleNotices(r, c, ajv))
      ensures warnings == old(warnings) + WarningsOf(RuleNotices(r, c, ajv))
    {
      var versions := Versions(r);
      ghost var done: seq<Notice> := [];
      var i := 0;
      while i < |versions|
        invariant 0 <= i <= |versions|
        invariant done == AcrossVersions(r, c, ajv, versions[..i])
        invariant errors == old(errors) + ErrorsOf(done)
        invariant warnings == old(warnings) + WarningsOf(done)
      {
        var v := versions[i];
        var specs := Families(r, c, v);
        ghost var before := done;
        var j := 0;
        while j < |specs|
          invariant 0 <= j <= |specs|
          invariant done == before + AcrossFamilies(r, c, ajv, v, specs[..j])
          invariant errors == old(errors) + ErrorsOf(done)
          invariant warnings == old(warnings) + WarningsOf(done)
        {
          var ns := Check(r, c, ajv, v, specs[j]);
          Record(ns);
          Accumulate(old(errors), old(warnings), done, ns);
          FamiliesSnoc(r, c, ajv, v, specs, j, before);
          done := done + ns;
          j := j + 1;
        }
        VersionsSnoc(r, c, ajv, versions, i, specs, j);
        i := i + 1;
      }
      WholePrefix(versions, i);
    }

    /** The main script: every rule function, in the order it calls them (lines 647-655). */
    method RunAll(c: Corpus, ajv: Ajv)
      modifies this
      ensures errors == old(errors) + ErrorsOf(AllNotices(c, ajv))
      ensures warnings == old(warnings) + WarningsOf(AllNotices(c, ajv))
    {
      var rules := RULE_ORDER;
      ghost var done: seq<Notice> := [];
      var i := 0;
      while i < |rules|
        invariant 0 <= i <= |rules|
        invariant done == RunRules(rules[..i], c, ajv)
        invariant errors == old(errors) + ErrorsOf(done)
        invariant warnings == old(warnings) + WarningsOf(done)
      {
        ghost var ns := RuleNotices(rules[i], c, ajv);
        Apply(rules[i], c, ajv);
        Accumulate(old(errors), old(warnings), done, ns);
        RulesSnoc(rules, i, c, ajv);
        done := done + ns;
        i := i + 1;
      }
      WholeRules(rules, i);
    }
  }

  /** Appending the findings of more notices is recording the longer list of notices. */
  lemma Accumulate(e0: seq<Finding>, w0: seq<Finding>, done: seq<Notice>, ns: seq<Notice>)
    ensures e0 + ErrorsOf(done) + ErrorsOf(ns) == e0 + ErrorsOf(done + ns)
    ensures w0 + WarningsOf(done) + WarningsOf(ns) == w0 + WarningsOf(done + ns)
  {
    ErrorsOfAppend(done, ns);
    WarningsOfAppend(done, ns);
  }

  lemma FamiliesSnoc(r: Rule, c: Corpus, ajv: Ajv, v: string, specs: seq<string>, j: nat, before: seq<Notice>)
    requires j < |specs|
    ensures before + AcrossFamilies(r, c, ajv, v, specs[..j + 1]) == before + AcrossFamilies(r, c, ajv, v, specs[..j]) + Check(r, c, ajv, v, specs[j])
  {
    assert specs[..j + 1][..j] == specs[..j];
  }

  lemma VersionsSnoc(r: Rule, c: Corpus, ajv: Ajv, versions: seq<string>, i: nat, specs: seq<string>, j: nat)
    requires i < |versions| && specs == Families(r, c, versions[i]) && j == |specs|
    ensures AcrossVersions(r, c, ajv, versions[..i + 1]) == AcrossVersions(r, c, ajv, versions[..i]) + AcrossFamilies(r, c, ajv, versions[i], specs[..j])
  {
    assert versions[..i + 1][..i] == versions[..i];
    assert specs[..j] == specs;
  }

  lemma WholePrefix(versions: seq<string>, i: nat)
    requires i == |versions|
    ensures versions[..i] == versions
  {
  }

  lemma RulesSnoc(rules: seq<Rule>, i: nat, c: Corpus, ajv: Ajv)
    requires i < |rules|
    ensures RunRules(rules[..i + 1], c, ajv) == RunRules(rules[..i], c, ajv) + RuleNotices(rules[i], c, ajv)
  {
    assert rules[..i + 1][..i] == rules[..i];
  }

  lemma WholeRules(rules: seq<Rule>, i: nat)
    requires i == |rules|
    ensures rules[..i] == rules
  {
  }

  /**
    A whole run over a corpus: the findings both lists end up with, and the
    exit status, which is 1 exactly when some rule reported an error.
   */
  method Validate(c: Corpus, ajv: Ajv) returns (exitCode: int, errors: seq<Finding>, warnings: seq<Finding>)
    ensures errors == ErrorsOf(AllNotices(c, ajv)) && warnings == WarningsOf(AllNotices(c, ajv))
    ensures exitCode == 0 || exitCode == 1
    ensures exitCode == 1 <==> exists i :: 0 <= i < |AllNotices(c, ajv)| && AllNotices(c, ajv)[i].Error?
  {
    var report := new Report();
    report.RunAll(c, ajv);
    errors, warnings := report.errors, report.warnings;
    exitCode := ExitCode(Summarize(errors, warnings));
    FailsIffSomeError(AllNotices(c, ajv));
  }
}
