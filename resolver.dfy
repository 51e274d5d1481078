/**
  Which definition an example is checked against (lines 579-599) and the key
  the schema validator is asked for (line 609).
 */
module Resolver {
  import opened Json

  /** `s.startsWith(prefix)` */
  predicate StartsWith(s: string, prefix: string) {
    |prefix| <= |s| && s[..|prefix|] == prefix
  }

  /** `s.includes(part)` */
  predicate Contains(s: string, part: string) {
    exists i :: 0 <= i <= |s| && StartsAt(s, part, i)
  }

  /** `part` occurs in `s` at index `i`. */
  predicate StartsAt(s: string, part: string, i: int) {
    0 <= i <= |s| && StartsWith(s[i..], part)
  }

  /**
    The reference an example name is checked against, for the two families
    that have a mapping; the first branch that matches wins. `None` is the
    `null` that makes the example be skipped without a notice.
   */
  function ResolveExample(spec: string, name: string): (ref: Option<string>)
    ensures ref.Some? ==> spec == "agentic_checkout" || spec == "delegate_payment"
    ensures ref.Some? ==> StartsWith(ref.value, "#/$defs/")
  {
    if spec == "agentic_checkout" then
      if name == "complete_checkout_session_response" then Some("#/$defs/CheckoutSessionWithOrder")
      else if Contains(name, "checkout_session") && !Contains(name, "request") then Some("#/$defs/CheckoutSession")
      else if Contains(name, "create") && Contains(name, "request") then Some("#/$defs/CheckoutSessionCreateRequest")
      else if Contains(name, "complete") && Contains(name, "request") then Some("#/$defs/CheckoutSessionCompleteRequest")
      else None
    else if spec == "delegate_payment" then
      if name == "delegate_payment_request" then Some("#/$defs/DelegatePaymentRequest")
      else if name == "delegate_payment_success_response" then Some("#/$defs/DelegatePaymentResponse")
      else if StartsWith(name, "delegate_payment_error_") then Some("#/$defs/Error")
      else None
    else None
  }

  /** The shape of one condition in the resolver's decision table. */
  datatype Pattern =
    | Exactly(name: string)
    | IncludesNot(part: string, absent: string)
    | IncludesBoth(first: string, second: string)
    | Prefix(prefix: string)

  predicate Matches(p: Pattern, name: string) {
    match p
    case Exactly(n) => name == n
    case IncludesNot(part, absent) => Contains(name, part) && !Contains(name, absent)
    case IncludesBoth(first, second) => Contains(name, first) && Contains(name, second)
    case Prefix(prefix) => StartsWith(name, prefix)
  }

  /** One row of the decision table: for examples of `spec` whose name matches `pattern`, use `target`. */
  datatype Row = Row(spec: string, pattern: Pattern, target: string)

  /** The resolver's branches written down as data, in the order they are tried. */
  const TABLE: seq<Row> := [
    Row("agentic_checkout", Exactly("complete_checkout_session_response"), "#/$defs/CheckoutSessionWithOrder"),
    Row("agentic_checkout", IncludesNot("checkout_session", "request"), "#/$defs/CheckoutSession"),
    Row("agentic_checkout", IncludesBoth("create", "request"), "#/$defs/CheckoutSessionCreateRequest"),
    Row("agentic_checkout", IncludesBoth("complete", "request"), "#/$defs/CheckoutSessionCompleteRequest"),
    Row("delegate_payment", Exactly("delegate_payment_request"), "#/$defs/DelegatePaymentRequest"),
    Row("delegate_payment", Exactly("delegate_payment_success_response"), "#/$defs/DelegatePaymentResponse"),
    Row("delegate_payment", Prefix("delegate_payment_error_"), "#/$defs/Error")
  ]

  predicate Applies(r: Row, spec: string, name: string) {
    r.spec == spec && Matches(r.pattern, name)
  }

  /** The target of the first row that applies. */
  function FirstMatch(rows: seq<Row>, spec: string, name: string): Option<string> {
    if rows == [] then None
    else if Applies(rows[0], spec, name) then Some(rows[0].target)
    else FirstMatch(rows[1..], spec, name)
  }

  /**
    The lookup finds nothing exactly when no row applies, and otherwise the
    target of a row that applies with none before it applying.
   */
  lemma {:induction false} FirstMatchIsFirst(rows: seq<Row>, spec: string, name: string)
    ensures var ref := FirstMatch(rows, spec, name);
            (ref.None? <==> forall i :: 0 <= i < |rows| ==> !Applies(rows[i], spec, name))
            && (ref.Some? ==> exists i :: 0 <= i < |rows| && Applies(rows[i], spec, name) && rows[i].target == ref.value
                                       && forall k :: 0 <= k < i ==> !Applies(rows[k], spec, name))
    decreases |rows|
  {
    if rows != [] && !Applies(rows[0], spec, name) {
      var rest := rows[1..];
      FirstMatchIsFirst(rest, spec, name);
      assert forall i :: 1 <= i < |rows| ==> rows[i] == rest[i - 1];
      var ref := FirstMatch(rest, spec, name);
      if ref.Some? {
        var i :| 0 <= i < |rest| && Applies(rest[i], spec, name) && rest[i].target == ref.value
                 && forall k :: 0 <= k < i ==> !Applies(rest[k], spec, name);
        assert Applies(rows[i + 1], spec, name) && forall k :: 0 <= k < i + 1 ==> !Applies(rows[k], spec, name);
      }
    }
  }

  /** Looking from row `k` on: row `k` wins if it applies, otherwise the search goes on below it. */
  lemma FirstMatchFrom(rows: seq<Row>, k: nat, spec: string, name: string)
    requires k < |rows|
    ensures FirstMatch(rows[k..], spec, name) ==
      if Applies(rows[k], spec, name) then Some(rows[k].target) else FirstMatch(rows[k + 1..], spec, name)
  {
    assert rows[k..][0] == rows[k];
    assert rows[k..][1..] == rows[k + 1..];
  }

  /** Rows of other families never apply, so the lookup passes over them. */
  lemma {:induction false} SkipOthers(rows: seq<Row>, k: nat, m: nat, spec: string, name: string)
    requires k <= m <= |rows|
    requires forall i :: k <= i < m ==> rows[i].spec != spec
    ensures FirstMatch(rows[k..], spec, name) == FirstMatch(rows[m..], spec, name)
    decreases m - k
  {
    if k < m {
      FirstMatchFrom(rows, k, spec, name);
      SkipOthers(rows, k + 1, m, spec, name);
    }
  }

  /** The chain of conditionals is exactly a first-match lookup in the table. */
  lemma ResolverIsFirstMatch(spec: string, name: string)
    ensures ResolveExample(spec, name) == FirstMatch(TABLE, spec, name)
  {
    if spec == "agentic_checkout" {
      CheckoutRows(spec, name);
    } else if spec == "delegate_payment" {
      PaymentRows(spec, name);
    } else {
      OtherRows(spec, name);
    }
  }

  lemma CheckoutRows(spec: string, name: string)
    requires spec == "agentic_checkout"
    ensures ResolveExample(spec, name) == FirstMatch(TABLE, spec, name)
  {
    CheckoutLookup(spec, name);
    CheckoutBranches(spec, name);
  }

  lemma CheckoutLookup(spec: string, name: string)
    requires spec == "agentic_checkout"
    ensures FirstMatch(TABLE, spec, name) ==
      if Applies(TABLE[0], spec, name) then Some(TABLE[0].target)
      else if Applies(TABLE[1], spec, name) then Some(TABLE[1].target)
      else if Applies(TABLE[2], spec, name) then Some(TABLE[2].target)
      else if Applies(TABLE[3], spec, name) then Some(TABLE[3].target)
      else None
  {
    var t := TABLE;
    assert t[0..] == t;
    FirstMatchFrom(t, 0, spec, name);
    FirstMatchFrom(t, 1, spec, name);
    FirstMatchFrom(t, 2, spec, name);
    FirstMatchFrom(t, 3, spec, name);
    PaymentRowsSkipped(spec, name);
  }

  lemma PaymentRowsSkipped(spec: string, name: string)
    requires spec != "delegate_payment"
    ensures FirstMatch(TABLE[4..], spec, name) == None
  {
    var t := TABLE;
    SkipOthers(t, 4, 7, spec, name);
    assert t[7..] == [];
  }

  lemma CheckoutBranches(spec: string, name: string)
    requires spec == "agentic_checkout"
    ensures ResolveExample(spec, name) ==
      if Applies(TABLE[0], spec, name) then Some(TABLE[0].target)
      else if Applies(TABLE[1], spec, name) then Some(TABLE[1].target)
      else if Applies(TABLE[2], spec, name) then Some(TABLE[2].target)
      else if Applies(TABLE[3], spec, name) then Some(TABLE[3].target)
      else None
  {
  }

  lemma PaymentRows(spec: string, name: string)
    requires spec == "delegate_payment"
    ensures ResolveExample(spec, name) == FirstMatch(TABLE, spec, name)
  {
    var t := TABLE;
    assert t[0..] == t;
    SkipOthers(t, 0, 4, spec, name);
    FirstMatchFrom(t, 4, spec, name);
    FirstMatchFrom(t, 5, spec, name);
    FirstMatchFrom(t, 6, spec, name);
    assert t[7..] == [];
  }

  lemma OtherRows(spec: string, name: string)
    requires spec != "agentic_checkout" && spec != "delegate_payment"
    ensures ResolveExample(spec, name) == FirstMatch(TABLE, spec, name)
  {
    var t := TABLE;
    assert t[0..] == t && t[7..] == [];
    SkipOthers(t, 0, 7, spec, name);
  }

  /**
    The first branch wins even when a later one also matches:
    `complete_checkout_session_response` contains `checkout_session` but
    resolves to `CheckoutSessionWithOrder`.
   */
  lemma CompleteResponseFirst()
    ensures Contains("complete_checkout_session_response", "checkout_session")
    ensures ResolveExample("agentic_checkout", "complete_checkout_session_response") == Some("#/$defs/CheckoutSessionWithOrder")
  {
    var name := "complete_checkout_session_response";
    assert StartsAt(name, "checkout_session", 9);
  }

  /** Every error example of the payment family is checked against `Error`. */
  lemma PaymentErrorsUseError(name: string)
    requires StartsWith(name, "delegate_payment_error_")
    ensures ResolveExample("delegate_payment", name) == Some("#/$defs/Error")
  {
    assert name[17] == 'e' by {
      assert name[..23][17] == name[17];
    }
    assert "delegate_payment_request"[17] == 'r';
    assert "delegate_payment_success_response"[17] == 's';
  }

  /** Examples of any other family are never resolved, so they are never checked. */
  lemma OtherFamiliesUnresolved(spec: string, name: string)
    requires spec != "agentic_checkout" && spec != "delegate_payment"
    ensures ResolveExample(spec, name) == None
  {
  }

  /**
    The key the validator is asked for (line 609): the reference, prefixed
    with the string form of a truthy `$id`.
   */
  function LookupKey(id: Value, ref: string): (key: string)
    ensures |ref| <= |key| && key[|key| - |ref|..] == ref
    ensures key == ref <==> !Truthy(id) || JsString(id.value) == ""
  {
    if Truthy(id) then
      assert (JsString(id.value) + ref)[|JsString(id.value)|..] == ref;
      JsString(id.value) + ref
    else ref
  }

  /** A string `$id` is used verbatim as the base of the key. */
  lemma KeyOfStringId(base: string, ref: string)
    requires base != ""
    ensures LookupKey(Some(JStr(base)), ref) == base + ref
  {
  }
}
