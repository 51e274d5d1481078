/**
  JSON values as `JSON.parse` and `yaml.load` hand them to the consistency linter,
  together with the few JavaScript notions the linter's rules depend on:
  truthiness, reading a property (which throws on null and undefined),
  `Object.keys`, and the string conversion `+` applies to a value.
 */
module Json {

  datatype Option<+T> = None | Some(value: T)

  /** A parsed document. JSON numbers are integers in this model. */
  datatype Json =
    | JNull
    | JBool(b: bool)
    | JNum(n: int)
    | JStr(s: string)
    | JArr(elems: seq<Json>)
    | JObj(members: seq<Member>)

  /** One own property of an object; an object's members are listed in `Object.keys` order. */
  datatype Member = Member(key: string, value: Json)

  /** A JavaScript value as the linter sees it after a property read: `None` is `undefined`. */
  type Value = Option<Json>

  /** What a rule body can throw before its `catch`. */
  datatype Exception =
    | SyntaxError(message: string)  // JSON.parse or yaml.load rejected the text
    | NullRead(key: string)         // reading `key` of null or undefined
    | NullToObject                  // Object.keys(null)
    | SchemaRejected                // the schema validator refused to register the document

  datatype Try<+T> = Ok(value: T) | Throw(ex: Exception)

  /** JavaScript truthiness: undefined, null, false, 0 and "" are falsy; every array and object is truthy. */
  predicate Truthy(v: Value) {
    match v
    case None => false
    case Some(JNull) => false
    case Some(JBool(b)) => b
    case Some(JNum(n)) => n != 0
    case Some(JStr(s)) => s != ""
    case Some(JArr(_)) => true
    case Some(JObj(_)) => true
  }

  /** The position of the first member called `key`, if any. */
  function FindKey(ms: seq<Member>, key: string): (r: Option<nat>)
    ensures r.Some? ==> r.value < |ms| && ms[r.value].key == key
  {
    if ms == [] then None
    else if ms[0].key == key then Some(0)
    else match FindKey(ms[1..], key)
      case None => None
      case Some(i) => Some(i + 1)
  }

  /**
    `j.key` for a `j` that is neither null nor undefined: the value of the first
    member called `key`. Only objects have own properties the linter asks for:
    strings, numbers, booleans and arrays give undefined for every key the
    rules read (none of them is an index or `length`).
   */
  function Get(j: Json, key: string): (r: Value)
    ensures r.Some? ==> j.JObj? && r.value < j
  {
    match j
    case JObj(ms) =>
      (match FindKey(ms, key)
       case Some(i) => assert ms[i].value < ms[i]; Some(ms[i].value)
       case None => None)
    case _ => None
  }

  /** `holder.key` as JavaScript evaluates it: a TypeError when `holder` is null or undefined. */
  function ReadProp(holder: Value, key: string): (r: Try<Value>)
    ensures r.Throw? <==> holder == None || holder == Some(JNull)
    ensures r.Ok? ==> r.value == Get(holder.value, key)
  {
    match holder
    case None => Throw(NullRead(key))
    case Some(JNull) => Throw(NullRead(key))
    case Some(j) => Ok(Get(j, key))
  }

  /**
    `Object.keys(j)` paired with `j[key]`: an object's members; an array's or a
    string's positions, each with its element (a one-character string for a
    string); nothing for a number or a boolean. `Object.keys(null)` throws and
    is handled by the callers.
   */
  function Entries(j: Json): (r: seq<Member>)
    ensures j.JObj? ==> r == j.members
    ensures j.JArr? ==> |r| == |j.elems| && forall i :: 0 <= i < |r| ==> r[i] == Member(NatToString(i), j.elems[i])
    ensures j.JStr? ==> |r| == |j.s| && forall i :: 0 <= i < |r| ==> r[i] == Member(NatToString(i), JStr([j.s[i]]))
    ensures (j.JObj? || j.JArr?) ==> forall i :: 0 <= i < |r| ==> r[i].value < j
    ensures j.JNull? || j.JBool? || j.JNum? ==> r == []
  {
    match j
    case JObj(ms) =>
      assert forall i :: 0 <= i < |ms| ==> ms[i].value < ms[i];
      ms
    case JArr(xs) => seq(|xs|, i requires 0 <= i < |xs| => Member(NatToString(i), xs[i]))
    case JStr(s) => seq(|s|, i requires 0 <= i < |s| => Member(NatToString(i), JStr([s[i]])))
    case _ => []
  }

  function Digit(d: nat): char
    requires d < 10
  {
    "0123456789"[d]
  }

  /** Decimal numeral of `n`, as JavaScript writes an array index. */
  function NatToString(n: nat): (r: string)
    ensures |r| > 0
    ensures forall k :: 0 <= k < |r| ==> '0' <= r[k] <= '9'
  {
    if n < 10 then [Digit(n)] else NatToString(n / 10) + [Digit(n % 10)]
  }

  function IntToString(n: int): string {
    if n < 0 then "-" + NatToString(-n) else NatToString(n)
  }

  /**
    The string `+` makes of a JSON value: a string as is, `true`/`false`,
    `null`, a number's numeral, `[object Object]` for an object, and for an
    array its elements converted and joined by commas (null elements give "").
   */
  function JsString(j: Json): string {
    match j
    case JNull => "null"
    case JBool(b) => if b then "true" else "false"
    case JNum(n) => IntToString(n)
    case JStr(s) => s
    case JObj(_) => "[object Object]"
    case JArr(xs) => JoinComma(seq(|xs|, i requires 0 <= i < |xs| => if xs[i] == JNull then "" else JsString(xs[i])))
  }

  function JoinComma(parts: seq<string>): string {
    if parts == [] then "" else if |parts| == 1 then parts[0] else parts[0] + "," + JoinComma(parts[1..])
  }
}
