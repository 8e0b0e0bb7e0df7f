/**
 * The slice of Python's JSON/dict behaviour that the response adapter relies on:
 * truthiness, `dict.get` with a default, `float()`/`int()` of decoded JSON values,
 * and `for x in value` over the decoded value.
 *
 * Every operation that Python would answer with an exception (an `AttributeError`
 * from `.get` on a non-dict, a `TypeError` from `float(None)` ...) answers `None` here.
 */
module Json {
  import opened Wrappers

  /** A decoded JSON value; an object is a Python dict with string keys. */
  datatype Json =
    | JNull
    | JBool(b: bool)
    | JNum(n: real)
    | JStr(s: string)
    | JArr(items: seq<Json>)
    | JObj(fields: map<string, Json>)

  const EmptyObject: Json := JObj(map[])

  /** Python's `bool(value)`: None, False, zero and empty containers are falsy. */
  predicate Truthy(j: Json) {
    match j
    case JNull => false
    case JBool(b) => b
    case JNum(n) => n != 0.0
    case JStr(s) => s != ""
    case JArr(items) => items != []
    case JObj(fields) => fields != map[]
  }

  /** `m.get(key, default)` on a dict. */
  function Lookup(m: map<string, Json>, key: string, default: Json): (r: Json)
    ensures key in m ==> r == m[key]
    ensures key !in m ==> r == default
  {
    if key in m then m[key] else default
  }

  /** `value.get(key, default)`: only a dict has `.get`. */
  function Get(j: Json, key: string, default: Json): (r: Option<Json>)
    ensures r.Some? <==> j.JObj?
    ensures j.JObj? ==> r.value == Lookup(j.fields, key, default)
  {
    match j
    case JObj(m) => Some(Lookup(m, key, default))
    case _ => None
  }

  /** Python's `float(value)` on a decoded JSON value (`True` is 1.0). */
  function ToFloat(j: Json): (r: Option<real>)
    ensures r.Some? <==> j.JNum? || j.JBool?
    ensures j.JNum? ==> r == Some(j.n)
    ensures j.JBool? ==> r == Some(if j.b then 1.0 else 0.0)
  {
    match j
    case JNum(n) => Some(n)
    case JBool(b) => Some(if b then 1.0 else 0.0)
    case _ => None
  }

  /** Python's `int(x)` on a float: truncation toward zero. */
  function Truncate(x: real): (r: int)
    ensures 0.0 <= x ==> r as real <= x < r as real + 1.0
    ensures x <= 0.0 ==> r as real - 1.0 < x <= r as real
  {
    if x >= 0.0 then x.Floor else -((-x).Floor)
  }

  /** Python's `int(value)` on a decoded JSON value (`True` is 1). */
  function ToInt(j: Json): (r: Option<int>)
    ensures r.Some? <==> j.JNum? || j.JBool?
    ensures j.JNum? ==> r == Some(Truncate(j.n))
    ensures j.JBool? ==> r == Some(if j.b then 1 else 0)
  {
    match j
    case JNum(n) => Some(Truncate(n))
    case JBool(b) => Some(if b then 1 else 0)
    case _ => None
  }

  /**
   * `int(value)` is `float(value)` truncated toward zero: the two coercions accept the same
   * values, and agree on them.
   */
  lemma ToIntTruncatesToFloat(j: Json)
    ensures ToInt(j).Some? <==> ToFloat(j).Some?
    ensures ToFloat(j).Some? ==> ToInt(j).value == Truncate(ToFloat(j).value)
  {
  }

  /**
   * The items of `for x in value`, for a consumer that calls `.get` on each item.
   * A list yields its items. An empty dict or string yields nothing. A non-empty dict
   * or string yields string keys or characters, on which `.get` raises, so the
   * consumer fails exactly as it does here; numbers, booleans and None are not iterable.
   */
  function Items(j: Json): (r: Option<seq<Json>>)
    ensures j.JArr? ==> r == Some(j.items)
    ensures r.Some? && !j.JArr? ==> r.value == [] && !Truthy(j)
    ensures r.None? <==> !j.JArr? && (Truthy(j) || j.JNull? || j.JBool? || j.JNum?)
  {
    match j
    case JArr(items) => Some(items)
    case JObj(fields) => if fields == map[] then Some([]) else None
    case JStr(s) => if s == "" then Some([]) else None
    case _ => None
  }
}
