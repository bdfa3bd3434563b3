/**
 * The JSON value tree the codec works on, in the shape of Gson's
 * `JsonElement`: a primitive (string, number, boolean), `JsonNull`, an array
 * or an object.  A number keeps the lexeme it was read from, as Gson's lazily
 * parsed numbers do; an object keeps its members in insertion order, as
 * Gson's `JsonObject` does.  Text formatting and parsing are not modelled.
 */
module JsonTree {

  import opened Wrappers

  datatype Json =
    | JStr(s: string)
    | JNum(lexeme: string)
    | JBool(b: bool)
    | JNull
    | JArr(items: seq<Json>)
    | JObj(members: seq<(string, Json)>)

  predicate IsPrimitive(j: Json) {
    j.JStr? || j.JNum? || j.JBool?
  }

  /** A `JsonObject` never holds the same key twice. */
  predicate DistinctKeys(members: seq<(string, Json)>) {
    forall i, k :: 0 <= i < k < |members| ==> members[i].0 != members[k].0
  }

  /** A tree that Gson can hold: no object anywhere repeats a key. */
  predicate Valid(j: Json)
    decreases j
  {
    match j
    case JArr(items) => forall i :: 0 <= i < |items| ==> Valid(items[i])
    case JObj(members) =>
      DistinctKeys(members) && forall i :: 0 <= i < |members| ==> Valid(members[i].1)
    case _ => true
  }

  /** Position of the member named `key` (the first, should there be several). */
  function Find(members: seq<(string, Json)>, key: string): (r: Option<nat>)
    ensures r.Some? ==> r.value < |members| && members[r.value].0 == key
    ensures r.Some? ==> forall i :: 0 <= i < r.value ==> members[i].0 != key
    ensures r.None? ==> forall i :: 0 <= i < |members| ==> members[i].0 != key
  {
    if members == [] then None
    else if members[0].0 == key then Some(0)
    else match Find(members[1..], key)
      case None => None
      case Some(i) => Some(i + 1)
  }

  /** `JsonObject.get(key)`: the member's value, or Java's `null` when absent. */
  function Get(members: seq<(string, Json)>, key: string): (r: Option<Json>)
    ensures r.None? <==> forall i :: 0 <= i < |members| ==> members[i].0 != key
    ensures DistinctKeys(members) ==>
      forall i :: 0 <= i < |members| && members[i].0 == key ==> r == Some(members[i].1)
  {
    match Find(members, key)
    case None => None
    case Some(i) => Some(members[i].1)
  }

  /**
   * `JsonElement.getAsString()`: a primitive gives its string form (a number
   * its lexeme, a boolean "true" or "false"); an array of exactly one element
   * gives that element's; `JsonNull`, an object or any other array throws,
   * which is `None` here.
   */
  function AsString(j: Json): (r: Option<string>)
    decreases j
    ensures IsPrimitive(j) ==> r.Some?
    ensures j.JStr? ==> r == Some(j.s)
    ensures j.JNull? || j.JObj? ==> r.None?
    ensures j.JArr? && |j.items| != 1 ==> r.None?
  {
    match j
    case JStr(s) => Some(s)
    case JNum(lexeme) => Some(lexeme)
    case JBool(b) => Some(if b then "true" else "false")
    case JNull => None
    case JArr(items) => if |items| == 1 then AsString(items[0]) else None
    case JObj(_) => None
  }
}
