/**
 * JSON values as the worker sees them after `JSON.parse`: an object is the
 * list of its own properties in the order `Object.entries` reports them.
 */
module Json {

  datatype Json =
    | JNull
    | JBool(b: bool)
    | JNumber(n: int)
    | JString(s: string)
    | JArray(items: seq<Json>)
    | JObject(fields: seq<(string, Json)>)

  /** The property names of an object, in order. */
  function Keys(fields: seq<(string, Json)>): (ks: seq<string>)
    ensures |ks| == |fields|
    ensures forall i :: 0 <= i < |fields| ==> ks[i] == fields[i].0
  {
    seq(|fields|, i requires 0 <= i < |fields| => fields[i].0)
  }

  predicate DistinctKeys(fields: seq<(string, Json)>) {
    forall i, j :: 0 <= i < j < |fields| ==> fields[i].0 != fields[j].0
  }

  /** Every object in the tree has distinct property names, as `JSON.parse` produces. */
  predicate WellFormed(j: Json)
    decreases j
  {
    match j
    case JArray(items) => forall i :: 0 <= i < |items| ==> WellFormed(items[i])
    case JObject(fields) =>
      DistinctKeys(fields) && forall i :: 0 <= i < |fields| ==> WellFormed(fields[i].1)
    case _ => true
  }

  /** No array occurs anywhere in the tree. */
  predicate NoArrays(j: Json)
    decreases j
  {
    match j
    case JArray(_) => false
    case JObject(fields) => forall i :: 0 <= i < |fields| ==> NoArrays(fields[i].1)
    case _ => true
  }
}
