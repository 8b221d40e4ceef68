/**
 The values the service stores and exchanges: JSON documents as the body parser and
 the store-file parser produce them, and the JavaScript object-spread operation the
 handlers build records with.
 */
module JsonValues {

  /** The conventional Some/None datatype. */
  datatype Option<+T> = None | Some(value: T)

  /** A parsed JSON value. Numbers are kept as exact reals: the service never does
      arithmetic on them, it only stores and returns them. */
  datatype Json =
    | JNull
    | JBool(b: bool)
    | JNumber(n: real)
    | JString(s: string)
    | JArray(items: seq<Json>)
    | JObject(fields: map<string, Json>)

  /** A stored item: a JSON object, field name to value. The order in which a
      JavaScript object lists its keys only affects how the store file is printed,
      so a map is enough. */
  type Record = map<string, Json>

  /** The object literal `{ ...a, ...b }`: every field of `a` and every field of `b`,
      and where both have a field the later one, `b`, wins. */
  function Spread(a: Record, b: Record): (r: Record)
    ensures r.Keys == a.Keys + b.Keys
    ensures forall k :: k in b ==> r[k] == b[k]
    ensures forall k :: k in a && k !in b ==> r[k] == a[k]
  {
    a + b
  }
}
