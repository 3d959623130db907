/** The few JavaScript value semantics the booking flow depends on: an absent JSON
    field, truthiness (`!x`, `x || d`), and object spread (`{ ...a, ...b }`). */
module Js {

  /** A value that may be absent: `undefined` in the source. */
  datatype Option<+T> = None | Some(value: T)

  /** `!!f` for a string field read out of a JSON body: an absent field and the empty
      string are both falsy. */
  predicate Given(f: Option<string>) {
    f.Some? && f.value != ""
  }

  /** The values the client store holds under its keys. */
  datatype Value = Str(s: string) | Num(n: real)

  /** JavaScript truthiness of a stored value (`""` and `0` are falsy). */
  predicate Truthy(v: Value) {
    match v
    case Str(s) => s != ""
    case Num(n) => n != 0.0
  }

  /** A plain object; a key that is not in the map reads as `undefined`. */
  type Record = map<string, Value>

  /** `!!rec.key`: the key is present and its value is truthy. */
  predicate Present(rec: Record, key: string) {
    key in rec && Truthy(rec[key])
  }

  /** `rec.key` read as a string field of a JSON body. */
  function StrField(rec: Record, key: string): (r: Option<string>)
    ensures r.Some? <==> key in rec && rec[key].Str?
    ensures r.Some? ==> rec[key] == Str(r.value)
  {
    if key in rec && rec[key].Str? then Some(rec[key].s) else None
  }

  /** `rec.key || ""` for a field that holds text. */
  function TextOr(rec: Record, key: string): (r: string)
    ensures r != "" <==> key in rec && rec[key].Str? && Truthy(rec[key])
    ensures r != "" ==> rec[key] == Str(r)
  {
    if key in rec && rec[key].Str? then rec[key].s else ""
  }

  /** `{ ...a, ...b }`: every key of `b` takes `b`'s value, every other key keeps `a`'s. */
  function Spread(a: Record, b: Record): (r: Record)
    ensures r.Keys == a.Keys + b.Keys
    ensures forall k :: k in b ==> r[k] == b[k]
    ensures forall k :: k in a && k !in b ==> r[k] == a[k]
  {
    a + b
  }

  /** Spreading the same object a second time changes nothing. */
  lemma SpreadIdempotent(a: Record, b: Record)
    ensures Spread(Spread(a, b), b) == Spread(a, b)
  {
  }
}
