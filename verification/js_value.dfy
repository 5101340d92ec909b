/** JavaScript values as they occur in book records, and the object operations the
    favorites store relies on: field access, object spread and the JSON round trip. */
module JsValue {

  /** The values a book record field can hold. `Undefined` is a field that is present but
      set to `undefined` (as in `{ readingStatus: undefined }`). */
  datatype Value =
    | Undefined
    | Null
    | Str(s: string)
    | Num(n: int)
    | Bool(b: bool)
    | StrArray(items: seq<string>)

  /** A plain object: field name to value. */
  type Record = map<string, Value>

  /** What `JSON.parse` can give back: no field holds `undefined`. */
  predicate IsJsonRecord(r: Record) {
    forall f :: f in r ==> r[f] != Undefined
  }

  /** A record read back from storage. */
  type StoredRecord = r: Record | IsJsonRecord(r) witness map[]

  /** `r.f`: a missing field reads as `undefined`. */
  function Get(r: Record, f: string): Value {
    if f in r then r[f] else Undefined
  }

  /** `r.key`. */
  function KeyOf(r: Record): Value {
    Get(r, "key")
  }

  /** `r.key === k` for a string `k`. */
  predicate HasKey(r: Record, k: string) {
    KeyOf(r) == Str(k)
  }

  /** The `Book` type: any record whose `key` is a string. */
  type Book = r: Record | KeyOf(r).Str? witness map["key" := Str("")]

  /** The key of a book. */
  function BookKey(b: Book): string {
    KeyOf(b).s
  }

  /** JavaScript truthiness (integers only; NaN does not arise here). */
  predicate Truthy(v: Value) {
    match v
    case Undefined => false
    case Null => false
    case Str(s) => s != ""
    case Num(n) => n != 0
    case Bool(b) => b
    case StrArray(_) => true
  }

  /** `v.length > n`: only strings and arrays have a length; anything else compares false. */
  predicate LongerThan(v: Value, n: int) {
    match v
    case Str(s) => |s| > n
    case StrArray(items) => |items| > n
    case _ => false
  }

  /** `{ ...older, ...newer }`: every field of `newer` wins, including ones set to `undefined`. */
  function Spread(older: Record, newer: Record): (r: Record)
    ensures r.Keys == older.Keys + newer.Keys
    ensures forall f :: f in newer ==> r[f] == newer[f]
    ensures forall f :: f in older && f !in newer ==> r[f] == older[f]
  {
    older + newer
  }

  /** `JSON.parse(JSON.stringify(r))` for a flat record: fields holding `undefined` are dropped,
      every other field comes back unchanged. */
  function Stringify(r: Record): (j: StoredRecord)
    ensures forall f :: f in j <==> f in r && r[f] != Undefined
    ensures forall f :: f in j ==> j[f] == r[f]
  {
    map f | f in r && r[f] != Undefined :: r[f]
  }

  /** A record that came from storage survives another JSON round trip unchanged. */
  lemma StringifyStored(r: StoredRecord)
    ensures Stringify(r) == r
  {
    assert Stringify(r).Keys == r.Keys;
  }

  /** The JSON round trip keeps a string key. */
  lemma StringifyKeepsKey(r: Record)
    ensures KeyOf(r).Str? ==> KeyOf(Stringify(r)) == KeyOf(r)
  {
  }
}
