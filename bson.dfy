/** The values a MongoDB record holds, as far as the connector reads or writes them,
    and Java's `String.valueOf` on them. */
module Bson {
  import opened Outcomes
  import opened JavaNumbers
  import opened ObjectIds

  datatype BsonValue =
    | BString(s: string)
    | BInteger(n: int)            // Int32 or Int64: both print as `Long.toString` does
    | BBoolean(b: bool)
    | BDateTime(millis: int)      // a java.util.Date
    | BObjectId(id: ObjectId)
    | BNull
    | BOther(rendering: string)   // double, decimal, nested document, array...: carries its Java text

  /** A record (an `org.bson.Document`): field name to value. */
  type Record = map<string, BsonValue>

  /** `java.util.Date.toString()`, which depends on the JVM's default time zone. */
  type DateRenderer = int -> string

  function BooleanText(b: bool): (r: string) {
    if b then "true" else "false"
  }

  /** `String.valueOf(Object)`: `"null"` for null, otherwise the value's `toString()`. */
  function ValueOf(v: BsonValue, dateText: DateRenderer): (r: string) {
    match v
    case BString(s) => s
    case BInteger(n) => DecimalText(n)
    case BBoolean(b) => BooleanText(b)
    case BDateTime(ms) => dateText(ms)
    case BObjectId(id) => ToHexString(id)
    case BNull => "null"
    case BOther(rendering) => rendering
  }

  /** `value.toString()`: like `ValueOf`, except that on null it throws
      (`None`, the null dereference). */
  function ToText(v: BsonValue, dateText: DateRenderer): (r: Option<string>) {
    if v.BNull? then None else Some(ValueOf(v, dateText))
  }

  /** `Document.get(key)`: the value, or null when the key is absent. */
  function Get(r: Record, key: string): (res: BsonValue) {
    if key in r then r[key] else BNull
  }
}
