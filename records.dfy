/**
 * A single record of a table (src/record.rs). A record has no key of its own: it is an
 * owned payload, a JSON value in the default build (feature `serde`) and a byte vector
 * otherwise. Both builds are modelled; the table is modelled over the default one.
 */
module Records {

  /**
   * Stand-in for `serde_json::Value`. The library never looks inside a value, so only its
   * shape matters here; numbers are kept as integers.
   */
  datatype JsonValue =
    | Null
    | Bool(b: bool)
    | Number(n: int)
    | String(s: string)
    | Array(items: seq<JsonValue>)
    | Object(members: seq<(string, JsonValue)>)

  /** `Record` of the default build: its only field is the JSON value `data`. */
  datatype Record = Record(data: JsonValue)

  /** `Record::value`: read access to the record's value. */
  function Value(r: Record): JsonValue
  {
    r.data
  }

  /** `Record::new`, i.e. `Record::default()`: the default JSON value is `Null`. */
  function New(): (r: Record)
    ensures Value(r) == Null
  {
    Record(JsonValue.Null)
  }

  /** `Record::from_value`: the record hands back exactly the value it was built from. */
  function FromValue(v: JsonValue): (r: Record)
    ensures Value(r) == v
  {
    Record(v)
  }

  /** `impl From<serde_json::Value> for Record`: the same record as `from_value`. */
  function From(v: JsonValue): (r: Record)
    ensures r == FromValue(v)
    ensures Value(r) == v
  {
    FromValue(v)
  }

  /**
   * A write `*r.value_mut() = v` through the mutable borrow, seen as a new record value:
   * what `value()` reads afterwards is what was written.
   */
  function WriteValue(r: Record, v: JsonValue): (r': Record)
    ensures Value(r') == v
    ensures r' == FromValue(v)
  {
    r.(data := v)
  }

  /** Every record is `from_value` of its own value, so the two are inverse to each other. */
  lemma FromValueOfValue(r: Record)
    ensures FromValue(Value(r)) == r
  {
  }

  /** Writing back the value just read leaves the record as it was. */
  lemma WriteValueOwn(r: Record)
    ensures WriteValue(r, Value(r)) == r
  {
  }

  /** `u8`. */
  newtype byte = x: int | 0 <= x < 256

  /** `Record` of the build without `serde`: its only field is the byte vector `data`. */
  datatype RawRecord = RawRecord(data: seq<byte>)

  /** `Record::as_bytes`. */
  function AsBytes(r: RawRecord): seq<byte>
  {
    r.data
  }

  /** `Record::new` of the byte build: the default vector is empty. */
  function NewRaw(): (r: RawRecord)
    ensures AsBytes(r) == []
  {
    RawRecord([])
  }

  /** `Record::from_bytes`: the record hands back exactly the bytes it was built from. */
  function FromBytes(b: seq<byte>): (r: RawRecord)
    ensures AsBytes(r) == b
  {
    RawRecord(b)
  }
}
