# JSONLT keyed-record store: table and operations

This project models the core of `jsonlt`, a Rust library that keeps keyed records in a
JSON Lines file. The model covers the in-memory part:

- **Record** (`records.dfy`, module `Records`) is an opaque payload with no key of its own.
  In the default build it holds a JSON value, and without the `serde` feature it holds a byte vector.
  Both builds are modelled: `Record` for the first, `RawRecord` for the second.
- **Error** (`errors.dfy`, module `Errors`) is the error vocabulary. The model covers its display text,
  its `source()` and the two `From` conversions.
- **Table** (`tables.dfy`, module `Tables`) is a class whose one field `records` is a
  `map<string, Record>`. It is a total storage primitive: `Insert` always replaces, and `Remove` of
  an absent key returns `None` and changes nothing. The read-only views (`Len`, `IsEmpty`,
  `Get`, `ContainsKey`, `Keys`, `Iter`) all look at that one map.
- **Operations** (`ops.dfy`, module `Ops`) is the Insert / Update / Delete / Upsert vocabulary.
  `Apply` is a method that changes a `Table` in place and returns `Result<(), Error>`.
  It is proved equal to the pure function `Transition`, and the conflict rules are proved about that function:
  - Insert needs an absent key.
  - Update and Delete need a present key.
  - Upsert never fails.
  - Every failure carries the operation's key and leaves the table as it was.

`Wrappers` holds the `Option` and `Result` datatypes used throughout.

Where the design description and the code disagree, the model follows the code:
- The code has no log replay, no line codec and no canonical key order. None of them is modelled as an operation.
  A fold of `Transition` over a sequence of operations appears only inside two derived lemmas.
- The code never checks key format, so the model never raises `InvalidKey` or `InvalidFormat`.
  Both exist only as error values with their display text.
- The Rust `Record` has no `PartialEq`. The model compares records with Dafny's structural datatype equality.

## Model

| member | source | states |
|---|---|---|
| `Records.New` | src/record.rs:22-26 | `Record::new()` is the default record: its value is JSON `null` |
| `Records.FromValue` | src/record.rs:28-40 | `from_value(v).value() == v` |
| `Records.FromValueOfValue` | src/record.rs:31-40 | every record is `from_value` of its own `value()`, so the two are inverse |
| `Records.From` | src/record.rs:63-68 | `Record::from(v)` is `Record::from_value(v)`, so it also hands back `v` |
| `Records.WriteValue` | src/record.rs:42-46 | after a write of `v` through `value_mut()`, `value()` returns `v`; the value is the record's only field, so nothing else is kept or lost |
| `Records.WriteValueOwn` | src/record.rs:38-46 | writing back the value just read leaves the record unchanged |
| `Records.NewRaw` | src/record.rs:9-26 | in the byte build, `Record::new()` holds no bytes |
| `Records.FromBytes` | src/record.rs:48-60 | `from_bytes(b).as_bytes() == b` |
| `Errors.DisplayMessages` | src/error.rs:37-40 | `NotFound(k)` displays as `"record not found: " + k`, `AlreadyExists(k)` as `"record already exists: " + k`, and likewise for `InvalidFormat` and `InvalidKey` |
| `Errors.DisplayInjective` | src/error.rs:31-43 | two errors with the same message are the same error: the prefixes tell the kinds apart, and the rest of the message is the key or text carried |
| `Errors.Source` | src/error.rs:45-57 | `source()` is `None` exactly for `NotFound`, `AlreadyExists`, `InvalidFormat` and `InvalidKey`, and is the wrapped error for `Io` and `Json` |
| `Errors.FromIo` | src/error.rs:59-63 | converting an I/O error gives the `Io` variant, whose `source()` is that I/O error |
| `Errors.FromJson` | src/error.rs:65-70 | converting a JSON error gives the `Json` variant, whose `source()` is that JSON error |
| `Tables.Table.constructor` | src/table.rs:27-30 | a new table has no records: `is_empty()` holds and `len() == 0` |
| `Tables.Table.Len` | src/table.rs:32-36 | `len()` is the number of distinct keys |
| `Tables.Table.IsEmpty` | src/table.rs:38-42 | `is_empty()` holds exactly when `len() == 0` |
| `Tables.Table.Get` | src/table.rs:44-48 | `get(k)` is `Some` exactly when `k` is stored, and then it is the record stored under `k` |
| `Tables.Table.ContainsKey` | src/table.rs:50-54 | `contains_key(k)` holds exactly when `get(k)` is `Some` |
| `Tables.Table.Insert` | src/table.rs:56-61 | after `insert(k, r)`, `get(k) == Some(r)` and every other key's entry is unchanged; `len` grows by one exactly when `k` was absent and is otherwise kept |
| `Tables.Table.Remove` | src/table.rs:63-68 | `remove(k)` returns what `get(k)` returned before; afterwards `k` is absent, every other entry is unchanged, `len` drops by one if `k` was present, and on an absent key the table is unchanged |
| `Tables.Table.Keys` | src/table.rs:75-78 | `keys()` yields every stored key and nothing else, each exactly once, `len()` keys in all; the order is left open |
| `Tables.Table.Iter` | src/table.rs:70-73 | `iter()` yields exactly the pairs `(k, r)` with `get(k) == Some(r)`, one per key, `len()` pairs in all |
| `Ops.Transition` | src/ops.rs:47-71 | an operation succeeds exactly when its conflict rule holds. A failure is `AlreadyExists(key)` for Insert and `NotFound(key)` otherwise, and leaves the records unchanged. A success writes the record under the key, or removes the key for Delete. No other key changes. `len` grows by one on Insert, shrinks by one on Delete, and Update keeps the key set |
| `Ops.Apply` | src/ops.rs:47-71 | the in-place `apply` returns the result and leaves the records that `Transition` gives for the old records. So it succeeds exactly when the conflict rule holds, and on failure it returns the keyed error and the table is exactly as before the call |
| `Ops.UpsertIdempotent` | src/ops.rs:66-68 | applying the same Upsert twice gives the same table and result as applying it once |
| `Ops.UpsertAlwaysWrites` | src/ops.rs:66-68 | Upsert never fails, and afterwards the key holds the record whether or not it was present |
| `Ops.RejectionHasNoSource` | src/ops.rs:49-65 | the errors `apply` returns have no `source()`, and their message is the not-found or already-exists text followed by the operation's key |
| `Ops.SuccessfulRunLength` | src/ops.rs:47-71 | after a run of successful Insert, Update and Delete operations, `len` is the starting length plus the inserts minus the deletes |
| `Ops.RefusedIsSkipped` | src/ops.rs:47-71 | a refused operation in a sequence has no effect on the table the sequence produces |

## Left out

- Asynchronous file I/O (`src/io/mod.rs`) is left out. It is I/O plumbing, and its `read_table` and `write_table` are stubs.
- The WebAssembly bindings (`src/wasm/mod.rs`) are left out. They are thin wrappers over `Table` plus JSON string parsing and printing.
- The internals of `serde_json::Value` are not modelled. `JsonValue` is a stand-in that the library never inspects: numbers are integers, and objects are lists of pairs.
- `std::io::Error` and `serde_json::Error` are foreign types. Each is modelled only by the message its `Display` prints. `DisplayInjective` relies on that message telling two such errors apart.
- Records.WriteValue: models a write through the mutable borrow that `value_mut()` returns as a new record value. Aliasing of the borrow, and partial writes into a nested JSON value, are not captured.
- Tables.Table.Keys: the order of `keys()` and `iter()` comes from the hash map and is unspecified. Only set-level facts and the absence of duplicates are stated. The iterators are modelled as finished sequences, not lazy traversals.
- `len()` is a `usize`. The model uses unbounded integers, because a map cannot hold more entries than the address space allows.
- The derived traits (`Debug`, `Clone`, `Default`) are not modelled beyond `new()`, which is `Default`.
- Log replay, line decoding and canonical key-ordered write-back are not modelled, because the code has none of them. Only the two derived lemmas about folds of `Transition` appear.
