/**
 * Operations on a table (src/ops.rs): the one place with business rules. Insert asks for an
 * absent key, Update and Delete for a present one, Upsert for nothing; a refused operation
 * returns an error naming its key and leaves the table as it was.
 */
module Ops {
  import opened Wrappers
  import opened Records
  import opened Errors
  import opened Tables

  /** The `Operations` enum: each variant carries the key it acts on. */
  datatype Operations =
    | Insert(key: string, record: Record)
    | Update(key: string, record: Record)
    | Delete(key: string)
    | Upsert(key: string, record: Record)

  /** The outcome of applying an operation: what `apply` returns and the table's records after. */
  datatype Step = Step(result: Result<(), Error>, records: map<string, Record>)

  /** The conflict rules: what each operation asserts about the table before it runs. */
  predicate Permitted(op: Operations, before: map<string, Record>)
  {
    match op
    case Insert(key, _) => key !in before
    case Update(key, _) => key in before
    case Delete(key) => key in before
    case Upsert(_, _) => true
  }

  /** The error a refused operation reports. */
  function Rejection(op: Operations): Error
  {
    if op.Insert? then AlreadyExists(op.key) else NotFound(op.key)
  }

  /**
   * `Operations::apply` on the table's records, as a function. An operation succeeds exactly
   * when the conflict rules permit it; a failure carries the operation's own key and changes
   * nothing; a success writes (or, for Delete, removes) that one key and keeps every other
   * entry, so the length grows by one on Insert, shrinks by one on Delete and is kept on Update.
   */
  function Transition(op: Operations, before: map<string, Record>): (s: Step)
    ensures s.result.Ok? <==> Permitted(op, before)
    ensures s.result.Err? ==> s.result.error == Rejection(op) && s.records == before
    ensures s.result.Ok? && !op.Delete? ==> op.key in s.records && s.records[op.key] == op.record
    ensures s.result.Ok? && op.Delete? ==> op.key !in s.records
    ensures forall k :: k != op.key ==> (k in s.records <==> k in before)
    ensures forall k :: k != op.key && k in before ==> s.records[k] == before[k]
    ensures s.result.Ok? && op.Insert? ==> |s.records| == |before| + 1
    ensures s.result.Ok? && op.Delete? ==> |s.records| == |before| - 1
    ensures op.Update? ==> s.records.Keys == before.Keys && |s.records| == |before|
  {
    match op
    case Insert(key, record) =>
      if key in before then Step(Err(AlreadyExists(key)), before)
      else Step(Ok(()), before[key := record])
    case Update(key, record) =>
      if key !in before then Step(Err(NotFound(key)), before)
      else Step(Ok(()), before[key := record])
    case Delete(key) =>
      if key !in before then Step(Err(NotFound(key)), before)
      else
        var after := before - {key};
        assert after.Keys == before.Keys - {key};
        Step(Ok(()), after)
    case Upsert(key, record) =>
      Step(Ok(()), before[key := record])
  }

  /**
   * `Operations::apply`: checks the conflict rule through `contains_key` (Delete through the
   * result of `remove`), returns early with the keyed error, and otherwise changes the table
   * through `insert` or `remove`.
   */
  method Apply(op: Operations, table: Table) returns (result: Result<(), Error>)
    modifies table
    ensures Step(result, table.records) == Transition(op, old(table.records))
    ensures result.Ok? <==> Permitted(op, old(table.records))
    ensures result.Err? ==> result.error == Rejection(op) && table.records == old(table.records)
  {
    match op {
      case Insert(key, record) =>
        var present := table.ContainsKey(key);
        if present {
          return Err(AlreadyExists(key));
        }
        table.Insert(key, record);
      case Update(key, record) =>
        var present := table.ContainsKey(key);
        if !present {
          return Err(NotFound(key));
        }
        table.Insert(key, record);
      case Delete(key) =>
        var removed := table.Remove(key);
        if removed.None? {
          return Err(NotFound(key));
        }
      case Upsert(key, record) =>
        table.Insert(key, record);
    }
    result := Ok(());
  }

  /** Applying the same Upsert twice leaves the same table as applying it once. */
  lemma UpsertIdempotent(key: string, record: Record, before: map<string, Record>)
    ensures var once := Transition(Upsert(key, record), before);
            Transition(Upsert(key, record), once.records) == once
  {
  }

  /** Upsert never fails, and afterwards the key holds the record whether it was there or not. */
  lemma UpsertAlwaysWrites(key: string, record: Record, before: map<string, Record>)
    ensures Transition(Upsert(key, record), before).result == Ok(())
    ensures Transition(Upsert(key, record), before).records[key] == record
  {
  }

  /** The errors `apply` returns are business-rule errors: they have no underlying cause. */
  lemma RejectionHasNoSource(op: Operations, before: map<string, Record>)
    requires Transition(op, before).result.Err?
    ensures Source(Transition(op, before).result.error) == None
    ensures Display(Transition(op, before).result.error) ==
            (if op.Insert? then "record already exists: " else "record not found: ") + op.key
  {
  }

  // The library has no replay loop; the definitions below only fold `Transition` over a
  // sequence of operations to state what a run of successful operations does to the length.

  ghost function Replay(ops: seq<Operations>, before: map<string, Record>): map<string, Record>
    decreases |ops|
  {
    if ops == [] then before else Replay(ops[1..], Transition(ops[0], before).records)
  }

  ghost predicate AllSucceed(ops: seq<Operations>, before: map<string, Record>)
    decreases |ops|
  {
    ops == [] || (Transition(ops[0], before).result.Ok? && AllSucceed(ops[1..], Transition(ops[0], before).records))
  }

  ghost function CountInserts(ops: seq<Operations>): nat
  {
    if ops == [] then 0 else (if ops[0].Insert? then 1 else 0) + CountInserts(ops[1..])
  }

  ghost function CountDeletes(ops: seq<Operations>): nat
  {
    if ops == [] then 0 else (if ops[0].Delete? then 1 else 0) + CountDeletes(ops[1..])
  }

  /**
   * After a run of Insert, Update and Delete operations that all succeed, the table holds as
   * many records as it started with, plus the inserts, minus the deletes.
   */
  lemma {:induction false} SuccessfulRunLength(ops: seq<Operations>, before: map<string, Record>)
    requires AllSucceed(ops, before)
    requires forall i :: 0 <= i < |ops| ==> !ops[i].Upsert?
    ensures |Replay(ops, before)| == |before| + CountInserts(ops) - CountDeletes(ops)
  {
    if ops != [] {
      var next := Transition(ops[0], before).records;
      SuccessfulRunLength(ops[1..], next);
    }
  }

  /** A refused operation in a run leaves the run's result as if it had not been there. */
  lemma {:induction false} RefusedIsSkipped(op: Operations, rest: seq<Operations>, before: map<string, Record>)
    requires Transition(op, before).result.Err?
    ensures Replay([op] + rest, before) == Replay(rest, before)
  {
  }

  /** The scenarios of the library's integration tests, on the class. */
  method IntegrationScenarios()
  {
    var table := new Table();
    assert table.IsEmpty() && table.Len() == 0;

    table.Insert("key-1", New());
    assert !table.IsEmpty() && table.Len() == 1;
    assert table.ContainsKey("key-1") && !table.ContainsKey("key-2");
    var removed := table.Remove("key-1");
    assert removed.Some? && table.IsEmpty();

    var r := Apply(Insert("test-key", New()), table);
    assert r.Ok? && table.ContainsKey("test-key");
    r := Apply(Insert("test-key", New()), table);
    assert r == Err(AlreadyExists("test-key"));
    r := Apply(Update("test-key", New()), table);
    assert r.Ok?;
    r := Apply(Delete("test-key"), table);
    assert r.Ok? && !table.ContainsKey("test-key");
    r := Apply(Delete("test-key"), table);
    assert r == Err(NotFound("test-key")) && table.IsEmpty();
    r := Apply(Update("test-key", New()), table);
    assert r.Err?;
    r := Apply(Upsert("test-key", New()), table);
    assert r.Ok? && table.ContainsKey("test-key");
    r := Apply(Upsert("test-key", FromValue(Number(2))), table);
    assert r.Ok? && table.Get("test-key") == Some(FromValue(Number(2))) && table.Len() == 1;
  }
}
