/**
 * The in-memory table (src/table.rs): a total storage primitive over a map from key to record.
 * `insert` always replaces and `remove` of an absent key is a no-op; the existence rules live in
 * the operations layer (module Ops).
 */
module Tables {
  import opened Wrappers
  import opened Records

  class Table {
    /** The `records` HashMap, keyed by each record's identifier. */
    var records: map<string, Record>

    /** `Table::new`, i.e. `Table::default()`: a table with no records. */
    constructor ()
      ensures records == map[]
      ensures IsEmpty() && Len() == 0
    {
      records := map[];
    }

    /** `len`: the number of keys in the table. */
    function Len(): (n: nat)
      reads this
      ensures n == |records.Keys|
    {
      |records|
    }

    /** `is_empty`: there is no record exactly when the length is zero. */
    function IsEmpty(): (b: bool)
      reads this
      ensures b <==> Len() == 0
    {
      records == map[]
    }

    /** `get`: the stored record, if any; absence is not an error. */
    function Get(key: string): (r: Option<Record>)
      reads this
      ensures r.Some? <==> key in records.Keys
      ensures r.Some? ==> (key, r.value) in records.Items
    {
      if key in records then Some(records[key]) else None
    }

    /** `contains_key`: holds exactly when `get` finds a record. */
    function ContainsKey(key: string): (b: bool)
      reads this
      ensures b <==> Get(key).Some?
    {
      key in records
    }

    /**
     * `insert`: stores `record` under `key`, replacing any record already there. Every other
     * entry is kept; the length grows by one exactly when the key was absent.
     */
    method Insert(key: string, record: Record)
      modifies this
      ensures records == old(records)[key := record]
      ensures ContainsKey(key) && Get(key) == Some(record)
      ensures forall k :: k != key ==> Get(k) == old(Get(k))
      ensures Len() == if old(ContainsKey(key)) then old(Len()) else old(Len()) + 1
    {
      records := records[key := record];
    }

    /**
     * `remove`: takes the record stored under `key` out of the table and returns it; on an
     * absent key it returns `None` and the table is unchanged.
     */
    method Remove(key: string) returns (removed: Option<Record>)
      modifies this
      ensures removed == old(Get(key))
      ensures records == old(records) - {key}
      ensures !ContainsKey(key)
      ensures forall k :: k != key ==> Get(k) == old(Get(k))
      ensures Len() == if removed.Some? then old(Len()) - 1 else old(Len())
      ensures removed.None? ==> records == old(records)
    {
      if key in records {
        removed := Some(records[key]);
        records := records - {key};
        assert records.Keys == old(records).Keys - {key};
      } else {
        removed := None;
        assert records == old(records) - {key};
      }
    }

    /**
     * `keys`: every stored key, each exactly once. The order is the hash map's and is left
     * open: each step takes any key not yet yielded.
     */
    method Keys() returns (keys: seq<string>)
      ensures forall k :: k in keys <==> k in records
      ensures forall i, j :: 0 <= i < j < |keys| ==> keys[i] != keys[j]
      ensures |keys| == Len()
    {
      keys := [];
      var rest := records.Keys;
      while rest != {}
        invariant rest <= records.Keys
        invariant forall k :: k in keys <==> k in records && k !in rest
        invariant forall i, j :: 0 <= i < j < |keys| ==> keys[i] != keys[j]
        invariant |keys| + |rest| == |records.Keys|
        decreases |rest|
      {
        var k :| k in rest;
        keys := keys + [k];
        rest := rest - {k};
      }
    }

    /**
     * `iter`: exactly the pairs `(k, get(k))`, one per stored key, in the order `keys` yields
     * the keys.
     */
    method Iter() returns (entries: seq<(string, Record)>)
      ensures forall k, r :: (k, r) in entries <==> Get(k) == Some(r)
      ensures forall i, j :: 0 <= i < j < |entries| ==> entries[i].0 != entries[j].0
      ensures |entries| == Len()
    {
      var keys := Keys();
      var m := records;
      entries := seq(|keys|, i requires 0 <= i < |keys| => (keys[i], m[keys[i]]));
      forall k, r | Get(k) == Some(r) ensures (k, r) in entries {
        var i :| 0 <= i < |keys| && keys[i] == k;
        assert entries[i] == (k, r);
      }
    }
  }
}
