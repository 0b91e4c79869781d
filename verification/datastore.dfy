/** The keyed datastore the synchroniser writes through, and the higher-level
    creation services that persist into it.

    A table holds one entity kind as a map from primary key to record. Every
    operation either behaves as the store's contract says (Get of a missing key
    reports RecordNotExist, Add of a present key RecordExist, ...) or, when the
    operation is listed in the table's fault map, fails with the injected error
    and changes nothing. The fault map stands for whatever the real backend may
    do wrong; a table with an empty fault map is a backend that never fails. */
module Datastore {

  /** The error values the synchroniser distinguishes. AlreadyExists is the
      conflict code of a creation service (project, env or target). */
  datatype Error = RecordNotExist | RecordExist | AlreadyExists | StorageError

  /** The error return of an operation that yields nothing else. */
  datatype Outcome = Pass | Fail(error: Error)

  datatype Result<T> = Ok(value: T) | Err(error: Error)

  /** An operation on one table; the key of a fault. */
  datatype Op<K> = GetOp(key: K) | AddOp(key: K) | PutOp(key: K) | DeleteOp(key: K) | ListOp | CreateOp(key: K)

  /** The table after a write, and what the write returned. */
  datatype Step<K, V> = Step(rows: map<K, V>, outcome: Outcome)

  function GetRow<K, V>(rows: map<K, V>, faults: map<Op<K>, Error>, k: K): Result<V>
  {
    if GetOp(k) in faults then Err(faults[GetOp(k)])
    else if k in rows then Ok(rows[k])
    else Err(RecordNotExist)
  }

  function AddRow<K, V>(rows: map<K, V>, faults: map<Op<K>, Error>, k: K, v: V): Step<K, V>
  {
    if AddOp(k) in faults then Step(rows, Fail(faults[AddOp(k)]))
    else if k in rows then Step(rows, Fail(RecordExist))
    else Step(rows[k := v], Pass)
  }

  function PutRow<K, V>(rows: map<K, V>, faults: map<Op<K>, Error>, k: K, v: V): Step<K, V>
  {
    if PutOp(k) in faults then Step(rows, Fail(faults[PutOp(k)]))
    else if k !in rows then Step(rows, Fail(RecordNotExist))
    else Step(rows[k := v], Pass)
  }

  function DeleteRow<K, V>(rows: map<K, V>, faults: map<Op<K>, Error>, k: K): Step<K, V>
  {
    if DeleteOp(k) in faults then Step(rows, Fail(faults[DeleteOp(k)]))
    else if k !in rows then Step(rows, Fail(RecordNotExist))
    else Step(rows - {k}, Pass)
  }

  /** A creation service: insert the record, or report that it already exists. */
  function CreateRow<K, V>(rows: map<K, V>, faults: map<Op<K>, Error>, k: K, v: V): Step<K, V>
  {
    if CreateOp(k) in faults then Step(rows, Fail(faults[CreateOp(k)]))
    else if k in rows then Step(rows, Fail(AlreadyExists))
    else Step(rows[k := v], Pass)
  }

  /** xs, stored under the distinct keys `keys`, are exactly the rows that
      satisfy the filter, in some order. */
  ghost predicate Listing<K, V>(rows: map<K, V>, filter: V -> bool, keys: seq<K>, xs: seq<V>)
  {
    && |keys| == |xs|
    && (forall i | 0 <= i < |keys| :: keys[i] in rows && xs[i] == rows[keys[i]])
    && (forall i, j | 0 <= i < j < |keys| :: keys[i] != keys[j])
    && (forall k | k in rows :: k in keys <==> filter(rows[k]))
  }

  class Table<K(==), V> {
    var rows: map<K, V>
    const faults: map<Op<K>, Error>

    constructor (rows: map<K, V>, faults: map<Op<K>, Error>)
      ensures this.rows == rows && this.faults == faults
    {
      this.rows := rows;
      this.faults := faults;
    }

    method Get(k: K) returns (r: Result<V>)
      ensures r == GetRow(rows, faults, k)
    {
      r := GetRow(rows, faults, k);
    }

    method Add(k: K, v: V) returns (e: Outcome)
      modifies this`rows
      ensures Step(rows, e) == AddRow(old(rows), faults, k, v)
    {
      var s := AddRow(rows, faults, k, v);
      rows, e := s.rows, s.outcome;
    }

    method Put(k: K, v: V) returns (e: Outcome)
      modifies this`rows
      ensures Step(rows, e) == PutRow(old(rows), faults, k, v)
    {
      var s := PutRow(rows, faults, k, v);
      rows, e := s.rows, s.outcome;
    }

    method Delete(k: K) returns (e: Outcome)
      modifies this`rows
      ensures Step(rows, e) == DeleteRow(old(rows), faults, k)
    {
      var s := DeleteRow(rows, faults, k);
      rows, e := s.rows, s.outcome;
    }

    /** All records that satisfy the filter, in an unspecified order; `keys`
        names the key each one is stored under. */
    method List(filter: V -> bool) returns (r: Result<seq<V>>, ghost keys: seq<K>)
      ensures ListOp in faults ==> r == Err(faults[ListOp])
      ensures ListOp !in faults ==> r.Ok? && Listing(rows, filter, keys, r.value)
    {
      keys := [];
      if ListOp in faults {
        r := Err(faults[ListOp]);
        return;
      }
      var rest := rows.Keys;
      var xs := [];
      while rest != {}
        invariant rest <= rows.Keys
        invariant |keys| == |xs|
        invariant forall i | 0 <= i < |keys| :: keys[i] in rows && keys[i] !in rest && xs[i] == rows[keys[i]] && filter(xs[i])
        invariant forall i, j | 0 <= i < j < |keys| :: keys[i] != keys[j]
        invariant forall k | k in rows && k !in rest && filter(rows[k]) :: k in keys
        decreases rest
      {
        var k :| k in rest;
        if filter(rows[k]) {
          xs := xs + [rows[k]];
          keys := keys + [k];
        }
        rest := rest - {k};
      }
      r := Ok(xs);
    }
  }

  /** A creation service (project, env or target) persisting into `table`. */
  class Service<K(==), V> {
    const table: Table<K, V>

    constructor (table: Table<K, V>)
      ensures this.table == table
    {
      this.table := table;
    }

    method Create(k: K, v: V) returns (e: Outcome)
      modifies table`rows
      ensures Step(table.rows, e) == CreateRow(old(table.rows), table.faults, k, v)
    {
      var s := CreateRow(table.rows, table.faults, k, v);
      table.rows, e := s.rows, s.outcome;
    }
  }
}
