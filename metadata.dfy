/**
 * The metadata store behind the ingest document map (Java's
 * `org.elasticsearch.script.Metadata`), modelled at its interface only.
 *
 * Its per-field validators are not part of this model; a `Schema` gives them
 * abstractly: the declared field names (`_index`, `_id`, `_version`, ...),
 * which values each field accepts, and which fields may be removed.
 */
module ScriptMetadata {
  import opened Values

  datatype Schema = Schema(
    declared: set<string>,              // the reserved field names
    valid: (string, Value) -> bool,     // the field's validator accepts this value
    removable: string -> bool)          // the field may be removed
  {
    /** `Metadata.isAvailable`: the name belongs to the reserved namespace. */
    predicate IsAvailable(k: string)
    {
      k in declared
    }

    /** A write of `v` under `k` passes validation. */
    predicate CanPut(k: string, v: Value)
    {
      k in declared && valid(k, v)
    }

    /** What the store promises about its contents. */
    predicate Holds(m: map<string, Value>)
    {
      m.Keys <= declared && forall k :: k in m ==> valid(k, m[k])
    }
  }

  /** A metadata update: what the call returns and the store afterwards. */
  datatype Update = Update(result: Result<Value>, store: map<string, Value>)

  /**
   * `Metadata.put`: validates, then stores and returns the previous value; a
   * refused write throws and leaves the store unchanged.
   */
  function MetaPut(schema: Schema, m: map<string, Value>, k: string, v: Value): (u: Update)
    ensures u.result.Ok? <==> schema.CanPut(k, v)
    ensures u.result.Err? ==> u.result.error == IllegalArgument(k) && u.store == m
    ensures u.result.Ok? ==> u.result.value == Lookup(m, k) && k in u.store && u.store[k] == v
    ensures u.result.Ok? ==> u.store.Keys == m.Keys + {k}
    ensures forall j :: j != k ==> Lookup(u.store, j) == Lookup(m, j)
    ensures schema.Holds(m) ==> schema.Holds(u.store)
  {
    if schema.CanPut(k, v) then Update(Ok(Lookup(m, k)), m[k := v])
    else Update(Err(IllegalArgument(k)), m)
  }

  /**
   * `Metadata.remove`: a field that may not be removed throws and leaves the
   * store unchanged; otherwise the field is dropped and its previous value
   * (null when absent) returned.
   */
  function MetaRemove(schema: Schema, m: map<string, Value>, k: string): (u: Update)
    ensures u.result.Ok? <==> schema.removable(k)
    ensures u.result.Err? ==> u.result.error == IllegalArgument(k) && u.store == m
    ensures u.result.Ok? ==> u.result.value == Lookup(m, k) && u.store.Keys == m.Keys - {k}
    ensures forall j :: j != k ==> Lookup(u.store, j) == Lookup(m, j)
    ensures schema.Holds(m) ==> schema.Holds(u.store)
  {
    if schema.removable(k) then Update(Ok(Lookup(m, k)), m - {k})
    else Update(Err(IllegalArgument(k)), m)
  }

  class Metadata {
    const schema: Schema
    var fields: map<string, Value>

    ghost predicate Valid()
      reads this
    {
      schema.Holds(fields)
    }

    constructor (schema: Schema, initial: map<string, Value>)
      requires schema.Holds(initial)
      ensures Valid()
      ensures this.schema == schema && fields == initial
    {
      this.schema := schema;
      fields := initial;
    }

    predicate IsAvailable(k: string)
    {
      schema.IsAvailable(k)
    }

    function Get(k: string): Value
      reads this
    {
      Lookup(fields, k)
    }

    method Put(k: string, v: Value) returns (r: Result<Value>)
      requires Valid()
      modifies this
      ensures Valid()
      ensures r == MetaPut(schema, old(fields), k, v).result
      ensures fields == MetaPut(schema, old(fields), k, v).store
    {
      if !schema.CanPut(k, v) {
        return Err(IllegalArgument(k));
      }
      r := Ok(Lookup(fields, k));
      fields := fields[k := v];
    }

    method Remove(k: string) returns (r: Result<Value>)
      requires Valid()
      modifies this
      ensures Valid()
      ensures r == MetaRemove(schema, old(fields), k).result
      ensures fields == MetaRemove(schema, old(fields), k).store
    {
      if !schema.removable(k) {
        return Err(IllegalArgument(k));
      }
      r := Ok(Lookup(fields, k));
      fields := fields - {k};
    }
  }
}
