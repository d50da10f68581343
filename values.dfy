/**
 * Values stored in an ingest document, and the outcomes of the operations
 * on it.
 *
 * A Java `Object` held in the document is modelled by `Value`: the cases the
 * ingest document map distinguishes (null, a string, an integral number, a
 * date-time) and an opaque case for everything else (nested maps, lists,
 * dynamic templates, ...). A Java exception is modelled by an `Err` result.
 */
module Values {

  /** A zoned date-time; its fields are never inspected by the document map. */
  datatype DateTime = DateTime(epochSecond: int, nano: nat, zone: string)

  datatype Value =
    | Null
    | Str(text: string)
    | Long(number: int)
    | Date(time: DateTime)
    | Other(id: nat)

  /** The exceptions the document map and its collaborators raise. */
  datatype Error =
    | IllegalArgument(key: string)           // a metadata validator refused a write or a removal
    | UnexpectedMetadata(keys: set<string>)  // construction: these keys are in both stores
    | IllegalState                           // iterator remove() without a preceding next()
    | NoSuchElement                          // iterator next() past the end
    | DateTimeParse(text: string)            // a timestamp string that does not parse

  datatype Option<T> = None | Some(value: T)

  datatype Result<T> = Ok(value: T) | Err(error: Error)

  /** Java's `Map.get`: the mapped value, or null when the key is absent. */
  function Lookup(m: map<string, Value>, k: string): (v: Value)
    ensures k in m ==> v == m[k]
    ensures k !in m ==> v == Null
  {
    if k in m then m[k] else Null
  }

  /** The keys of a sequence, as a set. */
  function Elements(s: seq<string>): (r: set<string>)
    ensures forall k :: k in r <==> k in s
  {
    set k | k in s
  }

  /** No key occurs twice in `s`. */
  predicate Distinct(s: seq<string>)
  {
    forall i, j :: 0 <= i < j < |s| ==> s[i] != s[j]
  }

  /**
   * Lists the elements of a set in some order. Models the iteration order of
   * a Java `HashMap` key set or `HashSet`, which the document map does not
   * specify: every order is possible.
   */
  method Enumerate(keys: set<string>) returns (order: seq<string>)
    ensures Distinct(order)
    ensures Elements(order) == keys
    ensures |order| == |keys|
  {
    var rest := keys;
    order := [];
    while rest != {}
      invariant rest <= keys
      invariant Distinct(order)
      invariant Elements(order) == keys - rest
      invariant |order| + |rest| == |keys|
      decreases |rest|
    {
      var k :| k in rest;
      order := order + [k];
      rest := rest - {k};
    }
  }
}
