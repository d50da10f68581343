/**
 * The meaning of the ingest document map as pure functions over its two
 * stores: the free-form `source` body and the validated `meta` store.
 *
 * The class `Ingest.IngestSourceAndMetadata` implements these operations on
 * mutable state and promises, operation by operation, to agree with them; the
 * lemmas here state what the operations guarantee to a processor that sees
 * the document as one map.
 */
module DocumentSpec {
  import opened Values
  import opened ScriptMetadata

  datatype Doc = Doc(source: map<string, Value>, meta: map<string, Value>)

  /** What an operation returns, and the document afterwards. */
  datatype Step<T> = Step(result: Result<T>, doc: Doc)

  /** The document as the single map a processor expects. */
  function Flatten(d: Doc): map<string, Value>
  {
    d.source + d.meta
  }

  /** No key is held by both stores. */
  predicate Disjoint(d: Doc)
  {
    d.source.Keys !! d.meta.Keys
  }

  /** The source holds no reserved name at all, present in the metadata or not. */
  predicate SourceFreeOfDeclared(s: Schema, d: Doc)
  {
    d.source.Keys !! s.declared
  }

  /** The metadata store keeps its own promise (declared names, valid values). */
  predicate WellFormed(s: Schema, d: Doc)
  {
    s.Holds(d.meta)
  }

  /**
   * Construction: a missing source becomes an empty map; the document is
   * refused when a key present in the metadata store is also a source key.
   */
  function Construct(source: Option<map<string, Value>>, meta: map<string, Value>): (r: Result<Doc>)
    ensures var src := if source.Some? then source.value else map[];
      && (r.Ok? <==> src.Keys !! meta.Keys)
      && (r.Err? ==> r.error == UnexpectedMetadata(src.Keys * meta.Keys) && src.Keys * meta.Keys != {})
      && (r.Ok? ==> r.value == Doc(src, meta) && Disjoint(r.value))
  {
    var src := if source.Some? then source.value else map[];
    var bad := meta.Keys * src.Keys;
    if |bad| > 0 then Err(UnexpectedMetadata(bad))
    else assert forall k :: k in bad <==> k in meta && k in src; Ok(Doc(src, meta))
  }

  /** `get`: a reserved name is read from the metadata store only. */
  function Get(s: Schema, d: Doc, k: string): Value
  {
    if s.IsAvailable(k) then Lookup(d.meta, k) else Lookup(d.source, k)
  }

  /** `put`: a reserved name is validated and written to the metadata store only. */
  function Put(s: Schema, d: Doc, k: string, v: Value): (r: Step<Value>)
    ensures r.result.Err? <==> s.IsAvailable(k) && !s.valid(k, v)
    ensures r.result.Err? ==> r.result.error == IllegalArgument(k) && r.doc == d
    ensures r.result.Ok? ==> r.result.value == Get(s, d, k) && Get(s, r.doc, k) == v
    ensures forall j :: j != k ==> Get(s, r.doc, j) == Get(s, d, j)
    ensures s.IsAvailable(k) ==> r.doc.source == d.source
    ensures !s.IsAvailable(k) ==> r.doc.meta == d.meta
    ensures r.result.Ok? && s.IsAvailable(k) ==> r.doc.meta.Keys == d.meta.Keys + {k}
    ensures !s.IsAvailable(k) ==> r.doc.source.Keys == d.source.Keys + {k}
    ensures WellFormed(s, d) ==> WellFormed(s, r.doc)
    ensures SourceFreeOfDeclared(s, d) ==> SourceFreeOfDeclared(s, r.doc)
  {
    if s.IsAvailable(k) then
      var u := MetaPut(s, d.meta, k, v);
      Step(u.result, d.(meta := u.store))
    else
      Step(Ok(Lookup(d.source, k)), d.(source := d.source[k := v]))
  }

  /** `remove`: a reserved name is removed from the metadata store only, if it may be. */
  function Remove(s: Schema, d: Doc, k: string): (r: Step<Value>)
    ensures r.result.Err? <==> s.IsAvailable(k) && !s.removable(k)
    ensures r.result.Err? ==> r.result.error == IllegalArgument(k) && r.doc == d
    ensures r.result.Ok? ==> r.result.value == Get(s, d, k) && Get(s, r.doc, k) == Null
    ensures forall j :: j != k ==> Get(s, r.doc, j) == Get(s, d, j)
    ensures s.IsAvailable(k) ==> r.doc.source == d.source
    ensures !s.IsAvailable(k) ==> r.doc.meta == d.meta && r.doc.source.Keys == d.source.Keys - {k}
    ensures r.result.Ok? && s.IsAvailable(k) ==> r.doc.meta.Keys == d.meta.Keys - {k}
    ensures WellFormed(s, d) ==> WellFormed(s, r.doc)
    ensures SourceFreeOfDeclared(s, d) ==> SourceFreeOfDeclared(s, r.doc)
  {
    if s.IsAvailable(k) then
      var u := MetaRemove(s, d.meta, k);
      Step(u.result, d.(meta := u.store))
    else
      Step(Ok(Lookup(d.source, k)), d.(source := d.source - {k}))
  }

  /** `size`: the entries of both stores, counted separately. */
  function Size(d: Doc): nat
  {
    |d.source| + |d.meta|
  }

  /** `containsKey`: either store holds the key (no routing by reserved name). */
  predicate ContainsKey(d: Doc, k: string)
  {
    k in d.meta || k in d.source
  }

  /** `containsValue`: either store holds the value. */
  predicate ContainsValue(d: Doc, v: Value)
  {
    v in d.meta.Values || v in d.source.Values
  }

  /**
   * `clear`, metadata part: remove the metadata keys one at a time in the
   * given order, stopping at the first removal the store refuses.
   */
  function RemoveEach(s: Schema, m: map<string, Value>, keys: seq<string>): (r: (Result<()>, map<string, Value>))
    decreases |keys|
  {
    if keys == [] then (Ok(()), m)
    else
      var u := MetaRemove(s, m, keys[0]);
      if u.result.Err? then (Err(u.result.error), u.store)
      else RemoveEach(s, u.store, keys[1..])
  }

  /** `clear`: the metadata keys are removed one by one, then the source is emptied. */
  function Clear(s: Schema, d: Doc, keys: seq<string>): Step<()>
  {
    var (res, meta) := RemoveEach(s, d.meta, keys);
    if res.Err? then Step(res, Doc(d.source, meta))
    else Step(Ok(()), Doc(map[], meta))
  }

  /**
   * `entrySet().remove(entry)`: a metadata entry is removed only while the
   * store still holds that value under that key; anything else is an
   * ordinary removal from the source entry set.
   */
  function EntrySetRemove(s: Schema, d: Doc, key: string, value: Value): (r: Step<bool>)
    ensures key in d.meta && d.meta[key] == value ==>
      && r.doc.source == d.source
      && (r.result.Ok? <==> s.removable(key))
      && (r.result.Ok? ==> r.result.value && r.doc.meta == d.meta - {key})
      && (r.result.Err? ==> r.doc == d)
    ensures !(key in d.meta && d.meta[key] == value) ==>
      && r.doc.meta == d.meta
      && r.result == Ok(key in d.source && d.source[key] == value)
      && r.doc.source == (if r.result.value then d.source - {key} else d.source)
  {
    if key in d.meta && d.meta[key] == value then
      var u := MetaRemove(s, d.meta, key);
      if u.result.Err? then Step(Err(u.result.error), d)
      else Step(Ok(true), d.(meta := u.store))
    else if key in d.source && d.source[key] == value then
      Step(Ok(true), d.(source := d.source - {key}))
    else
      Step(Ok(false), d)
  }

  // ---------------------------------------------------------------------
  // Properties of the combined view
  // ---------------------------------------------------------------------

  /** A source that holds no reserved name is disjoint from a well-formed metadata store. */
  lemma FreeOfDeclaredIsDisjoint(s: Schema, d: Doc)
    requires WellFormed(s, d) && SourceFreeOfDeclared(s, d)
    ensures Disjoint(d)
  {
  }

  /** With the stores kept apart, routed reads see exactly the combined map. */
  lemma GetIsFlattenedLookup(s: Schema, d: Doc, k: string)
    requires WellFormed(s, d) && SourceFreeOfDeclared(s, d)
    ensures Get(s, d, k) == Lookup(Flatten(d), k)
    ensures ContainsKey(d, k) <==> k in Flatten(d)
  {
  }

  /**
   * For a name outside the reserved namespace, every operation of the view
   * is the same operation on the source map.
   */
  lemma SourceKeysBehaveLikeSource(s: Schema, d: Doc, k: string, v: Value)
    requires WellFormed(s, d) && !s.IsAvailable(k)
    ensures Get(s, d, k) == Lookup(d.source, k)
    ensures ContainsKey(d, k) <==> k in d.source
    ensures Put(s, d, k, v) == Step(Ok(Lookup(d.source, k)), Doc(d.source[k := v], d.meta))
    ensures Remove(s, d, k) == Step(Ok(Lookup(d.source, k)), Doc(d.source - {k}, d.meta))
  {
  }

  /** Two disjoint maps: their union has as many keys as both together. */
  lemma DisjointUnionSize(a: map<string, Value>, b: map<string, Value>)
    requires a.Keys !! b.Keys
    ensures |a + b| == |a| + |b|
  {
    assert (a + b).Keys == a.Keys + b.Keys;
    assert |(a + b).Keys| == |a + b| && |a.Keys| == |a| && |b.Keys| == |b|;
  }

  /**
   * `size` agrees with the combined map when the stores are disjoint: it is
   * the number of keys for which `containsKey` holds, and `containsValue`
   * holds exactly for the values of the combined map.
   */
  lemma SizeIsKeyCount(d: Doc)
    requires Disjoint(d)
    ensures Size(d) == |Flatten(d)|
    ensures forall k :: ContainsKey(d, k) <==> k in Flatten(d)
    ensures forall v :: ContainsValue(d, v) <==> v in Flatten(d).Values
  {
    DisjointUnionSize(d.source, d.meta);
    forall v | ContainsValue(d, v) ensures v in Flatten(d).Values {
      if v in d.meta.Values {
        var k :| k in d.meta && d.meta[k] == v;
        assert Flatten(d)[k] == v;
      } else {
        var k :| k in d.source && d.source[k] == v;
        assert Flatten(d)[k] == v;
      }
    }
  }

  /** A key held by both stores is counted twice by `size`. */
  lemma SizeOvercountsSharedKeys(d: Doc)
    requires !Disjoint(d)
    ensures Size(d) > |Flatten(d)|
  {
    var shared := d.source.Keys * d.meta.Keys;
    var k :| k in d.source && k in d.meta;
    assert k in shared;
    assert (d.source + d.meta).Keys == d.source.Keys + d.meta.Keys;
    assert |d.source.Keys + d.meta.Keys| + |shared| == |d.source.Keys| + |d.meta.Keys|;
    assert |shared| >= 1 by {
      assert {k} <= shared;
    }
  }

  /**
   * Construction checks only the metadata keys that are present: a source
   * holding a reserved name whose metadata field is absent is accepted, and
   * a later `put` of that name leaves the key in both stores, so `size`
   * counts it twice.
   */
  lemma PresentKeyCheckAdmitsOverlap()
    ensures var s := Schema({"_routing"}, (k, v) => true, k => true);
      var c := Construct(Some(map["_routing" := Str("a")]), map[]);
      && c.Ok?
      && var p := Put(s, c.value, "_routing", Str("b"));
      && p.result == Ok(Null)
      && !Disjoint(p.doc)
      && Size(p.doc) == 2
      && |Flatten(p.doc)| == 1
  {
    var d := Doc(map["_routing" := Str("a")], map["_routing" := Str("b")]);
    assert Flatten(d) == map["_routing" := Str("b")];
  }

  /** Removing every key in order, when each may be removed, empties exactly those keys. */
  lemma {:induction false} RemoveEachSucceeds(s: Schema, m: map<string, Value>, keys: seq<string>)
    requires forall i :: 0 <= i < |keys| ==> s.removable(keys[i])
    ensures RemoveEach(s, m, keys) == (Ok(()), m - Elements(keys))
    decreases |keys|
  {
    if keys != [] {
      var m' := m - {keys[0]};
      assert MetaRemove(s, m, keys[0]).store == m';
      assert forall i :: 0 <= i < |keys[1..]| ==> s.removable(keys[1..][i]);
      RemoveEachSucceeds(s, m', keys[1..]);
      assert RemoveEach(s, m, keys) == RemoveEach(s, m', keys[1..]);
      assert Elements(keys) == {keys[0]} + Elements(keys[1..]);
      assert m' - Elements(keys[1..]) == m - Elements(keys);
    } else {
      assert m - Elements(keys) == m;
    }
  }

  /**
   * The first key that may not be removed stops the walk: its error is
   * returned and the keys before it stay removed.
   */
  lemma {:induction false} RemoveEachStopsAtRefusal(s: Schema, m: map<string, Value>, keys: seq<string>, i: nat)
    requires i < |keys| && !s.removable(keys[i])
    requires forall j :: 0 <= j < i ==> s.removable(keys[j])
    ensures RemoveEach(s, m, keys) == (Err(IllegalArgument(keys[i])), m - Elements(keys[..i]))
    decreases i
  {
    if i > 0 {
      var m' := m - {keys[0]};
      assert MetaRemove(s, m, keys[0]).store == m';
      assert RemoveEach(s, m, keys) == RemoveEach(s, m', keys[1..]);
      RemoveEachStopsAtRefusal(s, m', keys[1..], i - 1);
      assert keys[1..][..i - 1] == keys[..i][1..];
      assert Elements(keys[..i]) == {keys[0]} + Elements(keys[1..][..i - 1]);
      assert m' - Elements(keys[1..][..i - 1]) == m - Elements(keys[..i]);
    } else {
      assert Elements(keys[..0]) == {};
      assert m - Elements(keys[..0]) == m;
    }
  }

  /** Finds the first key that may not be removed. */
  lemma {:induction false} FirstRefusal(s: Schema, keys: seq<string>) returns (i: nat)
    requires exists j :: 0 <= j < |keys| && !s.removable(keys[j])
    ensures i < |keys| && !s.removable(keys[i])
    ensures forall j :: 0 <= j < i ==> s.removable(keys[j])
  {
    if !s.removable(keys[0]) {
      i := 0;
    } else {
      var j :| 0 <= j < |keys| && !s.removable(keys[j]);
      assert !s.removable(keys[1..][j - 1]);
      var i' := FirstRefusal(s, keys[1..]);
      i := i' + 1;
      forall j | 0 <= j < i ensures s.removable(keys[j]) {
        if j > 0 { assert keys[j] == keys[1..][j - 1]; }
      }
    }
  }

  /**
   * `clear` over the metadata keys: it succeeds and empties the document
   * exactly when every metadata key may be removed; otherwise it fails on a
   * key that may not be removed, leaves the source untouched, and keeps the
   * removals made before the failure (it is not atomic).
   */
  lemma ClearOutcome(s: Schema, d: Doc, keys: seq<string>)
    requires Elements(keys) == d.meta.Keys
    ensures var r := Clear(s, d, keys);
      && (r.result.Ok? <==> forall k :: k in d.meta ==> s.removable(k))
      && (r.result.Ok? ==> Size(r.doc) == 0)
      && (r.result.Err? ==>
            && r.doc.source == d.source
            && r.result.error.IllegalArgument?
            && var k := r.result.error.key;
            && k in d.meta && !s.removable(k) && k in r.doc.meta && r.doc.meta[k] == d.meta[k]
            && r.doc.meta.Keys <= d.meta.Keys
            && forall j :: j in r.doc.meta ==> r.doc.meta[j] == d.meta[j])
  {
    if forall i :: 0 <= i < |keys| ==> s.removable(keys[i]) {
      RemoveEachSucceeds(s, d.meta, keys);
      assert d.meta - Elements(keys) == map[];
    } else {
      var i := FirstRefusal(s, keys);
      RemoveEachStopsAtRefusal(s, d.meta, keys, i);
    }
  }

  /**
   * Removing a plain key/value pair whose value no longer matches the
   * metadata store touches neither store and reports that nothing was
   * removed. This holds only for a pair that carries a copied value: the
   * live handles the iterator hands out re-read the store (see
   * `LiveEntryIsRemoved`).
   */
  lemma StaleEntryIsNotRemoved(s: Schema, d: Doc, key: string, value: Value)
    requires WellFormed(s, d) && SourceFreeOfDeclared(s, d)
    requires key in d.meta && d.meta[key] != value
    ensures EntrySetRemove(s, d, key, value) == Step(Ok(false), d)
  {
  }

  /**
   * A live metadata handle reports the store's current value, so removing it
   * from the entry set always matches and removes a removable key, whatever
   * changed since the handle was created.
   */
  lemma LiveEntryIsRemoved(s: Schema, d: Doc, key: string)
    requires key in d.meta && s.removable(key)
    ensures EntrySetRemove(s, d, key, Lookup(d.meta, key)) == Step(Ok(true), d.(meta := d.meta - {key}))
  {
  }

  // ---------------------------------------------------------------------
  // Splitting a combined map into source and metadata
  // ---------------------------------------------------------------------

  /**
   * The entries of `m` split by key: those outside `names` (the source) and
   * those inside (the metadata). Every key of `m` lands in exactly one half,
   * with its value, a null value included.
   */
  function Partition(m: map<string, Value>, names: set<string>): (r: (map<string, Value>, map<string, Value>))
    ensures r.0.Keys == m.Keys - names
    ensures r.1.Keys == m.Keys * names
    ensures forall k :: k in r.0 ==> r.0[k] == m[k]
    ensures forall k :: k in r.1 ==> r.1[k] == m[k]
  {
    (map k | k in m && k !in names :: m[k], map k | k in m && k in names :: m[k])
  }

  /** Merging the two halves of a split gives back the combined map. */
  lemma MergeUndoesSplit(m: map<string, Value>, names: set<string>)
    ensures Disjoint(Doc(Partition(m, names).0, Partition(m, names).1))
    ensures Flatten(Doc(Partition(m, names).0, Partition(m, names).1)) == m
  {
    var (src, meta) := Partition(m, names);
    var f := Flatten(Doc(src, meta));
    assert f.Keys == m.Keys;
    forall k | k in m ensures f[k] == m[k] {
      if k in names { assert k in meta; } else { assert k in src; }
    }
  }

  /**
   * Splitting the combined view of a document whose source holds no reserved
   * name gives back its two stores.
   */
  lemma SplitUndoesMerge(s: Schema, d: Doc)
    requires WellFormed(s, d) && SourceFreeOfDeclared(s, d)
    ensures Partition(Flatten(d), s.declared) == (d.source, d.meta)
  {
    var (src, meta) := Partition(Flatten(d), s.declared);
    assert src.Keys == d.source.Keys;
    assert meta.Keys == d.meta.Keys;
    forall k | k in src ensures src[k] == d.source[k] {
      assert k !in d.meta;
    }
    forall k | k in meta ensures meta[k] == d.meta[k] {
      assert k !in d.source;
    }
    assert src == d.source;
    assert meta == d.meta;
  }
}
