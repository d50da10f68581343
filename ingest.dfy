/**
 * The ingest document map: one `Map<String, Object>` view over a free-form
 * source map and a validated metadata store, with a validating entry set, its
 * two-phase iterator, live metadata entries, and the static helpers that
 * split a combined map and read the ingest timestamp.
 *
 * Each operation is proved to agree with its meaning in `DocumentSpec`, where
 * the properties of the combined view are proved.
 */
module Ingest {
  import opened Values
  import opened ScriptMetadata
  import Spec = DocumentSpec

  /** The key of the timestamp in the ingest metadata map (`IngestDocument.TIMESTAMP`). */
  const Timestamp := "timestamp"

  class IngestSourceAndMetadata {
    var source: map<string, Value>
    const metadata: Metadata

    ghost predicate Valid()
      reads this, metadata
    {
      metadata.Valid()
    }

    /** The two stores, as a value. */
    ghost function State(): Spec.Doc
      reads this, metadata
    {
      Spec.Doc(source, metadata.fields)
    }

    constructor Init(source: map<string, Value>, metadata: Metadata)
      requires metadata.Valid()
      requires source.Keys !! metadata.fields.Keys
      ensures Valid()
      ensures this.source == source && this.metadata == metadata
    {
      this.source := source;
      this.metadata := metadata;
    }

    /**
     * Creates the document over `source` (empty when missing) and `metadata`,
     * refusing it when a present metadata key is also a source key.
     */
    static method New(source: Option<map<string, Value>>, metadata: Metadata)
      returns (r: Result<IngestSourceAndMetadata>)
      requires metadata.Valid()
      ensures var c := Spec.Construct(source, metadata.fields);
        && (r.Err? <==> c.Err?)
        && (r.Err? ==> r.error == c.error)
        && (r.Ok? ==> fresh(r.value) && r.value.Valid() && r.value.metadata == metadata
                      && r.value.State() == c.value)
    {
      var src := if source.Some? then source.value else map[];
      var badKeys := metadata.fields.Keys * src.Keys;
      if |badKeys| > 0 {
        return Err(UnexpectedMetadata(badKeys));
      }
      var doc := new IngestSourceAndMetadata.Init(src, metadata);
      return Ok(doc);
    }

    method Put(key: string, value: Value) returns (r: Result<Value>)
      requires Valid()
      modifies this, metadata
      ensures Valid()
      ensures r == Spec.Put(metadata.schema, old(State()), key, value).result
      ensures State() == Spec.Put(metadata.schema, old(State()), key, value).doc
    {
      if metadata.IsAvailable(key) {
        r := metadata.Put(key, value);
        return;
      }
      r := Ok(Lookup(source, key));
      source := source[key := value];
    }

    method Remove(key: string) returns (r: Result<Value>)
      requires Valid()
      modifies this, metadata
      ensures Valid()
      ensures r == Spec.Remove(metadata.schema, old(State()), key).result
      ensures State() == Spec.Remove(metadata.schema, old(State()), key).doc
    {
      if metadata.IsAvailable(key) {
        r := metadata.Remove(key);
        return;
      }
      r := Ok(Lookup(source, key));
      source := source - {key};
    }

    /**
     * Removes each metadata key in turn (in the store's own key order, given
     * back as `keys`), then empties the source. A refused removal stops the
     * walk and is reported; earlier removals stay done.
     */
    method Clear() returns (r: Result<()>, ghost keys: seq<string>)
      requires Valid()
      modifies this, metadata
      ensures Valid()
      ensures Distinct(keys) && Elements(keys) == old(metadata.fields).Keys
      ensures r == Spec.Clear(metadata.schema, old(State()), keys).result
      ensures State() == Spec.Clear(metadata.schema, old(State()), keys).doc
    {
      var order := Enumerate(metadata.fields.Keys);
      keys := order;
      var i := 0;
      while i < |order|
        invariant 0 <= i <= |order|
        invariant Valid() && source == old(source)
        invariant Spec.RemoveEach(metadata.schema, old(metadata.fields), order)
               == Spec.RemoveEach(metadata.schema, metadata.fields, order[i..])
      {
        assert order[i..][1..] == order[i + 1..];
        var removed := metadata.Remove(order[i]);
        if removed.Err? {
          return Err(removed.error), keys;
        }
        i := i + 1;
      }
      source := map[];
      r := Ok(());
    }

    function Get(key: string): (v: Value)
      reads this, metadata
      ensures v == Spec.Get(metadata.schema, State(), key)
    {
      if metadata.IsAvailable(key) then metadata.Get(key) else Lookup(source, key)
    }

    function Size(): (n: nat)
      reads this, metadata
      ensures n == Spec.Size(State())
    {
      |source| + |metadata.fields|
    }

    predicate ContainsValue(value: Value)
      reads this, metadata
      ensures ContainsValue(value) == Spec.ContainsValue(State(), value)
    {
      value in metadata.fields.Values || value in source.Values
    }

    predicate ContainsKey(key: string)
      reads this, metadata
      ensures ContainsKey(key) == Spec.ContainsKey(State(), key)
    {
      key in metadata.fields || key in source
    }

    /** The entry set: the live source, and a snapshot of the present metadata keys. */
    method EntrySet() returns (es: EntrySet)
      requires Valid()
      ensures fresh(es) && es.doc == this && es.metadataKeys == metadata.fields.Keys
      ensures es.Size() == Size()
    {
      es := new EntrySet(this, metadata.fields.Keys);
    }
  }

  /**
   * A `Map.Entry` of the view: a source entry as its key and value, or a
   * handle on a metadata key that reads and writes through the store.
   */
  datatype IterEntry = SourceEntry(key: string, value: Value) | MetadataEntry(handle: Entry)
  {
    function Key(): string
    {
      match this
      case SourceEntry(k, _) => k
      case MetadataEntry(h) => h.key
    }
  }

  /** A metadata entry: resolved by key on every access. */
  class Entry {
    const metadata: Metadata
    const key: string

    constructor (metadata: Metadata, key: string)
      ensures this.metadata == metadata && this.key == key
    {
      this.metadata := metadata;
      this.key := key;
    }

    /** The value the store holds now (null once the key is gone). */
    function GetValue(): (v: Value)
      reads metadata
      ensures key in metadata.fields ==> v == metadata.fields[key]
      ensures key !in metadata.fields ==> v == Null
    {
      metadata.Get(key)
    }

    /** A validated write through the store; a refused value changes nothing. */
    method SetValue(value: Value) returns (r: Result<Value>)
      requires metadata.Valid()
      modifies metadata
      ensures metadata.Valid()
      ensures r == MetaPut(metadata.schema, old(metadata.fields), key, value).result
      ensures metadata.fields == MetaPut(metadata.schema, old(metadata.fields), key, value).store
    {
      r := metadata.Put(key, value);
    }
  }

  class EntrySet {
    const doc: IngestSourceAndMetadata
    const metadataKeys: set<string>

    constructor (doc: IngestSourceAndMetadata, metadataKeys: set<string>)
      ensures this.doc == doc && this.metadataKeys == metadataKeys
    {
      this.doc := doc;
      this.metadataKeys := metadataKeys;
    }

    /** The live source size plus the size of the metadata key snapshot. */
    function Size(): nat
      reads doc
    {
      |doc.source| + |metadataKeys|
    }

    /**
     * Removes the entry `(key, value)`: from the metadata store when it holds
     * exactly that value under that key, otherwise from the source.
     */
    method Remove(key: string, value: Value) returns (r: Result<bool>)
      requires doc.Valid()
      modifies doc, doc.metadata
      ensures doc.Valid()
      ensures r == Spec.EntrySetRemove(doc.metadata.schema, old(doc.State()), key, value).result
      ensures doc.State() == Spec.EntrySetRemove(doc.metadata.schema, old(doc.State()), key, value).doc
    {
      var metadata := doc.metadata;
      if key in metadata.fields && value == metadata.Get(key) {
        var removed := metadata.Remove(key);
        if removed.Err? {
          return Err(removed.error);
        }
        return Ok(true);
      }
      if key in doc.source && doc.source[key] == value {
        doc.source := doc.source - {key};
        return Ok(true);
      }
      return Ok(false);
    }

    /**
     * A fresh iterator: the source entries in the source map's order, then
     * the snapshot keys in the snapshot's order; as many entries as `Size()`.
     */
    method Iterator() returns (it: EntrySetIterator)
      requires doc.Valid()
      ensures fresh(it) && it.Valid() && it.doc == doc
      ensures Elements(it.sourceKeys) == doc.source.Keys
      ensures Elements(it.metadataKeys) == metadataKeys
      ensures |it.sourceKeys| + |it.metadataKeys| == Size()
      ensures it.sourcePos == 0 && it.metadataPos == 0 && it.cur.None? && it.sourceCur
    {
      var sourceOrder := Enumerate(doc.source.Keys);
      var metadataOrder := Enumerate(metadataKeys);
      it := new EntrySetIterator(doc, sourceOrder, metadataOrder);
    }
  }

  /**
   * The two-phase cursor over the entry set. `sourceCur` records whether the
   * entry returned last came from the source; `cur` is that entry;
   * `sourceLastReturned` is the source iterator's own record that its last
   * entry has not been removed yet.
   */
  class EntrySetIterator {
    const doc: IngestSourceAndMetadata
    const metadata: Metadata
    const sourceKeys: seq<string>
    const metadataKeys: seq<string>
    var sourcePos: nat
    var metadataPos: nat
    var sourceCur: bool
    var cur: Option<IterEntry>
    var sourceLastReturned: bool

    ghost predicate Valid()
      reads this, doc, metadata
    {
      && metadata == doc.metadata && doc.Valid()
      && Distinct(sourceKeys) && Distinct(metadataKeys)
      && sourcePos <= |sourceKeys| && metadataPos <= |metadataKeys|
      // every source entry is returned before any metadata entry
      && (metadataPos > 0 ==> sourcePos == |sourceKeys|)
      && (!sourceCur ==> sourcePos == |sourceKeys|)
      && (cur.None? ==> sourcePos == 0 && metadataPos == 0)
      && (sourceCur && cur.Some? ==>
            0 < sourcePos && cur.value.SourceEntry? && cur.value.key == sourceKeys[sourcePos - 1])
      && (sourceCur && sourceLastReturned ==> cur.Some?)
      // the source entries still to come are in the source (no concurrent modification)
      && (forall i :: sourcePos <= i < |sourceKeys| ==> sourceKeys[i] in doc.source)
    }

    /** The keys returned so far, in order. */
    ghost function Returned(): seq<string>
      reads this
      requires sourcePos <= |sourceKeys| && metadataPos <= |metadataKeys|
    {
      sourceKeys[..sourcePos] + metadataKeys[..metadataPos]
    }

    constructor (doc: IngestSourceAndMetadata, sourceKeys: seq<string>, metadataKeys: seq<string>)
      requires doc.Valid()
      requires Distinct(sourceKeys) && Distinct(metadataKeys)
      requires Elements(sourceKeys) == doc.source.Keys
      ensures Valid()
      ensures this.doc == doc && this.sourceKeys == sourceKeys && this.metadataKeys == metadataKeys
      ensures sourcePos == 0 && metadataPos == 0 && cur.None? && sourceCur && !sourceLastReturned
    {
      this.doc := doc;
      this.metadata := doc.metadata;
      this.sourceKeys := sourceKeys;
      this.metadataKeys := metadataKeys;
      sourcePos, metadataPos := 0, 0;
      sourceCur := true;
      cur := None;
      sourceLastReturned := false;
    }

    /**
     * Either sub-iterator has an entry left. Once none has, every source key
     * and then every snapshot key has been returned.
     */
    predicate HasNext()
      reads this
      requires sourcePos <= |sourceKeys| && metadataPos <= |metadataKeys|
      ensures HasNext() <==> |Returned()| < |sourceKeys| + |metadataKeys|
      ensures !HasNext() ==> Returned() == sourceKeys + metadataKeys
    {
      sourcePos < |sourceKeys| || metadataPos < |metadataKeys|
    }

    method Next() returns (r: Result<IterEntry>)
      requires Valid()
      modifies this
      ensures Valid()
      ensures sourceCur == (old(sourcePos) < |sourceKeys|)
      ensures old(sourcePos) < |sourceKeys| ==>
        && r == Ok(SourceEntry(sourceKeys[old(sourcePos)], doc.source[sourceKeys[old(sourcePos)]]))
        && sourcePos == old(sourcePos) + 1 && metadataPos == old(metadataPos)
        && cur == Some(r.value) && sourceLastReturned
      ensures old(sourcePos) == |sourceKeys| && old(metadataPos) < |metadataKeys| ==>
        && r.Ok? && r.value.MetadataEntry? && fresh(r.value.handle)
        && r.value.handle.key == metadataKeys[old(metadataPos)] && r.value.handle.metadata == metadata
        && metadataPos == old(metadataPos) + 1 && sourcePos == old(sourcePos)
        && cur == Some(r.value)
      ensures !old(HasNext()) ==>
        && r == Err(NoSuchElement)
        && sourcePos == old(sourcePos) && metadataPos == old(metadataPos) && cur == old(cur)
    {
      sourceCur := sourcePos < |sourceKeys|;
      if sourceCur {
        var key := sourceKeys[sourcePos];
        r := Ok(SourceEntry(key, doc.source[key]));
        sourcePos := sourcePos + 1;
        sourceLastReturned := true;
      } else if metadataPos < |metadataKeys| {
        var handle := new Entry(metadata, metadataKeys[metadataPos]);
        r := Ok(MetadataEntry(handle));
        metadataPos := metadataPos + 1;
      } else {
        return Err(NoSuchElement);
      }
      cur := Some(r.value);
    }

    /**
     * Removes the entry returned last: from the source through the source
     * iterator, or from the metadata store through its removal check. Only a
     * missing `next()` is guarded here; in the metadata phase a second
     * `remove()` repeats the store removal.
     */
    method Remove() returns (r: Result<()>)
      requires Valid()
      modifies this, doc, metadata
      ensures Valid()
      ensures sourcePos == old(sourcePos) && metadataPos == old(metadataPos)
      ensures sourceCur == old(sourceCur) && cur == old(cur)
      ensures cur.None? ==>
        r == Err(IllegalState) && doc.State() == old(doc.State()) && sourceLastReturned == old(sourceLastReturned)
      ensures cur.Some? && sourceCur && !old(sourceLastReturned) ==>
        r == Err(IllegalState) && doc.State() == old(doc.State()) && !sourceLastReturned
      ensures cur.Some? && sourceCur && old(sourceLastReturned) ==>
        && r == Ok(())
        && doc.source == old(doc.source) - {cur.value.Key()}
        && metadata.fields == old(metadata.fields)
        && !sourceLastReturned
      ensures cur.Some? && !sourceCur ==>
        var u := MetaRemove(metadata.schema, old(metadata.fields), cur.value.Key());
        && r == (if u.result.Ok? then Ok(()) else Err(u.result.error))
        && metadata.fields == u.store
        && doc.source == old(doc.source)
        && sourceLastReturned == old(sourceLastReturned)
    {
      if cur.None? {
        return Err(IllegalState);
      }
      if sourceCur {
        if !sourceLastReturned {
          return Err(IllegalState);
        }
        doc.source := doc.source - {cur.value.Key()};
        sourceLastReturned := false;
        r := Ok(());
      } else {
        var removed := metadata.Remove(cur.value.Key());
        r := if removed.Ok? then Ok(()) else Err(removed.error);
      }
    }
  }

  // ---------------------------------------------------------------------
  // Static helpers
  // ---------------------------------------------------------------------

  /** What `splitSourceAndMetadata` is given: a plain map, or a document view. */
  datatype SplitInput = PlainMap(entries: map<string, Value>) | View(doc: IngestSourceAndMetadata)

  /**
   * Copies a combined map into a source map and a metadata map, without
   * changing the input. A document view gives copies of its two stores; a
   * plain map is split by the metadata field names `fieldNames` (the
   * `IngestDocument.Metadata` enumeration, in its order).
   */
  method SplitSourceAndMetadata(fieldNames: seq<string>, input: SplitInput)
    returns (source: map<string, Value>, metadata: map<string, Value>)
    requires Distinct(fieldNames)
    ensures input.View? ==> source == input.doc.source && metadata == input.doc.metadata.fields
    ensures input.PlainMap? ==> (source, metadata) == Spec.Partition(input.entries, Elements(fieldNames))
  {
    if input.View? {
      return input.doc.source, input.doc.metadata.fields;
    }
    var entries := input.entries;
    metadata := map[];
    source := entries;
    assert Elements(fieldNames[..0]) == {};
    assert Spec.Partition(entries, {}).0 == entries;
    assert Spec.Partition(entries, {}).1 == map[];
    for i := 0 to |fieldNames|
      invariant source == Spec.Partition(entries, Elements(fieldNames[..i])).0
      invariant metadata == Spec.Partition(entries, Elements(fieldNames[..i])).1
    {
      var name := fieldNames[i];
      ghost var done := Elements(fieldNames[..i]);
      assert Elements(fieldNames[..i + 1]) == done + {name} by {
        assert fieldNames[..i + 1] == fieldNames[..i] + [name];
      }
      assert name !in done;
      ghost var next := Spec.Partition(entries, done + {name});
      if name in entries {
        metadata := metadata[name := Lookup(source, name)];
        source := source - {name};
        assert source == next.0;
        assert metadata == next.1;
      } else {
        assert source == next.0;
        assert metadata == next.1;
      }
    }
    assert fieldNames[..|fieldNames|] == fieldNames;
  }

  /**
   * The document timestamp from the ingest metadata map: none for a missing
   * map; a date-time as it is; a string parsed with `parse`, a parse failure
   * being an error; anything else, an absent key included, none.
   */
  function GetTimestamp(ingestMetadata: Option<map<string, Value>>, parse: string -> Option<DateTime>)
    : (r: Result<Option<DateTime>>)
    ensures ingestMetadata.None? ==> r == Ok(None)
    ensures ingestMetadata.Some? ==>
      var ts := Lookup(ingestMetadata.value, Timestamp);
      && (r.Err? <==> ts.Str? && parse(ts.text).None?)
      && (r.Err? ==> r.error == DateTimeParse(ts.text))
      && (ts.Date? ==> r == Ok(Some(ts.time)))
      && (ts.Str? && parse(ts.text).Some? ==> r == Ok(Some(parse(ts.text).value)))
      && (!ts.Date? && !ts.Str? ==> r == Ok(None))
  {
    match ingestMetadata
    case None => Ok(None)
    case Some(m) =>
      match Lookup(m, Timestamp)
      case Date(t) => Ok(Some(t))
      case Str(text) =>
        (match parse(text)
         case Some(t) => Ok(Some(t))
         case None => Err(DateTimeParse(text)))
      case _ => Ok(None)
  }

  /**
   * A timestamp stored as text reads the same as the date-time it parses to,
   * stored as is.
   */
  lemma TextAndParsedTimestampAgree(m: map<string, Value>, text: string, t: DateTime,
                                    parse: string -> Option<DateTime>)
    requires parse(text) == Some(t)
    ensures GetTimestamp(Some(m[Timestamp := Str(text)]), parse) == Ok(Some(t))
    ensures GetTimestamp(Some(m[Timestamp := Date(t)]), parse) == Ok(Some(t))
  {
  }
}
