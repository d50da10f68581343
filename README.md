# Ingest document map — a Dafny model

This project models `IngestSourceAndMetadata`, the map an Elasticsearch ingest
pipeline hands to its processors. It is one `Map<String, Object>` view over two
stores:

- the **source**, the free-form document body;
- the **metadata** store, the engine-reserved fields (`_index`, `_id`,
  `_version`, `_routing`, `_version_type`, `_if_seq_no`, `_if_primary_term`,
  `_dynamic_templates`, ...). Writes to these fields are validated.

The files are:

- `values.dfy` (module `Values`): the values a document holds (`Value`), the
  exceptions as an `Error` datatype, `Result`/`Option`, Java's `Map.get`
  (`Lookup`), and `Enumerate`, which lists a key set in an arbitrary order.
  That arbitrary order stands for the unspecified iteration order of a Java
  `HashMap` or `HashSet`.
- `metadata.dfy` (module `ScriptMetadata`): the metadata store
  (`org.elasticsearch.script.Metadata`), modelled at its interface. A `Schema`
  gives the declared names (`isAvailable`), a validator `valid(name, value)`
  and a removability test `removable(name)`. `MetaPut` and `MetaRemove` say
  what `put` and `remove` do. The class `Metadata` holds the store's map.
- `document_spec.dfy` (module `DocumentSpec`): the meaning of every operation
  of the view as a pure function over the two stores (`Doc`). The lemmas state
  what a processor may rely on.
- `ingest.dfy` (module `Ingest`): the classes. `IngestSourceAndMetadata` holds
  `source` and the `metadata` object. `EntrySet` holds the live source and a
  snapshot of the metadata keys. `EntrySetIterator` is the two-phase cursor.
  `Entry` is the live metadata entry. The module also has the static helpers
  `SplitSourceAndMetadata` and `GetTimestamp`. The postconditions of
  `IngestSourceAndMetadata.New`, `Put`, `Remove` and `Clear`, of the
  queries `Get`, `Size`, `ContainsKey` and `ContainsValue`, of
  `EntrySet.Remove` equate the result and the new state with a
  `DocumentSpec` function of the old state. `SplitSourceAndMetadata` returns
  a view's two stores directly and splits a plain map as
  `DocumentSpec.Partition` does. `EntrySet.Size` (`:234-237`) is the live
  source size plus the size of the metadata key snapshot; `EntrySet` and
  `Iterator` state how it relates to the map's size and to the iteration
  count.
  `EntrySetIterator.Next` and `EntrySetIterator.Remove` state the cursor's
  new state directly, and `Entry.SetValue` and the iterator's metadata-phase
  removal go through the store's `MetaPut` and `MetaRemove`.

Points where the code promises less than one might expect:

- **Stores can share a key.** The constructor (`:69-80`) rejects only
  metadata keys that are present in the store. A source that holds a
  reserved name whose metadata field is absent is accepted. A later `put` of
  that name writes to the metadata store, and the key is then in both
  stores. `DocumentSpec.PresentKeyCheckAdmitsOverlap` shows this on a
  concrete document. `DocumentSpec.SizeOvercountsSharedKeys` shows that
  `size` then counts the key twice. The stores are disjoint, and `put` and
  `remove` keep them so, when the source holds no reserved name at all
  (`SourceFreeOfDeclared`). Disjointness is not a class invariant of the
  model.
- **Removing twice.** In the iterator's `remove()` (`:284-299`), `cur` is the
  only guard, whereas `java.util.Iterator`'s contract asks for an
  illegal-state error on a second `remove()` without a `next()`. In the
  source phase the source iterator refuses the second removal. In the
  metadata phase the second `remove()` calls `metadata.remove` again.
- **Metadata key order.** The key snapshot is a `HashSet` (`:137`), so
  metadata entries come in any order; the model allows any order.
- **Clear.** `clear` (`:167-178`) removes the metadata keys one by one and
  stops at the first that may not be removed, so it is not atomic, although
  its doc comment at `:169` says otherwise.
- **Live entries.** A metadata entry from the iterator re-reads the store in
  `getValue` (`:317-320`), so `entrySet().remove` of such a handle always
  matches the current value and removes a removable key whatever changed
  since the handle was created (`DocumentSpec.LiveEntryIsRemoved`). Only a
  plain key/value pair carrying a copied value can be stale
  (`DocumentSpec.StaleEntryIsNotRemoved`).

## Model

| member | source | states |
|---|---|---|
| `Values.Enumerate` | server/src/main/java/org/elasticsearch/ingest/IngestSourceAndMetadata.java:137 | a key set is listed in some order, each key exactly once and no other key (the unspecified order of a Java hash set) |
| `ScriptMetadata.MetaPut` | server/src/main/java/org/elasticsearch/ingest/IngestSourceAndMetadata.java:140-147 | a metadata write succeeds iff the name is declared and the validator accepts the value; a refused write throws and leaves the store unchanged; a success returns the previous value (null if absent), stores the new one, leaves the key present afterwards (even with a null value) with no other key appearing or disappearing and no other value changing, and keeps the store's promise |
| `ScriptMetadata.MetaRemove` | server/src/main/java/org/elasticsearch/ingest/IngestSourceAndMetadata.java:152-161 | a metadata removal succeeds iff the field may be removed; a refusal throws and leaves the store unchanged; a success returns the previous value and drops exactly that key |
| `ScriptMetadata.Metadata.constructor` | server/src/main/java/org/elasticsearch/ingest/IngestSourceAndMetadata.java:60 | a metadata store starts from an initial map of declared, valid fields |
| `ScriptMetadata.Metadata.Put` | server/src/main/java/org/elasticsearch/ingest/IngestSourceAndMetadata.java:140-147 | the store's `put` returns and stores what `MetaPut` says and keeps the store valid |
| `ScriptMetadata.Metadata.Remove` | server/src/main/java/org/elasticsearch/ingest/IngestSourceAndMetadata.java:152-161 | the store's `remove` returns and stores what `MetaRemove` says and keeps the store valid |
| `DocumentSpec.Construct` | server/src/main/java/org/elasticsearch/ingest/IngestSourceAndMetadata.java:69-80 | a missing source becomes an empty map; construction fails exactly when a present metadata key is also a source key, reporting exactly those keys; otherwise the document is the two maps and they are disjoint |
| `DocumentSpec.Put` | server/src/main/java/org/elasticsearch/ingest/IngestSourceAndMetadata.java:140-150 | `put` fails iff the name is reserved and its validator refuses the value, and then changes nothing; on success it returns what `get` returned before, `get` then returns the new value, the key is present in the store it routes to (even for a null value) and no other key of that store appears or disappears, every other key reads as before, a reserved name leaves the source unchanged and any other name leaves the metadata unchanged; it keeps the metadata valid and never brings a reserved name into the source |
| `DocumentSpec.Remove` | server/src/main/java/org/elasticsearch/ingest/IngestSourceAndMetadata.java:152-165 | `remove` fails iff the name is reserved and may not be removed, and then changes nothing; on success it returns what `get` returned before, `get` then returns null and the key is absent from the store it routes to, no other key of that store appears or disappears, every other key reads as before, and only the store the name routes to changes |
| `DocumentSpec.EntrySetRemove` | server/src/main/java/org/elasticsearch/ingest/IngestSourceAndMetadata.java:239-252 | removing the entry (key, value) removes a metadata key only when the store holds exactly that value under it, and then through the removability check; otherwise it removes the entry from the source iff the source holds it, and reports whether it did |
| `DocumentSpec.Partition` | server/src/main/java/org/elasticsearch/ingest/IngestSourceAndMetadata.java:89-96 | every key of the combined map lands in exactly one half with its value (null values included): the metadata half holds exactly the metadata names present in the input, the source half everything else |
| `DocumentSpec.FreeOfDeclaredIsDisjoint` | server/src/main/java/org/elasticsearch/ingest/IngestSourceAndMetadata.java:69-80 | a source holding no reserved name is disjoint from a valid metadata store |
| `DocumentSpec.GetIsFlattenedLookup` | server/src/main/java/org/elasticsearch/ingest/IngestSourceAndMetadata.java:192-210 | when the source holds no reserved name, the routed `get` and `containsKey` agree with the single map the two stores form |
| `DocumentSpec.SourceKeysBehaveLikeSource` | server/src/main/java/org/elasticsearch/ingest/IngestSourceAndMetadata.java:144-165 | for a name outside the reserved namespace, `get`, `containsKey`, `put` and `remove` are exactly the source map's own operations and leave the metadata alone |
| `DocumentSpec.DisjointUnionSize` | server/src/main/java/org/elasticsearch/ingest/IngestSourceAndMetadata.java:180-184 | two maps with disjoint keys form a map with as many entries as both together |
| `DocumentSpec.SizeIsKeyCount` | server/src/main/java/org/elasticsearch/ingest/IngestSourceAndMetadata.java:180-199 | with disjoint stores, `size` is the number of keys of the combined map, `containsKey` holds exactly for those keys, and `containsValue` exactly for its values |
| `DocumentSpec.SizeOvercountsSharedKeys` | server/src/main/java/org/elasticsearch/ingest/IngestSourceAndMetadata.java:180-184 | when a key is in both stores, `size` exceeds the number of distinct keys |
| `DocumentSpec.PresentKeyCheckAdmitsOverlap` | server/src/main/java/org/elasticsearch/ingest/IngestSourceAndMetadata.java:69-80 | a source holding `_routing` while the metadata has none is accepted; `put("_routing", ...)` then succeeds, the key is in both stores and `size` is 2 for a single distinct key |
| `DocumentSpec.RemoveEachSucceeds` | server/src/main/java/org/elasticsearch/ingest/IngestSourceAndMetadata.java:174-176 | removing the metadata keys one by one, when every one may be removed, succeeds and removes exactly those keys |
| `DocumentSpec.RemoveEachStopsAtRefusal` | server/src/main/java/org/elasticsearch/ingest/IngestSourceAndMetadata.java:174-176 | the first key that may not be removed stops the walk with its error; the keys before it stay removed and the rest stay present |
| `DocumentSpec.FirstRefusal` | server/src/main/java/org/elasticsearch/ingest/IngestSourceAndMetadata.java:174-176 | if some key may not be removed, there is a first such key |
| `DocumentSpec.ClearOutcome` | server/src/main/java/org/elasticsearch/ingest/IngestSourceAndMetadata.java:167-178 | `clear` succeeds iff every metadata key may be removed, and then the document is empty; on failure the source is untouched, the failing key is a metadata key that may not be removed and keeps its value, and the metadata is a sub-map of what it was (earlier removals stay: not atomic) |
| `DocumentSpec.StaleEntryIsNotRemoved` | server/src/main/java/org/elasticsearch/ingest/IngestSourceAndMetadata.java:240-252 | removing a plain key/value pair (a copied value, not a live handle) whose value no longer matches the metadata store changes neither store and reports false |
| `DocumentSpec.LiveEntryIsRemoved` | server/src/main/java/org/elasticsearch/ingest/IngestSourceAndMetadata.java:240-252 | removing a live metadata handle, whose value is the store's current one (`:317-320`), always matches and removes a removable key, leaving the source alone |
| `DocumentSpec.MergeUndoesSplit` | server/src/main/java/org/elasticsearch/ingest/IngestSourceAndMetadata.java:85-98 | the two halves of a split are disjoint and together give back the input map |
| `DocumentSpec.SplitUndoesMerge` | server/src/main/java/org/elasticsearch/ingest/IngestSourceAndMetadata.java:85-98 | splitting the combined map of a document whose source holds no reserved name gives back its two stores |
| `Ingest.IngestSourceAndMetadata.Init` | server/src/main/java/org/elasticsearch/ingest/IngestSourceAndMetadata.java:69-71 | the document holds the given source and metadata store |
| `Ingest.IngestSourceAndMetadata.New` | server/src/main/java/org/elasticsearch/ingest/IngestSourceAndMetadata.java:63-80 | construction fails exactly as `DocumentSpec.Construct` says, with the colliding keys; on success a fresh document holds the (possibly empty) source and the given store |
| `Ingest.IngestSourceAndMetadata.Put` | server/src/main/java/org/elasticsearch/ingest/IngestSourceAndMetadata.java:140-150 | returns and leaves the stores as `DocumentSpec.Put` says (routing by declared name, validated metadata writes) |
| `Ingest.IngestSourceAndMetadata.Remove` | server/src/main/java/org/elasticsearch/ingest/IngestSourceAndMetadata.java:152-165 | returns and leaves the stores as `DocumentSpec.Remove` says (routing by declared name, removability check) |
| `Ingest.IngestSourceAndMetadata.Clear` | server/src/main/java/org/elasticsearch/ingest/IngestSourceAndMetadata.java:167-178 | walks the present metadata keys in some order, each once, and returns and leaves the stores as `DocumentSpec.Clear` says for that order |
| `Ingest.IngestSourceAndMetadata.Get` | server/src/main/java/org/elasticsearch/ingest/IngestSourceAndMetadata.java:201-210 | a declared name is read from the metadata store only, any other name from the source (`DocumentSpec.Get`) |
| `Ingest.IngestSourceAndMetadata.Size` | server/src/main/java/org/elasticsearch/ingest/IngestSourceAndMetadata.java:180-184 | the sum of the two stores' sizes (`DocumentSpec.Size`) |
| `Ingest.IngestSourceAndMetadata.ContainsValue` | server/src/main/java/org/elasticsearch/ingest/IngestSourceAndMetadata.java:186-190 | true iff either store holds the value |
| `Ingest.IngestSourceAndMetadata.ContainsKey` | server/src/main/java/org/elasticsearch/ingest/IngestSourceAndMetadata.java:192-199 | true iff either store holds the key, whether or not the name is reserved |
| `Ingest.IngestSourceAndMetadata.EntrySet` | server/src/main/java/org/elasticsearch/ingest/IngestSourceAndMetadata.java:131-138 | the entry set holds a snapshot of the present metadata keys taken now, and its size equals the map's size at that moment |
| `Ingest.Entry.constructor` | server/src/main/java/org/elasticsearch/ingest/IngestSourceAndMetadata.java:308-310 | a metadata entry is a key bound to the live store |
| `Ingest.Entry.GetValue` | server/src/main/java/org/elasticsearch/ingest/IngestSourceAndMetadata.java:317-320 | the value the store holds for the key at the moment of the call, null once it is gone |
| `Ingest.Entry.SetValue` | server/src/main/java/org/elasticsearch/ingest/IngestSourceAndMetadata.java:322-325 | a write through the validated store `put`: refused values change nothing, accepted ones return the previous value |
| `Ingest.EntrySet.constructor` | server/src/main/java/org/elasticsearch/ingest/IngestSourceAndMetadata.java:224-227 | the entry set is bound to its document and key snapshot |
| `Ingest.EntrySet.Remove` | server/src/main/java/org/elasticsearch/ingest/IngestSourceAndMetadata.java:239-252 | returns and leaves the stores as `DocumentSpec.EntrySetRemove` says |
| `Ingest.EntrySet.Iterator` | server/src/main/java/org/elasticsearch/ingest/IngestSourceAndMetadata.java:229-237 | a fresh cursor over every source key and then every snapshot key, each once, as many entries as the entry set's size |
| `Ingest.EntrySetIterator.constructor` | server/src/main/java/org/elasticsearch/ingest/IngestSourceAndMetadata.java:265-271 | a new cursor is in the source phase with nothing returned yet |
| `Ingest.EntrySetIterator.HasNext` | server/src/main/java/org/elasticsearch/ingest/IngestSourceAndMetadata.java:273-276 | true iff either sub-iterator has an entry left; once false, exactly the source keys and then the snapshot keys have been returned, in that order |
| `Ingest.EntrySetIterator.Next` | server/src/main/java/org/elasticsearch/ingest/IngestSourceAndMetadata.java:278-282 | the phase flag is set from the source iterator; a source entry comes while any is left, then a fresh live handle for the next snapshot key; past the end it fails with the position and current entry unchanged, and the cursor never returns a metadata entry before the source is exhausted |
| `Ingest.EntrySetIterator.Remove` | server/src/main/java/org/elasticsearch/ingest/IngestSourceAndMetadata.java:284-299 | before any `next` it is an illegal-state error that changes nothing; in the source phase it removes the last source entry, and a second removal without a `next` is refused by the source iterator and leaves the document and the cursor unchanged, so every later `remove` before a `next` is refused too; in the metadata phase it is the store's validated `remove` of the entry's key |
| `Ingest.SplitSourceAndMetadata` | server/src/main/java/org/elasticsearch/ingest/IngestSourceAndMetadata.java:85-98 | a document view gives its two stores; a plain map is split by the metadata field names into `DocumentSpec.Partition`; the input is not modified |
| `Ingest.GetTimestamp` | server/src/main/java/org/elasticsearch/ingest/IngestSourceAndMetadata.java:104-115 | no map gives none; a date-time is returned as is; a string is parsed and a parse failure is an error; any other value, an absent one included, gives none without error |
| `Ingest.TextAndParsedTimestampAgree` | server/src/main/java/org/elasticsearch/ingest/IngestSourceAndMetadata.java:104-115 | a timestamp stored as text reads the same as the date-time it parses to, stored as is |

## Left out

- Keys that are not strings: the source is a `Map<String, Object>`, so `get`, `remove` and `containsKey` with another key type go to the source and find nothing; keys are `string` here.
- The seven-argument constructor (`:51-61`): it builds the store with `Metadata`'s own constructor, which is not part of this model. It is `IngestSourceAndMetadata.New` over a copied, present source and the store that constructor yields.
- The internals of `org.elasticsearch.script.Metadata` (its per-field string, long and version-type validators, `getMap`, `keySet`) are not part of this model. They are the abstract `Schema` predicates. A removal is refused exactly when the field may not be removed, whether or not it is present.
- `ZonedDateTime.parse` (`:112`) is a foreign library. It is the parameter `parse`, a partial function that may fail.
- The text of the construction error message (`:74-78`): only the colliding keys are kept.
- `equals` and `hashCode` (`:328-340`): they rest on `AbstractMap.equals` and unspecified hash values.
- `getSource` and `getMetadata` (`:117-129`): in the model the two stores are the public fields `source` and `metadata`.
- Concurrent modification: changing the document through the map while iterating is outside the iterator's contract. The iterator's `Valid()` only asks that the source keys still to come are present. `Clear` walks a snapshot of the metadata keys rather than the live key set (`:174-176`).
- Iteration order within each phase is arbitrary (`Enumerate`). Only "all source entries before any metadata entry" is claimed.
- Source entries are returned as key/value pairs. The write-through `setValue` of a `HashMap` entry belongs to the source map, not to this class.
- The methods `EntrySet` inherits from `AbstractSet` and `AbstractCollection` (`removeAll`, `retainAll`, `clear`, `contains`), and `AbstractMap`'s `keySet()` and `values()` views. They are built on the members modelled here. `EntrySet.remove` of an object that is not a map entry is left out too.
- `IngestDocument` is not part of this model. Its `TIMESTAMP` key is the constant `Ingest.Timestamp` (`"timestamp"`). The field names of its `Metadata` enumeration are the parameter `fieldNames` of `SplitSourceAndMetadata`; they are required to be distinct, as an enumeration's field names are.
- `IngestSourceAndMetadata.New`: the two-argument constructor keeps the caller's source map by reference (`:70`), so `put`, `remove` and `clear` also change the caller's map and `getSource()` returns that same object (`:117-122`). The model holds the source as a map value; its sharing with the caller is not modelled.
