# mini-db, modelled in Dafny

mini-db is an embedded document store backed by one JSON file. The document
(`this._data`) maps string keys to ordered collections of records. Clients
`insert` a record under a key, and they `select`, `update` (shallow merge) or
`remove` the records that a small filter text matches. A filter is a
JavaScript expression in which `$` is the record and `#` is its index.
Before the text reaches `new Function`, `compile` rewrites every lone `#`
into the parameter name `__index` and every `##` into a literal `#`, then
wraps the result as `return (` … `);`. An empty or absent filter matches
every record.

The model has seven modules:

- `Json` (json.dfy): the record values. It holds `clone`, whose JSON round
  trip is modelled structurally and which rejects non-objects, and
  `mu.mix`, modelled as a field override on objects.
- `Filter` (filter.dfy): the `##?` rewrite, its lexical reading as tokens
  and the escaping that inverts it, the `filter || ''` and callback
  handling, `compile` without its cache, and `match`. The JavaScript engine
  is a parameter, `Runner`: the truthiness of running a body text with `$`
  and `__index` bound.
- `FilterCache` (filter_cache.dfy): the cache inside `compile`, kept as a
  class whose dictionary is updated in place. It has the cache as written
  and the cache keyed by the text it is looked up under.
- `Collections` (collections.dfy): what one pass over a collection
  computes (`Selected`), and the mark-then-compact removal, generic in the
  record type.
- `Documents` (documents.dfy): the document `map<string, seq<Value>>` and
  what each store operation makes of it, as functions with lemmas.
- `Store` (storage.dfy): the `Storage` class with its `data` field. Its
  `Insert`, `Select`, `Update` and `Remove` methods are proved to compute
  the `Documents` functions. `Insert` has no loop, as in the source.
  `Select` and `Remove` hold the source's loops. Update's loop is the
  module-level method `MergeMatches`, which `Update` calls.
- `Scenario` (scenario.dfy): the session of test/main.js replayed on the
  class against an engine that answers its two filter bodies. It has the
  insert, the four selects (all, by `$`, by `#`, by callback), the update
  with the select that follows it, and the remove with its select.

On the two defects listed under Findings, `Storage` implements the
corrected behaviour. `Remove` marks matches with a hole that no record can
hold. The filters are compiled by `Compile`, which answers like the
corrected cache. The code as written is modelled beside it, in
`Documents.AfterRemoveAsWritten` and `FilterCache.Cache.CompileAsWritten`.

Some facts about index.js that shape the model:

- `compile` rewrites only `#` and hands the text to `new Function`
  (index.js:18-23). `$` is already the name of the function's first
  parameter.
- A filter text that is not a JavaScript expression makes `new Function`
  throw a SyntaxError when the first record is tested. `Compile` returns
  `Code` for such a text; the error itself is under Left out.
- `insert` accepts any value (index.js:110-117).
- `insert`, `update` and `remove` return the store itself. They hand the
  value, the `updated` list and the `removed` list only to their callbacks.
  The model's methods return those lists directly.
- The compile cache stores an entry under the body text, not under the
  filter text it looks up (see Findings).

## Model

| member | source | states |
|---|---|---|
| `Filter.RewriteRendersTokens` | index.js:18-22 | The rewrite renders the text's left-to-right reading: `##` takes priority and gives `#`, a lone `#` gives `__index`, every other character is copied. |
| `Filter.RewriteWithoutSharp` | index.js:18-22 | A text without `#` passes the rewrite unchanged. |
| `Filter.BodyWithoutSharp` | index.js:18-23 | A filter text without `#` reaches `new Function` unchanged, wrapped as `return (` … `);`. |
| `Filter.EscapeTokenize` | index.js:4 | Escaping the reading of any text gives back that text, so no two texts read alike. |
| `Filter.TokenizeEscape` | index.js:4 | Reading an escaped token sequence gives it back if and only if no index reference is directly followed by `#` or by another index reference. |
| `Filter.Compile` | index.js:15-26 | Compiling gives the always-true function exactly when the text is empty. Any other text gives the body `return (` … `);` around the rendering of its token reading, where `##` reads as `#` and a lone `#` as the index. |
| `Filter.Match` | index.js:56-58 | An empty filter matches every record. Any other filter matches exactly when the engine answers true on the code of its token reading, with the record as `$` and its index as `__index`. |
| `Filter.MatchAllIff` | index.js:11-16 | A filter matches every record under every engine if and only if it is absent, a callback or the empty text. |
| `Json.Clone` | index.js:63-74 | Clone fails exactly on non-objects. Otherwise it returns an object that JSON represents exactly, equal to the original when the original has no `undefined` inside. |
| `Json.CopySerializable` | index.js:69 | The JSON copy of anything but `undefined` contains no `undefined`. |
| `Json.CopyExact` | index.js:69 | On a value without `undefined` the JSON copy is structurally equal to the value. |
| `Json.CopyIdempotent` | index.js:69 | Copying a copy changes nothing. |
| `Json.MixFields` | index.js:225 | Patch fields overwrite or are added, all other fields of the record are kept, and the key set is the union. A non-object side leaves the record unchanged. |
| `Json.MixIdempotent` | index.js:225 | Merging the same patch twice equals merging it once. |
| `Collections.SelectedIndices` | index.js:189-194 | The selection is exactly the records at the matching indices, in strictly increasing index order, and every matching index is taken. |
| `Collections.SelectedLength` | index.js:189-194 | The selection is no longer than the collection, and matches plus non-matches count the whole collection. |
| `Collections.SelectedSplit` | index.js:144-155 | The matching and non-matching records together are a permutation of the collection. |
| `Collections.SelectedEvery` | index.js:189-194 | The selection is the whole collection if and only if every record matches. |
| `Collections.SelectedNone` | index.js:156-158 | Nothing is selected if and only if no record matches. |
| `Collections.CompactMarked` | index.js:145-155 | Marking the matches and then compacting leaves exactly the non-matching records, each tested at its original index, in original order. |
| `Documents.Inserted` | index.js:110-117 | Insert appends the record to the old collection, or to an empty one when the key is absent. It adds only the key, touches no other collection and keeps every collection non-empty. |
| `Documents.SelectSpec` | index.js:180-201 | Select fails exactly when a matching record is not an object. Otherwise it gives one clone per match in order, no more than the collection. An absent key gives an empty list. |
| `Documents.UpdatedAreStored` | index.js:222-227 | The `updated` list equals the records the collection now holds at the matched indices, in index order. |
| `Documents.UpdateSpec` | index.js:212-229 | Update keeps every key and every collection length. A non-match is unchanged, a match becomes its merge with the patch, other keys are untouched and no collection becomes empty. |
| `Documents.RemovedRecords` | index.js:135-147 | Removing under an absent key returns an empty list. |
| `Documents.AfterRemove` | index.js:144-162 | Remove touches no other key and adds no key. It keeps every collection non-empty and leaves the document unchanged under an absent key. |
| `Documents.RemoveSplits` | index.js:144-155 | The stored collection becomes the non-matches in order. `removed` plus what remains is a permutation of the old collection, and their lengths add up. |
| `Documents.RemoveDeletesEmpty` | index.js:156-161 | After remove the key is present if and only if some record did not match, and then its collection is non-empty. |
| `Documents.RemoveEverything` | index.js:144-158 | With a match-all filter remove returns the whole collection and deletes the key. |
| `Documents.RemoveAsWrittenDropsUndefined` | index.js:149-155 | As written, a collection holding one non-matching `undefined` record is deleted although remove returns nothing. |
| `Documents.MarkedAsWrittenAgrees` | index.js:149-155 | Without `undefined` records, marking with `undefined` and compacting gives the same as marking with a hole. |
| `Documents.RemoveAsWrittenAgrees` | index.js:144-162 | Without `undefined` records, the source's remove leaves the same document as the model's. |
| `Store.Storage.constructor` | index.js:82-91 | The document is the content read from the file. |
| `Store.Storage.Insert` | index.js:110-126 | The new document is the old one with the record appended under the key; other collections are unchanged. |
| `Store.Storage.Select` | index.js:180-201 | The result is the select outcome of the document under the compiled filter. It is never longer than the collection and is empty for an absent key; the document is only read. |
| `Store.Storage.Update` | index.js:212-238 | The new document and the `updated` list are the update outcome under the compiled filter. Keys and the collection length are unchanged. |
| `Store.MergeMatches` | index.js:222-227 | The pass of update leaves every non-match as it was and replaces each match by its merge with the patch. `updated` holds the merges of the matches in index order. |
| `Store.Storage.Remove` | index.js:135-171 | The new document and `removed` are the remove outcome under the compiled filter. The key never maps to an empty collection and other keys are unchanged. |
| `Store.EmptyFilterActsOnEvery` | index.js:140-143 | An absent filter, a callback in the filter position or an empty text make select copy, update merge into and remove take every record. Remove then deletes the key. |
| `FilterCache.Cache.constructor` | index.js:11-13 | The cache starts with the always-true function under the empty text and is coherent. |
| `FilterCache.Cache.CompileAsWritten` | index.js:15-26 | As written: a hit returns the stored entry; a miss stores the function under the body text and returns it. |
| `FilterCache.Cache.CompileKeyed` | index.js:15-26 | Keyed by the looked-up text, the cache stays coherent and always returns what compiling from scratch gives. |
| `FilterCache.CacheCollision` | index.js:17-23 | As written, compiling `1` and then `return (1);` returns the function for `1` both times. Compiling `return (1);` from scratch differs. |
| `FilterCache.NoCollision` | index.js:17-23 | With the keyed cache the same two texts get their own compiled functions, which differ. |
| `Scenario.FirstByIndex` | test/main.js:38-41 | Under an engine that reads `__index==0` as "the index is 0", the filter `#==0` selects exactly the first record of any collection, and nothing from an empty one. |
| `Scenario.PeopleSession` | test/main.js:19-69 | From an empty file, the four selects before the update return Jim, including the one with a callback in the filter position. The update returns Kim. The select after it returns Kim, with the same name as `updated[0]`. The remove returns Kim, aged 27. The last select is empty and so is the document. |

## Left out

- Disk I/O is not modelled. That covers the constructor's existence check, first write and read (index.js:85-90) and `_save` (index.js:97-101). The constructor takes the parsed document as a parameter.
- The completion callbacks and `setImmediate` (index.js:119-123, 164-168, 196-200, 231-235) are asynchronous notification and are not modelled. The model returns the lists they would receive.
- The `factory` cache of store instances per file name (index.js:33-47) is process-wide plumbing and is not modelled.
- Running the filter code with `new Function` (index.js:23, 57) executes arbitrary JavaScript, so the `Runner` parameter stays abstract.
- `Filter.Match`: the model's `Runner` is a pure, deterministic function of the body, the record and the index. Filter code with side effects is not modelled. Code that assigns to `$` (say `($.seen = 1, false)`) changes stored records during select, update and remove, so that `Select` only reading the document and a non-match staying unchanged after `Update` do not hold for it. Code that reads a clock, a counter or other outside state is not a function of its arguments either.
- `Filter.Compile`: the store's operations compile through `Compile`, which has no cache and so behaves like the corrected cache `FilterCache.Cache.CompileKeyed`. The collision of index.js:17-23, where a text equal to an earlier body gets that earlier filter's function, is modelled only by `FilterCache.CacheCollision`, not inside `Storage`.
- Filter code that throws is not modelled. That includes a text that is not a JavaScript expression, whose SyntaxError `new Function` raises when the first record is tested (index.js:23, 57). In the source such an exception leaves earlier merges, or earlier `undefined` marks, in the stored array.
- Truthy filters that are neither strings nor functions (a number) and fail in `replace` are not modelled.
- Keys that name properties inherited from `Object.prototype` (`toString`, `__proto__`) are not modelled, in the document or in the compile cache. JavaScript reads those keys with inherited values.
- Aliasing is not modelled. `updated` holds references to the stored objects, merges share the patch's nested values, and an object inserted twice is one object. The model has values only.
- JavaScript numbers are modelled as integers. NaN, infinities and fractions are left out.
- `clone`'s fallback to `{}` when JSON serialization throws (index.js:70-72) cannot arise. Serialization throws on cyclic objects and on BigInt values, and this model's values have neither.
- Collections read from a file that are not arrays are not modelled: the document type only holds sequences.
- `Json.Mix`: mini-util's behaviour when the record or the patch is not an object is not part of this model. The model then leaves the record unchanged.
- `Store.Storage.Remove`: the source writes its marks into the stored array itself. The model marks a fresh array copied from the collection. Nothing can observe that difference, since filter code that throws is left out.
- `Store.Storage.Remove`: the model marks matches with a hole, not with `undefined` as index.js:149-155 do. A stored non-matching `undefined` record therefore survives in the model, while the source drops it and can delete the key (index.js:153-158). `Documents.RemoveAsWrittenAgrees` proves that both give the same document on every collection without `undefined` records.

## Findings

| source | as written | input that shows it | evidently intended | confidence | as-written member | corrected member |
|---|---|---|---|---|---|---|
| index.js:149-155 | Matches are marked by overwriting them with `undefined`, and compaction then drops every `undefined`, including records that were `undefined` before and did not match. | `insert('k', undefined)`, then `remove('k', 'false')`: nothing is removed, yet the key `k` is deleted. | Only the marked matches are dropped; the marker is a value no record can hold. | medium; not executed | `Documents.RemoveAsWrittenDropsUndefined` | `Documents.AfterRemove` |
| index.js:17-23 | The cache is looked up under the filter text but filled under the rewritten body text. | `compile('1')`, then `compile('return (1);')`: the second call returns the function for `1`, although compiling its text would give `return (return (1););`. | Entries are stored under the text they are looked up under. | medium; not executed | `FilterCache.CacheCollision` | `FilterCache.Cache.CompileKeyed` |
