# ducky-localize exporter, modelled in Dafny

ducky-localize exports localisation strings kept in a document store to
resource files: one merged JSON object per language for the web, one
Android `strings` XML file per language, and one iOS `.strings` file per
language. For every collection it picks the `en` and the `ua` document
(the `ua` output is labelled `uk`), checks that both have as many keys,
qualifies every key with the collection name (`greeting` + `hello` becomes
`greeting_hello`) and appends the entries to a running list per language.
Once every collection is counted, it builds the two artifacts.

The model covers that pipeline, from the documents of each collection to
the artifacts' contents:

- `documents.dfy` (module `Documents`): values with JavaScript truthiness,
  documents as ordered properties with distinct keys, property lookup, the
  object rest pattern that drops one key, and the decimal text of numbers.
- `matcher.dfy` (module `Matcher`): `getTargetLangDoc` (filter with abort,
  then the last match without its `lang`), the key-count parity check and
  the per-collection pairing; the `process.exit(1)` paths are the
  `Error` values `MissingLang`, `NoLangDoc` and `CountMismatch`.
- `flatten.dfy` (module `Flatten`): `removeId`, `getData` and the key
  qualification of the two text emitters.
- `json_merge.dfy` (module `JsonMerge`): the `reduce` with
  `{ ...acc, [key]: value }`: first position, last value.
- `emit.dfy` (module `Emit`): `join('\n')`, the Android and iOS lines, the
  per-collection chunks and the two files.
- `driver.dfy` (module `Driver`): the collection loop of the three
  converters as one method over the running `en`/`uk` lists, with the
  completion test `counter === collections.length` inside the loop, and
  the three converters that build the artifacts.
- `wrappers.dfy` (module `Wrappers`): `Option` and `Result`.

Behaviour worth knowing, all of it modelled as the code has it:

- The matcher stops at the first document without a truthy `lang`, even
  when another document is in the requested language; among several
  documents in that language the last one wins.
- The parity check compares key counts only. Documents with different
  key names pass (`CountOnlyParity`), and the count includes `_id`.
- Keys of two collections can collide after qualification (`a` + `b_c` and
  `a_b` + `c`); the JSON merge then keeps only the later value.
- Nothing is escaped: a `"` in a key or a `<` in a value goes into the XML
  as it is, and iOS values are neither quoted nor ended with `;`.
- A collection without documents is counted but contributes nothing. With
  no collection at all the completion test never runs, so no artifact is
  built (`Unfinished`).
- A document holding only `_id` and `lang` yields an empty chunk, which
  is an empty line in the Android and iOS files.

## Model

| member | source | states |
|---|---|---|
| `Documents.Get` | index.js:58-62 | `doc[k]` is defined exactly when the document has a property `k`, and then it is that property's value |
| `Documents.Without` | index.js:70-71 | the rest pattern removes key `k` and keeps every other key, so the size drops by one exactly when `k` was present |
| `Documents.WithoutSplit` | index.js:70-71 | the rest pattern keeps the other properties in their original order |
| `Documents.WithoutGet` | index.js:70-71 | the rest pattern keeps the values of the other keys |
| `Documents.WithoutAbsent` | index.js:52-54 | removing a key the document lacks changes nothing |
| `Documents.NatToDecimal` | index.js:144 | a number is written as decimal digits with no leading zero |
| `Documents.IntRoundTrip` | index.js:144 | the written form of an integer reads back as that integer |
| `Documents.Show` | index.js:191 | `${v}` writes a number so that it reads back as the same number |
| `Matcher.HasLang` | index.js:58 | the `!doc.lang` test: `lang` is present and truthy under JavaScript truthiness (a definition, used by the matcher's contracts) |
| `Matcher.IsLang` | index.js:62 | the `doc.lang === lang` test: `lang` is present and is the string `lang` (a definition, used by the matcher's contracts) |
| `Matcher.FilterLang` | index.js:57-63 | when the filter completes, every document it keeps has the requested `lang` |
| `Matcher.FilterLangFailure` | index.js:57-61 | the filter aborts exactly when some document has no truthy `lang`, and it reports the first such document |
| `Matcher.FilterLangSuccess` | index.js:57-63 | the filter's result is empty exactly when no document matches; otherwise its last element is the last matching document |
| `Matcher.GetTargetLangDoc` | index.js:56-72 | returns the last document in `lang` without its `lang` key. Fails with `MissingLang` exactly when some document lacks a truthy `lang`, reporting the first one. Fails with `NoLangDoc` exactly when all documents have a `lang` and none matches |
| `Matcher.GetLastMatch` | index.js:57-71 | when every document has a `lang`, the result is the last match with `lang` removed, wherever that match sits |
| `Matcher.CheckSameCount` | index.js:74-81 | passes exactly when the key counts are equal; a missing document counts as zero keys, and a failure reports the first document |
| `Matcher.SameKeysPass` | index.js:74-80 | two documents with the same key names always pass |
| `Matcher.CountOnlyParity` | index.js:75 | two documents with no key in common pass when their counts agree |
| `Matcher.PairDocs` | index.js:104-107 | on success, both documents have as many keys and no `lang`, and each is the last match for its language. A document without `lang` gives `MissingLang` |
| `Matcher.TargetFound` | index.js:56-71 | when every document has a `lang` and the last match is known, the matcher returns it without `lang`, one key shorter |
| `Matcher.PairDocsSucceeds` | index.js:104-107 | the step passes exactly when every document has a truthy `lang`, both `en` and `ua` have a last match, and those two documents have as many keys |
| `Matcher.PairDocsMissingLang` | index.js:57-61 | the step stops with `MissingLang` exactly when some document lacks a truthy `lang`, naming the collection and the first such document |
| `Matcher.PairDocsNoLangDoc` | index.js:65-68 | the step stops with `NoLangDoc` exactly when every document has a `lang` but `en` or `ua` has no document; the error carries the collection and all its documents |
| `Matcher.PairDocsCountMismatch` | index.js:74-80 | the step stops with `CountMismatch` exactly when both languages are found but their last documents differ in key count; the error carries the `en` document without `lang` |
| `Flatten.GetData` | index.js:109-111 | at most one entry per property; every key carries the `collection_` prefix, and no entry comes from `_id` |
| `Flatten.Qualify` | index.js:143-144 | one entry per property, each key prefixed with `collection_` |
| `Flatten.RemoveId` | index.js:52-54 | the result has no `_id`, keeps every other key, and has one key fewer exactly when `_id` was there |
| `Flatten.QualifyAt` | index.js:143-144 | there is one entry per property, and entry `i` is property `i` under the key `collection_key` |
| `Flatten.UnqualifyQualify` | index.js:143-144 | stripping `collection_` from the qualified keys gives back the document |
| `Flatten.GetDataIsQualifiedRemoveId` | index.js:109-111 | `getData` equals qualifying `removeId(doc)`, so the JSON and text paths see the same entries |
| `Flatten.QualifyDistinct` | index.js:109-111 | within one collection, qualified keys are pairwise distinct |
| `Flatten.GetDataSize` | index.js:109-111 | `getData` yields one entry per key other than `_id`, and its keys are distinct |
| `JsonMerge.Put` | index.js:126 | the spread keeps every existing key in its place; a new key is appended last with its value, an existing one keeps the size |
| `JsonMerge.Merge` | index.js:125-128 | the merged object has at most one property per entry, and none exactly when there is no entry |
| `JsonMerge.PutGet` | index.js:126 | after `{ ...acc, [key]: value }`, `key` reads `value` and every other key reads what it read before |
| `JsonMerge.MergeKeys` | index.js:125-128 | the merged object has exactly the keys of the entries |
| `JsonMerge.MergeLastWins` | index.js:125-128 | each key's merged value comes from its last entry |
| `JsonMerge.MergeOrder` | index.js:125-128 | merged keys are ordered by their first occurrence among the entries |
| `JsonMerge.MergeDistinct` | index.js:125-128 | entries with distinct keys come out unchanged |
| `JsonMerge.MergeFlattened` | index.js:109-128 | merging one flattened document gives the flattened entries back |
| `JsonMerge.QualifiedKeysCollide` | index.js:110 | `a`/`b_c` and `a_b`/`c` produce the same key, and the merge keeps only the later value |
| `Emit.JoinLines` | index.js:145 | the join starts with the first part, a newline follows it when more parts come, and it is empty only for no parts or one empty part |
| `Emit.JoinLinesAppend` | index.js:145 | joining two non-empty lists puts exactly one newline between their joins |
| `Emit.SplitJoinLines` | index.js:145 | lines containing no newline come back when the join is split |
| `Emit.JoinLinesFlatten` | index.js:170-176 | joining non-empty per-collection chunks equals joining all their lines, so the file does not mark where a collection ends |
| `Emit.ConvertToXml` | index.js:142-146 | a collection's Android chunk is empty exactly when the document has no property left, and otherwise opens with `<string name="collection_` |
| `Emit.ConvertToIos` | index.js:189-193 | a collection's iOS chunk is empty exactly when the document has no property left, and otherwise opens with `"collection_` |
| `Emit.ChunkLines` | index.js:142-146 | a collection's chunk has one line per property, in document order, each built from the qualified key and the value |
| `Emit.XmlLineRoundTrip` | index.js:144 | an Android line is `<string name="` key `">` value `</string>`, and both parts can be read back when the key has no `"` |
| `Emit.IosLineRoundTrip` | index.js:191 | an iOS line is `"` key `" = ` raw value, with nothing after the value, and both parts can be read back when the key has no `"` |
| `Emit.AndroidFile` | index.js:170-176 | the Android file opens with the XML prolog and `<resources>` and ends with `</resources>` |
| `Emit.IosFile` | index.js:217-222 | the iOS file opens with the header comment holding the timestamp, and is only that header exactly when there are no chunks |
| `Emit.AndroidFileShape` | index.js:170-176 | the Android file is the fixed prolog, a newline, the chunks one per line, a newline, then `</resources>` after its blank lines |
| `Emit.IosFileShape` | index.js:217-222 | the iOS file is the header comment holding the timestamp, then the chunks, each after a newline |
| `Emit.GreetingXml` | index.js:142-146 | a `greeting` document with `hello: "Hi"` gives exactly `<string name="greeting_hello">Hi</string>` |
| `Driver.Collect` | index.js:102-122 | the content lists after the collections in order (a definition; `CollectSucceeds`, `CollectFirstError` and `CollectSkipsEmpty` state its properties) |
| `Driver.Step` | index.js:103-122 | one collection's turn: an earlier exit stays the exit, and the content gathered so far is only appended to |
| `Driver.Outcome` | index.js:124 | with no collections the completion test never runs; otherwise the run is written exactly when every collection passed |
| `Driver.Gather` | index.js:98-124 | the loop returns `Outcome(cols, chunk)`: the content lists of every collection, or the first collection's error, or no completion when there are no collections |
| `Driver.CollectFailureSticks` | index.js:58-60 | once a collection fails, the whole run fails with that error |
| `Driver.CollectSucceeds` | index.js:102-122 | a run completes exactly when every collection with documents passes matching and parity |
| `Driver.CollectFirstError` | index.js:102-122 | a failed run reports the error of the first failing collection |
| `Driver.MissingLangAborts` | index.js:57-61 | a document without `lang` in any collection aborts the run, and no artifact is built |
| `Driver.CollectSkipsEmpty` | index.js:104-122 | collections without documents leave the content lists unchanged |
| `Driver.OneChunkPerCollection` | index.js:156-167 | with one chunk per document (Android, iOS), each language gets exactly one chunk per collection that has documents |
| `Driver.AndroidChunkPerCollection` | index.js:162-163 | a completed Android run holds exactly one chunk per collection with documents, in each language |
| `Driver.JsChunk` | index.js:113-114 | the web exporter appends one entry per key other than `_id`, with distinct keys |
| `Driver.AndroidChunk` | index.js:162-163 | the Android exporter appends one chunk per document, empty exactly when the document has nothing but `_id` left |
| `Driver.IosChunk` | index.js:209-210 | the iOS exporter appends one chunk per document, empty exactly when the document has nothing but `_id` left |
| `Driver.GreetingEntries` | index.js:102-114 | a `greeting` collection with `hello` in `en` and `ua` yields the entry `greeting_hello` in both languages |
| `Driver.ConvertJs` | index.js:83-138 | builds `localization-en.json` and `localization-uk.json` from the merged entry lists, aborts with the run's error, and builds nothing for zero collections |
| `Driver.ConvertAndroid` | index.js:140-185 | builds `localization-en.xml` and `localization-uk.xml` from the Android file of each language's chunks, with the same error and zero-collection behaviour |
| `Driver.ConvertIos` | index.js:187-231 | builds `Localizable_EN.strings` and `Localizable_UK.strings` from the iOS file of each language's chunks, with the same error and zero-collection behaviour |

## Left out

- Store access (connecting, choosing the `web` or `app` database, `listCollections` and `find`, index.js:16-23, 103) is not modelled: the input is the list of collections with their documents, in listing order.
- Writing files and the console output (index.js:92-96, 130-133, 176-180, 222-226) are not modelled: a converter returns each artifact's path and content.
- The concurrent `forEach` is modelled as a sequential loop in listing order. In the source, collections complete in any order, so entries and chunks can be appended in a different order, and when several collections fail, the error reported is that of whichever failing collection completes first. `Driver.CollectFirstError`'s "first failing collection" holds only in listing order.
- The environment checks for `DB_PASSWORD` and `PLATFORM`, the platform dispatch and the final `process.exit(0)` (index.js:4-14, 19-44) are configuration plumbing and are not modelled. The code tests `PLATFORM === 'js'` for the web exporter.
- `Driver.ConvertJs`: the artifact is the merged ordered object, not the text that `JSON.stringify(..., null, 2)` prints (layout and string escaping are not modelled).
- The iOS header's timestamp, `new Date().toJSON()`, is a parameter.
- `Object.keys` puts integer-like keys first in ascending order. This is not modelled: documents keep the order in which they are given.
- Values are strings, integers, booleans, null and object identifiers. Floating-point numbers and nested objects or arrays are not modelled, nor how a template literal writes them.
- `Documents.Show`: numbers are integers of magnitude below 10^21 (`JsInteger`), the range `${n}` writes in plain decimal; larger ones, which it writes as `1e+21` and so on, are not modelled. Inside that range, integers above 2^53 that a double cannot hold exactly are admitted as they are, while the store would hand over the nearest double.
- The unused `sleep` (index.js:46-50) and the commented-out per-collection writer (index.js:85-90, 116-118) are not modelled.
- `Unframe`, the reader used by the two line round-trip lemmas, is not part of the source. It exists only to state what a line contains.
