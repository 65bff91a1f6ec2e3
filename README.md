# mauved: object store and Raft storage, modelled in Dafny

mauved keeps named *collections* of objects in one sled database. A
collection `c` is four sled trees:

- `mauve_data::c` holds the object bytes, keyed by object name;
- `mauve_meta::c` holds each object's bincode-encoded metadata;
- `mauve_fwd::c` and `mauve_rev::c` are label indexes.

The label indexes map `name=value` (forward) and `value=name` (reverse) to a
list of object references. A background indexer keeps them up to date. When
a collection is opened, the backend sends the indexer a `Watch` signal. The
indexer then starts a per-collection task, which turns each change to the
data tree into upserts or downserts on both indexes.

On top of the store sit:

- the HTTP object routes (head, get, post, put, delete);
- label search: include and exclude labels, looked up in the forward index;
- label queries: fields that run concurrently and are combined as they complete.

The cluster crate adds Raft storage:

- an in-memory log store (an ordered map from log index to entry, plus the
  last purged id, the committed id and the vote);
- a state machine that applies committed entries to the object store and
  builds snapshots.

The model is imperative where the code is:

- sled trees, the database, the backend, the indexer, search and query
  requests, the log store and the state machine are classes whose fields
  the methods update;
- each method is proved against a specification function or states its new
  state outright;
- index maintenance, error conversion, label parsing, UTF-8 and the combine
  step of a query are functions and lemmas.

The database's contents, `Sled.Db.View`, map each tree name to that tree's
entries. What a request does to the store is a function on contents,
`StateMachine.ViewAfter`, and the methods that carry requests out are proved
to change the contents exactly so. The trees a database has handed out form
its footprint `Sled.Db.Repr`, which the methods that write to trees name in
their `modifies` clauses.

Serialisation (bincode, CBOR, serde_json) enters as a pair of functions
handed in by the caller (`Codecs.Codec`). Where a property needs decoding to
undo encoding, it says so with `Codecs.RoundTrips`.

### Where the model follows the code rather than its evident intent

- **`downsert` drops any one-element list.** When the list stored under a
  label has one element, the label is removed whatever that element is
  (backend/src/indexer.rs:296-300). So removing object A also forgets a
  label that lists only B (`Indexer.DownsertDropsOtherObject`). A list
  holding the object twice keeps its key with an empty list
  (`Indexer.DownsertKeepsEmptyList`).
- **`upsert` does not deduplicate** (`Indexer.UpsertTwice`).
- **Posted payloads over the size limit are cut short, not refused.**
  `into_bytes` stops at the limit and the handler stores what it read
  (`ObjectsApi.Capped`).
- **`Unwatch` never removes a name from the indexer's `watching` map**
  (backend/src/indexer.rs:116-124). A collection that is deleted and
  created again is not given a new indexing task.
- **`run` drains its channel before it starts listening**
  (backend/src/indexer.rs:82-84). A `Watch` sent before `run` starts is
  dropped unhandled, so a collection opened then gets no indexing task from
  it (`Indexer.Indexer.Run`, whose first `queued` signals are drained).
- **A failed decode in `upsert` and `downsert` is a sled storage error.** The
  decoder's message is wrapped as a sled `ReportableBug` and printed the way
  sled prints that, `Unexpected bug has happened: <message>. PLEASE REPORT
  THIS BUG!` (`BackendErrors.TxStorageError`).
- **Search reads the index with a different codec from the one that wrote
  it.** The indexer writes the lists with bincode. `search_label` reads them
  with `from_object`, which is the CBOR decoder of the `MauveObject` derive.
  The model keeps the two codecs separate. `Search.InsertThenSearchFinds`
  needs them to be the same codec. `Search.UnreadableIndexFindsNothing`
  shows that a search finds nothing when no stored list decodes.
- **Missing metadata is taken to be `ObjectNotFound`.** The bodies of
  `get_object_metadata` and `put_object_metadata` are not part of this
  model's source.
- **Object and collection names with upper-case letters.** The indexer
  stores references built with `ObjectRef::new`, which lowers both names.
  The HTTP routes use the names as given.
- **`apply` builds `Response` variants with a `path` field, and an `Empty`
  one.** The declaration in cluster/src/lib.rs has neither.
  `RaftTypes.Response` follows `apply`.
- **cluster/src/storage.rs repeats the log store operations** (lines
  130-206) with the same bodies as cluster/src/log_store/ops.rs. The model
  has one `LogStore.LogStoreInner` for both copies.
- **`purge`'s `assert!` is a precondition.** The id being purged must not
  be before the last purged one (`LogStore.LogStoreInner.Purge`).
- **The collection struct.** backend/src/collection.rs wraps a single
  `inner` tree. backend/src/backend.rs builds the collection with four named
  trees, and the model follows backend.rs. Objects live in the data tree.

## Model

| member | source | states |
|---|---|---|
| Labels.New | backend/src/labels.rs:16-21 | both parts are ASCII lower-case and equal the given ones up to ASCII case |
| Labels.ToFwd | backend/src/labels.rs:24-26 | `name=value`: the `=` sits right after the name, and splitting at the first `=` gives the two parts back when the name has no `=` |
| Labels.ToRev | backend/src/labels.rs:29-31 | `value=name`, with the same split-back property for the value |
| Labels.Display | backend/src/labels.rs:34-38 | a label prints as its forward string |
| Labels.FromStr | backend/src/labels.rs:43-48 | fails with `InvalidLabel(s)` exactly when `s` has no `=`; otherwise both parts are lower-case and the name has no `=` |
| Labels.ParseForward | backend/src/labels.rs:43-48 | parsing the forward string of a label gives that label back |
| Labels.ForwardOfParse | backend/src/labels.rs:43-48 | printing a parsed label gives the input lower-cased |
| Labels.NewIdempotent | backend/src/labels.rs:16-21 | building a label from a built label changes nothing |
| Meta.Terminated | backend/src/meta.rs:21-24 | the comma-terminated concatenation ends in a comma whenever there is a label |
| Meta.LabelStr | backend/src/meta.rs:19-26 | the loop produces the terminated string with the trailing commas trimmed |
| Meta.LabelStrShape | backend/src/meta.rs:25 | no labels give the empty string, and the result never ends in a comma |
| Meta.TerminatedIsJoined | backend/src/meta.rs:21-24 | the terminated string is the comma-joined labels plus one comma |
| Meta.TrimLastComma | backend/src/meta.rs:25 | trimming commas after adding one is trimming without it |
| Meta.LabelStrIsJoin | backend/src/meta.rs:19-26 | when no forward string ends in a comma, the label string is the comma-joined forward strings |
| Meta.JoinedEndsWithLast | backend/src/meta.rs:19-26 | the joined string ends with the last label's last character |
| Meta.LabelStrSingle | backend/src/meta.rs:19-26 | one label whose value does not end in a comma prints as its forward string |
| Meta.LabelStrDropsTrailingCommas | backend/src/meta.rs:25 | a value ending in a comma loses that comma in the label string |
| Objects.New | backend/src/objects.rs:18-23 | collection and name become ASCII lower-case and are otherwise unchanged |
| Objects.Display | backend/src/objects.rs:26-30 | `collection/name`; splitting at the first `/` gives the parts back when the collection has no `/` |
| Objects.LessStrictTotal | backend/src/objects.rs:11-15 | the derived order (collection, then name) is a strict total order |
| Objects.TryFromKeys | backend/src/objects.rs:35-39 | succeeds exactly when both keys are UTF-8, and then the names encode back to the keys; otherwise the first invalid key's UTF-8 error |
| Objects.TryFromEncoded | backend/src/objects.rs:35-39 | the keys of a reference convert back to that reference |
| Objects.NewLowersName | backend/src/objects.rs:18-23 | a name with an upper-case letter does not survive `new` unchanged |
| Objects.IntoIter | backend/src/objects.rs:56-58 | iterating a reference list yields its elements in order |
| BackendErrors.IntoServe | backend/src/errors.rs:65-87 | 409 (RFC 9110 section 15.5.10) exactly for an existing object without `replace`, 404 (section 15.5.5) exactly for a missing object, 418 (RFC 2324 section 2.3.2) exactly for `Oops`, 500 (RFC 9110 section 15.6.1) for all else, never 200 |
| BackendErrors.ServeMessageIsPayload | backend/src/errors.rs:11-45 | for every variant other than the collection and label errors, the response text is a proper suffix of the `Display` text: the message without its prefix |
| BackendErrors.IntoTransactionError | backend/src/errors.rs:89-93 | an abort whose reportable bug is the error's `Display` text |
| Http.Code | backend/src/errors.rs:65-87 | the numeric status is in 200..599; it is 2xx exactly for 200 (RFC 9110 section 15.3.1) and 5xx exactly for 500 |
| Http.CodeInjective | backend/src/errors.rs:65-87 | different statuses have different codes |
| ServerErrors.IntoServe | src/errors.rs:35-49 | the same status rules as the backend crate, for the variants this crate has |
| ServerErrors.AgreesWithBackend | src/errors.rs:35-49 | both crates answer every error of the older enum with the same status and text |
| ServerErrors.CollectionTextAgrees | src/errors.rs:63-72 | both crates print the collection errors alike |
| Wrappers.Lookup | backend/src/collection.rs:48-52 | `Some` exactly when the key is present, with its value |
| Sled.KeyLessStrictTotal | backend/src/collection.rs:22 | sled's byte-lexicographic key order is a strict total order |
| Sled.Tree.constructor | backend/src/backend.rs:47 | a new tree is empty |
| Sled.Tree.Get | backend/src/collection.rs:48 | the value under the key, or `None` exactly when absent |
| Sled.Tree.ContainsKey | backend/src/collection.rs:43 | true exactly when the key is present |
| Sled.Tree.Insert | backend/src/collection.rs:85 | stores the value and returns the previous one |
| Sled.Tree.Remove | backend/src/collection.rs:92 | drops the key and returns the previous value |
| Sled.Tree.ScanPrefix | backend/src/collection.rs:22 | exactly the entries whose key starts with the prefix, in strictly ascending key order |
| Sled.Db.constructor | backend/src/backend.rs:22 | a new database has no trees |
| Sled.Db.OpenTree | backend/src/backend.rs:47-50 | the existing tree of that name, or a fresh empty one recorded under it; the contents gain the name with its old contents, every other tree as it was |
| Sled.Db.DropTree | backend/src/backend.rs:83-86 | forgets the name and its contents, every other tree as it was; reports whether it existed |
| Sled.Db.TreeNames | backend/src/backend.rs:65 | every tree name exactly once |
| Collections.Collection.ListObjects | backend/src/collection.rs:18-39 | exactly the stored names that start with the prefix, in ascending key order; non-UTF-8 keys are skipped |
| Collections.Collection.HeadObject | backend/src/collection.rs:42-44 | true exactly when the object is stored |
| Collections.Collection.GetObject | backend/src/collection.rs:47-58 | the stored bytes, or `ObjectNotFound` exactly when absent |
| Collections.Collection.PutObject | backend/src/collection.rs:66-87 | an existing object without `replace` is refused and nothing changes; otherwise the bytes are stored and the name returned |
| Collections.Collection.DeleteObject | backend/src/collection.rs:91-97 | the key is removed and the old bytes returned, `None` when there were none |
| Collections.Collection.GetObjectMetadata | backend/src/api/objects.rs:63 | the decoded metadata under the object's key, `ObjectNotFound` when absent, the codec's error otherwise |
| Collections.Collection.PutObjectMetadata | backend/src/api/objects.rs:104-106 | the metadata tree gains the encoded metadata under the object's key |
| Collections.Utf8NamesMember | backend/src/collection.rs:22-38 | a name is listed exactly when its UTF-8 key was scanned |
| Collections.Utf8NamesAscending | backend/src/collection.rs:22-38 | keys scanned in order give names in key order |
| Backends.TreeNameInjective | backend/src/backend.rs:47-50 | two tree names are equal exactly when both the kind and the collection name are |
| Backends.TreeNamesDistinct | backend/src/backend.rs:47-50 | a collection's four trees have four different names |
| Backends.MetaCollectionOf | backend/src/backend.rs:66-75 | a tree name yields collection `s` exactly when it is `mauve_meta::s` |
| Backends.CollectionNamesMember | backend/src/backend.rs:63-78 | a collection is listed exactly when its metadata tree exists |
| Backends.CollectionNamesDistinct | backend/src/backend.rs:63-78 | distinct tree names give a duplicate-free collection list |
| Backends.OpenedKeeps | backend/src/backend.rs:46-57 | opening a collection creates its four trees with their old contents (empty when missing) and leaves every other tree as it was |
| Backends.OpenedIdempotent | backend/src/backend.rs:47-50 | opening a collection whose four trees exist changes nothing |
| Backends.OpenedSteps | backend/src/backend.rs:47-50 | the four `open_tree` calls, one after the other, open the collection |
| Backends.OpenedThenDropped | backend/src/backend.rs:81-86 | dropping the trees of a collection just opened leaves exactly the contents outside the collection |
| Backends.Backend.constructor | backend/src/backend.rs:20-43 | the backend over the database, with no signal sent yet |
| Backends.Backend.OpenCollection | backend/src/backend.rs:47-57 | the four trees of the name, each an existing tree or a fresh one; the database's contents become `Opened` of the old ones |
| Backends.Backend.GetCollection | backend/src/backend.rs:46-60 | the four trees hold their old contents; the database's contents are `Opened` of the old ones, so no other tree changes; exactly one `Watch` for the collection is queued |
| Backends.Backend.ListCollections | backend/src/backend.rs:63-78 | every collection with a metadata tree, each once |
| Backends.Backend.DropCollection | backend/src/backend.rs:83-86 | exactly the four trees of the name are gone, from the names and from the contents |
| Backends.Backend.DeleteCollection | backend/src/backend.rs:81-88 | the contents lose exactly the collection's four trees, every other tree as it was; a `Watch` then an `Unwatch` for the collection are queued; the name is returned |
| Indexer.Without | backend/src/indexer.rs:301 | keeps exactly the other references, never lengthens the list, and changes nothing when the reference is absent |
| Indexer.WithoutAppend | backend/src/indexer.rs:301 | removal works piece by piece, so the other references keep their order |
| Indexer.UpsertEntries | backend/src/indexer.rs:239-275 | fails exactly when the stored list does not decode, with the decoder's message as a sled storage error; otherwise only the label's key changes, and its list gains the reference at the end |
| Indexer.DownsertEntries | backend/src/indexer.rs:281-315 | fails exactly when the list does not decode, with the decoder's message as a sled storage error; an absent label changes nothing; a one-element list loses its key; a longer list loses every occurrence of the reference; other keys never change |
| Indexer.DownsertDropsOtherObject | backend/src/indexer.rs:296-300 | a label whose only reference is another object is removed anyway |
| Indexer.DownsertKeepsEmptyList | backend/src/indexer.rs:296-307 | a label listing the object twice keeps its key with an empty list |
| Indexer.UpsertTwice | backend/src/indexer.rs:247-254 | indexing the same object twice lists it twice |
| Indexer.UpsertKeeps | backend/src/indexer.rs:245-272 | on a decodable tree an upsert succeeds, keeps the tree decodable and loses no reference |
| Indexer.UpsertAllIndexes | backend/src/indexer.rs:213-216 | indexing all labels never fails; afterwards every label lists the object forward and reverse, and no earlier reference is lost |
| Indexer.EventWithoutMetadata | backend/src/indexer.rs:207-224 | without metadata for the object, an event changes no index and no metadata |
| Indexer.InsertEventIndexes | backend/src/indexer.rs:204-217 | after an insert with decodable metadata, every label of the object lists it in both indexes, and the metadata is kept |
| Indexer.RemoveEventDropsMetadata | backend/src/indexer.rs:218-224 | a remove event drops the object's metadata entry |
| Indexer.DownsertRemoves | backend/src/indexer.rs:281-315 | on a decodable tree a downsert succeeds, keeps the tree decodable, leaves the object out of the label's list and adds no reference |
| Indexer.DownsertAllUnindexes | backend/src/indexer.rs:226-229 | unindexing all labels never fails; afterwards no label lists the object forward or reverse, and no reference was added |
| Indexer.RemoveEventUnindexes | backend/src/indexer.rs:218-229 | after a remove with decodable metadata, the metadata entry is gone and no label of the object lists it in either index |
| Indexer.AfterSignalsKeys | backend/src/indexer.rs:100-124 | handling signals adds exactly the names asked to be watched to the watched map |
| Indexer.AfterSignalsForwards | backend/src/indexer.rs:116-124 | a watched collection gets every later `Unwatch` for it forwarded, in order, after what it had |
| Indexer.AfterSignalsStarted | backend/src/indexer.rs:100-115 | earlier tasks are kept; exactly one new task per newly watched collection, none for a collection already watched |
| Indexer.CollectionIndexer.Upsert | backend/src/indexer.rs:239-275 | the tree becomes what `UpsertEntries` specifies, or stays as it was with that error |
| Indexer.CollectionIndexer.Downsert | backend/src/indexer.rs:281-315 | the tree becomes what `DownsertEntries` specifies, or stays as it was with that error |
| Indexer.CollectionIndexer.ProcessEvent | backend/src/indexer.rs:202-233 | the metadata and both index trees and the result are what `EventSpec` specifies |
| Indexer.Indexer.constructor | backend/src/indexer.rs:39-74 | every listed collection is watched, with nothing forwarded yet; no task started by `run` |
| Indexer.Indexer.Handle | backend/src/indexer.rs:98-139 | a new `Watch` records the name and starts one task; a repeated one changes nothing; an `Unwatch` for a watched name is forwarded to its task; `Shutdown` stops the loop; nothing else changes |
| Indexer.Indexer.Run | backend/src/indexer.rs:77-143 | drops the signals already queued, then handles the rest in order up to and including the first `Shutdown`; the watched map and the started tasks are the fold of `Handle`'s effect over exactly the handled signals, and the watched names grow by exactly the names asked to be watched |
| ObjectsApi.Capped | backend/src/api/objects.rs:93-98 | at most the limit, a prefix of the payload, and the whole payload when it fits |
| ObjectsApi.HeadObject | backend/src/api/objects.rs:29-39 | 200 when the object is stored, 404 when not; one `Watch` queued; the contents become `Opened` of the old ones: the collection's four trees exist afterwards (created empty when missing), with their old entries, and no other tree changes |
| ObjectsApi.GetObject | backend/src/api/objects.rs:56-65 | the object with its decoded metadata, 404 when either is missing, the codec's error as 500; one `Watch` queued; the contents become `Opened` of the old ones: the collection's four trees exist afterwards (created empty when missing), with their old entries, and no other tree changes |
| ObjectsApi.GetIn | backend/src/api/objects.rs:62-64 | on the open collection: the object with its decoded metadata, 404 when either is missing, the codec's error as 500 |
| ObjectsApi.StoreObject | backend/src/api/objects.rs:92-108 | an existing object without `replace` gets 409 and nothing changes; otherwise the capped payload and the encoded metadata are stored and the name returned; the index trees and other collections' trees never change; the collection's four trees exist afterwards |
| ObjectsApi.PostObject | backend/src/api/objects.rs:84-109 | 409 with the conflict text for an existing object; otherwise stores the object and its metadata; the index trees and other collections' trees are unchanged; the collection's four trees exist afterwards |
| ObjectsApi.PutObject | backend/src/api/objects.rs:126-151 | always stores the capped payload and metadata and answers the name; the index trees and other collections' trees are unchanged; the collection's four trees exist afterwards |
| ObjectsApi.DeleteObject | backend/src/api/objects.rs:168-181 | removes the object and returns its bytes, 404 when there was none; the collection's other trees and other collections' trees are unchanged; the collection's four trees exist afterwards |
| Search.SearchRequest.constructor | backend/src/search/mod.rs:30-35 | the named collection with no labels |
| Search.SearchRequest.AddInclude | backend/src/search/mod.rs:37-39 | one `Include` appended at the end |
| Search.SearchRequest.AddExclude | backend/src/search/mod.rs:41-43 | one `Exclude` appended at the end |
| Search.SearchRequest.AddIncludes | backend/src/search/mod.rs:45-49 | every label appended as `Include`, in order |
| Search.SearchRequest.AddExcludes | backend/src/search/mod.rs:51-55 | every label appended as `Exclude`, in order |
| Search.SearchResponse.constructor | backend/src/search/mod.rs:80-85 | the request, not executed yet |
| Search.SearchResponse.SetOk | backend/src/search/mod.rs:87-89 | the result becomes the objects |
| Search.SearchResponse.SetErr | backend/src/search/mod.rs:91-93 | the result becomes the error |
| Search.RefSet.constructor | backend/src/search/search.rs:18-19 | an empty shared set |
| Search.RefSet.Insert | backend/src/search/search.rs:71 | the set gains the reference |
| Search.GatheredMember | backend/src/search/search.rs:21-44 | a reference is gathered exactly when some label of that kind lists it |
| Search.MatchesMember | backend/src/search/search.rs:41-45 | a reference matches exactly when an included label lists it and no excluded label does |
| Search.MatchesOrderIndependent | backend/src/search/search.rs:21-35 | the answer depends only on which labels are asked for, not on order or repetition |
| Search.UnreadableIndexFindsNothing | backend/src/search/search.rs:66-68 | when no stored list decodes with the search's codec, nothing is found |
| Search.InsertThenSearchFinds | backend/src/search/search.rs:61-78 | after the indexer handles an insert, searching for one of its labels finds the object, given the same codec |
| Search.SearchLabelInto | backend/src/search/search.rs:61-78 | 0 for an absent key; otherwise the decoded list's length or the decoder's error; the target gains exactly the listed references |
| Search.GatherMatches | backend/src/search/search.rs:21-45 | the included set less the excluded set, whatever any label found |
| Search.FetchMetadata | backend/src/search/search.rs:49-53 | succeeds exactly when every match has metadata; then each match once, with its metadata; otherwise some match's error |
| Search.PerformSearch | backend/src/search/search.rs:15-57 | one `Watch` queued; the response is that of `Search.SearchIn` on the collection's old index and metadata; the contents become `Opened` of the old ones: the collection's four trees exist afterwards (created empty when missing), with their old entries, and no other tree changes |
| Search.SearchIn | backend/src/search/search.rs:18-56 | the response lists each match of the forward index once with its metadata; it is an error exactly when some match's metadata is, and then that match's error |
| Query.Given | backend/src/query/request.rs:40-50 | `None` exactly for the empty string, otherwise the string |
| Query.IncludeField | backend/src/query/request.rs:39-53 | an including field whose name and value are present exactly when non-empty |
| Query.ExcludeField | backend/src/query/request.rs:55-69 | an excluding field whose name and value are present exactly when non-empty |
| Query.RunField | backend/src/query/request.rs:71-79 | the field itself, and lookup, prefix or suffix as its name and value select; `Derp` with neither |
| Query.Range | backend/src/query/request.rs:136 | the indices below `n`, `n` of them |
| Query.Absorb | backend/src/query/request.rs:146-161 | folding one more completed field keeps the gathered sets and errors equal to what the completed fields found |
| Query.ErrorsKept | backend/src/query/request.rs:147-159 | a successful field adds no error |
| Query.ErrorsAdded | backend/src/query/request.rs:160 | a failed field adds exactly its one error |
| Query.QueryRequest.constructor | backend/src/query/request.rs:111-117 | no fields, the given timeout |
| Query.QueryRequest.AppendField | backend/src/query/request.rs:119-121 | one field appended at the end |
| Query.QueryRequest.RunInner | backend/src/query/request.rs:130-175 | with a positive bound, the objects found by a successful including field and no successful excluding one, ascending, and every failure once; with bound 0, an empty answer |
| Query.QueryRequest.Run | backend/src/query/request.rs:123-128 | `Timeout(timeoutSecs)` when not finished in time, otherwise the combined answer |
| Query.RunFields | backend/src/query/request.rs:146-166 | after every field has completed, in any order, the sets and errors are what all fields found |
| Query.ProgressStart | backend/src/query/request.rs:132-134 | before any field completes, nothing is gathered |
| Query.ProgressDone | backend/src/query/request.rs:146-166 | a whole completion order completes every field |
| Query.CompletionOrderIrrelevant | backend/src/query/request.rs:146-174 | any two completion orders give the same objects in the same order, and the same errors |
| Query.Finished | backend/src/query/request.rs:168-174 | the final retain and the ascending listing give the combined answer |
| Query.FoundByStep | backend/src/query/request.rs:148-158 | a completed field adds what it found to its own operation's objects only |
| Query.FailedAmongStep | backend/src/query/request.rs:160 | a completed field counts as one more failure exactly when it failed |
| Query.FillAsWrittenSpins | backend/src/query/request.rs:139-144 | with fewer fields than the bound, the window-filling loop as written never stops |
| Query.OneFieldQueryHangs | backend/src/query/request.rs:139-144 | a one-field query under the default bound of 16 never leaves that loop |
| Query.FillAsWrittenStops | backend/src/query/request.rs:139-144 | with enough fields, the loop as written stops with the window full |
| Query.FillWindow | backend/src/query/request.rs:139-144 | the corrected loop starts as many fields as the bound allows, or all fields when fewer |
| LogStore.MaxKey | cluster/src/log_store/ops.rs:32-36 | the greatest index, where `next_back` lands |
| LogStore.MinKey | cluster/src/log_store/mod.rs:116-117 | the least index, where a hole-free log starts |
| LogStore.LastAt | cluster/src/log_store/ops.rs:75-77 | the last appended entry with that index, `None` exactly when there is none |
| LogStore.LogStoreInner.constructor | cluster/src/log_store/mod.rs:24-33 | an empty log, nothing purged, committed or voted |
| LogStore.LogStoreInner.TryGetLogEntries | cluster/src/log_store/ops.rs:15-29 | exactly the stored entries whose index is in the range, in ascending index order |
| LogStore.LogStoreInner.GetLogState | cluster/src/log_store/ops.rs:31-47 | the last purged id, and the id of the entry with the greatest index, or the last purged id when the log is empty |
| LogStore.LogStoreInner.SaveCommitted | cluster/src/log_store/ops.rs:49-55 | records the committed id and nothing else |
| LogStore.LogStoreInner.ReadCommitted | cluster/src/log_store/ops.rs:57-59 | the last saved committed id |
| LogStore.LogStoreInner.SaveVote | cluster/src/log_store/ops.rs:61-64 | records the vote and nothing else |
| LogStore.LogStoreInner.ReadVote | cluster/src/log_store/ops.rs:66-68 | the last saved vote |
| LogStore.LogStoreInner.Append | cluster/src/log_store/ops.rs:70-80 | every entry inserted under its index, in order; entries stay keyed by their index |
| LogStore.LogStoreInner.Truncate | cluster/src/log_store/ops.rs:82-93 | exactly the entries from the index on are removed |
| LogStore.LogStoreInner.Purge | cluster/src/log_store/ops.rs:95-110 | the purged id moves forward to `id`, and exactly the entries up to its index are removed |
| LogStore.AfterAppendKeyed | cluster/src/log_store/ops.rs:75-77 | appending keeps every entry under its own index |
| LogStore.AfterAppendLookup | cluster/src/log_store/ops.rs:75-77 | an index holds the last appended entry with that index, and any other index what it held before |
| LogStore.AppendedReadable | cluster/src/log_store/mod.rs:109-110 | with distinct indices, every appended entry is readable under its index when `append` returns |
| LogStore.AppendNextKeepsHoleFree | cluster/src/log_store/mod.rs:116-117 | entries numbered on from the end keep the log free of holes, and the last one becomes the greatest index |
| LogStore.TruncateKeepsHoleFree | cluster/src/log_store/mod.rs:131-135 | truncating cannot open a hole |
| LogStore.PurgeKeepsHoleFree | cluster/src/log_store/mod.rs:141-145 | purging cannot open a hole |
| RaftTypes.OptLeTotalOrder | cluster/src/log_store/ops.rs:97 | the order on optional log ids (`None` first) is a total order |
| Ints.WrappingAdd | cluster/src/state_machine/snapshot.rs:28 | the sum, less 2^64 when it overflows |
| StateMachine.RequestResponse | cluster/src/state_machine/machine.rs:75-90 | every request answers with a non-empty response |
| StateMachine.ResponseFor | cluster/src/state_machine/machine.rs:73-95 | the response is `Empty` exactly for blank and membership entries |
| StateMachine.PutReplacing | cluster/src/state_machine/machine.rs:76-79 | one `Watch` queued; the contents become `ViewAfter` of the put (object stored or replaced, nothing else changes: `ViewAfterPut`, `ViewAfterOthers`); only fresh trees join the footprint |
| StateMachine.DeleteFrom | cluster/src/state_machine/machine.rs:81-84 | one `Watch` queued; the contents become `ViewAfter` of the delete (object removed, nothing else changes: `ViewAfterDelete`, `ViewAfterOthers`); only fresh trees join the footprint |
| StateMachine.ApplyRequest | cluster/src/state_machine/machine.rs:75-90 | the request's response; the contents become `ViewAfter` of the request; the signals queued are those `SignalsSent` names for it |
| StateMachine.ViewAfterOthers | cluster/src/state_machine/machine.rs:75-89 | no request changes a tree outside its own collection |
| StateMachine.ViewAfterPut | cluster/src/state_machine/machine.rs:76-79 | a put stores the object under its key in the data tree and leaves the metadata and index trees alone |
| StateMachine.ViewAfterDelete | cluster/src/state_machine/machine.rs:81-84 | a delete removes the key from the data tree and leaves the metadata and index trees alone |
| StateMachine.ViewAfterDeleteCollection | cluster/src/state_machine/machine.rs:85-88 | deleting a collection removes all four of its trees |
| StateMachine.DeleteUndoesPut | cluster/src/state_machine/machine.rs:76-84 | a delete right after a put leaves what the delete alone leaves |
| StateMachine.LastPutWins | cluster/src/state_machine/machine.rs:76-79 | of two puts under one name, the second decides the contents |
| StateMachine.StateMachineData.constructor | cluster/src/state_machine/mod.rs:21-26 | over the given backend, nothing applied, the default membership |
| StateMachine.StateMachineData.ApplyEntry | cluster/src/state_machine/machine.rs:69-95 | records the entry's log id; a membership entry replaces the membership; the response is `ResponseFor`; a normal entry changes the contents to `ViewAfter` of its request and queues its signals; any other entry leaves contents and signals alone |
| StateMachine.StateMachineStore.constructor | cluster/src/state_machine/mod.rs:28-33 | over the given state machine, counter 0, no current snapshot |
| StateMachine.StateMachineStore.AppliedState | cluster/src/state_machine/machine.rs:24-32 | the last applied log id and membership |
| StateMachine.StateMachineStore.Apply | cluster/src/state_machine/machine.rs:60-98 | one response per entry, in order; the last entry's log id; the membership of the last membership entry; the contents are `StoreAfter` the batch, every normal entry's request applied in log order; the signals queued before are kept as a prefix, the new ones have the shapes `BatchSignals` gives (the `Watch`, and for a collection delete the `Unwatch`, of each normal entry in order), and every new `Unwatch` directly follows the `Watch` of the same collection |
| StateMachine.SignalsStep | cluster/src/state_machine/machine.rs:75-90 | one request's signals extend the queue by exactly the shapes `RequestSignals` gives, keep the earlier signals as a prefix, and keep each `Unwatch` right after its collection's `Watch` |
| StateMachine.SignalsAfterEntry | cluster/src/state_machine/machine.rs:69-95 | applying one more entry extends the batch's signals as its payload says: a normal entry's request signals, nothing for the others |
| StateMachine.BatchSignalsAppend | cluster/src/state_machine/machine.rs:67-97 | a batch split in two sends the first part's signals, then the second's |
| StateMachine.StoreAfterAppend | cluster/src/state_machine/machine.rs:67-97 | applying a batch split in two is applying the first part, then the second to the result |
| StateMachine.StateMachineStore.GetSnapshotBuilder | cluster/src/state_machine/machine.rs:109-111 | the store itself |
| StateMachine.StateMachineStore.BeginReceivingSnapshot | cluster/src/state_machine/machine.rs:120-124 | an empty buffer |
| StateMachine.StateMachineStore.GetCurrentSnapshot | cluster/src/state_machine/machine.rs:174-187 | `None` exactly when there is no current snapshot, otherwise its meta and a copy of its data |
| StateMachine.StateMachineStore.BuildSnapshot | cluster/src/state_machine/snapshot.rs:17-52 | a serializer error is returned and nothing changes; otherwise the counter goes up by one, wrapping; the snapshot is named after the last applied id and the new counter, becomes current and is returned |
| StateMachine.MembershipAfterIsLatest | cluster/src/state_machine/machine.rs:91-93 | the membership is the initial one without membership entries, otherwise the last membership entry's |
| StateMachine.MembershipNotAhead | cluster/src/state_machine/machine.rs:91-93 | when entries are applied in log order after the last applied id, the membership's log id is never ahead of the new last applied id (this bound holds only under the lemma's requires that the entries come in log order after the last applied id, which openraft guarantees to `apply`; neither the source's `apply` nor the model's `Apply` assumes it) |
| StateMachine.LastMembershipEntry | cluster/src/state_machine/machine.rs:91-93 | the position of the last membership entry |
| StateMachine.DashDigitsSuffix | cluster/src/state_machine/snapshot.rs:29-33 | equal ids with digits after the last dash have equal digits |
| StateMachine.SnapshotIdsDistinct | cluster/src/state_machine/snapshot.rs:28-33 | snapshots built with different counter values have different ids |
| Text.LowerChar | backend/src/labels.rs:18 | only `A`..`Z` change, each to its lower-case letter |
| Text.Lower | backend/src/labels.rs:18-19 | same length, lowered character by character |
| Text.LowerIsLower | backend/src/labels.rs:18-19 | the result has no upper-case ASCII letter |
| Text.LowerEqIgnoreCase | backend/src/labels.rs:18-19 | the result equals the input up to ASCII case |
| Text.LowerOfLower | backend/src/labels.rs:18-19 | a lower-case string is unchanged |
| Text.LowerIdempotent | backend/src/labels.rs:18-19 | lowering twice is lowering once |
| Text.LowerKeepsChar | backend/src/labels.rs:18-19 | a non-letter such as `=` stays exactly where it was |
| Text.LowerAppend | backend/src/labels.rs:18-19 | lowering distributes over concatenation |
| Text.FindFirst | backend/src/labels.rs:44 | the first occurrence of the character, `None` exactly when absent |
| Text.SplitOnce | backend/src/labels.rs:44 | `None` exactly when the separator is absent; otherwise the parts around its first occurrence |
| Text.SplitOnceOfJoin | backend/src/labels.rs:44 | joining and splitting at the first separator gives the parts back |
| Text.TrimEnd | backend/src/meta.rs:25 | a prefix of the input without a trailing separator, and only separators are dropped |
| Text.DigitChar | cluster/src/state_machine/snapshot.rs:30 | the decimal digit of the value |
| Text.NatToString | cluster/src/state_machine/snapshot.rs:30-32 | at least one character, all decimal digits |
| Text.NatToStringValue | cluster/src/state_machine/snapshot.rs:30-32 | reading the digits back gives the number |
| Text.NatToStringInjective | cluster/src/state_machine/snapshot.rs:30-32 | different numbers print differently |
| Utf8.EncodeChar | backend/src/objects.rs:36-37 | one to four bytes |
| Utf8.DecodeStep | backend/src/objects.rs:36-37 | a decoded character uses one to four of the bytes; an invalid sequence is one to three bytes long |
| Utf8.Decode | backend/src/objects.rs:36-37 | a failure is reported inside the input |
| Utf8.DecodeStepOfEncodeChar | backend/src/objects.rs:36-37 | decoding a character's encoding gives that character |
| Utf8.EncodeAppend | backend/src/objects.rs:36-37 | encoding distributes over concatenation |
| Utf8.DecodeEncode | backend/src/objects.rs:36-37 | decoding a string's bytes gives `Ok` of that string |
| Utf8.EncodeCharOfDecodeStep | backend/src/objects.rs:36-37 | a decode step consumed exactly its character's encoding |
| Utf8.DecodeHead | backend/src/objects.rs:36-37 | valid input starts with one whole character's encoding |
| Utf8.EncodeDecode | backend/src/objects.rs:36-37 | only a string's own bytes decode to it |
| Utf8.EncodeInjective | backend/src/objects.rs:36-37 | strings with equal bytes are equal |
| Utf8.EncodeCharUnique | backend/src/objects.rs:36-37 | a character's encoding is never a proper prefix of another's |
| Utf8.BytePrefixHead | backend/src/collection.rs:22 | a byte prefix starts with the same character, and the rest is again a byte prefix |
| Utf8.EncodePrefix | backend/src/collection.rs:22 | a byte prefix is a character prefix, and back |
| Ordering.MinimumExists | backend/src/query/request.rs:172 | a non-empty finite set has a least element |
| Ordering.Enumerate | backend/src/query/request.rs:172 | the members of the set, each once, strictly ascending |
| Ordering.AscendingUnique | backend/src/query/request.rs:172 | a set has only one ascending listing |
| Ordering.LexIrreflexive | backend/src/objects.rs:11 | no sequence is below itself |
| Ordering.LexTransitive | backend/src/objects.rs:11 | the lexicographic order is transitive |
| Ordering.LexTotal | backend/src/objects.rs:11 | distinct sequences are ordered one way or the other |
| Ordering.LexStrictTotal | backend/src/objects.rs:11 | the lexicographic order is a strict total order |

## Findings

| source | as written | input that shows it | evidently intended | confidence | as-written member | corrected member |
|---|---|---|---|---|---|---|
| backend/src/query/request.rs:139-144 | the loop that fills the concurrency window only exits once `query_concurrency` fields are in flight, so with fewer fields it spins forever; the loop never awaits, so the query's timeout cannot end it | a query with one field under the default `query_concurrency` of 16 | start fields until the window is full or no field is left | high, not executed | Query.FillAsWritten, Query.FillAsWrittenSpins, Query.OneFieldQueryHangs | Query.FillWindow, used by Query.QueryRequest.RunInner |

## Left out

- I/O failures of sled, the channel sends to the indexer and the HTTP
  payload stream are left out. These operations always succeed in the model.
  Their errors cannot be produced from the model's inputs.
- Locks and tasks are left out (`Mutex`, `RwLock`, `Arc`, and spawning with
  `tokio`). Every operation runs to completion alone.
- Concurrent search: one task per label is modelled as one label after the
  other. `Search.MatchesOrderIndependent` shows this cannot change the sets
  gathered.
- The search wait loop (backend/src/search/search.rs:37-39) spins while
  either shared set is still held by a task. Every task holds both sets until
  it ends, so the sets are read after every label has been searched, as in
  the model.
- Concurrent query fields: the order they complete in is the `order`
  parameter, any permutation of the fields.
- The query timeout is the `finished` parameter of
  `Query.QueryRequest.Run`.
- Reading `query_concurrency` from the configuration is left out. It is the
  `concurrency` parameter.
- `QueryField::lookup`, `prefix` and `suffix` are `todo!()` in the source.
  They are the `Query.Resolver` handed in by the caller.
- The tasks `Indexer::initialize` spawns for the listed collections are left
  out; `Indexer.Indexer.constructor` keeps only the watched names. So are
  `CollectionIndexer::run` (a `select!` over sled's
  `watch_prefix` and the task's channel), the two-minute liveness report and
  the shutdown fan-out. These are tasks and timers. Their per-signal and
  per-event bodies are `Indexer.Indexer.Handle` and
  `Indexer.CollectionIndexer.ProcessEvent`.
- `Backend::status`, `TreeState` and `BackendState` are left out. They
  report checksums, sizes and recovery flags that sled computes from disk.
- `install_snapshot` is left out. It ends in `todo!()` and so never
  completes.
- `Backend::export` and serde_json are not part of this model.
  `StateMachine.StateMachineStore.BuildSnapshot` takes the serialized
  export, or the serializer's error, as its `exported` parameter.
- `get_log_reader` is left out: it clones the store handle and shares the
  same inner state. The `LogStore` wrapper around `LogStoreInner` is left
  out too; it only takes the lock.
- The flush callback of `append` is reported complete at once. It is not
  modelled.
- The leader id follows openraft's display `T<term>-N<node>`
  (`RaftTypes.LeaderText`). openraft is not part of this model.
- StateMachine.StateMachineStore.BuildSnapshot: models the `u64` counter
  wrapping around, as in a release build. A debug build panics on the `+ 1`
  after `u64::MAX`.
- Collections.Collection.GetObjectMetadata: absent metadata is taken to be
  `ObjectNotFound`, because the method's body is not part of this model's
  source.
- Backends.Backend.constructor: sled's configuration and the spawned
  indexer task are left out.
- Indexer.Indexer.constructor: the tasks `initialize` spawns for the listed
  collections are not in `started`, which holds only the tasks `run` starts;
  the channels of the watched names start empty.
- LogStore.LogStoreInner.TryGetLogEntries: requires a range on which
  `BTreeMap::range` does not panic (cluster/src/log_store/ops.rs:24): no start
  after the end, and no empty range excluded at both ends. openraft only asks
  for ranges of log indices that start at or before their end, so the
  panicking ranges are left out.
