# Open WebUI backend: a Dafny model

Proofs about the parts of the backend that hold real state, arithmetic or recursion over stored data.
Each module follows one component: value-level functions say what a step computes, methods and classes
carry the component's loops and in-place updates and are proved against those functions, and lemmas
prove what the component is for over all inputs, all runs or all interleavings.

`dafny verify dfyconfig.toml` checks the whole project.

| files | component |
|---|---|
| `StableSort`, `MergeResults`, `MergeCompose` | deduplicating, sorting and cutting scored hits; merging merged results |
| `HybridSearch` | reranking, the page of one query, and what the merge makes of it |
| `SourceCollections`, `EmbeddingBatches` | which collections are searched for which item; embedding in batches |
| `TaskDictionaries`, `TaskRegistry`, `TaskSharing`, `TaskStop`, `TaskRaces` | the distributed task registry as a transition system whose steps lie between awaits |
| `SplitAudio`, `TranscribeAudio` | cutting audio into chunks that fit, and transcribing and cleaning them up |
| `PointerGraph` | recursion through stored pointers under a recursion limit |
| `Folders`, `FolderDeletion`, `FolderForest`, `FolderSearch` | folder trees: listing, moving, deleting, runs of these, searching |
| `Messages` | expanding a channel message with its reply and its thread |
| `ConfigTree`, `ConfigStore`, `AppConfig` | the configuration document, its copies in several processes, the row and Redis |
| `Membership`, `DirectMessages`, `ChannelTable` | channel membership and finding or creating direct messages |
| `TagIndex`, `ChatTags` | the tag rows of a user against the tags on that user's chats |
| `Mentions` | extracting and replacing mentions |

## Where the code falls short of its purpose

Each of these is proved with the exact condition under which the code does meet its purpose and, where
that condition does not show one by itself, with an input or run on which it does not.

- `retrieval/utils.py:292-298` zips (distance, metadata, document) and unpacks into distances, documents,
  metadatas. When k < k_reranker the two columns come out exchanged, and the merge drops every row because
  its document is no text. The comment at :291 promises the best min(k, k_reranker) items; the merge
  receives them if and only if k >= k_reranker or those items are none (`HybridSearchKeepsHits`,
  `IntendedIsEmptyIff`, `CutPageIsLost`).
- `tasks.py:101-116` saves a task to Redis after it is already running. A hash entry stays for good if and
  only if the save follows the task's cleanup (`QuiescentStore`); an item's set loses a task if and only if a
  cleanup deletes the set while it has members (`ItemSetExact`; runs in `TaskRaces`).
- `routers/audio.py:1042-1049` cleans up no chunk when splitting raises. On a disk without chunks some are left
  if and only if the file is too large, a first chunk fits, and the cuts reach a position where no length the
  loop at :1130 tries fits (`Transcribe`, `GivesUpIff`, `LeftoversIff`); `EarlierChunkStays` and
  `RaisingMayLeaveNothing` are an input of each kind.
- `models/folders.py:190-211` accepts any new parent. All folders stay listable, and so deletable as a whole, if
  and only if each move's parent is neither the folder nor in its listing (`MoveKeepsListedIff`,
  `StepKeepsForestIff`, `CheckedRunsListed`, `CheckedRunsDelete`; a failing run in `TwoMovesSuffice`). On a cycle
  the listing fails whatever the limit (`ListingReturns`) and deleting returns nothing, though the branches walked
  before the cycle are gone (`DeleteFolder`).
- `models/messages.py:139-231` accepts any reply and parent. A thread reply that replies to its thread's root
  makes the root unreadable (`ReplyToOwnRootNeverReturns`, `TwoPostsSuffice`). A post leaves every message
  readable if and only if what it replies to does not lead to its thread's root (`PostKeepsReadableIff`);
  `InsertKeepsThreads` is a cheaper check that is sufficient.
- `config.py:142-155` imports a document without telling Redis, so attributes Redis holds keep their old value
  (`ImportSeenIff`, `ImportMaskedOnRun`). `config.py:220` writes the saving process's whole document, so a second
  writer takes back what the first one saved (`RowAgreesIff`, `SecondWriterUndoes`).
- `routers/channels.py:263-287` looks for the listed users but inserts the members of the groups too; the
  participants then have a second channel if and only if looking up the collected members would have found
  one (`InsertKeepsIff`), as when such a request is made twice (`CreatingTwiceDuplicates`). Adding, removing and
  joining (`models/channels.py:457-566`) do not look at all (`StepKeepsDmsIff`, `JoiningMergesOnRun`).
- `routers/chats.py:694-720` deletes the rows of tags counted exactly once before deleting the chat. For an
  archived chat, which is not counted, that is the row of another chat's tag (`DeleteChatKeepsIff`,
  `DeletingArchivedLosesRow`). `models/chats.py:513-520` unarchives without restoring rows
  (`UnarchiveAllKeepsIff`, `UnarchiveAllLosesRow`). `models/chats.py:335-353` makes the rows for the user who asks:
  when an admin works on someone else's chat (`main.py:1640-1641`, `utils/middleware.py:1851`), the owner's rows are
  missing unless they were there before or the chat is archived (`ReplaceKeepsIff`, `ForeignReplaceLosesRow`).

## Model

| member | source | states |
|---|---|---|
| StableSort.SortIsStable | backend/open_webui/retrieval/utils.py:373 | the descending sort reads its input in an order that is strictly descending in (score, earlier first) and misses no entry |
| MergeResults.MergeAndSort | backend/open_webui/retrieval/utils.py:339-383 | the dictionary loops, the sort and the cut compute `MergedHits` of all rows whose document is text; it fails (unpacking an empty slice) exactly when there are such rows and the cut keeps none |
| MergeResults.SortAndCut | backend/open_webui/retrieval/utils.py:371-376 | it fails exactly when there are values and the cut keeps none of them (k is 0, or negative and not smaller in size than their number); otherwise the columns hold the first of the values read in their stable descending order |
| MergeResults.UpsertHolds | backend/open_webui/retrieval/utils.py:358-369 | a new document enters the dictionary, a known one is replaced only by a strictly higher score, and insertion order is kept |
| MergeResults.HitsAre | backend/open_webui/retrieval/utils.py:347-357 | the hits of a result are its zipped rows whose document is text, up to the shortest column |
| MergeResults.CombineDistills | backend/open_webui/retrieval/utils.py:341-371 | the dictionary's values are, for each document once and in order of first appearance, the earliest hit that reaches its best score |
| MergeResults.MergedHitsIsMerge | backend/open_webui/retrieval/utils.py:343-383 | the merged list has min(k, documents) entries (a negative k counts from the end), each the best hit of its document, in descending score with ties by first appearance, and beats every document left out |
| MergeResults.MergeIsUnique | backend/open_webui/retrieval/utils.py:343-383 | those properties determine the merged list: any two lists that have them are equal |
| MergeCompose.ScoreAt | backend/open_webui/retrieval/utils.py:371-376 | the i-th merged score is at least s exactly when more than i documents have a hit of at least s |
| MergeCompose.TruncationKeeps | backend/open_webui/retrieval/utils.py:371-376 | cutting to k keeps every document that has a hit of at least s, or at least k of them |
| MergeCompose.MergeComposesScores | backend/open_webui/retrieval/utils.py:339-383 | merging the k-cut merges of two lists gives the scores of merging both lists at once, position by position |
| MergeCompose.MergeComposes | backend/open_webui/retrieval/utils.py:339-383 | when documents whose best scores tie occur in one of the two lists only, it gives the same documents and metadata too |
| MergeCompose.TiesAreApart | backend/open_webui/retrieval/utils.py:339-383 | that covers lists without ties as well as lists that share no document |
| MergeCompose.MergeComposesIff | backend/open_webui/retrieval/utils.py:339-383 | whatever the ties, the composed merge is the joint one if and only if each entry of that survives the first merges and appears, in their outputs, before every equally good hit of a document placed after it or left out |
| MergeCompose.ColumnsRoundTrip | backend/open_webui/retrieval/utils.py:378-383 | the three output columns hold exactly the hits kept, so an output can be merged again |
| MergeCompose.MergeOfMerges | backend/open_webui/retrieval/utils.py:339-383 | for the function as called, on result dictionaries: composing gives the same scores always, and the same result exactly when the hits of the joint merge reach the second merge in their order, as they do when tied documents occur in one list only |
| MergeCompose.TiesCanChangeDocuments | backend/open_webui/retrieval/utils.py:339-383 | a tied document in both lists can make the composed merge keep another document: a concrete pair of lists |
| HybridSearch.CompressDocuments | backend/open_webui/retrieval/utils.py:1297-1319 | reranking filters by a non-zero threshold, sorts by score and cuts to `top_n` |
| HybridSearch.PassingIsFiltered | backend/open_webui/retrieval/utils.py:1298-1308 | what passes is exactly the documents paired with their own score at or above the threshold |
| HybridSearch.PassingInOrder | backend/open_webui/retrieval/utils.py:1298-1308 | and it is them once each, in the order retrieved |
| HybridSearch.CompressedAreBest | backend/open_webui/retrieval/utils.py:1309-1319 | every reranked document passed the threshold and none that was cut scores better |
| HybridSearch.CutHitsAreBest | backend/open_webui/retrieval/utils.py:292-298 | the cut of a page keeps the first of its hits in stable descending order, and none it drops scores higher |
| HybridSearch.HybridPage | backend/open_webui/retrieval/utils.py:286-305 | the page of one query: the hits found, or, when k < k_reranker, the cut hits with their document and metadata columns exchanged |
| HybridSearch.ExchangedBack | backend/open_webui/retrieval/utils.py:292-305 | exchanging the two columns of such a page back gives the hits |
| HybridSearch.CutPageIsLost | backend/open_webui/retrieval/utils.py:292-298 | a cut page contributes no row to the merge, whatever it found |
| HybridSearch.HybridSearchKeepsHits | backend/open_webui/retrieval/utils.py:291-305 | over any number of queries the merge receives exactly the pages meant, the best min(k, k_reranker) hits of each, if and only if k >= k_reranker or those pages are empty; when k < k_reranker the merged result is empty |
| HybridSearch.IntendedIsEmptyIff | backend/open_webui/retrieval/utils.py:291-305 | those pages are empty exactly when each query found nothing or its cut keeps nothing |
| SourceCollections.SearchCollections | backend/open_webui/retrieval/utils.py:939-1172 | the loop over items makes its searches in item order, each for the non-empty set of collections no earlier item needed, and together for every collection needed |
| SourceCollections.NewNames | backend/open_webui/retrieval/utils.py:1123-1136 | an item is searched for the collections it names that were not extracted before; none means it is skipped |
| SourceCollections.NeededIff | backend/open_webui/retrieval/utils.py:946-1128 | an item asks for exactly the collections its kind, mode and answer name: none for notes, chats and pages, none for a file or knowledge base used in full |
| SourceCollections.FilesApart | backend/open_webui/retrieval/utils.py:1074-1080 | two current files never share a collection |
| SourceCollections.SearchesAreDisjoint | backend/open_webui/retrieval/utils.py:1133-1172 | no collection is searched for two items |
| SourceCollections.SearchedOnce | backend/open_webui/retrieval/utils.py:939-1172 | every collection an item needs is searched exactly once, for that item or an earlier one |
| EmbeddingBatches.BatchesCover | backend/open_webui/retrieval/utils.py:817-820 | the batches concatenate to the texts, and all but the last are full |
| EmbeddingBatches.MakeBatches | backend/open_webui/retrieval/utils.py:817-820 | the slicing comprehension makes those batches |
| EmbeddingBatches.EmbedAll | backend/open_webui/retrieval/utils.py:814-851 | the embeddings are the concatenated answers of the batches that did not fail; a zero batch size raises, a negative one embeds nothing |
| EmbeddingBatches.BatchingIsTransparent | backend/open_webui/retrieval/utils.py:814-851 | the result is the text-by-text embedding, in order, if and only if no batch failed; otherwise it is shorter |
| EmbeddingBatches.FailedBatchesDrop | backend/open_webui/retrieval/utils.py:814-851 | whatever fails, the embeddings are those of the texts of the answered batches, in order |
| TaskDictionaries.Worker.Register | backend/open_webui/tasks.py:107-113 | the synchronous part of `create_task`: the id joins `tasks` and its item's list |
| TaskDictionaries.Worker.Forget | backend/open_webui/tasks.py:87-93 | the local part of `cleanup_task`: the id leaves both, an emptied list goes, a falsy id is never taken off |
| TaskDictionaries.Worker.PopTask | backend/open_webui/tasks.py:155-157 | a local stop pops the id from `tasks` only |
| TaskDictionaries.RemoveFirstRemoves | backend/open_webui/tasks.py:91 | removing the first occurrence from a list without repeats removes the id and nothing else |
| TaskDictionaries.RedisStore.SaveTask | backend/open_webui/tasks.py:50-55 | the save pipeline as one atomic step on hash and set |
| TaskDictionaries.RedisStore.RemoveTask | backend/open_webui/tasks.py:59-63 | the first round trip of a cleanup, with the count it reads |
| TaskDictionaries.RedisStore.DropItem | backend/open_webui/tasks.py:64-65 | the second round trip, which deletes the item's set |
| TaskRegistry.LocalsAlwaysAgree | backend/open_webui/tasks.py:80-118 | on every interleaving over any number of workers, each list holds exactly the worker's tasks of that item that are not forgotten (or have a falsy id), and with Redis `tasks` holds exactly those not forgotten |
| TaskRegistry.ListedExactlyOnce | backend/open_webui/tasks.py:87-113 | every id in `tasks` stands in exactly one list, at one position, and no list is empty |
| TaskStop.LocalTasksExact | backend/open_webui/tasks.py:80-163 | without Redis, on every run, a worker's `tasks` holds exactly the tasks created there that no cleanup has forgotten and no stop has popped |
| TaskSharing.StoreAlwaysAgrees | backend/open_webui/tasks.py:50-65 | on every interleaving each hash entry is a saved task with its item, each saved task not yet removed has one, item sets list only ids the hash maps to that item, and no set is empty |
| TaskSharing.ExactStep | backend/open_webui/tasks.py:50-65 | one step keeps an item's set exact if and only if it is not the delete of a set that has members |
| TaskSharing.ItemSetExact | backend/open_webui/tasks.py:50-65 | an item's set equals the ids the hash maps to it throughout a run if and only if no cleanup of the run deletes the set while it has members |
| TaskSharing.NoRaceNoDiscard | backend/open_webui/tasks.py:58-65 | that never happens when no save for the item falls between a cleanup's count and its delete |
| TaskSharing.OverdueMeansLate | backend/open_webui/tasks.py:101-116 | a hash entry outlives its task's cleanup if and only if the task was saved after that cleanup |
| TaskSharing.QuiescentStore | backend/open_webui/tasks.py:58-116 | once every task has finished, been cleaned up and been saved, the hash holds exactly the tasks saved too late, so hash and sets are empty if and only if every save came before its cleanup |
| TaskSharing.QuiescentWorkers | backend/open_webui/tasks.py:80-113 | then every `tasks` is empty and only falsy ids still have lists, of exactly the worker's tasks created under them |
| TaskStop.StopsAlwaysReach | backend/open_webui/tasks.py:26-42 | on every run with Redis, messages and cancellations come only from published commands, and every command published for a task that exists by then, by a single stop or for an item, waits in its worker's inbox or has cancelled the task unless it no longer runs |
| TaskStop.StopReachesTask | backend/open_webui/tasks.py:139-153 | when the commands of a stop have been consumed everywhere, a task that existed at its publication and still runs has been asked to cancel by it |
| TaskStop.StopTaskReaches | backend/open_webui/tasks.py:139-153 | a `stop_task` call made at any step of a run, when it has settled: if the task existed and still runs it has been asked to cancel, and no other task has by this call |
| TaskStop.StopReachesSnapshot | backend/open_webui/tasks.py:172-185 | when the commands of `stop_item_tasks` have been consumed everywhere, each task of its snapshot that still runs has been asked to cancel by that call, and no task outside the snapshot has |
| TaskStop.StopItemReaches | backend/open_webui/tasks.py:172-185 | a `stop_item_tasks` call made at any step of a run, when it has settled: every task in the item's set at that step that still runs has been asked to cancel by it, and no task outside that set has |
| TaskStop.SnapshotHoldsIff | backend/open_webui/tasks.py:50-73 | on every run, a task of the item that its cleanup has not removed is in a snapshot if and only if it has been saved and no cleanup has deleted the set with it in it |
| TaskStop.SnapshotCovers | backend/open_webui/tasks.py:72-73 | if the item's set was never deleted with members, the snapshot holds every saved task of the item that is not yet removed, and only saved tasks of the item |
| TaskRaces.LateSaveLeaks | backend/open_webui/tasks.py:101-116 | a concrete run that ends settled with a stale hash entry: the task finished and was cleaned up before its save |
| TaskRaces.RacingSaveIsLost | backend/open_webui/tasks.py:58-65 | a concrete run in which a saved task is missing from its item's set |
| SplitAudio.ChunksCover | backend/open_webui/routers/audio.py:1123-1143 | the chunks in order tile the audio without gap or overlap, up to its end or to the chunk that could not be made to fit, and each fits |
| SplitAudio.StuckIsShort | backend/open_webui/routers/audio.py:1130-1137 | splitting gives up only on an interval of at most 5000 ms that does not fit |
| SplitAudio.NeverStuck | backend/open_webui/routers/audio.py:1130-1137 | so it never raises when every interval of at most 5000 ms fits |
| SplitAudio.GivesUpIff | backend/open_webui/routers/audio.py:1123-1137 | it raises exactly when cuts that each fit lead from the beginning to a position at which no length the loop tries fits; some chunk was made before that exactly when there is at least one such cut |
| SplitAudio.ChunksAreLong | backend/open_webui/routers/audio.py:1124-1131 | every chunk but one that ends the audio lasts at least min(approx_chunk_ms, 2500) |
| SplitAudio.FewChunks | backend/open_webui/routers/audio.py:1116-1143 | n chunks satisfy 1000 * (n - 1) < duration |
| SplitAudio.ShrinkExportsBounded | backend/open_webui/routers/audio.py:1127-1133 | one chunk is exported at most once more than the halvings that bring its length to 5000 or below |
| SplitAudio.ExportsCounted | backend/open_webui/routers/audio.py:1127-1133 | the exports are the lengths tried, halving, up to the one taken, and none before it fits |
| SplitAudio.FewExports | backend/open_webui/routers/audio.py:1123-1143 | all exports together are bounded by the chunks attempted times that number for the first length |
| SplitAudio.ApproxChunk | backend/open_webui/routers/audio.py:1116 | the first length is at least 1000 ms |
| SplitAudio.ApproxChunkIs | backend/open_webui/routers/audio.py:1116 | a second past it is the longest length whose share of the file keeps within the limit, unless that is below two seconds |
| TranscribeAudio.ExportChunk | backend/open_webui/routers/audio.py:1124-1133 | the inner loop ends with the shrunken chunk on disk at its path, after the counted exports |
| TranscribeAudio.CutOne | backend/open_webui/routers/audio.py:1124-1137 | a chunk that fits stays on disk, one that does not is removed |
| TranscribeAudio.CutAll | backend/open_webui/routers/audio.py:1116-1143 | the outer loop returns the planned chunk paths with each chunk on disk, or raises with the earlier chunks left on disk |
| TranscribeAudio.SplitFile | backend/open_webui/routers/audio.py:1103-1143 | a small file is returned as it is; otherwise as `CutAll` |
| TranscribeAudio.ChunkPathInjective | backend/open_webui/routers/audio.py:1126 | different chunk numbers give different paths |
| TranscribeAudio.ChunkPathIsNew | backend/open_webui/routers/audio.py:1121-1126 | a chunk path is never the path of the file being split |
| TranscribeAudio.WrittenHolds | backend/open_webui/routers/audio.py:1126-1139 | writing the chunks leaves each at its own path and touches nothing else |
| TranscribeAudio.Gather | backend/open_webui/routers/audio.py:1051-1069 | the results are the texts of the pieces in order, failing exactly when one of them fails |
| TranscribeAudio.TextsAre | backend/open_webui/routers/audio.py:1051-1069 | there is one text per piece, the i-th being the engine's of the i-th piece |
| TranscribeAudio.JoinSplits | backend/open_webui/routers/audio.py:1080 | joining puts one space between texts that follow each other and drops none |
| TranscribeAudio.TranscriptIs | backend/open_webui/routers/audio.py:1051-1081 | the transcript of one piece is the engine's text, that of no piece is empty, that of two parts is both with a space between, and it fails exactly when some piece does |
| TranscribeAudio.PiecesAre | backend/open_webui/routers/audio.py:1103-1143 | what is transcribed is the file itself when it is small, else the chunks in order, which tile the audio |
| TranscribeAudio.RemoveChunks | backend/open_webui/routers/audio.py:1070-1077 | cleaning up removes every chunk path and never the original |
| TranscribeAudio.Transcribe | backend/open_webui/routers/audio.py:1040-1081 | the result is `Transcript` of the pieces in order; unless splitting raises, nothing is left at the chunk paths; if it raises, the chunks written before stay; on a disk without chunks some are left exactly when the file is too large, its first chunk fits and a later one reached cannot be made to |
| TranscribeAudio.LeftoversIff | backend/open_webui/routers/audio.py:1042-1049 | when splitting raises on a disk without chunks, some chunk is left exactly when one was cut before the position at which nothing fits |
| TranscribeAudio.EarlierChunkStays | backend/open_webui/routers/audio.py:1042-1049 | an encoder for which it raises and leaves the first chunk |
| TranscribeAudio.RaisingMayLeaveNothing | backend/open_webui/routers/audio.py:1130-1137 | an encoder for which splitting raises and leaves nothing |
| PointerGraph.CompletesIffNoCycle | backend/open_webui/models/folders.py:134-140 | a recursion through stored pointers with one frame per record returns if and only if it reaches no cycle; if it reaches one, no limit is enough |
| PointerGraph.CycleNeverCompletes | backend/open_webui/models/folders.py:134-140 | whatever the recursion limit, a call that reaches a cycle does not return |
| PointerGraph.MeasureCompletes | backend/open_webui/models/messages.py:172-231 | a measure that every pointer decreases bounds the nesting |
| PointerGraph.PointerKeepsAcyclicIff | backend/open_webui/models/messages.py:172-231 | adding a record and one pointer to a store without cycles makes no cycle if and only if the pointer's target did not already lead to its origin |
| Folders.CollectChildren | backend/open_webui/models/folders.py:134-140 | the nested closure appends exactly the subtree listing, children before parents |
| Folders.GetChildren | backend/open_webui/models/folders.py:127-149 | None when the folder is not the user's or the recursion error is swallowed, else the listing |
| Folders.BelowIsSubtree | backend/open_webui/models/folders.py:127-149 | the listing of a folder holds exactly the user's strict descendants of it |
| Folders.ChildrenFirst | backend/open_webui/models/folders.py:134-140 | in a listing every folder comes after everything below it |
| Folders.BelowDescends | backend/open_webui/models/folders.py:134-140 | everything listed is a folder of that user that reaches the root through parent pointers |
| Folders.DescendsBelow | backend/open_webui/models/folders.py:134-140 | every strict descendant is listed, at a nesting equal to its distance |
| Folders.OwnAncestorNeverLists | backend/open_webui/models/folders.py:134-147 | a folder that is its own ancestor is listed within no recursion limit |
| Folders.ListingReturns | backend/open_webui/models/folders.py:127-149 | one frame per folder is enough if and only if the subtree holds no cycle; otherwise every limit fails |
| Folders.AcyclicIffListed | backend/open_webui/models/folders.py:127-149 | no folder of a user is its own ancestor if and only if every folder of the user is listed with one frame per folder |
| Folders.ForestLists | backend/open_webui/models/folders.py:127-149 | in a forest every folder is listed with one frame per folder or more |
| Folders.MoveKeepsAcyclic | backend/open_webui/models/folders.py:190-211 | moving a folder of an acyclic forest keeps it acyclic, that is, listable (`AcyclicIffListed`), if and only if the new parent is neither the folder nor a descendant of it; the code checks neither |
| Folders.MoveKeepsListedIff | backend/open_webui/models/folders.py:190-211 | when every folder of the user can be listed, a move leaves every folder listable if and only if the new parent is none, or neither the folder nor in its listing |
| Folders.MoveClosesCycle | backend/open_webui/models/folders.py:190-211 | a concrete move of a folder into its own child, after which it is listed within no limit |
| FolderDeletion.BelowKeyed | backend/open_webui/models/folders.py:134-140 | a listing repeats no folder |
| FolderDeletion.ListedInOrder | backend/open_webui/models/folders.py:134-140 | so of two listed folders the one below the other comes first |
| FolderDeletion.BelowWithout | backend/open_webui/models/folders.py:289-301 | deleting rows outside a subtree does not change its listing |
| FolderDeletion.FolderTable.UpdateParent | backend/open_webui/models/folders.py:190-211 | the parent of the user's folder is replaced, nothing else changes |
| FolderDeletion.FolderTable.InsertFolder | backend/open_webui/models/folders.py:85-117 | the folder is added with the parent given, unless its key is taken |
| FolderDeletion.FolderTable.DeleteChildren | backend/open_webui/models/folders.py:289-303 | the nested closure deletes exactly what would have been listed and appends those ids in listing order, and fails exactly when the listing fails; what it then has deleted is exactly `Gone`: the branches before the stuck one and, within that one, the same again |
| FolderDeletion.FolderTable.DeleteFolder | backend/open_webui/models/folders.py:279-309 | when the subtree can be listed, the ids are the folder's own and then the listed ones, and exactly those rows go; when it cannot, nothing is returned and exactly the rows of `Gone` go; in either case nothing but the user's folders at or below the root ever goes |
| FolderDeletion.StuckStays | backend/open_webui/models/folders.py:289-301 | deleting the branches before it does not make a branch listable that was not |
| FolderDeletion.ListedAllGone | backend/open_webui/models/folders.py:289-301 | a branch that can be listed is gone as a whole |
| FolderDeletion.WalkedBranchesGone | backend/open_webui/models/folders.py:289-301 | also when the deletion gets stuck, every branch walked before is gone |
| FolderDeletion.DeletedIdsDistinct | backend/open_webui/models/folders.py:279-309 | in every forest, with a frame for each folder, the listing returns and the returned ids do not repeat |
| FolderDeletion.DeletionRemovesSubtree | backend/open_webui/models/folders.py:279-309 | in every forest, with a frame for each folder, what stays is every folder but the root and the user's folders below it, and no remaining folder of the user points at a removed one |
| FolderDeletion.ListedSubtreeGoes | backend/open_webui/models/folders.py:279-309 | the same wherever the subtree can be listed, whatever cycles there are elsewhere |
| FolderForest.MoveKeepsForestIff | backend/open_webui/models/folders.py:190-211 | a move keeps all users' folders a forest exactly when the folder is not the user's or the parent fits: none, or neither the folder nor in its listing |
| FolderForest.InsertKeepsForestIff | backend/open_webui/models/folders.py:85-117 | so does an insert, whose key and parent may be any |
| FolderForest.DeleteKeepsForest | backend/open_webui/models/folders.py:279-309 | a deletion keeps it, also when it stops halfway |
| FolderForest.StepKeepsForestIff | backend/open_webui/models/folders.py:85-309 | any step keeps it exactly when that check passes; the code does not make it |
| FolderForest.CheckedRunsListed | backend/open_webui/models/folders.py:127-149 | after every run of checked steps from the empty table, every folder of every user can be listed |
| FolderForest.CheckedRunsDelete | backend/open_webui/models/folders.py:279-309 | and deleting any of them returns distinct ids and removes exactly its subtree |
| FolderForest.TwoMovesSuffice | backend/open_webui/models/folders.py:190-211 | a run from the empty table that is not checked: two folders moved into each other, after which the first is listed within no limit |
| FolderSearch.SearchByNames | backend/open_webui/models/folders.py:316-345 | the results are, once each, the matching folders and the user's folders below them; it raises exactly when the listing of a matching folder fails |
| Messages.GetMessageById | backend/open_webui/models/messages.py:172-201 | the recursive read computes `Expand`, None when nested too deep |
| Messages.GetThreadReplies | backend/open_webui/models/messages.py:203-231 | its loop over the thread computes `ExpandAll`; whenever it returns, the i-th reply is the i-th message with the row it replies to |
| Messages.RepliesGive | backend/open_webui/models/messages.py:213-230 | that holds within every limit |
| Messages.ReturnsWhenPointersEnd | backend/open_webui/models/messages.py:172-231 | a message is returned if and only if the recursion through the reply pointers it and its thread hold ends within the limit |
| Messages.ReturnsIffNoCycle | backend/open_webui/models/messages.py:172-231 | a frame for every id named is enough if and only if those pointers reach no cycle; otherwise no limit is |
| Messages.ExpandsToDirectRows | backend/open_webui/models/messages.py:181-200 | however deep the recursion went, the view is the row, the row it replies to, the exact number of rows in its thread and the time of the newest of them |
| Messages.NewestFirst | backend/open_webui/models/messages.py:205-210 | the first reply of the thread is the newest |
| Messages.RepliesCounted | backend/open_webui/models/messages.py:196 | the reply count is the number of rows whose parent is the message |
| Messages.WellThreadedReturns | backend/open_webui/models/messages.py:172-231 | if replies point to strictly earlier messages, parents are thread roots and a thread reply replies within its thread, every message is returned with at most two frames per row and three |
| Messages.InsertKeepsThreads | backend/open_webui/models/messages.py:139-170 | inserting a message keeps such a store one if and only if its parent is a thread root and it replies within its own thread: a check of two lookups, sufficient for every message to be returned but not necessary |
| Messages.PostKeepsReadableIff | backend/open_webui/models/messages.py:139-231 | posting into a store where every message is returned leaves every message returned if and only if what it replies to does not lead, through the reply pointers of messages and threads already stored, to the root of its own thread; the code does not check this |
| Messages.CheckedPostsReadable | backend/open_webui/models/messages.py:139-170 | every store built by posts that pass that check has every message returned |
| Messages.TwoPostsSuffice | backend/open_webui/models/messages.py:139-170 | two posts after which a message can no longer be read: a root, and a reply in its thread that replies to the root |
| Messages.ReplyToOwnRootNeverReturns | backend/open_webui/models/messages.py:178-190 | once a thread reply replies to its own thread's root, the root is returned within no limit |
| Messages.GetMessagesByParentId | backend/open_webui/models/messages.py:274-315 | one page of a thread; a page shorter than the limit ends with the root; each message with the row it replies to; [] when the root does not exist |
| Messages.ChannelThreadIs | backend/open_webui/models/messages.py:283-287 | the thread paged through holds each row of the channel with that parent, as often as it is stored, newest first |
| Messages.PagesCoverThread | backend/open_webui/models/messages.py:283-295 | reading pages until the first short one gives the whole thread, newest first, and the root once, at the end |
| ConfigTree.GetConfigValue | backend/open_webui/config.py:128-136 | the walk along a split path computes `Get`, raising where Python's subscript would |
| ConfigTree.GetFinds | backend/open_webui/config.py:128-136 | a read that returns gives what the document holds there; a null cannot be told from nothing |
| ConfigTree.PutSucceeds | backend/open_webui/config.py:211-221 | a save succeeds if and only if everything the document holds above its path is a dictionary |
| ConfigTree.SavedFinds | backend/open_webui/config.py:211-221 | all that a save changes: the value at and below its path, the dictionaries above it, and nothing else |
| ConfigTree.ReadsSaved | backend/open_webui/config.py:128-136 | reading a saved path gives the saved value |
| ConfigTree.ReadsUntouched | backend/open_webui/config.py:211-221 | a path neither above nor below the saved one reads as before, whether it raised, was missing or held a value |
| ConfigTree.SaveKeepsOpen | backend/open_webui/config.py:211-221 | a save neither opens nor blocks such a path |
| ConfigTree.SplitIsInjective | backend/open_webui/config.py:129 | different dotted names are different paths |
| ConfigTree.OauthPaths | backend/open_webui/config.py:173-176 | the oauth prefix test concerns exactly the paths of two or more parts whose first is `oauth` |
| ConfigStore.WritableForever | backend/open_webui/config.py:211-221 | whether a worker can save an attribute changes on no run in which it imports no document itself |
| ConfigStore.DocumentReads | backend/open_webui/config.py:142-221 | on every run of any number of workers, each worker's document reads at every attribute as that worker last saved or imported it, and as it started where it put nothing |
| ConfigStore.RowIsLastWriters | backend/open_webui/config.py:88-98 | the database row is always the whole document of the worker that saved or imported last |
| ConfigStore.RedisHoldsLast | backend/open_webui/config.py:251-260 | Redis holds, for every attribute saved by anyone, the value saved last, whatever was imported |
| ConfigStore.RowAgreesIff | backend/open_webui/config.py:142-260 | the database agrees with Redis on a saved attribute if and only if the worker that saved or imported last has the last saved value of that attribute in its own document |
| ConfigStore.OneWriterAgrees | backend/open_webui/config.py:211-260 | with a single saving worker and no import it agrees on every saved attribute |
| ConfigStore.SecondWriterUndoes | backend/open_webui/config.py:211-260 | a second worker's save of another attribute puts the first attribute in the database back to what the second worker started with |
| ConfigStore.DefaultReads | backend/open_webui/config.py:113-125 | without a row the document has its version and an empty `ui` and nothing else |
| ConfigStore.AssignedSeenIff | backend/open_webui/config.py:251-283 | after an assignment, and anything but another one of the attribute or an import by that worker, its next read gives the value set if and only if Redis by then holds nothing else for it |
| ConfigStore.AssignedIsSeen | backend/open_webui/config.py:251-283 | a successful save is always read back, with and without Redis; a save that raises stays set for that worker unless Redis holds another value, and for no other worker |
| ConfigStore.RestartGivesLastPut | backend/open_webui/config.py:165-187 | a restart after any run of one process gives each attribute what the process last saved or imported there, or the environment's value when that is None or the attribute is not loaded |
| ConfigStore.RestartGivesLastSaved | backend/open_webui/config.py:165-187 | without imports that is the last saved value |
| ConfigStore.LoadedIs | backend/open_webui/config.py:166-187 | a stored value is taken unless it is None, persistence is off, or the name begins with `oauth.` and the oauth switch is off |
| ConfigStore.ReadersAgree | backend/open_webui/config.py:262-283 | two workers reading an attribute that Redis holds, with no assignment of it between and anything else happening, imports included, see the same value, which is that of Redis; the first keeps it unless it imports a document itself |
| ConfigStore.ImportSeenIff | backend/open_webui/config.py:142-155 | after a document is imported, and anything but an assignment of the attribute or another import by the same worker, its read gives the imported value if and only if Redis did not hold another one |
| ConfigStore.UpdatedExactly | backend/open_webui/config.py:149-150 | an import gives the attributes before the first that raises the document's values and leaves the others as they were |
| ConfigStore.UpdatedUpToIsFirst | backend/open_webui/config.py:149-150 | the update loop stops at the first attribute whose read raises |
| ConfigStore.ImportMaskedOnRun | backend/open_webui/config.py:142-155 | a run of one worker that saves a value, imports another and reads the first |
| AppConfig.PersistentConfig.Load | backend/open_webui/config.py:166-187 | the constructor takes the stored value unless it is None, persistence is off or the oauth switch skips it; null when reading raises |
| AppConfig.PersistentConfig.Update | backend/open_webui/config.py:205-209 | an update takes over a value that is not None |
| AppConfig.PersistentConfig.Save | backend/open_webui/config.py:211-221 | a save changes document, row and loaded value together, or raises and changes none |
| AppConfig.Process.Set | backend/open_webui/config.py:251-260 | setting an attribute is the step `Assigned`: unknown keys raise and change nothing; when the save raises the local value stays set but neither row nor Redis changes |
| AppConfig.Process.Fetch | backend/open_webui/config.py:262-283 | getting an attribute takes over what Redis holds first, then returns the local value |
| AppConfig.Process.RefreshAll | backend/open_webui/config.py:149-150 | the update loop over the registry computes `Updated`, stopping at the first error |
| AppConfig.Process.SaveConfig | backend/open_webui/config.py:142-155 | replacing the document is the step `Imported`: it writes row and values and leaves Redis alone; false when an update raised |
| Membership.MatchesIff | backend/open_webui/models/channels.py:424-455 | with one row per channel and user, the two counting conditions hold if and only if the channel's members are the requested set and it is not empty |
| Membership.RepeatedRowMisleads | backend/open_webui/models/channels.py:424-455 | with a repeated row they hold of a channel that lacks a requested user |
| Membership.FirstDmFinds | backend/open_webui/models/channels.py:444-455 | the lookup returns a dm of exactly the requested members if there is one, and None only if there is none |
| Membership.CollectedAre | backend/open_webui/models/channels.py:249-268 | the users collected are exactly the inviter, those listed and the members of the groups; collecting fails exactly when some group has none |
| Membership.CountsMembers | backend/open_webui/models/channels.py:429-443 | under uniqueness the counts are the number of members and of requested members |
| Membership.RosterAdds | backend/open_webui/models/channels.py:270-304 | adding one row per new user keeps uniqueness and adds exactly those members to that channel |
| Membership.WithoutRemoves | backend/open_webui/models/channels.py:493-508 | removing users removes exactly them from that channel |
| Membership.MarkedMembers | backend/open_webui/models/channels.py:568-587 | leaving or activating changes no one's membership |
| Membership.MarkedRows | backend/open_webui/models/channels.py:568-587 | and changes the one row of that user and channel only |
| DirectMessages.StepKeepsSound | backend/open_webui/models/channels.py:306-591 | insert, add, remove, join, leave and activate each keep at most one row per channel and user |
| DirectMessages.RunsKeepSound | backend/open_webui/models/channels.py:306-591 | so does every run of them |
| DirectMessages.InsertGives | backend/open_webui/models/channels.py:306-338 | an inserted channel has its kind and owner and, for group and dm, a new row for exactly the collected users; nothing when collecting fails |
| DirectMessages.StepMembers | backend/open_webui/models/channels.py:457-591 | the members of each channel after adding, removing, joining, leaving and activating |
| DirectMessages.MarkingRows | backend/open_webui/models/channels.py:568-672 | leaving makes the user's row inactive and left, activating sets its flag, and no other row changes |
| DirectMessages.MemberRows | backend/open_webui/models/channels.py:457-566 | adding and joining give a joined, active row to exactly the users who had none; removing takes exactly the rows of the named users; every other row stays as it is |
| DirectMessages.LookupIsExact | backend/open_webui/models/channels.py:424-455 | on every run the lookup is exact |
| DirectMessages.StepKeepsDmsIff | backend/open_webui/models/channels.py:306-591 | for each operation: no two dms have the same members afterwards if and only if a lookup made before it finds no other dm: of the members a create collects, or of the members an add, remove or join would leave a dm with |
| DirectMessages.InsertKeepsIff | backend/open_webui/routers/channels.py:263-287 | inserting a dm keeps that if and only if looking up the members collected, groups included, finds none |
| DirectMessages.CreatingTwiceDuplicates | backend/open_webui/routers/channels.py:263-287 | in every sound store, a create whose groups add someone not listed, made twice when neither set has a dm, leaves two dms of the same members |
| DirectMessages.JoiningMerges | backend/open_webui/models/channels.py:529-566 | joining the one participant that tells two dms apart makes them the same |
| DirectMessages.JoiningMergesOnRun | backend/open_webui/models/channels.py:529-566 | a run that does it: a dm of two, a dm of three, and the third joins the first |
| DirectMessages.RunsKeepOneDm | backend/open_webui/routers/channels.py:263-287 | on every run in which dms are made without group ids and keep their members, each participant set has at most one dm, whatever order and repetition the ids came in |
| DirectMessages.AskingAgainFinds | backend/open_webui/routers/channels.py:184-211 | after a find-or-create, asking again for the same participants finds a dm of exactly them and changes no channel and no membership |
| DirectMessages.FoundIsActivated | backend/open_webui/routers/channels.py:184-211 | a dm that is found has the asker's row activated and is otherwise left as it is |
| ChannelTable.CollectUniqueUserIds | backend/open_webui/models/channels.py:249-268 | the union of inviter, users and groups; raises when a group has no members |
| ChannelTable.ChannelTable.CreateMemberships | backend/open_webui/models/channels.py:270-304 | one joined row per user of the set, in the order the set is walked |
| ChannelTable.ChannelTable.InsertNewChannel | backend/open_webui/models/channels.py:306-338 | the channel and, for group and dm, one row per collected user; nothing when collecting raises |
| ChannelTable.ChannelTable.GetDmChannelByUserIds | backend/open_webui/models/channels.py:424-455 | the first dm whose group passes both counts |
| ChannelTable.ChannelTable.AddMembersToChannel | backend/open_webui/models/channels.py:457-491 | rows for exactly the collected users that had none |
| ChannelTable.ChannelTable.RemoveMembersFromChannel | backend/open_webui/models/channels.py:493-508 | the named users' rows go, and their number is returned |
| ChannelTable.ChannelTable.JoinChannel | backend/open_webui/models/channels.py:529-566 | the user's row, found or made |
| ChannelTable.ChannelTable.LeaveChannel | backend/open_webui/models/channels.py:568-587 | the user's first row is marked left and inactive |
| ChannelTable.ChannelTable.MarkMember | backend/open_webui/models/channels.py:653-672 | only the first matching row changes, and whether there was one is returned |
| ChannelTable.ChannelTable.GetDmChannelByUserId | backend/open_webui/routers/channels.py:184-222 | find or create a dm with one user |
| ChannelTable.ChannelTable.CreateNewChannel | backend/open_webui/routers/channels.py:263-306 | find or create for a dm, create otherwise; a dm without user ids fails and changes nothing |
| TagIndex.NormTwice | backend/open_webui/models/tags.py:55 | for ASCII letters a tag id is its own id |
| TagIndex.SameTagIff | backend/open_webui/models/tags.py:55 | two names give the same tag if and only if they differ only in the case of ASCII letters and in spaces for underscores |
| TagIndex.TagIdIsPlain | backend/open_webui/models/tags.py:55 | a tag id holds no ASCII capital and no space |
| TagIndex.NoneIsNone | backend/open_webui/models/chats.py:349 | the two tests that refuse the name `none` refuse the same names |
| TagIndex.PostNone | backend/open_webui/routers/chats.py:1003-1007 | adding the name `none`, however written, changes nothing |
| TagIndex.StepKeepsIndexed | backend/open_webui/models/chats.py:335-353 | for each event: a Tag row for every tag on each chat outside the archive is kept if and only if the event is careful; creating, adding, removing, clearing, archiving and toggling always are, replacing, unarchiving all and deleting under their conditions |
| TagIndex.RunsKeepIndexed | backend/open_webui/models/chats.py:335-353 | so every run of careful events from an empty store keeps it, replaces by admins included |
| TagIndex.ReplaceKeepsIff | backend/open_webui/models/chats.py:335-353 | replacing the tags of a chat, by its owner or an admin, keeps it if and only if the chat is the user's own, archived, or its owner already has the rows of the requested tags |
| TagIndex.ForeignReplaceLosesRow | backend/open_webui/utils/middleware.py:1849-1853 | a run from the empty store that loses it: an admin replaces the tags of someone else's chat |
| TagIndex.DeleteChatKeepsIff | backend/open_webui/routers/chats.py:694-720 | deleting a chat keeps it if and only if the chat is the user's own outside the archive or none of its tags is on exactly one chat outside the archive |
| TagIndex.DeletingArchivedLosesRow | backend/open_webui/routers/chats.py:694-720 | a run from the empty store that loses a row: two chats with one tag, one archived and deleted |
| TagIndex.UnarchiveAllKeepsIff | backend/open_webui/models/chats.py:513-520 | unarchiving all chats keeps it if and only if no tag in the archive lacks its row |
| TagIndex.UnarchiveAllLosesRow | backend/open_webui/models/chats.py:513-520 | a run from the empty store that does not keep it: create, tag, archive, unarchive all |
| TagIndex.ReplaceGivesRequested | backend/open_webui/models/chats.py:335-353 | after a replace the chat's tags are exactly the ids of the requested names other than `none`, other chats are unchanged, and every requested tag has its row |
| TagIndex.ReplaceDropsUnborne | backend/open_webui/models/chats.py:342-346 | a replace, whoever makes it, takes away exactly the rows the user has for old tags of the chat neither requested again nor on a chat of that user outside the archive |
| TagIndex.ForeignUnchanged | backend/open_webui/routers/chats.py:854-1063 | on a chat that is not the user's these operations change nothing |
| TagIndex.PostTagGives | backend/open_webui/routers/chats.py:995-1016 | after adding a tag the chat bears its id besides its other tags, the row is there unless the chat bore the id before, and nothing else changes |
| TagIndex.DeleteTagGives | backend/open_webui/routers/chats.py:1029-1037 | after removing a tag the chat bears it no more, its other tags and all other chats are unchanged, and its row stays exactly if it was there and another chat of the user outside the archive bears the tag |
| TagIndex.DeleteTagsGives | backend/open_webui/routers/chats.py:1054-1063 | after clearing, the chat bears no tag, other chats are unchanged, and exactly the rows of its old tags borne elsewhere stay |
| TagIndex.ToggleGives | backend/open_webui/routers/chats.py:860-880 | toggling the archive flips the flag of this chat; into it, exactly the rows of its tags that no other chat bears go, out of it, the rows of all its tags are there |
| TagIndex.SetArchivedGives | backend/open_webui/models/chats.py:513-567 | archiving or unarchiving everything sets the flag of exactly the user's chats and changes nothing else |
| TagIndex.DeleteChatGives | backend/open_webui/routers/chats.py:694-720 | deleting removes the chat for its owner or an admin only, and the user's rows of exactly those of its tags that one chat bears |
| TagIndex.ToggleKeepsIndexed | backend/open_webui/routers/chats.py:860-880 | archiving one chat drops only rows no other chat needs, unarchiving it restores its rows |
| TagIndex.DeleteTagKeepsIndexed | backend/open_webui/routers/chats.py:1029-1037 | removing a tag drops its row only when no chat outside the archive needs it |
| ChatTags.TagTable.InsertNewTag | backend/open_webui/models/tags.py:53-68 | a row for the id of the name, refused when there is one |
| ChatTags.TagTable.DeleteTagByName | backend/open_webui/models/tags.py:99-109 | exactly the row of the id of the name goes |
| ChatTags.ChatTable.AddChatTag | backend/open_webui/models/chats.py:1091-1112 | the row exists and the chat, if there is one, bears the id |
| ChatTags.ChatTable.DeleteCounted | backend/open_webui/models/chats.py:344-346 | the loop deletes exactly the rows of the listed tags that the given number of chats bear, in whatever order the tags come |
| ChatTags.ChatTable.DeleteAllTags | backend/open_webui/models/chats.py:1179-1191 | only this chat's tags are cleared |
| ChatTags.ChatTable.UpdateChatTags | backend/open_webui/models/chats.py:335-353 | the replace is `ReplaceTags` |
| ChatTags.ChatTable.PostChatTag | backend/open_webui/routers/chats.py:995-1016 | adding a tag: refused for a missing chat or the name none |
| ChatTags.ChatTable.DeleteChatTag | backend/open_webui/routers/chats.py:1029-1041 | removing a tag and its row when unused |
| ChatTags.ChatTable.DeleteChatTags | backend/open_webui/routers/chats.py:1054-1063 | clearing a chat and the rows unused afterwards |
| ChatTags.ChatTable.ArchiveChat | backend/open_webui/routers/chats.py:860-880 | toggling the archive with its row changes |
| ChatTags.ChatTable.InsertMissing | backend/open_webui/routers/chats.py:872-876 | the missing rows of an unarchived chat's tags are made |
| ChatTags.ChatTable.SetAllArchived | backend/open_webui/models/chats.py:513-567 | archiving or unarchiving all of a user's chats touches no row |
| ChatTags.ChatTable.DeleteChatById | backend/open_webui/routers/chats.py:694-720 | the handler: rows of tags counted once go, then the chat if it is the user's or the user is an admin |
| Mentions.MatchesExactlyPrinted | backend/open_webui/utils/channels.py:13-31 | the replacing pattern matches at a position if and only if a printable mention is printed there |
| Mentions.TokensLossless | backend/open_webui/utils/channels.py:31 | cutting a message into matches and the characters between loses nothing |
| Mentions.ExtractsPrinted | backend/open_webui/utils/channels.py:4-10 | extracting from a printed message gives exactly its mentions in order |
| Mentions.ReplacesPrinted | backend/open_webui/utils/channels.py:13-31 | replacing in a printed message gives its texts with each label, or id where there is none or labels are off |
| Mentions.MentionShown | backend/open_webui/utils/channels.py:13-31 | a mention alone is replaced by its label if it has one and labels are asked for, else by its id |
| Mentions.ReplacedAreExtracted | backend/open_webui/utils/channels.py:4-31 | on every message, printed or not, the mentions replaced are among those extracted, in the same order |
| Mentions.ExtractSplits | backend/open_webui/utils/channels.py:8 | no extracted mention runs over a `>` |

## Left out

- MergeResults.MergeAndSort: documents stand for their SHA-256 digests, taken as injective; scores are reals, so NaN and None scores are not modelled.
- StableSort.SortIsStable: the library sort is modelled by insertion, whose result is the same list.
- MergeCompose.MergeOfMerges: stated on the merged columns for every natural k; for k = 0 on a non-empty list the call itself raises, as `MergeAndSort` says.
- HybridSearch.CompressDocuments: the write of the score into the document's metadata and the branch without scores (utils.py:1320-1324) are not modelled; models and vector search are parameters.
- SourceCollections.SearchCollections: what a search returns and the building of the sources are not modelled; stores and network answers are parameters of the item.
- TaskStop.StopReachesSnapshot: publish and subscribe is assumed to deliver each worker's messages in order; the local mode of `stop_item_tasks`, which iterates a list that shrinks under it, is not claimed to reach every task.
- TaskRegistry.LocalsAlwaysAgree: two dictionary updates between the same two awaits are one step; asyncio's scheduling within a worker is any interleaving of these steps.
- SplitAudio.ApproxChunk: `int(duration_ms * (max_bytes / orig_size))` is taken as integer division; the results on chunks only use that the first length is positive or at least 1000.
- TranscribeAudio.Transcribe: conversion and compression before splitting, the side files the speech engine writes, and failing removals are not modelled; the encoded size is any function of the interval.
- Folders.ListingReturns: the recursion limit counts nested calls of the closure, not interpreter frames.
- FolderForest.CheckedRunsListed: renaming and the refusal of a second folder of the same name under one parent (routers/folders.py:205-213) change no parent and are not steps; an insert may bring any key.
- FolderSearch.SearchByNames: the normalisation of names is any function.
- Messages.GetMessageById: users and reactions are not modelled; messages of equal time keep row order, which SQL does not promise; the limit counts nested calls of `get_message_by_id`.
- ConfigTree.PutSucceeds: the nested dictionary is a value rebuilt along the path, so aliasing between a stored list or dictionary and the attribute's value is not captured.
- AppConfig.Process.Fetch: Redis keys are attribute names; a text that is not JSON is kept as such and ignored, as in the source.
- ConfigStore.RestartGivesLastSaved: attribute paths are assumed pairwise incomparable, as those declared in config.py are; `reset_config` and the migration of config.json are not modelled.
- Membership.MatchesIff: stated over sequential operations; the table has no uniqueness constraint, so concurrent joins are not covered. The first matching row in table order stands for SQL's unordered `first()`.
- DirectMessages.RunsKeepOneDm: roles, permissions, events, muting, pinning and read times are not modelled.
- TagIndex.RunsKeepIndexed: importing chats with tags in their metadata, sharing, cloning and the deletion of rows while searching (routers/chats.py:310-317, :540-543) are not modelled.
- TagIndex.NormTwice: `lower()` is the ASCII one; tag lists are sets, since the code rebuilds them from sets; the display name of a row is not modelled.
- Mentions.ExtractsPrinted: the trigger is one character other than `<` and `>` (for `ReplacedAreExtracted` also not `|`).
- Retrieval back ends, HTTP clients, authentication, sockets, migrations, file export and the front end are input and output only.
- Simple create, read, update and delete in users, files, prompts, tools, notes and memories would add only easy members.
- Database sessions, SQL dialects and commits: each query is a filter on rows, each commit a step.
