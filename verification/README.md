# A verified model of the RAG benchmark scripts

The repository benchmarks retrieval-augmented generation over a folder of lecture
PDFs. Three near-identical driver scripts do the work: `redis.py`, `chroma.py` and
`qdrant.py`. Each one:

- creates one index or collection per embedding model (and, in `chroma.py`, per
  chunk size);
- splits every PDF's text into overlapping word windows;
- embeds and stores every window under a derived key or id;
- answers every question for every combination of embedding model, chat model and
  chunk size, writing one log block per combination.

`test.py` is an earlier single-index prototype. It packs words greedily under an
estimated token budget and numbers its retrieved documents in the context.
`python.py` is a small, unrelated helper that scans a string for characters whose MD5
digest is in a target set.

This Dafny project models the deterministic logic under the I/O:

| module | file | what it holds |
|---|---|---|
| `Text` | text.dfy | `str.split()`, `str.join`, `str(int)`, single-character `replace` |
| `Naming` | naming.dfy | model-name sanitising, index, collection and key names, chunk ids |
| `WindowChunker` | window_chunker.dfy | the overlapping-window `chunk_text` of the three drivers |
| `TokenChunker` | token_chunker.dfy | the token-budget `chunk_text` of `test.py` |
| `Ingestion` | ingestion.dfy | the ingestion loops, as methods returning the writes they issue |
| `IngestionFacts` | ingestion_facts.dfy | what those writes guarantee: ids, keys, registry errors |
| `Stores` | stores.dfy | the store setup: chroma's registry, qdrant's reset, redis's indexes |
| `Retrieval` | retrieval.dfy | result filtering, chroma's record reshaping, context and prompt |
| `Benchmark` | benchmark.dfy | `all_combinations_question_answers` over an answer oracle |
| `HashMatch` | hashmatch.dfy | `find_matching_combinations` with MD5 as a parameter |

External services are parameters:

- the embedding call (`Embedder`);
- the chat call (`Chat`);
- each store's k-NN search, given as the list of results it returns;
- MD5.

The stores themselves are values. Ingestion returns the sequence of writes it makes
(`hset`, `collection.add`, `upsert`). The setup steps update classes whose fields hold
the state the scripts keep: chroma's `collections` and `model_dimensions` and its
client's collections, qdrant's collections, and redis's indexes and
`embedding_indices`.

## Model

| member | source | states |
|---|---|---|
| Text.Split | redis.py:91 | `str.split()` yields only non-empty, whitespace-free words |
| Text.SplitJoin | redis.py:94 | splitting the space-join of whitespace-free words gives the words back |
| Text.NatToString | redis.py:157 | `str(n)` of a non-negative integer is decimal digits with no leading zero |
| Text.ParseNatToString | redis.py:157 | `str(n)` can be read back to `n` |
| Text.IntToString | chroma.py:31 | `str(i)` never contains `_` and is never empty |
| Text.IntToStringInjective | chroma.py:31 | different integers print differently |
| Text.Replace | redis.py:45 | `s.replace(a, b)` for single characters: same length, each `a` becomes `b`, all else kept |
| Text.SplitAtLastUnderscore | chroma.py:31 | a name joined with `_` to an underscore-free tail splits back uniquely |
| Naming.Sanitize | redis.py:45 | the safe model name has the same length, each `-` and `:` becomes `_`, and none are left |
| Naming.SanitizeIdempotent | redis.py:69 | sanitising twice is sanitising once |
| Naming.SanitizeAppend | redis.py:69 | sanitising distributes over concatenation |
| Naming.SanitizeKeeps | qdrant.py:44 | a name without `-` or `:` is left unchanged |
| Naming.RedisDocKeyInjective | redis.py:69-70 | two `doc:<model>_<id>` keys are equal exactly when the safe model names and the ids are |
| Naming.RedisDocKeyUnderPrefix | redis.py:69-70 | every key of a model starts with `doc:<model>_`, followed by the id |
| Naming.ChromaCollectionNameInjective | chroma.py:29-31 | two collection names are equal exactly when the safe model names and chunk sizes are |
| Naming.ChromaCollectionNameExample | chroma.py:29-31 | `("nomic-embed-text", 250)` is named `nomic_embed_text_250` |
| Naming.ChunkIdInjective | redis.py:153 | `<pdf>_<i>_<size>` determines the PDF name, the index and the size |
| Naming.TestChunkIdInjective | test.py:113 | `<pdf>_<i>` determines the PDF name and the index |
| Naming.TestDocKeyInjective | test.py:43 | `doc:<id>` keys are equal exactly when the ids are |
| WindowChunker.ChunkTextSliced | redis.py:90-95 | with step `chunk_size // 2` zero, `range` raises; otherwise the result is the joined windows from word 0 |
| WindowChunker.SlicedWindows | chroma.py:125-126 | the slicing loop appends exactly the joined windows, in order |
| WindowChunker.ChunkTextClipped | qdrant.py:82-88 | the `min`-clipping version raises for a zero step and otherwise returns the same list as the slicing version |
| WindowChunker.ClippedWindows | qdrant.py:85-87 | the clipping loop appends exactly the joined windows, in order |
| WindowChunker.SliceClips | qdrant.py:86-87 | for a start inside the words, slicing to `i + chunk_size` equals slicing to `min(i + chunk_size, n)` |
| WindowChunker.WindowsFromCount | redis.py:93 | the count is the least `k` with `k * step >= n`, so `ceil(n / step)` windows |
| WindowChunker.WindowsAt | redis.py:93-94 | window `j` starts at word `j * step`, is `words[start : min(start + chunk_size, n)]` and is not empty |
| WindowChunker.WindowsLast | redis.py:93-94 | there are windows exactly when there are words; the last one starts below `n` and reaches word `n` |
| WindowChunker.WindowOf | redis.py:93-94 | every word lies in a window, within that window's first `step` words |
| WindowChunker.ChunksSplitBack | chroma.py:122-127 | splitting chunk `j` again gives exactly the words of window `j`, and no chunk is `""` |
| WindowChunker.NoChunks | redis.py:91-95 | text without words, or a negative chunk size, gives `[]` |
| TokenChunker.Cost | test.py:74 | a word's estimated cost `len // 4 + 1` is at least 1 and is the floor of a quarter of the length, plus one |
| TokenChunker.ChunkText | test.py:64-87 | the loop returns the joined packed word lists of the split text |
| TokenChunker.PackWords | test.py:72-85 | the greedy loop over the words appends exactly the packed chunks, in order |
| TokenChunker.PackFlatten | test.py:76-82 | from any loop state, the chunks hold the current words then the remaining words, with nothing lost or reordered |
| TokenChunker.PackWithinBudget | test.py:76-82 | every chunk of two or more words costs at most the budget |
| TokenChunker.PackMaximal | test.py:76-79 | a chunk is closed only when the next word would take it over the budget |
| TokenChunker.PackNonEmpty | test.py:78-85 | after the first word, every chunk is non-empty |
| TokenChunker.WordChunksSpec | test.py:72-87 | the chunks concatenate back to the words; chunks of two or more words fit the budget; each chunk is maximal; only the first can be empty, exactly when the first word alone is over budget; no words gives no chunks |
| TokenChunker.ChunksSplitBack | test.py:84-87 | each returned chunk splits back to its word list, and together they give the split text |
| Ingestion.Numbered | redis.py:155-164 | the counted loop makes exactly one write per item |
| Ingestion.NumberedAppend | redis.py:155-164 | numbering two runs of items in sequence continues the counter across them |
| Ingestion.NumberedAt | qdrant.py:140-149 | write `j` is the store call for item `j` with id `first + j` |
| Ingestion.StoreEnumerated | redis.py:151-164 | the chunk loop writes every chunk in order and advances the counter by the chunk count |
| Ingestion.StoreChunks | redis.py:148-164 | the chunks of one PDF at one size take the next ids |
| Ingestion.StorePdf | redis.py:148-164 | the size loop writes each size's chunks in turn, with consecutive ids |
| Ingestion.StorePdfs | redis.py:144-164 | the PDF loop writes PDF after PDF, size after size, chunk after chunk, with consecutive ids |
| Ingestion.RedisProcessPdfFiles | redis.py:141-164 | the writes are each model's pass in turn, each numbered from 0 |
| Ingestion.QdrantProcessPdfFiles | qdrant.py:127-149 | the writes are each model's pass in turn, numbered on from the previous pass |
| Ingestion.TestStorePdf | test.py:104-127 | one PDF's chunks take the next ids in order |
| Ingestion.TestStorePdfs | test.py:98-127 | the PDF loop carries the counter from PDF to PDF |
| Ingestion.TestProcessPdfFolder | test.py:90-130 | the folder's writes number all chunks of all PDFs from 0, with the 100-token budget |
| Ingestion.ThenAssoc | chroma.py:136-154 | running three stretches of adds does not depend on how they are grouped |
| Ingestion.ChromaAddAllAppend | chroma.py:141-154 | adding `a + b` is adding `a` then `b`, stopping at the first error |
| Ingestion.ChromaAddAllStopped | chroma.py:73-75 | after an add has raised, later items change nothing |
| Ingestion.AddStep | chroma.py:143-154 | a successful add extends the adds; a failed one is the outcome of the whole pass |
| Ingestion.ChromaAddEnumerated | chroma.py:143-154 | the chunk loop adds the numbered chunks in order until the first error |
| Ingestion.ChromaAddChunks | chroma.py:142-154 | one PDF at one size adds its chunks until the first error |
| Ingestion.ChromaAddPdf | chroma.py:141-154 | the size loop adds size after size and stops at the first error |
| Ingestion.ChromaAddPdfs | chroma.py:137-154 | the PDF loop adds PDF after PDF and stops at the first error |
| Ingestion.ChromaProcessPdfFiles | chroma.py:136-154 | the model loop adds every model's items in turn and stops at the first error |
| Ingestion.RunStop | chroma.py:136-154 | once a model's pass has raised, later models add nothing |
| IngestionFacts.PdfItemsFrom | redis.py:148-153 | every item of a PDF names that PDF and one of the listed sizes |
| IngestionFacts.ItemsSizes | redis.py:144-153 | every item of a pass has one of the listed sizes |
| IngestionFacts.ItemsFrom | redis.py:144-153 | every item of a pass names one of the PDFs |
| IngestionFacts.PdfItemsDistinct | chroma.py:141-145 | with distinct sizes, no two chunks of one PDF share `(pdf, size, index)` |
| IngestionFacts.ItemsDistinct | chroma.py:137-145 | with distinct PDF names and sizes, no two chunks of a pass share `(pdf, size, index)` |
| IngestionFacts.ChunkIdOfKey | chroma.py:145 | two items get the same chunk id exactly when they share `(pdf, size, index)` |
| IngestionFacts.RedisWritesLength | redis.py:141-164 | the run writes `models * items` hashes |
| IngestionFacts.RedisWritesAt | redis.py:141-164 | item `j` in model `mi`'s pass is write `mi * items + j`, stored under `doc:<model>_<j>` |
| IngestionFacts.RedisKeysUnique | redis.py:142-162 | two writes share a key exactly when their safe model names match and their ids are equal |
| IngestionFacts.RedisChunkIdsUnique | redis.py:153 | within one model's pass, with distinct items, two writes share a chunk id only if they are the same write |
| IngestionFacts.QdrantWritesLength | qdrant.py:127-149 | the run upserts `models * items` points |
| IngestionFacts.QdrantIds | qdrant.py:127-149 | point `t` of the run has id `t`, so ids are `0 .. total - 1` and unique across models |
| IngestionFacts.QdrantWritesAt | qdrant.py:56-72 | item `j` of model `mi` goes to that model's collection as point `mi * items + j`, with payload text, source, chunk id and integer size |
| IngestionFacts.TestWritesFlat | test.py:97-127 | carrying the counter across PDFs numbers all chunks in one sequence |
| IngestionFacts.TestKeys | test.py:113-125 | chunk `t` of the folder is stored under `doc:<t>` with chunk id `<pdf>_<i>` |
| IngestionFacts.TestKeysUnique | test.py:97-127 | two writes share a key exactly when they are the same write |
| IngestionFacts.ChromaAddAllPrefix | chroma.py:143-154 | a pass's adds are the records of its first items, in order |
| IngestionFacts.ChromaAddAllStop | chroma.py:73-75 | a pass finishes exactly when it added every item; otherwise the next item's pair is unregistered and is the one named in the error |
| IngestionFacts.ChromaAddAllRegistered | chroma.py:73-75 | a pass raises exactly when some item's pair is unregistered; otherwise it adds one record per item |
| IngestionFacts.ChromaAddAllSpec | chroma.py:143-154 | a pass raises exactly when some item's pair is unregistered; otherwise record `j` is item `j` in the collection for its size, under its chunk id |
| IngestionFacts.ChromaRunError | chroma.py:136-154 | the whole run raises exactly when some model and size is unregistered; otherwise it adds `models * items` records |
| IngestionFacts.RunRegisteredSnoc | chroma.py:136 | every model is registered exactly when all but the last are and the last is |
| IngestionFacts.ChromaRunSplit | chroma.py:136-154 | a successful run is the run of all but the last model, then the last model's full pass |
| IngestionFacts.ChromaRunAt | chroma.py:136-154 | on success, item `j` of model `mi` is record `mi * items + j`, the add made for that item |
| IngestionFacts.ChromaIdsUnique | chroma.py:143-154 | on success, with distinct items, two records of one model's pass share an id only if they are the same record |
| Stores.Recreate | chroma.py:54-63 | deleting a collection if it exists and then creating it leaves that name empty and keeps every other name |
| Stores.ChromaStore.constructor | chroma.py:24-26 | the globals start empty |
| Stores.ChromaStore.RegisterSizes | chroma.py:51-65 | the size loop registers each size's collection name and recreates that collection empty |
| Stores.ChromaStore.InitializeVectorStore | chroma.py:40-65 | the client opens the collections already on disk, then the registry, the client's collections and `model_dimensions` become their folds over the models and sizes |
| Stores.ChromaStore.AddDocumentTo | chroma.py:68-86 | an unregistered pair raises and changes nothing; otherwise exactly one record is appended to the registered collection |
| Stores.RegisterModelSpec | chroma.py:51-65 | a model's size loop adds exactly its `(model, size)` pairs, named by `get_collection_name`, and keeps the others |
| Stores.RegisterAllSpec | chroma.py:47-65 | afterwards a pair is registered exactly when it was before or it is a listed model and size; new pairs get their collection names |
| Stores.RegistryKeys | chroma.py:47-65 | from empty globals, the registry's keys are exactly `embedding_models x chunk_sizes` |
| Stores.DimensionsSpec | chroma.py:47-49 | every listed model's dimension is its probe embedding's length; other entries are kept |
| Stores.RecreateModelSpec | chroma.py:51-63 | recreating one model's collections leaves each one empty and keeps the others |
| Stores.RecreateAllSpec | chroma.py:47-63 | after initialization, every listed model and size has an empty collection |
| Stores.RecreateAllKeeps | chroma.py:43-59 | a collection left on disk by an earlier run that no listed model and size names keeps its documents |
| Stores.InitializedRunSucceeds | chroma.py:217-221 | after `initialize_vector_store` on empty globals, ingestion over the same models and sizes never raises `ValueError` |
| Stores.QdrantServer.constructor | qdrant.py:10 | the server starts with the given collections |
| Stores.QdrantServer.CreateIndices | qdrant.py:36-53 | the model loop leaves the collections at their fold over the models |
| Stores.CreatedCollectionsNames | qdrant.py:44-53 | afterwards a collection exists exactly when it existed before or a listed model names it |
| Stores.CreatedCollectionsKeep | qdrant.py:46-48 | a collection no model names is not deleted or changed |
| Stores.CreatedCollectionsFresh | qdrant.py:46-53 | each model's collection is empty and has that model's probed dimension, unless a later model shares its name |
| Stores.RedisServer.constructor | redis.py:11-28 | the server starts with the given indexes and no `embedding_indices` |
| Stores.RedisServer.CreateIndicesAsWritten | redis.py:37-65 | as written, the first model's index is dropped, its name recorded, and `NameError` raised at the `FT.CREATE` command |
| Stores.AsWrittenMissesFirstIndex | redis.py:56 | as written, no index exists afterwards for the first model |
| Stores.RedisServer.CreateIndices | redis.py:37-65 | corrected, every model gets an index over its own key prefix with its probed dimension, and its name is recorded |
| Stores.CreatedIndexesCover | redis.py:45-70 | corrected, every listed model's index exists, covers every key `store_embedding` writes for it, and is recorded in `embedding_indices` |
| Retrieval.Filter | redis.py:114 | a comprehension with a condition never grows the list |
| Retrieval.FilterAppend | redis.py:114 | filtering keeps the kept elements in their order |
| Retrieval.FilterMember | qdrant.py:102 | an element is kept exactly when it was returned and passes the test |
| Retrieval.FilterAllKept | qdrant.py:102 | nothing is dropped when every element passes |
| Retrieval.Take | redis.py:116 | `s[:k]` is a prefix of length `min(k, len(s))` |
| Retrieval.RedisContextDocs | redis.py:114-116 | the context documents are the first `min(k, n)` of the `n` returned documents of the asked size, in KNN order; each was returned and has that size |
| Retrieval.RedisKeepStored | redis.py:77 | a stored hash passes the chunk-size filter exactly when its item had that size |
| Retrieval.QdrantContextHits | qdrant.py:102 | the context's hits are exactly the returned hits with the asked integer size, never more than returned |
| Retrieval.QueryVectorStore | chroma.py:89-112 | an unregistered pair raises `ValueError` for that pair; `IndexError` exactly when a returned row is shorter than the ids; otherwise one record per returned id, in order, with text, source, chunk id and distance from entry `i` of row 0 and the size as a string |
| Retrieval.NumberedContext | test.py:151-153 | the loop builds the concatenation of the numbered blocks |
| Retrieval.NumberedContextAt | test.py:151-153 | result `j` appears as block `Document <j+1>` right after the blocks of the earlier results |
| Retrieval.NumberedContextAppend | test.py:151-153 | after the blocks of the first results come exactly the blocks of the rest, numbered on from where the first ones stopped |
| Retrieval.NumberedContextAll | test.py:151-153 | the context is the blocks of all results numbered from 1 in result order, and nothing else |
| Retrieval.PromptWith | redis.py:118-125 | the prompt is the fixed head, the context, the fixed middle, the question and the instruction, each in its slot |
| Retrieval.PromptLayoutUnique | redis.py:118-125 | a string with the context and question in their slots is the prompt: the layout fixes it |
| Retrieval.RedisAnswerSpec | redis.py:98-132 | a model without an index raises `KeyError`; otherwise the answer is the reply to the prompt whose context joins the texts of the first `min(k, n)` returned documents of the asked size, each returned and of that size |
| Retrieval.QdrantAnswerSpec | qdrant.py:91-118 | the answer is the reply to the prompt whose context joins, in rank order, the texts of exactly those hits from the sanitised model's collection that have the asked integer size |
| Retrieval.ChromaAnswerSpec | chroma.py:156-182 | an unregistered pair raises `ValueError`; rows shorter than the ids raise `IndexError`; otherwise the answer is the reply to the prompt whose context joins the first returned documents, one per id, in ranked order |
| Retrieval.TestAnswerSpec | test.py:133-176 | the answer is `llama3.2`'s reply to the prompt whose context is the numbered block of every returned document, from 1, in result order |
| Benchmark.ConcatUniformLength | redis.py:170-173 | nested loops of uniform size visit `outer * inner` cells |
| Benchmark.ConcatUniformAt | redis.py:170-173 | part `i` of a uniform nesting sits at offset `i * m` |
| Benchmark.CellsLength | redis.py:170-173 | the grid has `E * L * C * Q` cells |
| Benchmark.CellsAt | chroma.py:187-193 | cell `((e * L + l) * C + c) * Q + q` is the combination `(e, l, c, q)` |
| Benchmark.LogAt | redis.py:176-205 | with `m` writes per cell, the log has `cells * m` writes and cell `t`'s block sits at `t * m` |
| Benchmark.RunQuestions | redis.py:173-205 | the question loop writes each question's block in order |
| Benchmark.RunSizes | redis.py:172-205 | the size loop writes each size's blocks in order |
| Benchmark.RunLlms | redis.py:171-205 | the chat-model loop writes each chat model's blocks in order |
| Benchmark.AllCombinations | chroma.py:185-215 | the four loops write one block per cell, in nested order, whatever each answer was |
| Benchmark.LabelledLogAt | chroma.py:185-215 | the log has `5 * E * L * C * Q` writes, and each combination's block is at its cell's offset |
| Benchmark.QdrantLogAt | qdrant.py:152-175 | the log has `2 * E * L * C * Q` writes, and each combination's block is at its cell's offset |
| Benchmark.QdrantErrorBlocksAlike | qdrant.py:172-175 | two failed cells with the same question and message write the same block |
| Benchmark.LabelledBlockNamesCell | redis.py:189-205 | two equal blocks belong to the same cell |
| HashMatch.Full | python.py:12-15 | the dictionary of a full scan has only target keys |
| HashMatch.Consumed | python.py:12-19 | the scan examines at most every character |
| HashMatch.FindMatchingCombinations | python.py:7-19 | the loop with its early return yields the model scan |
| HashMatch.ScanIsFullPrefix | python.py:12-19 | the result is the full-scan dictionary of the examined prefix, and an early stop happens only when it is full |
| HashMatch.FullKeys | python.py:13-15 | a digest is a key exactly when it is a target and some scanned character has it |
| HashMatch.FullLastWins | python.py:15 | the character kept for a digest is the last scanned character with that digest |
| HashMatch.ScanSound | python.py:12-18 | keys are targets, there are no more keys than targets, and each value is the last examined character with its digest |
| HashMatch.ScanComplete | python.py:12-19 | every character of the input whose digest is a target has that digest as a key |
| HashMatch.ScanStopsWhenFull | python.py:16-18 | the scan stops early only once every target is matched |
| HashMatch.ScanEmptyTargets | python.py:14-19 | with no targets, the result is empty after a full scan |

## Left out

- The Ollama embedding and chat calls, PyPDF2 text extraction, and the Redis,
  Chroma and Qdrant clients are parameters or values. The k-NN search, HNSW and
  cosine distance live in those libraries.
- Float32 vectors and `np.array(...).tobytes()` are not modelled. An embedding is an
  uninterpreted `seq<real>` passed through unchanged.
- Path globbing, `os.path.basename` and the "no PDF files" early return are not
  modelled. A run takes the extracted PDFs as a list of names and texts.
- `print`, `time.time()`, the `main` try/except wrappers and test.py's interactive
  `input()` loop are not modelled.
- Benchmark.AllCombinations: assumes the console `print` after the log writes
  (redis.py:195, and qdrant.py:171 for Benchmark.QdrantLogAt) does not raise. A
  raising print would add a second block for the cell.
- test.py's `create_hnsw_index` and the text of the `FT.CREATE` commands are not
  modelled. The command language belongs to the Redis search module. An index is
  modelled as the key prefix it covers and its dimension.
- MD5 is a parameter of `HashMatch`, and python.py's `main` with its hard-coded data
  is not modelled.
- Chroma's behaviour on a duplicate id and Qdrant's overwrite on upsert are not
  modelled. They are library-defined; the model records the writes, and
  `IngestionFacts` proves which ids and keys are distinct.
- Ingestion.StoreChunks, Ingestion.StorePdf, Ingestion.StorePdfs,
  Ingestion.ChromaAddChunks, Ingestion.ChromaAddPdf, Ingestion.ChromaAddPdfs,
  Ingestion.RedisProcessPdfFiles, Ingestion.QdrantProcessPdfFiles and
  Ingestion.ChromaProcessPdfFiles: require the chunk size (every chunk size, for the
  passes over several) to give a non-zero step (`WindowChunker.Step`, `ValidSizes`). With a chunk size of 0 or 1, the
  scripts' `range` raises `ValueError` inside ingestion. `chunk_text` models that
  error (WindowChunker.ChunkTextSliced) but the ingestion passes do not.
- Ingestion.AddDocument: treats `if not collection` as "no entry for the pair". A
  registered collection object is always truthy.
- Stores.ChromaStore.AddDocumentTo and Stores.InitializedRunSucceeds: the registry
  maps `(model, chunk_size)` to the collection's name, not to the `Collection`
  object chroma.py:65 stores. When two models have the same safe name (say `a-b` and
  `a:b`, see Naming.ChromaCollectionNameInjective), chroma.py:55 deletes the
  collection that the first model's entry still holds. What adding to that deleted
  collection does is up to the Chroma library. The model sends both models'
  chunks to the one live collection of that name.
- Stores.ChromaStore.AddDocumentTo: requires the registered collection to exist in
  the client. `initialize_vector_store` establishes this
  (Stores.RecreateAllSpec).
- Retrieval.RedisAnswer, Retrieval.QdrantAnswer, Retrieval.ChromaAnswer and
  Retrieval.TestAnswer: take `k` as a natural number. A negative `k` would slice
  from the end in Python.
- Stores.RedisServer.CreateIndicesAsWritten and Stores.RedisServer.CreateIndices:
  `FT.DROPINDEX ... DD` (redis.py:50) also deletes the documents the old index
  covered. The model drops the index only; the stored hashes are left as they are.
- Stores.QdrantServer.CreateIndices and Stores.RedisServer.CreateIndices: the local
  `model_dimensions` dictionaries of qdrant.py and redis.py are never read, so they
  are not modelled. chroma.py's global one is.
- The chunk loops are methods over the word list (WindowChunker.SlicedWindows,
  TokenChunker.PackWords). `str.split()` is computed once before the loop, as in the
  scripts.
- TokenChunker.ChunkText takes the budget as a parameter. test.py always calls it
  with the default of 100 (Ingestion.TestProcessPdfFolder uses
  `TokenChunker.DefaultBudget`).
- `str.split()` follows Python's `str.isspace()` set of characters. Other Unicode
  behaviour (normalisation, case) does not arise.

## Findings

| source | as written | input that shows it | evidently intended | confidence | as-written member | corrected member |
|---|---|---|---|---|---|---|
| redis.py:56 | `create_indices` builds the `FT.CREATE` prefix from `model_safe_name`, a name that is defined only inside `store_embedding` (redis.py:69), so it raises `NameError` after dropping the first model's index | any non-empty `embedding_models`, e.g. the script's own three models | the prefix `doc:<model_name>_` from the sanitised name computed at redis.py:45, so that each index covers the keys `store_embedding` writes for its model | not executed | Stores.RedisServer.CreateIndicesAsWritten, Stores.AsWrittenMissesFirstIndex | Stores.RedisServer.CreateIndices, Stores.CreatedIndexesCover |
