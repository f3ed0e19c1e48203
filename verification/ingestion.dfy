/** `process_pdf_files` of redis.py, chroma.py and qdrant.py and `process_pdf_folder`
    of test.py: every chunk of every PDF, at every chunk size, for every embedding
    model, is embedded and written to the store. The stores are sinks: each method
    returns the writes it issues, in order. */
module Ingestion {
  import opened Wrappers
  import opened Text
  import opened Naming
  import WindowChunker
  import TokenChunker

  /** A PDF after text extraction: its base name and `extract_text_from_pdf` of it. */
  datatype Pdf = Pdf(name: string, text: string)

  /** The embedding oracle: `ollama.embeddings(model, prompt)["embedding"]`. */
  type Embedder = (string, string) -> seq<real>

  /** One chunk to store: the PDF it came from, the chunk size, its index among the
      chunks of that PDF at that size, and its text. */
  datatype Item = Item(source: string, chunkSize: int, index: nat, text: string)

  predicate ValidSizes(sizes: seq<int>) {
    forall k :: 0 <= k < |sizes| ==> WindowChunker.Step(sizes[k]) != 0
  }

  /** Chunks numbered by `enumerate`, tagged with their PDF and chunk size. */
  function Enumerate(source: string, size: int, chunks: seq<string>): seq<Item> {
    seq(|chunks|, i requires 0 <= i < |chunks| => Item(source, size, i, chunks[i]))
  }

  /** The chunks of one PDF at one size, numbered by `enumerate`. */
  function SizeItems(p: Pdf, size: int): seq<Item>
    requires WindowChunker.Step(size) != 0
  {
    Enumerate(p.name, size, WindowChunker.Chunks(p.text, size))
  }

  /** The chunks of one PDF, size after size. */
  function PdfItems(p: Pdf, sizes: seq<int>): seq<Item>
    requires ValidSizes(sizes)
  {
    if sizes == [] then [] else PdfItems(p, sizes[..|sizes| - 1]) + SizeItems(p, sizes[|sizes| - 1])
  }

  /** What one model's pass stores: PDF after PDF, then size, then chunk. */
  function Items(pdfs: seq<Pdf>, sizes: seq<int>): seq<Item>
    requires ValidSizes(sizes)
  {
    if pdfs == [] then [] else Items(pdfs[..|pdfs| - 1], sizes) + PdfItems(pdfs[|pdfs| - 1], sizes)
  }

  /** The writes for `items` when the counter starts at `first`: item j is stored
      under id `first + j`. `make` is the store's `store_embedding`. */
  function Numbered<W>(items: seq<Item>, first: nat, make: (nat, Item) -> W): (r: seq<W>)
    ensures |r| == |items|
  {
    if items == [] then []
    else Numbered(items[..|items| - 1], first, make) + [make(first + |items| - 1, items[|items| - 1])]
  }

  lemma {:induction false} NumberedAppend<W>(a: seq<Item>, b: seq<Item>, first: nat, make: (nat, Item) -> W)
    ensures Numbered(a + b, first, make) == Numbered(a, first, make) + Numbered(b, first + |a|, make)
    decreases |b|
  {
    if b == [] {
      assert a + b == a;
    } else {
      var b' := b[..|b| - 1];
      assert (a + b)[..|a + b| - 1] == a + b';
      NumberedAppend(a, b', first, make);
    }
  }

  /** Item j of the writes is the store call for item j with id `first + j`. */
  lemma {:induction false} NumberedAt<W>(items: seq<Item>, first: nat, make: (nat, Item) -> W, j: nat)
    requires j < |items|
    ensures Numbered(items, first, make)[j] == make(first + j, items[j])
    decreases |items|
  {
    if j < |items| - 1 {
      NumberedAt(items[..|items| - 1], first, make, j);
    }
  }

  lemma NumberedSnoc<W>(items: seq<Item>, i: nat, first: nat, make: (nat, Item) -> W)
    requires i < |items|
    ensures Numbered(items[..i + 1], first, make) == Numbered(items[..i], first, make) + [make(first + i, items[i])]
  {
    assert items[..i + 1][..i] == items[..i];
  }

  // ---- the loops shared by redis.py and qdrant.py ----

  /** The innermost loop: `chunks`, numbered by `enumerate`, get the ids from `first` on. */
  method StoreEnumerated<W>(source: string, size: int, chunks: seq<string>, make: (nat, Item) -> W, first: nat)
    returns (added: seq<W>, next: nat)
    ensures added == Numbered(Enumerate(source, size, chunks), first, make)
    ensures next == first + |chunks|
  {
    ghost var items := Enumerate(source, size, chunks);
    added, next := [], first;
    var i := 0;
    while i < |chunks|
      invariant i <= |chunks| && next == first + i
      invariant added == Numbered(items[..i], first, make)
    {
      var item := Item(source, size, i, chunks[i]);
      NumberedSnoc(items, i, first, make);
      added := added + [make(next, item)];
      next := next + 1;
      i := i + 1;
    }
    assert items[..i] == items;
  }

  /** The chunks of one PDF at one size get the next ids. */
  method StoreChunks<W>(pdf: Pdf, size: int, make: (nat, Item) -> W, first: nat)
    returns (added: seq<W>, next: nat)
    requires WindowChunker.Step(size) != 0
    ensures added == Numbered(SizeItems(pdf, size), first, make)
    ensures next == first + |SizeItems(pdf, size)|
  {
    var res := WindowChunker.ChunkTextSliced(pdf.text, size);
    added, next := StoreEnumerated(pdf.name, size, res.value, make, first);
  }

  /** Appending the writes for `b` to those for `a`, numbered on from `a`'s end. */
  lemma NumberedStep<W>(a: seq<Item>, b: seq<Item>, first: nat, make: (nat, Item) -> W,
                        added: seq<W>, more: seq<W>, next: nat)
    requires added == Numbered(a, first, make) && next == first + |a|
    requires more == Numbered(b, next, make)
    ensures added + more == Numbered(a + b, first, make)
  {
    NumberedAppend(a, b, first, make);
  }

  /** The size loop for one PDF. */
  method StorePdf<W>(pdf: Pdf, sizes: seq<int>, make: (nat, Item) -> W, first: nat)
    returns (added: seq<W>, next: nat)
    requires ValidSizes(sizes)
    ensures added == Numbered(PdfItems(pdf, sizes), first, make)
    ensures next == first + |PdfItems(pdf, sizes)|
  {
    added, next := [], first;
    var si := 0;
    while si < |sizes|
      invariant si <= |sizes| && ValidSizes(sizes[..si])
      invariant added == Numbered(PdfItems(pdf, sizes[..si]), first, make)
      invariant next == first + |PdfItems(pdf, sizes[..si])|
    {
      var more, next' := StoreChunks(pdf, sizes[si], make, next);
      PdfItemsSnoc(pdf, sizes, si);
      NumberedStep(PdfItems(pdf, sizes[..si]), SizeItems(pdf, sizes[si]), first, make, added, more, next);
      added, next := added + more, next';
      si := si + 1;
    }
    assert sizes[..si] == sizes;
  }

  lemma ItemsSnoc(pdfs: seq<Pdf>, sizes: seq<int>, pi: nat)
    requires ValidSizes(sizes) && pi < |pdfs|
    ensures Items(pdfs[..pi + 1], sizes) == Items(pdfs[..pi], sizes) + PdfItems(pdfs[pi], sizes)
  {
    assert pdfs[..pi + 1][..pi] == pdfs[..pi];
  }

  /** The PDF loop for one embedding model. */
  method StorePdfs<W>(pdfs: seq<Pdf>, sizes: seq<int>, make: (nat, Item) -> W, first: nat)
    returns (added: seq<W>, next: nat)
    requires ValidSizes(sizes)
    ensures added == Numbered(Items(pdfs, sizes), first, make)
    ensures next == first + |Items(pdfs, sizes)|
  {
    added, next := [], first;
    var pi := 0;
    while pi < |pdfs|
      invariant pi <= |pdfs|
      invariant added == Numbered(Items(pdfs[..pi], sizes), first, make)
      invariant next == first + |Items(pdfs[..pi], sizes)|
    {
      var more, next' := StorePdf(pdfs[pi], sizes, make, next);
      ItemsSnoc(pdfs, sizes, pi);
      NumberedStep(Items(pdfs[..pi], sizes), PdfItems(pdfs[pi], sizes), first, make, added, more, next);
      added, next := added + more, next';
      pi := pi + 1;
    }
    assert pdfs[..pi] == pdfs;
  }

  lemma PdfItemsSnoc(pdf: Pdf, sizes: seq<int>, si: nat)
    requires ValidSizes(sizes) && si < |sizes|
    ensures ValidSizes(sizes[..si]) && ValidSizes(sizes[..si + 1])
    ensures PdfItems(pdf, sizes[..si + 1]) == PdfItems(pdf, sizes[..si]) + SizeItems(pdf, sizes[si])
  {
    assert sizes[..si + 1][..si] == sizes[..si];
  }

  // ---- redis.py ----

  /** The hash `store_embedding` sets; `chunk_size` is stored as `str(chunk_size)`. */
  datatype RedisHash = RedisHash(key: string, text: string, source: string, chunkId: string,
                                 chunkSize: string, embedding: seq<real>)

  /** `store_embedding(model, doc_id, ...)` of redis.py:68-80. */
  function RedisStore(model: string, embed: Embedder): (nat, Item) -> RedisHash {
    (docId: nat, item: Item) =>
      RedisHash(RedisDocKey(model, docId), item.text, item.source,
                ChunkId(item.source, item.index, item.chunkSize), IntToString(item.chunkSize),
                embed(model, item.text))
  }

  /** The writes of redis.py:141-164: each model's pass numbers its items from 0. */
  function RedisWrites(models: seq<string>, items: seq<Item>, embed: Embedder): seq<RedisHash> {
    if models == [] then []
    else
      var m := models[|models| - 1];
      RedisWrites(models[..|models| - 1], items, embed) + Numbered(items, 0, RedisStore(m, embed))
  }

  lemma RedisWritesSnoc(models: seq<string>, items: seq<Item>, embed: Embedder, mi: nat)
    requires mi < |models|
    ensures RedisWrites(models[..mi + 1], items, embed)
         == RedisWrites(models[..mi], items, embed) + Numbered(items, 0, RedisStore(models[mi], embed))
  {
    assert models[..mi + 1][..mi] == models[..mi];
  }

  /** The loops of redis.py:141-164 over the extracted PDFs. */
  method RedisProcessPdfFiles(models: seq<string>, pdfs: seq<Pdf>, sizes: seq<int>, embed: Embedder)
    returns (writes: seq<RedisHash>)
    requires ValidSizes(sizes)
    ensures writes == RedisWrites(models, Items(pdfs, sizes), embed)
  {
    writes := [];
    var mi := 0;
    while mi < |models|
      invariant mi <= |models|
      invariant writes == RedisWrites(models[..mi], Items(pdfs, sizes), embed)
    {
      var docIdCounter := 0;
      var added;
      added, docIdCounter := StorePdfs(pdfs, sizes, RedisStore(models[mi], embed), docIdCounter);
      RedisWritesSnoc(models, Items(pdfs, sizes), embed, mi);
      writes := writes + added;
      mi := mi + 1;
    }
    assert models[..mi] == models;
  }

  // ---- qdrant.py ----

  /** The point `store_embedding` upserts; the payload keeps `chunk_size` as an integer. */
  datatype QdrantPayload = QdrantPayload(text: string, source: string, chunkId: string, chunkSize: int)
  datatype QdrantPoint = QdrantPoint(collection: string, id: nat, vector: seq<real>, payload: QdrantPayload)

  /** `store_embedding(model, doc_id, ...)` of qdrant.py:56-72. */
  function QdrantStore(model: string, embed: Embedder): (nat, Item) -> QdrantPoint {
    (docId: nat, item: Item) =>
      QdrantPoint(QdrantCollectionName(model), docId, embed(model, item.text),
                  QdrantPayload(item.text, item.source, ChunkId(item.source, item.index, item.chunkSize), item.chunkSize))
  }

  /** The writes of qdrant.py:127-149: one counter for the whole run, so each model's
      pass continues from where the previous one stopped. */
  function QdrantWrites(models: seq<string>, items: seq<Item>, embed: Embedder): seq<QdrantPoint> {
    if models == [] then []
    else
      var before := QdrantWrites(models[..|models| - 1], items, embed);
      before + Numbered(items, |before|, QdrantStore(models[|models| - 1], embed))
  }

  lemma QdrantWritesSnoc(models: seq<string>, items: seq<Item>, embed: Embedder, mi: nat)
    requires mi < |models|
    ensures var before := QdrantWrites(models[..mi], items, embed);
      QdrantWrites(models[..mi + 1], items, embed) == before + Numbered(items, |before|, QdrantStore(models[mi], embed))
  {
    assert models[..mi + 1][..mi] == models[..mi];
  }

  /** The loops of qdrant.py:127-149 over the extracted PDFs. */
  method QdrantProcessPdfFiles(models: seq<string>, pdfs: seq<Pdf>, sizes: seq<int>, embed: Embedder)
    returns (writes: seq<QdrantPoint>)
    requires ValidSizes(sizes)
    ensures writes == QdrantWrites(models, Items(pdfs, sizes), embed)
  {
    writes := [];
    var docIdCounter := 0;
    var mi := 0;
    while mi < |models|
      invariant mi <= |models|
      invariant writes == QdrantWrites(models[..mi], Items(pdfs, sizes), embed)
      invariant docIdCounter == |writes|
    {
      var added;
      added, docIdCounter := StorePdfs(pdfs, sizes, QdrantStore(models[mi], embed), docIdCounter);
      QdrantWritesSnoc(models, Items(pdfs, sizes), embed, mi);
      writes := writes + added;
      mi := mi + 1;
    }
    assert models[..mi] == models;
  }

  // ---- test.py ----

  /** The embedding model `get_embedding` uses by default in test.py. */
  const TestEmbeddingModel := "paraphrase-multilingual"

  /** The hash test.py's `store_embedding` sets: no model in the key, no chunk size. */
  datatype TestHash = TestHash(key: string, text: string, source: string, chunkId: string, embedding: seq<real>)

  /** The token-budget chunks of one PDF, numbered by `enumerate`; `chunk_text` is
      called with its default budget, which stays a parameter here. */
  function TestPdfItems(p: Pdf, budget: int): seq<Item> {
    Enumerate(p.name, budget, TokenChunker.Chunks(p.text, budget))
  }

  /** Each PDF's items, PDF by PDF. */
  function TestItemLists(pdfs: seq<Pdf>, budget: int): seq<seq<Item>> {
    seq(|pdfs|, k requires 0 <= k < |pdfs| => TestPdfItems(pdfs[k], budget))
  }

  /** The writes of test.py:97-127 with the counter starting at `first`: each PDF's
      chunks continue the numbering where the previous PDF's stopped. */
  function TestWrites<W>(lists: seq<seq<Item>>, first: nat, make: (nat, Item) -> W): seq<W> {
    if lists == [] then []
    else
      var before := TestWrites(lists[..|lists| - 1], first, make);
      before + Numbered(lists[|lists| - 1], first + |before|, make)
  }

  lemma TestWritesSnoc<W>(lists: seq<seq<Item>>, pi: nat, first: nat, make: (nat, Item) -> W)
    requires pi < |lists|
    ensures TestWrites(lists[..pi + 1], first, make)
      == TestWrites(lists[..pi], first, make) + Numbered(lists[pi], first + |TestWrites(lists[..pi], first, make)|, make)
  {
    assert lists[..pi + 1][..pi] == lists[..pi];
  }

  lemma TestWritesStep<W>(lists: seq<seq<Item>>, pi: nat, first: nat, make: (nat, Item) -> W,
                          added: seq<W>, more: seq<W>, counter: nat)
    requires pi < |lists|
    requires added == TestWrites(lists[..pi], first, make) && counter == first + |added|
    requires more == Numbered(lists[pi], counter, make)
    ensures added + more == TestWrites(lists[..pi + 1], first, make)
  {
    TestWritesSnoc(lists, pi, first, make);
  }

  /** `store_embedding(doc_id, ...)` of test.py:41-52 with `chunk_id = f"{pdf_name}_{i}"`. */
  function TestStore(embed: Embedder): (nat, Item) -> TestHash {
    (docId: nat, item: Item) =>
      TestHash(TestDocKey(docId), item.text, item.source, TestChunkId(item.source, item.index),
               embed(TestEmbeddingModel, item.text))
  }

  /** The chunk loop of test.py:112-127 for one PDF: its chunks get the next ids. */
  method TestStorePdf<W>(pdf: Pdf, budget: int, make: (nat, Item) -> W, first: nat) returns (added: seq<W>, next: nat)
    ensures added == Numbered(TestPdfItems(pdf, budget), first, make)
    ensures next == first + |TestPdfItems(pdf, budget)|
  {
    var chunks := TokenChunker.ChunkText(pdf.text, budget);
    added, next := StoreEnumerated(pdf.name, budget, chunks, make, first);
  }

  /** The PDF loop of test.py:98-127, with the counter starting at `first`. */
  method TestStorePdfs<W>(pdfs: seq<Pdf>, budget: int, make: (nat, Item) -> W, first: nat) returns (added: seq<W>)
    ensures added == TestWrites(TestItemLists(pdfs, budget), first, make)
  {
    ghost var lists := TestItemLists(pdfs, budget);
    added := [];
    var docIdCounter := first;
    var pi := 0;
    while pi < |pdfs|
      invariant pi <= |pdfs|
      invariant added == TestWrites(lists[..pi], first, make)
      invariant docIdCounter == first + |added|
    {
      var more, next := TestStorePdf(pdfs[pi], budget, make, docIdCounter);
      TestWritesStep(lists, pi, first, make, added, more, docIdCounter);
      added := added + more;
      docIdCounter := next;
      pi := pi + 1;
    }
    assert lists[..pi] == lists;
  }

  /** `process_pdf_folder` of test.py:90-130: the counter starts at 0 once. */
  method TestProcessPdfFolder(pdfs: seq<Pdf>, embed: Embedder) returns (writes: seq<TestHash>)
    ensures writes == TestWrites(TestItemLists(pdfs, TokenChunker.DefaultBudget), 0, TestStore(embed))
  {
    writes := TestStorePdfs(pdfs, TokenChunker.DefaultBudget, TestStore(embed), 0);
  }

  // ---- chroma.py ----

  /** The `ValueError` of chroma.py:73-75 and 92-94. */
  datatype RegistryError = NotInitialized(model: string, chunkSize: int)

  /** The collections `initialize_vector_store` registered, keyed by `(model, chunk_size)`;
      a collection is identified by its name. */
  type Registry = map<(string, int), string>

  datatype ChromaMetadata = ChromaMetadata(source: string, chunkSize: int, chunkId: string)

  /** One `collection.add` call: a single id, embedding, metadata and document. */
  datatype ChromaAdd = ChromaAdd(collection: string, id: string, embedding: seq<real>,
                                 metadata: ChromaMetadata, document: string)

  /** `add_document` of chroma.py:68-86: an unregistered `(model, chunk_size)` raises and
      adds nothing; a registered one gets one record whose id is the chunk id. */
  function AddDocument(registry: Registry, model: string, chunkSize: int, text: string,
                       source: string, chunkId: string, embedding: seq<real>): Result<ChromaAdd, RegistryError>
  {
    if (model, chunkSize) !in registry then Failure(NotInitialized(model, chunkSize))
    else Success(ChromaAdd(registry[(model, chunkSize)], chunkId, embedding,
                           ChromaMetadata(source, chunkSize, chunkId), text))
  }

  /** The `add_document` call chroma.py:144-154 makes for one item. */
  function ChromaAddItem(registry: Registry, model: string, item: Item, embed: Embedder): Result<ChromaAdd, RegistryError> {
    AddDocument(registry, model, item.chunkSize, item.text, item.source,
                ChunkId(item.source, item.index, item.chunkSize), embed(model, item.text))
  }

  /** The adds made so far, and the error that stopped the run if one did. */
  datatype Outcome = Outcome(adds: seq<ChromaAdd>, error: Option<RegistryError>)

  /** Running `second` after `first`: nothing runs after an error. */
  function Then(first: Outcome, second: Outcome): Outcome {
    if first.error.Some? then first else Outcome(first.adds + second.adds, second.error)
  }

  /** One `add_document` call: the record it adds, or the error it raises. */
  function AddOne(registry: Registry, model: string, item: Item, embed: Embedder): Outcome {
    match ChromaAddItem(registry, model, item, embed)
    case Failure(e) => Outcome([], Some(e))
    case Success(a) => Outcome([a], None)
  }

  /** Adding one model's items in order until the first `ValueError`. */
  function ChromaAddAll(registry: Registry, model: string, items: seq<Item>, embed: Embedder): Outcome {
    if items == [] then Outcome([], None)
    else Then(ChromaAddAll(registry, model, items[..|items| - 1], embed), AddOne(registry, model, items[|items| - 1], embed))
  }

  /** All models, in order, until the first `ValueError`. */
  function ChromaRun(registry: Registry, models: seq<string>, items: seq<Item>, embed: Embedder): Outcome {
    if models == [] then Outcome([], None)
    else Then(ChromaRun(registry, models[..|models| - 1], items, embed),
              ChromaAddAll(registry, models[|models| - 1], items, embed))
  }

  lemma ThenAssoc(x: Outcome, y: Outcome, z: Outcome)
    ensures Then(Then(x, y), z) == Then(x, Then(y, z))
  {
    if x.error.None? && y.error.None? {
      assert (x.adds + y.adds) + z.adds == x.adds + (y.adds + z.adds);
    }
  }

  lemma {:induction false} ChromaAddAllAppend(registry: Registry, model: string, a: seq<Item>, b: seq<Item>, embed: Embedder)
    ensures ChromaAddAll(registry, model, a + b, embed)
         == Then(ChromaAddAll(registry, model, a, embed), ChromaAddAll(registry, model, b, embed))
    decreases |b|
  {
    if b == [] {
      assert a + b == a;
      assert ChromaAddAll(registry, model, a, embed).adds + [] == ChromaAddAll(registry, model, a, embed).adds;
    } else {
      var b', x := b[..|b| - 1], b[|b| - 1];
      assert (a + b)[..|a + b| - 1] == a + b' && (a + b)[|a + b| - 1] == x;
      var one := AddOne(registry, model, x, embed);
      calc {
        ChromaAddAll(registry, model, a + b, embed);
        Then(ChromaAddAll(registry, model, a + b', embed), one);
        { ChromaAddAllAppend(registry, model, a, b', embed); }
        Then(Then(ChromaAddAll(registry, model, a, embed), ChromaAddAll(registry, model, b', embed)), one);
        { ThenAssoc(ChromaAddAll(registry, model, a, embed), ChromaAddAll(registry, model, b', embed), one); }
        Then(ChromaAddAll(registry, model, a, embed), Then(ChromaAddAll(registry, model, b', embed), one));
      }
    }
  }

  lemma ChromaAddAllSnoc(registry: Registry, model: string, items: seq<Item>, i: nat, embed: Embedder)
    requires i < |items|
    ensures ChromaAddAll(registry, model, items[..i + 1], embed)
         == Then(ChromaAddAll(registry, model, items[..i], embed), AddOne(registry, model, items[i], embed))
  {
    assert items[..i + 1][..i] == items[..i];
  }

  /** Once an add has failed, the later items change nothing. */
  lemma ChromaAddAllStopped(registry: Registry, model: string, items: seq<Item>, k: nat, embed: Embedder)
    requires k <= |items| && ChromaAddAll(registry, model, items[..k], embed).error.Some?
    ensures ChromaAddAll(registry, model, items, embed) == ChromaAddAll(registry, model, items[..k], embed)
  {
    var done, rest := items[..k], items[k..];
    assert done + rest == items;
    ChromaAddAllAppend(registry, model, done, rest, embed);
  }

  /** One turn of the chunk loop: a success extends the adds, a failure ends the pass. */
  lemma AddStep(registry: Registry, model: string, items: seq<Item>, i: nat, embed: Embedder,
                adds: seq<ChromaAdd>, r: Result<ChromaAdd, RegistryError>)
    requires i < |items| && Outcome(adds, None) == ChromaAddAll(registry, model, items[..i], embed)
    requires r == ChromaAddItem(registry, model, items[i], embed)
    ensures r.Success? ==> Outcome(adds + [r.value], None) == ChromaAddAll(registry, model, items[..i + 1], embed)
    ensures r.Failure? ==> Outcome(adds, Some(r.error)) == ChromaAddAll(registry, model, items, embed)
  {
    ChromaAddAllSnoc(registry, model, items, i, embed);
    if r.Failure? {
      assert adds + [] == adds;
      ChromaAddAllStopped(registry, model, items, i + 1, embed);
    }
  }

  /** One turn of the size loop: a pass that finished extends the adds, one that
      failed ends the PDF's pass, and with it the model's. */
  lemma PdfStep(registry: Registry, model: string, pdf: Pdf, sizes: seq<int>, si: nat, embed: Embedder,
                adds: seq<ChromaAdd>, more: Outcome)
    requires ValidSizes(sizes) && si < |sizes|
    requires ValidSizes(sizes[..si]) && Outcome(adds, None) == ChromaAddAll(registry, model, PdfItems(pdf, sizes[..si]), embed)
    requires more == ChromaAddAll(registry, model, SizeItems(pdf, sizes[si]), embed)
    ensures ValidSizes(sizes[..si + 1])
    ensures more.error.None? ==> Outcome(adds + more.adds, None) == ChromaAddAll(registry, model, PdfItems(pdf, sizes[..si + 1]), embed)
    ensures more.error.Some? ==> Outcome(adds + more.adds, more.error) == ChromaAddAll(registry, model, PdfItems(pdf, sizes), embed)
  {
    PdfItemsSnoc(pdf, sizes, si);
    ChromaAddAllAppend(registry, model, PdfItems(pdf, sizes[..si]), SizeItems(pdf, sizes[si]), embed);
    if more.error.Some? {
      PdfItemsStop(registry, model, pdf, sizes, si + 1, embed);
    }
  }

  /** One turn of the PDF loop. */
  lemma PdfsStep(registry: Registry, model: string, pdfs: seq<Pdf>, sizes: seq<int>, pi: nat, embed: Embedder,
                 adds: seq<ChromaAdd>, more: Outcome)
    requires ValidSizes(sizes) && pi < |pdfs|
    requires Outcome(adds, None) == ChromaAddAll(registry, model, Items(pdfs[..pi], sizes), embed)
    requires more == ChromaAddAll(registry, model, PdfItems(pdfs[pi], sizes), embed)
    ensures more.error.None? ==> Outcome(adds + more.adds, None) == ChromaAddAll(registry, model, Items(pdfs[..pi + 1], sizes), embed)
    ensures more.error.Some? ==> Outcome(adds + more.adds, more.error) == ChromaAddAll(registry, model, Items(pdfs, sizes), embed)
  {
    ItemsSnoc(pdfs, sizes, pi);
    ChromaAddAllAppend(registry, model, Items(pdfs[..pi], sizes), PdfItems(pdfs[pi], sizes), embed);
    if more.error.Some? {
      ItemsStop(registry, model, pdfs, sizes, pi + 1, embed);
    }
  }

  /** One turn of the model loop. */
  lemma RunStep(registry: Registry, models: seq<string>, items: seq<Item>, mi: nat, embed: Embedder,
                adds: seq<ChromaAdd>, more: Outcome)
    requires mi < |models|
    requires Outcome(adds, None) == ChromaRun(registry, models[..mi], items, embed)
    requires more == ChromaAddAll(registry, models[mi], items, embed)
    ensures more.error.None? ==> Outcome(adds + more.adds, None) == ChromaRun(registry, models[..mi + 1], items, embed)
    ensures more.error.Some? ==> Outcome(adds + more.adds, more.error) == ChromaRun(registry, models, items, embed)
  {
    assert models[..mi + 1][..mi] == models[..mi];
    if more.error.Some? {
      RunStop(registry, models, items, mi + 1, embed);
    }
  }

  /** The chunk loop of chroma.py:143-154: `chunks`, numbered by `enumerate`, are
      added one by one until the first `ValueError`. */
  method ChromaAddEnumerated(registry: Registry, model: string, source: string, size: int,
                             chunks: seq<string>, embed: Embedder) returns (o: Outcome)
    ensures o == ChromaAddAll(registry, model, Enumerate(source, size, chunks), embed)
  {
    ghost var items := Enumerate(source, size, chunks);
    var adds: seq<ChromaAdd> := [];
    var i := 0;
    while i < |chunks|
      invariant i <= |chunks|
      invariant Outcome(adds, None) == ChromaAddAll(registry, model, items[..i], embed)
    {
      var item := Item(source, size, i, chunks[i]);
      var r := ChromaAddItem(registry, model, item, embed);
      AddStep(registry, model, items, i, embed, adds, r);
      if r.Failure? {
        return Outcome(adds, Some(r.error));
      }
      adds := adds + [r.value];
      i := i + 1;
    }
    assert items[..i] == items;
    o := Outcome(adds, None);
  }

  /** The chunks of one PDF at one size. */
  method ChromaAddChunks(registry: Registry, model: string, pdf: Pdf, size: int, embed: Embedder)
    returns (o: Outcome)
    requires WindowChunker.Step(size) != 0
    ensures o == ChromaAddAll(registry, model, SizeItems(pdf, size), embed)
  {
    var res := WindowChunker.ChunkTextSliced(pdf.text, size);
    o := ChromaAddEnumerated(registry, model, pdf.name, size, res.value, embed);
  }

  /** The size loop of chroma.py:141-154 for one PDF. */
  method ChromaAddPdf(registry: Registry, model: string, pdf: Pdf, sizes: seq<int>, embed: Embedder)
    returns (o: Outcome)
    requires ValidSizes(sizes)
    ensures o == ChromaAddAll(registry, model, PdfItems(pdf, sizes), embed)
  {
    var adds: seq<ChromaAdd> := [];
    var si := 0;
    while si < |sizes|
      invariant si <= |sizes| && ValidSizes(sizes[..si])
      invariant Outcome(adds, None) == ChromaAddAll(registry, model, PdfItems(pdf, sizes[..si]), embed)
    {
      var more := ChromaAddChunks(registry, model, pdf, sizes[si], embed);
      PdfStep(registry, model, pdf, sizes, si, embed, adds, more);
      if more.error.Some? {
        return Outcome(adds + more.adds, more.error);
      }
      adds := adds + more.adds;
      si := si + 1;
    }
    assert sizes[..si] == sizes;
    o := Outcome(adds, None);
  }

  lemma PdfItemsStop(registry: Registry, model: string, pdf: Pdf, sizes: seq<int>, k: nat, embed: Embedder)
    requires ValidSizes(sizes) && k <= |sizes|
    requires ChromaAddAll(registry, model, PdfItems(pdf, sizes[..k]), embed).error.Some?
    ensures ChromaAddAll(registry, model, PdfItems(pdf, sizes), embed) == ChromaAddAll(registry, model, PdfItems(pdf, sizes[..k]), embed)
    decreases |sizes| - k
  {
    if k < |sizes| {
      PdfItemsSnoc(pdf, sizes, k);
      ChromaAddAllAppend(registry, model, PdfItems(pdf, sizes[..k]), SizeItems(pdf, sizes[k]), embed);
      PdfItemsStop(registry, model, pdf, sizes, k + 1, embed);
    } else {
      assert sizes[..k] == sizes;
    }
  }

  lemma ItemsStop(registry: Registry, model: string, pdfs: seq<Pdf>, sizes: seq<int>, k: nat, embed: Embedder)
    requires ValidSizes(sizes) && k <= |pdfs|
    requires ChromaAddAll(registry, model, Items(pdfs[..k], sizes), embed).error.Some?
    ensures ChromaAddAll(registry, model, Items(pdfs, sizes), embed) == ChromaAddAll(registry, model, Items(pdfs[..k], sizes), embed)
    decreases |pdfs| - k
  {
    if k < |pdfs| {
      ItemsSnoc(pdfs, sizes, k);
      ChromaAddAllAppend(registry, model, Items(pdfs[..k], sizes), PdfItems(pdfs[k], sizes), embed);
      ItemsStop(registry, model, pdfs, sizes, k + 1, embed);
    } else {
      assert pdfs[..k] == pdfs;
    }
  }

  lemma RunStop(registry: Registry, models: seq<string>, items: seq<Item>, k: nat, embed: Embedder)
    requires k <= |models|
    requires ChromaRun(registry, models[..k], items, embed).error.Some?
    ensures ChromaRun(registry, models, items, embed) == ChromaRun(registry, models[..k], items, embed)
    decreases |models| - k
  {
    if k < |models| {
      assert models[..k + 1][..k] == models[..k];
      RunStop(registry, models, items, k + 1, embed);
    } else {
      assert models[..k] == models;
    }
  }

  /** The PDF loop of chroma.py:137-154 for one embedding model. */
  method ChromaAddPdfs(registry: Registry, model: string, pdfs: seq<Pdf>, sizes: seq<int>, embed: Embedder)
    returns (o: Outcome)
    requires ValidSizes(sizes)
    ensures o == ChromaAddAll(registry, model, Items(pdfs, sizes), embed)
  {
    var adds: seq<ChromaAdd> := [];
    var pi := 0;
    while pi < |pdfs|
      invariant pi <= |pdfs|
      invariant Outcome(adds, None) == ChromaAddAll(registry, model, Items(pdfs[..pi], sizes), embed)
    {
      var more := ChromaAddPdf(registry, model, pdfs[pi], sizes, embed);
      PdfsStep(registry, model, pdfs, sizes, pi, embed, adds, more);
      if more.error.Some? {
        return Outcome(adds + more.adds, more.error);
      }
      adds := adds + more.adds;
      pi := pi + 1;
    }
    assert pdfs[..pi] == pdfs;
    o := Outcome(adds, None);
  }

  /** The loops of chroma.py:136-154 over the extracted PDFs: the first `ValueError`
      ends the run, and the adds made before it stay. */
  method ChromaProcessPdfFiles(registry: Registry, models: seq<string>, pdfs: seq<Pdf>, sizes: seq<int>, embed: Embedder)
    returns (o: Outcome)
    requires ValidSizes(sizes)
    ensures o == ChromaRun(registry, models, Items(pdfs, sizes), embed)
  {
    var adds: seq<ChromaAdd> := [];
    var mi := 0;
    while mi < |models|
      invariant mi <= |models|
      invariant Outcome(adds, None) == ChromaRun(registry, models[..mi], Items(pdfs, sizes), embed)
    {
      var more := ChromaAddPdfs(registry, models[mi], pdfs, sizes, embed);
      RunStep(registry, models, Items(pdfs, sizes), mi, embed, adds, more);
      if more.error.Some? {
        return Outcome(adds + more.adds, more.error);
      }
      adds := adds + more.adds;
      mi := mi + 1;
    }
    assert models[..mi] == models;
    o := Outcome(adds, None);
  }
}
