/** What the write sequences of the ingestion passes guarantee: which ids and keys
    each chunk gets, which store writes can collide, and when chroma's pass stops. */
module IngestionFacts {
  import opened Wrappers
  import opened Text
  import opened Naming
  import opened Ingestion

  lemma MulMono(a: nat, b: nat, c: nat)
    requires a <= b
    ensures a * c <= b * c
  {
  }

  lemma MulSucc(a: nat, b: nat)
    ensures a * b + b == (a + 1) * b
  {
  }

  // ---- the items: no chunk is produced twice ----

  /** The triple a chunk id is built from. */
  function Key(it: Item): (string, int, nat) {
    (it.source, it.chunkSize, it.index)
  }

  predicate DistinctKeys(items: seq<Item>) {
    forall i, j :: 0 <= i < j < |items| ==> Key(items[i]) != Key(items[j])
  }

  predicate DistinctNames(pdfs: seq<Pdf>) {
    forall i, j :: 0 <= i < j < |pdfs| ==> pdfs[i].name != pdfs[j].name
  }

  predicate DistinctSizes(sizes: seq<int>) {
    forall i, j :: 0 <= i < j < |sizes| ==> sizes[i] != sizes[j]
  }

  lemma DistinctAppend(a: seq<Item>, b: seq<Item>)
    requires DistinctKeys(a) && DistinctKeys(b)
    requires forall i, j :: 0 <= i < |a| && 0 <= j < |b| ==> Key(a[i]) != Key(b[j])
    ensures DistinctKeys(a + b)
  {
    forall i, j | 0 <= i < j < |a + b|
      ensures Key((a + b)[i]) != Key((a + b)[j])
    {
      if j < |a| {
      } else if i >= |a| {
        assert (a + b)[i] == b[i - |a|] && (a + b)[j] == b[j - |a|];
      } else {
        assert (a + b)[j] == b[j - |a|];
      }
    }
  }

  /** Every item of one PDF names that PDF and one of the sizes. */
  lemma {:induction false} PdfItemsFrom(p: Pdf, sizes: seq<int>, k: nat)
    requires ValidSizes(sizes) && k < |PdfItems(p, sizes)|
    ensures PdfItems(p, sizes)[k].source == p.name && PdfItems(p, sizes)[k].chunkSize in sizes
    decreases |sizes|
  {
    var front := sizes[..|sizes| - 1];
    var before := PdfItems(p, front);
    if k < |before| {
      PdfItemsFrom(p, front, k);
    }
  }

  /** Every item of a run of PDFs has one of the sizes. */
  lemma {:induction false} ItemsSizes(pdfs: seq<Pdf>, sizes: seq<int>, k: nat)
    requires ValidSizes(sizes) && k < |Items(pdfs, sizes)|
    ensures Items(pdfs, sizes)[k].chunkSize in sizes
    decreases |pdfs|
  {
    var front := pdfs[..|pdfs| - 1];
    var before, last := Items(front, sizes), PdfItems(pdfs[|pdfs| - 1], sizes);
    assert Items(pdfs, sizes) == before + last;
    if k < |before| {
      ItemsSizes(front, sizes, k);
      assert Items(pdfs, sizes)[k] == before[k];
    } else {
      PdfItemsFrom(pdfs[|pdfs| - 1], sizes, k - |before|);
      assert Items(pdfs, sizes)[k] == last[k - |before|];
    }
  }

  /** Every item of a run of PDFs names one of those PDFs. */
  lemma {:induction false} ItemsFrom(pdfs: seq<Pdf>, sizes: seq<int>, k: nat)
    requires ValidSizes(sizes) && k < |Items(pdfs, sizes)|
    ensures exists q :: 0 <= q < |pdfs| && Items(pdfs, sizes)[k].source == pdfs[q].name
    decreases |pdfs|
  {
    var front := pdfs[..|pdfs| - 1];
    var before := Items(front, sizes);
    if k < |before| {
      ItemsFrom(front, sizes, k);
      var q :| 0 <= q < |front| && before[k].source == front[q].name;
      assert pdfs[q] == front[q];
    } else {
      PdfItemsFrom(pdfs[|pdfs| - 1], sizes, k - |before|);
    }
  }

  /** With distinct sizes, one PDF never yields two chunks with the same
      size and index. */
  lemma {:induction false} PdfItemsDistinct(p: Pdf, sizes: seq<int>)
    requires ValidSizes(sizes) && DistinctSizes(sizes)
    ensures DistinctKeys(PdfItems(p, sizes))
    decreases |sizes|
  {
    if sizes != [] {
      var front := sizes[..|sizes| - 1];
      var s := sizes[|sizes| - 1];
      PdfItemsDistinct(p, front);
      var a, b := PdfItems(p, front), SizeItems(p, s);
      forall i, j | 0 <= i < |a| && 0 <= j < |b|
        ensures Key(a[i]) != Key(b[j])
      {
        PdfItemsFrom(p, front, i);
        var t :| 0 <= t < |front| && front[t] == a[i].chunkSize;
        assert sizes[t] != sizes[|sizes| - 1];
      }
      DistinctAppend(a, b);
    }
  }

  /** With distinct PDF names and distinct sizes, no two items of a pass share
      their document, size and index, so no two share a chunk id. */
  lemma {:induction false} ItemsDistinct(pdfs: seq<Pdf>, sizes: seq<int>)
    requires ValidSizes(sizes) && DistinctSizes(sizes) && DistinctNames(pdfs)
    ensures DistinctKeys(Items(pdfs, sizes))
    decreases |pdfs|
  {
    if pdfs != [] {
      var front := pdfs[..|pdfs| - 1];
      var p := pdfs[|pdfs| - 1];
      ItemsDistinct(front, sizes);
      PdfItemsDistinct(p, sizes);
      var a, b := Items(front, sizes), PdfItems(p, sizes);
      forall i, j | 0 <= i < |a| && 0 <= j < |b|
        ensures Key(a[i]) != Key(b[j])
      {
        ItemsFrom(front, sizes, i);
        PdfItemsFrom(p, sizes, j);
        var q :| 0 <= q < |front| && a[i].source == front[q].name;
        assert pdfs[q].name != pdfs[|pdfs| - 1].name;
      }
      DistinctAppend(a, b);
    }
  }

  /** Two items get the same chunk id exactly when they have the same key. */
  lemma ChunkIdOfKey(a: Item, b: Item)
    ensures ChunkId(a.source, a.index, a.chunkSize) == ChunkId(b.source, b.index, b.chunkSize) <==> Key(a) == Key(b)
  {
    ChunkIdInjective(a.source, a.index, a.chunkSize, b.source, b.index, b.chunkSize);
  }

  /** Position `j` of pass `mi` when every pass has `size` entries. */
  function Slot(mi: nat, size: nat, j: nat): nat {
    mi * size + j
  }

  // ---- redis.py: ids restart at 0 for each model ----

  lemma {:induction false} RedisWritesLength(models: seq<string>, items: seq<Item>, embed: Embedder)
    ensures |RedisWrites(models, items, embed)| == |models| * |items|
    decreases |models|
  {
    if models != [] {
      var n := |models|;
      RedisWritesLength(models[..n - 1], items, embed);
      MulSucc(n - 1, |items|);
    }
  }

  /** The write for item `j` in the pass of model `mi` sits at `mi * |items| + j`,
      under key `doc:<model>_<j>`: each model's ids are exactly `0 .. |items| - 1`,
      in PDF, size, chunk order. */
  lemma {:induction false} RedisWritesAt(models: seq<string>, items: seq<Item>, embed: Embedder, mi: nat, j: nat)
    requires mi < |models| && j < |items|
    ensures Slot(mi, |items|, j) < |RedisWrites(models, items, embed)|
    ensures RedisWrites(models, items, embed)[Slot(mi, |items|, j)] == RedisStore(models[mi], embed)(j, items[j])
    ensures RedisWrites(models, items, embed)[Slot(mi, |items|, j)].key == RedisDocKey(models[mi], j)
    decreases |models|
  {
    var n, L := |models|, |items|;
    var front := models[..n - 1];
    RedisWritesLength(front, items, embed);
    if mi == n - 1 {
      NumberedAt(items, 0, RedisStore(models[mi], embed), j);
    } else {
      RedisWritesAt(front, items, embed, mi, j);
      MulMono(mi + 1, n - 1, L);
      assert front[mi] == models[mi];
    }
  }

  /** Two redis writes of one run share a key exactly when their models have the
      same safe name and their items the same position, so keys are unique
      within a model and across models whose safe names differ. */
  lemma RedisKeysUnique(models: seq<string>, items: seq<Item>, embed: Embedder, m1: nat, j1: nat, m2: nat, j2: nat)
    requires m1 < |models| && j1 < |items| && m2 < |models| && j2 < |items|
    ensures Slot(m1, |items|, j1) < |RedisWrites(models, items, embed)|
    ensures Slot(m2, |items|, j2) < |RedisWrites(models, items, embed)|
    ensures RedisWrites(models, items, embed)[Slot(m1, |items|, j1)].key == RedisWrites(models, items, embed)[Slot(m2, |items|, j2)].key
        <==> Sanitize(models[m1]) == Sanitize(models[m2]) && j1 == j2
  {
    RedisWritesAt(models, items, embed, m1, j1);
    RedisWritesAt(models, items, embed, m2, j2);
    RedisDocKeyInjective(models[m1], j1, models[m2], j2);
  }

  /** Within one model's pass, two writes share a chunk id exactly when they are
      the same write, when no two items share their key (`ItemsDistinct`). */
  lemma RedisChunkIdsUnique(models: seq<string>, items: seq<Item>, embed: Embedder, mi: nat, j1: nat, j2: nat)
    requires DistinctKeys(items)
    requires mi < |models| && j1 < |items| && j2 < |items|
    ensures Slot(mi, |items|, j1) < |RedisWrites(models, items, embed)|
    ensures Slot(mi, |items|, j2) < |RedisWrites(models, items, embed)|
    ensures RedisWrites(models, items, embed)[Slot(mi, |items|, j1)].chunkId
         == RedisWrites(models, items, embed)[Slot(mi, |items|, j2)].chunkId
        <==> j1 == j2
  {
    RedisWritesAt(models, items, embed, mi, j1);
    RedisWritesAt(models, items, embed, mi, j2);
    ChunkIdOfKey(items[j1], items[j2]);
    if j1 < j2 {
      assert Key(items[j1]) != Key(items[j2]);
    } else if j2 < j1 {
      assert Key(items[j2]) != Key(items[j1]);
    }
  }

  // ---- qdrant.py: one counter for the whole run ----

  lemma {:induction false} QdrantWritesLength(models: seq<string>, items: seq<Item>, embed: Embedder)
    ensures |QdrantWrites(models, items, embed)| == |models| * |items|
    decreases |models|
  {
    if models != [] {
      var n := |models|;
      QdrantWritesLength(models[..n - 1], items, embed);
      MulSucc(n - 1, |items|);
    }
  }

  /** Point `t` of the run has id `t`: ids are `0 .. total - 1`, so no two points
      of one run share an id, whatever their model, PDF or size. */
  lemma {:induction false} QdrantIds(models: seq<string>, items: seq<Item>, embed: Embedder)
    ensures forall t :: 0 <= t < |QdrantWrites(models, items, embed)| ==> QdrantWrites(models, items, embed)[t].id == t
    decreases |models|
  {
    if models != [] {
      var front := models[..|models| - 1];
      var make := QdrantStore(models[|models| - 1], embed);
      var before := QdrantWrites(front, items, embed);
      QdrantIds(front, items, embed);
      var w := QdrantWrites(models, items, embed);
      forall t | |before| <= t < |w|
        ensures w[t].id == t
      {
        NumberedAt(items, |before|, make, t - |before|);
      }
    }
  }

  /** Item `j` in the pass of model `mi` becomes point `mi * |items| + j` of that
      model's collection, carrying text, source, chunk id and integer chunk size. */
  lemma {:induction false} QdrantWritesAt(models: seq<string>, items: seq<Item>, embed: Embedder, mi: nat, j: nat)
    requires mi < |models| && j < |items|
    ensures Slot(mi, |items|, j) < |QdrantWrites(models, items, embed)|
    ensures QdrantWrites(models, items, embed)[Slot(mi, |items|, j)] == QdrantStore(models[mi], embed)(Slot(mi, |items|, j), items[j])
    ensures QdrantWrites(models, items, embed)[Slot(mi, |items|, j)].collection == Sanitize(models[mi])
    ensures QdrantWrites(models, items, embed)[Slot(mi, |items|, j)].payload
         == QdrantPayload(items[j].text, items[j].source, ChunkId(items[j].source, items[j].index, items[j].chunkSize), items[j].chunkSize)
    decreases |models|
  {
    var n, L := |models|, |items|;
    var front := models[..n - 1];
    QdrantWritesLength(front, items, embed);
    if mi == n - 1 {
      NumberedAt(items, (n - 1) * L, QdrantStore(models[mi], embed), j);
      assert QdrantStore(models[mi], embed)(mi * L + j, items[j]).collection == QdrantCollectionName(models[mi]);
    } else {
      QdrantWritesAt(front, items, embed, mi, j);
      MulMono(mi + 1, n - 1, L);
      assert front[mi] == models[mi];
    }
  }

  // ---- test.py: one counter across all PDFs ----

  /** All items, PDF after PDF. */
  function Concat(lists: seq<seq<Item>>): (r: seq<Item>) {
    if lists == [] then [] else Concat(lists[..|lists| - 1]) + lists[|lists| - 1]
  }

  /** The per-PDF numbering with a counter carried over is one numbering of all
      the items. */
  lemma {:induction false} TestWritesFlat<W>(lists: seq<seq<Item>>, first: nat, make: (nat, Item) -> W)
    ensures TestWrites(lists, first, make) == Numbered(Concat(lists), first, make)
    decreases |lists|
  {
    if lists != [] {
      var front, last := lists[..|lists| - 1], lists[|lists| - 1];
      var before := TestWrites(front, first, make);
      assert TestWrites(lists, first, make) == before + Numbered(last, first + |before|, make);
      assert Concat(lists) == Concat(front) + last;
      TestWritesFlat(front, first, make);
      NumberedAppend(Concat(front), last, first, make);
    }
  }

  /** Chunk `t` of the whole folder run is stored under `doc:<t>`, with the chunk id
      `<pdf>_<i>` of its own PDF and index: keys are consecutive from 0 across PDFs.
      `lists` is the folder's `TestItemLists`. */
  lemma TestKeys(lists: seq<seq<Item>>, embed: Embedder, t: nat)
    requires t < |Concat(lists)|
    ensures |TestWrites(lists, 0, TestStore(embed))| == |Concat(lists)|
    ensures TestWrites(lists, 0, TestStore(embed))[t].key == TestDocKey(t)
    ensures TestWrites(lists, 0, TestStore(embed))[t].chunkId == TestChunkId(Concat(lists)[t].source, Concat(lists)[t].index)
  {
    TestWritesFlat(lists, 0, TestStore(embed));
    NumberedAt(Concat(lists), 0, TestStore(embed), t);
  }

  /** Two test.py writes share a key only if they are the same write. */
  lemma TestKeysUnique(lists: seq<seq<Item>>, embed: Embedder, t1: nat, t2: nat)
    requires t1 < |Concat(lists)| && t2 < |Concat(lists)|
    ensures |TestWrites(lists, 0, TestStore(embed))| == |Concat(lists)|
    ensures TestWrites(lists, 0, TestStore(embed))[t1].key == TestWrites(lists, 0, TestStore(embed))[t2].key <==> t1 == t2
  {
    TestKeys(lists, embed, t1);
    TestKeys(lists, embed, t2);
    TestDocKeyInjective(t1, t2);
  }

  // ---- chroma.py: the registry check ----

  /** Every item's `(model, chunk_size)` has a collection. */
  predicate Registered(registry: Registry, model: string, items: seq<Item>) {
    forall j :: 0 <= j < |items| ==> (model, items[j].chunkSize) in registry
  }

  /** `adds` are the successful adds of the first `|adds|` items, in order. */
  predicate AddedInOrder(registry: Registry, model: string, items: seq<Item>, embed: Embedder, adds: seq<ChromaAdd>) {
    |adds| <= |items| &&
    forall j :: 0 <= j < |adds| ==> ChromaAddItem(registry, model, items[j], embed) == Success(adds[j])
  }

  lemma AddedInOrderSnoc(registry: Registry, model: string, items: seq<Item>, embed: Embedder, adds: seq<ChromaAdd>, a: ChromaAdd)
    requires items != [] && AddedInOrder(registry, model, items[..|items| - 1], embed, adds)
    requires |adds| == |items| - 1 && ChromaAddItem(registry, model, items[|items| - 1], embed) == Success(a)
    ensures AddedInOrder(registry, model, items, embed, adds + [a])
  {
    var front := items[..|items| - 1];
    forall j | 0 <= j < |adds|
      ensures ChromaAddItem(registry, model, items[j], embed) == Success((adds + [a])[j])
    {
      assert items[j] == front[j];
    }
  }

  lemma AddedInOrderWiden(registry: Registry, model: string, items: seq<Item>, embed: Embedder, adds: seq<ChromaAdd>)
    requires items != [] && AddedInOrder(registry, model, items[..|items| - 1], embed, adds)
    ensures AddedInOrder(registry, model, items, embed, adds)
  {
    var front := items[..|items| - 1];
    forall j | 0 <= j < |adds|
      ensures ChromaAddItem(registry, model, items[j], embed) == Success(adds[j])
    {
      assert items[j] == front[j];
    }
  }

  /** What one model's pass has added: the adds of a prefix of its items, in order. */
  lemma {:induction false} ChromaAddAllPrefix(registry: Registry, model: string, items: seq<Item>, embed: Embedder)
    ensures AddedInOrder(registry, model, items, embed, ChromaAddAll(registry, model, items, embed).adds)
    decreases |items|
  {
    if items != [] {
      var front := items[..|items| - 1];
      ChromaAddAllPrefix(registry, model, front, embed);
      var prev := ChromaAddAll(registry, model, front, embed);
      if prev.error.None? {
        ChromaAddAllStop(registry, model, front, embed);
        var r := ChromaAddItem(registry, model, items[|items| - 1], embed);
        if r.Success? {
          AddedInOrderSnoc(registry, model, items, embed, prev.adds, r.value);
        } else {
          AddedInOrderWiden(registry, model, items, embed, prev.adds);
        }
      } else {
        AddedInOrderWiden(registry, model, items, embed, prev.adds);
      }
    }
  }

  /** Where one model's pass stops: it finishes exactly when it added every item;
      otherwise it stopped at the first item whose `(model, chunk_size)` is not
      registered, with that pair in the error. */
  lemma {:induction false} ChromaAddAllStop(registry: Registry, model: string, items: seq<Item>, embed: Embedder)
    ensures ChromaAddAll(registry, model, items, embed).error.None?
        <==> |ChromaAddAll(registry, model, items, embed).adds| == |items|
    ensures ChromaAddAll(registry, model, items, embed).error.Some? ==>
      |ChromaAddAll(registry, model, items, embed).adds| < |items| &&
      var k := |ChromaAddAll(registry, model, items, embed).adds|;
      (model, items[k].chunkSize) !in registry &&
      ChromaAddAll(registry, model, items, embed).error == Some(NotInitialized(model, items[k].chunkSize))
    decreases |items|
  {
    if items != [] {
      var front := items[..|items| - 1];
      ChromaAddAllStop(registry, model, front, embed);
      var prev := ChromaAddAll(registry, model, front, embed);
      if prev.error.Some? {
        assert items[|prev.adds|] == front[|prev.adds|];
      }
    }
  }

  /** The error and the count alone: a pass stops short exactly when an item is
      unregistered, and a pass that finishes has one add per item. */
  lemma ChromaAddAllRegistered(registry: Registry, model: string, items: seq<Item>, embed: Embedder)
    ensures ChromaAddAll(registry, model, items, embed).error.None? <==> Registered(registry, model, items)
    ensures ChromaAddAll(registry, model, items, embed).error.None? ==> |ChromaAddAll(registry, model, items, embed).adds| == |items|
  {
    ChromaAddAllPrefix(registry, model, items, embed);
    ChromaAddAllStop(registry, model, items, embed);
  }

  /** One model's pass raises `ValueError` exactly when some item's
      `(model, chunk_size)` has no collection; otherwise every item is added, in
      order, to the collection registered for its size, under its chunk id. */
  lemma ChromaAddAllSpec(registry: Registry, model: string, items: seq<Item>, embed: Embedder)
    ensures ChromaAddAll(registry, model, items, embed).error.None? <==> Registered(registry, model, items)
    ensures ChromaAddAll(registry, model, items, embed).error.None? ==>
      |ChromaAddAll(registry, model, items, embed).adds| == |items| &&
      forall j :: 0 <= j < |items| ==>
        ChromaAddAll(registry, model, items, embed).adds[j]
        == ChromaAdd(registry[(model, items[j].chunkSize)], ChunkId(items[j].source, items[j].index, items[j].chunkSize),
                     embed(model, items[j].text),
                     ChromaMetadata(items[j].source, items[j].chunkSize, ChunkId(items[j].source, items[j].index, items[j].chunkSize)),
                     items[j].text)
  {
    ChromaAddAllPrefix(registry, model, items, embed);
    ChromaAddAllStop(registry, model, items, embed);
  }

  /** Every model's items are registered. */
  predicate RunRegistered(registry: Registry, models: seq<string>, items: seq<Item>) {
    forall mi :: 0 <= mi < |models| ==> Registered(registry, models[mi], items)
  }

  /** The whole pass raises `ValueError` exactly when some model and chunk size
      has no collection; otherwise it adds `|models| * |items|` documents. */
  lemma {:induction false} ChromaRunError(registry: Registry, models: seq<string>, items: seq<Item>, embed: Embedder)
    ensures ChromaRun(registry, models, items, embed).error.None? <==> RunRegistered(registry, models, items)
    ensures ChromaRun(registry, models, items, embed).error.None? ==>
      |ChromaRun(registry, models, items, embed).adds| == |models| * |items|
    decreases |models|
  {
    if models != [] {
      var n, L := |models|, |items|;
      var front, m := models[..n - 1], models[n - 1];
      var prev, pass := ChromaRun(registry, front, items, embed), ChromaAddAll(registry, m, items, embed);
      assert ChromaRun(registry, models, items, embed) == Then(prev, pass);
      ChromaRunError(registry, front, items, embed);
      ChromaAddAllRegistered(registry, m, items, embed);
      RunRegisteredSnoc(registry, models, items);
      if prev.error.None? && pass.error.None? {
        MulSucc(n - 1, L);
        assert |prev.adds + pass.adds| == (n - 1) * L + L;
      }
    }
  }

  /** Every model is registered exactly when all but the last are and the last is. */
  lemma RunRegisteredSnoc(registry: Registry, models: seq<string>, items: seq<Item>)
    requires models != []
    ensures RunRegistered(registry, models, items)
        <==> RunRegistered(registry, models[..|models| - 1], items) && Registered(registry, models[|models| - 1], items)
  {
    var front := models[..|models| - 1];
    if RunRegistered(registry, front, items) && Registered(registry, models[|models| - 1], items) {
      forall mi | 0 <= mi < |models|
        ensures Registered(registry, models[mi], items)
      {
        if mi < |front| {
          assert models[mi] == front[mi];
        }
      }
    }
    if RunRegistered(registry, models, items) {
      RunRegisteredFront(registry, models, items);
    }
  }

  lemma RunRegisteredFront(registry: Registry, models: seq<string>, items: seq<Item>)
    requires models != [] && RunRegistered(registry, models, items)
    ensures RunRegistered(registry, models[..|models| - 1], items)
    ensures Registered(registry, models[|models| - 1], items)
  {
    var front := models[..|models| - 1];
    forall m | 0 <= m < |front|
      ensures Registered(registry, front[m], items)
    {
      assert models[m] == front[m];
    }
  }

  /** A successful run is the run of all but the last model followed by the last
      model's full pass. */
  lemma ChromaRunSplit(registry: Registry, models: seq<string>, items: seq<Item>, embed: Embedder)
    requires models != [] && RunRegistered(registry, models, items)
    ensures RunRegistered(registry, models[..|models| - 1], items)
    ensures |ChromaRun(registry, models[..|models| - 1], items, embed).adds| == (|models| - 1) * |items|
    ensures ChromaRun(registry, models, items, embed).adds
         == ChromaRun(registry, models[..|models| - 1], items, embed).adds + ChromaAddAll(registry, models[|models| - 1], items, embed).adds
    ensures |ChromaAddAll(registry, models[|models| - 1], items, embed).adds| == |items|
    ensures AddedInOrder(registry, models[|models| - 1], items, embed, ChromaAddAll(registry, models[|models| - 1], items, embed).adds)
  {
    RunRegisteredFront(registry, models, items);
    ChromaRunError(registry, models[..|models| - 1], items, embed);
    ChromaAddAllSpec(registry, models[|models| - 1], items, embed);
    ChromaAddAllPrefix(registry, models[|models| - 1], items, embed);
  }

  lemma ChromaRunAtLast(registry: Registry, models: seq<string>, items: seq<Item>, embed: Embedder, j: nat)
    requires models != [] && RunRegistered(registry, models, items) && j < |items|
    ensures Slot(|models| - 1, |items|, j) < |ChromaRun(registry, models, items, embed).adds|
    ensures ChromaAddItem(registry, models[|models| - 1], items[j], embed)
         == Success(ChromaRun(registry, models, items, embed).adds[Slot(|models| - 1, |items|, j)])
  {
    var n, L := |models|, |items|;
    ChromaRunSplit(registry, models, items, embed);
    var before := ChromaRun(registry, models[..n - 1], items, embed).adds;
    var last := ChromaAddAll(registry, models[n - 1], items, embed).adds;
    assert Slot(n - 1, L, j) == |before| + j;
    AddedInOrderAt(registry, models[n - 1], items, embed, last, j);
    AppendAt(before, last, j);
  }

  lemma AddedInOrderAt(registry: Registry, model: string, items: seq<Item>, embed: Embedder, adds: seq<ChromaAdd>, j: nat)
    requires AddedInOrder(registry, model, items, embed, adds) && j < |adds|
    ensures ChromaAddItem(registry, model, items[j], embed) == Success(adds[j])
  {
  }

  lemma AppendAtFront<T>(before: seq<T>, last: seq<T>, t: nat)
    requires t < |before|
    ensures (before + last)[t] == before[t]
  {
  }

  lemma AppendAt<T>(before: seq<T>, last: seq<T>, j: nat)
    requires j < |last|
    ensures (before + last)[|before| + j] == last[j]
  {
  }

  /** On success, item `j` of model `mi` is document `mi * |items| + j`, added to the
      collection registered for `(model, chunk_size)` under the chunk id. */
  lemma {:induction false} ChromaRunAt(registry: Registry, models: seq<string>, items: seq<Item>, embed: Embedder, mi: nat, j: nat)
    requires RunRegistered(registry, models, items)
    requires mi < |models| && j < |items|
    ensures Slot(mi, |items|, j) < |ChromaRun(registry, models, items, embed).adds|
    ensures ChromaAddItem(registry, models[mi], items[j], embed) == Success(ChromaRun(registry, models, items, embed).adds[Slot(mi, |items|, j)])
    decreases |models|
  {
    var n, L := |models|, |items|;
    if mi == n - 1 {
      ChromaRunAtLast(registry, models, items, embed, j);
    } else {
      var front := models[..n - 1];
      ChromaRunSplit(registry, models, items, embed);
      var before := ChromaRun(registry, front, items, embed).adds;
      var last := ChromaAddAll(registry, models[n - 1], items, embed).adds;
      ChromaRunAt(registry, front, items, embed, mi, j);
      assert front[mi] == models[mi];
      AppendAtFront(before, last, Slot(mi, L, j));
    }
  }

  /** On success, two documents of one model's pass share an id exactly when they
      are the same document, when no two items share their key (`ItemsDistinct`). */
  lemma ChromaIdsUnique(registry: Registry, models: seq<string>, items: seq<Item>, embed: Embedder, mi: nat, j1: nat, j2: nat)
    requires RunRegistered(registry, models, items) && DistinctKeys(items)
    requires mi < |models| && j1 < |items| && j2 < |items|
    ensures Slot(mi, |items|, j1) < |ChromaRun(registry, models, items, embed).adds|
    ensures Slot(mi, |items|, j2) < |ChromaRun(registry, models, items, embed).adds|
    ensures ChromaRun(registry, models, items, embed).adds[Slot(mi, |items|, j1)].id
         == ChromaRun(registry, models, items, embed).adds[Slot(mi, |items|, j2)].id
        <==> j1 == j2
  {
    ChromaRunAt(registry, models, items, embed, mi, j1);
    ChromaRunAt(registry, models, items, embed, mi, j2);
    ChunkIdOfKey(items[j1], items[j2]);
    if j1 < j2 {
      assert Key(items[j1]) != Key(items[j2]);
    } else if j2 < j1 {
      assert Key(items[j2]) != Key(items[j1]);
    }
  }
}
