/** The setup each driver script performs on its store before ingestion: chroma.py's
    collection registry, qdrant.py's collection reset and redis.py's search indexes.
    Each store is a class whose fields are the store's state; the embedding model
    that is probed for a dimension is a parameter. */
module Stores {
  import opened Wrappers
  import opened Naming
  import opened Ingestion
  import IngestionFacts

  /** The text every script embeds once per model to learn the vector dimension. */
  const SampleText := "This is a sample text to determine embedding dimensions."

  /** The dimension `get_embedding_and_dimensions(sample_text, model)` reports. */
  function Dimension(embed: Embedder, model: string): nat {
    |embed(model, SampleText)|
  }

  // ---- chroma.py ----

  /** The registry after the size loop of chroma.py:51-65 for one model. */
  function RegisterModel(reg: Registry, model: string, sizes: seq<int>): Registry {
    if sizes == [] then reg
    else RegisterModel(reg, model, sizes[..|sizes| - 1])[(model, sizes[|sizes| - 1]) := ChromaCollectionName(model, sizes[|sizes| - 1])]
  }

  /** The registry after the model loop of chroma.py:47-65. */
  function RegisterAll(reg: Registry, models: seq<string>, sizes: seq<int>): Registry {
    if models == [] then reg
    else RegisterModel(RegisterAll(reg, models[..|models| - 1], sizes), models[|models| - 1], sizes)
  }

  /** The client's collections after the size loop for one model: each name is
      deleted if present and created again, empty. */
  function RecreateModel(client: map<string, seq<ChromaAdd>>, model: string, sizes: seq<int>): map<string, seq<ChromaAdd>> {
    if sizes == [] then client
    else Recreate(RecreateModel(client, model, sizes[..|sizes| - 1]), ChromaCollectionName(model, sizes[|sizes| - 1]), [])
  }

  /** `delete_collection(name)` where it exists, then `create_collection(name)`,
      which makes it `empty`. */
  function Recreate<V>(client: map<string, V>, name: string, empty: V): (r: map<string, V>)
    ensures r.Keys == client.Keys + {name} && r[name] == empty
    ensures forall n :: n in client && n != name ==> r[n] == client[n]
  {
    (if name in client then client - {name} else client)[name := empty]
  }

  lemma RegisterModelSnoc(reg: Registry, model: string, sizes: seq<int>, si: nat)
    requires si < |sizes|
    ensures RegisterModel(reg, model, sizes[..si + 1])
         == RegisterModel(reg, model, sizes[..si])[(model, sizes[si]) := ChromaCollectionName(model, sizes[si])]
  {
    assert sizes[..si + 1][..si] == sizes[..si];
  }

  lemma RecreateModelSnoc(client: map<string, seq<ChromaAdd>>, model: string, sizes: seq<int>, si: nat)
    requires si < |sizes|
    ensures RecreateModel(client, model, sizes[..si + 1])
         == Recreate(RecreateModel(client, model, sizes[..si]), ChromaCollectionName(model, sizes[si]), [])
  {
    assert sizes[..si + 1][..si] == sizes[..si];
  }

  function RecreateAll(client: map<string, seq<ChromaAdd>>, models: seq<string>, sizes: seq<int>): map<string, seq<ChromaAdd>> {
    if models == [] then client
    else RecreateModel(RecreateAll(client, models[..|models| - 1], sizes), models[|models| - 1], sizes)
  }

  /** `model_dimensions` after the model loop. */
  function Dimensions(dims: map<string, nat>, models: seq<string>, embed: Embedder): map<string, nat> {
    if models == [] then dims
    else Dimensions(dims, models[..|models| - 1], embed)[models[|models| - 1] := Dimension(embed, models[|models| - 1])]
  }

  /** The globals `collections` and `model_dimensions` of chroma.py and the
      collections of its persistent client, as a map from name to the documents
      added to it. Before `initialize_vector_store` opens the client (the global is
      `None`) it holds nothing. */
  class ChromaStore {
    var collections: Registry
    var modelDimensions: map<string, nat>
    var client: map<string, seq<ChromaAdd>>

    constructor ()
      ensures collections == map[] && modelDimensions == map[] && client == map[]
    {
      collections := map[];
      modelDimensions := map[];
      client := map[];
    }

    /** The size loop of chroma.py:51-65 for one model. */
    method RegisterSizes(model: string, sizes: seq<int>)
      modifies this
      ensures collections == RegisterModel(old(collections), model, sizes)
      ensures client == RecreateModel(old(client), model, sizes)
      ensures modelDimensions == old(modelDimensions)
    {
      var reg, cl := collections, client;
      var si := 0;
      while si < |sizes|
        invariant si <= |sizes|
        invariant collections == old(collections) && client == old(client) && modelDimensions == old(modelDimensions)
        invariant reg == RegisterModel(collections, model, sizes[..si])
        invariant cl == RecreateModel(client, model, sizes[..si])
      {
        var name := ChromaCollectionName(model, sizes[si]);
        RegisterModelSnoc(collections, model, sizes, si);
        RecreateModelSnoc(client, model, sizes, si);
        ghost var before := cl;
        if name in cl {
          cl := cl - {name};
        }
        cl := cl[name := []];
        assert cl == Recreate(before, name, []);
        reg := reg[(model, sizes[si]) := name];
        si := si + 1;
      }
      assert sizes[..si] == sizes;
      collections, client := reg, cl;
    }

    /** `initialize_vector_store` of chroma.py:40-65. `disk` is what the persistent
        client finds in its directory (chroma.py:43): the collections earlier runs
        left there. */
    method InitializeVectorStore(disk: map<string, seq<ChromaAdd>>, models: seq<string>, sizes: seq<int>, embed: Embedder)
      modifies this
      ensures collections == RegisterAll(old(collections), models, sizes)
      ensures client == RecreateAll(disk, models, sizes)
      ensures modelDimensions == Dimensions(old(modelDimensions), models, embed)
    {
      client := disk;
      var mi := 0;
      while mi < |models|
        invariant mi <= |models|
        invariant collections == RegisterAll(old(collections), models[..mi], sizes)
        invariant client == RecreateAll(disk, models[..mi], sizes)
        invariant modelDimensions == Dimensions(old(modelDimensions), models[..mi], embed)
      {
        var dim := Dimension(embed, models[mi]);
        modelDimensions := modelDimensions[models[mi] := dim];
        RegisterSizes(models[mi], sizes);
        assert models[..mi + 1][..mi] == models[..mi];
        mi := mi + 1;
      }
      assert models[..mi] == models;
    }

    /** `add_document` of chroma.py:68-86 against the store: an unregistered pair
        raises and changes nothing; otherwise the document is added to the
        registered collection. */
    method AddDocumentTo(model: string, chunkSize: int, text: string, source: string, chunkId: string, embedding: seq<real>)
      returns (r: Result<ChromaAdd, RegistryError>)
      modifies this
      requires (model, chunkSize) in collections ==> collections[(model, chunkSize)] in client
      ensures r == AddDocument(old(collections), model, chunkSize, text, source, chunkId, embedding)
      ensures collections == old(collections) && modelDimensions == old(modelDimensions)
      ensures r.Failure? ==> client == old(client)
      ensures r.Success? ==> client == old(client)[r.value.collection := old(client)[r.value.collection] + [r.value]]
    {
      r := AddDocument(collections, model, chunkSize, text, source, chunkId, embedding);
      if r.Success? {
        var name := r.value.collection;
        client := client[name := client[name] + [r.value]];
      }
    }
  }

  lemma InSnoc<T>(xs: seq<T>, x: T)
    requires xs != []
    ensures x in xs <==> x in xs[..|xs| - 1] || x == xs[|xs| - 1]
  {
    assert xs == xs[..|xs| - 1] + [xs[|xs| - 1]];
  }

  /** Registering one model's sizes adds exactly the pairs of that model and those
      sizes, each under its collection name, and leaves every other pair as it was. */
  lemma {:induction false} RegisterModelSpec(reg: Registry, model: string, sizes: seq<int>, m: string, s: int)
    ensures (m, s) in RegisterModel(reg, model, sizes) <==> (m, s) in reg || (m == model && s in sizes)
    ensures m == model && s in sizes ==> RegisterModel(reg, model, sizes)[(m, s)] == ChromaCollectionName(m, s)
    ensures !(m == model && s in sizes) && (m, s) in reg ==> RegisterModel(reg, model, sizes)[(m, s)] == reg[(m, s)]
    decreases |sizes|
  {
    if sizes != [] {
      var front, last := sizes[..|sizes| - 1], sizes[|sizes| - 1];
      assert RegisterModel(reg, model, sizes) == RegisterModel(reg, model, front)[(model, last) := ChromaCollectionName(model, last)];
      RegisterModelSpec(reg, model, front, m, s);
      InSnoc(sizes, s);
    }
  }

  /** After `initialize_vector_store`, the registry holds every pair of a listed
      model and a listed size, under `get_collection_name`, besides what it held
      before, which is otherwise untouched. */
  lemma {:induction false} RegisterAllSpec(reg: Registry, models: seq<string>, sizes: seq<int>, m: string, s: int)
    ensures (m, s) in RegisterAll(reg, models, sizes) <==> (m, s) in reg || (m in models && s in sizes)
    ensures m in models && s in sizes ==> RegisterAll(reg, models, sizes)[(m, s)] == ChromaCollectionName(m, s)
    ensures !(m in models && s in sizes) && (m, s) in reg ==> RegisterAll(reg, models, sizes)[(m, s)] == reg[(m, s)]
    decreases |models|
  {
    if models != [] {
      var front := models[..|models| - 1];
      assert RegisterAll(reg, models, sizes) == RegisterModel(RegisterAll(reg, front, sizes), models[|models| - 1], sizes);
      RegisterAllSpec(reg, front, sizes, m, s);
      RegisterModelSpec(RegisterAll(reg, front, sizes), models[|models| - 1], sizes, m, s);
      InSnoc(models, m);
    }
  }

  /** Starting from the empty globals, the registry's keys are exactly the listed
      models crossed with the listed sizes. */
  lemma RegistryKeys(models: seq<string>, sizes: seq<int>)
    ensures RegisterAll(map[], models, sizes).Keys == set m, s | m in models && s in sizes :: (m, s)
  {
    forall k | k in RegisterAll(map[], models, sizes).Keys
      ensures k in set m, s | m in models && s in sizes :: (m, s)
    {
      RegisterAllSpec(map[], models, sizes, k.0, k.1);
    }
    forall m, s | m in models && s in sizes
      ensures (m, s) in RegisterAll(map[], models, sizes).Keys
    {
      RegisterAllSpec(map[], models, sizes, m, s);
    }
  }

  /** Every listed model's dimension is the length of its probe embedding; other
      entries are kept. */
  lemma {:induction false} DimensionsSpec(dims: map<string, nat>, models: seq<string>, embed: Embedder, m: string)
    ensures m in Dimensions(dims, models, embed) <==> m in dims || m in models
    ensures m in models ==> Dimensions(dims, models, embed)[m] == |embed(m, SampleText)|
    ensures m !in models && m in dims ==> Dimensions(dims, models, embed)[m] == dims[m]
    decreases |models|
  {
    if models != [] {
      var front, last := models[..|models| - 1], models[|models| - 1];
      assert Dimensions(dims, models, embed) == Dimensions(dims, front, embed)[last := Dimension(embed, last)];
      DimensionsSpec(dims, front, embed, m);
      InSnoc(models, m);
    }
  }

  /** Recreating one model's collections leaves each of them empty and keeps
      every other collection. */
  lemma {:induction false} RecreateModelSpec(client: map<string, seq<ChromaAdd>>, model: string, sizes: seq<int>, name: string)
    ensures name in RecreateModel(client, model, sizes) <==> name in client || exists s :: s in sizes && name == ChromaCollectionName(model, s)
    ensures (exists s :: s in sizes && name == ChromaCollectionName(model, s)) ==> RecreateModel(client, model, sizes)[name] == []
    ensures (forall s :: s in sizes ==> name != ChromaCollectionName(model, s)) && name in client ==>
      RecreateModel(client, model, sizes)[name] == client[name]
    decreases |sizes|
  {
    if sizes != [] {
      var front, last := sizes[..|sizes| - 1], sizes[|sizes| - 1];
      assert RecreateModel(client, model, sizes) == Recreate(RecreateModel(client, model, front), ChromaCollectionName(model, last), []);
      RecreateModelSpec(client, model, front, name);
      NamedSnoc(model, sizes, name);
    }
  }

  /** `name` is one of `model`'s collection names for `sizes` exactly when it is one
      for all but the last size or the one for the last size. */
  lemma NamedSnoc(model: string, sizes: seq<int>, name: string)
    requires sizes != []
    ensures (exists s :: s in sizes && name == ChromaCollectionName(model, s))
        <==> (exists s :: s in sizes[..|sizes| - 1] && name == ChromaCollectionName(model, s))
             || name == ChromaCollectionName(model, sizes[|sizes| - 1])
  {
    var front, last := sizes[..|sizes| - 1], sizes[|sizes| - 1];
    assert sizes == front + [last];
    if exists s :: s in sizes && name == ChromaCollectionName(model, s) {
      var s :| s in sizes && name == ChromaCollectionName(model, s);
      if s != last {
        assert s in front;
      }
    }
    if exists s :: s in front && name == ChromaCollectionName(model, s) {
      var s :| s in front && name == ChromaCollectionName(model, s);
      assert s in sizes;
    }
    assert last in sizes;
  }

  /** A collection already on disk that no listed model and size names survives
      `initialize_vector_store` with its documents. */
  lemma {:induction false} RecreateAllKeeps(client: map<string, seq<ChromaAdd>>, models: seq<string>, sizes: seq<int>, name: string)
    requires name in client
    requires forall m, s :: m in models && s in sizes ==> name != ChromaCollectionName(m, s)
    ensures name in RecreateAll(client, models, sizes) && RecreateAll(client, models, sizes)[name] == client[name]
    decreases |models|
  {
    if models != [] {
      var front, last := models[..|models| - 1], models[|models| - 1];
      forall m, s | m in front && s in sizes ensures name != ChromaCollectionName(m, s) {
        assert m in models;
      }
      RecreateAllKeeps(client, front, sizes, name);
      assert last in models;
      RecreateModelSpec(RecreateAll(client, front, sizes), last, sizes, name);
    }
  }

  /** After `initialize_vector_store`, every registered collection exists in the
      client and is empty, whatever it held before. */
  lemma {:induction false} RecreateAllSpec(client: map<string, seq<ChromaAdd>>, models: seq<string>, sizes: seq<int>, m: string, s: int)
    requires m in models && s in sizes
    ensures ChromaCollectionName(m, s) in RecreateAll(client, models, sizes)
    ensures RecreateAll(client, models, sizes)[ChromaCollectionName(m, s)] == []
    decreases |models|
  {
    var front := models[..|models| - 1];
    var last := models[|models| - 1];
    var name := ChromaCollectionName(m, s);
    assert models == front + [last];
    RecreateModelSpec(RecreateAll(client, front, sizes), last, sizes, name);
    if m != last || !(exists s' :: s' in sizes && name == ChromaCollectionName(last, s')) {
      RecreateAllSpec(client, front, sizes, m, s);
      if exists s' :: s' in sizes && name == ChromaCollectionName(last, s') {
      }
    }
  }

  /** After `initialize_vector_store(models, sizes)` from empty globals, a
      `process_pdf_files` over the same models and sizes never raises
      `ValueError`: every pair it adds to is registered. */
  lemma InitializedRunSucceeds(models: seq<string>, pdfs: seq<Pdf>, sizes: seq<int>, embed: Embedder)
    requires ValidSizes(sizes)
    ensures ChromaRun(RegisterAll(map[], models, sizes), models, Items(pdfs, sizes), embed).error.None?
  {
    var reg := RegisterAll(map[], models, sizes);
    var items := Items(pdfs, sizes);
    forall mi, j | 0 <= mi < |models| && 0 <= j < |items|
      ensures (models[mi], items[j].chunkSize) in reg
    {
      IngestionFacts.ItemsSizes(pdfs, sizes, j);
      RegisterAllSpec(map[], models, sizes, models[mi], items[j].chunkSize);
    }
    assert IngestionFacts.RunRegistered(reg, models, items);
    IngestionFacts.ChromaRunError(reg, models, items, embed);
  }

  // ---- qdrant.py ----

  datatype QdrantCollection = QdrantCollection(dim: nat, points: seq<QdrantPoint>)

  /** The collections after the model loop of qdrant.py:40-53. */
  function CreatedCollections(cols: map<string, QdrantCollection>, models: seq<string>, embed: Embedder): map<string, QdrantCollection> {
    if models == [] then cols
    else
      var m := models[|models| - 1];
      Recreate(CreatedCollections(cols, models[..|models| - 1], embed), QdrantCollectionName(m), QdrantCollection(Dimension(embed, m), []))
  }

  /** The Qdrant server's collections, by name. */
  class QdrantServer {
    var collections: map<string, QdrantCollection>

    constructor (initial: map<string, QdrantCollection>)
      ensures collections == initial
    {
      collections := initial;
    }

    /** `create_indices` of qdrant.py:36-53: a collection is deleted only when one
        of that name exists, and then created with the probed dimension. */
    method CreateIndices(models: seq<string>, embed: Embedder)
      modifies this
      ensures collections == CreatedCollections(old(collections), models, embed)
    {
      var mi := 0;
      while mi < |models|
        invariant mi <= |models|
        invariant collections == CreatedCollections(old(collections), models[..mi], embed)
      {
        var dim := Dimension(embed, models[mi]);
        var name := QdrantCollectionName(models[mi]);
        ghost var before := collections;
        if name in collections {
          collections := collections - {name};
        }
        collections := collections[name := QdrantCollection(dim, [])];
        assert collections == Recreate(before, name, QdrantCollection(dim, []));
        assert models[..mi + 1][..mi] == models[..mi];
        mi := mi + 1;
      }
      assert models[..mi] == models;
    }
  }

  /** After `create_indices`, a collection exists exactly when it existed before or
      some listed model has that name. */
  lemma {:induction false} CreatedCollectionsNames(cols: map<string, QdrantCollection>, models: seq<string>, embed: Embedder, name: string)
    ensures name in CreatedCollections(cols, models, embed)
        <==> name in cols || exists i :: 0 <= i < |models| && QdrantCollectionName(models[i]) == name
    decreases |models|
  {
    if models != [] {
      var front := models[..|models| - 1];
      CreatedCollectionsNames(cols, front, embed, name);
      if exists i :: 0 <= i < |models| && QdrantCollectionName(models[i]) == name {
        var i :| 0 <= i < |models| && QdrantCollectionName(models[i]) == name;
        if i < |front| {
          assert front[i] == models[i];
        }
      }
      if exists i :: 0 <= i < |front| && QdrantCollectionName(front[i]) == name {
        var i :| 0 <= i < |front| && QdrantCollectionName(front[i]) == name;
        assert front[i] == models[i];
      }
    }
  }

  /** A collection no listed model names is left as it was. */
  lemma {:induction false} CreatedCollectionsKeep(cols: map<string, QdrantCollection>, models: seq<string>, embed: Embedder, name: string)
    requires forall i :: 0 <= i < |models| ==> QdrantCollectionName(models[i]) != name
    requires name in cols
    ensures name in CreatedCollections(cols, models, embed)
    ensures CreatedCollections(cols, models, embed)[name] == cols[name]
    decreases |models|
  {
    if models != [] {
      var front := models[..|models| - 1];
      forall i | 0 <= i < |front| ensures QdrantCollectionName(front[i]) != name {
        assert front[i] == models[i];
      }
      CreatedCollectionsKeep(cols, front, embed, name);
    }
  }

  /** After `create_indices`, the collection of listed model `i` is empty and has the
      probe dimension of model `i` when no later model shares its name. */
  lemma {:induction false} CreatedCollectionsFresh(cols: map<string, QdrantCollection>, models: seq<string>, embed: Embedder, i: nat)
    requires i < |models|
    requires forall k :: i < k < |models| ==> QdrantCollectionName(models[k]) != QdrantCollectionName(models[i])
    ensures QdrantCollectionName(models[i]) in CreatedCollections(cols, models, embed)
    ensures CreatedCollections(cols, models, embed)[QdrantCollectionName(models[i])] == QdrantCollection(|embed(models[i], SampleText)|, [])
    decreases |models|
  {
    var front := models[..|models| - 1];
    if i < |front| {
      forall k | i < k < |front| ensures QdrantCollectionName(front[k]) != QdrantCollectionName(front[i]) {
        assert front[k] == models[k];
      }
      CreatedCollectionsFresh(cols, front, embed, i);
      assert front[i] == models[i];
    }
  }

  // ---- redis.py ----

  /** A search index: the key prefix it covers and the vector dimension. */
  datatype RedisIndex = RedisIndex(prefix: string, dim: nat)

  /** The `NameError` create_indices raises at redis.py:56. */
  datatype NameError = NameError(name: string)

  /** The indexes after the corrected model loop of redis.py:41-65, which names the
      prefix from `model_name`. */
  function CreatedIndexes(indexes: map<string, RedisIndex>, models: seq<string>, embed: Embedder): map<string, RedisIndex> {
    if models == [] then indexes
    else
      var m := models[|models| - 1];
      CreatedIndexes(indexes, models[..|models| - 1], embed)[RedisIndexName(m) := RedisIndex(RedisIndexPrefix(m), Dimension(embed, m))]
  }

  /** `embedding_indices` after the model loop. */
  function IndexNames(names: map<string, string>, models: seq<string>): map<string, string> {
    if models == [] then names
    else IndexNames(names, models[..|models| - 1])[models[|models| - 1] := RedisIndexName(models[|models| - 1])]
  }

  /** The indexes after create_indices as written: the first model's index is
      dropped, and the `FT.CREATE` line then raises before anything is created. */
  function AsWrittenIndexes(indexes: map<string, RedisIndex>, models: seq<string>): map<string, RedisIndex> {
    if models == [] then indexes else indexes - {RedisIndexName(models[0])}
  }

  /** The Redis server's search indexes by name, and the script's global
      `embedding_indices`. */
  class RedisServer {
    var indexes: map<string, RedisIndex>
    var embeddingIndices: map<string, string>

    constructor (initial: map<string, RedisIndex>)
      ensures indexes == initial && embeddingIndices == map[]
    {
      indexes := initial;
      embeddingIndices := map[];
    }

    /** create_indices of redis.py:37-65 as written: with at least one model, the
        first iteration records the index name, drops the index, and then fails on
        the undefined `model_safe_name`. */
    method CreateIndicesAsWritten(models: seq<string>, embed: Embedder) returns (r: Result<(), NameError>)
      modifies this
      ensures models == [] ==> r == Success(()) && indexes == old(indexes) && embeddingIndices == old(embeddingIndices)
      ensures models != [] ==> r == Failure(NameError("model_safe_name"))
      ensures indexes == AsWrittenIndexes(old(indexes), models)
      ensures models != [] ==> embeddingIndices == old(embeddingIndices)[models[0] := RedisIndexName(models[0])]
    {
      if models == [] {
        return Success(());
      }
      var name := RedisIndexName(models[0]);
      embeddingIndices := embeddingIndices[models[0] := name];
      if name in indexes {
        indexes := indexes - {name};
      }
      return Failure(NameError("model_safe_name"));
    }

    /** create_indices with the prefix taken from `model_name`, as evidently
        intended: each model's index is dropped if present and created over the
        prefix its keys are written under. */
    method CreateIndices(models: seq<string>, embed: Embedder)
      modifies this
      ensures indexes == CreatedIndexes(old(indexes), models, embed)
      ensures embeddingIndices == IndexNames(old(embeddingIndices), models)
    {
      var mi := 0;
      while mi < |models|
        invariant mi <= |models|
        invariant indexes == CreatedIndexes(old(indexes), models[..mi], embed)
        invariant embeddingIndices == IndexNames(old(embeddingIndices), models[..mi])
      {
        var m := models[mi];
        var dim := Dimension(embed, m);
        var name := RedisIndexName(m);
        embeddingIndices := embeddingIndices[m := name];
        ghost var before := indexes;
        if name in indexes {
          indexes := indexes - {name};
        }
        indexes := indexes[name := RedisIndex(RedisIndexPrefix(m), dim)];
        assert indexes == before[name := RedisIndex(RedisIndexPrefix(m), dim)];
        assert models[..mi + 1][..mi] == models[..mi];
        mi := mi + 1;
      }
      assert models[..mi] == models;
    }
  }

  /** As written, no index exists for the first model afterwards, so nothing
      indexes the keys its chunks are then stored under. */
  lemma AsWrittenMissesFirstIndex(indexes: map<string, RedisIndex>, models: seq<string>)
    requires models != []
    ensures RedisIndexName(models[0]) !in AsWrittenIndexes(indexes, models)
  {
  }

  /** Corrected, every listed model has an index under `embedding_<model>` that
      covers the prefix of every key `store_embedding` writes for it, and
      `embedding_indices` maps the model to that index. */
  lemma {:induction false} CreatedIndexesCover(indexes: map<string, RedisIndex>, names: map<string, string>,
                                               models: seq<string>, embed: Embedder, i: nat, docId: nat)
    requires i < |models|
    ensures RedisIndexName(models[i]) in CreatedIndexes(indexes, models, embed)
    ensures CreatedIndexes(indexes, models, embed)[RedisIndexName(models[i])].prefix <= RedisDocKey(models[i], docId)
    ensures models[i] in IndexNames(names, models) && IndexNames(names, models)[models[i]] == RedisIndexName(models[i])
    decreases |models|
  {
    var front := models[..|models| - 1];
    var last := models[|models| - 1];
    RedisDocKeyUnderPrefix(models[i], docId);
    if i < |front| {
      CreatedIndexesCover(indexes, names, front, embed, i, docId);
      assert front[i] == models[i];
      if RedisIndexName(last) == RedisIndexName(models[i]) {
        assert "embedding_" + Sanitize(last) == "embedding_" + Sanitize(models[i]);
        assert Sanitize(last) == ("embedding_" + Sanitize(last))[10..];
        assert Sanitize(models[i]) == ("embedding_" + Sanitize(models[i]))[10..];
        RedisDocKeyUnderPrefix(last, docId);
      }
    }
  }
}
