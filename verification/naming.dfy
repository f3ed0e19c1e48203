/** How the scripts derive store names, keys and chunk ids from model names,
    chunk sizes, document names and counters. */
module Naming {
  import opened Text

  /** `model.replace('-', '_').replace(':', '_')`: the safe form of a model name
      used in every collection, index and key name. */
  function Sanitize(model: string): (r: string)
    ensures |r| == |model|
    ensures forall i :: 0 <= i < |model| ==>
      r[i] == (if model[i] == '-' || model[i] == ':' then '_' else model[i])
    ensures '-' !in r && ':' !in r
  {
    Replace(Replace(model, '-', '_'), ':', '_')
  }

  /** Sanitizing twice changes nothing. */
  lemma SanitizeIdempotent(model: string)
    ensures Sanitize(Sanitize(model)) == Sanitize(model)
  {
  }

  /** Sanitizing distributes over concatenation. */
  lemma SanitizeAppend(x: string, y: string)
    ensures Sanitize(x + y) == Sanitize(x) + Sanitize(y)
  {
    assert forall i :: 0 <= i < |x + y| ==> Sanitize(x + y)[i] == (Sanitize(x) + Sanitize(y))[i];
  }

  /** A name with no `-` and no `:` is already safe. */
  lemma SanitizeKeeps(x: string)
    requires '-' !in x && ':' !in x
    ensures Sanitize(x) == x
  {
  }

  /** Replacing one separator after a prefix that needs no replacing. */
  lemma SanitizeAfter(prefix: string, sep: string, rest: string)
    requires sep == "-" || sep == ":"
    requires '-' !in prefix && ':' !in prefix
    ensures Sanitize(prefix + sep + rest) == prefix + "_" + Sanitize(rest)
  {
    SanitizeAppend(prefix + sep, rest);
    SanitizeAppend(prefix, sep);
    SanitizeKeeps(prefix);
  }

  // ---- redis.py ----

  /** `f"embedding_{model_name}"`, the search index of one embedding model. */
  function RedisIndexName(model: string): string {
    "embedding_" + Sanitize(model)
  }

  /** `f"{DOC_PREFIX}{model_safe_name}_{doc_id}"`, the hash key of one stored chunk. */
  function RedisDocKey(model: string, docId: nat): string {
    "doc:" + Sanitize(model) + "_" + NatToString(docId)
  }

  /** The key prefix the index of a model is evidently meant to cover, matching
      the keys written for that model. */
  function RedisIndexPrefix(model: string): string {
    "doc:" + Sanitize(model) + "_"
  }

  /** Two keys are equal exactly when the safe model names and the ids are. */
  lemma RedisDocKeyInjective(m1: string, d1: nat, m2: string, d2: nat)
    ensures RedisDocKey(m1, d1) == RedisDocKey(m2, d2) <==> Sanitize(m1) == Sanitize(m2) && d1 == d2
  {
    if RedisDocKey(m1, d1) == RedisDocKey(m2, d2) {
      assert "doc:" + Sanitize(m1) + "_" + NatToString(d1) == ("doc:" + Sanitize(m1)) + "_" + NatToString(d1);
      assert IsDigits(NatToString(d1)) && IsDigits(NatToString(d2));
      assert '_' !in NatToString(d1) && '_' !in NatToString(d2);
      SplitAtLastUnderscore("doc:" + Sanitize(m1), NatToString(d1), "doc:" + Sanitize(m2), NatToString(d2));
      assert Sanitize(m1) == ("doc:" + Sanitize(m1))[4..];
      assert Sanitize(m2) == ("doc:" + Sanitize(m2))[4..];
      NatToStringInjective(d1, d2);
    }
  }

  /** Every key written for a model lies under that model's index prefix. */
  lemma RedisDocKeyUnderPrefix(model: string, docId: nat)
    ensures RedisIndexPrefix(model) <= RedisDocKey(model, docId)
    ensures RedisDocKey(model, docId)[|RedisIndexPrefix(model)|..] == NatToString(docId)
  {
  }

  // ---- chroma.py ----

  /** `get_collection_name(model, chunk_size)`: one collection per model and chunk size. */
  function ChromaCollectionName(model: string, chunkSize: int): string {
    Sanitize(model) + "_" + IntToString(chunkSize)
  }

  /** Collection names are equal exactly when the safe model names and the sizes are. */
  lemma ChromaCollectionNameInjective(m1: string, s1: int, m2: string, s2: int)
    ensures ChromaCollectionName(m1, s1) == ChromaCollectionName(m2, s2) <==> Sanitize(m1) == Sanitize(m2) && s1 == s2
  {
    if ChromaCollectionName(m1, s1) == ChromaCollectionName(m2, s2) {
      SplitAtLastUnderscore(Sanitize(m1), IntToString(s1), Sanitize(m2), IntToString(s2));
      IntToStringInjective(s1, s2);
    }
  }

  lemma NomicEmbedTextSpelling()
    ensures "nomic-embed-text" == "nomic" + "-" + ("embed" + "-" + "text")
    ensures "nomic" + "_" + ("embed" + "_" + "text") + "_" + "250" == "nomic_embed_text_250"
  {
  }

  lemma NatToString250()
    ensures IntToString(250) == "250"
  {
    assert NatToString(2) == "2";
    assert NatToString(25) == NatToString(2) + "5";
    assert NatToString(250) == NatToString(25) + "0";
  }

  /** The worked example: the collection of `nomic-embed-text` at size 250. */
  lemma ChromaCollectionNameExample()
    ensures ChromaCollectionName("nomic-embed-text", 250) == "nomic_embed_text_250"
  {
    NomicEmbedTextSpelling();
    NatToString250();
    SanitizeAfter("nomic", "-", "embed" + "-" + "text");
    SanitizeAfter("embed", "-", "text");
    SanitizeKeeps("text");
  }

  // ---- qdrant.py ----

  /** One collection per embedding model; all chunk sizes share it. The same
      expression names it at creation, upsert and query. */
  function QdrantCollectionName(model: string): string {
    Sanitize(model)
  }

  // ---- shared by redis.py, chroma.py and qdrant.py ----

  /** `f"{pdf_name}_{i}_{chunk_size}"`. */
  function ChunkId(pdfName: string, index: nat, chunkSize: int): string {
    pdfName + "_" + NatToString(index) + "_" + IntToString(chunkSize)
  }

  /** A chunk id determines its document name, index and chunk size, whatever
      underscores the document name holds. */
  lemma ChunkIdInjective(p1: string, i1: nat, s1: int, p2: string, i2: nat, s2: int)
    ensures ChunkId(p1, i1, s1) == ChunkId(p2, i2, s2) <==> p1 == p2 && i1 == i2 && s1 == s2
  {
    if ChunkId(p1, i1, s1) == ChunkId(p2, i2, s2) {
      SplitAtLastUnderscore(p1 + "_" + NatToString(i1), IntToString(s1), p2 + "_" + NatToString(i2), IntToString(s2));
      IntToStringInjective(s1, s2);
      assert IsDigits(NatToString(i1)) && IsDigits(NatToString(i2));
      assert '_' !in NatToString(i1) && '_' !in NatToString(i2);
      SplitAtLastUnderscore(p1, NatToString(i1), p2, NatToString(i2));
      NatToStringInjective(i1, i2);
    }
  }

  // ---- test.py ----

  /** `f"{pdf_name}_{i}"`. */
  function TestChunkId(pdfName: string, index: nat): string {
    pdfName + "_" + NatToString(index)
  }

  /** `f"{DOC_PREFIX}{doc_id}"`. */
  function TestDocKey(docId: nat): string {
    "doc:" + NatToString(docId)
  }

  lemma TestChunkIdInjective(p1: string, i1: nat, p2: string, i2: nat)
    ensures TestChunkId(p1, i1) == TestChunkId(p2, i2) <==> p1 == p2 && i1 == i2
  {
    if TestChunkId(p1, i1) == TestChunkId(p2, i2) {
      assert IsDigits(NatToString(i1)) && IsDigits(NatToString(i2));
      assert '_' !in NatToString(i1) && '_' !in NatToString(i2);
      SplitAtLastUnderscore(p1, NatToString(i1), p2, NatToString(i2));
      NatToStringInjective(i1, i2);
    }
  }

  lemma TestDocKeyInjective(d1: nat, d2: nat)
    ensures TestDocKey(d1) == TestDocKey(d2) <==> d1 == d2
  {
    if TestDocKey(d1) == TestDocKey(d2) {
      assert NatToString(d1) == TestDocKey(d1)[4..];
      assert NatToString(d2) == TestDocKey(d2)[4..];
      NatToStringInjective(d1, d2);
    }
  }
}
