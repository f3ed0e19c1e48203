/** The client-side half of `answer_question` in each script: what is kept of the
    store's search results, how the context string is assembled, and the prompt it
    is placed in. The search itself, the question embedding and the chat model are
    parameters. */
module Retrieval {
  import opened Wrappers
  import opened Text
  import opened Naming
  import opened Ingestion

  // ---- order-preserving filtering ----

  /** `[x for x in s if keep(x)]`. */
  function Filter<T>(s: seq<T>, keep: T -> bool): (r: seq<T>)
    ensures |r| <= |s|
  {
    if s == [] then [] else Filter(s[..|s| - 1], keep) + (if keep(s[|s| - 1]) then [s[|s| - 1]] else [])
  }

  /** Filtering a concatenation filters each part: kept elements keep their order. */
  lemma {:induction false} FilterAppend<T>(a: seq<T>, b: seq<T>, keep: T -> bool)
    ensures Filter(a + b, keep) == Filter(a, keep) + Filter(b, keep)
    decreases |b|
  {
    if b != [] {
      var b' := b[..|b| - 1];
      assert (a + b)[..|a + b| - 1] == a + b';
      assert (a + b)[|a + b| - 1] == b[|b| - 1];
      var tail := if keep(b[|b| - 1]) then [b[|b| - 1]] else [];
      assert Filter(a + b, keep) == Filter(a + b', keep) + tail;
      assert Filter(b, keep) == Filter(b', keep) + tail;
      FilterAppend(a, b', keep);
    } else {
      assert a + b == a;
    }
  }

  /** An element is kept exactly when it occurs and passes the test. */
  lemma {:induction false} FilterMember<T>(s: seq<T>, keep: T -> bool, x: T)
    ensures x in Filter(s, keep) <==> x in s && keep(x)
    decreases |s|
  {
    if s != [] {
      var front := s[..|s| - 1];
      FilterMember(front, keep, x);
      assert s == front + [s[|s| - 1]];
    }
  }

  /** Nothing is dropped when every element passes. */
  lemma {:induction false} FilterAllKept<T>(s: seq<T>, keep: T -> bool)
    requires forall i :: 0 <= i < |s| ==> keep(s[i])
    ensures Filter(s, keep) == s
    decreases |s|
  {
    if s != [] {
      var front := s[..|s| - 1];
      forall i | 0 <= i < |front| ensures keep(front[i]) {
        assert front[i] == s[i];
      }
      FilterAllKept(front, keep);
      assert front + [s[|s| - 1]] == s;
    }
  }

  /** `[d.text for d in s]`, for whichever field holds the text. */
  function Texts<T>(s: seq<T>, text: T -> string): seq<string> {
    seq(|s|, i requires 0 <= i < |s| => text(s[i]))
  }

  /** `s[:k]` for a non-negative `k`. */
  function Take<T>(s: seq<T>, k: nat): (r: seq<T>)
    ensures |r| == if k <= |s| then k else |s|
    ensures r <= s
  {
    if k <= |s| then s[..k] else s
  }

  // ---- redis.py ----

  /** A document of the KNN search, with the fields `return_fields` asks for. */
  datatype RedisDoc = RedisDoc(text: string, source: string, chunkId: string, distance: real, chunkSize: string)

  function DocText(d: RedisDoc): string {
    d.text
  }

  /** `doc.chunk_size == str(chunk_size)`: the stored field is a string. */
  function RedisKeep(chunkSize: int): RedisDoc -> bool {
    (d: RedisDoc) => d.chunkSize == IntToString(chunkSize)
  }

  /** The documents of redis.py:114-116 whose texts make the context: those of the
      requested chunk size, in search order, at most `k`. */
  function RedisContextDocs(docs: seq<RedisDoc>, chunkSize: int, k: nat): (r: seq<RedisDoc>)
    ensures |r| == if k <= |Filter(docs, RedisKeep(chunkSize))| then k else |Filter(docs, RedisKeep(chunkSize))|
    ensures forall i :: 0 <= i < |r| ==> r[i] in docs && r[i].chunkSize == IntToString(chunkSize)
    ensures r <= Filter(docs, RedisKeep(chunkSize))
    ensures |Filter(docs, RedisKeep(chunkSize))| <= k ==> r == Filter(docs, RedisKeep(chunkSize))
  {
    var kept := Filter(docs, RedisKeep(chunkSize));
    forall i | 0 <= i < |Take(kept, k)| ensures Take(kept, k)[i] in docs && Take(kept, k)[i].chunkSize == IntToString(chunkSize) {
      FilterMember(docs, RedisKeep(chunkSize), kept[i]);
    }
    Take(kept, k)
  }

  /** The context string of redis.py:114-116. */
  function RedisContext(docs: seq<RedisDoc>, chunkSize: int, k: nat): string {
    Join("\n", Texts(RedisContextDocs(docs, chunkSize, k), DocText))
  }

  /** A hash stored by redis.py's `store_embedding` passes the filter of a query
      for size `s` exactly when its chunk was cut at size `s`: comparing
      `str(chunk_size)` strings is comparing the sizes. */
  lemma RedisKeepStored(model: string, embed: Embedder, docId: nat, item: Item, chunkSize: int)
    ensures RedisStore(model, embed)(docId, item).chunkSize == IntToString(chunkSize) <==> item.chunkSize == chunkSize
  {
    if IntToString(item.chunkSize) == IntToString(chunkSize) {
      IntToStringInjective(item.chunkSize, chunkSize);
    }
  }

  // ---- qdrant.py ----

  /** A point returned by `query_points`, with its payload. */
  datatype QdrantHit = QdrantHit(id: nat, score: real, payload: QdrantPayload)

  function QdrantKeep(chunkSize: int): QdrantHit -> bool {
    (h: QdrantHit) => h.payload.chunkSize == chunkSize
  }

  function HitText(h: QdrantHit): string {
    h.payload.text
  }

  /** The context of qdrant.py:102: the texts of the returned hits whose integer
      chunk size matches, in rank order. The hits are already limited to `k` by the
      server, so the context may hold fewer than `k` texts. */
  function QdrantContext(hits: seq<QdrantHit>, chunkSize: int): string {
    Join("\n", Texts(Filter(hits, QdrantKeep(chunkSize)), HitText))
  }

  /** The hits whose texts make the qdrant context are exactly the returned hits of
      the requested size, and there are no more of them than hits returned. */
  lemma QdrantContextHits(hits: seq<QdrantHit>, chunkSize: int, h: QdrantHit)
    ensures |Filter(hits, QdrantKeep(chunkSize))| <= |hits|
    ensures h in Filter(hits, QdrantKeep(chunkSize)) <==> h in hits && h.payload.chunkSize == chunkSize
  {
    FilterMember(hits, QdrantKeep(chunkSize), h);
  }

  // ---- chroma.py ----

  /** The parallel arrays `collection.query` returns for one query embedding. */
  datatype ChromaQueryResult = ChromaQueryResult(ids: seq<seq<string>>, documents: seq<seq<string>>,
                                                 metadatas: seq<seq<ChromaMetadata>>, distances: seq<seq<real>>)

  /** One entry of `formatted_results`; `chunk_size` is turned into a string. */
  datatype ChromaRecord = ChromaRecord(text: string, source: string, chunkId: string, chunkSize: string, distance: real)

  /** Why `query_vector_store` raises: the registry check, or an index out of range
      while reading the arrays. */
  datatype QueryError = Unregistered(e: RegistryError) | IndexError

  /** Every array has a first row at least as long as the list of ids. */
  predicate WellShaped(res: ChromaQueryResult) {
    && |res.ids| > 0
    && (|res.ids[0]| > 0 ==>
          && |res.documents| > 0 && |res.metadatas| > 0 && |res.distances| > 0
          && |res.documents[0]| >= |res.ids[0]| && |res.metadatas[0]| >= |res.ids[0]|
          && |res.distances[0]| >= |res.ids[0]|)
  }

  function RecordAt(res: ChromaQueryResult, i: nat): ChromaRecord
    requires WellShaped(res) && i < |res.ids[0]|
  {
    var md := res.metadatas[0][i];
    ChromaRecord(res.documents[0][i], md.source, md.chunkId, IntToString(md.chunkSize), res.distances[0][i])
  }

  /** What `query_vector_store` returns for a registered pair: one record per
      returned id, in the store's order, built from entry `i` of each array. */
  function Records(res: ChromaQueryResult): (r: Result<seq<ChromaRecord>, QueryError>)
    ensures r.Failure? <==> !WellShaped(res)
    ensures r.Failure? ==> r.error == IndexError
    ensures r.Success? ==> |r.value| == |res.ids[0]|
    ensures r.Success? ==> forall i :: 0 <= i < |r.value| ==>
      && r.value[i].text == res.documents[0][i]
      && r.value[i].source == res.metadatas[0][i].source
      && r.value[i].chunkId == res.metadatas[0][i].chunkId
      && r.value[i].chunkSize == IntToString(res.metadatas[0][i].chunkSize)
      && r.value[i].distance == res.distances[0][i]
  {
    if !WellShaped(res) then Failure(IndexError)
    else Success(seq(|res.ids[0]|, i requires 0 <= i < |res.ids[0]| => RecordAt(res, i)))
  }

  /** `query_vector_store` of chroma.py:89-112: the registry check, then the
      reshaping loop over the returned arrays (`res` is the store's answer). */
  method QueryVectorStore(registry: Registry, model: string, chunkSize: int, res: ChromaQueryResult)
    returns (r: Result<seq<ChromaRecord>, QueryError>)
    ensures (model, chunkSize) !in registry ==> r == Failure(Unregistered(NotInitialized(model, chunkSize)))
    ensures (model, chunkSize) in registry ==> r == Records(res)
  {
    if (model, chunkSize) !in registry {
      return Failure(Unregistered(NotInitialized(model, chunkSize)));
    }
    if |res.ids| == 0 {
      assert !WellShaped(res);
      return Failure(IndexError);
    }
    var formatted: seq<ChromaRecord> := [];
    var i := 0;
    while i < |res.ids[0]|
      invariant i <= |res.ids[0]|
      invariant i > 0 ==> |res.documents| > 0 && |res.metadatas| > 0 && |res.distances| > 0
      invariant i > 0 ==> |res.documents[0]| >= i && |res.metadatas[0]| >= i && |res.distances[0]| >= i
      invariant |formatted| == i
      invariant forall j :: 0 <= j < i ==> formatted[j] == ChromaRecord(res.documents[0][j], res.metadatas[0][j].source,
        res.metadatas[0][j].chunkId, IntToString(res.metadatas[0][j].chunkSize), res.distances[0][j])
    {
      if |res.documents| == 0 || i >= |res.documents[0]| || |res.metadatas| == 0 || i >= |res.metadatas[0]|
         || |res.distances| == 0 || i >= |res.distances[0]| {
        assert !WellShaped(res);
        return Failure(IndexError);
      }
      var md := res.metadatas[0][i];
      formatted := formatted + [ChromaRecord(res.documents[0][i], md.source, md.chunkId, IntToString(md.chunkSize), res.distances[0][i])];
      i := i + 1;
    }
    assert WellShaped(res);
    assert forall j :: 0 <= j < i ==> formatted[j] == RecordAt(res, j);
    assert formatted == Records(res).value;
    r := Success(formatted);
  }

  function RecordText(r: ChromaRecord): string {
    r.text
  }

  /** The context of chroma.py:166: every returned text, in ranked order; no chunk
      size filter, since each collection holds one size. */
  function ChromaContext(records: seq<ChromaRecord>): string {
    Join("\n", Texts(records, RecordText))
  }

  // ---- test.py ----

  /** A document of test.py's KNN search. */
  datatype TestDoc = TestDoc(text: string, source: string, chunkId: string, distance: real)

  /** The block test.py:153 appends for result `i`. */
  function Entry(i: nat, d: TestDoc): string {
    "Document " + NatToString(i + 1) + " (from " + d.source + ", chunk " + d.chunkId + "):\n" + d.text + "\n\n"
  }

  /** The context after the loop of test.py:151-153 has seen `docs`. */
  function NumberedContextOf(docs: seq<TestDoc>): string {
    if docs == [] then "" else NumberedContextOf(docs[..|docs| - 1]) + Entry(|docs| - 1, docs[|docs| - 1])
  }

  /** One more result adds its block, numbered after those before it. */
  lemma NumberedContextPush(pre: seq<TestDoc>, d: TestDoc)
    ensures NumberedContextOf(pre + [d]) == NumberedContextOf(pre) + Entry(|pre|, d)
  {
    assert (pre + [d])[..|pre|] == pre;
  }

  /** The loop of test.py:151-153. */
  method NumberedContext(docs: seq<TestDoc>) returns (context: string)
    ensures context == NumberedContextOf(docs)
  {
    context := "";
    var i := 0;
    while i < |docs|
      invariant i <= |docs|
      invariant context == NumberedContextOf(docs[..i])
    {
      NumberedContextPush(docs[..i], docs[i]);
      assert docs[..i + 1] == docs[..i] + [docs[i]];
      context := context + Entry(i, docs[i]);
      i := i + 1;
    }
    assert docs[..i] == docs;
  }

  /** Result `j` appears as block `Document <j+1>` right after the blocks of the
      results before it: the context lists every result once, numbered from 1 in
      result order. */
  lemma {:induction false} NumberedContextAt(docs: seq<TestDoc>, j: nat)
    requires j < |docs|
    ensures NumberedContextOf(docs[..j]) + Entry(j, docs[j]) <= NumberedContextOf(docs)
    decreases |docs|
  {
    var front := docs[..|docs| - 1];
    if j == |docs| - 1 {
      assert docs[..j] == front;
    } else {
      NumberedContextAt(front, j);
      assert front[..j] == docs[..j] && front[j] == docs[j];
    }
  }

  /** The blocks of `docs` read front to back, the first numbered `i + 1`. */
  function EntriesFrom(i: nat, docs: seq<TestDoc>): string
    decreases |docs|
  {
    if docs == [] then "" else Entry(i, docs[0]) + EntriesFrom(i + 1, docs[1..])
  }

  /** After the blocks of the first results come exactly the blocks of the rest,
      numbered on from where the first ones stopped. */
  lemma {:induction false} NumberedContextAppend(pre: seq<TestDoc>, rest: seq<TestDoc>)
    ensures NumberedContextOf(pre + rest) == NumberedContextOf(pre) + EntriesFrom(|pre|, rest)
    decreases |rest|
  {
    if rest == [] {
      assert pre + rest == pre;
    } else {
      var d, rest' := rest[0], rest[1..];
      var pre' := pre + [d];
      assert pre' + rest' == pre + rest;
      var before, block, after := NumberedContextOf(pre), Entry(|pre|, d), EntriesFrom(|pre'|, rest');
      calc {
        NumberedContextOf(pre + rest);
        NumberedContextOf(pre' + rest');
        { NumberedContextAppend(pre', rest'); }
        NumberedContextOf(pre') + after;
        { NumberedContextPush(pre, d); }
        before + block + after;
        before + (block + after);
        before + EntriesFrom(|pre|, rest);
      }
    }
  }

  /** The context is the blocks of all results numbered from 1 in result order,
      and nothing else. */
  lemma NumberedContextAll(docs: seq<TestDoc>)
    ensures NumberedContextOf(docs) == EntriesFrom(0, docs)
  {
    NumberedContextAppend([], docs);
    assert [] + docs == docs;
  }

  // ---- prompts ----

  const PromptHead := "\n    Context information:\n    "
  const PromptMiddle := "\n    \n    Question: "
  /** The closing instruction of redis.py, chroma.py and qdrant.py. */
  const PromptTail := "\n    \n    Answer based on the context. If the answer is unavailable, state it clearly.\n    "
  /** The closing instruction of test.py. */
  const TestPromptTail := "\n    \n    Answer the question based on the context provided above. If the answer is not in the context, give the answer and then state that the information is not available.\n    "

  /** `p` is the f-string prompt laid out piece by piece: the fixed head, the
      context, the fixed middle, the question and the closing instruction. */
  predicate PromptLayout(p: string, tail: string, context: string, question: string) {
    var c := |PromptHead|;
    var m := c + |context|;
    var q := m + |PromptMiddle|;
    var t := q + |question|;
    && |p| == t + |tail|
    && p[..c] == PromptHead
    && p[c..m] == context
    && p[m..q] == PromptMiddle
    && p[q..t] == question
    && p[t..] == tail
  }

  /** The f-string prompt: context, then question, then the instruction. */
  function PromptWith(tail: string, context: string, question: string): (p: string)
    ensures PromptLayout(p, tail, context, question)
  {
    PromptHead + context + PromptMiddle + question + tail
  }

  function Prompt(context: string, question: string): string {
    PromptWith(PromptTail, context, question)
  }

  /** The layout fixes the prompt: a string holding the context and the question in
      their slots is the prompt, so the model is asked nothing else. */
  lemma PromptLayoutUnique(p: string, tail: string, context: string, question: string)
    requires PromptLayout(p, tail, context, question)
    ensures p == PromptWith(tail, context, question)
  {
    var c := |PromptHead|;
    var m := c + |context|;
    var q := m + |PromptMiddle|;
    var t := q + |question|;
    assert p == p[..c] + p[c..m] + p[m..q] + p[q..t] + p[t..];
  }

  // ---- answer_question, over the search and the chat model ----

  /** The chat model: `(llm_model, prompt)` to the answer text. */
  type Chat = (string, string) -> string

  /** Why `answer_question` raises in the script's own code. */
  datatype AnswerError = MissingIndex(model: string) | QueryFailed(e: QueryError)

  /** `answer_question` of redis.py:98-132: the index is looked up in
      `embedding_indices`, which raises `KeyError` for a model without one. */
  function RedisAnswer(indices: map<string, string>, question: string, model: string, chunkSize: int,
                       llm: string, k: nat, embed: Embedder,
                       search: (string, seq<real>, nat) -> seq<RedisDoc>, chat: Chat): Result<string, AnswerError>
  {
    if model !in indices then Failure(MissingIndex(model))
    else
      var docs := search(indices[model], embed(model, question), k);
      Success(chat(llm, Prompt(RedisContext(docs, chunkSize, k), question)))
  }

  /** `answer_question` of qdrant.py:91-118: the collection is named from the model
      alone, exactly as at creation and upsert. */
  function QdrantAnswer(question: string, model: string, chunkSize: int, llm: string, k: nat, embed: Embedder,
                        search: (string, seq<real>, nat) -> seq<QdrantHit>, chat: Chat): string
  {
    var hits := search(QdrantCollectionName(model), embed(model, question), k);
    chat(llm, Prompt(QdrantContext(hits, chunkSize), question))
  }

  /** `answer_question` of chroma.py:156-182: the query raises for an unregistered
      pair before the chat model is asked. */
  function ChromaAnswer(registry: Registry, question: string, model: string, chunkSize: int, llm: string, k: nat,
                        embed: Embedder, query: (string, seq<real>, nat) -> ChromaQueryResult, chat: Chat): Result<string, AnswerError>
  {
    if (model, chunkSize) !in registry then Failure(QueryFailed(Unregistered(NotInitialized(model, chunkSize))))
    else
      var res := query(registry[(model, chunkSize)], embed(model, question), k);
      match Records(res)
      case Failure(e) => Failure(QueryFailed(e))
      case Success(records) => Success(chat(llm, Prompt(ChromaContext(records), question)))
  }

  /** The fixed chat model of test.py:166. */
  const TestLlm := "llama3.2"

  /** `answer_question` of test.py:134-176 over the single index. */
  function TestAnswer(question: string, k: nat, embed: Embedder, search: (seq<real>, nat) -> seq<TestDoc>, chat: Chat): string {
    chat(TestLlm, PromptWith(TestPromptTail, NumberedContextOf(search(embed(TestEmbeddingModel, question), k)), question))
  }

  // ---- what each answer is ----

  /** redis.py: without an index for the model the answer is the `KeyError`;
      otherwise it is the reply to the prompt whose context is the `"\n"`-join of
      the texts of the first `k` returned documents of the requested size (all of
      them when fewer pass), in search order. */
  lemma RedisAnswerSpec(indices: map<string, string>, question: string, model: string, chunkSize: int,
                        llm: string, k: nat, embed: Embedder,
                        search: (string, seq<real>, nat) -> seq<RedisDoc>, chat: Chat)
    ensures model !in indices ==> RedisAnswer(indices, question, model, chunkSize, llm, k, embed, search, chat) == Failure(MissingIndex(model))
    ensures model in indices ==>
      var docs := search(indices[model], embed(model, question), k);
      var kept := Filter(docs, RedisKeep(chunkSize));
      var used := kept[..if k <= |kept| then k else |kept|];
      && (forall d :: d in used ==> d in docs && d.chunkSize == IntToString(chunkSize))
      && exists p ::
           && PromptLayout(p, PromptTail, Join("\n", Texts(used, DocText)), question)
           && RedisAnswer(indices, question, model, chunkSize, llm, k, embed, search, chat) == Success(chat(llm, p))
  {
    if model in indices {
      var docs := search(indices[model], embed(model, question), k);
      var kept := Filter(docs, RedisKeep(chunkSize));
      var used := kept[..if k <= |kept| then k else |kept|];
      assert RedisContextDocs(docs, chunkSize, k) == used;
      forall d | d in used ensures d in docs && d.chunkSize == IntToString(chunkSize) {
        FilterMember(docs, RedisKeep(chunkSize), d);
      }
      var p := Prompt(RedisContext(docs, chunkSize, k), question);
      assert PromptLayout(p, PromptTail, Join("\n", Texts(used, DocText)), question)
          && RedisAnswer(indices, question, model, chunkSize, llm, k, embed, search, chat) == Success(chat(llm, p));
    }
  }

  /** qdrant.py: the answer is the reply to the prompt whose context is the
      `"\n"`-join of the texts of the hits returned from the collection named by
      the sanitised model whose integer chunk size is the requested one, in rank
      order. */
  lemma QdrantAnswerSpec(question: string, model: string, chunkSize: int, llm: string, k: nat, embed: Embedder,
                         search: (string, seq<real>, nat) -> seq<QdrantHit>, chat: Chat)
    ensures
      var hits := search(Sanitize(model), embed(model, question), k);
      var kept := Filter(hits, QdrantKeep(chunkSize));
      && |kept| <= |hits|
      && (forall h :: h in kept <==> h in hits && h.payload.chunkSize == chunkSize)
      && exists p ::
           && PromptLayout(p, PromptTail, Join("\n", Texts(kept, HitText)), question)
           && QdrantAnswer(question, model, chunkSize, llm, k, embed, search, chat) == chat(llm, p)
  {
    var hits := search(Sanitize(model), embed(model, question), k);
    var kept := Filter(hits, QdrantKeep(chunkSize));
    forall h ensures h in kept <==> h in hits && h.payload.chunkSize == chunkSize {
      FilterMember(hits, QdrantKeep(chunkSize), h);
    }
    var p := Prompt(QdrantContext(hits, chunkSize), question);
    assert PromptLayout(p, PromptTail, Join("\n", Texts(kept, HitText)), question)
        && QdrantAnswer(question, model, chunkSize, llm, k, embed, search, chat) == chat(llm, p);
  }

  /** chroma.py: an unregistered pair raises before the query; a result with rows
      shorter than its ids raises `IndexError`; otherwise the answer is the reply
      to the prompt whose context is the `"\n"`-join of the first returned
      documents, one per returned id, in ranked order. */
  lemma ChromaAnswerSpec(registry: Registry, question: string, model: string, chunkSize: int, llm: string, k: nat,
                         embed: Embedder, query: (string, seq<real>, nat) -> ChromaQueryResult, chat: Chat)
    ensures (model, chunkSize) !in registry ==>
      ChromaAnswer(registry, question, model, chunkSize, llm, k, embed, query, chat) == Failure(QueryFailed(Unregistered(NotInitialized(model, chunkSize))))
    ensures (model, chunkSize) in registry ==>
      var res := query(registry[(model, chunkSize)], embed(model, question), k);
      && (!WellShaped(res) ==> ChromaAnswer(registry, question, model, chunkSize, llm, k, embed, query, chat) == Failure(QueryFailed(IndexError)))
      && (WellShaped(res) ==>
            var texts := if |res.ids[0]| == 0 then [] else res.documents[0][..|res.ids[0]|];
            exists p ::
              && PromptLayout(p, PromptTail, Join("\n", texts), question)
              && ChromaAnswer(registry, question, model, chunkSize, llm, k, embed, query, chat) == Success(chat(llm, p)))
  {
    if (model, chunkSize) in registry {
      var res := query(registry[(model, chunkSize)], embed(model, question), k);
      if WellShaped(res) {
        var texts := if |res.ids[0]| == 0 then [] else res.documents[0][..|res.ids[0]|];
        var records := Records(res).value;
        assert Texts(records, RecordText) == texts;
        var p := Prompt(ChromaContext(records), question);
        assert PromptLayout(p, PromptTail, Join("\n", texts), question)
            && ChromaAnswer(registry, question, model, chunkSize, llm, k, embed, query, chat) == Success(chat(llm, p));
      }
    }
  }

  /** test.py: the answer of `llama3.2` to the prompt whose context is the block
      of every returned document, numbered from 1 in result order. */
  lemma TestAnswerSpec(question: string, k: nat, embed: Embedder, search: (seq<real>, nat) -> seq<TestDoc>, chat: Chat)
    ensures exists p ::
              && PromptLayout(p, TestPromptTail, EntriesFrom(0, search(embed(TestEmbeddingModel, question), k)), question)
              && TestAnswer(question, k, embed, search, chat) == chat(TestLlm, p)
  {
    var docs := search(embed(TestEmbeddingModel, question), k);
    NumberedContextAll(docs);
    var p := PromptWith(TestPromptTail, NumberedContextOf(docs), question);
    assert PromptLayout(p, TestPromptTail, EntriesFrom(0, docs), question)
        && TestAnswer(question, k, embed, search, chat) == chat(TestLlm, p);
  }
}
