/** `all_combinations_question_answers`, the benchmark runner of redis.py, chroma.py
    and qdrant.py: four nested loops over embedding models, chat models, chunk sizes
    and questions, each cell asking `answer_question` once and writing one block to
    the log, whether the answer came back or an exception was caught. The answer
    is an oracle that yields the answer text or the exception's message; the log
    file is the sequence of strings written to it, empty at the start because the
    file is opened with mode `"w"`. */
module Benchmark {
  import opened Wrappers
  import opened Text
  import IngestionFacts

  /** One cell of the embedding x chat model x chunk size x question grid. */
  datatype Cell = Cell(embedding: string, llm: string, chunkSize: int, question: string)

  /** `answer_question` for a cell: the answer, or the caught exception's text. */
  type Answer = Cell -> Result<string, string>

  /** The writes of one cell, given how its answer came out. */
  type BlockWriter = (Cell, Result<string, string>) -> seq<string>

  // ---- flattening in loop order ----

  /** The concatenation of `f(x)` over `xs`, in order. */
  function Concat<A, B>(xs: seq<A>, f: A -> seq<B>): seq<B> {
    if xs == [] then [] else Concat(xs[..|xs| - 1], f) + f(xs[|xs| - 1])
  }

  lemma ConcatSnoc<A, B>(xs: seq<A>, i: nat, f: A -> seq<B>)
    requires i < |xs|
    ensures Concat(xs[..i + 1], f) == Concat(xs[..i], f) + f(xs[i])
  {
    assert xs[..i + 1][..i] == xs[..i];
  }

  lemma {:induction false} ConcatAppend<A, B>(xs: seq<A>, ys: seq<A>, f: A -> seq<B>)
    ensures Concat(xs + ys, f) == Concat(xs, f) + Concat(ys, f)
    decreases |ys|
  {
    if ys == [] {
      assert xs + ys == xs;
    } else {
      var front := ys[..|ys| - 1];
      assert (xs + ys)[..|xs + ys| - 1] == xs + front;
      assert (xs + ys)[|xs + ys| - 1] == ys[|ys| - 1];
      ConcatAppend(xs, front, f);
    }
  }

  /** When every part has length `m`, the concatenation has `|xs| * m` elements. */
  lemma {:induction false} ConcatUniformLength<A, B>(xs: seq<A>, f: A -> seq<B>, m: nat)
    requires forall i :: 0 <= i < |xs| ==> |f(xs[i])| == m
    ensures |Concat(xs, f)| == |xs| * m
    decreases |xs|
  {
    if xs != [] {
      var n := |xs| - 1;
      var front := xs[..n];
      forall i | 0 <= i < |front| ensures |f(front[i])| == m {
        assert front[i] == xs[i];
      }
      ConcatUniformLength(front, f, m);
      assert |Concat(xs, f)| == n * m + m;
    }
  }

  /** When every part has length `m`, part `i` sits at offset `i * m`. */
  lemma {:induction false} ConcatUniformAt<A, B>(xs: seq<A>, f: A -> seq<B>, m: nat, i: nat, j: nat)
    requires forall k :: 0 <= k < |xs| ==> |f(xs[k])| == m
    requires i < |xs| && j < m
    ensures i * m + j < |Concat(xs, f)|
    ensures Concat(xs, f)[i * m + j] == f(xs[i])[j]
    decreases |xs|
  {
    ConcatUniformLength(xs, f, m);
    IngestionFacts.MulMono(i + 1, |xs|, m);
    var n := |xs| - 1;
    var front := xs[..n];
    forall k | 0 <= k < |front| ensures |f(front[k])| == m {
      assert front[k] == xs[k];
    }
    ConcatUniformLength(front, f, m);
    if i < n {
      IngestionFacts.MulMono(i + 1, n, m);
      ConcatUniformAt(front, f, m, i, j);
      assert front[i] == xs[i];
    } else {
      assert i * m + j == |Concat(front, f)| + j;
    }
  }

  // ---- the grid, in loop order ----

  function QuestionCells(e: string, l: string, s: int, questions: seq<string>): seq<Cell> {
    seq(|questions|, i requires 0 <= i < |questions| => Cell(e, l, s, questions[i]))
  }

  /** The cells of one chunk size's question loop. */
  function SizePart(e: string, l: string, questions: seq<string>): int -> seq<Cell> {
    s => QuestionCells(e, l, s, questions)
  }

  function SizeCells(e: string, l: string, sizes: seq<int>, questions: seq<string>): seq<Cell> {
    Concat(sizes, SizePart(e, l, questions))
  }

  /** The cells of one chat model's chunk-size loop. */
  function LlmPart(e: string, sizes: seq<int>, questions: seq<string>): string -> seq<Cell> {
    l => SizeCells(e, l, sizes, questions)
  }

  function LlmCells(e: string, llms: seq<string>, sizes: seq<int>, questions: seq<string>): seq<Cell> {
    Concat(llms, LlmPart(e, sizes, questions))
  }

  /** The cells of one embedding model's chat-model loop. */
  function EmbeddingPart(llms: seq<string>, sizes: seq<int>, questions: seq<string>): string -> seq<Cell> {
    e => LlmCells(e, llms, sizes, questions)
  }

  /** Every cell of the grid in the order the four loops visit it. */
  function Cells(embeddings: seq<string>, llms: seq<string>, sizes: seq<int>, questions: seq<string>): seq<Cell> {
    Concat(embeddings, EmbeddingPart(llms, sizes, questions))
  }

  /** The writes of one cell. */
  function Writer(answer: Answer, block: BlockWriter): Cell -> seq<string> {
    c => block(c, answer(c))
  }

  /** The log of a run over `cells`: each cell's block, in order. */
  function Log(cells: seq<Cell>, answer: Answer, block: BlockWriter): seq<string> {
    Concat(cells, Writer(answer, block))
  }

  lemma SizeCellsLength(e: string, l: string, sizes: seq<int>, questions: seq<string>)
    ensures |SizeCells(e, l, sizes, questions)| == |sizes| * |questions|
  {
    ConcatUniformLength(sizes, SizePart(e, l, questions), |questions|);
  }

  lemma LlmCellsLength(e: string, llms: seq<string>, sizes: seq<int>, questions: seq<string>)
    ensures |LlmCells(e, llms, sizes, questions)| == |llms| * (|sizes| * |questions|)
  {
    forall k | 0 <= k < |llms| ensures |LlmPart(e, sizes, questions)(llms[k])| == |sizes| * |questions| {
      SizeCellsLength(e, llms[k], sizes, questions);
    }
    ConcatUniformLength(llms, LlmPart(e, sizes, questions), |sizes| * |questions|);
  }

  /** The grid has one cell per combination. */
  lemma CellsLength(embeddings: seq<string>, llms: seq<string>, sizes: seq<int>, questions: seq<string>)
    ensures |Cells(embeddings, llms, sizes, questions)| == |embeddings| * (|llms| * (|sizes| * |questions|))
  {
    forall k | 0 <= k < |embeddings|
      ensures |EmbeddingPart(llms, sizes, questions)(embeddings[k])| == |llms| * (|sizes| * |questions|)
    {
      LlmCellsLength(embeddings[k], llms, sizes, questions);
    }
    ConcatUniformLength(embeddings, EmbeddingPart(llms, sizes, questions), |llms| * (|sizes| * |questions|));
  }

  /** The index of a cell in visiting order: the embedding model varies slowest and
      the question fastest. */
  function CellIndex(ei: nat, li: nat, ci: nat, qi: nat, llmCount: nat, sizeCount: nat, questionCount: nat): nat {
    ((ei * llmCount + li) * sizeCount + ci) * questionCount + qi
  }

  lemma CellIndexSplit(ei: nat, li: nat, ci: nat, qi: nat, llmCount: nat, sizeCount: nat, questionCount: nat)
    ensures CellIndex(ei, li, ci, qi, llmCount, sizeCount, questionCount)
            == ei * (llmCount * (sizeCount * questionCount)) + (li * (sizeCount * questionCount) + (ci * questionCount + qi))
  {
    var Q, C := questionCount, sizeCount * questionCount;
    calc {
      ((ei * llmCount + li) * sizeCount + ci) * Q + qi;
      (ei * llmCount + li) * sizeCount * Q + ci * Q + qi;
      (ei * llmCount + li) * C + ci * Q + qi;
      ei * llmCount * C + li * C + ci * Q + qi;
      ei * (llmCount * C) + (li * C + (ci * Q + qi));
    }
  }

  lemma SizeCellsAt(e: string, l: string, sizes: seq<int>, questions: seq<string>, ci: nat, qi: nat)
    requires ci < |sizes| && qi < |questions|
    ensures ci * |questions| + qi < |SizeCells(e, l, sizes, questions)|
    ensures SizeCells(e, l, sizes, questions)[ci * |questions| + qi] == Cell(e, l, sizes[ci], questions[qi])
  {
    ConcatUniformAt(sizes, SizePart(e, l, questions), |questions|, ci, qi);
  }

  lemma LlmCellsAt(e: string, llms: seq<string>, sizes: seq<int>, questions: seq<string>, li: nat, ci: nat, qi: nat)
    requires li < |llms| && ci < |sizes| && qi < |questions|
    ensures li * (|sizes| * |questions|) + (ci * |questions| + qi) < |LlmCells(e, llms, sizes, questions)|
    ensures LlmCells(e, llms, sizes, questions)[li * (|sizes| * |questions|) + (ci * |questions| + qi)]
            == Cell(e, llms[li], sizes[ci], questions[qi])
  {
    var C := |sizes| * |questions|;
    SizeCellsAt(e, llms[li], sizes, questions, ci, qi);
    SizeCellsLength(e, llms[li], sizes, questions);
    forall k | 0 <= k < |llms| ensures |LlmPart(e, sizes, questions)(llms[k])| == C {
      SizeCellsLength(e, llms[k], sizes, questions);
    }
    ConcatUniformAt(llms, LlmPart(e, sizes, questions), C, li, ci * |questions| + qi);
  }

  /** Cell `(ei, li, ci, qi)` of the visiting order is the combination of
      embedding model `ei`, chat model `li`, chunk size `ci` and question `qi`. */
  lemma CellsAt(embeddings: seq<string>, llms: seq<string>, sizes: seq<int>, questions: seq<string>,
                ei: nat, li: nat, ci: nat, qi: nat)
    requires ei < |embeddings| && li < |llms| && ci < |sizes| && qi < |questions|
    ensures CellIndex(ei, li, ci, qi, |llms|, |sizes|, |questions|) < |Cells(embeddings, llms, sizes, questions)|
    ensures Cells(embeddings, llms, sizes, questions)[CellIndex(ei, li, ci, qi, |llms|, |sizes|, |questions|)]
            == Cell(embeddings[ei], llms[li], sizes[ci], questions[qi])
  {
    var L := |llms| * (|sizes| * |questions|);
    var within := li * (|sizes| * |questions|) + (ci * |questions| + qi);
    LlmCellsAt(embeddings[ei], llms, sizes, questions, li, ci, qi);
    LlmCellsLength(embeddings[ei], llms, sizes, questions);
    forall k | 0 <= k < |embeddings| ensures |EmbeddingPart(llms, sizes, questions)(embeddings[k])| == L {
      LlmCellsLength(embeddings[k], llms, sizes, questions);
    }
    ConcatUniformAt(embeddings, EmbeddingPart(llms, sizes, questions), L, ei, within);
    CellIndexSplit(ei, li, ci, qi, |llms|, |sizes|, |questions|);
  }

  /** When every block has `m` writes, the writes of cell `t` are the block of that
      cell and of its own answer alone, at offset `t * m`: a failed cell still
      writes its block, and no other cell's writes depend on it. */
  lemma LogAt(cells: seq<Cell>, answer: Answer, block: BlockWriter, m: nat, t: nat)
    requires forall c, r :: |block(c, r)| == m
    requires t < |cells|
    ensures |Log(cells, answer, block)| == |cells| * m
    ensures t * m + m <= |Log(cells, answer, block)|
    ensures Log(cells, answer, block)[t * m .. t * m + m] == block(cells[t], answer(cells[t]))
  {
    var f := Writer(answer, block);
    ConcatUniformLength(cells, f, m);
    IngestionFacts.MulMono(t + 1, |cells|, m);
    var log := Log(cells, answer, block);
    forall j | 0 <= j < m ensures log[t * m .. t * m + m][j] == block(cells[t], answer(cells[t]))[j] {
      ConcatUniformAt(cells, f, m, t, j);
    }
  }

  // ---- the loops ----

  method RunQuestions(e: string, l: string, s: int, questions: seq<string>, answer: Answer, block: BlockWriter)
    returns (log: seq<string>)
    ensures log == Log(QuestionCells(e, l, s, questions), answer, block)
  {
    ghost var cells := QuestionCells(e, l, s, questions);
    log := [];
    var qi := 0;
    while qi < |questions|
      invariant qi <= |questions|
      invariant log == Log(cells[..qi], answer, block)
    {
      var cell := Cell(e, l, s, questions[qi]);
      var outcome := answer(cell);
      ConcatSnoc(cells, qi, Writer(answer, block));
      log := log + block(cell, outcome);
      qi := qi + 1;
    }
    assert cells[..qi] == cells;
  }

  method RunSizes(e: string, l: string, sizes: seq<int>, questions: seq<string>, answer: Answer, block: BlockWriter)
    returns (log: seq<string>)
    ensures log == Log(SizeCells(e, l, sizes, questions), answer, block)
  {
    var f := SizePart(e, l, questions);
    log := [];
    var ci := 0;
    while ci < |sizes|
      invariant ci <= |sizes|
      invariant log == Log(Concat(sizes[..ci], f), answer, block)
    {
      var more := RunQuestions(e, l, sizes[ci], questions, answer, block);
      ConcatSnoc(sizes, ci, f);
      ConcatAppend(Concat(sizes[..ci], f), f(sizes[ci]), Writer(answer, block));
      log := log + more;
      ci := ci + 1;
    }
    assert sizes[..ci] == sizes;
  }

  method RunLlms(e: string, llms: seq<string>, sizes: seq<int>, questions: seq<string>, answer: Answer, block: BlockWriter)
    returns (log: seq<string>)
    ensures log == Log(LlmCells(e, llms, sizes, questions), answer, block)
  {
    var f := LlmPart(e, sizes, questions);
    log := [];
    var li := 0;
    while li < |llms|
      invariant li <= |llms|
      invariant log == Log(Concat(llms[..li], f), answer, block)
    {
      var more := RunSizes(e, llms[li], sizes, questions, answer, block);
      ConcatSnoc(llms, li, f);
      ConcatAppend(Concat(llms[..li], f), f(llms[li]), Writer(answer, block));
      log := log + more;
      li := li + 1;
    }
    assert llms[..li] == llms;
  }

  /** The four nested loops of the runner, for the block format `block`. */
  method AllCombinations(embeddings: seq<string>, llms: seq<string>, sizes: seq<int>, questions: seq<string>,
                         answer: Answer, block: BlockWriter)
    returns (log: seq<string>)
    ensures log == Log(Cells(embeddings, llms, sizes, questions), answer, block)
  {
    var f := EmbeddingPart(llms, sizes, questions);
    log := [];
    var ei := 0;
    while ei < |embeddings|
      invariant ei <= |embeddings|
      invariant log == Log(Concat(embeddings[..ei], f), answer, block)
    {
      var more := RunLlms(embeddings[ei], llms, sizes, questions, answer, block);
      ConcatSnoc(embeddings, ei, f);
      ConcatAppend(Concat(embeddings[..ei], f), f(embeddings[ei]), Writer(answer, block));
      log := log + more;
      ei := ei + 1;
    }
    assert embeddings[..ei] == embeddings;
  }

  // ---- the block formats ----

  /** The text after `Answer\n`: the answer, or `Error: ` and the message. */
  function AnswerText(outcome: Result<string, string>): string {
    match outcome
    case Success(a) => a
    case Failure(msg) => "Error: " + msg
  }

  /** The five writes of one cell in redis.py and chroma.py; a failed cell writes
      the same headings. */
  function LabelledBlock(c: Cell, outcome: Result<string, string>): (r: seq<string>)
    ensures |r| == 5
  {
    ["\nLLM\n" + c.llm + "\n", "Embedding\n" + c.embedding + "\n", "Chunk Sizes\n" + IntToString(c.chunkSize) + "\n\n",
     "Question\n" + c.question + "\n\n", "Answer\n" + AnswerText(outcome) + "\n"]
  }

  /** The two writes of one cell in qdrant.py. A failed cell names only the
      question: its block does not say which models or size failed. */
  function QdrantBlock(c: Cell, outcome: Result<string, string>): (r: seq<string>)
    ensures |r| == 2
  {
    match outcome
    case Success(a) =>
      ["\nEmbedding: " + c.embedding + "\nLLM: " + c.llm + "\nChunk size: " + IntToString(c.chunkSize) + "\n",
       "Question: " + c.question + "\nAnswer: " + a + "\n"]
    case Failure(msg) => ["Error for question: " + c.question + "\n", "Error: " + msg + "\n"]
  }

  /** The log of redis.py and chroma.py: five writes per combination, and the
      writes of combination `(ei, li, ci, qi)` are that combination's block, an
      error block when its answer failed. */
  lemma LabelledLogAt(embeddings: seq<string>, llms: seq<string>, sizes: seq<int>, questions: seq<string>,
                      answer: Answer, ei: nat, li: nat, ci: nat, qi: nat)
    requires ei < |embeddings| && li < |llms| && ci < |sizes| && qi < |questions|
    ensures |Log(Cells(embeddings, llms, sizes, questions), answer, LabelledBlock)|
            == 5 * (|embeddings| * (|llms| * (|sizes| * |questions|)))
    ensures var t := CellIndex(ei, li, ci, qi, |llms|, |sizes|, |questions|);
            var c := Cell(embeddings[ei], llms[li], sizes[ci], questions[qi]);
            t * 5 + 5 <= |Log(Cells(embeddings, llms, sizes, questions), answer, LabelledBlock)| &&
            Log(Cells(embeddings, llms, sizes, questions), answer, LabelledBlock)[t * 5 .. t * 5 + 5] == LabelledBlock(c, answer(c))
  {
    var cells := Cells(embeddings, llms, sizes, questions);
    CellsAt(embeddings, llms, sizes, questions, ei, li, ci, qi);
    CellsLength(embeddings, llms, sizes, questions);
    LogAt(cells, answer, LabelledBlock, 5, CellIndex(ei, li, ci, qi, |llms|, |sizes|, |questions|));
  }

  /** The log of qdrant.py: two writes per combination, and the writes of
      combination `(ei, li, ci, qi)` are that combination's block. */
  lemma QdrantLogAt(embeddings: seq<string>, llms: seq<string>, sizes: seq<int>, questions: seq<string>,
                    answer: Answer, ei: nat, li: nat, ci: nat, qi: nat)
    requires ei < |embeddings| && li < |llms| && ci < |sizes| && qi < |questions|
    ensures |Log(Cells(embeddings, llms, sizes, questions), answer, QdrantBlock)|
            == 2 * (|embeddings| * (|llms| * (|sizes| * |questions|)))
    ensures var t := CellIndex(ei, li, ci, qi, |llms|, |sizes|, |questions|);
            var c := Cell(embeddings[ei], llms[li], sizes[ci], questions[qi]);
            t * 2 + 2 <= |Log(Cells(embeddings, llms, sizes, questions), answer, QdrantBlock)| &&
            Log(Cells(embeddings, llms, sizes, questions), answer, QdrantBlock)[t * 2 .. t * 2 + 2] == QdrantBlock(c, answer(c))
  {
    var cells := Cells(embeddings, llms, sizes, questions);
    CellsAt(embeddings, llms, sizes, questions, ei, li, ci, qi);
    CellsLength(embeddings, llms, sizes, questions);
    LogAt(cells, answer, QdrantBlock, 2, CellIndex(ei, li, ci, qi, |llms|, |sizes|, |questions|));
  }

  /** In qdrant.py two cells that differ only in their models and size and fail
      with the same message write identical blocks. */
  lemma QdrantErrorBlocksAlike(c1: Cell, c2: Cell, msg: string)
    requires c1.question == c2.question
    ensures QdrantBlock(c1, Failure(msg)) == QdrantBlock(c2, Failure(msg))
  {
  }

  /** In redis.py and chroma.py, a block names its cell: different cells write
      different blocks, whatever their outcomes. */
  lemma LabelledBlockNamesCell(c1: Cell, o1: Result<string, string>, c2: Cell, o2: Result<string, string>)
    requires LabelledBlock(c1, o1) == LabelledBlock(c2, o2)
    ensures c1 == c2
  {
    var b1, b2 := LabelledBlock(c1, o1), LabelledBlock(c2, o2);
    assert c1.llm == b1[0][5..|b1[0]| - 1];
    assert c2.llm == b2[0][5..|b2[0]| - 1];
    assert c1.embedding == b1[1][10..|b1[1]| - 1];
    assert c2.embedding == b2[1][10..|b2[1]| - 1];
    assert c1.question == b1[3][9..|b1[3]| - 2];
    assert c2.question == b2[3][9..|b2[3]| - 2];
    assert IntToString(c1.chunkSize) == b1[2][12..|b1[2]| - 2];
    assert IntToString(c2.chunkSize) == b2[2][12..|b2[2]| - 2];
    IntToStringInjective(c1.chunkSize, c2.chunkSize);
  }
}
