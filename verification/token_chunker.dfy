/** `chunk_text` of test.py: words are packed greedily into chunks under an estimated
    token budget, each word costing `len(word) // 4 + 1` tokens. */
module TokenChunker {
  import opened Text

  /** The budget test.py uses when no other is given. */
  const DefaultBudget := 100

  /** `len(word) // 4 + 1`: the estimated tokens of one word, never zero. */
  function Cost(w: string): (c: nat)
    ensures c >= 1 && 4 * (c - 1) <= |w| < 4 * c
  {
    |w| / 4 + 1
  }

  /** The estimated tokens of a run of words. */
  function TotalCost(ws: seq<string>): nat {
    if ws == [] then 0 else TotalCost(ws[..|ws| - 1]) + Cost(ws[|ws| - 1])
  }

  /** The loop from the state `(current_chunk, current_token_count)` over the words not
      yet seen. A word that does not fit closes the current chunk, even an empty one. */
  function Pack(ws: seq<string>, budget: int, current: seq<string>, count: int): seq<seq<string>>
  {
    if ws == [] then (if current == [] then [] else [current])
    else
      var c := Cost(ws[0]);
      if count + c > budget then [current] + Pack(ws[1..], budget, [ws[0]], c)
      else Pack(ws[1..], budget, current + [ws[0]], count + c)
  }

  /** The word lists of the chunks, from the loop's initial state. */
  function WordChunks(words: seq<string>, budget: int): seq<seq<string>> {
    Pack(words, budget, [], 0)
  }

  /** The list `chunk_text(text, chunk_size)` returns. */
  function Chunks(text: string, budget: int): seq<string> {
    JoinEach(WordChunks(Split(text), budget))
  }

  /** The loop of test.py:72-85. */
  method ChunkText(text: string, budget: int) returns (chunks: seq<string>)
    ensures chunks == Chunks(text, budget)
  {
    var words := Split(text);
    chunks := PackWords(words, budget);
  }

  /** The loop over the split words. */
  method PackWords(words: seq<string>, budget: int) returns (chunks: seq<string>)
    ensures chunks == JoinEach(WordChunks(words, budget))
  {
    ghost var all := JoinEach(WordChunks(words, budget));
    chunks := [];
    var current: seq<string> := [];
    var count := 0;
    var i := 0;
    while i < |words|
      invariant i <= |words|
      invariant chunks + JoinEach(Pack(words[i..], budget, current, count)) == all
    {
      var word := words[i];
      var cost := Cost(word);
      PackStep(chunks, words[i..], budget, current, count, all);
      assert words[i..][1..] == words[i + 1..];
      if count + cost > budget {
        chunks := chunks + [Join(" ", current)];
        current := [word];
        count := cost;
      } else {
        current := current + [word];
        count := count + cost;
      }
      i := i + 1;
    }
    PackEnd(budget, current, count);
    if current != [] {
      chunks := chunks + [Join(" ", current)];
    }
  }

  /** One word of the loop: either the current chunk is closed and the word starts
      the next, or the word joins the current chunk. */
  lemma PackStep(chunks: seq<string>, ws: seq<string>, budget: int, current: seq<string>, count: int, all: seq<string>)
    requires ws != [] && chunks + JoinEach(Pack(ws, budget, current, count)) == all
    ensures var c := Cost(ws[0]);
      count + c > budget ==> (chunks + [Join(" ", current)]) + JoinEach(Pack(ws[1..], budget, [ws[0]], c)) == all
    ensures var c := Cost(ws[0]);
      count + c <= budget ==> chunks + JoinEach(Pack(ws[1..], budget, current + [ws[0]], count + c)) == all
  {
    var c := Cost(ws[0]);
    if count + c > budget {
      var rest := JoinEach(Pack(ws[1..], budget, [ws[0]], c));
      JoinEachAppend([current], Pack(ws[1..], budget, [ws[0]], c));
      assert chunks + ([Join(" ", current)] + rest) == (chunks + [Join(" ", current)]) + rest;
    }
  }

  /** After the last word, only a non-empty current chunk is appended. */
  lemma PackEnd(budget: int, current: seq<string>, count: int)
    ensures JoinEach(Pack([], budget, current, count)) == if current == [] then [] else [Join(" ", current)]
  {
  }

  // ---- properties ----

  /** Concatenation of word lists. */
  function Flatten(xs: seq<seq<string>>): seq<string> {
    if xs == [] then [] else xs[0] + Flatten(xs[1..])
  }

  /** Chunk `b` follows chunk `a` because its first word did not fit after `a`. */
  predicate ClosedBefore(a: seq<string>, b: seq<string>, budget: int) {
    b != [] && TotalCost(a) + Cost(b[0]) > budget
  }

  /** What the loop state keeps: the count is the cost of the current chunk, and a
      current chunk of two or more words is within the budget. */
  predicate StateOk(current: seq<string>, count: int, budget: int) {
    count == TotalCost(current) && (|current| >= 2 ==> count <= budget)
  }

  lemma TotalCostAppend(ws: seq<string>, w: string)
    ensures TotalCost(ws + [w]) == TotalCost(ws) + Cost(w)
  {
    assert (ws + [w])[..|ws|] == ws;
  }

  lemma TotalCostSingle(w: string)
    ensures TotalCost([w]) == Cost(w)
  {
    assert [w][..0] == [];
  }

  /** Nothing is lost, duplicated or reordered: the chunks hold the current words and
      then the remaining ones. */
  lemma {:induction false} PackFlatten(ws: seq<string>, budget: int, current: seq<string>, count: int)
    ensures Flatten(Pack(ws, budget, current, count)) == current + ws
    decreases |ws|
  {
    if ws == [] {
      assert current + ws == current;
      if current != [] {
        assert Flatten([current]) == current + Flatten([]);
      }
    } else {
      var c := Cost(ws[0]);
      if count + c > budget {
        PackFlatten(ws[1..], budget, [ws[0]], c);
        var rest := Pack(ws[1..], budget, [ws[0]], c);
        assert ([current] + rest)[1..] == rest;
        assert [ws[0]] + ws[1..] == ws;
      } else {
        PackFlatten(ws[1..], budget, current + [ws[0]], count + c);
        assert current + [ws[0]] + ws[1..] == current + ws;
      }
    }
  }

  /** From a non-empty current chunk, every chunk is non-empty and the first one
      begins with the current chunk. */
  lemma {:induction false} PackNonEmpty(ws: seq<string>, budget: int, current: seq<string>, count: int)
    requires current != []
    ensures var r := Pack(ws, budget, current, count);
      |r| >= 1 && current <= r[0] && forall i :: 0 <= i < |r| ==> r[i] != []
    decreases |ws|
  {
    if ws != [] {
      var c := Cost(ws[0]);
      if count + c > budget {
        PackNonEmpty(ws[1..], budget, [ws[0]], c);
        var rest := Pack(ws[1..], budget, [ws[0]], c);
        var r := [current] + rest;
        assert Pack(ws, budget, current, count) == r;
        assert forall i :: 1 <= i < |r| ==> r[i] == rest[i - 1];
      } else {
        PackNonEmpty(ws[1..], budget, current + [ws[0]], count + c);
        var r := Pack(ws[1..], budget, current + [ws[0]], count + c);
        assert current <= current + [ws[0]] <= r[0];
      }
    }
  }

  /** Every chunk of two or more words is within the budget. */
  predicate WithinBudget(r: seq<seq<string>>, budget: int) {
    forall i :: 0 <= i < |r| && |r[i]| >= 2 ==> TotalCost(r[i]) <= budget
  }

  lemma {:induction false} PackWithinBudget(ws: seq<string>, budget: int, current: seq<string>, count: int)
    requires StateOk(current, count, budget)
    ensures WithinBudget(Pack(ws, budget, current, count), budget)
    decreases |ws|
  {
    if ws != [] {
      var c := Cost(ws[0]);
      if count + c > budget {
        TotalCostSingle(ws[0]);
        PackWithinBudget(ws[1..], budget, [ws[0]], c);
        var rest := Pack(ws[1..], budget, [ws[0]], c);
        assert Pack(ws, budget, current, count) == [current] + rest;
      } else {
        TotalCostAppend(current, ws[0]);
        PackWithinBudget(ws[1..], budget, current + [ws[0]], count + c);
      }
    }
  }

  /** A chunk is closed only when the next word would take it over the budget. */
  lemma {:induction false} PackMaximal(ws: seq<string>, budget: int, current: seq<string>, count: int)
    requires count == TotalCost(current)
    ensures var r := Pack(ws, budget, current, count);
      forall i, j :: 0 <= i && j == i + 1 && j < |r| ==> ClosedBefore(r[i], r[j], budget)
    decreases |ws|
  {
    if ws != [] {
      var c := Cost(ws[0]);
      if count + c > budget {
        TotalCostSingle(ws[0]);
        PackMaximal(ws[1..], budget, [ws[0]], c);
        PackNonEmpty(ws[1..], budget, [ws[0]], c);
        var rest := Pack(ws[1..], budget, [ws[0]], c);
        assert rest[0][0] == ws[0];
        assert ClosedBefore(current, rest[0], budget);
      } else {
        TotalCostAppend(current, ws[0]);
        PackMaximal(ws[1..], budget, current + [ws[0]], count + c);
        assert Pack(ws, budget, current, count) == Pack(ws[1..], budget, current + [ws[0]], count + c);
      }
    }
  }

  /** The chunks of a word sequence: they concatenate back to the words; each chunk of
      two or more words is within the budget; each chunk but the last was closed by a
      word that did not fit; only the first chunk can be empty, and it is empty exactly
      when the first word alone is over the budget; no words give no chunks, and
      otherwise the last chunk is non-empty. */
  lemma WordChunksSpec(words: seq<string>, budget: int)
    ensures var r := WordChunks(words, budget);
      && Flatten(r) == words
      && WithinBudget(r, budget)
      && (forall i, j :: 0 <= i && j == i + 1 && j < |r| ==> ClosedBefore(r[i], r[j], budget))
      && (forall i :: 1 <= i < |r| ==> r[i] != [])
      && (|r| > 0 && r[0] == [] <==> |words| > 0 && Cost(words[0]) > budget)
      && (words == [] <==> r == [])
      && (r != [] ==> r[|r| - 1] != [])
  {
    var r := WordChunks(words, budget);
    PackFlatten(words, budget, [], 0);
    assert [] + words == words;
    PackWithinBudget(words, budget, [], 0);
    PackMaximal(words, budget, [], 0);
    if words != [] {
      var c := Cost(words[0]);
      TotalCostSingle(words[0]);
      if c > budget {
        PackNonEmpty(words[1..], budget, [words[0]], c);
      } else {
        assert [] + [words[0]] == [words[0]];
        PackNonEmpty(words[1..], budget, [words[0]], c);
      }
    }
  }

  /** At the level of text: each chunk split again gives the words of its chunk, so
      re-splitting the chunks and concatenating gives back the words of the text. */
  lemma ChunksSplitBack(text: string, budget: int)
    ensures var cs, r := Chunks(text, budget), WordChunks(Split(text), budget);
      && |cs| == |r|
      && (forall i :: 0 <= i < |cs| ==> Split(cs[i]) == r[i])
      && Flatten(r) == Split(text)
  {
    var r := WordChunks(Split(text), budget);
    PackFlatten(Split(text), budget, [], 0);
    assert [] + Split(text) == Split(text);
    assert AllWords(Flatten(r));
    forall i | 0 <= i < |r|
      ensures Split(Join(" ", r[i])) == r[i]
    {
      FlattenAllWords(r, i);
      SplitJoin(r[i]);
    }
  }

  lemma {:induction false} FlattenAllWords(xs: seq<seq<string>>, i: nat)
    requires i < |xs| && AllWords(Flatten(xs))
    ensures AllWords(xs[i])
  {
    var f := Flatten(xs);
    assert f == xs[0] + Flatten(xs[1..]);
    forall k | 0 <= k < |Flatten(xs[1..])|
      ensures IsWord(Flatten(xs[1..])[k])
    {
      assert Flatten(xs[1..])[k] == f[|xs[0]| + k];
    }
    forall k | 0 <= k < |xs[0]|
      ensures IsWord(xs[0][k])
    {
      assert xs[0][k] == f[k];
    }
    if i > 0 {
      FlattenAllWords(xs[1..], i - 1);
    }
  }
}
