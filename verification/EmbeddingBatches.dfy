/**
 * Embedding a list of texts in batches (backend/open_webui/retrieval/utils.py:814-851).
 */
module EmbeddingBatches {
  import opened Basics

  /** An embedding, as the backend names it. */
  type Embedding = int

  /** A backend call on one batch; None when the backend failed. */
  type Backend = seq<string> -> Option<seq<Embedding>>

  function Batches(texts: seq<string>, size: nat): (batches: seq<seq<string>>)
    requires size > 0
    ensures forall i :: 0 <= i < |batches| ==> 0 < |batches[i]| <= size
    decreases |texts|
  {
    if texts == [] then []
    else [texts[..Min(size, |texts|)]] + Batches(texts[Min(size, |texts|)..], size)
  }

  function Collected(batches: seq<seq<string>>, embed: Backend): seq<Embedding> {
    if batches == [] then []
    else (match embed(batches[0]) case Some(e) => e case None => []) + Collected(batches[1..], embed)
  }

  function Concat<T>(parts: seq<seq<T>>): seq<T> {
    if parts == [] then [] else parts[0] + Concat(parts[1..])
  }

  /** The batches, in order, are the texts, and all but the last are full. */
  lemma {:induction false} BatchesCover(texts: seq<string>, size: nat)
    requires size > 0
    ensures Concat(Batches(texts, size)) == texts
    ensures forall i :: 0 <= i < |Batches(texts, size)| - 1 ==> |Batches(texts, size)[i]| == size
    decreases |texts|
  {
    if texts != [] {
      BatchesCover(texts[Min(size, |texts|)..], size);
      assert texts == texts[..Min(size, |texts|)] + texts[Min(size, |texts|)..];
    }
  }

  method MakeBatches(texts: seq<string>, size: nat) returns (batches: seq<seq<string>>)
    requires size > 0
    ensures batches == Batches(texts, size)
  {
    batches := [];
    var i := 0;
    assert texts[0..] == texts;
    while i < |texts|
      invariant 0 <= i
      invariant batches + (if i <= |texts| then Batches(texts[i..], size) else []) == Batches(texts, size)
      decreases |texts| - i
    {
      BatchStep(texts, size, i);
      batches := batches + [texts[i..Min(i + size, |texts|)]];
      i := i + size;
    }
  }

  /** None for the ValueError of a zero step; a negative batch size makes no batches at all. */
  method EmbedAll(texts: seq<string>, batchSize: int, embed: Backend) returns (r: Option<seq<Embedding>>)
    ensures r.None? <==> batchSize == 0
    ensures batchSize < 0 ==> r == Some([])
    ensures batchSize > 0 ==> r == Some(Collected(Batches(texts, batchSize), embed))
  {
    if batchSize == 0 {
      return None;
    }
    var batches: seq<seq<string>> := [];
    if batchSize > 0 {
      batches := MakeBatches(texts, batchSize);
    }
    assert batches[0..] == batches;
    var results := seq(|batches|, i requires 0 <= i < |batches| => embed(batches[i]));
    var embeddings: seq<Embedding> := [];
    for b := 0 to |results|
      invariant embeddings + Collected(batches[b..], embed) == Collected(batches, embed)
    {
      if results[b].Some? {
        embeddings := embeddings + results[b].value;
      }
      assert batches[b..][1..] == batches[b + 1..];
    }
    assert batches[|batches|..] == [] && embeddings == Collected(batches, embed);
    return Some(embeddings);
  }

  lemma BatchStep(texts: seq<string>, size: nat, i: nat)
    requires size > 0 && i < |texts|
    ensures Batches(texts[i..], size) ==
      [texts[i..Min(i + size, |texts|)]] + if i + size <= |texts| then Batches(texts[i + size..], size) else []
  {
    var rest := texts[i..];
    assert rest[..Min(size, |rest|)] == texts[i..Min(i + size, |texts|)];
    assert i + size <= |texts| ==> rest[size..] == texts[i + size..];
  }

  /** The backend embeds each text by itself, when it answers. */
  ghost predicate PerText(embed: Backend, f: string -> Embedding) {
    forall b :: embed(b).Some? ==> embed(b).value == MapText(f, b)
  }

  function MapText(f: string -> Embedding, texts: seq<string>): seq<Embedding> {
    seq(|texts|, i requires 0 <= i < |texts| => f(texts[i]))
  }

  ghost predicate AllAnswer(batches: seq<seq<string>>, embed: Backend) {
    forall i :: 0 <= i < |batches| ==> embed(batches[i]).Some?
  }

  lemma {:induction false} CollectedLength(batches: seq<seq<string>>, embed: Backend, f: string -> Embedding)
    requires PerText(embed, f) && forall i :: 0 <= i < |batches| ==> |batches[i]| > 0
    ensures |Collected(batches, embed)| <= |Concat(batches)|
    ensures |Collected(batches, embed)| == |Concat(batches)| <==> AllAnswer(batches, embed)
    ensures AllAnswer(batches, embed) ==> Collected(batches, embed) == MapText(f, Concat(batches))
  {
    if batches != [] {
      var rest := batches[1..];
      CollectedLength(rest, embed, f);
      assert forall i :: 0 <= i < |rest| ==> rest[i] == batches[i + 1];
      assert forall i :: 1 <= i < |batches| ==> batches[i] == rest[i - 1];
      if AllAnswer(batches, embed) {
        assert AllAnswer(rest, embed);
        assert Collected(batches, embed) == MapText(f, batches[0]) + MapText(f, Concat(rest));
      }
    }
  }

  /** The batches the backend answered, in order. */
  function Answered(batches: seq<seq<string>>, embed: Backend): seq<seq<string>> {
    if batches == [] then []
    else (if embed(batches[0]).Some? then [batches[0]] else []) + Answered(batches[1..], embed)
  }

  lemma ConcatFirst<T>(first: seq<T>, rest: seq<seq<T>>)
    ensures Concat([first] + rest) == first + Concat(rest)
  {
  }

  lemma MapJoin(f: string -> Embedding, a: seq<string>, b: seq<string>)
    ensures MapText(f, a + b) == MapText(f, a) + MapText(f, b)
  {
  }

  /** Whatever fails, the embeddings are those of the texts of the answered batches, in order. */
  lemma {:induction false} FailedBatchesDrop(batches: seq<seq<string>>, embed: Backend, f: string -> Embedding)
    requires PerText(embed, f)
    ensures Collected(batches, embed) == MapText(f, Concat(Answered(batches, embed)))
  {
    if batches != [] {
      var rest := batches[1..];
      FailedBatchesDrop(rest, embed, f);
      if embed(batches[0]).Some? {
        ConcatFirst(batches[0], Answered(rest, embed));
        MapJoin(f, batches[0], Concat(Answered(rest, embed)));
      } else {
        assert [] + Answered(rest, embed) == Answered(rest, embed);
      }
    }
  }

  /**
   * Batching changes nothing, the i-th embedding is that of the i-th text, exactly when no batch
   * failed; a failed batch shortens the list instead.
   */
  lemma {:induction false} BatchingIsTransparent(texts: seq<string>, size: nat, embed: Backend, f: string -> Embedding)
    requires size > 0 && PerText(embed, f)
    ensures Collected(Batches(texts, size), embed) == MapText(f, texts) <==> AllAnswer(Batches(texts, size), embed)
    ensures !AllAnswer(Batches(texts, size), embed) ==> |Collected(Batches(texts, size), embed)| < |texts|
  {
    BatchesCover(texts, size);
    CollectedLength(Batches(texts, size), embed, f);
  }
}
