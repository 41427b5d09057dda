/** The embedding stage: the abstracts of all papers are encoded batch by
    batch and each paper receives, in place, the vector at its position. */
module GenerateEmbeddings {
  import opened Optional
  import opened Papers
  import opened Batching

  /** `[paper.get('abstract', '') for paper in papers]` */
  function Abstracts(papers: seq<Paper>): (r: seq<string>)
    ensures |r| == |papers|
  {
    if papers == [] then [] else Abstracts(papers[..|papers| - 1]) + [papers[|papers| - 1].abstractText.GetOr("")]
  }

  /** One abstract per paper, in order, `''` where the paper has none. */
  lemma {:induction false} AbstractsAt(papers: seq<Paper>)
    ensures forall k :: 0 <= k < |papers| ==>
      Abstracts(papers)[k] == if papers[k].abstractText.Some? then papers[k].abstractText.value else ""
  {
    if papers != [] {
      AbstractsAt(papers[..|papers| - 1]);
    }
  }

  /** The model's answer to each call, in call order. */
  function EncodeEach(calls: seq<seq<string>>, encode: seq<string> -> seq<Vector>): (r: seq<seq<Vector>>)
    ensures |r| == |calls|
  {
    if calls == [] then [] else EncodeEach(calls[..|calls| - 1], encode) + [encode(calls[|calls| - 1])]
  }

  /** The batch loop: `encode` is called once per slice
      `abstracts[i:i + batchSize]`, in order, and the answers are
      concatenated. `calls` records the arguments of those calls. */
  method EncodeInBatches(abstracts: seq<string>, batchSize: nat, encode: seq<string> -> seq<Vector>)
    returns (calls: seq<seq<string>>, allEmbeddings: seq<Vector>)
    requires batchSize > 0
    ensures calls == Batches(abstracts, batchSize)
    ensures allEmbeddings == Flatten(EncodeEach(calls, encode))
  {
    calls, allEmbeddings := [], [];
    var i := 0;
    while i < |abstracts|
      invariant 0 <= i <= |abstracts|
      invariant calls + Batches(abstracts[i..], batchSize) == Batches(abstracts, batchSize)
      invariant allEmbeddings == Flatten(EncodeEach(calls, encode))
      decreases |abstracts| - i
    {
      var end := if i + batchSize < |abstracts| then i + batchSize else |abstracts|;
      var batch := abstracts[i..end];
      LoopStep(abstracts, i, batchSize, calls);
      var batchEmbeddings := encode(batch);
      FlattenAppend(EncodeEach(calls, encode), [batchEmbeddings]);
      assert (calls + [batch])[..|calls|] == calls;
      assert EncodeEach(calls + [batch], encode) == EncodeEach(calls, encode) + [batchEmbeddings];
      calls := calls + [batch];
      allEmbeddings := allEmbeddings + batchEmbeddings;
      i := end;
    }
    LoopEnd(abstracts, batchSize, calls);
  }

  lemma {:induction false} EncodeEachLength(calls: seq<seq<string>>, encode: seq<string> -> seq<Vector>)
    requires forall batch :: |encode(batch)| == |batch|
    ensures |Flatten(EncodeEach(calls, encode))| == |Flatten(calls)|
  {
    if calls != [] {
      var init, last := calls[..|calls| - 1], calls[|calls| - 1];
      assert calls == init + [last];
      EncodeEachLength(init, encode);
      FlattenAppend(init, [last]);
      FlattenAppend(EncodeEach(init, encode), [encode(last)]);
      assert EncodeEach(calls, encode) == EncodeEach(init, encode) + [encode(last)];
    }
  }

  /** When the model answers every batch with one vector per text, there
      is exactly one embedding per abstract, and the number of model calls
      is `ceil(n / batchSize)` (none at all for no papers). */
  lemma OneEmbeddingPerAbstract(abstracts: seq<string>, batchSize: nat, encode: seq<string> -> seq<Vector>)
    requires batchSize > 0
    requires forall batch :: |encode(batch)| == |batch|
    ensures |Flatten(EncodeEach(Batches(abstracts, batchSize), encode))| == |abstracts|
    ensures |Batches(abstracts, batchSize)| == (|abstracts| + batchSize - 1) / batchSize
  {
    EncodeEachLength(Batches(abstracts, batchSize), encode);
    BatchesPartition(abstracts, batchSize);
    BatchesCount(abstracts, batchSize);
  }

  /** `zip(papers, all_embeddings)`: the papers up to the shorter length
      receive the vector at their position; the rest are left as they were. */
  function Attached(papers: seq<Paper>, embeddings: seq<Vector>): seq<Paper> {
    seq(|papers|, k requires 0 <= k < |papers| =>
      if k < |embeddings| then papers[k].(abstractVector := Some(embeddings[k])) else papers[k])
  }

  /** Attaching changes the `abstract_vector` key and nothing else: every
      other field of every paper is kept, and a paper past the end of the
      embeddings is kept whole. */
  lemma AttachedSpec(papers: seq<Paper>, embeddings: seq<Vector>, k: nat)
    requires k < |papers|
    ensures |Attached(papers, embeddings)| == |papers|
    ensures Attached(papers, embeddings)[k].(abstractVector := papers[k].abstractVector) == papers[k]
    ensures k < |embeddings| ==> Attached(papers, embeddings)[k].abstractVector == Some(embeddings[k])
    ensures k >= |embeddings| ==> Attached(papers, embeddings)[k] == papers[k]
  {
  }

  /** The in-place loop `paper['abstract_vector'] = embedding` over
      `zip(papers, all_embeddings)`. */
  method AttachVectors(papers: array<Paper>, embeddings: seq<Vector>)
    modifies papers
    ensures papers[..] == Attached(old(papers[..]), embeddings)
  {
    var n := if papers.Length < |embeddings| then papers.Length else |embeddings|;
    var i := 0;
    while i < n
      invariant 0 <= i <= n
      invariant forall k :: 0 <= k < i ==> papers[k] == old(papers[k]).(abstractVector := Some(embeddings[k]))
      invariant forall k :: i <= k < papers.Length ==> papers[k] == old(papers[k])
    {
      papers[i] := papers[i].(abstractVector := Some(embeddings[i]));
      i := i + 1;
    }
  }

  datatype Failure = ValueError

  /** `generate_embeddings(papers, batch_size=...)` with the model as the
      function `encode`. A batch size of 0 makes `range` raise before any
      work; a negative one gives an empty range, so no call is made and no
      paper changes. Otherwise every paper gets the vector at its position. */
  method Embed(papers: array<Paper>, batchSize: int, encode: seq<string> -> seq<Vector>)
    returns (error: Option<Failure>, calls: seq<seq<string>>)
    modifies papers
    ensures error.Some? <==> batchSize == 0
    ensures batchSize <= 0 ==> calls == [] && papers[..] == old(papers[..])
    ensures batchSize > 0 ==> calls == Batches(Abstracts(old(papers[..])), batchSize)
    ensures batchSize > 0 ==>
      papers[..] == Attached(old(papers[..]), Flatten(EncodeEach(calls, encode)))
  {
    if batchSize == 0 {
      return Some(ValueError), [];
    }
    error, calls := None, [];
    if batchSize > 0 {
      var allEmbeddings;
      calls, allEmbeddings := EncodeInBatches(Abstracts(papers[..]), batchSize, encode);
      AttachVectors(papers, allEmbeddings);
    }
  }

  /** With a well-behaved model every paper ends up carrying a vector. */
  lemma EveryPaperEmbedded(papers: seq<Paper>, batchSize: nat, encode: seq<string> -> seq<Vector>, k: nat)
    requires batchSize > 0 && k < |papers|
    requires forall batch :: |encode(batch)| == |batch|
    ensures Attached(papers, Flatten(EncodeEach(Batches(Abstracts(papers), batchSize), encode)))[k].abstractVector.Some?
  {
    OneEmbeddingPerAbstract(Abstracts(papers), batchSize, encode);
  }
}
