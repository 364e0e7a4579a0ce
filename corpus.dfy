/** The `__main__` block of build_embeddings.py: the two parallel arrays
    `all_chunks` / `all_metadata`, the batched embedding loop and the
    dimension read that precedes building the flat L2 index. The embedder
    is an external service, passed in as a function; the index itself is
    a foreign library and only its input is modelled. */
module Corpus {
  import opened Strings
  import opened Chunker
  import opened Records

  /** An embedding vector; its entries are never inspected here. */
  type Vector = seq<real>

  /** Texts per call to the embedding service. */
  const BatchSize: nat := 50

  /** The chunks of one document, with the indexer's configuration. */
  function DocChunks(d: Document): seq<string> {
    Chunks(d.text, ChunkSize, ChunkOverlap)
  }

  /** `all_chunks`: every document's chunks, document after document. */
  function AllChunks(docs: seq<Document>): seq<string> {
    if docs == [] then []
    else AllChunks(docs[..|docs| - 1]) + DocChunks(docs[|docs| - 1])
  }

  /** `all_metadata`: a copy of a document's metadata for each of its chunks. */
  function AllMetadata(docs: seq<Document>): (r: seq<Metadata>)
    ensures |r| == |AllChunks(docs)|
  {
    if docs == [] then []
    else
      var d := docs[|docs| - 1];
      AllMetadata(docs[..|docs| - 1]) + seq(|DocChunks(d)|, _ => d.metadata)
  }

  /** The two arrays the main block builds before embedding. */
  method BuildChunkArrays(docs: seq<Document>) returns (allChunks: seq<string>, allMetadata: seq<Metadata>)
    ensures allChunks == AllChunks(docs) && allMetadata == AllMetadata(docs)
    ensures |allChunks| == |allMetadata|
  {
    allChunks, allMetadata := [], [];
    for n := 0 to |docs|
      invariant allChunks == AllChunks(docs[..n])
      invariant allMetadata == AllMetadata(docs[..n])
    {
      var d := docs[n];
      var chunks := SplitText(d.text, ChunkSize, ChunkOverlap);
      ghost var before := allMetadata;
      for c := 0 to |chunks|
        invariant allChunks == AllChunks(docs[..n]) + chunks[..c]
        invariant allMetadata == before + seq(c, _ => d.metadata)
      {
        assert chunks[..c + 1] == chunks[..c] + [chunks[c]];
        assert seq(c + 1, _ => d.metadata) == seq(c, _ => d.metadata) + [d.metadata];
        allChunks := allChunks + [chunks[c]];
        allMetadata := allMetadata + [d.metadata];
      }
      assert chunks[..|chunks|] == chunks;
      ExtendArrays(docs, n);
    }
    assert docs[..|docs|] == docs;
  }

  /** One more document appends its chunks and as many copies of its metadata. */
  lemma ExtendArrays(docs: seq<Document>, n: nat)
    requires n < |docs|
    ensures AllChunks(docs[..n + 1]) == AllChunks(docs[..n]) + DocChunks(docs[n])
    ensures AllMetadata(docs[..n + 1]) == AllMetadata(docs[..n]) + seq(|DocChunks(docs[n])|, _ => docs[n].metadata)
  {
    assert docs[..n + 1][..n] == docs[..n];
    assert docs[..n + 1][n] == docs[n];
  }

  // ---------------------------------------------------------------------------
  // Alignment of the parallel arrays.

  /** The document and chunk that position `j` of the arrays came from. */
  function Locate(docs: seq<Document>, j: nat): (p: (nat, nat))
    requires j < |AllChunks(docs)|
    ensures p.0 < |docs| && p.1 < |DocChunks(docs[p.0])|
    ensures AllChunks(docs)[j] == DocChunks(docs[p.0])[p.1]
    ensures AllMetadata(docs)[j] == docs[p.0].metadata
  {
    var init := docs[..|docs| - 1];
    var n := |AllChunks(init)|;
    if j < n then
      var p := Locate(init, j);
      assert docs[p.0] == init[p.0];
      p
    else
      (|docs| - 1, j - n)
  }

  /** Positions follow document order, and chunk order within a document. */
  lemma {:induction false} LocateOrdered(docs: seq<Document>, j: nat, j': nat)
    requires j < j' < |AllChunks(docs)|
    ensures var (d, c) := Locate(docs, j); var (d', c') := Locate(docs, j');
      d < d' || (d == d' && c < c')
  {
    var init := docs[..|docs| - 1];
    var n := |AllChunks(init)|;
    if j' < n {
      LocateOrdered(init, j, j');
    } else if j < n {
      var p := Locate(init, j);
      assert p.0 < |init|;
    }
  }

  /** Every chunk of every document has a position, so nothing is dropped. */
  lemma {:induction false} EveryChunkPlaced(docs: seq<Document>, d: nat, c: nat)
    requires d < |docs| && c < |DocChunks(docs[d])|
    ensures exists j :: 0 <= j < |AllChunks(docs)| && Locate(docs, j) == (d, c)
  {
    var init := docs[..|docs| - 1];
    var n := |AllChunks(init)|;
    if d < |docs| - 1 {
      assert docs[d] == init[d];
      EveryChunkPlaced(init, d, c);
      var j :| 0 <= j < |AllChunks(init)| && Locate(init, j) == (d, c);
      assert Locate(docs, j) == (d, c);
    } else {
      assert Locate(docs, n + c) == (d, c);
    }
  }

  /** The corpus has no chunks exactly when every document's text is empty. */
  lemma {:induction false} NoChunksIffEmptyTexts(docs: seq<Document>)
    ensures AllChunks(docs) == [] <==> forall k :: 0 <= k < |docs| ==> docs[k].text == []
  {
    if docs != [] {
      var init := docs[..|docs| - 1];
      NoChunksIffEmptyTexts(init);
      ChunkCount(docs[|docs| - 1].text, ChunkSize, ChunkOverlap);
      assert forall k :: 0 <= k < |init| ==> init[k] == docs[k];
    }
  }

  // ---------------------------------------------------------------------------
  // Batched embedding.

  /** `embed_texts`, the external service: one vector per input. */
  type Embedder = seq<string> -> seq<Vector>

  ghost predicate OneVectorPerText(embed: Embedder) {
    forall b :: |embed(b)| == |b|
  }

  /** The batches `all_chunks[i:i+50]` for `i` in `range(0, len, 50)`. */
  function Batches(xs: seq<string>): seq<seq<string>> {
    Chunks(xs, BatchSize, 0)
  }

  /** The embedder's outputs for the batches, concatenated (`embeddings.extend`). */
  function EmbedBatches(embed: Embedder, batches: seq<seq<string>>): seq<Vector> {
    if batches == [] then [] else embed(batches[0]) + EmbedBatches(embed, batches[1..])
  }

  method EmbedAll(allChunks: seq<string>, embed: Embedder) returns (embeddings: seq<Vector>)
    ensures embeddings == EmbedBatches(embed, Batches(allChunks))
  {
    embeddings := [];
    var i := 0;
    while i < |allChunks|
      invariant embeddings + EmbedBatches(embed, ChunksFrom(allChunks, BatchSize, BatchSize, i))
             == EmbedBatches(embed, Batches(allChunks))
      decreases |allChunks| - i
    {
      var batch := allChunks[i..Min(i + BatchSize, |allChunks|)];
      embeddings := embeddings + embed(batch);
      i := i + BatchSize;
    }
  }

  /** Batches are non-empty, hold at most 50 chunks, and concatenate back to `all_chunks`. */
  lemma BatchesPartition(xs: seq<string>)
    ensures forall k :: 0 <= k < |Batches(xs)| ==> 0 < |Batches(xs)[k]| <= BatchSize
    ensures Flatten(Batches(xs)) == xs
  {
    ChunksBounded(xs, BatchSize, 0);
    PartitionFlattens(xs, BatchSize);
  }

  lemma {:induction false} EmbedBatchesLength(embed: Embedder, bs: seq<seq<string>>)
    requires OneVectorPerText(embed)
    ensures |EmbedBatches(embed, bs)| == |Flatten(bs)|
  {
    if bs != [] {
      EmbedBatchesLength(embed, bs[1..]);
    }
  }

  /** With one vector per input, there is one embedding per chunk. */
  lemma EmbeddingsAligned(allChunks: seq<string>, embed: Embedder)
    requires OneVectorPerText(embed)
    ensures |EmbedBatches(embed, Batches(allChunks))| == |allChunks|
  {
    EmbedBatchesLength(embed, Batches(allChunks));
    BatchesPartition(allChunks);
  }

  /** The vectors of an embedder that maps each text on its own. */
  function Pointwise(one: string -> Vector, xs: seq<string>): (r: seq<Vector>)
    ensures |r| == |xs| && forall k :: 0 <= k < |xs| ==> r[k] == one(xs[k])
  {
    seq(|xs|, k requires 0 <= k < |xs| => one(xs[k]))
  }

  lemma PointwiseConcat(one: string -> Vector, a: seq<string>, b: seq<string>)
    ensures Pointwise(one, a + b) == Pointwise(one, a) + Pointwise(one, b)
  {
    var l, r := Pointwise(one, a + b), Pointwise(one, a) + Pointwise(one, b);
    assert |l| == |r|;
    forall k | 0 <= k < |l|
      ensures l[k] == r[k]
    {
      if k < |a| {
        assert (a + b)[k] == a[k];
      } else {
        assert (a + b)[k] == b[k - |a|];
      }
    }
  }

  /** When the service embeds each text on its own, embedding `j` belongs to chunk `j`. */
  lemma {:induction false} PointwiseEmbedding(embed: Embedder, one: string -> Vector, bs: seq<seq<string>>)
    requires forall b :: embed(b) == Pointwise(one, b)
    ensures EmbedBatches(embed, bs) == Pointwise(one, Flatten(bs))
  {
    if bs != [] {
      PointwiseEmbedding(embed, one, bs[1..]);
      PointwiseConcat(one, bs[0], Flatten(bs[1..]));
    }
  }

  // ---------------------------------------------------------------------------
  // The whole build.

  /** What the build writes: the vectors for the flat index and the parallel arrays of metadata.json. */
  datatype IndexArtifacts = IndexArtifacts(dimension: nat, embeddings: seq<Vector>,
                                           chunks: seq<string>, metadata: seq<Metadata>)

  /** `embeddings[0]` on an empty list raises `IndexError`. */
  datatype BuildError = EmptyCorpus

  datatype BuildResult = Built(artifacts: IndexArtifacts) | Failed(error: BuildError)

  /** The main block, from the directory listing to the artifacts. */
  method BuildIndex(files: seq<(string, string)>, loads: JsonDecoder, embed: Embedder) returns (r: BuildResult)
    requires OneVectorPerText(embed)
    ensures var docs := LoadedDocuments(files, loads);
      r.Failed? <==> forall k :: 0 <= k < |docs| ==> docs[k].text == []
    ensures r.Built? ==> var docs := LoadedDocuments(files, loads); var a := r.artifacts;
      && a.chunks == AllChunks(docs) && a.metadata == AllMetadata(docs)
      && |a.embeddings| == |a.chunks| == |a.metadata| > 0
      && a.embeddings == EmbedBatches(embed, Batches(a.chunks))
      && a.dimension == |a.embeddings[0]|
  {
    var docs := LoadDocuments(files, loads);
    var allChunks, allMetadata := BuildChunkArrays(docs);
    var embeddings := EmbedAll(allChunks, embed);
    EmbeddingsAligned(allChunks, embed);
    NoChunksIffEmptyTexts(docs);
    if |embeddings| == 0 {
      return Failed(EmptyCorpus);
    }
    r := Built(IndexArtifacts(|embeddings[0]|, embeddings, allChunks, allMetadata));
  }
}
