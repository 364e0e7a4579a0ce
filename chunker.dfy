/** The fixed-window, overlapping text splitter of the indexer
    (`split_text` in build_embeddings.py). It is generic over the element
    type: the indexer applies it to strings, and the embedding batches of the
    build script are the same windows taken over the list of chunks. */
module Chunker {
  import opened Strings

  /** The indexer's configuration. */
  const ChunkSize: nat := 800
  const ChunkOverlap: int := 150

  /** The windows the loop emits once `start` has reached `start`: each is
      `s[start : start + size]` clipped to the end, and `start` advances by `step`. */
  function ChunksFrom<T>(s: seq<T>, size: nat, step: nat, start: nat): seq<seq<T>>
    requires step > 0
    decreases |s| - start
  {
    if start >= |s| then []
    else [s[start..Min(start + size, |s|)]] + ChunksFrom(s, size, step, start + step)
  }

  /** What `split_text(s, size, overlap)` returns when it terminates with a positive step. */
  function Chunks<T>(s: seq<T>, size: nat, overlap: int): seq<seq<T>>
    requires overlap < size
  {
    ChunksFrom(s, size, size - overlap, 0)
  }

  /** The value of `start` after `k` rounds of the loop. */
  function StartAfter(k: nat, size: nat, overlap: int): int {
    if k == 0 then 0 else StartAfter(k - 1, size, overlap) + (size - overlap)
  }

  method SplitText<T>(text: seq<T>, chunkSize: nat, overlap: int) returns (chunks: seq<seq<T>>)
    requires overlap < chunkSize || |text| == 0
    ensures |text| == 0 ==> chunks == []
    ensures overlap < chunkSize ==> chunks == Chunks(text, chunkSize, overlap)
  {
    chunks := [];
    var start: int := 0;
    if |text| == 0 {
      return;
    }
    ghost var step: nat := chunkSize - overlap;
    while start < |text|
      invariant 0 <= start
      invariant start == StartAfter(|chunks|, chunkSize, overlap)
      invariant chunks + ChunksFrom(text, chunkSize, step, start) == Chunks(text, chunkSize, overlap)
      decreases |text| - start
    {
      var end := start + chunkSize;
      ghost var rest := ChunksFrom(text, chunkSize, step, start + step);
      assert ChunksFrom(text, chunkSize, step, start) == [text[start..Min(end, |text|)]] + rest;
      assert chunks + ([text[start..Min(end, |text|)]] + rest) == (chunks + [text[start..Min(end, |text|)]]) + rest;
      chunks := chunks + [text[start..Min(end, |text|)]];
      start := start + (chunkSize - overlap);
    }
  }

  // ---------------------------------------------------------------------------
  // Why the loop needs overlap < chunk_size.

  /** With `overlap >= chunk_size`, `start` never becomes positive, so for a
      non-empty text the loop guard `start < len(text)` holds after every round. */
  lemma {:induction false} NeverTerminates(textLen: nat, size: nat, overlap: int, k: nat)
    requires textLen > 0 && overlap >= size
    ensures StartAfter(k, size, overlap) <= 0
    ensures StartAfter(k, size, overlap) < textLen
  {
    if k > 0 {
      NeverTerminates(textLen, size, overlap, k - 1);
    }
  }

  // ---------------------------------------------------------------------------
  // Shape of the result.

  /** Window `i` is `s[i*step : i*step + size]` clipped to the end of `s`. */
  lemma {:induction false} ChunksFromAt<T>(s: seq<T>, size: nat, step: nat, start: nat, i: nat)
    requires step > 0 && start + i * step < |s|
    ensures i < |ChunksFrom(s, size, step, start)|
    ensures ChunksFrom(s, size, step, start)[i] == s[start + i * step..Min(start + i * step + size, |s|)]
    decreases i
  {
    if i > 0 {
      MulSucc(i - 1, step);
      ChunksFromAt(s, size, step, start + step, i - 1);
      assert ChunksFrom(s, size, step, start)[i] == ChunksFrom(s, size, step, start + step)[i - 1];
    }
  }

  /** There is one window per position `i*step` below the length, and no more. */
  lemma {:induction false} ChunksFromCount<T>(s: seq<T>, size: nat, step: nat, start: nat)
    requires step > 0
    ensures start >= |s| ==> |ChunksFrom(s, size, step, start)| == 0
    ensures start < |s| ==> var n := |ChunksFrom(s, size, step, start)|;
      n > 0 && start + (n - 1) * step < |s| <= start + n * step
    decreases |s| - start
  {
    if start < |s| {
      ChunksFromCount(s, size, step, start + step);
      var n := |ChunksFrom(s, size, step, start)|;
      assert start + (n - 1) * step == start + step + (n - 2) * step;
    }
  }

  /** `split_text` gives ceil(len / (C - O)) chunks; an empty text gives none. */
  lemma ChunkCount<T>(text: seq<T>, size: nat, overlap: int)
    requires overlap < size
    ensures |Chunks(text, size, overlap)| == (|text| + (size - overlap) - 1) / (size - overlap)
    ensures |text| == 0 <==> Chunks(text, size, overlap) == []
  {
    var step := size - overlap;
    ChunksFromCount(text, size, step, 0);
    var n := |Chunks(text, size, overlap)|;
    if n > 0 {
      CeilDivUnique(|text|, step, n);
    }
  }

  /** Chunk `i` is `text[i*(C-O) : i*(C-O) + C]` clipped to the end, so chunks
      start at strictly increasing offsets, in text order. */
  lemma ChunkContents<T>(text: seq<T>, size: nat, overlap: int, i: nat)
    requires overlap < size && i < |Chunks(text, size, overlap)|
    ensures i * (size - overlap) < |text|
    ensures Chunks(text, size, overlap)[i] == text[i * (size - overlap)..Min(i * (size - overlap) + size, |text|)]
  {
    var step := size - overlap;
    var n := |Chunks(text, size, overlap)|;
    ChunksFromCount(text, size, step, 0);
    MulLe(i, n - 1, step);
    ChunksFromAt(text, size, step, 0, i);
  }

  lemma MulLe(a: nat, b: nat, c: nat)
    requires a <= b
    ensures a * c <= b * c
  {
    assert b * c == a * c + (b - a) * c;
  }

  lemma MulSucc(a: int, c: int)
    ensures (a + 1) * c == a * c + c
  {
  }

  lemma CeilDivUnique(len: nat, step: nat, n: nat)
    requires step > 0 && n > 0 && (n - 1) * step < len <= n * step
    ensures n == (len + step - 1) / step
  {
    var x := len + step - 1;
    MulSucc(n - 1, step);
    MulSucc(n, step);
    DivUnique(x, step, n);
  }

  lemma DivUnique(x: int, d: nat, q: int)
    requires d > 0 && q * d <= x < q * d + d
    ensures x / d == q
  {
    var q' := x / d;
    assert x == q' * d + x % d;
    MulMono(q' + 1, q, d);
    MulMono(q + 1, q', d);
    MulSucc(q', d);
    MulSucc(q, d);
  }

  lemma MulMono(a: int, b: int, c: nat)
    ensures a <= b ==> a * c <= b * c
  {
    assert b * c == a * c + (b - a) * c;
  }

  /** Every chunk is non-empty and at most `C` long. */
  lemma ChunksBounded<T>(text: seq<T>, size: nat, overlap: int)
    requires 0 < size && overlap < size
    ensures forall i :: 0 <= i < |Chunks(text, size, overlap)| ==> 0 < |Chunks(text, size, overlap)[i]| <= size
  {
    forall i | 0 <= i < |Chunks(text, size, overlap)|
      ensures 0 < |Chunks(text, size, overlap)[i]| <= size
    {
      ChunkBound(text, size, overlap, i);
    }
  }

  lemma ChunkBound<T>(text: seq<T>, size: nat, overlap: int, i: nat)
    requires 0 < size && overlap < size && i < |Chunks(text, size, overlap)|
    ensures 0 < |Chunks(text, size, overlap)[i]| <= size
  {
    ChunkContents(text, size, overlap, i);
    WindowBound(text, i * (size - overlap), size);
  }

  /** A window of positive width that starts inside the text is non-empty and no wider than asked. */
  lemma WindowBound<T>(text: seq<T>, a: nat, size: nat)
    requires 0 < size && a < |text|
    ensures 0 < |text[a..Min(a + size, |text|)]| <= size
  {
  }

  /** A text no longer than the step is a single chunk. */
  lemma OneChunk<T>(text: seq<T>, size: nat, overlap: int)
    requires 0 <= overlap < size && 0 < |text| <= size - overlap
    ensures Chunks(text, size, overlap) == [text]
  {
    assert text[0..Min(size, |text|)] == text;
    assert ChunksFrom(text, size, size - overlap, size - overlap) == [];
  }

  /** A text longer than the step but no longer than `C` (nor than twice the
      step, which holds whenever `2*O <= C`, as for 800 and 150) gives two
      chunks; the second is the suffix from `C - O`, which the first already covers. */
  lemma TwoChunks<T>(text: seq<T>, size: nat, overlap: int)
    requires 0 <= overlap < size && size - overlap < |text| <= size && |text| <= 2 * (size - overlap)
    ensures Chunks(text, size, overlap) == [text, text[size - overlap..]]
  {
    var step := size - overlap;
    assert text[0..Min(size, |text|)] == text;
    assert text[step..Min(step + size, |text|)] == text[step..];
    assert ChunksFrom(text, size, step, step + step) == [];
    assert ChunksFrom(text, size, step, step) == [text[step..]];
    assert ChunksFrom(text, size, step, 0) == [text] + [text[step..]];
  }

  // ---------------------------------------------------------------------------
  // Reconstruction.

  /** `s[n:]` in Python: empty when `n` is past the end. */
  function DropClipped<T>(s: seq<T>, n: nat): (r: seq<T>)
    ensures n <= |s| ==> r == s[n..]
    ensures n > |s| ==> r == []
  {
    if n <= |s| then s[n..] else []
  }

  /** The later chunks, each with its first `overlap` elements dropped, concatenated. */
  function Tails<T>(chunks: seq<seq<T>>, overlap: nat): seq<T> {
    if chunks == [] then [] else DropClipped(chunks[0], overlap) + Tails(chunks[1..], overlap)
  }

  /** The first chunk followed by every later chunk minus its overlap. */
  function Reassemble<T>(chunks: seq<seq<T>>, overlap: nat): seq<T> {
    if chunks == [] then [] else chunks[0] + Tails(chunks[1..], overlap)
  }

  lemma {:induction false} TailsFrom<T>(s: seq<T>, size: nat, overlap: nat, start: nat)
    requires overlap < size
    ensures Tails(ChunksFrom(s, size, size - overlap, start), overlap) == s[Min(start + overlap, |s|)..]
    decreases |s| - start
  {
    var step := size - overlap;
    if start < |s| {
      var cs := ChunksFrom(s, size, step, start);
      var rest := ChunksFrom(s, size, step, start + step);
      var e := Min(start + size, |s|);
      var w := s[start..e];
      TailsFrom(s, size, overlap, start + step);
      assert cs == [w] + rest;
      assert cs[0] == w && cs[1..] == rest;
      assert Min(start + step + overlap, |s|) == e;
      DropThenRest(s, start, e, overlap);
    }
  }

  /** A window minus its overlap, followed by the rest of the text, is the text after the overlap. */
  lemma DropThenRest<T>(s: seq<T>, start: nat, e: nat, overlap: nat)
    requires start <= e <= |s|
    requires start + overlap <= |s| ==> start + overlap <= e
    requires start + overlap > |s| ==> e == |s|
    ensures DropClipped(s[start..e], overlap) + s[e..] == s[Min(start + overlap, |s|)..]
  {
    if start + overlap <= |s| {
      assert s[start..e][overlap..] == s[start + overlap..e];
      assert s[start + overlap..e] + s[e..] == s[start + overlap..];
    }
  }

  /** The chunks, with the overlap removed from all but the first, give back the text. */
  lemma Reconstruction<T>(text: seq<T>, size: nat, overlap: nat)
    requires overlap < size
    ensures Reassemble(Chunks(text, size, overlap), overlap) == text
  {
    if |text| > 0 {
      var step := size - overlap;
      var m := Min(size, |text|);
      var rest := ChunksFrom(text, size, step, step);
      assert Chunks(text, size, overlap) == [text[0..m]] + rest;
      ReassembleCons(text[0..m], rest, overlap);
      TailsFrom(text, size, overlap, step);
      assert Min(step + overlap, |text|) == m;
      assert Tails(rest, overlap) == text[m..];
      assert text[0..m] + text[m..] == text;
    }
  }

  lemma ReassembleCons<T>(first: seq<T>, rest: seq<seq<T>>, overlap: nat)
    ensures Reassemble([first] + rest, overlap) == first + Tails(rest, overlap)
  {
    assert ([first] + rest)[1..] == rest;
  }

  /** A full-length chunk ends with the `overlap` elements the next chunk starts with. */
  lemma OverlapAgrees<T>(text: seq<T>, size: nat, overlap: nat, i: nat)
    requires overlap < size
    requires i + 1 < |Chunks(text, size, overlap)| && |Chunks(text, size, overlap)[i]| == size
    ensures |Chunks(text, size, overlap)[i + 1]| >= overlap
    ensures Chunks(text, size, overlap)[i][size - overlap..] == Chunks(text, size, overlap)[i + 1][..overlap]
  {
    OverlapFrom(text, size, overlap, 0, i);
  }

  lemma {:induction false} OverlapFrom<T>(s: seq<T>, size: nat, overlap: nat, start: nat, i: nat)
    requires overlap < size
    requires i + 1 < |ChunksFrom(s, size, size - overlap, start)|
    requires |ChunksFrom(s, size, size - overlap, start)[i]| == size
    ensures |ChunksFrom(s, size, size - overlap, start)[i + 1]| >= overlap
    ensures ChunksFrom(s, size, size - overlap, start)[i][size - overlap..]
         == ChunksFrom(s, size, size - overlap, start)[i + 1][..overlap]
    decreases i
  {
    var step := size - overlap;
    var cs := ChunksFrom(s, size, step, start);
    var rest := ChunksFrom(s, size, step, start + step);
    assert cs[1..] == rest;
    if i == 0 {
      WindowsOverlap(s, start, size, overlap, cs[0], rest[0]);
    } else {
      OverlapFrom(s, size, overlap, start + step, i - 1);
    }
  }

  lemma WindowsOverlap<T>(text: seq<T>, a: nat, size: nat, overlap: nat, c: seq<T>, d: seq<T>)
    requires overlap < size && a + size <= |text|
    requires c == text[a..Min(a + size, |text|)]
    requires a + size - overlap < |text| && d == text[a + size - overlap..Min(a + size - overlap + size, |text|)]
    ensures |d| >= overlap && c[size - overlap..] == d[..overlap]
  {
    assert c == text[a..a + size];
    assert c[size - overlap..] == text[a + size - overlap..a + size];
  }

  /** Concatenation, which is what reassembly is when there is no overlap. */
  function Flatten<T>(xs: seq<seq<T>>): seq<T> {
    if xs == [] then [] else xs[0] + Flatten(xs[1..])
  }

  lemma {:induction false} TailsNoOverlap<T>(xs: seq<seq<T>>)
    ensures Tails(xs, 0) == Flatten(xs)
  {
    if xs != [] {
      TailsNoOverlap(xs[1..]);
    }
  }

  /** Windows with no overlap partition the sequence. */
  lemma PartitionFlattens<T>(xs: seq<T>, size: nat)
    requires size > 0
    ensures Flatten(Chunks(xs, size, 0)) == xs
  {
    var cs := Chunks(xs, size, 0);
    Reconstruction(xs, size, 0);
    if cs != [] {
      TailsNoOverlap(cs[1..]);
    }
  }
}
