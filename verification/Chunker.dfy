/** The overlapping character chunker (workers/jobs/literature_ingestion_job.py). */
module Chunker {
  import opened Basics

  function Min(a: int, b: int): int { if a <= b then a else b }

  /** Python's `text[start:start + size]` for a start within the text. */
  function Slice(text: string, start: nat, size: nat): string
    requires start <= |text|
  {
    text[start..Min(start + size, |text|)]
  }

  function CeilDiv(a: nat, b: nat): nat
    requires b >= 1
  {
    (a + b - 1) / b
  }

  lemma CeilDivIs(a: nat, b: nat, q: nat)
    requires b >= 1 && a <= Start(q, b) && (q == 0 || Start(q - 1, b) < a)
    ensures CeilDiv(a, b) == q
  {
    var x := a + b - 1;
    assert q * b <= x < q * b + b by {
      if q > 0 { StartNext(q - 1, b); }
    }
    var d := x / b;
    assert x == d * b + x % b;
    assert (d - q) * b == d * b - q * b;
    StepBound(d - q, b);
    StepBound(q - d, b);
  }

  /** Where chunk `i` starts. */
  function Start(i: nat, step: nat): nat { i * step }

  lemma StartNext(i: nat, step: nat)
    ensures Start(i + 1, step) == Start(i, step) + step
    ensures Start(0, step) == 0
  {
  }

  /** The chunks are the slices that start at the multiples of `step` within the text. */
  ghost predicate Tiles(text: string, size: nat, step: nat, chunks: seq<string>) {
    forall i :: 0 <= i < |chunks| ==>
      Start(i, step) < |text| && chunks[i] == Slice(text, Start(i, step), size)
  }

  /** The chunks of a text, for every size and overlap. */
  ghost predicate IsChunking(text: string, size: int, overlap: int, chunks: seq<string>) {
    if size <= 0 then chunks == [text]
    else if overlap < size then |chunks| == CeilDiv(|text|, size - overlap) && Tiles(text, size, size - overlap, chunks)
    else chunks == if text == "" then [] else [Slice(text, 0, size)]
  }

  method ChunkText(text: string, size: int, overlap: int) returns (chunks: seq<string>)
    ensures IsChunking(text, size, overlap, chunks)
  {
    if size <= 0 {
      return [text];
    }
    chunks := [];
    var start := 0;
    if overlap < size { StartNext(0, size - overlap); }
    while start < |text|
      invariant overlap < size ==> start == Start(|chunks|, size - overlap) && Tiles(text, size, size - overlap, chunks)
      invariant overlap < size ==> |chunks| == 0 || Start(|chunks| - 1, size - overlap) < |text|
      invariant overlap >= size ==> start == 0 && chunks == []
      decreases |text| - start
    {
      chunks := chunks + [Slice(text, start, size)];
      start := start + (size - overlap);
      if overlap < size { StartNext(|chunks| - 1, size - overlap); }
      if start >= |text| || size <= overlap { break; }
    }
    if overlap < size {
      CeilDivIs(|text|, size - overlap, |chunks|);
    }
  }

  // ---------------------------------------------------------------- rebuilding the text

  /** Drop the first `overlap` characters of a chunk, or all of it when it is shorter. */
  function Fresh(chunk: string, overlap: nat): string {
    if |chunk| <= overlap then "" else chunk[overlap..]
  }

  function Rebuild(chunks: seq<string>, overlap: nat): string {
    if chunks == [] then ""
    else if |chunks| == 1 then chunks[0]
    else Rebuild(chunks[..|chunks| - 1], overlap) + Fresh(chunks[|chunks| - 1], overlap)
  }

  /** What is fresh in the slice at `start` continues the text where the previous slice ended. */
  lemma FreshContinues(text: string, start: nat, size: nat, overlap: nat)
    requires overlap < size && start < |text|
    ensures text[..Min(start + overlap, |text|)] + Fresh(Slice(text, start, size), overlap)
         == text[..Min(start + size, |text|)]
  {
  }

  /** The first chunks rebuild the text up to the end of the last of them. */
  lemma {:induction false} RebuildPrefix(text: string, size: nat, overlap: nat, chunks: seq<string>)
    requires overlap < size && chunks != [] && Tiles(text, size, size - overlap, chunks)
    ensures Start(|chunks| - 1, size - overlap) < |text|
    ensures Rebuild(chunks, overlap) == text[..Min(Start(|chunks| - 1, size - overlap) + size, |text|)]
    decreases |chunks|
  {
    var step, k := size - overlap, |chunks| - 1;
    assert chunks[k] == Slice(text, Start(k, step), size);
    StartNext(0, step);
    if k > 0 {
      TilesPrefix(text, size, step, chunks, k);
      RebuildPrefix(text, size, overlap, chunks[..k]);
      StartNext(k - 1, step);
      RebuildOneMore(text, size, overlap, chunks, Start(k - 1, step), Start(k, step));
    }
  }

  lemma TilesPrefix(text: string, size: nat, step: nat, chunks: seq<string>, k: nat)
    requires Tiles(text, size, step, chunks) && k <= |chunks|
    ensures Tiles(text, size, step, chunks[..k])
  {
  }

  lemma {:induction false} RebuildOneMore(text: string, size: nat, overlap: nat, chunks: seq<string>, before: nat, start: nat)
    requires overlap < size && |chunks| > 1 && start + overlap == before + size && start < |text|
    requires Rebuild(chunks[..|chunks| - 1], overlap) == text[..Min(before + size, |text|)]
    requires chunks[|chunks| - 1] == Slice(text, start, size)
    ensures Rebuild(chunks, overlap) == text[..Min(start + size, |text|)]
  {
    FreshContinues(text, start, size, overlap);
  }

  /**
   With 0 <= overlap < size, keeping the first chunk whole and dropping the overlap from every later
   one rebuilds the text exactly.
   */
  lemma {:induction false} RebuildsTheText(text: string, size: nat, overlap: nat, chunks: seq<string>)
    requires overlap < size && Tiles(text, size, size - overlap, chunks)
    requires |chunks| == CeilDiv(|text|, size - overlap)
    ensures Rebuild(chunks, overlap) == text
  {
    CeilDivCovers(|text|, size - overlap);
    StartNext(0, size - overlap);
    if chunks != [] {
      RebuildPrefix(text, size, overlap, chunks);
      StartNext(|chunks| - 1, size - overlap);
    }
  }

  lemma CeilDivCovers(a: nat, b: nat)
    requires b >= 1
    ensures a <= Start(CeilDiv(a, b), b)
  {
    var x := a + b - 1;
    assert x == x / b * b + x % b;
  }

  // ---------------------------------------------------------------- what is lost otherwise

  /** Where chunk `i` begins in the text. */
  function Offset(size: int, overlap: int, i: nat): nat {
    if size <= 0 || overlap >= size then 0 else Start(i, size - overlap)
  }

  /** Position `p` of the text lies in chunk `i`. */
  predicate Holds(size: int, overlap: int, chunks: seq<string>, i: int, p: nat) {
    0 <= i < |chunks| && Offset(size, overlap, i) <= p < Offset(size, overlap, i) + |chunks[i]|
  }

  ghost predicate Covered(size: int, overlap: int, chunks: seq<string>, p: nat) {
    exists i :: Holds(size, overlap, chunks, i, p)
  }

  /** The caller's condition: no chunking, a text that fits in one chunk, or a proper overlap. */
  predicate Lossless(text: string, size: int, overlap: int) {
    size <= 0 || |text| <= size || 0 <= overlap < size
  }

  lemma CoveredWhenLossless(text: string, size: int, overlap: int, chunks: seq<string>, p: nat)
    requires IsChunking(text, size, overlap, chunks) && Lossless(text, size, overlap) && p < |text|
    ensures Covered(size, overlap, chunks, p)
  {
    if size <= 0 || overlap >= size {
      assert Holds(size, overlap, chunks, 0, p);
    } else {
      var i := PlaceOf(|text|, size, size - overlap, p);
      TileHolds(text, size, size - overlap, chunks, i, p);
      assert Holds(size, overlap, chunks, i, p);
    }
  }

  lemma TileHolds(text: string, size: nat, step: nat, chunks: seq<string>, i: nat, p: nat)
    requires Tiles(text, size, step, chunks) && i < |chunks| && p < |text| && Start(i, step) <= p < Start(i, step) + size
    ensures p < Start(i, step) + |chunks[i]|
  {
    assert chunks[i] == Slice(text, Start(i, step), size);
  }

  /** The chunk in which a position falls: the last one that starts at or before it, or the first. */
  lemma PlaceOf(length: nat, size: nat, step: nat, p: nat) returns (i: nat)
    requires step >= 1 && p < length && (step <= size || length <= size)
    ensures Start(i, step) <= p < Start(i, step) + size && i < CeilDiv(length, step)
  {
    i := if step <= size then p / step else 0;
    CeilDivCovers(length, step);
    StartNext(0, step);
    if step <= size {
      assert p == Start(i, step) + p % step;
    }
    CancelLess(i, CeilDiv(length, step), step);
  }

  /** Otherwise the character behind the first chunk is in no chunk. */
  lemma FirstGapIsLost(text: string, size: int, overlap: int, chunks: seq<string>)
    requires IsChunking(text, size, overlap, chunks) && !Lossless(text, size, overlap)
    ensures size < |text| && !Covered(size, overlap, chunks, size)
  {
    if overlap < size {
      var step := size - overlap;
      StartNext(0, step);
      forall i | 0 <= i < |chunks| ensures !Holds(size, overlap, chunks, i, size) {
        assert chunks[i] == Slice(text, Start(i, step), size);
        if i >= 1 { StartGrows(1, i, step); }
      }
    }
  }

  /**
   For every text, size and overlap: each character is in some returned chunk if and only if there is no
   chunking, or the text fits in one chunk, or the overlap is between zero and the size. A negative
   overlap leaves gaps; an overlap of at least the size ends the loop after one chunk.
   */
  lemma LosslessExactlyWhen(text: string, size: int, overlap: int, chunks: seq<string>)
    requires IsChunking(text, size, overlap, chunks)
    ensures (forall p :: 0 <= p < |text| ==> Covered(size, overlap, chunks, p)) <==> Lossless(text, size, overlap)
  {
    if Lossless(text, size, overlap) {
      forall p | 0 <= p < |text| ensures Covered(size, overlap, chunks, p) {
        CoveredWhenLossless(text, size, overlap, chunks, p);
      }
    } else {
      FirstGapIsLost(text, size, overlap, chunks);
    }
  }

  /** A chunk holds the characters of its place in the text. */
  lemma ChunkIsItsPlace(text: string, size: int, overlap: int, chunks: seq<string>, i: int, p: nat)
    requires IsChunking(text, size, overlap, chunks) && Holds(size, overlap, chunks, i, p)
    ensures p < |text| && chunks[i][p - Offset(size, overlap, i)] == text[p]
  {
  }

  /** The same condition on contents: the chunks tell the text from every other of its length. */
  lemma ChunksDetermineTextExactlyWhen(text: string, size: int, overlap: int, chunks: seq<string>)
    requires IsChunking(text, size, overlap, chunks)
    ensures (forall other :: |other| == |text| && IsChunking(other, size, overlap, chunks) ==> other == text)
       <==> Lossless(text, size, overlap)
  {
    if Lossless(text, size, overlap) {
      forall other | |other| == |text| && IsChunking(other, size, overlap, chunks) ensures other == text {
        forall p | 0 <= p < |text| ensures other[p] == text[p] {
          CoveredWhenLossless(text, size, overlap, chunks, p);
          var i :| Holds(size, overlap, chunks, i, p);
          ChunkIsItsPlace(text, size, overlap, chunks, i, p);
          ChunkIsItsPlace(other, size, overlap, chunks, i, p);
        }
      }
    } else {
      FirstGapIsLost(text, size, overlap, chunks);
      var c := if text[size] == 'x' then 'y' else 'x';
      var other := text[size := c];
      LostCharacterChangesNothing(text, size, overlap, chunks, c);
      assert |other| == |text| && other != text;
    }
  }

  lemma LostCharacterChangesNothing(text: string, size: int, overlap: int, chunks: seq<string>, c: char)
    requires IsChunking(text, size, overlap, chunks) && !Lossless(text, size, overlap)
    ensures IsChunking(text[size := c], size, overlap, chunks)
  {
    var other := text[size := c];
    if overlap < size {
      var step := size - overlap;
      StartNext(0, step);
      forall i | 0 <= i < |chunks| ensures Start(i, step) < |other| && chunks[i] == Slice(other, Start(i, step), size) {
        assert chunks[i] == Slice(text, Start(i, step), size);
        if i >= 1 { StartGrows(1, i, step); }
        assert Slice(other, Start(i, step), size) == Slice(text, Start(i, step), size);
      }
    } else {
      assert Slice(other, 0, size) == Slice(text, 0, size);
    }
  }

  /** An overlap of at least the size: only the first chunk survives, however long the text. */
  lemma LargeOverlapKeepsOneChunk(text: string, size: int, overlap: int, chunks: seq<string>)
    requires IsChunking(text, size, overlap, chunks) && 0 < size <= overlap && size < |text|
    ensures chunks == [text[..size]] && IsChunking(text[..size], size, overlap, chunks)
  {
    assert text[..size][..size] == text[..size];
  }

  lemma StartGrows(i: nat, j: nat, step: nat)
    requires i <= j
    ensures Start(i, step) <= Start(j, step)
  {
    assert (j - i) * step >= 0;
  }

  lemma CancelLess(i: nat, j: nat, step: nat)
    requires Start(i, step) < Start(j, step)
    ensures i < j
  {
    if i >= j { StartGrows(j, i, step); }
  }
}
