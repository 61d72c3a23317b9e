/** The full-book loop of `process_full_book_for_all_displayed_files` and
    `process_full_book_context`: the chapter indices `0 .. total-1` are sent to the
    assistant three at a time. */
module Chunks {
  import opened Seqs

  const CHUNK_SIZE: nat := 3

  /** The index groups the full-book loop visits, in order. `num_chunks` is
      `(total + chunk_size - 1) // chunk_size`; Python's `//` floors, which for the
      positive divisor is Dafny's `/`, so a total of zero or less gives no groups. */
  method FullBookChunks(total: int) returns (chunks: seq<seq<int>>)
    ensures total <= 0 ==> chunks == []
    ensures total > 0 ==> |chunks| == (total + CHUNK_SIZE - 1) / CHUNK_SIZE
    ensures total > 0 ==> CHUNK_SIZE * (|chunks| - 1) < total <= CHUNK_SIZE * |chunks|
    ensures forall k :: 0 <= k < |chunks| ==> 1 <= |chunks[k]| <= CHUNK_SIZE
    ensures forall k :: 0 <= k < |chunks| ==>
      chunks[k] == Range(k * CHUNK_SIZE, Min((k + 1) * CHUNK_SIZE, total))
    ensures Flatten(chunks) == Range(0, total)
  {
    var numChunks := (total + CHUNK_SIZE - 1) / CHUNK_SIZE;
    chunks := [];
    var i := 0;
    while i < numChunks
      invariant 0 <= i && (numChunks >= 0 ==> i <= numChunks)
      invariant forall k :: 0 <= k < |chunks| ==>
        chunks[k] == Range(k * CHUNK_SIZE, Min((k + 1) * CHUNK_SIZE, total))
      invariant forall k :: 0 <= k < |chunks| ==> 1 <= |chunks[k]| <= CHUNK_SIZE
      invariant |chunks| == i
      invariant Flatten(chunks) == Range(0, Min(i * CHUNK_SIZE, total))
    {
      ChunkStartsBelowTotal(i, total);
      var startIdx := i * CHUNK_SIZE;
      var endIdx := Min((i + 1) * CHUNK_SIZE, total);
      var current := Range(startIdx, endIdx);
      if current == [] {
        i := i + 1;
        continue;
      }
      FlattenSnoc(chunks, current);
      RangeAppend(0, startIdx, endIdx);
      chunks := chunks + [current];
      i := i + 1;
    }
    if total > 0 {
      ChunkCountCovers(total);
    }
  }

  /** Every group the loop visits starts below the total. */
  lemma ChunkStartsBelowTotal(i: int, total: int)
    requires 0 <= i < (total + CHUNK_SIZE - 1) / CHUNK_SIZE
    ensures i * CHUNK_SIZE < total
  {
  }

  /** The groups are just enough to hold the total. */
  lemma ChunkCountCovers(total: int)
    requires total > 0
    ensures var n := (total + CHUNK_SIZE - 1) / CHUNK_SIZE;
      n >= 1 && CHUNK_SIZE * (n - 1) < total <= CHUNK_SIZE * n
  {
  }
}
