/** How a file is cut into transfer chunks, and what the chunks of a whole manifest add up to. */
module ManifestChunks {
  import opened Prelude
  import opened Checksum

  type Bytes = seq<byte>

  datatype ManifestChunk = ManifestChunk(
    chunkIndex: nat,
    fileIndex: nat,
    fileOffset: nat,
    length: nat,
    checksum: bv32)

  datatype ManifestError =
    | ZeroChunkSize
    | ChunkSizeTooLarge
    | NotADirectory
    | FileIndexExceedsU32
    | ChunkIndexExceedsU32
    | TotalSizeOverflow
    | ChunkCountExceedsU32

  // ----- Spans of a file

  datatype Span = Span(offset: nat, length: nat)

  /** The spans that tile a file of `size` bytes from `offset` on. */
  function Spans(size: nat, offset: nat, chunkSize: nat): seq<Span>
    requires chunkSize > 0 && offset <= size
    decreases size - offset
  {
    if offset == size then []
    else
      var length := Min(chunkSize, size - offset);
      [Span(offset, length)] + Spans(size, offset + length, chunkSize)
  }

  function TotalLength(spans: seq<Span>): nat {
    if spans == [] then 0 else spans[0].length + TotalLength(spans[1..])
  }

  ghost predicate FullAndFollowed(spans: seq<Span>, i: nat, chunkSize: nat)
    requires i + 1 < |spans|
  {
    spans[i].length == chunkSize && spans[i + 1].offset == spans[i].offset + spans[i].length
  }

  /** Contiguous from `offset` to the end, every span full except possibly the last. */
  ghost predicate Tiling(spans: seq<Span>, offset: nat, size: nat, chunkSize: nat) {
    && (spans == [] <==> offset == size)
    && (spans != [] ==> spans[0].offset == offset)
    && (forall j | 0 <= j < |spans| :: 1 <= spans[j].length <= chunkSize && spans[j].offset + spans[j].length <= size)
    && (forall i | 0 <= i < |spans| - 1 :: FullAndFollowed(spans, i, chunkSize))
    && (spans != [] ==> spans[|spans| - 1].offset + spans[|spans| - 1].length == size)
  }

  lemma {:induction false} TilingCons(first: Span, rest: seq<Span>, size: nat, chunkSize: nat)
    requires 1 <= first.length && first.length == Min(chunkSize, size - first.offset)
    requires Tiling(rest, first.offset + first.length, size, chunkSize)
    ensures Tiling([first] + rest, first.offset, size, chunkSize)
  {
    var spans := [first] + rest;
    forall j | 0 <= j < |spans|
      ensures 1 <= spans[j].length <= chunkSize && spans[j].offset + spans[j].length <= size
    {
      if j > 0 { assert spans[j] == rest[j - 1]; }
    }
    if rest == [] {
      assert spans[|spans| - 1] == first && first.offset + first.length == size;
    } else {
      assert first.offset + first.length != size && first.length == chunkSize;
      assert spans[|spans| - 1] == rest[|rest| - 1];
    }
    forall i | 0 <= i < |spans| - 1 ensures FullAndFollowed(spans, i, chunkSize) {
      assert spans[i + 1] == rest[i];
      if i > 0 {
        assert spans[i] == rest[i - 1];
        assert FullAndFollowed(rest, i - 1, chunkSize);
      }
    }
  }

  lemma {:induction false} SpansTile(size: nat, offset: nat, chunkSize: nat)
    requires chunkSize > 0 && offset <= size
    ensures Tiling(Spans(size, offset, chunkSize), offset, size, chunkSize)
    decreases size - offset
  {
    if offset < size {
      var length := Min(chunkSize, size - offset);
      SpansTile(size, offset + length, chunkSize);
      TilingCons(Span(offset, length), Spans(size, offset + length, chunkSize), size, chunkSize);
    }
  }

  lemma {:induction false} SpansSum(size: nat, offset: nat, chunkSize: nat)
    requires chunkSize > 0 && offset <= size
    ensures TotalLength(Spans(size, offset, chunkSize)) == size - offset
    decreases size - offset
  {
    if offset < size {
      var length := Min(chunkSize, size - offset);
      SpansSum(size, offset + length, chunkSize);
      assert Spans(size, offset, chunkSize)[1..] == Spans(size, offset + length, chunkSize);
    }
  }

  lemma {:induction false} QuotientIsUnique(x: nat, d: nat, q: nat, r: nat)
    requires d > 0 && r < d && x == q * d + r
    ensures x / d == q
  {
    assert x == (x / d) * d + x % d;
    assert (x / d - q) * d == r - x % d;
    MultipleBound(x / d - q, d);
  }

  lemma {:induction false} MultipleBound(k: int, d: nat)
    requires d > 0
    ensures k >= 1 ==> k * d >= d
    ensures k <= -1 ==> k * d <= 0 - d
  {
  }

  lemma {:induction false} CeilStep(n: nat, d: nat)
    requires 0 < d < n
    ensures CeilDiv(n, d) == CeilDiv(n - d, d) + 1
  {
    var q, r := (n - 1) / d, (n - 1) % d;
    assert n - 1 == q * d + r;
    assert n + d - 1 == (q + 1) * d + r;
    QuotientIsUnique(n + d - 1, d, q + 1, r);
  }

  /** As many spans as the size divided by the chunk size, rounded up. */
  lemma {:induction false} SpansCount(size: nat, offset: nat, chunkSize: nat)
    requires chunkSize > 0 && offset <= size
    ensures |Spans(size, offset, chunkSize)| == CeilDiv(size - offset, chunkSize)
    decreases size - offset
  {
    var n := size - offset;
    if n == 0 {
      QuotientIsUnique(chunkSize - 1, chunkSize, 0, chunkSize - 1);
    } else if n <= chunkSize {
      QuotientIsUnique(n + chunkSize - 1, chunkSize, 1, n - 1);
      assert Spans(size, size, chunkSize) == [];
    } else {
      SpansCount(size, offset + chunkSize, chunkSize);
      CeilStep(n, chunkSize);
    }
  }

  /** The pieces of a file that spans select. */
  function Pieces(content: Bytes, spans: seq<Span>): seq<Bytes>
    requires Fit(spans, |content|)
  {
    seq(|spans|, j requires 0 <= j < |spans| => content[spans[j].offset..spans[j].offset + spans[j].length])
  }

  lemma {:induction false} ConcatFirst(pieces: seq<Bytes>)
    requires pieces != []
    ensures Concat(pieces) == pieces[0] + Concat(pieces[1..])
  {
    var n := |pieces| - 1;
    if n == 0 {
      assert pieces[..0] == [] && pieces[1..] == [];
      assert Concat(pieces) == [] + pieces[0];
    } else {
      ConcatFirst(pieces[..n]);
      var tail := pieces[1..];
      assert pieces[..n][1..] == tail[..n - 1] && tail[n - 1] == pieces[n];
      assert Concat(tail) == Concat(tail[..n - 1]) + pieces[n];
      assert Concat(pieces) == (pieces[0] + Concat(tail[..n - 1])) + pieces[n];
    }
  }

  ghost predicate Fit(spans: seq<Span>, size: nat) {
    forall j | 0 <= j < |spans| :: spans[j].offset + spans[j].length <= size
  }

  lemma {:induction false} PiecesCons(content: Bytes, first: Span, rest: seq<Span>)
    requires first.offset + first.length <= |content| && Fit(rest, |content|)
    ensures Fit([first] + rest, |content|)
    ensures Concat(Pieces(content, [first] + rest))
            == content[first.offset..first.offset + first.length] + Concat(Pieces(content, rest))
  {
    var all := [first] + rest;
    forall j | 0 <= j < |all| ensures all[j].offset + all[j].length <= |content| {
      if j > 0 { assert all[j] == rest[j - 1]; }
    }
    var pieces := Pieces(content, all);
    ConcatFirst(pieces);
    assert pieces[1..] == Pieces(content, rest);
  }

  lemma {:induction false} SplitAt(content: Bytes, i: nat, j: nat)
    requires i <= j <= |content|
    ensures content[i..] == content[i..j] + content[j..]
  {
  }

  /** Put back together, the pieces are the file. */
  lemma {:induction false} SpansReassemble(content: Bytes, offset: nat, chunkSize: nat)
    requires chunkSize > 0 && offset <= |content|
    ensures Fit(Spans(|content|, offset, chunkSize), |content|)
    ensures Concat(Pieces(content, Spans(|content|, offset, chunkSize))) == content[offset..]
    decreases |content| - offset
  {
    var size := |content|;
    if offset == size {
      assert Pieces(content, []) == [];
    } else {
      var length := Min(chunkSize, size - offset);
      SpansReassemble(content, offset + length, chunkSize);
      PiecesCons(content, Span(offset, length), Spans(size, offset + length, chunkSize));
      SplitAt(content, offset, offset + length);
    }
  }

  // ----- Chunks of a file

  function ChunkOf(crc: Bytes -> bv32, content: Bytes, span: Span, fileIndex: nat, chunkIndex: nat): ManifestChunk
    requires span.offset + span.length <= |content|
  {
    ManifestChunk(chunkIndex, fileIndex, span.offset, span.length, crc(content[span.offset..span.offset + span.length]))
  }

  function ChunksFor(crc: Bytes -> bv32, content: Bytes, spans: seq<Span>, fileIndex: nat, firstIndex: nat): seq<ManifestChunk>
    requires Fit(spans, |content|)
  {
    seq(|spans|, j requires 0 <= j < |spans| => ChunkOf(crc, content, spans[j], fileIndex, firstIndex + j))
  }

  lemma {:induction false} SpansFit(size: nat, chunkSize: nat)
    requires chunkSize > 0
    ensures Fit(Spans(size, 0, chunkSize), size)
  {
    SpansTile(size, 0, chunkSize);
  }

  function FileChunks(content: Bytes, fileIndex: nat, firstIndex: nat, chunkSize: nat): (chunks: seq<ManifestChunk>)
    requires chunkSize > 0
    ensures |chunks| == |Spans(|content|, 0, chunkSize)|
  {
    SpansFit(|content|, chunkSize);
    ChunksFor(Crc32c, content, Spans(|content|, 0, chunkSize), fileIndex, firstIndex)
  }

  /** Folding the checksum over the pieces of a file's chunks gives the checksum of the file. */
  lemma {:induction false} ChunkwiseChecksum(content: Bytes, chunkSize: nat)
    requires chunkSize > 0
    ensures Fit(Spans(|content|, 0, chunkSize), |content|)
    ensures AppendAll(0, Pieces(content, Spans(|content|, 0, chunkSize))) == Crc32c(content)
  {
    SpansReassemble(content, 0, chunkSize);
    PiecesDoNotMatter(Pieces(content, Spans(|content|, 0, chunkSize)));
    assert content[0..] == content;
  }

  lemma {:induction false} SpanLength(spans: seq<Span>, size: nat, chunkSize: nat, k: nat)
    requires Tiling(spans, 0, size, chunkSize) && k < |spans|
    ensures spans[k].offset < size && spans[k].length == Min(size - spans[k].offset, chunkSize)
    ensures k + 1 < |spans| ==> spans[k + 1].offset == spans[k].offset + spans[k].length < size
    ensures k + 1 == |spans| ==> spans[k].offset + spans[k].length == size
  {
    if k + 1 < |spans| {
      assert FullAndFollowed(spans, k, chunkSize);
    }
  }

  lemma {:induction false} NextChunk(crc: Bytes -> bv32, content: Bytes, spans: seq<Span>, fileIndex: nat, firstIndex: nat, k: nat)
    requires Fit(spans, |content|) && k < |spans|
    ensures var all := ChunksFor(crc, content, spans, fileIndex, firstIndex);
            all[..k + 1] == all[..k] + [ChunkOf(crc, content, spans[k], fileIndex, firstIndex + k)]
  {
  }

  /** The chunk loop, walking the spans of a non-empty file. */
  method ChunkLoop(crc: Bytes -> bv32, content: Bytes, ghost spans: seq<Span>, fileIndex: nat, firstChunkIndex: nat, chunkSize: nat)
    returns (result: Result<seq<ManifestChunk>, ManifestError>)
    requires chunkSize > 0 && Tiling(spans, 0, |content|, chunkSize) && Fit(spans, |content|)
    ensures firstChunkIndex + |spans| <= U32_MAX + 1 || spans == [] ==>
              result == Ok(ChunksFor(crc, content, spans, fileIndex, firstChunkIndex))
    ensures firstChunkIndex + |spans| > U32_MAX + 1 && spans != [] ==> result == Err(ChunkIndexExceedsU32)
  {
    ghost var all := ChunksFor(crc, content, spans, fileIndex, firstChunkIndex);
    var chunks := [];
    var offset := 0;
    while offset < |content|
      invariant 0 <= offset <= |content| && |chunks| <= |spans|
      invariant offset == if |chunks| < |spans| then spans[|chunks|].offset else |content|
      invariant offset < |content| <==> |chunks| < |spans|
      invariant chunks == all[..|chunks|]
      invariant chunks != [] ==> firstChunkIndex + |chunks| - 1 <= U32_MAX
    {
      SpanLength(spans, |content|, chunkSize, |chunks|);
      var remaining := |content| - offset;
      var chunkLen := Min(remaining, chunkSize);
      var buffer := content[offset..offset + chunkLen];
      var chunkIndex := firstChunkIndex + |chunks|;
      if chunkIndex > U32_MAX {
        return Err(ChunkIndexExceedsU32);
      }
      NextChunk(crc, content, spans, fileIndex, firstChunkIndex, |chunks|);
      chunks := chunks + [ManifestChunk(chunkIndex, fileIndex, offset, chunkLen, crc(buffer))];
      offset := offset + chunkLen;
    }
    assert all[..|all|] == all;
    return Ok(chunks);
  }

  /** One file's chunks; it fails exactly when a chunk index would not fit in 32 bits. */
  method ChunksForFile(content: Bytes, fileIndex: nat, firstChunkIndex: nat, chunkSize: nat)
    returns (result: Result<seq<ManifestChunk>, ManifestError>)
    requires chunkSize > 0
    ensures result == if content == [] || firstChunkIndex + |Spans(|content|, 0, chunkSize)| <= U32_MAX + 1
                      then Ok(FileChunks(content, fileIndex, firstChunkIndex, chunkSize))
                      else Err(ChunkIndexExceedsU32)
  {
    if |content| == 0 {
      return Ok([]);
    }
    SpansTile(|content|, 0, chunkSize);
    SpansFit(|content|, chunkSize);
    result := ChunkLoop(Crc32c, content, Spans(|content|, 0, chunkSize), fileIndex, firstChunkIndex, chunkSize);
  }

  // ----- Chunks of a whole manifest

  function AllChunks(contents: seq<Bytes>, chunkSize: nat): seq<ManifestChunk>
    requires chunkSize > 0
  {
    if contents == [] then []
    else
      var n := |contents| - 1;
      var before := AllChunks(contents[..n], chunkSize);
      before + FileChunks(contents[n], n, |before|, chunkSize)
  }

  function TotalBytes(contents: seq<Bytes>): nat {
    if contents == [] then 0 else TotalBytes(contents[..|contents| - 1]) + |contents[|contents| - 1]|
  }

  function SumOfLengths(chunks: seq<ManifestChunk>): nat {
    if chunks == [] then 0 else SumOfLengths(chunks[..|chunks| - 1]) + chunks[|chunks| - 1].length
  }

  /** Chunk indices count up from zero across files. */
  lemma {:induction false} ChunkIndicesAreDense(contents: seq<Bytes>, chunkSize: nat)
    requires chunkSize > 0
    ensures forall k | 0 <= k < |AllChunks(contents, chunkSize)| ::
              AllChunks(contents, chunkSize)[k].chunkIndex == k && AllChunks(contents, chunkSize)[k].fileIndex < |contents|
  {
    if contents != [] {
      ChunkIndicesAreDense(contents[..|contents| - 1], chunkSize);
    }
  }

  /** Where the chunks of file `i` begin. */
  function FileStart(contents: seq<Bytes>, i: nat, chunkSize: nat): nat
    requires chunkSize > 0 && i <= |contents|
  {
    |AllChunks(contents[..i], chunkSize)|
  }

  /** The chunks of each file stand together, in file order, and are that file's chunks. */
  lemma {:induction false} ChunksOfFile(contents: seq<Bytes>, i: nat, chunkSize: nat)
    requires chunkSize > 0 && i < |contents|
    ensures FileStart(contents, i, chunkSize) <= FileStart(contents, i + 1, chunkSize) <= |AllChunks(contents, chunkSize)|
    ensures AllChunks(contents, chunkSize)[FileStart(contents, i, chunkSize)..FileStart(contents, i + 1, chunkSize)]
            == FileChunks(contents[i], i, FileStart(contents, i, chunkSize), chunkSize)
  {
    var n := |contents| - 1;
    if i == n {
      assert contents[..i + 1] == contents;
    } else {
      ChunksOfFile(contents[..n], i, chunkSize);
      assert contents[..n][..i] == contents[..i] && contents[..n][..i + 1] == contents[..i + 1];
      var before, all := AllChunks(contents[..n], chunkSize), AllChunks(contents, chunkSize);
      assert all[..|before|] == before;
      var lo, hi := FileStart(contents, i, chunkSize), FileStart(contents, i + 1, chunkSize);
      assert all[lo..hi] == before[lo..hi];
    }
  }

  // ----- What the chunks of a file are, without reference to how they are computed

  ghost predicate Inside(chunks: seq<ManifestChunk>, size: nat) {
    forall j | 0 <= j < |chunks| :: chunks[j].fileOffset + chunks[j].length <= size
  }

  /** The bytes that the chunks name, one piece each. */
  ghost function ChunkPieces(content: Bytes, chunks: seq<ManifestChunk>): seq<Bytes>
    requires Inside(chunks, |content|)
  {
    seq(|chunks|, j requires 0 <= j < |chunks| => content[chunks[j].fileOffset..chunks[j].fileOffset + chunks[j].length])
  }

  /** Chunk `j` of a file: numbered on from `firstIndex`, beginning where the one before ended, full unless it is the last, which ends the file, with the checksum of its bytes. */
  ghost predicate ChunkInPlace(crc: Bytes -> bv32, content: Bytes, chunks: seq<ManifestChunk>, j: nat,
                               fileIndex: nat, firstIndex: nat, chunkSize: nat)
    requires j < |chunks| && Inside(chunks, |content|)
  {
    var c := chunks[j];
    && c.fileIndex == fileIndex && c.chunkIndex == firstIndex + j
    && c.fileOffset == (if j == 0 then 0 else chunks[j - 1].fileOffset + chunks[j - 1].length)
    && 1 <= c.length <= chunkSize
    && (if j + 1 < |chunks| then c.length == chunkSize else c.fileOffset + c.length == |content|)
    && c.checksum == crc(content[c.fileOffset..c.fileOffset + c.length])
  }

  ghost predicate TilesFile(crc: Bytes -> bv32, content: Bytes, chunks: seq<ManifestChunk>,
                            fileIndex: nat, firstIndex: nat, chunkSize: nat)
    requires chunkSize > 0
  {
    && Inside(chunks, |content|)
    && |chunks| == CeilDiv(|content|, chunkSize)
    && (forall j | 0 <= j < |chunks| :: ChunkInPlace(crc, content, chunks, j, fileIndex, firstIndex, chunkSize))
    && Concat(ChunkPieces(content, chunks)) == content
  }

  lemma {:induction false} SpanInPlace(crc: Bytes -> bv32, content: Bytes, spans: seq<Span>, j: nat,
                                       fileIndex: nat, firstIndex: nat, chunkSize: nat)
    requires Tiling(spans, 0, |content|, chunkSize) && Fit(spans, |content|) && j < |spans|
    ensures var chunks := ChunksFor(crc, content, spans, fileIndex, firstIndex);
            Inside(chunks, |content|) && ChunkInPlace(crc, content, chunks, j, fileIndex, firstIndex, chunkSize)
  {
    if j > 0 {
      assert FullAndFollowed(spans, j - 1, chunkSize);
    }
    if j + 1 < |spans| {
      assert FullAndFollowed(spans, j, chunkSize);
    }
  }

  lemma {:induction false} SamePieces(crc: Bytes -> bv32, content: Bytes, spans: seq<Span>, fileIndex: nat, firstIndex: nat)
    requires Fit(spans, |content|)
    ensures var chunks := ChunksFor(crc, content, spans, fileIndex, firstIndex);
            Inside(chunks, |content|) && ChunkPieces(content, chunks) == Pieces(content, spans)
  {
  }

  /** The computed chunks of a file tile it, number as many as its size calls for, and put together are the file. */
  lemma {:induction false} SpansTileFile(crc: Bytes -> bv32, content: Bytes, fileIndex: nat, firstIndex: nat, chunkSize: nat)
    requires chunkSize > 0
    ensures var spans := Spans(|content|, 0, chunkSize);
            Fit(spans, |content|)
            && TilesFile(crc, content, ChunksFor(crc, content, spans, fileIndex, firstIndex), fileIndex, firstIndex, chunkSize)
  {
    var spans := Spans(|content|, 0, chunkSize);
    SpansFit(|content|, chunkSize);
    SpansTile(|content|, 0, chunkSize);
    SpansCount(|content|, 0, chunkSize);
    SpansReassemble(content, 0, chunkSize);
    SamePieces(crc, content, spans, fileIndex, firstIndex);
    assert content[0..] == content;
    forall j | 0 <= j < |spans|
      ensures ChunkInPlace(crc, content, ChunksFor(crc, content, spans, fileIndex, firstIndex), j, fileIndex, firstIndex, chunkSize)
    {
      SpanInPlace(crc, content, spans, j, fileIndex, firstIndex, chunkSize);
    }
  }

  lemma {:induction false} SumConcat(a: seq<ManifestChunk>, b: seq<ManifestChunk>)
    ensures SumOfLengths(a + b) == SumOfLengths(a) + SumOfLengths(b)
    decreases |b|
  {
    if b == [] {
      assert a + b == a;
    } else {
      var n := |b| - 1;
      assert (a + b)[..|a + b| - 1] == a + b[..n];
      SumConcat(a, b[..n]);
    }
  }

  lemma {:induction false} SumOfSpans(crc: Bytes -> bv32, content: Bytes, spans: seq<Span>, fileIndex: nat, firstIndex: nat)
    requires Fit(spans, |content|)
    ensures SumOfLengths(ChunksFor(crc, content, spans, fileIndex, firstIndex)) == TotalLength(spans)
    decreases |spans|
  {
    if spans != [] {
      var chunks, rest := ChunksFor(crc, content, spans, fileIndex, firstIndex), ChunksFor(crc, content, spans[1..], fileIndex, firstIndex + 1);
      SumOfSpans(crc, content, spans[1..], fileIndex, firstIndex + 1);
      assert chunks == [chunks[0]] + rest;
      SumConcat([chunks[0]], rest);
      assert SumOfLengths([chunks[0]]) == SumOfLengths([]) + chunks[0].length by { assert [chunks[0]][..0] == []; }
    }
  }

  /** The chunk lengths of a manifest add up to the bytes of its files. */
  lemma {:induction false} ChunkLengthsSum(contents: seq<Bytes>, chunkSize: nat)
    requires chunkSize > 0
    ensures SumOfLengths(AllChunks(contents, chunkSize)) == TotalBytes(contents)
  {
    if contents != [] {
      var n := |contents| - 1;
      ChunkLengthsSum(contents[..n], chunkSize);
      var before := AllChunks(contents[..n], chunkSize);
      SumConcat(before, FileChunks(contents[n], n, |before|, chunkSize));
      SpansFit(|contents[n]|, chunkSize);
      SumOfSpans(Crc32c, contents[n], Spans(|contents[n]|, 0, chunkSize), n, |before|);
      SpansSum(|contents[n]|, 0, chunkSize);
    }
  }
}
