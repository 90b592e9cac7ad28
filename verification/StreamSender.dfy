/**
 The server's chunk producer, and the transfer theorem that joins it to the receiver:
 which listings reach the client, whatever the reads return and however files changed
 between being listed and being read.
 */
module StreamSender {
  import opened Prelude
  import opened EntryKeys
  import opened StreamProtocol
  import opened StreamReceiver

  /** A listed file: its size when listed, and its bytes when read. */
  datatype SourceFile = SourceFile(path: RawPath, listedSize: u64, content: Bytes)

  /** How many bytes a read returns: zero at the end of the file, else any positive amount that fits. */
  function ReadLength(wanted: nat, chunkSize: nat, remaining: nat): (n: nat)
    requires chunkSize > 0
    ensures n <= chunkSize && n <= remaining
    ensures n == 0 <==> remaining == 0
  {
    if remaining == 0 then 0 else Max(1, Min(wanted, Min(chunkSize, remaining)))
  }

  /** Every amount that fits can be read, and nothing else: the schedules are all the schedules of short reads. */
  lemma {:induction false} ReadLengths(chunkSize: nat, remaining: nat, n: nat)
    requires chunkSize > 0
    ensures (exists wanted: nat :: ReadLength(wanted, chunkSize, remaining) == n) <==>
            if remaining == 0 then n == 0 else 1 <= n <= chunkSize && n <= remaining
  {
    assert ReadLength(n, chunkSize, remaining) == n || !(if remaining == 0 then n == 0 else 1 <= n <= chunkSize && n <= remaining);
  }

  // ----- What is sent

  ghost predicate SentChunk(f: SourceFile, isLastFile: bool, chunkSize: nat, part: seq<Chunk>, i: nat)
    requires i < |part|
  {
    var c := part[i];
    && c.path == f.path
    && 0 < |c.data| <= chunkSize
    && c.offset == |Data(part[..i])|
    && c.totalSize == f.listedSize
    && (c.isLastChunk <==> c.offset + |c.data| >= f.listedSize)
    && (c.isLastFile <==> isLastFile && c.isLastChunk)
  }

  /** The chunks of one file: one empty chunk for an empty listing, else its bytes in order. */
  ghost predicate SentFile(f: SourceFile, isLastFile: bool, chunkSize: nat, part: seq<Chunk>) {
    if f.listedSize == 0 then
      |part| == 1 && part[0] == Chunk(f.path, [], 0, 0, true, isLastFile, part[0].commitHash)
    else
      && Data(part) == f.content
      && forall i | 0 <= i < |part| :: SentChunk(f, isLastFile, chunkSize, part, i)
  }

  /** The commit travels on the first chunk of the stream. */
  ghost predicate CommitOnFirst(parts: seq<seq<Chunk>>, commit: Option<string>, i: nat)
    requires i < |parts|
  {
    parts[i] != [] && Flatten(parts[..i]) == [] ==> parts[i][0].commitHash == commit
  }

  ghost predicate Sent(files: seq<SourceFile>, commit: Option<string>, chunkSize: nat, parts: seq<seq<Chunk>>) {
    && |parts| == |files|
    && (forall i | 0 <= i < |files| :: SentFile(files[i], i == |files| - 1, chunkSize, parts[i]))
    && (forall i | 0 <= i < |files| :: CommitOnFirst(parts, commit, i))
  }

  // ----- The producer

  lemma {:induction false} SentSnoc(f: SourceFile, isLastFile: bool, chunkSize: nat, part: seq<Chunk>, c: Chunk)
    requires forall i | 0 <= i < |part| :: SentChunk(f, isLastFile, chunkSize, part, i)
    requires c.path == f.path && 0 < |c.data| <= chunkSize && c.offset == |Data(part)| && c.totalSize == f.listedSize
    requires c.isLastChunk <==> c.offset + |c.data| >= f.listedSize
    requires c.isLastFile <==> isLastFile && c.isLastChunk
    ensures forall i | 0 <= i <= |part| :: SentChunk(f, isLastFile, chunkSize, part + [c], i)
  {
    var all := part + [c];
    assert all[..|part|] == part;
    forall i | 0 <= i < |part| ensures SentChunk(f, isLastFile, chunkSize, all, i) {
      assert all[..i] == part[..i];
      assert SentChunk(f, isLastFile, chunkSize, part, i);
    }
  }

  lemma {:induction false} ReadExtends(content: Bytes, offset: nat, n: nat)
    requires offset + n <= |content|
    ensures content[..offset] + content[offset..offset + n] == content[..offset + n]
  {
  }

  /** The chunks so far carry the first `offset` bytes of the file. */
  ghost predicate SentSoFar(f: SourceFile, isLastFile: bool, chunkSize: nat, part: seq<Chunk>, offset: nat) {
    && offset <= |f.content|
    && Data(part) == f.content[..offset]
    && forall i | 0 <= i < |part| :: SentChunk(f, isLastFile, chunkSize, part, i)
  }

  lemma {:induction false} SentOneMore(f: SourceFile, isLastFile: bool, chunkSize: nat, part: seq<Chunk>, offset: nat, n: nat, c: Chunk)
    requires SentSoFar(f, isLastFile, chunkSize, part, offset) && 0 < n <= chunkSize && offset + n <= |f.content|
    requires c.path == f.path && c.data == f.content[offset..offset + n] && c.offset == offset && c.totalSize == f.listedSize
    requires c.isLastChunk <==> offset + n >= f.listedSize
    requires c.isLastFile <==> isLastFile && c.isLastChunk
    ensures SentSoFar(f, isLastFile, chunkSize, part + [c], offset + n)
  {
    DataSnoc(part, c);
    ReadExtends(f.content, offset, n);
    SentSnoc(f, isLastFile, chunkSize, part, c);
  }

  lemma {:induction false} SentAll(f: SourceFile, isLastFile: bool, chunkSize: nat, part: seq<Chunk>)
    requires SentSoFar(f, isLastFile, chunkSize, part, |f.content|) && f.listedSize != 0
    ensures SentFile(f, isLastFile, chunkSize, part)
  {
  }

  method StreamFile(f: SourceFile, isLastFile: bool, chunkSize: nat, wanted: nat -> nat,
                    isFirstChunk: bool, commit: Option<string>)
    returns (part: seq<Chunk>)
    requires chunkSize > 0 && |f.content| <= U64_MAX
    ensures SentFile(f, isLastFile, chunkSize, part)
    ensures forall i | 0 <= i < |part| :: part[i].commitHash == if isFirstChunk && i == 0 then commit else None
  {
    part := [];
    var firstChunk := isFirstChunk;
    if f.listedSize == 0 {
      part := [Chunk(f.path, [], 0, 0, true, isLastFile, if firstChunk then commit else None)];
      return;
    }
    var offset := 0;
    while true
      invariant SentSoFar(f, isLastFile, chunkSize, part, offset)
      invariant firstChunk <==> isFirstChunk && part == []
      invariant forall i | 0 <= i < |part| :: part[i].commitHash == if isFirstChunk && i == 0 then commit else None
      decreases |f.content| - offset
    {
      var bytesRead := ReadLength(wanted(offset), chunkSize, |f.content| - offset);
      if bytesRead == 0 {
        break;
      }
      var isLastChunk := SaturatingAdd(offset, bytesRead) >= f.listedSize;
      var chunk := Chunk(f.path, f.content[offset..offset + bytesRead], offset, f.listedSize,
                         isLastChunk, isLastFile && isLastChunk, if firstChunk then commit else None);
      firstChunk := false;
      SentOneMore(f, isLastFile, chunkSize, part, offset, bytesRead, chunk);
      part := part + [chunk];
      offset := SaturatingAdd(offset, bytesRead);
    }
    SentAll(f, isLastFile, chunkSize, part);
  }

  lemma {:induction false} CommitStays(parts: seq<seq<Chunk>>, part: seq<Chunk>, commit: Option<string>)
    requires forall i | 0 <= i < |parts| :: CommitOnFirst(parts, commit, i)
    requires part != [] && Flatten(parts) == [] ==> part[0].commitHash == commit
    ensures forall i | 0 <= i <= |parts| :: CommitOnFirst(parts + [part], commit, i)
  {
    var all := parts + [part];
    assert all[..|parts|] == parts;
    forall i | 0 <= i < |parts| ensures CommitOnFirst(all, commit, i) {
      assert CommitOnFirst(parts, commit, i);
      assert all[..i] == parts[..i];
    }
  }

  /** What is sent for the first `|parts|` files. */
  ghost predicate SentFirst(files: seq<SourceFile>, commit: Option<string>, chunkSize: nat, parts: seq<seq<Chunk>>) {
    && |parts| <= |files|
    && (forall i | 0 <= i < |parts| :: SentFile(files[i], i == |files| - 1, chunkSize, parts[i]))
    && (forall i | 0 <= i < |parts| :: CommitOnFirst(parts, commit, i))
  }

  lemma {:induction false} SentOneFileMore(files: seq<SourceFile>, commit: Option<string>, chunkSize: nat,
                                           parts: seq<seq<Chunk>>, part: seq<Chunk>)
    requires SentFirst(files, commit, chunkSize, parts) && |parts| < |files|
    requires SentFile(files[|parts|], |parts| == |files| - 1, chunkSize, part)
    requires part != [] && Flatten(parts) == [] ==> part[0].commitHash == commit
    ensures SentFirst(files, commit, chunkSize, parts + [part])
    ensures Flatten(parts + [part]) == Flatten(parts) + part
  {
    CommitStays(parts, part, commit);
    assert (parts + [part])[..|parts|] == parts;
  }

  /** The producer task: every listed file in turn, each read to its end in whatever pieces come. */
  method StreamFiles(files: seq<SourceFile>, chunkSize: nat, wanted: (nat, nat) -> nat, commit: Option<string>)
    returns (chunks: seq<Chunk>)
    requires chunkSize > 0 && forall f | f in files :: |f.content| <= U64_MAX
    ensures exists parts :: Sent(files, commit, chunkSize, parts) && chunks == Flatten(parts)
  {
    chunks := [];
    ghost var parts: seq<seq<Chunk>> := [];
    var isFirstChunk := true;
    for fileIdx := 0 to |files|
      invariant |parts| == fileIdx && chunks == Flatten(parts)
      invariant isFirstChunk <==> chunks == []
      invariant SentFirst(files, commit, chunkSize, parts)
    {
      var isLastFile := fileIdx == |files| - 1;
      var part := StreamFile(files[fileIdx], isLastFile, chunkSize, offset => wanted(fileIdx, offset), isFirstChunk, commit);
      SentOneFileMore(files, commit, chunkSize, parts, part);
      parts := parts + [part];
      chunks := chunks + part;
      isFirstChunk := isFirstChunk && part == [];
    }
  }

  // ----- What reaches the client

  /** Listed with bytes but empty when read: no chunk at all is sent for the file. */
  predicate Vanished(f: SourceFile) {
    f.listedSize > 0 && f.content == []
  }

  /**
   The stream goes through for this file: it was listed as empty (and none of its bytes are
   sent), it still has its listed size, or it vanished and a later file ends the stream.
   */
  predicate Delivered(files: seq<SourceFile>, i: nat)
    requires i < |files|
  {
    || files[i].listedSize == 0
    || |files[i].content| == files[i].listedSize
    || (Vanished(files[i]) && i < |files| - 1)
  }

  function SentBytes(f: SourceFile): Bytes {
    if f.listedSize == 0 then [] else f.content
  }

  function DeliveredDisk(disk: Disk, files: seq<SourceFile>): Disk {
    if files == [] then disk
    else
      var f := files[|files| - 1];
      var rest := DeliveredDisk(disk, files[..|files| - 1]);
      if Vanished(f) then rest else rest[Resolve(f.path) := SentBytes(f)]
  }

  ghost predicate DistinctPaths(files: seq<SourceFile>) {
    forall i, j | 0 <= i < j < |files| :: Resolve(files[i].path) != Resolve(files[j].path)
  }

  ghost predicate Listing(files: seq<SourceFile>) {
    && DistinctPaths(files)
    && forall i | 0 <= i < |files| :: IsSafe(files[i].path) && |files[i].content| <= U64_MAX
  }

  /** The parts that are not empty. */
  ghost function Compact(parts: seq<seq<Chunk>>): seq<seq<Chunk>> {
    if parts == [] then []
    else
      var rest, last := Compact(parts[..|parts| - 1]), parts[|parts| - 1];
      if last == [] then rest else rest + [last]
  }

  lemma {:induction false} CompactNext(parts: seq<seq<Chunk>>, k: nat)
    requires k < |parts|
    ensures Compact(parts[..k + 1]) == if parts[k] == [] then Compact(parts[..k]) else Compact(parts[..k]) + [parts[k]]
  {
    assert parts[..k + 1][..k] == parts[..k];
  }

  lemma {:induction false} FlattenCompact(parts: seq<seq<Chunk>>)
    ensures Flatten(Compact(parts)) == Flatten(parts)
  {
    if parts != [] {
      var n := |parts| - 1;
      FlattenCompact(parts[..n]);
      if parts[n] != [] {
        assert (Compact(parts[..n]) + [parts[n]])[..|Compact(parts[..n])|] == Compact(parts[..n]);
      }
    }
  }

  /** Chunk `i` of a sent file continues it, whatever the listed size. */
  lemma {:induction false} SentChunkFits(f: SourceFile, isLastFile: bool, chunkSize: nat, part: seq<Chunk>, i: nat)
    requires IsSafe(f.path) && SentFile(f, isLastFile, chunkSize, part) && i < |part|
    ensures Fits(part, i)
    ensures part[i].File() == Resolve(f.path)
  {
    if f.listedSize > 0 {
      assert SentChunk(f, isLastFile, chunkSize, part, i) && SentChunk(f, isLastFile, chunkSize, part, 0);
    }
  }

  lemma {:induction false} DataPrefix(part: seq<Chunk>, i: nat)
    requires i <= |part|
    ensures Data(part[..i]) <= Data(part)
    decreases |part|
  {
    if i == |part| {
      assert part[..i] == part;
    } else {
      var n := |part| - 1;
      DataPrefix(part[..n], i);
      assert part[..n][..i] == part[..i];
    }
  }

  lemma {:induction false} DataStep(part: seq<Chunk>, i: nat)
    requires i < |part|
    ensures |Data(part[..i + 1])| == |Data(part[..i])| + |part[i].data| <= |Data(part)|
  {
    assert part[..i + 1] == part[..i] + [part[i]];
    DataSnoc(part[..i], part[i]);
    DataPrefix(part, i + 1);
  }

  /** A short prefix of a sent file is a file in progress. */
  lemma {:induction false} ShortPrefixIsOpen(f: SourceFile, isLastFile: bool, chunkSize: nat, part: seq<Chunk>, n: nat)
    requires IsSafe(f.path) && f.listedSize > 0 && SentFile(f, isLastFile, chunkSize, part)
    requires n <= |part| && |Data(part[..n])| < f.listedSize
    ensures ValidOpen(part[..n])
  {
    var s := part[..n];
    forall i | 0 <= i < n
      ensures Fits(s, i) && !s[i].isLastChunk && |Data(s[..i])| + |s[i].data| < s[i].totalSize
    {
      SentChunkFits(f, isLastFile, chunkSize, part, i);
      assert SentChunk(f, isLastFile, chunkSize, part, i);
      assert s[..i] == part[..i] && s[..i + 1] == part[..i + 1];
      DataStep(s, i);
    }
  }

  /** A file listed as empty, or still of its listed size, becomes a valid segment; it carries the file's bytes exactly if the size is unchanged. */
  lemma {:induction false} SentFileIsSegment(f: SourceFile, isLastFile: bool, chunkSize: nat, part: seq<Chunk>)
    requires IsSafe(f.path) && |f.content| <= U64_MAX && SentFile(f, isLastFile, chunkSize, part)
    requires f.listedSize == 0 || |f.content| == f.listedSize
    ensures ValidSegment(part) && Data(part) == SentBytes(f)
    ensures Data(part) == f.content <==> |f.content| == f.listedSize
    ensures EndsStream(part) <==> isLastFile
  {
    if f.listedSize == 0 {
      SentChunkFits(f, isLastFile, chunkSize, part, 0);
      assert part == [] + [part[0]];
      DataSnoc([], part[0]);
      SegmentSnoc([], part[0]);
    } else {
      var n := |part| - 1;
      DataStep(part, n);
      assert part[..n + 1] == part;
      assert SentChunk(f, isLastFile, chunkSize, part, n);
      SentChunkFits(f, isLastFile, chunkSize, part, n);
      ShortPrefixIsOpen(f, isLastFile, chunkSize, part, n);
    }
  }

  /** The files listed so far. */
  ghost function Listed(files: seq<SourceFile>): set<FilePath> {
    set i | 0 <= i < |files| :: Resolve(files[i].path)
  }

  lemma {:induction false} ListedSnoc(files: seq<SourceFile>, f: SourceFile)
    ensures Listed(files + [f]) == Listed(files) + {Resolve(f.path)}
  {
    var more := files + [f];
    forall p | p in Listed(files) + {Resolve(f.path)} ensures p in Listed(more) {
      if p in Listed(files) {
        var i :| 0 <= i < |files| && p == Resolve(files[i].path);
        assert more[i] == files[i];
      } else {
        assert more[|files|] == f;
      }
    }
  }

  /** What the receiver holds once the files `seen` were delivered as the segments `segs`. */
  ghost predicate InStep(huggingFace: bool, disk: Disk, segs: seq<seq<Chunk>>, seen: seq<SourceFile>, done: bool) {
    && (forall k | 0 <= k < |segs| :: segs[k] != [])
    && GoodSegments(huggingFace, segs)
    && (segs != [] ==> segs[|segs| - 1][0].File() in Listed(seen) && (EndsStream(segs[|segs| - 1]) <==> done))
    && (done ==> segs != [])
    && Install(disk, segs) == DeliveredDisk(disk, seen)
  }

  lemma {:induction false} GoodSegmentsJoin(huggingFace: bool, segs: seq<seq<Chunk>>, part: seq<Chunk>)
    requires GoodSegments(huggingFace, segs) && ValidSegment(part) && MayStart(huggingFace, segs, part[0])
    ensures GoodSegments(huggingFace, segs + [part])
  {
  }

  lemma {:induction false} InstallJoin(disk: Disk, segs: seq<seq<Chunk>>, part: seq<Chunk>)
    requires part != [] && forall k | 0 <= k < |segs| :: segs[k] != []
    ensures Install(disk, segs + [part]) == Install(disk, segs)[part[0].File() := Data(part)]
  {
  }

  /** What joining a sent file needs. */
  ghost predicate Joinable(segs: seq<seq<Chunk>>, seen: seq<SourceFile>, f: SourceFile, isLastFile: bool, part: seq<Chunk>,
                           commit: Option<string>) {
    && ValidSegment(part) && Data(part) == SentBytes(f) && (EndsStream(part) <==> isLastFile)
    && part[0].File() == Resolve(f.path) && Resolve(f.path) !in Listed(seen)
    && (segs == [] ==> part[0].commitHash == commit)
  }

  /** A delivered file that is sent joins the receiver's whole files. */
  lemma {:induction false} PartJoins(huggingFace: bool, disk: Disk, segs: seq<seq<Chunk>>, seen: seq<SourceFile>,
                  f: SourceFile, isLastFile: bool, part: seq<Chunk>, commit: Option<string>,
                  next: seq<seq<Chunk>>, more: seq<SourceFile>)
    requires next == segs + [part] && more == seen + [f]
    requires InStep(huggingFace, disk, segs, seen, false)
    requires !Vanished(f) && CanPrepare(huggingFace, commit) && Joinable(segs, seen, f, isLastFile, part, commit)
    ensures InStep(huggingFace, disk, next, more, isLastFile)
  {
    ListedSnoc(seen, f);
    GoodSegmentsJoin(huggingFace, segs, part);
    InstallJoin(disk, segs, part);
    assert (seen + [f])[..|seen|] == seen;
  }

  lemma {:induction false} PartSkipped(huggingFace: bool, disk: Disk, segs: seq<seq<Chunk>>, seen: seq<SourceFile>,
                                       f: SourceFile, more: seq<SourceFile>)
    requires InStep(huggingFace, disk, segs, seen, false) && Vanished(f) && more == seen + [f]
    ensures InStep(huggingFace, disk, segs, more, false)
  {
    ListedSnoc(seen, f);
    assert (seen + [f])[..|seen|] == seen;
  }

  lemma {:induction false} VanishedSendsNothing(f: SourceFile, isLastFile: bool, chunkSize: nat, part: seq<Chunk>)
    requires SentFile(f, isLastFile, chunkSize, part) && Vanished(f)
    ensures part == []
  {
    assert part != [] ==> SentChunk(f, isLastFile, chunkSize, part, |part| - 1);
  }

  lemma {:induction false} SentCommit(files: seq<SourceFile>, commit: Option<string>, chunkSize: nat, parts: seq<seq<Chunk>>, j: nat)
    requires Sent(files, commit, chunkSize, parts) && j < |files| && parts[j] != []
    ensures Compact(parts[..j]) == [] ==> parts[j][0].commitHash == commit
  {
    FlattenCompact(parts[..j]);
    assert CommitOnFirst(parts, commit, j);
  }

  lemma {:induction false} NotListedBefore(files: seq<SourceFile>, j: nat)
    requires DistinctPaths(files) && j < |files|
    ensures Resolve(files[j].path) !in Listed(files[..j])
  {
  }

  lemma {:induction false} SentIsJoinable(files: seq<SourceFile>, commit: Option<string>, chunkSize: nat, parts: seq<seq<Chunk>>, k: nat)
    requires Listing(files) && Sent(files, commit, chunkSize, parts)
    requires k < |files| && Delivered(files, k) && !Vanished(files[k])
    ensures Joinable(Compact(parts[..k]), files[..k], files[k], k == |files| - 1, parts[k], commit)
  {
    var f, part, isLast := files[k], parts[k], k == |files| - 1;
    SentFileIsSegment(f, isLast, chunkSize, part);
    SentChunkFits(f, isLast, chunkSize, part, 0);
    SentCommit(files, commit, chunkSize, parts, k);
    NotListedBefore(files, k);
  }

  /** The file `k` is skipped unseen, or what was sent of it joins the whole files before it. */
  ghost predicate StepOk(files: seq<SourceFile>, commit: Option<string>, parts: seq<seq<Chunk>>, k: nat)
    requires k < |files| == |parts|
  {
    if Vanished(files[k]) then parts[k] == [] && k + 1 < |files|
    else Joinable(Compact(parts[..k]), files[..k], files[k], k + 1 == |files|, parts[k], commit)
  }

  lemma {:induction false} DeliveredSteps(files: seq<SourceFile>, commit: Option<string>, chunkSize: nat, parts: seq<seq<Chunk>>, k: nat)
    requires Listing(files) && Sent(files, commit, chunkSize, parts) && k < |files| && Delivered(files, k)
    ensures StepOk(files, commit, parts, k)
  {
    if Vanished(files[k]) {
      VanishedSendsNothing(files[k], k == |files| - 1, chunkSize, parts[k]);
    } else {
      SentIsJoinable(files, commit, chunkSize, parts, k);
    }
  }

  lemma {:induction false} StepJoins(huggingFace: bool, disk: Disk, segs: seq<seq<Chunk>>, seen: seq<SourceFile>, f: SourceFile,
                                     isLastFile: bool, part: seq<Chunk>, commit: Option<string>,
                                     next: seq<seq<Chunk>>, more: seq<SourceFile>)
    requires InStep(huggingFace, disk, segs, seen, false) && CanPrepare(huggingFace, commit)
    requires if Vanished(f) then part == [] && !isLastFile else Joinable(segs, seen, f, isLastFile, part, commit)
    requires more == seen + [f] && next == if part == [] then segs else segs + [part]
    ensures InStep(huggingFace, disk, next, more, isLastFile)
  {
    if Vanished(f) {
      PartSkipped(huggingFace, disk, segs, seen, f, more);
    } else {
      PartJoins(huggingFace, disk, segs, seen, f, isLastFile, part, commit, next, more);
    }
  }

  lemma {:induction false} InStepStart(huggingFace: bool, disk: Disk)
    ensures InStep(huggingFace, disk, [], [], false)
  {
  }

  lemma {:induction false} StepsJoin(huggingFace: bool, disk: Disk, files: seq<SourceFile>, commit: Option<string>, parts: seq<seq<Chunk>>, j: nat)
    requires files != [] && |files| == |parts| && CanPrepare(huggingFace, commit)
    requires j <= |files| && forall k | 0 <= k < j :: StepOk(files, commit, parts, k)
    ensures InStep(huggingFace, disk, Compact(parts[..j]), files[..j], j == |files|)
  {
    hide InStep, Joinable, Vanished;
    if j == 0 {
      assert parts[..0] == [] && files[..0] == [];
      InStepStart(huggingFace, disk);
    } else {
      var k := j - 1;
      StepsJoin(huggingFace, disk, files, commit, parts, k);
      CompactNext(parts, k);
      assert StepOk(files, commit, parts, k);
      StepJoins(huggingFace, disk, Compact(parts[..k]), files[..k], files[k], j == |files|, parts[k], commit,
                Compact(parts[..j]), files[..j]);
    }
  }

  lemma {:induction false} DeliveredPrefix(huggingFace: bool, disk: Disk, files: seq<SourceFile>, commit: Option<string>,
                                           chunkSize: nat, parts: seq<seq<Chunk>>, j: nat)
    requires Listing(files) && files != [] && Sent(files, commit, chunkSize, parts) && CanPrepare(huggingFace, commit)
    requires j <= |files| && forall i | 0 <= i < j :: Delivered(files, i)
    ensures InStep(huggingFace, disk, Compact(parts[..j]), files[..j], j == |files|)
  {
    forall k | 0 <= k < j ensures StepOk(files, commit, parts, k) {
      DeliveredSteps(files, commit, chunkSize, parts, k);
    }
    StepsJoin(huggingFace, disk, files, commit, parts, j);
  }

  // ----- What is refused

  lemma {:induction false} AcceptedPrefixGood(huggingFace: bool, disk: Disk, a: seq<Chunk>, b: seq<Chunk>)
    requires Accepted(huggingFace, disk, a + b)
    ensures Good(huggingFace, Cut(a))
  {
    RunPrefix(huggingFace, disk, a, b);
    RunTracksParse(huggingFace, disk, a);
  }

  /** After `a`, which ends on a whole file, a chunk for that same file is refused. */
  lemma {:induction false} ExtraChunkRefused(huggingFace: bool, disk: Disk, a: seq<Chunk>, c: Chunk, rest: seq<Chunk>)
    requires Cut(a).open == [] && Cut(a).segs != []
    requires var last := Cut(a).segs[|Cut(a).segs| - 1]; last != [] ==> last[0].File() == c.File()
    ensures !Accepted(huggingFace, disk, a + ([c] + rest))
  {
    if Accepted(huggingFace, disk, a + ([c] + rest)) {
      AcceptedPrefixGood(huggingFace, disk, a, [c] + rest);
      assert a + ([c] + rest) == (a + [c]) + rest;
      AcceptedPrefixGood(huggingFace, disk, a + [c], rest);
      CutSnoc(a, c);
      GoodExtends(huggingFace, Cut(a), c);
      assert false;
    }
  }

  /** While a file is in progress, a chunk for another file is refused. */
  lemma {:induction false} OtherFileRefused(huggingFace: bool, disk: Disk, a: seq<Chunk>, c: Chunk, rest: seq<Chunk>)
    requires Cut(a).open != [] && Cut(a).open[0].File() != c.File()
    ensures !Accepted(huggingFace, disk, a + ([c] + rest))
  {
    if Accepted(huggingFace, disk, a + ([c] + rest)) {
      AcceptedPrefixGood(huggingFace, disk, a, [c] + rest);
      assert a + ([c] + rest) == (a + [c]) + rest;
      AcceptedPrefixGood(huggingFace, disk, a + [c], rest);
      CutSnoc(a, c);
      GoodExtends(huggingFace, Cut(a), c);
      FitsSnoc(Cut(a).open, c);
      assert false;
    }
  }

  lemma {:induction false} ShrunkFileStaysOpen(a: seq<Chunk>, f: SourceFile, isLastFile: bool, chunkSize: nat, part: seq<Chunk>)
    requires Cut(a).open == [] && IsSafe(f.path) && SentFile(f, isLastFile, chunkSize, part)
    requires 0 < |f.content| < f.listedSize
    ensures Cut(a + part).open == part != [] && part[0].File() == Resolve(f.path)
  {
    assert part[..|part|] == part;
    ShortPrefixIsOpen(f, isLastFile, chunkSize, part, |part|);
    CutUnflagged(a, part);
    assert [] + part == part;
    SentChunkFits(f, isLastFile, chunkSize, part, 0);
  }

  /** A file that shrank between listing and reading is never accepted, unless nothing is left of it: then it leaves no trace in the stream. */
  lemma {:induction false} ShrunkFileRefused(huggingFace: bool, disk: Disk, a: seq<Chunk>, f: SourceFile, isLastFile: bool,
                          chunkSize: nat, part: seq<Chunk>, rest: seq<Chunk>)
    requires Cut(a).open == [] && IsSafe(f.path) && SentFile(f, isLastFile, chunkSize, part)
    requires |f.content| < f.listedSize
    requires rest != [] ==> rest[0].File() != Resolve(f.path)
    ensures f.content != [] ==> !Accepted(huggingFace, disk, a + part + rest)
    ensures f.content == [] ==> part == []
  {
    if f.content == [] {
      VanishedSendsNothing(f, isLastFile, chunkSize, part);
    } else {
      ShrunkFileStaysOpen(a, f, isLastFile, chunkSize, part);
      OpenFileRefused(huggingFace, disk, a + part, rest);
    }
  }

  lemma {:induction false} OpenFileRefused(huggingFace: bool, disk: Disk, a: seq<Chunk>, rest: seq<Chunk>)
    requires Cut(a).open != []
    requires rest != [] ==> rest[0].File() != Cut(a).open[0].File()
    ensures !Accepted(huggingFace, disk, a + rest)
  {
    if rest == [] {
      assert a + rest == a;
      AcceptedIsGood(huggingFace, disk, a);
    } else {
      OtherFileRefused(huggingFace, disk, a, rest[0], rest[1..]);
      assert [rest[0]] + rest[1..] == rest;
    }
  }

  /** Where a grown file first reaches its listed size. */
  lemma {:induction false} FirstFlag(part: seq<Chunk>) returns (k: nat)
    requires part != [] && part[|part| - 1].isLastChunk
    ensures k < |part| && FlaggedAtEnd(part[..k + 1])
  {
    k := 0;
    while !part[k].isLastChunk
      invariant k < |part|
      invariant forall i | 0 <= i < k :: !part[i].isLastChunk
      decreases |part| - k
    {
      k := k + 1;
    }
  }

  /** A grown file is flagged complete at some chunk, and if the flag is right another chunk follows. */
  lemma {:induction false} GrownFileOverruns(f: SourceFile, isLastFile: bool, chunkSize: nat, part: seq<Chunk>) returns (k: nat)
    requires IsSafe(f.path) && SentFile(f, isLastFile, chunkSize, part)
    requires 0 < f.listedSize < |f.content| <= U64_MAX
    ensures k < |part| && FlaggedAtEnd(part[..k + 1])
    ensures ValidSegment(part[..k + 1]) ==> k + 1 < |part| && part[k + 1].File() == part[0].File()
  {
    var n := |part| - 1;
    DataStep(part, n);
    assert part[..n + 1] == part;
    assert SentChunk(f, isLastFile, chunkSize, part, n);
    k := FirstFlag(part);
    DataStep(part, k);
    assert SentChunk(f, isLastFile, chunkSize, part, k);
    if k + 1 < |part| {
      SentChunkFits(f, isLastFile, chunkSize, part, k + 1);
      SentChunkFits(f, isLastFile, chunkSize, part, 0);
    }
  }

  lemma {:induction false} SecondFlagRefused(huggingFace: bool, disk: Disk, a: seq<Chunk>, s: seq<Chunk>, tail: seq<Chunk>)
    requires Cut(a).open == [] && FlaggedAtEnd(s)
    requires tail != [] && tail[0].File() == s[0].File()
    ensures !Accepted(huggingFace, disk, a + s + tail)
  {
    CutFlagged(a, s);
    assert [] + s == s;
    assert Cut(a + s).segs == Cut(a).segs + [s];
    ExtraChunkRefused(huggingFace, disk, a + s, tail[0], tail[1..]);
    assert [tail[0]] + tail[1..] == tail;
  }

  lemma {:induction false} AcceptedSegmentValid(huggingFace: bool, disk: Disk, a: seq<Chunk>, s: seq<Chunk>, tail: seq<Chunk>)
    requires Cut(a).open == [] && FlaggedAtEnd(s) && Accepted(huggingFace, disk, a + s + tail)
    ensures ValidSegment(s)
  {
    CutFlagged(a, s);
    assert [] + s == s;
    AcceptedPrefixGood(huggingFace, disk, a + s, tail);
  }

  /** A flagged file is refused when it is malformed, and when more of the same file follows. */
  lemma {:induction false} FlaggedFileRefused(huggingFace: bool, disk: Disk, a: seq<Chunk>, s: seq<Chunk>, tail: seq<Chunk>)
    requires Cut(a).open == [] && FlaggedAtEnd(s)
    requires ValidSegment(s) ==> tail != [] && tail[0].File() == s[0].File()
    ensures !Accepted(huggingFace, disk, a + s + tail)
  {
    if ValidSegment(s) {
      SecondFlagRefused(huggingFace, disk, a, s, tail);
    } else if Accepted(huggingFace, disk, a + s + tail) {
      AcceptedSegmentValid(huggingFace, disk, a, s, tail);
      assert false;
    }
  }

  /** A file that grew between listing and reading is never accepted, unless it was listed as empty: then an empty file is sent in its place. */
  lemma {:induction false} GrownFileRefused(huggingFace: bool, disk: Disk, a: seq<Chunk>, f: SourceFile, isLastFile: bool,
                         chunkSize: nat, part: seq<Chunk>, rest: seq<Chunk>)
    requires Cut(a).open == [] && IsSafe(f.path) && SentFile(f, isLastFile, chunkSize, part)
    requires f.listedSize < |f.content| <= U64_MAX
    ensures f.listedSize > 0 ==> !Accepted(huggingFace, disk, a + part + rest)
    ensures f.listedSize == 0 ==> ValidSegment(part) && Data(part) == []
  {
    if f.listedSize == 0 {
      SentFileIsSegment(f, isLastFile, chunkSize, part);
    } else {
      var k := GrownFileOverruns(f, isLastFile, chunkSize, part);
      var s, tail := part[..k + 1], part[k + 1..] + rest;
      FlaggedFileRefused(huggingFace, disk, a, s, tail);
      assert a + part + rest == a + s + tail;
    }
  }

  lemma {:induction false} FlattenSplit(parts: seq<seq<Chunk>>, j: nat)
    requires j <= |parts|
    ensures Flatten(parts) == Flatten(parts[..j]) + Flatten(parts[j..])
    decreases |parts|
  {
    if j == |parts| {
      assert parts[..j] == parts && parts[j..] == [];
    } else {
      var n := |parts| - 1;
      FlattenSplit(parts[..n], j);
      assert parts[..n][..j] == parts[..j];
      assert parts[..n][j..] == parts[j..][..n - j];
      assert parts[j..][n - j] == parts[n];
    }
  }

  lemma {:induction false} FlattenFirst(parts: seq<seq<Chunk>>)
    requires Flatten(parts) != []
    ensures exists k | 0 <= k < |parts| :: parts[k] != [] && parts[k][0] == Flatten(parts)[0]
  {
    var n := |parts| - 1;
    if Flatten(parts[..n]) == [] {
      assert parts[n] != [] && parts[n][0] == Flatten(parts)[0];
    } else {
      FlattenFirst(parts[..n]);
      var k :| 0 <= k < n && parts[..n][k] != [] && parts[..n][k][0] == Flatten(parts[..n])[0];
      assert parts[k] != [] && parts[k][0] == Flatten(parts)[0];
    }
  }

  lemma {:induction false} SentPartFile(files: seq<SourceFile>, commit: Option<string>, chunkSize: nat, parts: seq<seq<Chunk>>, i: nat)
    requires Listing(files) && Sent(files, commit, chunkSize, parts) && i < |files| && parts[i] != []
    ensures parts[i][0].File() == Resolve(files[i].path)
  {
    SentChunkFits(files[i], i == |files| - 1, chunkSize, parts[i], 0);
  }

  lemma {:induction false} RestIsForOtherFiles(files: seq<SourceFile>, commit: Option<string>, chunkSize: nat, parts: seq<seq<Chunk>>, j: nat)
    requires Listing(files) && Sent(files, commit, chunkSize, parts) && j < |files|
    ensures var rest := Flatten(parts[j + 1..]); rest != [] ==> rest[0].File() != Resolve(files[j].path)
  {
    var later := parts[j + 1..];
    if Flatten(later) != [] {
      FlattenFirst(later);
      var k :| 0 <= k < |later| && later[k] != [] && later[k][0] == Flatten(later)[0];
      SentPartFile(files, commit, chunkSize, parts, j + 1 + k);
    }
  }

  lemma {:induction false} PartMustBeDelivered(huggingFace: bool, disk: Disk, files: seq<SourceFile>, commit: Option<string>,
                            chunkSize: nat, parts: seq<seq<Chunk>>, j: nat)
    requires Listing(files) && Sent(files, commit, chunkSize, parts) && j < |files|
    requires InStep(huggingFace, disk, Compact(parts[..j]), files[..j], false)
    requires Accepted(huggingFace, disk, Flatten(parts))
    ensures Delivered(files, j)
  {
    var f, part, a, rest := files[j], parts[j], Flatten(parts[..j]), Flatten(parts[j + 1..]);
    var isLastFile := j == |files| - 1;
    FlattenSplit(parts, j + 1);
    assert parts[..j + 1][..j] == parts[..j];
    assert Flatten(parts) == a + part + rest;
    GoodCut(huggingFace, Compact(parts[..j]));
    FlattenCompact(parts[..j]);
    if Vanished(f) {
      if isLastFile {
        VanishedSendsNothing(f, isLastFile, chunkSize, part);
        assert parts[j + 1..] == [];
        assert a + part + rest == a;
        AcceptedIsGood(huggingFace, disk, a);
      }
    } else if f.listedSize > 0 && |f.content| < f.listedSize {
      RestIsForOtherFiles(files, commit, chunkSize, parts, j);
      ShrunkFileRefused(huggingFace, disk, a, f, isLastFile, chunkSize, part, rest);
    } else if f.listedSize > 0 && |f.content| > f.listedSize {
      GrownFileRefused(huggingFace, disk, a, f, isLastFile, chunkSize, part, rest);
    }
  }

  lemma {:induction false} GoodCut(huggingFace: bool, segs: seq<seq<Chunk>>)
    requires GoodSegments(huggingFace, segs)
    ensures Cut(Flatten(segs)) == Parsed(segs, [])
  {
    GoodSegmentsByIndex(huggingFace, segs);
    forall i | 0 <= i < |segs| ensures FlaggedAtEnd(segs[i]) { SegmentFlags(segs[i]); }
    CutFlatten(segs);
  }

  lemma {:induction false} AcceptedDelivers(huggingFace: bool, disk: Disk, files: seq<SourceFile>, commit: Option<string>,
                                            chunkSize: nat, parts: seq<seq<Chunk>>, j: nat)
    requires Listing(files) && Sent(files, commit, chunkSize, parts) && CanPrepare(huggingFace, commit)
    requires Accepted(huggingFace, disk, Flatten(parts)) && j <= |files|
    ensures forall i | 0 <= i < j :: Delivered(files, i)
  {
    if j > 0 {
      AcceptedDelivers(huggingFace, disk, files, commit, chunkSize, parts, j - 1);
      DeliveredPrefix(huggingFace, disk, files, commit, chunkSize, parts, j - 1);
      PartMustBeDelivered(huggingFace, disk, files, commit, chunkSize, parts, j - 1);
    }
  }

  lemma {:induction false} AcceptedPrepares(huggingFace: bool, disk: Disk, files: seq<SourceFile>, commit: Option<string>,
                         chunkSize: nat, parts: seq<seq<Chunk>>)
    requires Sent(files, commit, chunkSize, parts) && Accepted(huggingFace, disk, Flatten(parts))
    ensures CanPrepare(huggingFace, commit)
  {
    var chunks := Flatten(parts);
    assert [] + [chunks[0]] == [chunks[0]] && chunks == [chunks[0]] + chunks[1..];
    AcceptedPrefixGood(huggingFace, disk, [chunks[0]], chunks[1..]);
    CutSnoc([], chunks[0]);
    GoodExtends(huggingFace, Parsed([], []), chunks[0]);
    FirstCommit(parts, commit);
  }

  lemma {:induction false} FirstCommit(parts: seq<seq<Chunk>>, commit: Option<string>)
    requires forall i | 0 <= i < |parts| :: CommitOnFirst(parts, commit, i)
    requires Flatten(parts) != []
    ensures Flatten(parts)[0].commitHash == commit
  {
    var n := |parts| - 1;
    var init := parts[..n];
    assert CommitOnFirst(parts, commit, n);
    if Flatten(init) != [] {
      forall i | 0 <= i < n ensures CommitOnFirst(init, commit, i) {
        assert CommitOnFirst(parts, commit, i);
        assert init[..i] == parts[..i];
      }
      FirstCommit(init, commit);
    }
  }

  // ----- The transfer theorem

  lemma {:induction false} DeliveredIsValid(huggingFace: bool, disk: Disk, files: seq<SourceFile>, commit: Option<string>,
                                            chunkSize: nat, parts: seq<seq<Chunk>>)
    requires files != [] && Listing(files) && Sent(files, commit, chunkSize, parts) && CanPrepare(huggingFace, commit)
    requires forall i | 0 <= i < |files| :: Delivered(files, i)
    ensures ValidStream(huggingFace, Compact(parts))
    ensures Install(disk, Compact(parts)) == DeliveredDisk(disk, files)
  {
    DeliveredPrefix(huggingFace, disk, files, commit, chunkSize, parts, |files|);
    assert parts[..|files|] == parts && files[..|files|] == files;
    ValidStreamIsGood(huggingFace, Compact(parts));
  }

  lemma {:induction false} DeliveredIsAccepted(huggingFace: bool, disk: Disk, files: seq<SourceFile>, commit: Option<string>,
                                               chunkSize: nat, parts: seq<seq<Chunk>>)
    requires files != [] && Listing(files) && Sent(files, commit, chunkSize, parts) && CanPrepare(huggingFace, commit)
    requires forall i | 0 <= i < |files| :: Delivered(files, i)
    ensures Receive(huggingFace, disk, Flatten(parts)) == Ok(commit)
    ensures Run(huggingFace, disk, Flatten(parts)).Ok?
    ensures Run(huggingFace, disk, Flatten(parts)).value.disk == DeliveredDisk(disk, files)
  {
    DeliveredIsValid(huggingFace, disk, files, commit, chunkSize, parts);
    var segs := Compact(parts);
    FlattenCompact(parts);
    AcceptedStreamInstalls(huggingFace, disk, segs);
    FirstCommit(parts, commit);
    FlattenHead(segs);
  }

  /**
   For every listing, chunk size and schedule of short reads, and however the files changed
   in between: the client accepts if and only if the commit names a directory and each file
   was listed as empty, still has its listed size or, unless it is the last, vanished. The disk
   then holds what was sent, which need not be what was read.
   */
  lemma {:induction false} TransferTheorem(huggingFace: bool, disk: Disk, files: seq<SourceFile>, commit: Option<string>,
                        chunkSize: nat, parts: seq<seq<Chunk>>)
    requires files != [] && Listing(files) && Sent(files, commit, chunkSize, parts)
    ensures Accepted(huggingFace, disk, Flatten(parts)) <==>
            CanPrepare(huggingFace, commit) && forall i | 0 <= i < |files| :: Delivered(files, i)
    ensures Accepted(huggingFace, disk, Flatten(parts)) ==>
            && Receive(huggingFace, disk, Flatten(parts)) == Ok(commit)
            && Run(huggingFace, disk, Flatten(parts)).value.disk == DeliveredDisk(disk, files)
  {
    if Accepted(huggingFace, disk, Flatten(parts)) {
      AcceptedPrepares(huggingFace, disk, files, commit, chunkSize, parts);
      AcceptedDelivers(huggingFace, disk, files, commit, chunkSize, parts, |files|);
    }
    if CanPrepare(huggingFace, commit) && forall i | 0 <= i < |files| :: Delivered(files, i) {
      DeliveredIsAccepted(huggingFace, disk, files, commit, chunkSize, parts);
    }
  }

  lemma {:induction false} FlattenHead(segs: seq<seq<Chunk>>)
    requires segs != [] && segs[0] != []
    ensures Flatten(segs) != [] && Flatten(segs)[0] == segs[0][0]
  {
    if |segs| == 1 {
      assert Flatten(segs[..0]) == [];
    } else {
      FlattenHead(segs[..|segs| - 1]);
    }
  }

  const LISTED_A := SourceFile([Normal("a")], 1, [])
  const LISTED_B := SourceFile([Normal("b")], 0, [])
  const ONLY_B := [[], [Chunk([Normal("b")], [], 0, 0, true, true, None)]]

  lemma {:induction false} OnlyBIsSent(chunkSize: nat)
    ensures Sent([LISTED_A, LISTED_B], None, chunkSize, ONLY_B) && Listing([LISTED_A, LISTED_B])
    ensures Resolve(LISTED_A.path) == ["a"] && Resolve(LISTED_B.path) == ["b"]
  {
    var a, b := LISTED_A, LISTED_B;
    assert a.path[0].Normal? && b.path[0].Normal?;
    assert a.path[1..] == [] && b.path[1..] == [];
    assert Resolve(a.path) == ["a"] && Resolve(b.path) == ["b"];
    assert ["a"][0] != ["b"][0];
    assert CommitOnFirst(ONLY_B, None, 0) && CommitOnFirst(ONLY_B, None, 1);
    assert SentFile(a, false, chunkSize, []) && SentFile(b, true, chunkSize, ONLY_B[1]);
  }

  lemma {:induction false} DeliveredSnoc(disk: Disk, files: seq<SourceFile>, f: SourceFile)
    ensures DeliveredDisk(disk, files + [f])
            == if Vanished(f) then DeliveredDisk(disk, files) else DeliveredDisk(disk, files)[Resolve(f.path) := SentBytes(f)]
  {
  }

  lemma {:induction false} OnlyBIsDelivered()
    ensures ["a"] !in DeliveredDisk(map[], [LISTED_A, LISTED_B])
  {
    OnlyBIsSent(0);
    DeliveredSnoc(map[], [], LISTED_A);
    DeliveredSnoc(map[], [LISTED_A], LISTED_B);
    assert [] + [LISTED_A] == [LISTED_A] && [LISTED_A] + [LISTED_B] == [LISTED_A, LISTED_B];
    assert ["a"][0] != ["b"][0];
  }

  /**
   So success does not by itself mean that what was read arrived: a file listed with one
   byte and read as empty leaves no trace in an accepted stream.
   */
  lemma {:induction false} VanishedFileGoesUnnoticed(chunkSize: nat)
    ensures Sent([LISTED_A, LISTED_B], None, chunkSize, ONLY_B)
    ensures Accepted(false, map[], Flatten(ONLY_B))
    ensures ["a"] !in Run(false, map[], Flatten(ONLY_B)).value.disk
  {
    OnlyBIsSent(chunkSize);
    OnlyBIsDelivered();
    var files := [LISTED_A, LISTED_B];
    assert Delivered(files, 0) && Delivered(files, 1);
    TransferTheorem(false, map[], files, None, chunkSize, ONLY_B);
  }

  // ----- Listings whose files stay as they were listed

  lemma {:induction false} DeliveredFile(disk: Disk, files: seq<SourceFile>, i: nat)
    requires DistinctPaths(files) && i < |files| && !Vanished(files[i])
    ensures Resolve(files[i].path) in DeliveredDisk(disk, files)
    ensures DeliveredDisk(disk, files)[Resolve(files[i].path)] == SentBytes(files[i])
  {
    var n := |files| - 1;
    if i < n {
      DeliveredFile(disk, files[..n], i);
    }
  }

  lemma {:induction false} UnlistedFile(disk: Disk, files: seq<SourceFile>, path: FilePath)
    requires path !in Listed(files)
    ensures path in DeliveredDisk(disk, files) <==> path in disk
    ensures path in disk ==> DeliveredDisk(disk, files)[path] == disk[path]
  {
    if files != [] {
      var n := |files| - 1;
      ListedSnoc(files[..n], files[n]);
      assert files[..n] + [files[n]] == files;
      UnlistedFile(disk, files[..n], path);
    }
  }

  lemma {:induction false} VanishedFile(disk: Disk, files: seq<SourceFile>, i: nat)
    requires DistinctPaths(files) && i < |files| && Vanished(files[i])
    ensures var path := Resolve(files[i].path);
            && (path in DeliveredDisk(disk, files) <==> path in disk)
            && (path in disk ==> DeliveredDisk(disk, files)[path] == disk[path])
  {
    var n := |files| - 1;
    if i < n {
      VanishedFile(disk, files[..n], i);
    } else {
      NotListedBefore(files, n);
      UnlistedFile(disk, files[..n], Resolve(files[n].path));
    }
  }

  // ----- When everything that was read arrives

  predicate Arrived(disk: Disk, f: SourceFile) {
    Resolve(f.path) in disk && disk[Resolve(f.path)] == f.content
  }

  lemma {:induction false} ArrivedIff(disk: Disk, files: seq<SourceFile>, i: nat)
    requires DistinctPaths(files) && i < |files| && Delivered(files, i)
    ensures Arrived(DeliveredDisk(disk, files), files[i]) <==>
            |files[i].content| == files[i].listedSize || (Vanished(files[i]) && Arrived(disk, files[i]))
  {
    if Vanished(files[i]) {
      VanishedFile(disk, files, i);
    } else {
      DeliveredFile(disk, files, i);
    }
  }

  /** The file has its listed size, or it vanished before the last one and an empty file was there already. */
  predicate Arrives(disk: Disk, files: seq<SourceFile>, i: nat)
    requires i < |files|
  {
    || |files[i].content| == files[i].listedSize
    || (Vanished(files[i]) && i < |files| - 1 && Arrived(disk, files[i]))
  }

  /**
   The stream is accepted and the client ends up with every file as it was read if and only if
   the commit names a directory and every file still had its listed size when it was read, but
   for a vanished file in whose place the client already held an empty one.
   */
  lemma {:induction false} EverythingArrivesIff(huggingFace: bool, disk: Disk, files: seq<SourceFile>, commit: Option<string>,
                                                chunkSize: nat, parts: seq<seq<Chunk>>)
    requires files != [] && Listing(files) && Sent(files, commit, chunkSize, parts)
    ensures (&& Accepted(huggingFace, disk, Flatten(parts))
             && forall i | 0 <= i < |files| :: Arrived(Run(huggingFace, disk, Flatten(parts)).value.disk, files[i])) <==>
            CanPrepare(huggingFace, commit) && forall i | 0 <= i < |files| :: Arrives(disk, files, i)
  {
    TransferTheorem(huggingFace, disk, files, commit, chunkSize, parts);
    forall i | 0 <= i < |files|
      ensures Arrives(disk, files, i) ==> Delivered(files, i)
      ensures Delivered(files, i) ==> (Arrived(DeliveredDisk(disk, files), files[i]) <==> Arrives(disk, files, i))
    {
      if Delivered(files, i) {
        ArrivedIff(disk, files, i);
      }
    }
  }

  /** On a disk that holds none of the listed paths: exactly when no file changed its size since it was listed. */
  lemma {:induction false} EverythingArrivesOnFreshDiskIff(huggingFace: bool, disk: Disk, files: seq<SourceFile>, commit: Option<string>,
                                                           chunkSize: nat, parts: seq<seq<Chunk>>)
    requires files != [] && Listing(files) && Sent(files, commit, chunkSize, parts)
    requires forall i | 0 <= i < |files| :: Resolve(files[i].path) !in disk
    ensures (&& Accepted(huggingFace, disk, Flatten(parts))
             && forall i | 0 <= i < |files| :: Arrived(Run(huggingFace, disk, Flatten(parts)).value.disk, files[i])) <==>
            CanPrepare(huggingFace, commit) && forall i | 0 <= i < |files| :: |files[i].content| == files[i].listedSize
  {
    EverythingArrivesIff(huggingFace, disk, files, commit, chunkSize, parts);
    forall i | 0 <= i < |files| ensures Arrives(disk, files, i) <==> |files[i].content| == files[i].listedSize {}
  }

  lemma {:induction false} OneFileIsDelivered(disk: Disk, f: SourceFile)
    requires f.listedSize == 0
    ensures DeliveredDisk(disk, [f]) == disk[Resolve(f.path) := []]
  {
    DeliveredSnoc(disk, [], f);
    assert [] + [f] == [f];
  }

  /** The other way to lose bytes unnoticed: a file listed as empty that has bytes when it is read arrives empty. */
  lemma {:induction false} ListedEmptyFileArrivesEmpty(huggingFace: bool, disk: Disk, f: SourceFile, commit: Option<string>, chunkSize: nat)
    requires IsSafe(f.path) && f.listedSize == 0 && 0 < |f.content| <= U64_MAX && CanPrepare(huggingFace, commit)
    ensures var parts := [[Chunk(f.path, [], 0, 0, true, true, commit)]];
            && Sent([f], commit, chunkSize, parts)
            && Accepted(huggingFace, disk, Flatten(parts))
            && Run(huggingFace, disk, Flatten(parts)).value.disk == disk[Resolve(f.path) := []]
            && !Arrived(Run(huggingFace, disk, Flatten(parts)).value.disk, f)
  {
    var parts := [[Chunk(f.path, [], 0, 0, true, true, commit)]];
    assert CommitOnFirst(parts, commit, 0);
    assert SentFile(f, true, chunkSize, parts[0]);
    assert Delivered([f], 0);
    TransferTheorem(huggingFace, disk, [f], commit, chunkSize, parts);
    OneFileIsDelivered(disk, f);
  }

  // ----- The round trip

  /**
   Round trip: send any non-empty listing of unchanged files and receive it. The client
   succeeds, holds exactly those files' bytes, and touched nothing else.
   */
  method Transfer(huggingFace: bool, disk0: Disk, files: seq<SourceFile>, chunkSize: nat,
                  wanted: (nat, nat) -> nat, commit: Option<string>)
    returns (result: Result<Option<string>, StreamError>, disk: Disk)
    requires chunkSize > 0 && files != [] && Listing(files) && CanPrepare(huggingFace, commit)
    requires forall f | f in files :: |f.content| == f.listedSize
    ensures result == Ok(commit)
    ensures forall f | f in files :: Resolve(f.path) in disk && disk[Resolve(f.path)] == f.content
    ensures forall f, names: FilePath | f in files && f.path == PathOf(names) :: names in disk && disk[names] == f.content
    ensures forall path | path !in Listed(files) ::
              (path in disk <==> path in disk0) && (path in disk0 ==> disk[path] == disk0[path])
  {
    var chunks := StreamFiles(files, chunkSize, wanted, commit);
    ghost var parts :| Sent(files, commit, chunkSize, parts) && chunks == Flatten(parts);
    result, disk := ReceiveChunks(huggingFace, chunks, disk0);
    TransferTheorem(huggingFace, disk0, files, commit, chunkSize, parts);
    forall f | f in files ensures Resolve(f.path) in disk && disk[Resolve(f.path)] == f.content {
      var i :| 0 <= i < |files| && files[i] == f;
      DeliveredFile(disk0, files, i);
    }
    forall f, names: FilePath | f in files && f.path == PathOf(names) ensures names in disk && disk[names] == f.content {
      ResolveNames(names);
    }
    forall path | path !in Listed(files)
      ensures (path in disk <==> path in disk0) && (path in disk0 ==> disk[path] == disk0[path])
    {
      UnlistedFile(disk0, files, path);
    }
  }
}
