/**
 The file stream between server and client: the chunk message, the client's receiving
 state machine, and the declarative shape of a well-formed stream.
 */
module StreamProtocol {
  import opened Prelude
  import opened Text
  import opened EntryKeys

  type Bytes = seq<byte>

  // ----- Messages and paths

  datatype Component = Normal(name: string) | CurDir | ParentDir | RootDir | Prefix(name: string)

  /** A received relative path, and the names it leads through below the model directory. */
  type RawPath = seq<Component>
  type FilePath = seq<string>

  type Disk = map<FilePath, Bytes>

  predicate IsSafe(p: RawPath) {
    && (exists i | 0 <= i < |p| :: p[i].Normal?)
    && (forall i | 0 <= i < |p| :: !p[i].ParentDir? && !p[i].RootDir? && !p[i].Prefix?)
  }

  function Resolve(p: RawPath): FilePath {
    if p == [] then []
    else (if p[0].Normal? then [p[0].name] else []) + Resolve(p[1..])
  }

  // ----- What resolving and checking a path mean

  /** The path that spells these names. */
  function PathOf(names: FilePath): RawPath {
    seq(|names|, i requires 0 <= i < |names| => Normal(names[i]))
  }

  lemma {:induction false} ResolveConcat(a: RawPath, b: RawPath)
    ensures Resolve(a + b) == Resolve(a) + Resolve(b)
    decreases |a|
  {
    if a == [] {
      assert a + b == b;
    } else {
      ResolveConcat(a[1..], b);
      assert (a + b)[1..] == a[1..] + b;
    }
  }

  /** A path of names resolves to those names, in that order. */
  lemma {:induction false} ResolveNames(names: FilePath)
    ensures Resolve(PathOf(names)) == names
    decreases |names|
  {
    if names != [] {
      ResolveNames(names[1..]);
      assert PathOf(names)[1..] == PathOf(names[1..]);
      assert names == [names[0]] + names[1..];
    }
  }

  /** Components that name the current directory change nothing, wherever they stand. */
  lemma {:induction false} CurDirChangesNothing(a: RawPath, b: RawPath)
    ensures Resolve(a + [CurDir] + b) == Resolve(a + b)
  {
    ResolveConcat(a + [CurDir], b);
    ResolveConcat(a, [CurDir]);
    ResolveConcat(a, b);
    assert [CurDir][1..] == [];
  }

  function DropCurDir(p: RawPath): RawPath {
    if p == [] then [] else (if p[0].CurDir? then [] else [p[0]]) + DropCurDir(p[1..])
  }

  /** Names and current-directory components only. */
  predicate Plain(p: RawPath) {
    forall i | 0 <= i < |p| :: p[i].Normal? || p[i].CurDir?
  }

  lemma {:induction false} PlainCons(p: RawPath)
    requires p != []
    ensures Plain(p) <==> (p[0].Normal? || p[0].CurDir?) && Plain(p[1..])
  {
    assert forall i | 0 < i < |p| :: p[i] == p[1..][i - 1];
  }

  lemma {:induction false} SameHead<T>(x: T, a: seq<T>, b: seq<T>)
    ensures [x] + a == [x] + b <==> a == b
  {
    assert ([x] + a)[1..] == a && ([x] + b)[1..] == b;
  }

  lemma {:induction false} PlainIff(p: RawPath)
    ensures Plain(p) <==> DropCurDir(p) == PathOf(Resolve(p))
    decreases |p|
  {
    if p != [] {
      var names := Resolve(p[1..]);
      PlainIff(p[1..]);
      PlainCons(p);
      assert [] + names == names && [] + DropCurDir(p[1..]) == DropCurDir(p[1..]);
      if p[0].Normal? {
        assert PathOf([p[0].name] + names) == [p[0]] + PathOf(names);
        SameHead(p[0], DropCurDir(p[1..]), PathOf(names));
      } else if !p[0].CurDir? {
        assert DropCurDir(p)[0] == p[0];
        assert names != [] ==> PathOf(names)[0].Normal?;
      }
    }
  }

  lemma {:induction false} NamesSomething(p: RawPath)
    ensures (exists i | 0 <= i < |p| :: p[i].Normal?) <==> Resolve(p) != []
    decreases |p|
  {
    if p != [] {
      NamesSomething(p[1..]);
      assert forall i | 0 < i < |p| :: p[i] == p[1..][i - 1];
      if i :| 0 <= i < |p[1..]| && p[1..][i].Normal? {
        assert p[i + 1].Normal?;
      }
    }
  }

  /** A path is safe if and only if, but for current-directory components, it spells one or more names: those it resolves to. */
  lemma {:induction false} SafeIff(p: RawPath)
    ensures IsSafe(p) <==> Resolve(p) != [] && DropCurDir(p) == PathOf(Resolve(p))
    ensures IsSafe(p) ==> Plain(p)
  {
    PlainIff(p);
    NamesSomething(p);
  }

  /** Where a path leads from a directory, component by component, as a file system walks it. */
  function Walk(at: FilePath, p: RawPath): FilePath
    decreases |p|
  {
    if p == [] then at
    else match p[0]
      case Normal(name) => Walk(at + [name], p[1..])
      case CurDir => Walk(at, p[1..])
      case ParentDir => Walk(if at == [] then [] else at[..|at| - 1], p[1..])
      case RootDir => Walk([], p[1..])
      case Prefix(_) => Walk([], p[1..])
  }

  lemma {:induction false} WalkDown(at: FilePath, p: RawPath)
    requires Plain(p)
    ensures Walk(at, p) == at + Resolve(p)
    decreases |p|
  {
    if p != [] {
      PlainCons(p);
      if p[0].Normal? {
        WalkDown(at + [p[0].name], p[1..]);
        assert at + [p[0].name] + Resolve(p[1..]) == at + ([p[0].name] + Resolve(p[1..]));
      } else {
        WalkDown(at, p[1..]);
      }
    }
  }

  /** From every directory a safe path leads below that directory, to the names it resolves to. */
  lemma {:induction false} SafePathStaysBelow(at: FilePath, p: RawPath)
    requires IsSafe(p)
    ensures Walk(at, p) == at + Resolve(p) && at < Walk(at, p)
  {
    SafeIff(p);
    WalkDown(at, p);
  }

  datatype Chunk = Chunk(
    path: RawPath,
    data: Bytes,
    offset: u64,
    totalSize: u64,
    isLastChunk: bool,
    isLastFile: bool,
    commitHash: Option<string>)
  {
    function File(): FilePath {
      Resolve(path)
    }

    predicate EndsStream() {
      isLastFile && isLastChunk
    }
  }

  /** Whether the model directory can be named: Hugging Face needs a valid commit. */
  predicate CanPrepare(huggingFace: bool, commit: Option<string>) {
    (huggingFace ==> commit.Some?) && (commit.Some? ==> ValidRevision(commit.value))
  }

  /** Without a commit only the providers that need none go on; with one, a directory below its parent is named. */
  lemma {:induction false} PreparedDirectory(huggingFace: bool, commit: Option<string>)
    ensures commit.None? ==> (CanPrepare(huggingFace, commit) <==> !huggingFace)
    ensures commit.Some? ==> (CanPrepare(huggingFace, commit) <==> ValidRevision(commit.value))
    ensures commit.Some? && CanPrepare(huggingFace, commit) ==>
              forall part | part in Split(commit.value, '/') :: part != "" && part != "." && part != ".."
  {
  }

  // ----- The receiver

  datatype StreamError =
    | ExtraAfterFinal | BadModelDir | UnsafePath | OffsetBeyondSize | PreviousIncomplete
    | NonZeroFirstOffset | ExtraForCompleted | InconsistentSize | UnexpectedOffset
    | ExceedsSize | FinalChunkShort | CompletedWithoutFlag
    | NoFiles | NoFinalMarker | FinalIncomplete

  datatype FileState = FileState(path: FilePath, expectedSize: u64, bytesWritten: u64, sawLastChunk: bool)
  {
    predicate Complete() {
      sawLastChunk && bytesWritten == expectedSize
    }
  }

  /** `dir` is the commit the model directory was prepared for, once the first chunk arrived. */
  datatype Receiver = Receiver(
    dir: Option<Option<string>>,
    current: Option<FileState>,
    sawFinalChunk: bool,
    disk: Disk)

  function Start(disk: Disk): Receiver {
    Receiver(None, None, false, disk)
  }

  /** The file to write a chunk to: the open one, or a newly created one. */
  function OpenFile(r: Receiver, c: Chunk): Result<FileState, StreamError> {
    if r.current.Some? && r.current.value.path == c.File() then Ok(r.current.value)
    else if r.current.Some? && !r.current.value.Complete() then Err(PreviousIncomplete)
    else if c.offset != 0 then Err(NonZeroFirstOffset)
    else Ok(FileState(c.File(), c.totalSize, 0, false))
  }

  /** Writing a chunk to its file moves the file's counters on, or is refused. */
  function WriteChunk(f: FileState, c: Chunk): Result<FileState, StreamError> {
    if f.sawLastChunk then Err(ExtraForCompleted)
    else if c.totalSize != f.expectedSize then Err(InconsistentSize)
    else if c.offset != f.bytesWritten then Err(UnexpectedOffset)
    else
      var nextSize := SaturatingAdd(f.bytesWritten, |c.data|);
      if nextSize > f.expectedSize then Err(ExceedsSize)
      else if c.isLastChunk && nextSize != f.expectedSize then Err(FinalChunkShort)
      else if !c.isLastChunk && nextSize == f.expectedSize then Err(CompletedWithoutFlag)
      else Ok(f.(bytesWritten := nextSize, sawLastChunk := c.isLastChunk))
  }

  /** What the disk holds once a chunk's data is written; a new file starts empty. */
  function Written(r: Receiver, c: Chunk): Disk {
    var p := c.File();
    var before := if r.current.Some? && r.current.value.path == p && p in r.disk then r.disk[p] else [];
    r.disk[p := before + c.data]
  }

  /** One iteration of the receive loop. */
  function Step(huggingFace: bool, r: Receiver, c: Chunk): Result<Receiver, StreamError> {
    if r.sawFinalChunk then Err(ExtraAfterFinal)
    else if r.dir.None? && !CanPrepare(huggingFace, c.commitHash) then Err(BadModelDir)
    else if !IsSafe(c.path) then Err(UnsafePath)
    else if c.offset > c.totalSize then Err(OffsetBeyondSize)
    else match OpenFile(r, c)
      case Err(e) => Err(e)
      case Ok(f) =>
        match WriteChunk(f, c)
        case Err(e) => Err(e)
        case Ok(f') =>
          Ok(Receiver(
               if r.dir.None? then Some(c.commitHash) else r.dir,
               Some(f'),
               c.EndsStream(),
               Written(r, c)))
  }

  function Run(huggingFace: bool, disk: Disk, chunks: seq<Chunk>): Result<Receiver, StreamError> {
    if chunks == [] then Ok(Start(disk))
    else match Run(huggingFace, disk, chunks[..|chunks| - 1])
      case Err(e) => Err(e)
      case Ok(r) => Step(huggingFace, r, chunks[|chunks| - 1])
  }

  /** The checks after the stream has closed. */
  function Finish(r: Receiver): Result<Option<string>, StreamError> {
    if r.dir.None? then Err(NoFiles)
    else if !r.sawFinalChunk then Err(NoFinalMarker)
    else if r.current.Some? && !r.current.value.Complete() then Err(FinalIncomplete)
    else Ok(r.dir.value)
  }

  /** The whole call: receive every chunk, then finish. */
  function Receive(huggingFace: bool, disk: Disk, chunks: seq<Chunk>): Result<Option<string>, StreamError> {
    match Run(huggingFace, disk, chunks)
    case Err(e) => Err(e)
    case Ok(r) => Finish(r)
  }

  predicate Accepted(huggingFace: bool, disk: Disk, chunks: seq<Chunk>) {
    Receive(huggingFace, disk, chunks).Ok?
  }

  // ----- The shape of a stream

  /** The bytes a run of chunks carries. */
  function Data(s: seq<Chunk>): Bytes {
    if s == [] then [] else Data(s[..|s| - 1]) + s[|s| - 1].data
  }

  function Flatten(segs: seq<seq<Chunk>>): seq<Chunk> {
    if segs == [] then [] else Flatten(segs[..|segs| - 1]) + segs[|segs| - 1]
  }

  /** Chunk `i` continues its file: same file, same size, starting where the data so far ends. */
  ghost predicate Fits(s: seq<Chunk>, i: nat)
    requires i < |s|
  {
    && IsSafe(s[i].path)
    && s[i].File() == s[0].File()
    && s[i].totalSize == s[0].totalSize
    && s[i].offset == |Data(s[..i])|
  }

  /** The beginning of one file: contiguous from zero, unflagged, short of the full size. */
  ghost predicate ValidOpen(s: seq<Chunk>) {
    forall i | 0 <= i < |s| ::
      Fits(s, i) && !s[i].isLastChunk && |Data(s[..i])| + |s[i].data| < s[i].totalSize
  }

  /**
   One whole file: contiguous from zero, one size, one flag, at the end. The size is
   reached exactly, except that counting stops at `u64::MAX`.
   */
  ghost predicate ValidSegment(s: seq<Chunk>) {
    && s != []
    && ValidOpen(s[..|s| - 1])
    && Fits(s, |s| - 1)
    && s[|s| - 1].isLastChunk
    && SaturatingAdd(s[|s| - 1].offset, |s[|s| - 1].data|) == s[|s| - 1].totalSize
  }

  ghost predicate EndsStream(s: seq<Chunk>) {
    s != [] && s[|s| - 1].EndsStream()
  }

  ghost predicate Adjacent(segs: seq<seq<Chunk>>, i: nat)
    requires i + 1 < |segs|
  {
    segs[i] != [] && segs[i + 1] != [] && segs[i][0].File() != segs[i + 1][0].File()
  }

  /** Whole files, neighbours different, the stream marker on the last file only. */
  ghost predicate ValidStream(huggingFace: bool, segs: seq<seq<Chunk>>) {
    && segs != []
    && (forall i | 0 <= i < |segs| :: ValidSegment(segs[i]))
    && (forall i | 0 <= i && i + 1 < |segs| :: Adjacent(segs, i))
    && (forall i | 0 <= i < |segs| :: EndsStream(segs[i]) <==> i == |segs| - 1)
    && CanPrepare(huggingFace, segs[0][0].commitHash)
  }

  /** Each segment replaces the file at its path. */
  ghost function Install(disk: Disk, segs: seq<seq<Chunk>>): Disk
    requires forall i | 0 <= i < |segs| :: segs[i] != []
  {
    if segs == [] then disk
    else
      var last := segs[|segs| - 1];
      Install(disk, segs[..|segs| - 1])[last[0].File() := Data(last)]
  }
}
