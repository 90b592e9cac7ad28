/**
 The client's receive loop, and the proof that it accepts exactly the well-formed
 streams: soundness, completeness, unique segmentation and prefix-freedom.
 */
module StreamReceiver {
  import opened Prelude
  import opened EntryKeys
  import opened StreamProtocol

  // ----- Every chunk sequence, cut after each last-chunk flag

  datatype Parsed = Parsed(segs: seq<seq<Chunk>>, open: seq<Chunk>)

  ghost function Extend(p: Parsed, c: Chunk): Parsed {
    if c.isLastChunk then Parsed(p.segs + [p.open + [c]], []) else Parsed(p.segs, p.open + [c])
  }

  ghost function Cut(chunks: seq<Chunk>): Parsed {
    if chunks == [] then Parsed([], [])
    else Extend(Cut(chunks[..|chunks| - 1]), chunks[|chunks| - 1])
  }

  /** The last file of a parse: the open one, or the last whole one. */
  ghost function Tail(p: Parsed): seq<Chunk> {
    if p.open != [] || p.segs == [] then p.open else p.segs[|p.segs| - 1]
  }

  ghost function First(p: Parsed): seq<Chunk> {
    if p.segs == [] then p.open else p.segs[0]
  }

  /** What must hold before chunk `c` may begin the file after `segs`. */
  ghost predicate MayStart(huggingFace: bool, segs: seq<seq<Chunk>>, c: Chunk) {
    if segs == [] then CanPrepare(huggingFace, c.commitHash)
    else
      var last := segs[|segs| - 1];
      last != [] && !EndsStream(last) && last[0].File() != c.File()
  }

  ghost predicate GoodSegments(huggingFace: bool, segs: seq<seq<Chunk>>) {
    segs != [] ==>
      var init, last := segs[..|segs| - 1], segs[|segs| - 1];
      GoodSegments(huggingFace, init) && ValidSegment(last) && MayStart(huggingFace, init, last[0])
  }

  /** What the receiver has established about the chunks it has taken so far. */
  ghost predicate Good(huggingFace: bool, p: Parsed) {
    && GoodSegments(huggingFace, p.segs)
    && ValidOpen(p.open)
    && (p.open != [] ==> MayStart(huggingFace, p.segs, p.open[0]))
  }

  /** The receiver's variables, as a function of the chunks taken so far. */
  ghost function StateOf(disk: Disk, p: Parsed): Receiver
    requires forall i | 0 <= i < |p.segs| :: p.segs[i] != []
  {
    var installed := Install(disk, p.segs);
    var tail := Tail(p);
    Receiver(
      if First(p) == [] then None else Some(First(p)[0].commitHash),
      if tail == [] then None
      else Some(FileState(tail[0].File(), tail[0].totalSize,
                          if p.open == [] then tail[0].totalSize else Min(|Data(p.open)|, U64_MAX),
                          p.open == [])),
      p.open == [] && EndsStream(tail),
      if p.open == [] then installed else installed[p.open[0].File() := Data(p.open)])
  }

  lemma {:induction false} DataSnoc(s: seq<Chunk>, c: Chunk)
    ensures Data(s + [c]) == Data(s) + c.data
  {
  }

  lemma {:induction false} FitsSnoc(s: seq<Chunk>, c: Chunk)
    ensures forall i | 0 <= i < |s| :: Fits(s + [c], i) <==> Fits(s, i)
    ensures Fits(s + [c], |s|) <==>
            && IsSafe(c.path)
            && (s != [] ==> c.File() == s[0].File() && c.totalSize == s[0].totalSize)
            && c.offset == |Data(s)|
  {
    var t := s + [c];
    assert t[..|s|] == s;
    forall i | 0 <= i < |s| ensures t[..i] == s[..i] {}
  }

  lemma {:induction false} OpenSnoc(s: seq<Chunk>, c: Chunk)
    requires ValidOpen(s) && !c.isLastChunk
    ensures ValidOpen(s + [c]) <==> Fits(s + [c], |s|) && |Data(s)| + |c.data| < c.totalSize
  {
    hide Fits, Data, IsSafe, Resolve;
    var t := s + [c];
    FitsSnoc(s, c);
    assert t[..|s|] == s && t[|s|] == c;
    forall i | 0 <= i < |s| ensures t[..i] == s[..i] && t[i] == s[i] {}
  }

  lemma {:induction false} SegmentSnoc(s: seq<Chunk>, c: Chunk)
    requires ValidOpen(s) && c.isLastChunk
    ensures ValidSegment(s + [c]) <==> Fits(s + [c], |s|) && SaturatingAdd(c.offset, |c.data|) == c.totalSize
  {
  }

  /** A file in progress has not reached its size. */
  lemma {:induction false} OpenIsShort(s: seq<Chunk>)
    requires ValidOpen(s) && s != []
    ensures |Data(s)| < s[0].totalSize
  {
  }

  lemma {:induction false} GoodSegmentsNonEmpty(huggingFace: bool, segs: seq<seq<Chunk>>)
    requires GoodSegments(huggingFace, segs)
    ensures forall i | 0 <= i < |segs| :: segs[i] != []
  {
    if segs != [] {
      GoodSegmentsNonEmpty(huggingFace, segs[..|segs| - 1]);
    }
  }

  // ----- One chunk

  /** When a chunk may follow a good parse. */
  ghost predicate MayFollow(huggingFace: bool, p: Parsed, c: Chunk) {
    && (p.open == [] ==> MayStart(huggingFace, p.segs, c))
    && Fits(p.open + [c], |p.open|)
    && (if c.isLastChunk then SaturatingAdd(c.offset, |c.data|) == c.totalSize
        else |Data(p.open)| + |c.data| < c.totalSize)
  }

  /** The first chunk of the file that `c` belongs to. */
  ghost function Head(open: seq<Chunk>, c: Chunk): Chunk {
    if open == [] then c else open[0]
  }

  lemma {:induction false} GoodWithSegment(huggingFace: bool, segs: seq<seq<Chunk>>, s: seq<Chunk>)
    requires GoodSegments(huggingFace, segs) && s != []
    ensures Good(huggingFace, Parsed(segs + [s], [])) <==> ValidSegment(s) && MayStart(huggingFace, segs, s[0])
  {
    hide Fits, ValidSegment, MayStart;
    assert (segs + [s])[..|segs|] == segs;
  }

  lemma {:induction false} GoodExtends(huggingFace: bool, p: Parsed, c: Chunk)
    requires Good(huggingFace, p)
    ensures Good(huggingFace, Extend(p, c)) <==> MayFollow(huggingFace, p, c)
  {
    hide Fits, Data, ValidSegment, ValidOpen, MayStart, GoodSegments, SaturatingAdd;
    var s := p.open + [c];
    assert s[0] == Head(p.open, c);
    assert p.open != [] ==> MayStart(huggingFace, p.segs, p.open[0]);
    if c.isLastChunk {
      SegmentSnoc(p.open, c);
      GoodWithSegment(huggingFace, p.segs, s);
    } else {
      OpenSnoc(p.open, c);
    }
  }

  /** A chunk's length brings a file of `size` bytes, `at` of them written, to the right place. */
  predicate Reaches(at: u64, c: Chunk) {
    if c.isLastChunk then SaturatingAdd(at, |c.data|) == c.totalSize else at + |c.data| < c.totalSize
  }

  lemma {:induction false} StepFresh(huggingFace: bool, r: Receiver, c: Chunk)
    requires r.current.None? || r.current.value.Complete()
    ensures Step(huggingFace, r, c).Ok? <==>
            && !r.sawFinalChunk
            && (r.dir.None? ==> CanPrepare(huggingFace, c.commitHash))
            && IsSafe(c.path)
            && c.offset == 0
            && (r.current.Some? ==> r.current.value.path != c.File())
            && Reaches(0, c)
    ensures Step(huggingFace, r, c).Ok? ==>
            Step(huggingFace, r, c).value == Receiver(
              if r.dir.None? then Some(c.commitHash) else r.dir,
              Some(FileState(c.File(), c.totalSize, SaturatingAdd(0, |c.data|), c.isLastChunk)),
              c.EndsStream(),
              r.disk[c.File() := [] + c.data])
  {
  }

  lemma {:induction false} StepSame(huggingFace: bool, r: Receiver, c: Chunk)
    requires r.dir.Some? && !r.sawFinalChunk
    requires r.current.Some? && !r.current.value.sawLastChunk
    requires r.current.value.bytesWritten < r.current.value.expectedSize
    requires r.current.value.path in r.disk
    ensures var f := r.current.value;
            Step(huggingFace, r, c).Ok? <==>
            && IsSafe(c.path)
            && c.File() == f.path && c.totalSize == f.expectedSize && c.offset == f.bytesWritten
            && Reaches(f.bytesWritten, c)
    ensures var f := r.current.value;
            Step(huggingFace, r, c).Ok? ==>
            Step(huggingFace, r, c).value == Receiver(
              r.dir,
              Some(FileState(f.path, f.expectedSize, SaturatingAdd(f.bytesWritten, |c.data|), c.isLastChunk)),
              c.EndsStream(),
              r.disk[f.path := r.disk[f.path] + c.data])
  {
  }

  /** The receiver's variables after a chunk that begins a file. */
  lemma {:induction false} StateAfterFirstChunk(disk: Disk, segs: seq<seq<Chunk>>, c: Chunk)
    requires forall i | 0 <= i < |segs| :: segs[i] != []
    requires Reaches(0, c)
    ensures StateOf(disk, Extend(Parsed(segs, []), c)) == Receiver(
              Some(if segs == [] then c.commitHash else segs[0][0].commitHash),
              Some(FileState(c.File(), c.totalSize, SaturatingAdd(0, |c.data|), c.isLastChunk)),
              c.EndsStream(),
              Install(disk, segs)[c.File() := [] + c.data])
  {
    DataSnoc([], c);
    assert [] + [c] == [c];
    assert (segs + [[c]])[..|segs|] == segs;
  }

  /** The receiver's variables between two files. */
  lemma {:induction false} StateBetweenFiles(disk: Disk, segs: seq<seq<Chunk>>)
    requires forall i | 0 <= i < |segs| :: segs[i] != []
    ensures var r := StateOf(disk, Parsed(segs, []));
            && r.disk == Install(disk, segs)
            && (segs == [] ==> r.dir.None? && r.current.None? && !r.sawFinalChunk)
            && (segs != [] ==>
                 var last := segs[|segs| - 1];
                 && r.dir == Some(segs[0][0].commitHash) && r.sawFinalChunk == EndsStream(last)
                 && r.current.Some? && r.current.value.Complete() && r.current.value.path == last[0].File())
  {
  }

  lemma {:induction false} MayFollowFresh(huggingFace: bool, segs: seq<seq<Chunk>>, c: Chunk)
    ensures MayFollow(huggingFace, Parsed(segs, []), c) <==>
            MayStart(huggingFace, segs, c) && IsSafe(c.path) && c.offset == 0 && Reaches(0, c)
  {
  }

  lemma {:induction false} StepOpensFile(huggingFace: bool, disk: Disk, p: Parsed, c: Chunk)
    requires Good(huggingFace, p) && p.open == []
    requires forall i | 0 <= i < |p.segs| :: p.segs[i] != []
    ensures var next := Step(huggingFace, StateOf(disk, p), c);
            && (next.Ok? <==> MayFollow(huggingFace, p, c))
            && (next.Ok? ==> next.value == StateOf(disk, Extend(p, c)))
  {
    assert p == Parsed(p.segs, []);
    StateBetweenFiles(disk, p.segs);
    StepFresh(huggingFace, StateOf(disk, p), c);
    MayFollowFresh(huggingFace, p.segs, c);
    if MayFollow(huggingFace, p, c) {
      StateAfterFirstChunk(disk, p.segs, c);
    }
  }

  /** The receiver's variables after a chunk that continues the open file. */
  lemma {:induction false} StateAfterNextChunk(disk: Disk, p: Parsed, c: Chunk)
    requires forall i | 0 <= i < |p.segs| :: p.segs[i] != []
    requires p.open != [] && |Data(p.open)| <= U64_MAX
    requires c.totalSize == p.open[0].totalSize && c.File() == p.open[0].File()
    requires Reaches(|Data(p.open)|, c)
    ensures var r := StateOf(disk, p);
            StateOf(disk, Extend(p, c)) == Receiver(
              r.dir,
              Some(FileState(c.File(), c.totalSize, SaturatingAdd(|Data(p.open)|, |c.data|), c.isLastChunk)),
              c.EndsStream(),
              r.disk[c.File() := Data(p.open) + c.data])
  {
  }

  lemma {:induction false} StepContinuesFile(huggingFace: bool, disk: Disk, p: Parsed, c: Chunk)
    requires Good(huggingFace, p) && p.open != []
    requires forall i | 0 <= i < |p.segs| :: p.segs[i] != []
    ensures var next := Step(huggingFace, StateOf(disk, p), c);
            && (next.Ok? <==> MayFollow(huggingFace, p, c))
            && (next.Ok? ==> next.value == StateOf(disk, Extend(p, c)))
  {
    OpenIsShort(p.open);
    StepSame(huggingFace, StateOf(disk, p), c);
    FitsSnoc(p.open, c);
    if MayFollow(huggingFace, p, c) {
      StateAfterNextChunk(disk, p, c);
    }
  }

  /** The loop body accepts a chunk exactly when the parse stays good, and tracks the parse. */
  lemma {:induction false} StepTracksParse(huggingFace: bool, disk: Disk, p: Parsed, c: Chunk)
    requires Good(huggingFace, p)
    requires forall i | 0 <= i < |p.segs| :: p.segs[i] != []
    ensures var next := Step(huggingFace, StateOf(disk, p), c);
            && (next.Ok? <==> Good(huggingFace, Extend(p, c)))
            && (next.Ok? ==> next.value == StateOf(disk, Extend(p, c)))
  {
    GoodExtends(huggingFace, p, c);
    if p.open == [] { StepOpensFile(huggingFace, disk, p, c); } else { StepContinuesFile(huggingFace, disk, p, c); }
  }

  // ----- Whole streams

  lemma {:induction false} GoodPrefix(huggingFace: bool, p: Parsed, c: Chunk)
    requires Good(huggingFace, Extend(p, c))
    ensures Good(huggingFace, p)
  {
    var s := p.open + [c];
    assert s[..|p.open|] == p.open;
    assert p.open != [] ==> s[0] == p.open[0];
    if c.isLastChunk {
      assert Extend(p, c).segs[..|p.segs|] == p.segs;
    } else {
      FitsSnoc(p.open, c);
      forall i | 0 <= i < |p.open|
        ensures Fits(p.open, i) && !p.open[i].isLastChunk && |Data(p.open[..i])| + |p.open[i].data| < p.open[i].totalSize
      {
        assert Fits(s, i) && s[i] == p.open[i] && s[..i] == p.open[..i];
      }
    }
  }

  /** After any chunks, the loop is still running exactly when they parse well. */
  lemma {:induction false} RunTracksParse(huggingFace: bool, disk: Disk, chunks: seq<Chunk>)
    ensures Run(huggingFace, disk, chunks).Ok? <==> Good(huggingFace, Cut(chunks))
    ensures forall i | 0 <= i < |Cut(chunks).segs| :: Cut(chunks).segs[i] != []
    ensures Run(huggingFace, disk, chunks).Ok? ==> Run(huggingFace, disk, chunks).value == StateOf(disk, Cut(chunks))
  {
    if chunks != [] {
      var init, c := chunks[..|chunks| - 1], chunks[|chunks| - 1];
      RunTracksParse(huggingFace, disk, init);
      var p := Cut(init);
      if Good(huggingFace, p) {
        StepTracksParse(huggingFace, disk, p, c);
      } else if Good(huggingFace, Extend(p, c)) {
        GoodPrefix(huggingFace, p, c);
      }
    }
  }

  /** Neighbouring files differ, and only the last file may carry the stream marker. */
  ghost predicate Separated(segs: seq<seq<Chunk>>) {
    forall i | 0 <= i && i + 1 < |segs| :: Adjacent(segs, i) && !EndsStream(segs[i])
  }

  lemma {:induction false} SeparatedSnoc(segs: seq<seq<Chunk>>, s: seq<Chunk>)
    requires s != [] && forall i | 0 <= i < |segs| :: segs[i] != []
    ensures Separated(segs + [s]) <==>
            && Separated(segs)
            && (segs != [] ==> !EndsStream(segs[|segs| - 1]) && segs[|segs| - 1][0].File() != s[0].File())
  {
    var all, n := segs + [s], |segs|;
    assert forall i | 0 <= i < n :: all[i] == segs[i];
    assert forall i | 0 <= i && i + 1 < n :: Adjacent(all, i) <==> Adjacent(segs, i);
    if n > 0 {
      assert Adjacent(all, n - 1) <==> segs[n - 1][0].File() != s[0].File();
    }
  }

  lemma {:induction false} SegmentIsNotEmpty(s: seq<Chunk>)
    ensures ValidSegment(s) ==> s != []
  {
  }

  /** The recursive condition, read off index by index. */
  lemma {:induction false} GoodSegmentsByIndex(huggingFace: bool, segs: seq<seq<Chunk>>)
    ensures GoodSegments(huggingFace, segs) <==>
            && (forall i | 0 <= i < |segs| :: ValidSegment(segs[i]))
            && Separated(segs)
            && (segs != [] ==> CanPrepare(huggingFace, segs[0][0].commitHash))
  {
    hide ValidSegment, Resolve, CanPrepare;
    forall s: seq<Chunk> ensures ValidSegment(s) ==> s != [] {
      SegmentIsNotEmpty(s);
    }
    if segs != [] {
      var n := |segs| - 1;
      var init, last := segs[..n], segs[n];
      GoodSegmentsByIndex(huggingFace, init);
      assert segs == init + [last];
      if ValidSegment(last) && forall i | 0 <= i < n :: ValidSegment(init[i]) {
        SeparatedSnoc(init, last);
      }
    }
  }

  lemma {:induction false} ValidStreamIsGood(huggingFace: bool, segs: seq<seq<Chunk>>)
    ensures ValidStream(huggingFace, segs) <==>
            segs != [] && GoodSegments(huggingFace, segs) && EndsStream(segs[|segs| - 1])
  {
    GoodSegmentsByIndex(huggingFace, segs);
    if segs != [] && GoodSegments(huggingFace, segs) && EndsStream(segs[|segs| - 1]) {
      forall i | 0 <= i < |segs| ensures EndsStream(segs[i]) <==> i == |segs| - 1 {}
    }
  }

  lemma {:induction false} FlattenSnoc(segs: seq<seq<Chunk>>, s: seq<Chunk>)
    ensures Flatten(segs + [s]) == Flatten(segs) + s
  {
  }

  lemma {:induction false} CutIsPartition(chunks: seq<Chunk>)
    ensures Flatten(Cut(chunks).segs) + Cut(chunks).open == chunks
  {
    if chunks != [] {
      var init, c := chunks[..|chunks| - 1], chunks[|chunks| - 1];
      CutIsPartition(init);
      var p := Cut(init);
      var flat := Flatten(p.segs);
      FlattenSnoc(p.segs, p.open + [c]);
      assert flat + (p.open + [c]) == (flat + p.open) + [c];
      assert chunks == init + [c];
    }
  }

  lemma {:induction false} CutSnoc(a: seq<Chunk>, c: Chunk)
    ensures Cut(a + [c]) == Extend(Cut(a), c)
  {
  }

  lemma {:induction false} CutUnflagged(a: seq<Chunk>, s: seq<Chunk>)
    requires forall i | 0 <= i < |s| :: !s[i].isLastChunk
    ensures Cut(a + s) == Parsed(Cut(a).segs, Cut(a).open + s)
  {
    if s == [] {
      assert a + s == a;
    } else {
      var n := |s| - 1;
      CutUnflagged(a, s[..n]);
      CutSnoc(a + s[..n], s[n]);
      AppendSnoc(a, s);
      AppendSnoc(Cut(a).open, s);
    }
  }

  /** One file's worth of chunks: flagged at the end and only there. */
  ghost predicate FlaggedAtEnd(s: seq<Chunk>) {
    s != [] && forall i | 0 <= i < |s| :: s[i].isLastChunk <==> i == |s| - 1
  }

  lemma {:induction false} CutFlagged(a: seq<Chunk>, s: seq<Chunk>)
    requires FlaggedAtEnd(s)
    ensures Cut(a + s) == Parsed(Cut(a).segs + [Cut(a).open + s], [])
  {
    var n := |s| - 1;
    CutUnflagged(a, s[..n]);
    CutSnoc(a + s[..n], s[n]);
    AppendSnoc(a, s);
    AppendSnoc(Cut(a).open, s);
  }

  lemma {:induction false} SegmentFlags(s: seq<Chunk>)
    requires ValidSegment(s)
    ensures FlaggedAtEnd(s)
  {
  }

  lemma {:induction false} CutAppends(init: seq<seq<Chunk>>, last: seq<Chunk>)
    requires Cut(Flatten(init)) == Parsed(init, []) && FlaggedAtEnd(last)
    ensures Cut(Flatten(init) + last) == Parsed(init + [last], [])
  {
    CutFlagged(Flatten(init), last);
    assert [] + last == last;
  }

  /** Cutting recovers a segmentation that is flagged at the ends of its segments. */
  lemma {:induction false} CutFlatten(segs: seq<seq<Chunk>>)
    requires forall i | 0 <= i < |segs| :: FlaggedAtEnd(segs[i])
    ensures Cut(Flatten(segs)) == Parsed(segs, [])
  {
    if segs != [] {
      var init, last := segs[..|segs| - 1], segs[|segs| - 1];
      CutFlatten(init);
      CutAppends(init, last);
      assert segs == init + [last];
    }
  }

  lemma {:induction false} CutValidStream(huggingFace: bool, segs: seq<seq<Chunk>>)
    requires ValidStream(huggingFace, segs)
    ensures Cut(Flatten(segs)) == Parsed(segs, [])
  {
    forall i | 0 <= i < |segs| ensures FlaggedAtEnd(segs[i]) { SegmentFlags(segs[i]); }
    CutFlatten(segs);
  }

  lemma {:induction false} AcceptedIsGood(huggingFace: bool, disk: Disk, chunks: seq<Chunk>)
    ensures Accepted(huggingFace, disk, chunks) <==>
            Cut(chunks).open == [] && ValidStream(huggingFace, Cut(chunks).segs)
  {
    RunTracksParse(huggingFace, disk, chunks);
    ValidStreamIsGood(huggingFace, Cut(chunks).segs);
  }

  // ----- Main results

  /**
   The client accepts a chunk sequence if and only if it is a well-formed stream: whole
   files, each contiguous from zero to one constant size with its flag at the end.
   */
  lemma {:induction false} AcceptsExactlyValidStreams(huggingFace: bool, disk: Disk, chunks: seq<Chunk>)
    ensures Accepted(huggingFace, disk, chunks) <==>
            exists segs :: Flatten(segs) == chunks && ValidStream(huggingFace, segs)
  {
    AcceptedIsGood(huggingFace, disk, chunks);
    if Accepted(huggingFace, disk, chunks) {
      CutIsPartition(chunks);
      assert Flatten(Cut(chunks).segs) + [] == Flatten(Cut(chunks).segs);
    }
    if segs :| Flatten(segs) == chunks && ValidStream(huggingFace, segs) {
      CutValidStream(huggingFace, segs);
    }
  }

  /** On acceptance the disk holds each segment's bytes, and the first commit names the directory. */
  lemma {:induction false} AcceptedStreamInstalls(huggingFace: bool, disk: Disk, segs: seq<seq<Chunk>>)
    requires ValidStream(huggingFace, segs)
    ensures Receive(huggingFace, disk, Flatten(segs)) == Ok(segs[0][0].commitHash)
    ensures Run(huggingFace, disk, Flatten(segs)).value.disk == Install(disk, segs)
  {
    CutValidStream(huggingFace, segs);
    RunTracksParse(huggingFace, disk, Flatten(segs));
    ValidStreamIsGood(huggingFace, segs);
  }

  /** A chunk sequence splits into valid segments in at most one way. */
  lemma {:induction false} UniqueSegmentation(huggingFace: bool, a: seq<seq<Chunk>>, b: seq<seq<Chunk>>)
    requires ValidStream(huggingFace, a) && ValidStream(huggingFace, b)
    requires Flatten(a) == Flatten(b)
    ensures a == b
  {
    CutValidStream(huggingFace, a);
    CutValidStream(huggingFace, b);
  }

  lemma {:induction false} RunPrefix(huggingFace: bool, disk: Disk, a: seq<Chunk>, b: seq<Chunk>)
    ensures Run(huggingFace, disk, a).Err? ==> Run(huggingFace, disk, a + b) == Run(huggingFace, disk, a)
    decreases |b|
  {
    if b == [] {
      assert a + b == a;
    } else {
      var n := |b| - 1;
      RunPrefix(huggingFace, disk, a, b[..n]);
      assert (a + b)[..|a + b| - 1] == a + b[..n];
    }
  }

  /** No proper extension of an accepted stream is accepted, hence no proper prefix either. */
  lemma {:induction false} AcceptedStreamsArePrefixFree(huggingFace: bool, disk: Disk, a: seq<Chunk>, b: seq<Chunk>)
    requires Accepted(huggingFace, disk, a) && b != []
    ensures !Accepted(huggingFace, disk, a + b)
  {
    var step := a + [b[0]];
    assert step[..|a|] == a;
    assert Run(huggingFace, disk, step) == Err(ExtraAfterFinal);
    RunPrefix(huggingFace, disk, step, b[1..]);
    assert step + b[1..] == a + b;
  }

  /** A path finally holds the bytes of the last segment for it. */
  lemma {:induction false} InstalledFile(disk: Disk, segs: seq<seq<Chunk>>, j: nat)
    requires forall i | 0 <= i < |segs| :: segs[i] != []
    requires j < |segs| && forall k | j < k < |segs| :: segs[k][0].File() != segs[j][0].File()
    ensures segs[j][0].File() in Install(disk, segs)
    ensures Install(disk, segs)[segs[j][0].File()] == Data(segs[j])
  {
    var n := |segs| - 1;
    if j < n {
      assert segs[..n][j] == segs[j];
      InstalledFile(disk, segs[..n], j);
    }
  }

  /** Paths the stream does not mention are left as they were. */
  lemma {:induction false} OtherFilesUntouched(disk: Disk, segs: seq<seq<Chunk>>, path: FilePath)
    requires forall i | 0 <= i < |segs| :: segs[i] != [] && segs[i][0].File() != path
    ensures path in Install(disk, segs) <==> path in disk
    ensures path in disk ==> Install(disk, segs)[path] == disk[path]
  {
    if segs != [] {
      OtherFilesUntouched(disk, segs[..|segs| - 1], path);
    }
  }

  /** A segment carries exactly its advertised size, unless that size is `u64::MAX`. */
  lemma {:induction false} SegmentSize(s: seq<Chunk>)
    requires ValidSegment(s)
    ensures |Data(s)| >= s[0].totalSize
    ensures s[0].totalSize < U64_MAX ==> |Data(s)| == s[0].totalSize
  {
  }

  /** Three chunks, each no longer than a buffer can be, that together overrun `u64::MAX`. */
  function OverlongStream(): (s: seq<Chunk>)
    ensures |s| == 3
  {
    var half := 0x7FFF_FFFF_FFFF_FFFF;
    var piece := seq(half, _ => 0 as byte);
    [Chunk([Normal("f")], piece, 0, U64_MAX, false, true, None),
     Chunk([Normal("f")], piece, half, U64_MAX, false, true, None),
     Chunk([Normal("f")], [0, 0, 0], 2 * half, U64_MAX, true, true, None)]
  }

  lemma {:induction false} OverlongIsSegment()
    ensures ValidSegment(OverlongStream())
    ensures |Data(OverlongStream())| == U64_MAX + 2
  {
    var s := OverlongStream();
    var c0, c1, c2 := s[0], s[1], s[2];
    forall c | c in s ensures IsSafe(c.path) { assert c.path[0].Normal?; }
    DataSnoc([], c0);
    FitsSnoc([], c0);
    OpenSnoc([], c0);
    var one := [] + [c0];
    DataSnoc(one, c1);
    FitsSnoc(one, c1);
    OpenSnoc(one, c1);
    var two := one + [c1];
    DataSnoc(two, c2);
    FitsSnoc(two, c2);
    SegmentSnoc(two, c2);
    assert s == two + [c2];
  }

  lemma {:induction false} SingleSegmentAccepted(huggingFace: bool, disk: Disk, s: seq<Chunk>)
    requires ValidSegment(s) && EndsStream(s) && CanPrepare(huggingFace, s[0].commitHash)
    ensures Accepted(huggingFace, disk, s)
  {
    assert Flatten([s]) == Flatten([]) + s == s;
    assert ValidStream(huggingFace, [s]);
    AcceptsExactlyValidStreams(huggingFace, disk, s);
  }

  /** At that one size the guarantee fails: a longer file than advertised is accepted. */
  lemma {:induction false} SaturationAdmitsOverlongFile(disk: Disk)
    ensures Accepted(false, disk, OverlongStream())
    ensures |Data(OverlongStream())| == OverlongStream()[0].totalSize + 2
    ensures forall c | c in OverlongStream() :: |c.data| < 0x8000_0000_0000_0000
  {
    OverlongIsSegment();
    SingleSegmentAccepted(false, disk, OverlongStream());
  }

  // ----- The receive loop

  /** The files a stream is for. */
  ghost function Mentioned(chunks: seq<Chunk>): set<FilePath> {
    set i | 0 <= i < |chunks| :: chunks[i].File()
  }

  /** The refusals that come after the data is written. */
  predicate WrittenFirst(error: StreamError) {
    error == FinalChunkShort || error == CompletedWithoutFlag
  }

  /** What a refused chunk leaves on disk: nothing new, but for a file that was just created and for data that was written before the refusal. */
  function RefusedDisk(r: Receiver, c: Chunk, error: StreamError): Disk {
    if WrittenFirst(error) then Written(r, c)
    else if error == ExceedsSize && (r.current.None? || r.current.value.path != c.File()) then r.disk[c.File() := []]
    else r.disk
  }

  /** Append a chunk to the file it belongs to, checking the file's counters. */
  method AppendChunk(file: FileState, chunk: Chunk, disk0: Disk)
    returns (next: Result<FileState, StreamError>, disk: Disk)
    ensures next == WriteChunk(file, chunk)
    ensures disk == if next.Ok? || WrittenFirst(next.error)
                    then disk0[file.path := (if file.path in disk0 then disk0[file.path] else []) + chunk.data]
                    else disk0
  {
    disk := disk0;
    var state := file;
    if state.sawLastChunk {
      return Err(ExtraForCompleted), disk;
    }
    if chunk.totalSize != state.expectedSize {
      return Err(InconsistentSize), disk;
    }
    if chunk.offset != state.bytesWritten {
      return Err(UnexpectedOffset), disk;
    }
    var nextSize := SaturatingAdd(state.bytesWritten, |chunk.data|);
    if nextSize > state.expectedSize {
      return Err(ExceedsSize), disk;
    }
    var sofar := if file.path in disk then disk[file.path] else [];
    disk := disk[file.path := sofar + chunk.data];
    state := state.(bytesWritten := nextSize);
    if chunk.isLastChunk {
      if state.bytesWritten != state.expectedSize {
        return Err(FinalChunkShort), disk;
      }
      state := state.(sawLastChunk := true);
    } else if state.bytesWritten == state.expectedSize {
      return Err(CompletedWithoutFlag), disk;
    }
    return Ok(state), disk;
  }

  /** The disk once the chunk's file is open: as it was, or with a new empty file. */
  ghost function OpenedDisk(r: Receiver, c: Chunk): Disk {
    if r.current.Some? && r.current.value.path == c.File() then r.disk else r.disk[c.File() := []]
  }

  lemma {:induction false} AppendedDisk(r: Receiver, c: Chunk, f: FileState, ready: Disk)
    requires OpenFile(r, c) == Ok(f) && ready == OpenedDisk(r, c)
    ensures f.path == c.File()
    ensures Written(r, c) == ready[f.path := (if f.path in ready then ready[f.path] else []) + c.data]
    ensures WriteChunk(f, c).Err? && !WrittenFirst(WriteChunk(f, c).error) ==> ready == RefusedDisk(r, c, WriteChunk(f, c).error)
    ensures ready - {c.File()} == r.disk - {c.File()} && Written(r, c) - {c.File()} == r.disk - {c.File()}
  {
  }

  /** The loop body: validate one chunk and write it. */
  method ReceiveChunk(huggingFace: bool, r: Receiver, chunk: Chunk)
    returns (next: Result<Receiver, StreamError>, disk: Disk)
    ensures next == Step(huggingFace, r, chunk)
    ensures disk == if next.Ok? then next.value.disk else RefusedDisk(r, chunk, next.error)
    ensures disk - {chunk.File()} == r.disk - {chunk.File()}
  {
    disk := r.disk;
    var modelDir, currentFile := r.dir, r.current;
    if r.sawFinalChunk {
      return Err(ExtraAfterFinal), disk;
    }
    if modelDir.None? {
      if !CanPrepare(huggingFace, chunk.commitHash) {
        return Err(BadModelDir), disk;
      }
      modelDir := Some(chunk.commitHash);
    }
    if !IsSafe(chunk.path) {
      return Err(UnsafePath), disk;
    }
    if chunk.offset > chunk.totalSize {
      return Err(OffsetBeyondSize), disk;
    }

    var filePath := chunk.File();
    if currentFile.None? || currentFile.value.path != filePath {
      if currentFile.Some? && (!currentFile.value.sawLastChunk
                               || currentFile.value.bytesWritten != currentFile.value.expectedSize) {
        return Err(PreviousIncomplete), disk;
      }
      if chunk.offset != 0 {
        return Err(NonZeroFirstOffset), disk;
      }
      disk := disk[filePath := []];
      currentFile := Some(FileState(filePath, chunk.totalSize, 0, false));
    }

    var appended;
    ghost var ready := disk;
    appended, disk := AppendChunk(currentFile.value, chunk, disk);
    AppendedDisk(r, chunk, currentFile.value, ready);
    if appended.Err? {
      return Err(appended.error), disk;
    }
    return Ok(Receiver(modelDir, Some(appended.value), chunk.isLastFile && chunk.isLastChunk, disk)), disk;
  }

  lemma {:induction false} FrameWidens(a: Disk, b: Disk, chunks: seq<Chunk>, i: nat)
    requires i < |chunks| && a - {chunks[i].File()} == b - {chunks[i].File()}
    ensures a - Mentioned(chunks) == b - Mentioned(chunks)
  {
    var file := chunks[i].File();
    assert file in Mentioned(chunks);
    assert a - Mentioned(chunks) == (a - {file}) - Mentioned(chunks);
    assert b - Mentioned(chunks) == (b - {file}) - Mentioned(chunks);
  }

  method ReceiveChunks(huggingFace: bool, chunks: seq<Chunk>, disk0: Disk)
    returns (result: Result<Option<string>, StreamError>, disk: Disk)
    ensures result == Receive(huggingFace, disk0, chunks)
    ensures result.Ok? ==> disk == Run(huggingFace, disk0, chunks).value.disk
    ensures disk - Mentioned(chunks) == disk0 - Mentioned(chunks)
  {
    hide Step, RefusedDisk;
    var r := Start(disk0);
    var i := 0;
    while i < |chunks|
      invariant 0 <= i <= |chunks|
      invariant Run(huggingFace, disk0, chunks[..i]) == Ok(r)
      invariant r.disk - Mentioned(chunks) == disk0 - Mentioned(chunks)
    {
      var next;
      next, disk := ReceiveChunk(huggingFace, r, chunks[i]);
      FrameWidens(disk, r.disk, chunks, i);
      assert chunks[..i + 1][..i] == chunks[..i];
      if next.Err? {
        RunPrefix(huggingFace, disk0, chunks[..i + 1], chunks[i + 1..]);
        assert chunks == chunks[..i + 1] + chunks[i + 1..];
        return Err(next.error), disk;
      }
      r := next.value;
      i := i + 1;
    }
    assert chunks[..i] == chunks;
    disk := r.disk;
    if r.dir.None? {
      return Err(NoFiles), disk;
    }
    if !r.sawFinalChunk {
      return Err(NoFinalMarker), disk;
    }
    if r.current.Some? && (!r.current.value.sawLastChunk
                           || r.current.value.bytesWritten != r.current.value.expectedSize) {
      return Err(FinalIncomplete), disk;
    }
    return Ok(r.dir.value), disk;
  }

  /**
   Receiving a stream: success exactly on well-formed streams, with every segment's bytes
   in place; on success and on failure alike, no path outside the stream is touched.
   */
  method ReceiveStream(huggingFace: bool, chunks: seq<Chunk>, disk0: Disk)
    returns (result: Result<Option<string>, StreamError>, disk: Disk)
    ensures result.Ok? <==> exists segs :: Flatten(segs) == chunks && ValidStream(huggingFace, segs)
    ensures forall segs: seq<seq<Chunk>> | Flatten(segs) == chunks && ValidStream(huggingFace, segs) ::
              result == Ok(segs[0][0].commitHash) && disk == Install(disk0, segs)
    ensures disk - Mentioned(chunks) == disk0 - Mentioned(chunks)
  {
    result, disk := ReceiveChunks(huggingFace, chunks, disk0);
    AcceptsExactlyValidStreams(huggingFace, disk0, chunks);
    forall segs: seq<seq<Chunk>> | Flatten(segs) == chunks && ValidStream(huggingFace, segs)
      ensures result == Ok(segs[0][0].commitHash) && disk == Install(disk0, segs)
    {
      AcceptedStreamInstalls(huggingFace, disk0, segs);
    }
  }
}
