/**
 * The chunk files on disk: writing them (backend/open_webui/routers/audio.py:1103-1143),
 * transcribing them in order and removing them again (:1040-1081).
 */
module TranscribeAudio {
  import opened Basics
  import opened SplitAudio

  // ----- chunk paths -------------------------------------------------------------------------------

  const DIGITS := "0123456789"

  function Decimal(n: nat): (s: string)
    ensures |s| > 0
  {
    if n < 10 then [DIGITS[n]] else Decimal(n / 10) + [DIGITS[n % 10]]
  }

  lemma {:induction false} DecimalInjective(m: nat, n: nat)
    requires Decimal(m) == Decimal(n)
    ensures m == n
  {
    if m >= 10 || n >= 10 {
      var s := Decimal(m);
      assert s[|s| - 1] == DIGITS[m % 10] == DIGITS[n % 10];
      if m >= 10 && n >= 10 {
        assert Decimal(m / 10) == s[..|s| - 1] == Decimal(n / 10);
        DecimalInjective(m / 10, n / 10);
      }
    }
  }

  function ChunkPath(base: string, i: nat): string {
    base + "_chunk_" + Decimal(i) + ".mp3"
  }

  /** Different chunks are written to different paths. */
  lemma ChunkPathInjective(base: string, i: nat, j: nat)
    requires ChunkPath(base, i) == ChunkPath(base, j)
    ensures i == j
  {
    var head, tail := base + "_chunk_", ".mp3";
    var p := ChunkPath(base, i);
    assert p == head + Decimal(i) + tail && p == head + Decimal(j) + tail;
    assert Decimal(i) == p[|head|..|p| - |tail|] == Decimal(j);
    DecimalInjective(i, j);
  }

  /** `base` is the path without its extension, as os.path.splitext gives it. */
  predicate SplitsExtension(path: string, base: string) {
    base <= path && (|path| == |base| || path[|base|] == '.')
  }

  /** No chunk path is the path of the file being split. */
  lemma ChunkPathIsNew(path: string, base: string, i: nat)
    requires SplitsExtension(path, base)
    ensures ChunkPath(base, i) != path
  {
  }

  // ----- the disk ------------------------------------------------------------------------------------

  datatype File = Whole(bytes: nat) | Chunk(span: Span) | Other(name: string, bytes: nat)

  /** os.path.getsize. */
  function SizeOnDisk(file: File, size: SizeOf): nat {
    match file
    case Whole(bytes) => bytes
    case Chunk(span) => size(span.start, span.end)
    case Other(_, bytes) => bytes
  }

  class Disk {
    var files: map<string, File>

    constructor (files: map<string, File>)
      ensures this.files == files
    {
      this.files := files;
    }
  }

  function ChunkPaths(base: string, n: nat): seq<string> {
    seq(n, i requires 0 <= i < n => ChunkPath(base, i))
  }

  lemma ChunkPathsDiffer(base: string, n: nat)
    ensures NoRepeats(ChunkPaths(base, n))
  {
    var paths := ChunkPaths(base, n);
    forall i, j | 0 <= i < j < n ensures paths[i] != paths[j] {
      if ChunkPath(base, i) == ChunkPath(base, j) {
        ChunkPathInjective(base, i, j);
      }
    }
  }

  lemma ChunkPathsAreNew(path: string, base: string, n: nat)
    requires SplitsExtension(path, base)
    ensures path !in ChunkPaths(base, n)
  {
  }

  /** The files after writing these chunks at these paths. */
  function Written(files: map<string, File>, paths: seq<string>, spans: seq<Span>): map<string, File>
    requires |paths| == |spans|
  {
    if spans == [] then files
    else
      var n := |spans| - 1;
      Written(files, paths[..n], spans[..n])[paths[n] := Chunk(spans[n])]
  }

  /** Writing the chunks puts each at its own path and touches nothing else. */
  lemma {:induction false} WrittenHolds(files: map<string, File>, paths: seq<string>, spans: seq<Span>)
    requires |paths| == |spans| && NoRepeats(paths)
    ensures var written := Written(files, paths, spans);
      && (forall i :: 0 <= i < |spans| ==> paths[i] in written && written[paths[i]] == Chunk(spans[i]))
      && written - Elements(paths) == files - Elements(paths)
  {
    if spans != [] {
      var n := |spans| - 1;
      WrittenHolds(files, paths[..n], spans[..n]);
      var before, after := Written(files, paths[..n], spans[..n]), Written(files, paths, spans);
      assert after == before[paths[n] := Chunk(spans[n])];
      assert Elements(paths) == Elements(paths[..n]) + {paths[n]};
      assert after - Elements(paths) == before - Elements(paths[..n]) - {paths[n]};
      assert files - Elements(paths) == files - Elements(paths[..n]) - {paths[n]};
    }
  }

  // ----- split_audio ---------------------------------------------------------------------------------

  /** What a call of `split_audio` cuts. */
  function PlanOf(size: SizeOf, maxBytes: nat, duration: nat, fileSize: nat): Plan
    requires fileSize > 0
  {
    PlanFrom(size, maxBytes, ApproxChunk(duration, maxBytes, fileSize), duration, 0)
  }

  /** Writes one chunk, again and again until it fits or is short. */
  method ExportChunk(disk: Disk, chunkPath: string, size: SizeOf, maxBytes: nat, start: nat, first: nat)
    returns (end: nat, exports: nat)
    requires start < first
    modifies disk
    ensures end == Shrink(size, maxBytes, start, first) && start < end
    ensures exports == ShrinkExports(size, maxBytes, start, first)
    ensures disk.files == old(disk.files)[chunkPath := Chunk(Span(start, end))]
  {
    end, exports := first, 1;
    disk.files := disk.files[chunkPath := Chunk(Span(start, end))];
    while size(start, end) > maxBytes && end - start > 5000
      invariant start < end
      invariant disk.files == old(disk.files)[chunkPath := Chunk(Span(start, end))]
      invariant Shrink(size, maxBytes, start, end) == Shrink(size, maxBytes, start, first)
      invariant exports + ShrinkExports(size, maxBytes, start, end) == 1 + ShrinkExports(size, maxBytes, start, first)
      decreases end
    {
      end := start + (end - start) / 2;
      disk.files := disk.files[chunkPath := Chunk(Span(start, end))];
      exports := exports + 1;
    }
  }

  lemma WrittenMore(files: map<string, File>, paths: seq<string>, spans: seq<Span>, path: string, span: Span)
    requires |paths| == |spans|
    ensures Written(files, paths + [path], spans + [span]) == Written(files, paths, spans)[path := Chunk(span)]
  {
  }

  /** `whole` is `spans`, then what `rest` plans. */
  ghost predicate Extends(whole: Plan, spans: seq<Span>, exports: nat, rest: Plan) {
    whole == Plan(spans + rest.spans, rest.stuck, exports + rest.exports)
  }

  lemma ExtendsStart(whole: Plan)
    ensures Extends(whole, [], 0, whole)
  {
  }

  lemma ExtendsEnd(whole: Plan, spans: seq<Span>, exports: nat)
    requires Extends(whole, spans, exports, Plan([], None, 0))
    ensures whole == Plan(spans, None, exports)
  {
  }

  lemma ChunkPathsNext(base: string, n: nat)
    ensures ChunkPaths(base, n + 1) == ChunkPaths(base, n) + [ChunkPath(base, n)]
  {
  }

  lemma ExtendsStep(size: SizeOf, maxBytes: nat, approx: nat, duration: nat, start: nat, end: nat, whole: Plan,
                    spans: seq<Span>, exports: nat)
    requires approx > 0 && start < duration && end == Cut(size, maxBytes, approx, duration, start)
    requires Extends(whole, spans, exports, PlanFrom(size, maxBytes, approx, duration, start))
    ensures var n := ShrinkExports(size, maxBytes, start, Min(start + approx, duration));
      if size(start, end) > maxBytes then whole == Plan(spans, Some(Span(start, end)), exports + n)
      else Extends(whole, spans + [Span(start, end)], exports + n, PlanFrom(size, maxBytes, approx, duration, end))
  {
  }

  /** One chunk: exported, and removed again if even the shortest did not fit. */
  method CutOne(disk: Disk, path: string, size: SizeOf, maxBytes: nat, approx: nat, duration: nat, start: nat)
    returns (end: nat, n: nat, fits: bool)
    requires approx > 0 && start < duration
    modifies disk
    ensures end == Cut(size, maxBytes, approx, duration, start)
    ensures n == ShrinkExports(size, maxBytes, start, Min(start + approx, duration))
    ensures fits <==> size(start, end) <= maxBytes
    ensures disk.files == if fits then old(disk.files)[path := Chunk(Span(start, end))] else old(disk.files) - {path}
  {
    end, n := ExportChunk(disk, path, size, maxBytes, start, Min(start + approx, duration));
    fits := size(start, end) <= maxBytes;
    if !fits {
      disk.files := disk.files - {path};
      assert disk.files == old(disk.files) - {path};
    }
  }

  /**
   * The loop over the file.  None stands for the exception: the chunk that did not fit is removed
   * before it is raised, the chunks before it stay on disk.
   */
  method CutAll(disk: Disk, base: string, duration: nat, size: SizeOf, maxBytes: nat, approx: nat)
    returns (r: Option<seq<string>>, exports: nat)
    requires approx > 0
    modifies disk
    ensures
      var plan := PlanFrom(size, maxBytes, approx, duration, 0);
      var paths := ChunkPaths(base, |plan.spans|);
      var written := Written(old(disk.files), paths, plan.spans);
      && exports == plan.exports
      && r == (if plan.stuck.Some? then None else Some(paths))
      && disk.files == if plan.stuck.Some? then written - {ChunkPath(base, |plan.spans|)} else written
  {
    exports := 0;
    var chunks: seq<string> := [];
    var start, i := 0, 0;
    ghost var spans: seq<Span> := [];
    ghost var plan := PlanFrom(size, maxBytes, approx, duration, 0);
    ExtendsStart(plan);
    assert chunks == ChunkPaths(base, 0) && Written(disk.files, chunks, spans) == disk.files;
    while start < duration
      invariant start <= duration && i == |spans| == |chunks| && chunks == ChunkPaths(base, i)
      invariant disk.files == Written(old(disk.files), chunks, spans)
      invariant Extends(plan, spans, exports, PlanFrom(size, maxBytes, approx, duration, start))
      decreases duration - start
    {
      var chunkPath := ChunkPath(base, i);
      var end, n, fits := CutOne(disk, chunkPath, size, maxBytes, approx, duration, start);
      ExtendsStep(size, maxBytes, approx, duration, start, end, plan, spans, exports);
      exports := exports + n;
      if !fits {
        return None, exports;
      }
      WrittenMore(old(disk.files), chunks, spans, chunkPath, Span(start, end));
      ChunkPathsNext(base, i);
      chunks := chunks + [chunkPath];
      spans := spans + [Span(start, end)];
      start, i := end, i + 1;
    }
    ExtendsEnd(plan, spans, exports);
    return Some(chunks), exports;
  }

  method SplitFile(disk: Disk, path: string, base: string, duration: nat, size: SizeOf, maxBytes: nat)
    returns (r: Option<seq<string>>, exports: nat)
    requires path in disk.files
    modifies disk
    ensures SizeOnDisk(old(disk.files)[path], size) <= maxBytes ==>
      r == Some([path]) && disk.files == old(disk.files) && exports == 0
    ensures SizeOnDisk(old(disk.files)[path], size) > maxBytes ==>
      var fileSize := SizeOnDisk(old(disk.files)[path], size);
      var plan := PlanOf(size, maxBytes, duration, fileSize);
      var written := Written(old(disk.files), ChunkPaths(base, |plan.spans|), plan.spans);
      && exports == plan.exports
      && r == (if plan.stuck.Some? then None else Some(ChunkPaths(base, |plan.spans|)))
      && disk.files == if plan.stuck.Some? then written - {ChunkPath(base, |plan.spans|)} else written
  {
    var fileSize := SizeOnDisk(disk.files[path], size);
    if fileSize <= maxBytes {
      return Some([path]), 0;
    }
    r, exports := CutAll(disk, base, duration, size, maxBytes, ApproxChunk(duration, maxBytes, fileSize));
  }

  // ----- transcribe ----------------------------------------------------------------------------------

  /** The speech engine: the text of one file, or a failure. */
  type Engine = File -> Option<string>

  function Join(texts: seq<string>): string {
    if texts == [] then "" else if |texts| == 1 then texts[0] else Join(texts[..|texts| - 1]) + " " + texts[|texts| - 1]
  }

  function Texts(files: seq<File>, engine: Engine): Option<seq<string>> {
    if files == [] then Some([])
    else
      var front := Texts(files[..|files| - 1], engine);
      var last := engine(files[|files| - 1]);
      if front.Some? && last.Some? then Some(front.value + [last.value]) else None
  }

  lemma JoinOne(t: string)
    ensures Join([t]) == t
  {
  }

  lemma JoinLast(texts: seq<string>, last: string)
    requires texts != []
    ensures Join(texts + [last]) == Join(texts) + " " + last
  {
    assert (texts + [last])[..|texts|] == texts;
  }

  lemma SpacesBetween(p: string, q: string, r: string)
    ensures p + " " + q + " " + r == p + " " + (q + " " + r)
  {
  }

  lemma JoinMore(a: seq<string>, front: seq<string>, last: string)
    requires a != [] && front != [] && Join(a + front) == Join(a) + " " + Join(front)
    ensures Join(a + (front + [last])) == Join(a) + " " + Join(front + [last])
  {
    Regroup(a, front, [last]);
    JoinLast(a + front, last);
    JoinLast(front, last);
    SpacesBetween(Join(a), Join(front), last);
  }

  /** Joining puts one space between any two texts that follow each other. */
  lemma {:induction false} JoinSplits(a: seq<string>, b: seq<string>)
    requires a != [] && b != []
    ensures Join(a + b) == Join(a) + " " + Join(b)
  {
    if |b| == 1 {
      JoinLast(a, b[0]);
      assert b == [b[0]];
    } else {
      var front, last := b[..|b| - 1], b[|b| - 1];
      JoinSplits(a, front);
      JoinMore(a, front, last);
      assert b == front + [last];
    }
  }

  /** One text for each file, in order; None when some file has none. */
  lemma {:induction false} TextsAre(files: seq<File>, engine: Engine)
    ensures Texts(files, engine).Some? <==> forall i :: 0 <= i < |files| ==> engine(files[i]).Some?
    ensures Texts(files, engine).Some? ==>
      && |Texts(files, engine).value| == |files|
      && forall i :: 0 <= i < |files| ==> engine(files[i]) == Some(Texts(files, engine).value[i])
  {
    if files != [] {
      TextsAre(files[..|files| - 1], engine);
    }
  }

  /** The text of a whole recording. */
  function Transcript(pieces: seq<File>, engine: Engine): Option<string> {
    var texts := Texts(pieces, engine);
    if texts.Some? then Some(Join(texts.value)) else None
  }

  lemma {:induction false} TextsSplit(a: seq<File>, b: seq<File>, engine: Engine)
    ensures Texts(a + b, engine).Some? <==> Texts(a, engine).Some? && Texts(b, engine).Some?
    ensures Texts(a + b, engine).Some? ==>
      Texts(a + b, engine).value == Texts(a, engine).value + Texts(b, engine).value
  {
    if b == [] {
      assert a + b == a;
    } else {
      assert (a + b)[..|a + b| - 1] == a + b[..|b| - 1];
      TextsSplit(a, b[..|b| - 1], engine);
    }
  }

  /**
   * The transcript of no piece is empty, that of one piece is what the engine answers, and that of two
   * halves is their transcripts with a space between; it fails exactly when some piece does.
   */
  lemma TranscriptIs(p: File, a: seq<File>, b: seq<File>, engine: Engine)
    requires a != [] && b != []
    ensures Transcript([], engine) == Some("") && Transcript([p], engine) == engine(p)
    ensures Transcript(a, engine).Some? <==> forall i :: 0 <= i < |a| ==> engine(a[i]).Some?
    ensures Transcript(a + b, engine) ==
      match (Transcript(a, engine), Transcript(b, engine))
      case (Some(s), Some(t)) => Some(s + " " + t)
      case _ => None
  {
    assert [p][..0] == [];
    if engine(p).Some? {
      JoinOne(engine(p).value);
    }
    TextsAre(a, engine);
    TextsAre(b, engine);
    TextsSplit(a, b, engine);
    if Texts(a + b, engine).Some? {
      JoinSplits(Texts(a, engine).value, Texts(b, engine).value);
    }
  }

  /** What is transcribed, in order. */
  function Pieces(file: File, fileSize: nat, maxBytes: nat, plan: Plan): seq<File> {
    if fileSize <= maxBytes then [file] else seq(|plan.spans|, i requires 0 <= i < |plan.spans| => Chunk(plan.spans[i]))
  }

  /** A small file is transcribed whole; of a large one the pieces are the chunks, which tile the audio. */
  lemma PiecesAre(bytes: nat, size: SizeOf, maxBytes: nat, duration: nat)
    requires !Raises(SizeOnDisk(Whole(bytes), size), maxBytes, duration, size)
    ensures bytes <= maxBytes ==> forall plan :: Pieces(Whole(bytes), bytes, maxBytes, plan) == [Whole(bytes)]
    ensures bytes > maxBytes ==>
      var plan := PlanOf(size, maxBytes, duration, bytes);
      var pieces := Pieces(Whole(bytes), SizeOnDisk(Whole(bytes), size), maxBytes, plan);
      && Tiles(plan.spans, 0, duration) && |pieces| == |plan.spans|
      && (forall i :: 0 <= i < |pieces| ==> pieces[i] == Chunk(plan.spans[i]))
  {
    if bytes > maxBytes {
      ChunksCover(size, maxBytes, ApproxChunk(duration, maxBytes, bytes), duration, 0);
    }
  }

  lemma {:induction false} TextsFail(files: seq<File>, engine: Engine, n: nat)
    requires n <= |files| && Texts(files[..n], engine).None?
    ensures Texts(files, engine).None?
  {
    if n < |files| {
      assert files[..|files| - 1][..n] == files[..n];
      TextsFail(files[..|files| - 1], engine, n);
    } else {
      assert files[..n] == files;
    }
  }

  /** Reads the files in order and collects their texts; None at the first failure. */
  method Gather(disk: Disk, paths: seq<string>, engine: Engine, ghost pieces: seq<File>)
    returns (r: Option<seq<string>>)
    requires |pieces| == |paths|
    requires forall i :: 0 <= i < |paths| ==> paths[i] in disk.files && disk.files[paths[i]] == pieces[i]
    ensures r == Texts(pieces, engine)
  {
    var results: seq<string> := [];
    for i := 0 to |paths|
      invariant Texts(pieces[..i], engine) == Some(results)
    {
      var text := engine(disk.files[paths[i]]);
      assert pieces[..i + 1][..i] == pieces[..i];
      if text.None? {
        TextsFail(pieces, engine, i + 1);
        return None;
      }
      results := results + [text.value];
    }
    assert pieces[..|paths|] == pieces;
    return Some(results);
  }

  /** Removes the temporary files, never the original. */
  method RemoveChunks(disk: Disk, paths: seq<string>, original: string)
    modifies disk
    ensures disk.files == old(disk.files) - (Elements(paths) - {original})
  {
    for i := 0 to |paths|
      invariant disk.files == old(disk.files) - (Elements(paths[..i]) - {original})
    {
      assert Elements(paths[..i + 1]) == Elements(paths[..i]) + {paths[i]};
      if paths[i] != original && paths[i] in disk.files {
        disk.files := disk.files - {paths[i]};
      }
    }
    assert paths[..|paths|] == paths;
  }

  /** Whether `split_audio` raises. */
  function Raises(fileSize: nat, maxBytes: nat, duration: nat, size: SizeOf): bool {
    fileSize > maxBytes && PlanOf(size, maxBytes, duration, fileSize).stuck.Some?
  }

  // ----- exactly when chunks are left behind ---------------------------------------------------------

  ghost predicate SomeChunk(files: map<string, File>, base: string) {
    exists i: nat :: ChunkPath(base, i) in files
  }

  /** The file is too large, its first chunk can be made to fit, and a later one that is reached cannot. */
  ghost predicate LeavesChunks(fileSize: nat, maxBytes: nat, duration: nat, size: SizeOf) {
    fileSize > maxBytes &&
    exists cuts ::
      BlockedAfter(size, maxBytes, ApproxChunk(duration, maxBytes, fileSize), duration, 0, cuts) && |cuts| > 1
  }

  lemma ChunksStayIff(files: map<string, File>, base: string, spans: seq<Span>)
    requires !SomeChunk(files, base)
    ensures SomeChunk(Written(files, ChunkPaths(base, |spans|), spans) - {ChunkPath(base, |spans|)}, base) <==>
      spans != []
  {
    var paths := ChunkPaths(base, |spans|);
    ChunkPathsDiffer(base, |spans|);
    WrittenHolds(files, paths, spans);
    if spans != [] {
      if ChunkPath(base, 0) == ChunkPath(base, |spans|) {
        ChunkPathInjective(base, 0, |spans|);
      }
      assert paths[0] == ChunkPath(base, 0);
    }
  }

  lemma LeftoversIff(files: map<string, File>, base: string, fileSize: nat, maxBytes: nat, duration: nat, size: SizeOf)
    requires !SomeChunk(files, base) && Raises(fileSize, maxBytes, duration, size)
    ensures var spans := PlanOf(size, maxBytes, duration, fileSize).spans;
      SomeChunk(Written(files, ChunkPaths(base, |spans|), spans) - {ChunkPath(base, |spans|)}, base) <==>
      LeavesChunks(fileSize, maxBytes, duration, size)
  {
    GivesUpIff(size, maxBytes, ApproxChunk(duration, maxBytes, fileSize), duration);
    ChunksStayIff(files, base, PlanOf(size, maxBytes, duration, fileSize).spans);
  }

  /** The first second fits and nothing later does: splitting raises and that chunk stays. */
  lemma EarlierChunkStays() returns (size: SizeOf)
    ensures PlanOf(size, 50, 3000, 100) == Plan([Span(0, 1000)], Some(Span(1000, 2000)), 2)
    ensures Raises(100, 50, 3000, size) && LeavesChunks(100, 50, 3000, size)
  {
    size := (s, e) => if s == 0 then 10 else 100;
    assert ApproxChunk(3000, 50, 100) == 1000;
    assert Cut(size, 50, 1000, 3000, 0) == 1000 && Cut(size, 50, 1000, 3000, 1000) == 2000;
    assert PlanFrom(size, 50, 1000, 3000, 1000) == Plan([], Some(Span(1000, 2000)), 1);
    GivesUpIff(size, 50, 1000, 3000);
  }

  /** Nothing fits: splitting raises too, but leaves nothing. */
  lemma RaisingMayLeaveNothing() returns (size: SizeOf)
    ensures Raises(100, 50, 3000, size) && !LeavesChunks(100, 50, 3000, size)
  {
    size := (s, e) => 100;
    assert ApproxChunk(3000, 50, 100) == 1000;
    assert PlanFrom(size, 50, 1000, 3000, 0) == Plan([], Some(Span(0, 1000)), 1);
    GivesUpIff(size, 50, 1000, 3000);
  }

  /**
   * The text is that of the pieces in order, joined by spaces, and fails exactly when splitting
   * raises or some piece fails.  Unless splitting raises, the only trace on disk is that nothing is
   * left at the chunk paths; if it raises, the chunks written before stay.  So on a disk without chunks
   * some are there afterwards exactly when the first could be made to fit and a later one could not.
   */
  method Transcribe(disk: Disk, path: string, base: string, duration: nat, size: SizeOf, maxBytes: nat, engine: Engine)
    returns (r: Option<string>)
    requires path in disk.files && SplitsExtension(path, base)
    modifies disk
    ensures var fileSize := SizeOnDisk(old(disk.files)[path], size);
      Raises(fileSize, maxBytes, duration, size) ==>
      var spans := PlanOf(size, maxBytes, duration, fileSize).spans;
      r == None && disk.files == Written(old(disk.files), ChunkPaths(base, |spans|), spans) - {ChunkPath(base, |spans|)}
    ensures var fileSize := SizeOnDisk(old(disk.files)[path], size);
      !Raises(fileSize, maxBytes, duration, size) ==>
      var plan := if fileSize > maxBytes then PlanOf(size, maxBytes, duration, fileSize) else Plan([], None, 0);
      && r == Transcript(Pieces(old(disk.files)[path], fileSize, maxBytes, plan), engine)
      && disk.files == old(disk.files) - Elements(ChunkPaths(base, |plan.spans|))
    ensures !SomeChunk(old(disk.files), base) ==>
      (SomeChunk(disk.files, base) <==>
       LeavesChunks(SizeOnDisk(old(disk.files)[path], size), maxBytes, duration, size))
  {
    ghost var before := disk.files;
    ghost var fileSize := SizeOnDisk(before[path], size);
    if fileSize > maxBytes {
      GivesUpIff(size, maxBytes, ApproxChunk(duration, maxBytes, fileSize), duration);
    }
    var paths, _ := SplitFile(disk, path, base, duration, size, maxBytes);
    if paths.None? {
      if !SomeChunk(before, base) {
        LeftoversIff(before, base, fileSize, maxBytes, duration, size);
      }
      return None;
    }
    ghost var plan := if fileSize > maxBytes then PlanOf(size, maxBytes, duration, fileSize) else Plan([], None, 0);
    ghost var pieces := Pieces(before[path], fileSize, maxBytes, plan);
    ChunkPathsDiffer(base, |plan.spans|);
    WrittenHolds(before, ChunkPaths(base, |plan.spans|), plan.spans);
    var results := Gather(disk, paths.value, engine, pieces);
    RemoveChunks(disk, paths.value, path);
    ChunkPathsAreNew(path, base, |plan.spans|);
    assert Elements(ChunkPaths(base, |plan.spans|)) - {path} == Elements(ChunkPaths(base, |plan.spans|));
    if results.None? {
      return None;
    }
    return Some(Join(results.value));
  }
}
