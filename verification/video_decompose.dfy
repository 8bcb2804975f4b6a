/** decompose_video in video_decompose.cpp: every rank filters its own range of the
    decoded frames into a segment file `<video>_part_<rank>.avi`; after the barrier the
    master lists the segments in `concat_list.txt`, has ffmpeg concatenate them into
    `<video>_processed.avi`, removes the segments and the list, and renames the result
    over the input.

    OpenCV's decoder and encoder, the GPU kernels and ffmpeg are outside the model:
    the decoded frames, the GPU's result for each frame and whether ffmpeg succeeds are
    given. A segment file holds the frames handed to its writer, and a successful
    ffmpeg run holds the listed segments' frames one after the other. */
module VideoDecompose {
  import opened Common
  import opened Storage
  import opened FrameRanges
  import opened Filters

  // ---------------------------------------------------------------------------
  // get_filter_type

  /** The task name that selects each filter (FILTER_NONE has none). */
  function TaskName(f: FilterKind): string
  {
    match f
    case NoFilter => ""
    case Grayscale => "grayscale"
    case Blur => "blur"
    case Invert => "invert"
    case Edge => "edge"
  }

  /** `get_filter_type(task)`: the id of the filter whose name is `task`, or
      FILTER_NONE for every other string. */
  function FilterForTask(task: string): (id: int)
    ensures 0 <= id <= 4
  {
    if task == "invert" then FilterId(Invert)
    else if task == "grayscale" then FilterId(Grayscale)
    else if task == "blur" then FilterId(Blur)
    else if task == "edge" then FilterId(Edge)
    else FilterId(NoFilter)
  }

  /** A task selects a real filter exactly when it is that filter's name. */
  lemma FilterForTaskNames(task: string, f: FilterKind)
    requires f != NoFilter
    ensures FilterForTask(task) == FilterId(f) <==> task == TaskName(f)
  {
  }

  /** Every string that is not one of the four names selects no filter. */
  lemma UnknownTaskSelectsNone(task: string)
    requires forall f :: f != NoFilter ==> task != TaskName(f)
    ensures FilterForTask(task) == FilterId(NoFilter)
  {
    assert task != TaskName(Invert) && task != TaskName(Grayscale);
    assert task != TaskName(Blur) && task != TaskName(Edge);
  }

  // ---------------------------------------------------------------------------
  // File names

  const ConcatList: string := "concat_list.txt"

  /** `string(video_file) + "_part_" + to_string(rank) + ".avi"`. */
  function SegmentName(video: string, rank: nat): string
  {
    video + "_part_" + NatToString(rank) + ".avi"
  }

  /** `string(video_file) + "_processed.avi"`. */
  function MergedName(video: string): string
  {
    video + "_processed.avi"
  }

  /** `fprintf(f, "file '%s_part_%d.avi'\n", video_file, r)`, without the newline. */
  function ManifestLine(video: string, rank: nat): string
  {
    "file '" + video + "_part_" + NatToString(rank) + ".avi'"
  }

  /** The first k lines the master writes to the list. */
  function Manifest(video: string, k: nat): (r: seq<string>)
    ensures |r| == k
  {
    seq(k, r requires 0 <= r < k => ManifestLine(video, r))
  }

  /** How ffmpeg's concat demuxer reads a `file '<path>'` line. */
  function ParseManifestLine(line: string): (r: Option<string>)
    ensures r.Some? ==> line == "file '" + r.value + "'"
  {
    if 7 <= |line| && line[..6] == "file '" && line[|line| - 1] == '\'' then Some(line[6..|line| - 1]) else None
  }

  /** The list names exactly the file each rank wrote: `%d` and `to_string` print a
      rank the same way. */
  lemma ManifestNamesSegment(video: string, rank: nat)
    ensures ParseManifestLine(ManifestLine(video, rank)) == Some(SegmentName(video, rank))
  {
    var line := ManifestLine(video, rank);
    assert line == "file '" + SegmentName(video, rank) + "'";
    assert line[..6] == "file '";
    assert line[6..|line| - 1] == SegmentName(video, rank);
  }

  /** Different ranks write different segment files. */
  lemma SegmentNamesDistinct(video: string, a: nat, b: nat)
    requires SegmentName(video, a) == SegmentName(video, b)
    ensures a == b
  {
    var sa, sb := SegmentName(video, a), SegmentName(video, b);
    var na, nb := NatToString(a), NatToString(b);
    assert |na| == |nb|;
    assert sa[|video| + 6..|sa| - 4] == na;
    assert sb[|video| + 6..|sb| - 4] == nb;
    NatToStringInjective(a, b);
  }

  /** The list, the segments and the merged output are distinct files. */
  lemma NamesDistinct(video: string, rank: nat)
    ensures SegmentName(video, rank) != ConcatList
    ensures MergedName(video) != ConcatList
    ensures MergedName(video) != SegmentName(video, rank)
    ensures video != SegmentName(video, rank) && video != MergedName(video)
  {
    var s, m := SegmentName(video, rank), MergedName(video);
    assert s[|s| - 1] == 'i' && m[|m| - 1] == 'i' && ConcatList[|ConcatList| - 1] == 't';
    assert s[|video| + 2] == 'a' && m[|video| + 2] == 'r';
  }

  // ---------------------------------------------------------------------------
  // One rank's segment

  /** What the master's `VideoCapture` reports and broadcasts. */
  datatype VideoMeta = VideoMeta(totalFrames: int, width: int, height: int)

  /** The input as OpenCV decodes it: whether it opens, and the frames `cap >> frame`
      yields one after the other (an empty frame is an empty sequence). */
  datatype VideoSource = VideoSource(opens: bool, frames: seq<seq<Byte>>)

  /** `apply_filter_gpu` for the frame numbered i: None when it returns a negative
      time, otherwise the frame it leaves. */
  datatype GpuEnv = GpuEnv(available: bool, run: (int, seq<Byte>) -> Option<seq<Byte>>)

  /** One call of `decompose_video`, with everything the environment provides. */
  datatype Job = Job(video: string, task: string, procs: int, meta: VideoMeta,
                     source: VideoSource, gpu: GpuEnv, ops: FloatOps, ffmpegOk: bool)

  /** The frame read at position i; reading past the end yields an empty frame. */
  function FrameAt(frames: seq<seq<Byte>>, i: int): seq<Byte>
  {
    if 0 <= i < |frames| then frames[i] else []
  }

  /** What the filters rely on: non-negative dimensions, and every decoded frame holds
      at least `width * height * 3` bytes. */
  predicate ValidJob(job: Job)
  {
    job.procs > 0 && 0 <= job.meta.width && 0 <= job.meta.height &&
    forall i :: 0 <= i < |job.source.frames| && job.source.frames[i] != [] ==>
      FrameSize(job.meta.width, job.meta.height) <= |job.source.frames[i]|
  }

  /** The frame the writer receives for input frame i: unchanged for FILTER_NONE, the
      GPU's result when the GPU is used and succeeds, and otherwise the CPU filter. */
  function Processed(job: Job, i: int, f: seq<Byte>): seq<Byte>
    requires 0 <= job.meta.width && 0 <= job.meta.height && FrameSize(job.meta.width, job.meta.height) <= |f|
  {
    var filterType := FilterForTask(job.task);
    if filterType == FilterId(NoFilter) then f
    else if job.gpu.available && job.gpu.run(i, f).Some? then job.gpu.run(i, f).value
    else FilterResult(filterType, f, job.meta.width, job.meta.height, job.ops)
  }

  /** Without a usable GPU result the frame is exactly the CPU filter's output. */
  lemma CpuPathIsFilter(job: Job, i: int, f: seq<Byte>)
    requires 0 <= job.meta.width && 0 <= job.meta.height && FrameSize(job.meta.width, job.meta.height) <= |f|
    requires !job.gpu.available || job.gpu.run(i, f).None?
    ensures Processed(job, i, f) == FilterResult(FilterForTask(job.task), f, job.meta.width, job.meta.height, job.ops)
  {
    if FilterForTask(job.task) == FilterId(NoFilter) {
      UnknownChoiceLeavesFrame(0, f, job.meta.width, job.meta.height, job.ops);
    }
  }

  /** How many frames the loop from i to end reads before it meets an empty one. */
  function ReadCount(frames: seq<seq<Byte>>, i: int, end: int): (n: nat)
    ensures n == 0 || i + n <= end
    ensures forall k :: i <= k < i + n ==> FrameAt(frames, k) != []
    ensures i + n < end ==> FrameAt(frames, i + n) == []
    decreases end - i
  {
    if i >= end || FrameAt(frames, i) == [] then 0 else 1 + ReadCount(frames, i + 1, end)
  }

  /** With no empty frame in [i, end) the loop reads all of them. */
  lemma ReadCountFull(frames: seq<seq<Byte>>, i: int, end: int)
    requires i <= end && forall k :: i <= k < end ==> FrameAt(frames, k) != []
    ensures ReadCount(frames, i, end) == end - i
  {
    var n := ReadCount(frames, i, end);
    if i + n < end {
      assert false;
    }
  }

  /** The frames written for input frames start .. start + n - 1. */
  function Processing(job: Job, start: int, n: nat): (r: seq<seq<Byte>>)
    requires ValidJob(job)
    requires forall k :: start <= k < start + n ==> FrameAt(job.source.frames, k) != []
    ensures |r| == n
  {
    seq(n, k requires 0 <= k < n => Processed(job, start + k, FrameAt(job.source.frames, start + k)))
  }

  /** The frames rank `rank` writes to its segment: its range, up to the first empty frame. */
  function SegmentFrames(job: Job, rank: int): seq<seq<Byte>>
    requires ValidJob(job) && ValidRank(rank, job.procs)
  {
    var total := job.meta.totalFrames;
    var s := StartFrame(rank, job.procs, total);
    Processing(job, s, ReadCount(job.source.frames, s, EndFrame(rank, job.procs, total)))
  }

  /** The result and files one rank's part of `decompose_video` leaves before the
      barrier: 0 and nothing written when the frame count is not positive, the video
      does not open, or the segment file cannot be created. */
  function SegmentOutcome(files: map<string, Content>, unwritable: set<string>, job: Job, rank: int): (int, map<string, Content>)
    requires ValidJob(job) && ValidRank(rank, job.procs)
  {
    if job.meta.totalFrames <= 0 || !job.source.opens || SegmentName(job.video, rank) in unwritable then (0, files)
    else (1, files[SegmentName(job.video, rank) := Frames(SegmentFrames(job, rank))])
  }

  /** The segment holds at most its range's frames, every one of them filtered from the
      input frame at the same position, and all of them when no frame in the range is
      empty. */
  lemma SegmentIsFilteredRange(job: Job, rank: int)
    requires ValidJob(job) && ValidRank(rank, job.procs) && job.meta.totalFrames > 0
    ensures var total := job.meta.totalFrames;
      var s, e := StartFrame(rank, job.procs, total), EndFrame(rank, job.procs, total);
      var seg := SegmentFrames(job, rank);
      |seg| <= e - s &&
      (forall k :: 0 <= k < |seg| ==> seg[k] == Processed(job, s + k, FrameAt(job.source.frames, s + k))) &&
      ((forall i :: s <= i < e ==> FrameAt(job.source.frames, i) != []) ==> |seg| == e - s)
  {
    var total := job.meta.totalFrames;
    var s, e := StartFrame(rank, job.procs, total), EndFrame(rank, job.procs, total);
    RangeWellFormed(rank, job.procs, total);
    if forall i :: s <= i < e ==> FrameAt(job.source.frames, i) != [] {
      ReadCountFull(job.source.frames, s, e);
    }
  }

  /** `cap >> frame` meeting an empty frame ends the segment there: nothing after it is
      written, even when later frames of the range are not empty. */
  lemma SegmentStopsAtEmptyFrame(job: Job, rank: int, j: int)
    requires ValidJob(job) && ValidRank(rank, job.procs) && job.meta.totalFrames > 0
    requires StartFrame(rank, job.procs, job.meta.totalFrames) <= j < EndFrame(rank, job.procs, job.meta.totalFrames)
    requires FrameAt(job.source.frames, j) == []
    ensures |SegmentFrames(job, rank)| <= j - StartFrame(rank, job.procs, job.meta.totalFrames)
  {
  }

  /** The body of the frame loop after `cap >> frame`: the filter (GPU first, the CPU
      as fallback) applied in place to the frame's bytes. */
  method TransformFrame(job: Job, filterType: int, useGpu: bool, i: int, frame: seq<Byte>) returns (out: seq<Byte>)
    requires 0 <= job.meta.width && 0 <= job.meta.height && FrameSize(job.meta.width, job.meta.height) <= |frame|
    requires filterType == FilterForTask(job.task) && useGpu == job.gpu.available
    ensures out == Processed(job, i, frame)
  {
    if filterType == FilterId(NoFilter) {
      return frame;
    }
    if useGpu {
      var time := job.gpu.run(i, frame);
      if time.Some? {
        return time.value;
      }
    }
    var data := new Byte[|frame|](k requires 0 <= k < |frame| => frame[k]);
    assert data[..] == frame;
    ApplyFilterCpu(filterType, data, job.meta.width, job.meta.height, job.ops);
    out := data[..];
  }

  /** Everything `decompose_video` does on one rank before the barrier. */
  method DecomposeSegment(fs: FileSystem, job: Job, rank: int) returns (status: int)
    requires ValidJob(job) && ValidRank(rank, job.procs)
    modifies fs
    ensures (status, fs.files) == SegmentOutcome(old(fs.files), old(fs.unwritable), job, rank)
    ensures fs.free == old(fs.free) && fs.unwritable == old(fs.unwritable)
  {
    var totalFrames := job.meta.totalFrames;
    if totalFrames <= 0 {
      return 0;
    }
    var framesPerRank := totalFrames / job.procs;
    var startFrame := rank * framesPerRank;
    var endFrame := if rank == job.procs - 1 then totalFrames else startFrame + framesPerRank;
    assert startFrame == StartFrame(rank, job.procs, totalFrames);
    assert endFrame == EndFrame(rank, job.procs, totalFrames);
    RangeWellFormed(rank, job.procs, totalFrames);
    if !job.source.opens {
      return 0;
    }
    var outputFilename := job.video + "_part_" + NatToString(rank) + ".avi";
    assert outputFilename == SegmentName(job.video, rank);
    var writerOpen := fs.CreateVideo(outputFilename);
    if !writerOpen {
      return 0;
    }
    var written := ReadFrames(job, startFrame, endFrame);
    fs.StoreFrames(outputFilename, written);
    assert fs.files == old(fs.files)[outputFilename := Frames(written)];
    return 1;
  }

  /** The frame loop: `cap >> frame` for i from start to end, stopping at the first
      empty frame; each frame read is filtered and handed to the writer. */
  method ReadFrames(job: Job, startFrame: int, endFrame: int) returns (written: seq<seq<Byte>>)
    requires ValidJob(job) && startFrame <= endFrame
    ensures written == Processing(job, startFrame, ReadCount(job.source.frames, startFrame, endFrame))
  {
    var filterType := FilterForTask(job.task);
    var useGpu := job.gpu.available;
    var frames := job.source.frames;
    written := [];
    var i := startFrame;
    while i < endFrame
      invariant startFrame <= i <= endFrame
      invariant ReadCount(frames, startFrame, endFrame) == (i - startFrame) + ReadCount(frames, i, endFrame)
      invariant forall k :: startFrame <= k < i ==> FrameAt(frames, k) != []
      invariant written == Processing(job, startFrame, i - startFrame)
    {
      var frame := FrameAt(frames, i);
      if frame == [] {
        break;
      }
      var out := TransformFrame(job, filterType, useGpu, i, frame);
      written := written + [out];
      i := i + 1;
    }
  }

  // ---------------------------------------------------------------------------
  // The master's merge

  /** What ffmpeg's concat demuxer produces from a list: the listed files' frames one
      after the other, or None when a line does not parse or names a file that is
      missing or holds no video. */
  function ConcatListed(files: map<string, Content>, lines: seq<string>): Option<seq<seq<Byte>>>
  {
    if lines == [] then Some([])
    else
      match ConcatListed(files, lines[..|lines| - 1])
      case None => None
      case Some(prev) =>
        match ParseManifestLine(lines[|lines| - 1])
        case None => None
        case Some(path) =>
          if path in files && files[path].Frames? then Some(prev + files[path].frames) else None
  }

  /** The segment names of ranks 0 .. k - 1. */
  function SegmentNames(video: string, k: nat): set<string>
  {
    set r: nat | r < k :: SegmentName(video, r)
  }

  /** The files after the master's merge: the list written, ffmpeg's output (when it
      succeeds), the segments and the list removed, and the output renamed over the
      input (a rename of a missing output changes nothing). */
  function MergedFiles(files: map<string, Content>, video: string, procs: nat, ffmpegOk: bool): map<string, Content>
  {
    var listed := files[ConcatList := Lines(Manifest(video, procs))];
    var concat := ConcatListed(listed, Manifest(video, procs));
    var encoded := if ffmpegOk && concat.Some? then listed[MergedName(video) := Frames(concat.value)] else listed;
    var cleaned := encoded - SegmentNames(video, procs) - {ConcatList};
    if MergedName(video) in cleaned then (cleaned - {MergedName(video)})[video := cleaned[MergedName(video)]]
    else cleaned
  }

  method WriteManifest(fs: FileSystem, video: string, procs: nat)
    modifies fs
    ensures fs.files == old(fs.files)[ConcatList := Lines(Manifest(video, procs))]
    ensures fs.free == old(fs.free) && fs.unwritable == old(fs.unwritable)
  {
    var concatList := ConcatList;
    fs.CreateText(concatList);
    for r := 0 to procs
      invariant fs.files == old(fs.files)[ConcatList := Lines(Manifest(video, r))]
      invariant fs.free == old(fs.free) && fs.unwritable == old(fs.unwritable)
    {
      fs.AppendLine(concatList, "file '" + video + "_part_" + NatToString(r) + ".avi'");
      assert Manifest(video, r) + [ManifestLine(video, r)] == Manifest(video, r + 1);
    }
  }

  method RemoveSegments(fs: FileSystem, video: string, procs: nat)
    modifies fs
    ensures fs.files == old(fs.files) - SegmentNames(video, procs)
    ensures fs.free == old(fs.free) && fs.unwritable == old(fs.unwritable)
  {
    for r := 0 to procs
      invariant fs.files == old(fs.files) - SegmentNames(video, r)
      invariant fs.free == old(fs.free) && fs.unwritable == old(fs.unwritable)
    {
      var part := video + "_part_" + NatToString(r) + ".avi";
      assert part == SegmentName(video, r);
      fs.Remove(part);
      assert SegmentNames(video, r + 1) == SegmentNames(video, r) + {part};
    }
  }

  /** The master's part after the barrier: list, ffmpeg, cleanup, rename. */
  method MergeSegments(fs: FileSystem, video: string, procs: nat, ffmpegOk: bool)
    modifies fs
    ensures fs.files == MergedFiles(old(fs.files), video, procs, ffmpegOk)
    ensures fs.free == old(fs.free) && fs.unwritable == old(fs.unwritable)
  {
    WriteManifest(fs, video, procs);
    var mergedOutput := video + "_processed.avi";
    var concat := ConcatListed(fs.files, fs.files[ConcatList].lines);
    if ffmpegOk && concat.Some? {
      fs.StoreFrames(mergedOutput, concat.value);
    }
    RemoveSegments(fs, video, procs);
    fs.Remove(ConcatList);
    var renamed := fs.Rename(mergedOutput, video);
  }

  /** `decompose_video` on one rank. `others` are the files the other ranks have
      written by the time every rank reaches the barrier; only the master merges. */
  method DecomposeVideo(fs: FileSystem, job: Job, rank: int, others: map<string, Content>) returns (status: int)
    requires ValidJob(job) && ValidRank(rank, job.procs)
    modifies fs
    ensures var (s, files) := SegmentOutcome(old(fs.files), old(fs.unwritable), job, rank);
      status == s &&
      fs.files == if s == 0 then files
                  else if rank == 0 then MergedFiles(files + others, job.video, job.procs, job.ffmpegOk)
                  else files + others
    ensures fs.free == old(fs.free) && fs.unwritable == old(fs.unwritable)
  {
    status := DecomposeSegment(fs, job, rank);
    if status == 0 {
      return;
    }
    fs.ShareFiles(others);
    if rank == 0 {
      MergeSegments(fs, job.video, job.procs, job.ffmpegOk);
    }
  }

  // ---------------------------------------------------------------------------
  // End to end

  /** Every input frame in [0, total), each filtered. */
  function WholeProcessed(job: Job): (r: seq<seq<Byte>>)
    requires ValidJob(job) && 0 <= job.meta.totalFrames
    requires forall i :: 0 <= i < job.meta.totalFrames ==> FrameAt(job.source.frames, i) != []
    ensures |r| == job.meta.totalFrames
  {
    Processing(job, 0, job.meta.totalFrames)
  }

  /** With no empty frame, rank r's segment is its range of the filtered video. */
  lemma SegmentIsSliceOfWhole(job: Job, rank: int)
    requires ValidJob(job) && ValidRank(rank, job.procs) && job.meta.totalFrames > 0
    requires forall i :: 0 <= i < job.meta.totalFrames ==> FrameAt(job.source.frames, i) != []
    ensures var total := job.meta.totalFrames;
      0 <= StartFrame(rank, job.procs, total) <= EndFrame(rank, job.procs, total) <= total &&
      SegmentFrames(job, rank) == WholeProcessed(job)[StartFrame(rank, job.procs, total)..EndFrame(rank, job.procs, total)]
  {
    var total := job.meta.totalFrames;
    var s, e := StartFrame(rank, job.procs, total), EndFrame(rank, job.procs, total);
    RangeWellFormed(rank, job.procs, total);
    ReadCountFull(job.source.frames, s, e);
  }

  /** Reading the list back gives the first k segments concatenated in rank order. */
  lemma {:induction false} ConcatOfSegments(job: Job, files: map<string, Content>, k: int)
    requires ValidJob(job) && job.meta.totalFrames > 0 && 0 <= k <= job.procs
    requires forall i :: 0 <= i < job.meta.totalFrames ==> FrameAt(job.source.frames, i) != []
    requires forall r :: 0 <= r < job.procs ==>
      SegmentName(job.video, r) in files && files[SegmentName(job.video, r)] == Frames(SegmentFrames(job, r))
    ensures ConcatListed(files, Manifest(job.video, k)) ==
      Some(Gathered(WholeProcessed(job), job.procs, job.meta.totalFrames, k))
  {
    if k > 0 {
      var lines := Manifest(job.video, k);
      assert lines[..k - 1] == Manifest(job.video, k - 1);
      ConcatOfSegments(job, files, k - 1);
      ManifestNamesSegment(job.video, k - 1);
      SegmentIsSliceOfWhole(job, k - 1);
    }
  }

  /** When every rank wrote its segment and no input frame is empty, a successful
      ffmpeg run leaves at the input's path every input frame, filtered, in order, and
      removes the segments and the list. */
  lemma MergedVideoIsFilteredInput(job: Job, files: map<string, Content>)
    requires ValidJob(job) && job.meta.totalFrames > 0 && job.ffmpegOk && job.video != ConcatList
    requires forall i :: 0 <= i < job.meta.totalFrames ==> FrameAt(job.source.frames, i) != []
    requires forall r :: 0 <= r < job.procs ==>
      SegmentName(job.video, r) in files && files[SegmentName(job.video, r)] == Frames(SegmentFrames(job, r))
    ensures var result := MergedFiles(files, job.video, job.procs, true);
      job.video in result && result[job.video] == Frames(WholeProcessed(job)) &&
      ConcatList !in result && MergedName(job.video) !in result &&
      forall r :: 0 <= r < job.procs ==> SegmentName(job.video, r) !in result
  {
    var v, procs, total := job.video, job.procs, job.meta.totalFrames;
    var listed := files[ConcatList := Lines(Manifest(v, procs))];
    forall r | 0 <= r < procs
      ensures SegmentName(v, r) in listed && listed[SegmentName(v, r)] == Frames(SegmentFrames(job, r))
    {
      NamesDistinct(v, r);
    }
    ConcatOfSegments(job, listed, procs);
    GatheredAllIsWhole(WholeProcessed(job), procs, total);
    assert WholeProcessed(job)[..total] == WholeProcessed(job);
    NamesDistinct(v, 0);
    var merged := MergedName(v);
    assert merged !in SegmentNames(v, procs) by {
      forall r: nat | r < procs ensures merged != SegmentName(v, r) { NamesDistinct(v, r); }
    }
  }

  /** When ffmpeg fails the input file is left as it was, and the segments and the
      list are still removed. */
  lemma FailedMergeKeepsInput(files: map<string, Content>, video: string, procs: nat)
    requires video in files && video != ConcatList && MergedName(video) !in files
    ensures var result := MergedFiles(files, video, procs, false);
      video in result && result[video] == files[video] && ConcatList !in result &&
      forall r :: 0 <= r < procs ==> SegmentName(video, r) !in result
  {
    NamesDistinct(video, 0);
    assert video !in SegmentNames(video, procs) by {
      forall r: nat | r < procs ensures video != SegmentName(video, r) { NamesDistinct(video, r); }
    }
  }
}
