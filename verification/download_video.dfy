/** The standalone parallel downloader of download_video.c: split "bucket/key", build
    the object URL, split the object into NUM_DOWNLOAD_THREADS inclusive byte ranges,
    fetch them (modelled as given per-chunk outcomes, joined all at once), refuse to
    create any file unless every chunk succeeded, and write the chunks in index order. */
module DownloadVideo {
  import opened Common
  import opened MemoryBuffers
  import opened Storage
  import FrameRanges

  const MinioEndpoint: string := "http://minio:9000"
  const NumDownloadThreads: int := 4

  // ---------------------------------------------------------------------------
  // sscanf(video_path, "%255[^/]/%511s", bucket, object_key)

  /** The characters `%s` treats as separators (C `isspace`). */
  predicate IsSpace(c: char) { c == ' ' || 9 <= c as int <= 13 }

  /** Length of the longest prefix of `s` without '/': what the `%[^/]` scan set matches. */
  function SlashFreeSpan(s: string): (n: nat)
    ensures n <= |s|
    ensures forall i :: 0 <= i < n ==> s[i] != '/'
    ensures n < |s| ==> s[n] == '/'
  {
    if s == [] || s[0] == '/' then 0 else 1 + SlashFreeSpan(s[1..])
  }

  /** What is left of `s` after the leading white space that `%s` skips. */
  function SkipSpaces(s: string): (r: string)
    ensures |r| <= |s| && r == s[|s| - |r|..]
    ensures forall i :: 0 <= i < |s| - |r| ==> IsSpace(s[i])
    ensures r != [] ==> !IsSpace(r[0])
  {
    if s != [] && IsSpace(s[0]) then SkipSpaces(s[1..]) else s
  }

  /** Length of the longest prefix of `s` without white space: what `%s` reads. */
  function WordSpan(s: string): (n: nat)
    ensures n <= |s|
    ensures forall i :: 0 <= i < n ==> !IsSpace(s[i])
    ensures n < |s| ==> IsSpace(s[n])
  {
    if s == [] || IsSpace(s[0]) then 0 else 1 + WordSpan(s[1..])
  }

  predicate ValidBucket(b: string) { 1 <= |b| <= 255 && forall i :: 0 <= i < |b| ==> b[i] != '/' }

  predicate ValidKey(k: string) { 1 <= |k| <= 511 && forall i :: 0 <= i < |k| ==> !IsSpace(k[i]) }

  /** The pair sscanf stores when it returns 2, or None when it returns less: the bucket
      is the whole run before the first '/', 1 to 255 characters long; after the '/'
      and any white space the key is the next word, cut to 511 characters. */
  function ParseVideoPath(path: string): (r: Option<(string, string)>)
    ensures r.Some? ==> ValidBucket(r.value.0) && ValidKey(r.value.1)
    ensures r.Some? ==> |r.value.0| < |path| && path[..|r.value.0|] == r.value.0 && path[|r.value.0|] == '/'
  {
    var n := SlashFreeSpan(path);
    if n == 0 || n > 255 || n == |path| then None
    else
      var rest := SkipSpaces(path[n + 1..]);
      var w := WordSpan(rest);
      if w == 0 then None else Some((path[..n], rest[..Min(w, 511)]))
  }

  /** sscanf returns less than 2 exactly when the bucket run is empty, longer than 255,
      not followed by '/', or when only white space follows the '/'. */
  lemma ParseVideoPathFails(path: string)
    ensures var n := SlashFreeSpan(path);
      ParseVideoPath(path).None? <==>
        n == 0 || n > 255 || n == |path| || SkipSpaces(path[n + 1..]) == []
  {
    var n := SlashFreeSpan(path);
    if !(n == 0 || n > 255 || n == |path|) {
      var rest := SkipSpaces(path[n + 1..]);
      if rest != [] {
        assert WordSpan(rest) >= 1;
      }
    }
  }

  lemma SlashFreeSpanOf(b: string, tail: string)
    requires forall i :: 0 <= i < |b| ==> b[i] != '/'
    ensures SlashFreeSpan(b + "/" + tail) == |b|
  {
    var s := b + "/" + tail;
    assert s[|b|] == '/';
    assert forall i :: 0 <= i < |b| ==> s[i] == b[i];
  }

  lemma {:induction false} WordSpanOfWord(k: string)
    requires forall i :: 0 <= i < |k| ==> !IsSpace(k[i])
    ensures WordSpan(k) == |k|
  {
    if k != [] {
      assert forall i :: 0 <= i < |k| - 1 ==> k[1..][i] == k[i + 1];
      WordSpanOfWord(k[1..]);
    }
  }

  /** The pieces of "bucket/key": the run before the '/', and the key after it. */
  lemma SplitAtSlash(bucket: string, key: string)
    requires ValidBucket(bucket) && 1 <= |key| && !IsSpace(key[0])
    ensures var path := bucket + "/" + key;
      SlashFreeSpan(path) == |bucket| < |path| && path[..|bucket|] == bucket &&
      SkipSpaces(path[|bucket| + 1..]) == key
  {
    var path := bucket + "/" + key;
    SlashFreeSpanOf(bucket, key);
    assert path[|bucket| + 1..] == key;
    assert path[..|bucket|] == bucket;
  }

  /** Splitting a well-formed "bucket/key" gives back exactly that bucket and key. */
  lemma ParseVideoPathRoundTrip(bucket: string, key: string)
    requires ValidBucket(bucket) && ValidKey(key)
    ensures ParseVideoPath(bucket + "/" + key) == Some((bucket, key))
  {
    var path := bucket + "/" + key;
    SplitAtSlash(bucket, key);
    WordSpanOfWord(key);
    var rest := SkipSpaces(path[|bucket| + 1..]);
    assert rest[..Min(WordSpan(rest), 511)] == key;
  }

  /** A key longer than 511 characters is cut, not rejected. */
  lemma ParseVideoPathTruncatesKey(bucket: string, key: string)
    requires ValidBucket(bucket) && |key| > 511
    requires forall i :: 0 <= i < |key| ==> !IsSpace(key[i])
    ensures ParseVideoPath(bucket + "/" + key) == Some((bucket, key[..511]))
  {
    SplitAtSlash(bucket, key);
    WordSpanOfWord(key);
  }

  /** A bucket run longer than 255 characters makes the literal '/' fail to match. */
  lemma ParseVideoPathRejectsLongBucket(bucket: string, key: string)
    requires |bucket| > 255 && forall i :: 0 <= i < |bucket| ==> bucket[i] != '/'
    ensures ParseVideoPath(bucket + "/" + key).None?
  {
    SlashFreeSpanOf(bucket, key);
  }

  // ---------------------------------------------------------------------------
  // generate_presigned_url

  /** `snprintf(url, 1024, "%s/%s/%s", MINIO_ENDPOINT, bucket, key)`. For the bucket and
      key the parser can produce, the 1024-byte buffer never truncates the URL. */
  function PresignedUrl(bucket: string, key: string): (url: string)
    ensures |bucket| <= 255 && |key| <= 511 ==> url == MinioEndpoint + "/" + bucket + "/" + key
    ensures |url| < 1024
  {
    Snprintf(MinioEndpoint + "/" + bucket + "/" + key, 1024)
  }

  /** For a well-formed path the URL is the endpoint, a '/', and the path itself. */
  lemma UrlOfWellFormedPath(bucket: string, key: string)
    requires ValidBucket(bucket) && ValidKey(key)
    ensures var p := ParseVideoPath(bucket + "/" + key);
      p.Some? && PresignedUrl(p.value.0, p.value.1) == MinioEndpoint + "/" + (bucket + "/" + key)
  {
    ParseVideoPathRoundTrip(bucket, key);
    assert MinioEndpoint + "/" + bucket + "/" + key == MinioEndpoint + "/" + (bucket + "/" + key);
  }

  // ---------------------------------------------------------------------------
  // Chunk split

  /** One entry of the `chunks` array: thread id, inclusive byte range, and what the
      thread left in it (`success`, and the `bytes_downloaded` bytes of its buffer). */
  datatype DownloadChunk = DownloadChunk(threadId: int, range: ByteRange, success: bool, bytes: seq<Byte>)

  /** Chunk i covers [i*cs, (i+1)*cs - 1] with cs = size / 4; the last one ends at size - 1. */
  function ChunkRange(i: int, fileSize: int): ByteRange
    requires 0 <= i < NumDownloadThreads && fileSize > 0
  {
    var cs := fileSize / NumDownloadThreads;
    ByteRange(i * cs, if i == NumDownloadThreads - 1 then fileSize - 1 else (i + 1) * cs - 1)
  }

  /** The byte split is the frame split with four parts: chunk i is the half-open range
      [start, end + 1) that FrameRanges gives rank i of four. */
  lemma ChunkIsFrameRange(i: int, fileSize: int)
    requires 0 <= i < NumDownloadThreads && fileSize > 0
    ensures ChunkRange(i, fileSize).start == FrameRanges.StartFrame(i, NumDownloadThreads, fileSize)
    ensures ChunkRange(i, fileSize).end + 1 == FrameRanges.EndFrame(i, NumDownloadThreads, fileSize)
  {
    FrameRanges.PerRankBounds(NumDownloadThreads, fileSize);
    FrameRanges.MulSucc(i, fileSize / NumDownloadThreads);
  }

  /** The chunks are contiguous, start at byte 0, end at byte size - 1, and none has
      negative length (for sizes below 4 the first three are the empty range [0, -1]). */
  lemma ChunksPartitionObject(fileSize: int)
    requires fileSize > 0
    ensures ChunkRange(0, fileSize).start == 0
    ensures ChunkRange(NumDownloadThreads - 1, fileSize).end == fileSize - 1
    ensures forall i :: 0 <= i < NumDownloadThreads - 1 ==>
      ChunkRange(i, fileSize).end + 1 == ChunkRange(i + 1, fileSize).start
    ensures forall i :: 0 <= i < NumDownloadThreads ==>
      0 <= ChunkRange(i, fileSize).start <= ChunkRange(i, fileSize).end + 1 <= fileSize
  {
    forall i | 0 <= i < NumDownloadThreads
      ensures 0 <= ChunkRange(i, fileSize).start <= ChunkRange(i, fileSize).end + 1 <= fileSize
    {
      ChunkIsFrameRange(i, fileSize);
      FrameRanges.RangeWellFormed(i, NumDownloadThreads, fileSize);
    }
    forall i | 0 <= i < NumDownloadThreads - 1
      ensures ChunkRange(i, fileSize).end + 1 == ChunkRange(i + 1, fileSize).start
    {
      ChunkIsFrameRange(i, fileSize);
      ChunkIsFrameRange(i + 1, fileSize);
      FrameRanges.RangesContiguous(i, NumDownloadThreads, fileSize);
    }
  }

  /** Each byte of the object lies in exactly one chunk. */
  lemma EachByteInOneChunk(b: int, fileSize: int)
    requires 0 <= b < fileSize
    ensures exists i :: 0 <= i < NumDownloadThreads && ChunkRange(i, fileSize).start <= b <= ChunkRange(i, fileSize).end
    ensures forall i, j ::
      (0 <= i < NumDownloadThreads && 0 <= j < NumDownloadThreads &&
       ChunkRange(i, fileSize).start <= b <= ChunkRange(i, fileSize).end &&
       ChunkRange(j, fileSize).start <= b <= ChunkRange(j, fileSize).end) ==> i == j
  {
    var o := FrameRanges.Owner(b, NumDownloadThreads, fileSize);
    FrameRanges.OwnerContainsFrame(b, NumDownloadThreads, fileSize);
    ChunkIsFrameRange(o, fileSize);
    forall i | 0 <= i < NumDownloadThreads && ChunkRange(i, fileSize).start <= b <= ChunkRange(i, fileSize).end
      ensures i == o
    {
      ChunkIsFrameRange(i, fileSize);
      FrameRanges.OwnerIsUnique(i, b, NumDownloadThreads, fileSize);
    }
  }

  /** A 10 000-byte object is fetched as [0,2499], [2500,4999], [5000,7499], [7500,9999]. */
  lemma TenThousandByteSplit()
    ensures ChunkRange(0, 10000) == ByteRange(0, 2499)
    ensures ChunkRange(1, 10000) == ByteRange(2500, 4999)
    ensures ChunkRange(2, 10000) == ByteRange(5000, 7499)
    ensures ChunkRange(3, 10000) == ByteRange(7500, 9999)
  {
  }

  /** The loop that fills the `chunks` array before the threads start. */
  method PlanChunks(fileSize: int) returns (chunks: array<DownloadChunk>)
    requires fileSize > 0
    ensures fresh(chunks) && chunks.Length == NumDownloadThreads
    ensures forall i :: 0 <= i < NumDownloadThreads ==>
      chunks[i] == DownloadChunk(i, ChunkRange(i, fileSize), false, [])
  {
    var numThreads := NumDownloadThreads;
    var chunkSize := fileSize / numThreads;
    chunks := new DownloadChunk[numThreads];
    for i := 0 to numThreads
      invariant forall k :: 0 <= k < i ==> chunks[k] == DownloadChunk(k, ChunkRange(k, fileSize), false, [])
    {
      var startByte := i * chunkSize;
      var endByte := if i == numThreads - 1 then fileSize - 1 else (i + 1) * chunkSize - 1;
      chunks[i] := DownloadChunk(i, ByteRange(startByte, endByte), false, []);
    }
  }

  /** The chunk as its thread leaves it. */
  function AfterThread(c: DownloadChunk, outcome: ChunkOutcome): DownloadChunk
  {
    match outcome
    case Fetched(data) => c.(success := true, bytes := data)
    case FetchFailed => c.(success := false)
  }

  /** Starting one thread per chunk and joining them all: each chunk ends up holding its
      own thread's outcome. */
  method RunThreads(chunks: array<DownloadChunk>, outcomes: seq<ChunkOutcome>)
    requires |outcomes| == chunks.Length
    modifies chunks
    ensures forall i :: 0 <= i < chunks.Length ==> chunks[i] == AfterThread(old(chunks[i]), outcomes[i])
  {
    for i := 0 to chunks.Length
      invariant forall k :: 0 <= k < i ==> chunks[k] == AfterThread(old(chunks[k]), outcomes[k])
      invariant forall k :: i <= k < chunks.Length ==> chunks[k] == old(chunks[k])
    {
      chunks[i] := AfterThread(chunks[i], outcomes[i]);
    }
  }

  // ---------------------------------------------------------------------------
  // Success gate and ordered reassembly

  predicate AllFetched(outcomes: seq<ChunkOutcome>) { forall i :: 0 <= i < |outcomes| ==> outcomes[i].Fetched? }

  /** The buffers the chunks hold, in index order (a failed chunk holds none). */
  function ChunkBytes(outcomes: seq<ChunkOutcome>): (r: seq<seq<Byte>>)
    ensures |r| == |outcomes|
    ensures forall i :: 0 <= i < |outcomes| ==> r[i] == if outcomes[i].Fetched? then outcomes[i].data else []
  {
    seq(|outcomes|, i requires 0 <= i < |outcomes| => if outcomes[i].Fetched? then outcomes[i].data else [])
  }

  /** The `all_success` loop: true exactly when every chunk's success flag is set. */
  method AllSucceeded(chunks: array<DownloadChunk>) returns (allSuccess: bool)
    ensures allSuccess <==> forall i :: 0 <= i < chunks.Length ==> chunks[i].success
  {
    allSuccess := true;
    for i := 0 to chunks.Length
      invariant allSuccess <==> forall k :: 0 <= k < i ==> chunks[k].success
    {
      if !chunks[i].success {
        allSuccess := false;
      }
    }
  }

  /** How many of `whole`'s bytes `fwrite` gets onto a disk with `free` bytes left. */
  function Stored(whole: seq<Byte>, free: nat): (n: nat)
    ensures n <= |whole| && n <= free && (n == |whole| || n == free)
  {
    Min(|whole|, free)
  }

  /** The chunk buffers in index order. */
  function Buffers(chunks: array<DownloadChunk>): (r: seq<seq<Byte>>)
    reads chunks
    ensures |r| == chunks.Length && forall i :: 0 <= i < chunks.Length ==> r[i] == chunks[i].bytes
  {
    seq(chunks.Length, i reads chunks requires 0 <= i < chunks.Length => chunks[i].bytes)
  }

  /** The write loop: chunk buffers in index order, stopping at the first short write. */
  method WriteChunks(fs: FileSystem, path: string, chunks: array<DownloadChunk>) returns (ok: bool)
    requires path in fs.files && fs.files[path] == Bytes([])
    modifies fs
    ensures var whole := Flatten(Buffers(chunks));
      fs.files == old(fs.files)[path := Bytes(whole[..Stored(whole, old(fs.free))])] &&
      fs.free == old(fs.free) - Stored(whole, old(fs.free))
    ensures ok <==> |Flatten(Buffers(chunks))| <= old(fs.free)
    ensures fs.unwritable == old(fs.unwritable)
  {
    ghost var parts := Buffers(chunks);
    ghost var whole := Flatten(parts);
    ghost var free0 := fs.free;
    ghost var files0 := fs.files;
    assert parts[..0] == [];
    for i := 0 to chunks.Length
      invariant fs.files == files0[path := Bytes(Flatten(parts[..i]))]
      invariant |Flatten(parts[..i])| <= free0 && fs.free == free0 - |Flatten(parts[..i])|
      invariant fs.unwritable == old(fs.unwritable)
    {
      var complete := WritePart(fs, path, chunks[i].bytes, files0, parts, i, free0);
      if !complete {
        return false;
      }
    }
    assert parts[..chunks.Length] == parts;
    assert Stored(whole, free0) == |whole| && whole[..|whole|] == whole;
    return true;
  }

  /** One `fwrite` of the loop, for chunk i: either all of its bytes go in, or the disk
      fills up and the file holds what the whole write stores. */
  method WritePart(fs: FileSystem, path: string, bytes: seq<Byte>, ghost files0: map<string, Content>,
                   ghost parts: seq<seq<Byte>>, i: nat, ghost free0: nat) returns (complete: bool)
    requires i < |parts| && bytes == parts[i]
    requires fs.files == files0[path := Bytes(Flatten(parts[..i]))]
    requires |Flatten(parts[..i])| <= free0 && fs.free == free0 - |Flatten(parts[..i])|
    modifies fs
    ensures fs.unwritable == old(fs.unwritable)
    ensures complete ==>
      fs.files == files0[path := Bytes(Flatten(parts[..i + 1]))] &&
      |Flatten(parts[..i + 1])| <= free0 && fs.free == free0 - |Flatten(parts[..i + 1])|
    ensures !complete ==> var whole := Flatten(parts);
      |whole| > free0 && fs.files == files0[path := Bytes(whole[..Stored(whole, free0)])] &&
      fs.free == free0 - Stored(whole, free0)
  {
    ghost var whole := Flatten(parts);
    FlattenStep(parts, i);
    PrefixOfFlatten(parts, i + 1);
    var written := fs.WriteBytes(path, bytes);
    complete := written == |bytes|;
    if !complete {
      assert |Flatten(parts[..i])| + written == free0;
      assert Flatten(parts[..i]) + bytes[..written] == whole[..free0];
    } else {
      assert bytes[..written] == bytes;
    }
  }

  /** The concatenation of a prefix of the parts is a prefix of the whole concatenation. */
  lemma {:induction false} PrefixOfFlatten(parts: seq<seq<Byte>>, i: nat)
    requires i <= |parts|
    ensures |Flatten(parts[..i])| <= |Flatten(parts)|
    ensures Flatten(parts[..i]) == Flatten(parts)[..|Flatten(parts[..i])|]
    decreases |parts| - i
  {
    assert parts[..|parts|] == parts;
    if i < |parts| {
      PrefixOfFlatten(parts, i + 1);
      FlattenStep(parts, i);
    }
  }

  /** What the object store, the allocator and the download threads provide: whether the
      URL buffer is allocated, the size `get_file_size` reports (-1 when unknown),
      whether the chunk and thread arrays are allocated and every thread is created,
      and each chunk thread's outcome. */
  datatype DownloadEnv = DownloadEnv(urlAllocOk: bool, probedSize: int, spawnOk: bool, outcomes: seq<ChunkOutcome>)

  /** Everything up to and including the success gate passed. */
  predicate ReadyToWrite(videoPath: string, env: DownloadEnv)
  {
    ParseVideoPath(videoPath).Some? && env.urlAllocOk && env.probedSize > 0 &&
    env.spawnOk && |env.outcomes| == NumDownloadThreads && AllFetched(env.outcomes)
  }

  /** The result and file-system state `download_video_parallel` produces. */
  datatype DownloadState = DownloadState(status: int, files: map<string, Content>, free: nat)

  /** Opening the output file and writing `whole` to it: status 0 and nothing changed
      when the file cannot be created, otherwise the bytes the disk takes and status 1
      exactly when that is all of them. */
  function WriteOutcome(files: map<string, Content>, free: nat, unwritable: set<string>,
                        outputFile: string, whole: seq<Byte>): DownloadState
  {
    if outputFile in unwritable then DownloadState(0, files, free)
    else
      var n := Stored(whole, free);
      DownloadState(if |whole| <= free then 1 else 0, files[outputFile := Bytes(whole[..n])], free - n)
  }

  function StandaloneDownload(files: map<string, Content>, free: nat, unwritable: set<string>,
                              videoPath: string, outputFile: string, rank: int, env: DownloadEnv): DownloadState
  {
    if rank != 0 then DownloadState(1, files, free)
    else if !ReadyToWrite(videoPath, env) then DownloadState(0, files, free)
    else WriteOutcome(files, free, unwritable, outputFile, Flatten(ChunkBytes(env.outcomes)))
  }

  /** A non-zero rank reports success and touches nothing. */
  lemma NonZeroRankDoesNothing(files: map<string, Content>, free: nat, unwritable: set<string>,
                               videoPath: string, outputFile: string, rank: int, env: DownloadEnv)
    requires rank != 0
    ensures StandaloneDownload(files, free, unwritable, videoPath, outputFile, rank, env) == DownloadState(1, files, free)
  {
  }

  /** A malformed path, an unknown size, a failed allocation or any failed chunk makes
      the call return 0 without creating or changing any file. */
  lemma FailureLeavesNoFile(files: map<string, Content>, free: nat, unwritable: set<string>,
                            videoPath: string, outputFile: string, env: DownloadEnv)
    requires |env.outcomes| == NumDownloadThreads
    requires ParseVideoPath(videoPath).None? || env.probedSize <= 0 || !env.spawnOk ||
             exists i :: 0 <= i < NumDownloadThreads && env.outcomes[i].FetchFailed?
    ensures StandaloneDownload(files, free, unwritable, videoPath, outputFile, 0, env) == DownloadState(0, files, free)
  {
  }

  /** On success the output file is exactly the chunk buffers concatenated in index
      order, and a short write is reported as failure. */
  lemma SuccessWritesChunksInOrder(files: map<string, Content>, free: nat, unwritable: set<string>,
                                   videoPath: string, outputFile: string, env: DownloadEnv)
    requires ReadyToWrite(videoPath, env) && outputFile !in unwritable
    ensures var r := StandaloneDownload(files, free, unwritable, videoPath, outputFile, 0, env);
      var whole := Flatten(ChunkBytes(env.outcomes));
      (r.status == 1 <==> |whole| <= free) &&
      (r.status == 1 ==> r.files == files[outputFile := Bytes(whole)] && r.free == free - |whole|) &&
      (r.status == 0 ==> outputFile in r.files && r.files[outputFile].data < whole)
  {
    var whole := Flatten(ChunkBytes(env.outcomes));
    assert whole[..|whole|] == whole;
  }

  /** Reassembly reproduces the object: when every chunk's buffer holds exactly its
      range of the object, the concatenation in index order is the object byte for byte. */
  lemma ReassemblyReproducesObject(obj: seq<Byte>, outcomes: seq<ChunkOutcome>)
    requires |obj| > 0 && |outcomes| == NumDownloadThreads
    requires forall i :: 0 <= i < NumDownloadThreads ==>
      outcomes[i] == Fetched(obj[ChunkRange(i, |obj|).start..ChunkRange(i, |obj|).end + 1])
    ensures Flatten(ChunkBytes(outcomes)) == obj
  {
    var n := |obj|;
    ChunksPartitionObject(n);
    var parts := ChunkBytes(outcomes);
    forall k | 0 <= k <= NumDownloadThreads
      ensures Flatten(parts[..k]) == FrameRanges.Gathered(obj, NumDownloadThreads, n, k)
    {
      FlattenIsGathered(obj, parts, k);
    }
    assert parts[..NumDownloadThreads] == parts;
    FrameRanges.GatheredAllIsWhole(obj, NumDownloadThreads, n);
  }

  lemma {:induction false} FlattenIsGathered(obj: seq<Byte>, parts: seq<seq<Byte>>, k: int)
    requires |obj| > 0 && |parts| == NumDownloadThreads && 0 <= k <= NumDownloadThreads
    requires forall i :: 0 <= i < NumDownloadThreads ==> 0 <= ChunkRange(i, |obj|).start <= ChunkRange(i, |obj|).end + 1 <= |obj|
    requires forall i :: 0 <= i < NumDownloadThreads ==>
      parts[i] == obj[ChunkRange(i, |obj|).start..ChunkRange(i, |obj|).end + 1]
    ensures Flatten(parts[..k]) == FrameRanges.Gathered(obj, NumDownloadThreads, |obj|, k)
  {
    if k > 0 {
      var r := ChunkRange(k - 1, |obj|);
      assert parts[k - 1] == obj[r.start..r.end + 1];
      ChunkIsFrameRange(k - 1, |obj|);
      FlattenIsGathered(obj, parts, k - 1);
      FlattenStep(parts, k - 1);
    }
  }

  /** After the join, the success flags and buffers are the threads' outcomes. */
  lemma ThreadsReportOutcomes(chunks: array<DownloadChunk>, outcomes: seq<ChunkOutcome>, size: int)
    requires |outcomes| == chunks.Length == NumDownloadThreads && size > 0
    requires forall i :: 0 <= i < chunks.Length ==> chunks[i] == AfterThread(DownloadChunk(i, ChunkRange(i, size), false, []), outcomes[i])
    ensures (forall i :: 0 <= i < chunks.Length ==> chunks[i].success) <==> AllFetched(outcomes)
    ensures Buffers(chunks) == ChunkBytes(outcomes)
  {
  }

  // ---------------------------------------------------------------------------
  // download_video_parallel

  /** Everything `download_video_parallel` does before opening the output file: parse
      the path, build the URL, probe the size, plan the chunks, run and join the
      threads, and check every success flag. A null result is a failed call. */
  method FetchChunks(videoPath: string, env: DownloadEnv) returns (chunks: array?<DownloadChunk>)
    requires |env.outcomes| == NumDownloadThreads
    ensures chunks != null <==> ReadyToWrite(videoPath, env)
    ensures chunks != null ==> fresh(chunks) && Buffers(chunks) == ChunkBytes(env.outcomes)
  {
    var parsed := ParseVideoPath(videoPath);
    if parsed.None? {
      return null;
    }
    var (bucket, objectKey) := parsed.value;
    if !env.urlAllocOk {
      return null;
    }
    var url := PresignedUrl(bucket, objectKey);
    var fileSize := env.probedSize;
    if fileSize <= 0 || !env.spawnOk {
      return null;
    }
    var allSuccess;
    chunks, allSuccess := DownloadAllChunks(fileSize, env.outcomes);
    if !allSuccess {
      return null;
    }
  }

  /** Planning the chunks, running and joining one thread per chunk, and the
      `all_success` check. */
  method DownloadAllChunks(fileSize: int, outcomes: seq<ChunkOutcome>) returns (chunks: array<DownloadChunk>, allSuccess: bool)
    requires fileSize > 0 && |outcomes| == NumDownloadThreads
    ensures fresh(chunks) && Buffers(chunks) == ChunkBytes(outcomes)
    ensures allSuccess <==> AllFetched(outcomes)
  {
    chunks := PlanChunks(fileSize);
    RunThreads(chunks, outcomes);
    ThreadsReportOutcomes(chunks, outcomes, fileSize);
    allSuccess := AllSucceeded(chunks);
  }

  /** `fopen(output_file, "wb")` and the write loop, returning the call's status. */
  method WriteOutput(fs: FileSystem, outputFile: string, chunks: array<DownloadChunk>) returns (status: int)
    modifies fs
    ensures DownloadState(status, fs.files, fs.free) ==
      WriteOutcome(old(fs.files), old(fs.free), old(fs.unwritable), outputFile, Flatten(Buffers(chunks)))
    ensures fs.unwritable == old(fs.unwritable)
  {
    var created := fs.CreateBytes(outputFile);
    if !created {
      return 0;
    }
    ghost var filesC := fs.files;
    var ok := WriteChunks(fs, outputFile, chunks);
    status := if ok then 1 else 0;
    ghost var whole := Flatten(Buffers(chunks));
    ghost var stored := Bytes(whole[..Stored(whole, old(fs.free))]);
    assert fs.files == filesC[outputFile := stored];
    assert filesC[outputFile := stored] == old(fs.files)[outputFile := stored];
  }

  method DownloadVideoParallel(fs: FileSystem, videoPath: string, outputFile: string, rank: int, env: DownloadEnv)
    returns (status: int)
    requires |env.outcomes| == NumDownloadThreads
    modifies fs
    ensures DownloadState(status, fs.files, fs.free) ==
      StandaloneDownload(old(fs.files), old(fs.free), old(fs.unwritable), videoPath, outputFile, rank, env)
    ensures fs.unwritable == old(fs.unwritable)
  {
    if rank != 0 {
      return 1;
    }
    var chunks := FetchChunks(videoPath, env);
    if chunks == null {
      return 0;
    }
    assert ReadyToWrite(videoPath, env);
    status := WriteOutput(fs, outputFile, chunks);
  }
}
