/** The MPI entry point of process_video.c: its own node-leader copy of the parallel
    downloader, and `main`'s argument handling and phase order.

    The node communicator and its broadcast are modelled by their effect: the leader
    (node rank 0) computes a status, and every rank of the node receives that value. */
module ProcessVideo {
  import opened Common
  import opened Storage
  import opened MemoryBuffers
  import opened DownloadVideo

  // ---------------------------------------------------------------------------
  // Node-leader download_video_parallel

  /** What the leader's download leaves behind. This copy of the downloader differs from
      the standalone one in two ways the model keeps: a failed allocation of the chunk
      or thread array leaves `success` at 1 without writing anything, and the results
      of `fwrite` are never looked at. */
  function LeaderDownload(files: map<string, Content>, free: nat, unwritable: set<string>,
                          videoPath: string, outputFile: string, env: DownloadEnv): DownloadState
  {
    if ParseVideoPath(videoPath).None? || !env.urlAllocOk || env.probedSize <= 0 then
      DownloadState(0, files, free)
    else if !env.spawnOk then
      DownloadState(1, files, free)
    else if |env.outcomes| != NumDownloadThreads || !AllFetched(env.outcomes) || outputFile in unwritable then
      DownloadState(0, files, free)
    else
      var whole := Flatten(ChunkBytes(env.outcomes));
      var n := Stored(whole, free);
      DownloadState(1, files[outputFile := Bytes(whole[..n])], free - n)
  }

  /** A malformed path, a missing URL buffer or a non-positive size reports 0 and
      writes nothing. */
  lemma LeaderRejectsBadInput(files: map<string, Content>, free: nat, unwritable: set<string>,
                              videoPath: string, outputFile: string, env: DownloadEnv)
    requires ParseVideoPath(videoPath).None? || !env.urlAllocOk || env.probedSize <= 0
    ensures LeaderDownload(files, free, unwritable, videoPath, outputFile, env) == DownloadState(0, files, free)
  {
  }

  /** Failing to allocate the chunk or thread array is reported as success, and no
      file is created. */
  lemma LeaderAllocationFailureReportsSuccess(files: map<string, Content>, free: nat, unwritable: set<string>,
                                              videoPath: string, outputFile: string, env: DownloadEnv)
    requires ParseVideoPath(videoPath).Some? && env.urlAllocOk && env.probedSize > 0 && !env.spawnOk
    ensures LeaderDownload(files, free, unwritable, videoPath, outputFile, env) == DownloadState(1, files, free)
  {
  }

  /** The output file is written only when every chunk succeeded. */
  lemma LeaderWritesOnlyAfterAllChunks(files: map<string, Content>, free: nat, unwritable: set<string>,
                                       videoPath: string, outputFile: string, env: DownloadEnv)
    requires LeaderDownload(files, free, unwritable, videoPath, outputFile, env).files != files
    ensures ReadyToWrite(videoPath, env) && outputFile !in unwritable
  {
  }

  /** A short write still reports success: the file then holds only a proper prefix
      of the chunk buffers' concatenation. */
  lemma LeaderIgnoresShortWrites(files: map<string, Content>, free: nat, unwritable: set<string>,
                                 videoPath: string, outputFile: string, env: DownloadEnv)
    requires ReadyToWrite(videoPath, env) && outputFile !in unwritable
    requires |Flatten(ChunkBytes(env.outcomes))| > free
    ensures var r := LeaderDownload(files, free, unwritable, videoPath, outputFile, env);
      r.status == 1 && outputFile in r.files && r.files[outputFile].Bytes? &&
      r.files[outputFile].data < Flatten(ChunkBytes(env.outcomes)) && r.free == 0
  {
  }

  /** Whenever nothing runs short (allocations succeed, the disk takes every byte), the
      node leader and the standalone downloader's rank 0 leave the same status and the
      same files. */
  lemma LeaderAgreesWithStandalone(files: map<string, Content>, free: nat, unwritable: set<string>,
                                   videoPath: string, outputFile: string, env: DownloadEnv)
    requires |env.outcomes| == NumDownloadThreads && env.spawnOk
    requires |Flatten(ChunkBytes(env.outcomes))| <= free
    ensures LeaderDownload(files, free, unwritable, videoPath, outputFile, env) ==
            StandaloneDownload(files, free, unwritable, videoPath, outputFile, 0, env)
  {
  }

  /** The leader's write loop: every chunk's buffer, in index order, with no check of
      what `fwrite` returns. */
  method WriteChunksUnchecked(fs: FileSystem, path: string, chunks: array<DownloadChunk>)
    requires path in fs.files && fs.files[path] == Bytes([])
    requires forall i :: 0 <= i < chunks.Length ==> chunks[i].success
    modifies fs
    ensures var whole := Flatten(Buffers(chunks));
      fs.files == old(fs.files)[path := Bytes(whole[..Stored(whole, old(fs.free))])] &&
      fs.free == old(fs.free) - Stored(whole, old(fs.free))
    ensures fs.unwritable == old(fs.unwritable)
  {
    ghost var parts := Buffers(chunks);
    ghost var free0 := fs.free;
    assert parts[..0] == [];
    for i := 0 to chunks.Length
      invariant var done := Flatten(parts[..i]);
        fs.files == old(fs.files)[path := Bytes(done[..Stored(done, free0)])] &&
        fs.free == free0 - Stored(done, free0)
      invariant fs.unwritable == old(fs.unwritable)
    {
      ghost var done := Flatten(parts[..i]);
      FlattenStep(parts, i);
      ghost var next := Flatten(parts[..i + 1]);
      if chunks[i].success {
        var bytes := chunks[i].bytes;
        assert bytes == parts[i];
        ghost var before := done[..Stored(done, free0)];
        var written := fs.WriteBytes(path, bytes);
        assert fs.files == old(fs.files)[path := Bytes(before + bytes[..written])];
        assert next == done + bytes;
        if Stored(done, free0) == |done| {
          assert before == done;
          assert Stored(next, free0) == |done| + written;
          assert next[..Stored(next, free0)] == done + bytes[..written];
        } else {
          assert written == 0 && before + bytes[..written] == before;
          assert Stored(next, free0) == free0 == Stored(done, free0);
          assert next[..Stored(next, free0)] == before;
        }
      }
    }
    assert parts[..chunks.Length] == parts;
  }

  /** Everything the leader does after the probe succeeded and the arrays exist: plan,
      run and join the threads, check them, and write. */
  method LeaderFetchAndWrite(fs: FileSystem, outputFile: string, fileSize: int, outcomes: seq<ChunkOutcome>)
    returns (success: int)
    requires fileSize > 0 && |outcomes| == NumDownloadThreads
    modifies fs
    ensures var whole := Flatten(ChunkBytes(outcomes));
      if !AllFetched(outcomes) || outputFile in old(fs.unwritable) then
        success == 0 && fs.files == old(fs.files) && fs.free == old(fs.free)
      else
        success == 1 && fs.free == old(fs.free) - Stored(whole, old(fs.free)) &&
        fs.files == old(fs.files)[outputFile := Bytes(whole[..Stored(whole, old(fs.free))])]
    ensures fs.unwritable == old(fs.unwritable)
  {
    success := 1;
    var chunks := PlanChunks(fileSize);
    RunThreads(chunks, outcomes);
    ThreadsReportOutcomes(chunks, outcomes, fileSize);
    var threadSuccess := AllSucceeded(chunks);
    if threadSuccess {
      var created := fs.CreateBytes(outputFile);
      if created {
        ghost var filesC := fs.files;
        WriteChunksUnchecked(fs, outputFile, chunks);
        ghost var whole := Flatten(Buffers(chunks));
        ghost var stored := Bytes(whole[..Stored(whole, old(fs.free))]);
        assert fs.files == filesC[outputFile := stored];
        assert filesC[outputFile := stored] == old(fs.files)[outputFile := stored];
      } else {
        success := 0;
      }
    } else {
      success := 0;
    }
  }

  /** The node leader's branch of `download_video_parallel`. */
  method NodeLeaderDownload(fs: FileSystem, videoPath: string, outputFile: string, env: DownloadEnv)
    returns (success: int)
    modifies fs
    ensures DownloadState(success, fs.files, fs.free) ==
      LeaderDownload(old(fs.files), old(fs.free), old(fs.unwritable), videoPath, outputFile, env)
    ensures fs.unwritable == old(fs.unwritable)
  {
    success := 1;
    var parsed := ParseVideoPath(videoPath);
    if parsed.None? {
      success := 0;
    } else {
      var (bucket, objectKey) := parsed.value;
      if !env.urlAllocOk {
        success := 0;
      } else {
        var url := PresignedUrl(bucket, objectKey);
        var fileSize := env.probedSize;
        if fileSize <= 0 {
          success := 0;
        } else if env.spawnOk && |env.outcomes| == NumDownloadThreads {
          success := LeaderFetchAndWrite(fs, outputFile, fileSize, env.outcomes);
        } else if env.spawnOk {
          success := 0;
        }
      }
    }
  }

  /** `download_video_parallel` on one node of `nodeSize` ranks: the leader downloads,
      and the broadcast hands every rank of the node the leader's status. */
  method DownloadOnNode(fs: FileSystem, videoPath: string, outputFile: string, nodeSize: nat, env: DownloadEnv)
    returns (results: seq<int>)
    requires nodeSize >= 1
    modifies fs
    ensures var leader := LeaderDownload(old(fs.files), old(fs.free), old(fs.unwritable), videoPath, outputFile, env);
      |results| == nodeSize && (forall r :: 0 <= r < nodeSize ==> results[r] == leader.status) &&
      fs.files == leader.files && fs.free == leader.free
    ensures fs.unwritable == old(fs.unwritable)
  {
    var success := NodeLeaderDownload(fs, videoPath, outputFile, env);
    results := seq(nodeSize, _ => success);
  }

  // ---------------------------------------------------------------------------
  // main

  /** The steps one rank of `main` goes through, in order. */
  datatype Phase =
    | Download(videoPath: string, outputFile: string)
    | Barrier
    | Decompose(videoFile: string, task: string, params: string)

  datatype MainRun = MainRun(exitCode: int, phases: seq<Phase>)

  /** `snprintf(output_file, 512, "/tmp/video_%s.mp4", job_id)`. */
  function OutputFileFor(jobId: string): (path: string)
    ensures |path| < 512
    ensures |jobId| <= 496 ==> path == "/tmp/video_" + jobId + ".mp4"
  {
    Snprintf("/tmp/video_" + jobId + ".mp4", 512)
  }

  /** One rank's run of `main` with `argv` (argv[0] the program name) when its call to
      the downloader returns `downloadStatus` and its call to `decompose_video` returns
      `decomposeStatus` (C truth: zero is failure). */
  function ProcessVideoMain(argv: seq<string>, downloadStatus: int, decomposeStatus: int): (run: MainRun)
  {
    if |argv| < 4 then MainRun(1, [])
    else
      var outputFile := OutputFileFor(argv[1]);
      var params := if |argv| > 4 then argv[4] else "{}";
      var download := Download(argv[2], outputFile);
      var decompose := Decompose(outputFile, argv[3], params);
      if downloadStatus == 0 then MainRun(1, [download])
      else if decomposeStatus == 0 then MainRun(1, [download, Barrier, decompose])
      else MainRun(0, [download, Barrier, decompose, Barrier])
  }

  /** Fewer than three user arguments: exit status 1 and nothing else happens. */
  lemma MainRejectsFewArguments(argv: seq<string>, downloadStatus: int, decomposeStatus: int)
    requires |argv| < 4
    ensures ProcessVideoMain(argv, downloadStatus, decomposeStatus) == MainRun(1, [])
  {
  }

  /** The exit status is 0 exactly when there are enough arguments and both phases
      succeed; the run is then download, barrier, decompose, barrier. */
  lemma MainSucceedsIffPhasesSucceed(argv: seq<string>, downloadStatus: int, decomposeStatus: int)
    ensures var run := ProcessVideoMain(argv, downloadStatus, decomposeStatus);
      (run.exitCode == 0 <==> |argv| >= 4 && downloadStatus != 0 && decomposeStatus != 0) &&
      (run.exitCode == 0 || run.exitCode == 1) &&
      (run.exitCode == 0 ==> |run.phases| == 4 && run.phases[0].Download? && run.phases[1].Barrier? &&
                             run.phases[2].Decompose? && run.phases[3].Barrier?)
  {
  }

  /** A failed download stops the run before any barrier or decomposition. */
  lemma MainStopsAfterFailedDownload(argv: seq<string>, decomposeStatus: int)
    requires |argv| >= 4
    ensures var run := ProcessVideoMain(argv, 0, decomposeStatus);
      run.exitCode == 1 && |run.phases| == 1 && run.phases[0].Download?
  {
  }

  /** The downloader fetches argv[2] into /tmp/video_<job_id>.mp4, and decomposition
      works on that same file with argv[3] as the task and argv[4], or "{}", as params. */
  lemma MainWiresArguments(argv: seq<string>, downloadStatus: int, decomposeStatus: int)
    requires |argv| >= 4 && |argv[1]| <= 496
    ensures var run := ProcessVideoMain(argv, downloadStatus, decomposeStatus);
      var outputFile := "/tmp/video_" + argv[1] + ".mp4";
      run.phases[0] == Download(argv[2], outputFile) &&
      (forall k :: 0 <= k < |run.phases| && run.phases[k].Decompose? ==>
        run.phases[k] == Decompose(outputFile, argv[3], if |argv| > 4 then argv[4] else "{}"))
  {
  }
}
