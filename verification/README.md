# dvp video pipeline — Dafny model

A model of the core of the distributed video pipeline, with proofs of its properties.

The pipeline does the following:
- It downloads a video from an object store in four parallel byte ranges.
- Every MPI rank filters its own range of frames on the CPU (or through a GPU call with a CPU fallback) and writes a segment file.
- The master rank lists the segments, has them concatenated into one video, removes the intermediates and renames the result over the input.
- A second program grades every frame of a rank's range through a 64×64×64 colour lookup table read from a 512×512 image.

Modules, one per part of the program:

| module | file | what it models |
|---|---|---|
| `Common` | common.dfy | bytes, `Option`, the decimal text `%d` / `to_string` print, `snprintf` truncation, concatenation of byte strings |
| `FrameRanges` | frame_ranges.dfy | the start/end frame formula shared by `decompose_video`, `apply_lut` and the two `main.cpp` programs, with C's truncating `/` |
| `Storage` | storage.dfy | a `FileSystem` class: byte files (with a disk that can fill up), video files, text files, remove, rename, and the files other ranks make visible at a barrier |
| `MemoryBuffers` | memory_buffer.dfy | the `MemoryBuffer` class, `write_memory_callback` and one `download_chunk_thread` |
| `DownloadVideo` | download_video.dfy | `download_video_parallel` in download_video.c |
| `ProcessVideo` | process_video.dfy | process_video.c's own node-leader downloader, and `main`'s argument handling and phase order |
| `Filters` | filters.dfy | `clamp` and the four in-place filters of filters_omp.cpp over an `array<Byte>` frame, plus `apply_filter_cpu`; the `FilterType` enum of filters.h |
| `VideoDecompose` | video_decompose.dfy | `get_filter_type` and `decompose_video`: segment loop, GPU fallback, file names, concat list, merge and cleanup |
| `ApplyLut` | apply_lut.dfy | `apply_lut`: table coordinates, the triple loop filling an `array3`, the per-pixel lookup, the frame loop, the output path |

How state is modelled:
- State the source changes in place is a class or an array, and every method is proved against a function of its inputs:
  - the memory buffer is a class;
  - `chunks` is an array;
  - frames are arrays the filters overwrite;
  - the lookup table is an `array3`;
  - the file system is a class.
- What the environment provides is a value passed in:
  - the transfer library's deliveries;
  - the probed size;
  - allocation results;
  - the decoded frames;
  - the GPU's result;
  - the table image;
  - whether ffmpeg succeeds.

### Behaviour of the code worth knowing (modelled as written)
- A frame that cannot be decoded ends `decompose_video`'s segment: the loop breaks at the first empty frame (video_decompose.cpp:126-129). `apply_lut` skips such a frame with `continue` and goes on (apply_lut.cpp:95-98). The model has both behaviours, in `VideoDecompose.ReadCount` and `ApplyLut.GradedRange`.
- The merge never checks whether a segment is missing or ffmpeg failed: `system`'s result is ignored, and `decompose_video` returns 1 on the master regardless. When ffmpeg fails, the model leaves no merged file; the rename then fails and the input stays in place (`VideoDecompose.FailedMergeKeepsInput`).
- There is no group-wide abort. When rank 0 cannot open the video, it returns 0 before the broadcast (video_decompose.cpp:42-47, apply_lut.cpp:13-18), and the model returns 0 there too.
- Segments are named from the video path and the rank: `<video>_part_<rank>.avi`.
- process_video.c's copy of the downloader reports success when the chunk or thread array cannot be allocated, and ignores `fwrite`'s result. The standalone downloader does neither. Both are modelled, along with the condition under which they agree (`ProcessVideo.LeaderAgreesWithStandalone`).
- `apply_lut` prints its output path into 256 bytes. A video name of 250 characters or more fills the buffer before the rank is printed, so all ranks write the same file (`ApplyLut.LongNamesShareOutput`). Shorter names give distinct files (`ApplyLut.OutputPathsDistinct`).

## Model

| member | source | states |
|---|---|---|
| Common.NatToStringRoundTrip | mpi/src/video_decompose.cpp:96-97 | reading back the decimal text `to_string` / `%d` prints gives the number |
| Common.NatToStringInjective | mpi/src/video_decompose.cpp:207 | distinct ranks print distinct decimal text |
| Common.Snprintf | mpi/src/apply_lut.cpp:75-76 | the text left in a buffer is shorter than the buffer and a prefix of the formatted text; it is all of it when it fits, exactly size − 1 characters otherwise |
| FrameRanges.PerRankBounds | mpi/src/video_decompose.cpp:72 | for a non-negative count, C's truncating `total / procs` is the Euclidean quotient, and procs times it does not exceed total |
| FrameRanges.RangeWellFormed | mpi/src/video_decompose.cpp:71-76 | for a non-negative count, 0 ≤ start ≤ end ≤ total for every rank |
| FrameRanges.RangeLength | mpi/src/apply_lut.cpp:30-32 | a non-last rank gets exactly total/procs frames; the last gets total − (procs−1)·(total/procs) |
| FrameRanges.RangesContiguous | mpi/src/main.cpp:36-40 | rank k's range ends where rank k+1's begins |
| FrameRanges.RangesSpanAll | project/main.cpp:46-53 | the first range starts at 0 and the last ends at total |
| FrameRanges.RangesDisjoint | mpi/src/video_decompose.cpp:71-76 | a lower rank's range ends no later than a higher rank's begins |
| FrameRanges.OwnerContainsFrame | mpi/src/video_decompose.cpp:71-76 | every frame of [0, total) lies in the range of some valid rank |
| FrameRanges.OwnerIsUnique | mpi/src/video_decompose.cpp:71-76 | no other rank's range contains that frame, so the ranges partition [0, total) |
| FrameRanges.FewFramesEmptyRanges | mpi/src/apply_lut.cpp:30-32 | with fewer frames than ranks, every non-last range is empty at 0 and the last rank takes all frames |
| FrameRanges.NegativeTotalInvertsLastRange | mpi/src/main.cpp:34-40 | the unchecked negative count the main programs accept gives the last rank an end before its start |
| FrameRanges.GatheredIsPrefix | mpi/src/video_decompose.cpp:184-186 | the first k ranks' slices concatenated in rank order are the prefix up to rank k−1's end |
| FrameRanges.GatheredAllIsWhole | mpi/src/video_decompose.cpp:184-186 | all ranks' slices concatenated in rank order are exactly the first total elements |
| Storage.FileSystem.constructor | mpi/src/download_video.c:229 | a file system with the given files, free space and unwritable paths |
| Storage.FileSystem.CreateBytes | mpi/src/download_video.c:229-230 | `fopen(..., "wb")` succeeds exactly for a writable path and leaves an empty file there; nothing else changes |
| Storage.FileSystem.WriteBytes | mpi/src/download_video.c:244 | `fwrite` appends min(n, free) bytes, reports that count and uses up that much space |
| Storage.FileSystem.CreateVideo | mpi/src/video_decompose.cpp:99-102 | opening a writer succeeds exactly for a writable path and leaves an empty video |
| Storage.FileSystem.StoreFrames | mpi/src/video_decompose.cpp:154-168 | after release the file holds exactly the frames written |
| Storage.FileSystem.CreateText | mpi/src/video_decompose.cpp:183 | `fopen(..., "w")` of the list leaves an empty text file |
| Storage.FileSystem.AppendLine | mpi/src/video_decompose.cpp:185 | `fprintf` adds one line at the end |
| Storage.FileSystem.Remove | mpi/src/video_decompose.cpp:208 | `remove` deletes the path, and a missing path stays missing |
| Storage.FileSystem.ShareFiles | mpi/src/video_decompose.cpp:177 | after the barrier the files the other ranks wrote are visible |
| Storage.FileSystem.Rename | mpi/src/video_decompose.cpp:220 | `rename` moves the content to the new name, and fails leaving everything unchanged when the source is missing |
| MemoryBuffers.MemoryBuffer.constructor | mpi/src/download_video.c:65-68 | a buffer of the range's size holding no bytes |
| MemoryBuffers.MemoryBuffer.WriteMemoryCallback | mpi/src/download_video.c:10-31 | returns 0 and changes nothing exactly when it must grow and allocation fails; otherwise the new bytes are at the end, and growth takes max(2·capacity, size+n) fresh bytes |
| MemoryBuffers.MemoryBuffer.Append | mpi/src/download_video.c:28-29 | `memcpy` at offset size then `size += n`: earlier bytes are kept and the new ones follow |
| MemoryBuffers.ReceivePiece | mpi/src/download_video.c:88-98 | one callback keeps the received-so-far invariant; it refuses only when the body exceeds the initial capacity and allocation fails |
| MemoryBuffers.DownloadChunkThread | mpi/src/download_video.c:61-115 | the chunk succeeds exactly when setup, every callback and the transfer succeed; it holds as many bytes as were delivered, exactly the delivered bytes when the buffer never grew, and always ends with the last piece |
| DownloadVideo.SlashFreeSpan | mpi/src/download_video.c:140 | the `%[^/]` run: no '/' inside it, and a '/' right after it unless it reaches the end |
| DownloadVideo.SkipSpaces | mpi/src/download_video.c:140 | `%s` first skips the leading white space: a suffix is left that does not start with a space |
| DownloadVideo.WordSpan | mpi/src/download_video.c:140 | the `%s` word: no white space inside it, and white space or the end right after it |
| DownloadVideo.ParseVideoPath | mpi/src/download_video.c:137-143 | a parsed bucket has 1–255 characters with no '/' and is followed by '/'; the key has 1–511 characters with no white space |
| DownloadVideo.ParseVideoPathFails | mpi/src/download_video.c:140-143 | sscanf returns fewer than 2 exactly when the bucket run is empty, is over 255 characters, is not followed by '/', or only white space follows |
| DownloadVideo.ParseVideoPathRoundTrip | mpi/src/download_video.c:140 | parsing "bucket/key" of a valid bucket and key gives back exactly that pair |
| DownloadVideo.ParseVideoPathTruncatesKey | mpi/src/download_video.c:138-140 | a key over 511 characters is cut to 511, not rejected |
| DownloadVideo.ParseVideoPathRejectsLongBucket | mpi/src/download_video.c:137-140 | a bucket run over 255 characters makes the parse fail |
| DownloadVideo.PresignedUrl | mpi/src/download_video.c:117-130 | the URL fits the 1024-byte buffer and, for parser-sized parts, is endpoint/bucket/key untruncated |
| DownloadVideo.UrlOfWellFormedPath | mpi/src/download_video.c:140-145 | for a well-formed path the URL is the endpoint, '/', and the path itself |
| DownloadVideo.ChunkIsFrameRange | mpi/src/download_video.c:164-185 | chunk i's inclusive byte range is rank i's frame range out of four |
| DownloadVideo.ChunksPartitionObject | mpi/src/download_video.c:181-189 | the chunks start at 0, end at size−1, follow one another without gap, and none has negative length |
| DownloadVideo.EachByteInOneChunk | mpi/src/download_video.c:184-185 | every byte of the object lies in exactly one chunk |
| DownloadVideo.TenThousandByteSplit | mpi/src/download_video.c:164-185 | a 10 000-byte object is split as [0,2499], [2500,4999], [5000,7499], [7500,9999] |
| DownloadVideo.PlanChunks | mpi/src/download_video.c:181-189 | the loop fills entry i with thread id i, chunk range i and no result |
| DownloadVideo.RunThreads | mpi/src/download_video.c:190-204 | after the join, each chunk holds its own thread's outcome |
| DownloadVideo.AllSucceeded | mpi/src/download_video.c:209-215 | `all_success` is set exactly when every chunk's success flag is set |
| DownloadVideo.Stored | mpi/src/download_video.c:244 | `fwrite` stores at most the request and at most the free space, and all of one of them |
| DownloadVideo.WriteChunks | mpi/src/download_video.c:243-257 | the file holds the chunk buffers in index order up to the disk's capacity; the loop succeeds exactly when everything fit |
| DownloadVideo.WritePart | mpi/src/download_video.c:244-256 | one `fwrite` either extends the file by the whole chunk or fills the disk with what the whole write stores |
| DownloadVideo.ThreadsReportOutcomes | mpi/src/download_video.c:202-215 | after the join, the flags are all set exactly when every chunk was fetched, and the buffers are the fetched bytes |
| DownloadVideo.NonZeroRankDoesNothing | mpi/src/download_video.c:133-135 | a non-zero rank returns 1 and changes no file |
| DownloadVideo.FailureLeavesNoFile | mpi/src/download_video.c:140-227 | a malformed path, unknown size, failed allocation or any failed chunk returns 0 without touching any file |
| DownloadVideo.SuccessWritesChunksInOrder | mpi/src/download_video.c:229-274 | once ready, status is 1 exactly when the disk takes every byte; the file is then the chunk buffers concatenated in index order, and a short write leaves a proper prefix |
| DownloadVideo.ReassemblyReproducesObject | mpi/src/download_video.c:243-257 | when each chunk holds its own range of the object, the concatenation in index order is the object byte for byte |
| DownloadVideo.FetchChunks | mpi/src/download_video.c:140-227 | it yields the chunks exactly when parse, URL, size, allocation and every thread succeed; their buffers are then the fetched bytes |
| DownloadVideo.DownloadAllChunks | mpi/src/download_video.c:164-215 | plan, run and join: buffers are the threads' bytes and the flag is set exactly when all were fetched |
| DownloadVideo.WriteOutput | mpi/src/download_video.c:229-274 | open and write loop: status 0 with nothing changed when the file cannot be created; otherwise the stored prefix, and status 1 exactly when all of it fit |
| DownloadVideo.DownloadVideoParallel | mpi/src/download_video.c:132-275 | status, files and free space are those of the standalone downloader's outcome function |
| ProcessVideo.LeaderRejectsBadInput | mpi/src/process_video.c:186-201 | a malformed path, missing URL or non-positive size reports 0 and writes nothing |
| ProcessVideo.LeaderAllocationFailureReportsSuccess | mpi/src/process_video.c:202-209 | failing to allocate the chunk or thread array leaves `success` at 1 and creates no file |
| ProcessVideo.LeaderWritesOnlyAfterAllChunks | mpi/src/process_video.c:228-236 | any change to the files implies every chunk succeeded and the output was creatable |
| ProcessVideo.LeaderIgnoresShortWrites | mpi/src/process_video.c:237-240 | a disk too small still reports 1, with only a proper prefix stored and the disk full |
| ProcessVideo.LeaderAgreesWithStandalone | mpi/src/process_video.c:177-264 | when allocations succeed and the disk takes every byte, the leader and the standalone rank 0 leave the same status and files |
| ProcessVideo.WriteChunksUnchecked | mpi/src/process_video.c:237-244 | the leader's loop stores the chunk buffers in index order up to the disk's capacity without checking `fwrite` |
| ProcessVideo.LeaderFetchAndWrite | mpi/src/process_video.c:209-259 | status 0 and nothing changed when a chunk failed or the file cannot be created; otherwise status 1 and the stored prefix |
| ProcessVideo.NodeLeaderDownload | mpi/src/process_video.c:174-264 | the leader's status and files are the leader outcome function's |
| ProcessVideo.DownloadOnNode | mpi/src/process_video.c:166-273 | every rank of the node gets the leader's status, and the files are the leader's |
| ProcessVideo.OutputFileFor | mpi/src/process_video.c:296-300 | the output path fits 512 bytes and is /tmp/video_<job_id>.mp4 for job ids up to 496 characters |
| ProcessVideo.MainRejectsFewArguments | mpi/src/process_video.c:283-290 | fewer than three arguments: exit 1 and no phase runs |
| ProcessVideo.MainSucceedsIffPhasesSucceed | mpi/src/process_video.c:311-346 | exit 0 exactly when arguments suffice and both phases succeed; the run is then download, barrier, decompose, barrier |
| ProcessVideo.MainStopsAfterFailedDownload | mpi/src/process_video.c:312-319 | a failed download ends the run before any barrier or decomposition |
| ProcessVideo.MainWiresArguments | mpi/src/process_video.c:292-328 | argv[2] is downloaded to the output file, and decomposition uses that file, argv[3] and argv[4] or "{}" |
| Filters.FilterOfId | mpi/src/filters.h:7-13 | a recognised choice names the filter with that number; an unrecognised one lies outside 0..4 |
| Filters.FilterIdRoundTrip | mpi/src/filters.h:7-13 | the enum numbers lie in 0..4 and each filter is recovered from its number |
| Filters.Clamp | mpi/src/filters_omp.cpp:11-13 | the value is max(0, min(v, 255)) |
| Filters.ClampIsIdentityOnBytes | mpi/src/filters_omp.cpp:11-13 | clamp keeps a value already in 0..255 |
| Filters.PixelInBounds | mpi/src/filters_omp.cpp:63-66 | the three bytes of an in-frame pixel lie inside the frame |
| Filters.Coords | mpi/src/filters_omp.cpp:72 | a byte offset decodes into an in-frame pixel and channel whose offset it is |
| Filters.CoordsOfPixel | mpi/src/filters_omp.cpp:72 | decoding a pixel's channel offset gives back that pixel and channel |
| Filters.Snapshot | mpi/src/filters_omp.cpp:47-49 | the copy is fresh and equals the frame's first n bytes |
| Filters.InvertIsInvolution | mpi/src/filters_omp.cpp:15-22 | inverting twice restores the frame |
| Filters.ApplyInvert | mpi/src/filters_omp.cpp:15-22 | the first 3·w·h bytes become 255 minus themselves, and the rest are kept |
| Filters.GrayscaleChannelsEqual | mpi/src/filters_omp.cpp:24-41 | every grayed pixel has three equal bytes, its gray value, and bytes past the pixels are kept |
| Filters.ApplyGrayscale | mpi/src/filters_omp.cpp:24-41 | the frame becomes its grayed form, pixel by pixel |
| Filters.BlurredAt | mpi/src/filters_omp.cpp:88-93 | blur's byte at each in-frame pixel and channel is that pixel's window value |
| Filters.BlurIsSumOverNine | mpi/src/filters_omp.cpp:54-93 | the pixel itself is always counted, the window sum is in 0..9·255, and the new byte is that sum divided by 9 |
| Filters.BlurKeepsConstantNeighbourhood | mpi/src/filters_omp.cpp:57-92 | an interior pixel whose window is uniformly v keeps v |
| Filters.BlurDarkensCorner | mpi/src/filters_omp.cpp:62-92 | the divisor stays 9 at the border: a corner of a uniform v region becomes 4v/9 |
| Filters.BlurIsLocal | mpi/src/filters_omp.cpp:47-70 | a blurred pixel depends only on the snapshot's bytes in its own window |
| Filters.SumBounds | mpi/src/filters_omp.cpp:54-67 | a sum of taps in 0..m lies in 0..(number of taps)·m |
| Filters.ReadPixel | mpi/src/filters_omp.cpp:63-66 | the three bytes read are the neighbour's B, G, R in the snapshot |
| Filters.NeighbourSums | mpi/src/filters_omp.cpp:54-70 | the dy/dx loops leave the window sums of B, G, R and the in-frame tap count |
| Filters.BlurPixel | mpi/src/filters_omp.cpp:72-93 | one iteration writes the pixel's three blurred bytes and nothing else |
| Filters.BlurRow | mpi/src/filters_omp.cpp:53-94 | one row of the scan writes that row's blurred bytes |
| Filters.ApplyBlur | mpi/src/filters_omp.cpp:43-98 | the frame becomes the blur of its own snapshot |
| Filters.EdgeKeepsBorder | mpi/src/filters_omp.cpp:111-112 | rows 0 and h−1 and columns 0 and w−1 are kept |
| Filters.EdgedAt | mpi/src/filters_omp.cpp:182-188 | edge's byte at an interior pixel is the clamped magnitude of its window |
| Filters.EdgeChannelsEqual | mpi/src/filters_omp.cpp:183-188 | an interior pixel gets one value in all three channels |
| Filters.NeighbourWindow | mpi/src/filters_omp.cpp:117-180 | the dy/dx loops read the 27 snapshot bytes of the window in loop order |
| Filters.EdgeKeepsTop | mpi/src/filters_omp.cpp:111-112 | bytes before pixel (1,1) are kept |
| Filters.EdgeKeepsRowGap | mpi/src/filters_omp.cpp:111-112 | the last pixel of a row and the first of the next, which the scan steps over, are kept |
| Filters.EdgeKeepsBottom | mpi/src/filters_omp.cpp:111-112 | bytes from pixel (1, h−1) on are kept |
| Filters.EdgeScanStart | mpi/src/filters_omp.cpp:111-112 | when the scan reaches (1,1), the frame is still the original |
| Filters.EdgeScanNextRow | mpi/src/filters_omp.cpp:111-112 | moving from the end of row y to (1, y+1) skips only bytes edge keeps |
| Filters.EdgeScanEnd | mpi/src/filters_omp.cpp:111-112 | when the scan stops, the frame is final |
| Filters.EdgePixel | mpi/src/filters_omp.cpp:113-188 | one iteration writes the pixel's edge value to its three bytes and nothing else |
| Filters.EdgeRow | mpi/src/filters_omp.cpp:112-189 | the x loop over row y writes that row's interior edge values |
| Filters.ApplyEdge | mpi/src/filters_omp.cpp:100-193 | the frame becomes the edge image of its own snapshot, with the border kept |
| Filters.UnknownChoiceLeavesFrame | mpi/src/filters_omp.cpp:212-214 | any choice outside 1..4, FILTER_NONE included, leaves the frame |
| Filters.ApplyFilterCpu | mpi/src/filters_omp.cpp:195-216 | a null frame is left alone; otherwise the frame becomes the chosen filter's result |
| VideoDecompose.FilterForTask | mpi/src/video_decompose.cpp:21-31 | the filter id is one of 0..4 |
| VideoDecompose.FilterForTaskNames | mpi/src/video_decompose.cpp:21-29 | a task selects a real filter exactly when it is that filter's name |
| VideoDecompose.UnknownTaskSelectsNone | mpi/src/video_decompose.cpp:30 | any other task selects FILTER_NONE |
| VideoDecompose.Manifest | mpi/src/video_decompose.cpp:184-186 | the list has one line per rank |
| VideoDecompose.ManifestNamesSegment | mpi/src/video_decompose.cpp:185 | the list line for rank r names exactly the segment rank r wrote |
| VideoDecompose.SegmentNamesDistinct | mpi/src/video_decompose.cpp:96-97 | different ranks write different segment files |
| VideoDecompose.NamesDistinct | mpi/src/video_decompose.cpp:182-198 | the list, each segment, the merged output and the input are distinct paths |
| VideoDecompose.CpuPathIsFilter | mpi/src/video_decompose.cpp:135-152 | without a GPU result the written frame is the CPU filter's output |
| VideoDecompose.ReadCount | mpi/src/video_decompose.cpp:124-129 | the loop reads only non-empty frames, stops at the first empty one, and never passes the end |
| VideoDecompose.ReadCountFull | mpi/src/video_decompose.cpp:124-129 | with no empty frame in the range, the loop reads all of it |
| VideoDecompose.SegmentIsFilteredRange | mpi/src/video_decompose.cpp:124-155 | a segment has at most its range's length; frame k is input frame start+k processed |
| VideoDecompose.SegmentStopsAtEmptyFrame | mpi/src/video_decompose.cpp:126-129 | an empty frame at j leaves at most j − start frames in the segment |
| VideoDecompose.TransformFrame | mpi/src/video_decompose.cpp:135-152 | the frame passed to the writer: the GPU's result when there is one, else the CPU filter's |
| VideoDecompose.DecomposeSegment | mpi/src/video_decompose.cpp:35-168 | a rank's status and files before the barrier: 0 with nothing written on any early error, else 1 and its segment |
| VideoDecompose.ReadFrames | mpi/src/video_decompose.cpp:124-161 | the frames written are those read up to the first empty frame, each processed |
| VideoDecompose.WriteManifest | mpi/src/video_decompose.cpp:182-187 | the list file holds one line per rank, in rank order |
| VideoDecompose.RemoveSegments | mpi/src/video_decompose.cpp:206-209 | every segment file is gone and nothing else changes |
| VideoDecompose.MergeSegments | mpi/src/video_decompose.cpp:179-221 | list, ffmpeg, cleanup and rename leave the merged-files function's result |
| VideoDecompose.DecomposeVideo | mpi/src/video_decompose.cpp:33-224 | a rank returns its segment status; on rank 0 after a successful segment, the other ranks' files become visible and are merged |
| VideoDecompose.SegmentIsSliceOfWhole | mpi/src/video_decompose.cpp:124-161 | with no empty frame, rank r's segment is its range of the whole filtered video |
| VideoDecompose.ConcatOfSegments | mpi/src/video_decompose.cpp:184-201 | concatenating the listed segments gives the first k ranks' filtered frames in order |
| VideoDecompose.MergedVideoIsFilteredInput | mpi/src/video_decompose.cpp:177-221 | with every segment written and ffmpeg succeeding, the input path holds the whole filtered video, and the list, merged file and segments are gone |
| VideoDecompose.FailedMergeKeepsInput | mpi/src/video_decompose.cpp:198-220 | when ffmpeg fails, the input is kept and the segments and list are gone |
| ApplyLut.LutCoordsInRange | mpi/src/apply_lut.cpp:60-61 | for levels in 0..63, lut_x and lut_y lie in 0..511 |
| ApplyLut.LutCoordsInvert | mpi/src/apply_lut.cpp:60-61 | r = x/8, b = y/8 and g = (x%8)·8 + y%8 recover the levels |
| ApplyLut.LutCoordsInjective | mpi/src/apply_lut.cpp:57-63 | no two table entries read the same image pixel |
| ApplyLut.LutCoordsOnto | mpi/src/apply_lut.cpp:57-63 | every pixel of the 512×512 image is read by some entry |
| ApplyLut.LutEntryIsAtCoords | mpi/src/apply_lut.cpp:62 | the entry is the image pixel at row lut_y and column lut_x, inside the image |
| ApplyLut.FillLutRow | mpi/src/apply_lut.cpp:59-64 | the b loop fills entries (r, g, ·) and leaves every other (r, g) pair |
| ApplyLut.FillLutPlane | mpi/src/apply_lut.cpp:58-65 | the g loop fills plane r and leaves every other plane |
| ApplyLut.BuildLut | mpi/src/apply_lut.cpp:55-66 | the fresh 64×64×64 table holds the named image pixel at every entry |
| ApplyLut.GradedReadsImage | mpi/src/apply_lut.cpp:104-109 | a graded pixel is the image pixel at column (R/4)·8 + (G/4)/8 and row (B/4)·8 + (G/4)%8, always inside the image |
| ApplyLut.GradingQuantises | mpi/src/apply_lut.cpp:105-109 | pixels agreeing on the top six bits of each channel are graded alike |
| ApplyLut.IdentityLutQuantises | mpi/src/apply_lut.cpp:55-66 | through the neutral table image, a pixel keeps the top six bits of every channel |
| ApplyLut.GradedFrame | mpi/src/apply_lut.cpp:100 | the output frame has the input's size |
| ApplyLut.GradeRow | mpi/src/apply_lut.cpp:103-111 | the x loop grades row y from the table |
| ApplyLut.GradeFrame | mpi/src/apply_lut.cpp:100-112 | the y/x loops yield the frame with every pixel graded |
| ApplyLut.OneOutputPerReadFrame | mpi/src/apply_lut.cpp:91-115 | one output frame per frame read, never more than the range's length |
| ApplyLut.NoSkipsMeansOneToOne | mpi/src/apply_lut.cpp:91-115 | with no empty frame, output k is input start+k graded |
| ApplyLut.GradeFrames | mpi/src/apply_lut.cpp:91-115 | the frame loop writes each non-empty frame of the range, graded, in order, and skips empty ones |
| ApplyLut.LastSlash | mpi/src/apply_lut.cpp:68 | `strrchr` finds a '/' with none after it, or reports that there is none |
| ApplyLut.Basename | mpi/src/apply_lut.cpp:68-73 | the name has no '/', is a suffix of the path and is preceded by '/' unless it is the whole path, so it is the text after the last '/'; a path without '/' is returned whole |
| ApplyLut.BasenameOfPath | mpi/src/apply_lut.cpp:68-73 | dir/name yields name |
| ApplyLut.OutputPath | mpi/src/apply_lut.cpp:75-76 | the output path fits the 256-byte buffer and, when nothing is cut, is exactly /tmp/<basename>_rank_<rank>.avi |
| ApplyLut.OutputPathsDistinct | mpi/src/apply_lut.cpp:76 | when nothing is cut, different ranks write different files |
| ApplyLut.LongNamesShareOutput | mpi/src/apply_lut.cpp:75-76 | a name of 250 or more characters gives every rank the same path |
| ApplyLut.ApplyLutRank | mpi/src/apply_lut.cpp:10-120 | status 0 with nothing written for a non-positive count, unopenable video, missing or non-512×512 table image, or unwritable output; otherwise 1 and the graded frames of its range |

## Left out

- Network transfers are given values: `get_file_size`'s HEAD request becomes a probed size, and each curl transfer a sequence of deliveries with a transport result.
- Threads: `pthread_create`/`pthread_join` concurrency is modelled as running every chunk's thread and joining them all at once. Each thread writes only its own chunk.
- In process_video.c a failed `pthread_create` goes unchecked and is followed by a join. It is not modelled.
- Freeing memory (`free`, `delete[]`) is not modelled, nor are the allocations that throw (`new unsigned char[]`). `malloc` failures the code checks are given booleans.
- Logging and timing are not modelled: `printf`, `fprintf(stderr, …)`, `omp_get_wtime`, the average time per frame, `fps` and `fourcc`.
- OpenMP `parallel for` loops run sequentially in the model. Their iterations write disjoint bytes.
- Filters.ApplyGrayscale: the float luma `0.299R + 0.587G + 0.114B` and its truncating cast are a parameter (`FloatOps`), not computed.
- Filters.ApplyEdge: the float Sobel magnitude and its `(int)sqrt` are a parameter. The window it reads and the clamping are modelled.
- `apply_filter_gpu` and `is_gpu_available` are given values. A failed GPU call (a negative time) is taken to leave the frame unchanged before the CPU fallback.
- Video decoding and encoding are given: a frame is its raw BGR bytes, and the writer keeps the frames it receives. The codec, frame size and seek accuracy are not modelled.
- `decompose_video` opens the video twice (the master's metadata read and each rank's own capture). Both opens are modelled by one `opens` flag. The same holds for `apply_lut`.
- MPI is modelled by its effect: broadcast values are parameters, and a barrier is the point where the other ranks' files become visible. A rank that returns before `MPI_Bcast` (rank 0 failing to open the video) leaves the other ranks waiting; that hang is not modelled.
- VideoDecompose.DecomposeVideo: each rank is modelled on its own, so rank 0 always passes the barrier (video_decompose.cpp:177) with whatever files `others` holds, then merges. A rank whose capture or writer fails to open (video_decompose.cpp:83-86, 102-106) returns 0 without reaching that barrier. In the program, rank 0 and every rank still running would then wait there forever. The model does not capture that hang: it describes rank 0's merge as if the barrier completed.
- ProcessVideo.ProcessVideoMain: likewise one rank at a time. A rank whose download or decomposition fails returns before the barriers at process_video.c:321 and 334 (process_video.c:312-319, 328-332), and the ranks waiting at those barriers hang. `ProcessVideo.MainSucceedsIffPhasesSucceed` describes the failing rank's own run, not that hang.
- Storage.FileSystem.CreateBytes: `free` is the space left after truncation. Opening an existing byte file with "wb" empties it but does not give its bytes back to `free`, so a rerun over an existing output sees only the space the disk had with that file removed beforehand.
- ffmpeg is modelled as the concatenation of the listed segments when it succeeds, and as no output when it fails. `system`'s result is ignored, as in the code. The unchecked `fopen` of the list, which would crash on failure, is taken to succeed.
- Integer widths: `int` products such as `rank * frames_per_rank` and the `size_t` sums in the callback are unbounded in the model, so their overflow is not modelled. C's truncating division is modelled where negative counts can reach it.
- Strings do not contain NUL characters, so C strings and Dafny strings agree.
- The LUT image path passed to `imread` is I/O; the decoded image is a parameter (an empty image when loading fails).
- mpi/src/main.cpp and project/main.cpp: only their frame-range formula is modelled (FrameRanges). Their `MPI_Abort` and seek-and-print steps are not.
- rabbitmq_consumer.c, the api/ service, hola.py and test_filters.py are not part of this model.
