/** apply_lut in apply_lut.cpp: every rank grades its range of frames through a 3-D
    colour lookup table built from a 512x512 image, skipping frames it cannot read,
    and writes them to `/tmp/<name>_rank_<rank>.avi`.

    The table has 64 levels per channel. Entry (r, g, b) is the image pixel at column
    r*8 + g/8 and row b*8 + g%8: the image is 8x8 tiles of 64x64, one tile per green
    level, so the 64^3 entries use each of the 512*512 pixels exactly once. A pixel
    with channels (B, G, R) is graded to the entry (R/4, G/4, B/4). */
module ApplyLut {
  import opened Common
  import opened Storage
  import opened FrameRanges

  /** An OpenCV `Vec3b`: blue, green, red. */
  datatype Pixel = Pixel(b: Byte, g: Byte, r: Byte)

  /** A `Mat` of `CV_8UC3`: `rows` by `cols` pixels, row by row. */
  datatype Image = Image(rows: nat, cols: nat, pixels: seq<Pixel>)

  predicate WellFormed(img: Image) { |img.pixels| == img.rows * img.cols }

  /** `Mat::empty()`: no pixels. */
  predicate IsEmpty(img: Image) { |img.pixels| == 0 }


  // ---------------------------------------------------------------------------
  // Table coordinates

  function LutX(r: int, g: int): int { r * 8 + g / 8 }

  function LutY(g: int, b: int): int { b * 8 + g % 8 }

  /** For levels in [0, 63] both coordinates lie in [0, 511]. */
  lemma LutCoordsInRange(r: int, g: int, b: int)
    requires 0 <= r < 64 && 0 <= g < 64 && 0 <= b < 64
    ensures 0 <= LutX(r, g) < 512 && 0 <= LutY(g, b) < 512
  {
  }

  /** The levels are recovered from the coordinates: r = x/8, b = y/8,
      g = (x%8)*8 + y%8. */
  lemma LutCoordsInvert(r: int, g: int, b: int)
    requires 0 <= r < 64 && 0 <= g < 64 && 0 <= b < 64
    ensures LutX(r, g) / 8 == r && LutY(g, b) / 8 == b
    ensures (LutX(r, g) % 8) * 8 + LutY(g, b) % 8 == g
  {
    assert LutX(r, g) / 8 == r && LutX(r, g) % 8 == g / 8;
    assert LutY(g, b) / 8 == b && LutY(g, b) % 8 == g % 8;
  }

  /** No two table entries read the same image pixel. */
  lemma LutCoordsInjective(r1: int, g1: int, b1: int, r2: int, g2: int, b2: int)
    requires 0 <= r1 < 64 && 0 <= g1 < 64 && 0 <= b1 < 64
    requires 0 <= r2 < 64 && 0 <= g2 < 64 && 0 <= b2 < 64
    requires LutX(r1, g1) == LutX(r2, g2) && LutY(g1, b1) == LutY(g2, b2)
    ensures r1 == r2 && g1 == g2 && b1 == b2
  {
    LutCoordsInvert(r1, g1, b1);
    LutCoordsInvert(r2, g2, b2);
  }

  /** Every image pixel is read by some table entry. */
  lemma LutCoordsOnto(x: int, y: int)
    requires 0 <= x < 512 && 0 <= y < 512
    ensures var r, g, b := x / 8, (x % 8) * 8 + y % 8, y / 8;
      0 <= r < 64 && 0 <= g < 64 && 0 <= b < 64 && LutX(r, g) == x && LutY(g, b) == y
  {
    var g := (x % 8) * 8 + y % 8;
    assert g / 8 == x % 8 && g % 8 == y % 8;
  }

  /** The position of pixel (row y, column x) in a row-major image. */
  function PixelAt(cols: int, y: int, x: int): int { y * cols + x }

  lemma PixelAtInRange(rows: int, cols: int, y: int, x: int)
    requires 0 <= y < rows && 0 <= x < cols
    ensures 0 <= PixelAt(cols, y, x) < rows * cols
  {
    MulLeq(y + 1, rows, cols);
    MulSucc(y, cols);
  }

  /** Row y of a row-major image ends where row y + 1 starts, inside the image. */
  lemma RowEnd(rows: int, cols: int, y: int)
    requires 0 <= y < rows && 0 <= cols
    ensures PixelAt(cols, y, cols) == PixelAt(cols, y + 1, 0) <= rows * cols
    ensures 0 <= PixelAt(cols, y, 0)
  {
    MulLeq(y + 1, rows, cols);
    MulSucc(y, cols);
  }

  /** `lut_image.at<Vec3b>(lut_y, lut_x)` for entry (r, g, b): the pixel at position
      lut_y * 512 + lut_x of the image, written out (see LutEntryIsAtCoords). */
  function LutEntry(img: Image, r: int, g: int, b: int): Pixel
    requires WellFormed(img) && img.rows == 512 && img.cols == 512
    requires 0 <= r < 64 && 0 <= g < 64 && 0 <= b < 64
  {
    img.pixels[(b * 8 + g % 8) * 512 + r * 8 + g / 8]
  }

  /** The entry is the image pixel in row LutY and column LutX. */
  lemma LutEntryIsAtCoords(img: Image, r: int, g: int, b: int)
    requires WellFormed(img) && img.rows == 512 && img.cols == 512
    requires 0 <= r < 64 && 0 <= g < 64 && 0 <= b < 64
    ensures 0 <= PixelAt(512, LutY(g, b), LutX(r, g)) < |img.pixels|
    ensures LutEntry(img, r, g, b) == img.pixels[PixelAt(512, LutY(g, b), LutX(r, g))]
  {
    var x, y := r * 8 + g / 8, b * 8 + g % 8;
    assert 0 <= x < 512 && 0 <= y < 512;
    assert LutX(r, g) == x && LutY(g, b) == y;
    assert PixelAt(512, y, x) == y * 512 + x;
  }

  /** The 512x512 table image is square-shaped and fully used. */
  predicate ValidLutImage(img: Image)
  {
    WellFormed(img) && img.rows == 512 && img.cols == 512
  }

  /** `lut` holds, at every entry, the image pixel its coordinates name. */
  ghost predicate LutFilled(lut: array3<Pixel>, img: Image)
    requires ValidLutImage(img)
    reads lut
  {
    lut.Length0 == 64 && lut.Length1 == 64 && lut.Length2 == 64 &&
    forall r, g, b :: 0 <= r < 64 && 0 <= g < 64 && 0 <= b < 64 ==>
      lut[r, g, b] == LutEntry(img, r, g, b)
  }

  // ---------------------------------------------------------------------------
  // Building the table

  /** The innermost loop of the build, over b for fixed r and g. */
  method FillLutRow(lut: array3<Pixel>, img: Image, r: int, g: int)
    requires ValidLutImage(img) && lut.Length0 == 64 && lut.Length1 == 64 && lut.Length2 == 64
    requires 0 <= r < 64 && 0 <= g < 64
    modifies lut
    ensures forall b :: 0 <= b < 64 ==> lut[r, g, b] == LutEntry(img, r, g, b)
    ensures forall r', g', b' :: 0 <= r' < 64 && 0 <= g' < 64 && 0 <= b' < 64 && (r' != r || g' != g) ==>
      lut[r', g', b'] == old(lut[r', g', b'])
  {
    for b := 0 to 64
      invariant forall b' :: 0 <= b' < b ==> lut[r, g, b'] == LutEntry(img, r, g, b')
      invariant forall r', g', b' :: 0 <= r' < 64 && 0 <= g' < 64 && 0 <= b' < 64 && (r' != r || g' != g) ==>
        lut[r', g', b'] == old(lut[r', g', b'])
    {
      var lutX := r * 8 + g / 8;
      var lutY := b * 8 + g % 8;
      var pixel := img.pixels[lutY * 512 + lutX];
      assert pixel == LutEntry(img, r, g, b);
      lut[r, g, b] := pixel;
    }
  }

  /** The g and b loops for fixed r. */
  method FillLutPlane(lut: array3<Pixel>, img: Image, r: int)
    requires ValidLutImage(img) && lut.Length0 == 64 && lut.Length1 == 64 && lut.Length2 == 64
    requires 0 <= r < 64
    modifies lut
    ensures forall g, b :: 0 <= g < 64 && 0 <= b < 64 ==> lut[r, g, b] == LutEntry(img, r, g, b)
    ensures forall r', g', b' :: 0 <= r' < 64 && 0 <= g' < 64 && 0 <= b' < 64 && r' != r ==>
      lut[r', g', b'] == old(lut[r', g', b'])
  {
    for g := 0 to 64
      invariant forall g', b :: 0 <= g' < g && 0 <= b < 64 ==> lut[r, g', b] == LutEntry(img, r, g', b)
      invariant forall r', g', b' :: 0 <= r' < 64 && 0 <= g' < 64 && 0 <= b' < 64 && r' != r ==>
        lut[r', g', b'] == old(lut[r', g', b'])
    {
      FillLutRow(lut, img, r, g);
    }
  }

  /** `Mat lut(3, {64, 64, 64}, CV_8UC3)` and the triple loop that fills it. */
  method BuildLut(img: Image) returns (lut: array3<Pixel>)
    requires ValidLutImage(img)
    ensures fresh(lut) && LutFilled(lut, img)
  {
    lut := new Pixel[64, 64, 64];
    for r := 0 to 64
      invariant forall r', g, b :: 0 <= r' < r && 0 <= g < 64 && 0 <= b < 64 ==>
        lut[r', g, b] == LutEntry(img, r', g, b)
    {
      FillLutPlane(lut, img, r);
    }
  }

  // ---------------------------------------------------------------------------
  // Grading one frame

  /** The graded pixel: the table entry at (R/4, G/4, B/4). */
  function Graded(img: Image, p: Pixel): Pixel
    requires ValidLutImage(img)
  {
    LutEntry(img, p.r as int / 4, p.g as int / 4, p.b as int / 4)
  }

  /** Grading reads the image pixel at column (R/4)*8 + (G/4)/8 and row
      (B/4)*8 + (G/4)%8, which is always inside the 512x512 image. */
  lemma GradedReadsImage(img: Image, p: Pixel)
    requires ValidLutImage(img)
    ensures var x, y := LutX(p.r as int / 4, p.g as int / 4), LutY(p.g as int / 4, p.b as int / 4);
      0 <= x < 512 && 0 <= y < 512 && Graded(img, p) == img.pixels[PixelAt(512, y, x)]
  {
    LutEntryIsAtCoords(img, p.r as int / 4, p.g as int / 4, p.b as int / 4);
  }

  /** Pixels that agree on the top six bits of every channel are graded alike. */
  lemma GradingQuantises(img: Image, p: Pixel, q: Pixel)
    requires ValidLutImage(img)
    requires p.r as int / 4 == q.r as int / 4 && p.g as int / 4 == q.g as int / 4 && p.b as int / 4 == q.b as int / 4
    ensures Graded(img, p) == Graded(img, q)
  {
  }

  /** The neutral table image: the pixel in row y and column x holds the levels whose
      entry it is (r = x/8, g = (x%8)*8 + y%8, b = y/8), scaled back to 0..252. */
  function IdentityLut(): (img: Image)
    ensures ValidLutImage(img)
  {
    Image(512, 512, seq(262144, k requires 0 <= k < 262144 =>
      var y, x := k / 512, k % 512;
      Pixel((y / 8 * 4) as Byte, (((x % 8) * 8 + y % 8) * 4) as Byte, (x / 8 * 4) as Byte)))
  }

  /** Through the neutral table a pixel keeps the top six bits of every channel. */
  lemma IdentityLutQuantises(p: Pixel)
    ensures Graded(IdentityLut(), p) ==
      Pixel((p.b as int / 4 * 4) as Byte, (p.g as int / 4 * 4) as Byte, (p.r as int / 4 * 4) as Byte)
  {
    var r, g, b := p.r as int / 4, p.g as int / 4, p.b as int / 4;
    var x, y := LutX(r, g), LutY(g, b);
    LutEntryIsAtCoords(IdentityLut(), r, g, b);
    var k := PixelAt(512, y, x);
    assert k / 512 == y && k % 512 == x;
    LutCoordsInvert(r, g, b);
  }

  /** The frame `output_frame` becomes: same size, every pixel graded. */
  function GradedFrame(img: Image, frame: Image): (out: Image)
    requires ValidLutImage(img)
    ensures out.rows == frame.rows && out.cols == frame.cols && |out.pixels| == |frame.pixels|
  {
    Image(frame.rows, frame.cols, seq(|frame.pixels|, k requires 0 <= k < |frame.pixels| => Graded(img, frame.pixels[k])))
  }

  /** The x loop of the grading for row y. */
  method GradeRow(lut: array3<Pixel>, img: Image, frame: Image, out: array<Pixel>, y: int)
    requires ValidLutImage(img) && LutFilled(lut, img) && WellFormed(frame)
    requires out.Length == |frame.pixels| && 0 <= y < frame.rows
    requires forall k :: 0 <= k < PixelAt(frame.cols, y, 0) ==> out[k] == Graded(img, frame.pixels[k])
    modifies out
    ensures forall k :: 0 <= k < PixelAt(frame.cols, y + 1, 0) ==> out[k] == Graded(img, frame.pixels[k])
  {
    RowEnd(frame.rows, frame.cols, y);
    for x := 0 to frame.cols
      invariant PixelAt(frame.cols, y, x) <= |frame.pixels|
      invariant forall k :: 0 <= k < PixelAt(frame.cols, y, x) ==> out[k] == Graded(img, frame.pixels[k])
    {
      PixelAtInRange(frame.rows, frame.cols, y, x);
      var k := PixelAt(frame.cols, y, x);
      var pixel := frame.pixels[k];
      var r := pixel.r as int;
      var g := pixel.g as int;
      var b := pixel.b as int;
      out[k] := lut[r / 4, g / 4, b / 4];
      assert out[k] == Graded(img, frame.pixels[k]);
      assert PixelAt(frame.cols, y, x + 1) == k + 1;
    }
  }

  /** `output_frame = Mat(frame.size(), frame.type())` and the y/x loops over it. */
  method GradeFrame(lut: array3<Pixel>, img: Image, frame: Image) returns (output: Image)
    requires ValidLutImage(img) && LutFilled(lut, img) && WellFormed(frame)
    ensures output == GradedFrame(img, frame)
  {
    var out := new Pixel[|frame.pixels|];
    for y := 0 to frame.rows
      invariant forall k :: 0 <= k < PixelAt(frame.cols, y, 0) ==> out[k] == Graded(img, frame.pixels[k])
    {
      GradeRow(lut, img, frame, out, y);
    }
    output := Image(frame.rows, frame.cols, out[..]);
  }

  // ---------------------------------------------------------------------------
  // The frame loop

  /** A frame's bytes as the writer receives them: B, G, R of each pixel in turn. */
  function ImageBytes(img: Image): (r: seq<Byte>)
    ensures |r| == 3 * |img.pixels|
  {
    seq(3 * |img.pixels|, i requires 0 <= i < 3 * |img.pixels| =>
      var p := img.pixels[i / 3];
      if i % 3 == 0 then p.b else if i % 3 == 1 then p.g else p.r)
  }

  /** The input as OpenCV decodes it: whether it opens, and the frame at each position
      (a frame past the end, or one that cannot be decoded, is empty). */
  datatype LutSource = LutSource(opens: bool, frames: seq<Image>)

  predicate ValidSource(src: LutSource) { forall i :: 0 <= i < |src.frames| ==> WellFormed(src.frames[i]) }

  /** `cap_worker.set(CAP_PROP_POS_FRAMES, i); cap_worker >> frame`. */
  function FrameAt(src: LutSource, i: int): (f: Image)
    requires ValidSource(src)
    ensures WellFormed(f)
  {
    if 0 <= i < |src.frames| then src.frames[i] else Image(0, 0, [])
  }

  /** The frames written for positions start .. i - 1: each frame that is not empty,
      graded, in order; empty ones are skipped. */
  function GradedRange(img: Image, src: LutSource, start: int, i: int): seq<seq<Byte>>
    requires ValidLutImage(img) && ValidSource(src)
    decreases i - start
  {
    if i <= start then []
    else
      var f := FrameAt(src, i - 1);
      GradedRange(img, src, start, i - 1) + (if IsEmpty(f) then [] else [ImageBytes(GradedFrame(img, f))])
  }

  /** The number of frames that are not empty at positions start .. i - 1. */
  function ReadableCount(src: LutSource, start: int, i: int): nat
    requires ValidSource(src)
    decreases i - start
  {
    if i <= start then 0 else ReadableCount(src, start, i - 1) + (if IsEmpty(FrameAt(src, i - 1)) then 0 else 1)
  }

  /** One output frame per frame read, so never more than the range's length. */
  lemma {:induction false} OneOutputPerReadFrame(img: Image, src: LutSource, start: int, i: int)
    requires ValidLutImage(img) && ValidSource(src)
    ensures |GradedRange(img, src, start, i)| == ReadableCount(src, start, i)
    ensures ReadableCount(src, start, i) <= if i <= start then 0 else i - start
    decreases i - start
  {
    if i > start {
      OneOutputPerReadFrame(img, src, start, i - 1);
    }
  }

  /** With no empty frame in the range, output frame k is input frame start + k graded. */
  lemma {:induction false} NoSkipsMeansOneToOne(img: Image, src: LutSource, start: int, i: int)
    requires ValidLutImage(img) && ValidSource(src) && start <= i
    requires forall j :: start <= j < i ==> !IsEmpty(FrameAt(src, j))
    ensures |GradedRange(img, src, start, i)| == i - start
    ensures forall k :: 0 <= k < i - start ==>
      GradedRange(img, src, start, i)[k] == ImageBytes(GradedFrame(img, FrameAt(src, start + k)))
    decreases i - start
  {
    if i > start {
      NoSkipsMeansOneToOne(img, src, start, i - 1);
    }
  }

  /** The frame loop: `continue` past an empty frame, grade and write every other one. */
  method GradeFrames(lut: array3<Pixel>, img: Image, src: LutSource, start: int, end: int) returns (written: seq<seq<Byte>>)
    requires ValidLutImage(img) && LutFilled(lut, img) && ValidSource(src)
    ensures written == GradedRange(img, src, start, end)
  {
    written := [];
    var i := start;
    while i < end
      invariant i == start || start <= i <= end
      invariant written == GradedRange(img, src, start, i)
    {
      var frame := FrameAt(src, i);
      if |frame.pixels| == 0 {
        i := i + 1;
        continue;
      }
      var outputFrame := GradeFrame(lut, img, frame);
      written := written + [ImageBytes(outputFrame)];
      i := i + 1;
    }
  }

  // ---------------------------------------------------------------------------
  // The output path

  /** `strrchr(path, '/')`: the index of the last '/', if any. */
  function LastSlash(path: string): (r: Option<nat>)
    ensures r.Some? ==> (r.value < |path| && path[r.value] == '/' &&
      forall i :: r.value < i < |path| ==> path[i] != '/')
    ensures r.None? ==> forall i :: 0 <= i < |path| ==> path[i] != '/'
  {
    if path == [] then None
    else if path[|path| - 1] == '/' then Some(|path| - 1)
    else LastSlash(path[..|path| - 1])
  }

  /** The text after the last '/', or the whole path when there is none. */
  function Basename(path: string): (name: string)
    ensures forall i :: 0 <= i < |name| ==> name[i] != '/'
    ensures |name| <= |path| && path[|path| - |name|..] == name
    ensures |name| < |path| ==> path[|path| - |name| - 1] == '/'
    ensures (forall i :: 0 <= i < |path| ==> path[i] != '/') ==> name == path
  {
    match LastSlash(path)
    case None => path
    case Some(i) => path[i + 1..]
  }

  /** A path with a directory part yields its last component. */
  lemma BasenameOfPath(dir: string, name: string)
    requires forall i :: 0 <= i < |name| ==> name[i] != '/'
    ensures Basename(dir + "/" + name) == name
  {
    var p := dir + "/" + name;
    assert p[|dir|] == '/';
    assert p[|dir| + 1..] == name;
    assert forall i :: |dir| < i < |p| ==> p[i] == name[i - |dir| - 1];
    var l := LastSlash(p);
    assert l.Some? && l.value == |dir|;
  }

  /** `snprintf(buf, 256, "/tmp/%s_rank_%d.avi", video_name, rank)`. */
  function OutputPath(inputPath: string, rank: nat): (path: string)
    ensures |path| < 256
    ensures |Basename(inputPath)| + |NatToString(rank)| + 15 < 256 ==>
      path == "/tmp/" + Basename(inputPath) + "_rank_" + NatToString(rank) + ".avi"
  {
    Snprintf("/tmp/" + Basename(inputPath) + "_rank_" + NatToString(rank) + ".avi", 256)
  }

  /** For a name short enough that nothing is cut, each rank has its own output file. */
  lemma OutputPathsDistinct(inputPath: string, a: nat, b: nat)
    requires |Basename(inputPath)| + |NatToString(a)| + 15 < 256
    requires |Basename(inputPath)| + |NatToString(b)| + 15 < 256
    requires OutputPath(inputPath, a) == OutputPath(inputPath, b)
    ensures a == b
  {
    var name := Basename(inputPath);
    var pa, pb := OutputPath(inputPath, a), OutputPath(inputPath, b);
    var da, db := NatToString(a), NatToString(b);
    assert |da| == |db|;
    assert pa[|name| + 11..|pa| - 4] == da;
    assert pb[|name| + 11..|pb| - 4] == db;
    NatToStringInjective(a, b);
  }

  /** A name of 250 characters or more fills the buffer before the rank is printed,
      so every rank writes to the same file. */
  lemma LongNamesShareOutput(inputPath: string, a: nat, b: nat)
    requires |Basename(inputPath)| >= 250
    ensures OutputPath(inputPath, a) == OutputPath(inputPath, b)
    ensures OutputPath(inputPath, a) == ("/tmp/" + Basename(inputPath))[..255]
  {
    var name := Basename(inputPath);
    var sa := "/tmp/" + name + "_rank_" + NatToString(a) + ".avi";
    var sb := "/tmp/" + name + "_rank_" + NatToString(b) + ".avi";
    assert sa[..255] == ("/tmp/" + name)[..255];
    assert sb[..255] == ("/tmp/" + name)[..255];
  }

  // ---------------------------------------------------------------------------
  // apply_lut

  /** What one rank of `apply_lut` leaves: 0 and nothing written when the frame count is
      not positive, the video does not open, the table image is missing or not 512x512,
      or the output cannot be created; otherwise 1 and the graded frames of its range. */
  function LutOutcome(files: map<string, Content>, unwritable: set<string>, inputPath: string,
                      rank: int, procs: int, totalFrames: int, src: LutSource, lutImage: Image): (int, map<string, Content>)
    requires ValidRank(rank, procs) && ValidSource(src) && WellFormed(lutImage)
  {
    if totalFrames <= 0 || !src.opens || IsEmpty(lutImage) ||
       lutImage.rows != 512 || lutImage.cols != 512 || OutputPath(inputPath, rank) in unwritable then (0, files)
    else
      var start, end := StartFrame(rank, procs, totalFrames), EndFrame(rank, procs, totalFrames);
      (1, files[OutputPath(inputPath, rank) := Frames(GradedRange(lutImage, src, start, end))])
  }

  /** `apply_lut(input_video_path, rank, num_procs)` on one rank, given the broadcast
      frame count, the decoded video and the table image as `imread` returns it. */
  method ApplyLutRank(fs: FileSystem, inputPath: string, rank: int, procs: int, totalFrames: int,
                      src: LutSource, lutImage: Image) returns (status: int)
    requires ValidRank(rank, procs) && ValidSource(src) && WellFormed(lutImage)
    modifies fs
    ensures (status, fs.files) == LutOutcome(old(fs.files), old(fs.unwritable), inputPath, rank, procs, totalFrames, src, lutImage)
    ensures fs.free == old(fs.free) && fs.unwritable == old(fs.unwritable)
  {
    if totalFrames <= 0 {
      return 0;
    }
    var framesPerRank := totalFrames / procs;
    var start := rank * framesPerRank;
    var end := if rank == procs - 1 then totalFrames else start + framesPerRank;
    assert start == StartFrame(rank, procs, totalFrames) && end == EndFrame(rank, procs, totalFrames);
    if !src.opens {
      return 0;
    }
    if |lutImage.pixels| == 0 {
      return 0;
    }
    if lutImage.rows != 512 || lutImage.cols != 512 {
      return 0;
    }
    var lut := BuildLut(lutImage);
    var outputVideoPath := OutputPath(inputPath, rank);
    var writerOpen := fs.CreateVideo(outputVideoPath);
    if !writerOpen {
      return 0;
    }
    var written := GradeFrames(lut, lutImage, src, start, end);
    fs.StoreFrames(outputVideoPath, written);
    assert fs.files == old(fs.files)[outputVideoPath := Frames(written)];
    return 1;
  }
}
