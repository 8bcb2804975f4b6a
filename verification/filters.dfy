/** The CPU filters of filters_omp.cpp, applied in place to a frame of `width * height`
    pixels stored row by row as B, G, R bytes.

    Each filter is a method over the frame `array<Byte>`, proved against a function on
    the frame's old contents. The two float computations (the luma of grayscale and
    the Sobel magnitude of edge) are parameters: `Luma` is what the cast of
    `0.299f*r + 0.587f*g + 0.114f*b` yields, and `Magnitude` is `(int)std::sqrt(...)`
    as a function of the 27 bytes of the 3x3 window, so the model does not fix which
    channels feed the gradients. OpenMP loops are sequential here: no iteration writes
    a byte another one reads. */
module Filters {
  import opened Common
  import FrameRanges

  /** The FilterType enum. */
  datatype FilterKind = NoFilter | Grayscale | Blur | Invert | Edge

  function FilterId(f: FilterKind): int
  {
    match f
    case NoFilter => 0
    case Grayscale => 1
    case Blur => 2
    case Invert => 3
    case Edge => 4
  }

  /** The filter an integer `choice` names, if any. */
  function FilterOfId(choice: int): (r: Option<FilterKind>)
    ensures r.Some? ==> FilterId(r.value) == choice
    ensures r.None? ==> choice < 0 || choice > 4
  {
    if choice == 0 then Some(NoFilter)
    else if choice == 1 then Some(Grayscale)
    else if choice == 2 then Some(Blur)
    else if choice == 3 then Some(Invert)
    else if choice == 4 then Some(Edge)
    else None
  }

  /** The enum values are distinct and every one is recovered from its number. */
  lemma FilterIdRoundTrip(f: FilterKind)
    ensures FilterOfId(FilterId(f)) == Some(f)
    ensures 0 <= FilterId(f) <= 4
  {
  }

  type Luma = (Byte, Byte, Byte) -> Byte
  type Magnitude = seq<Byte> -> int

  /** The two float computations the filters are given. */
  datatype FloatOps = FloatOps(luma: Luma, magnitude: Magnitude)

  /** `clamp`: the nearest value in [0, 255]. */
  function Clamp(v: int): (b: Byte)
    ensures b as int == Max(0, Min(v, 255))
  {
    if v < 0 then 0 else if v > 255 then 255 else v as Byte
  }

  /** `clamp` never changes a value that is already a byte. */
  lemma ClampIsIdentityOnBytes(v: int)
    requires 0 <= v <= 255
    ensures Clamp(v) as int == v
  {
  }

  // ---------------------------------------------------------------------------
  // Frame geometry

  function FrameSize(w: int, h: int): int { w * h * 3 }

  /** Offset of the B byte of pixel (x, y). */
  function PixelIndex(x: int, y: int, w: int): int { (y * w + x) * 3 }

  predicate InFrame(x: int, y: int, w: int, h: int) { 0 <= x < w && 0 <= y < h }

  predicate Interior(x: int, y: int, w: int, h: int) { 1 <= x < w - 1 && 1 <= y < h - 1 }

  /** The three bytes of an in-frame pixel lie inside the frame. */
  lemma PixelInBounds(x: int, y: int, w: int, h: int)
    requires InFrame(x, y, w, h)
    ensures 0 <= PixelIndex(x, y, w) && PixelIndex(x, y, w) + 2 < FrameSize(w, h)
  {
    FrameRanges.MulLeq(0, y, w);
    FrameRanges.MulLeq(y + 1, h, w);
    FrameRanges.MulSucc(y, w);
    assert y * w + x < h * w;
  }

  lemma DecomposeBounds(i: int, w: int, h: int)
    requires 0 <= w && 0 <= i < FrameSize(w, h)
    ensures w > 0
    ensures 0 <= (i / 3) / w < h
    ensures i == (((i / 3) / w) * w + (i / 3) % w) * 3 + i % 3
  {
    var p := i / 3;
    assert i == 3 * p + i % 3;
    assert p < w * h;
    assert w != 0;
    var q, r := p / w, p % w;
    assert p == q * w + r;
    if q >= h {
      FrameRanges.MulLeq(h, q, w);
    }
  }

  /** Row-major decoding of a byte offset into (column, row, channel). */
  function Coords(i: int, w: int, h: int): (r: (int, int, int))
    requires 0 <= w && 0 <= i < FrameSize(w, h)
    ensures InFrame(r.0, r.1, w, h) && 0 <= r.2 < 3
    ensures i == PixelIndex(r.0, r.1, w) + r.2
  {
    DecomposeBounds(i, w, h);
    ((i / 3) % w, (i / 3) / w, i % 3)
  }

  /** Decoding the offset of a pixel's channel gives back that pixel and channel. */
  lemma CoordsOfPixel(x: int, y: int, c: int, w: int, h: int)
    requires InFrame(x, y, w, h) && 0 <= c < 3
    ensures 0 <= PixelIndex(x, y, w) + c < FrameSize(w, h)
    ensures Coords(PixelIndex(x, y, w) + c, w, h) == (x, y, c)
  {
    PixelInBounds(x, y, w, h);
    var i := PixelIndex(x, y, w) + c;
    var p := y * w + x;
    assert i / 3 == p && i % 3 == c;
    var q, r := p / w, p % w;
    assert p == q * w + r && 0 <= r < w;
    assert (q - y) * w == x - r;
    if q > y {
      FrameRanges.MulLeq(1, q - y, w);
    } else if q < y {
      FrameRanges.MulLeq(1, y - q, w);
    }
  }

  /** Channel `c` of pixel (x, y) of a frame held in `o`. */
  function PixelByte(o: seq<Byte>, w: int, h: int, x: int, y: int, c: int): Byte
    requires FrameSize(w, h) <= |o| && InFrame(x, y, w, h) && 0 <= c < 3
  {
    PixelInBounds(x, y, w, h);
    o[PixelIndex(x, y, w) + c]
  }

  /** Moving by (dx, dy) pixels moves the offset by 3 * (dy * width + dx). */
  lemma NeighbourOffset(x: int, y: int, dx: int, dy: int, w: int)
    ensures PixelIndex(x + dx, y + dy, w) == PixelIndex(x, y, w) + 3 * (dy * w + dx)
  {
    assert (y + dy) * w == y * w + dy * w;
  }

  /** Channel c of the neighbour at offset (dx, dy) of pixel (x, y), addressed from
      (x, y)'s own offset. */
  function Neighbour(o: seq<Byte>, w: int, h: int, x: int, y: int, dx: int, dy: int, c: int): Byte
    requires FrameSize(w, h) <= |o| && InFrame(x + dx, y + dy, w, h) && 0 <= c < 3
  {
    PixelInBounds(x + dx, y + dy, w, h);
    NeighbourOffset(x, y, dx, dy, w);
    o[PixelIndex(x, y, w) + 3 * (dy * w + dx) + c]
  }

  lemma NeighbourIsPixelByte(o: seq<Byte>, w: int, h: int, x: int, y: int, dx: int, dy: int, c: int)
    requires FrameSize(w, h) <= |o| && InFrame(x + dx, y + dy, w, h) && 0 <= c < 3
    ensures Neighbour(o, w, h, x, y, dx, dy, c) == PixelByte(o, w, h, x + dx, y + dy, c)
  {
    NeighbourOffset(x, y, dx, dy, w);
  }

  /** The frame `o` with its first n bytes taken from `t`: where a filter's scan stands
      once it has written every byte before offset n. */
  function Overlay(o: seq<Byte>, t: seq<Byte>, n: int): (r: seq<Byte>)
    requires |t| == |o|
    ensures |r| == |o|
  {
    seq(|o|, i requires 0 <= i < |o| => if i < n then t[i] else o[i])
  }

  /** Nothing written yet is the frame itself; everything written is the target. */
  lemma OverlayEnds(o: seq<Byte>, t: seq<Byte>, n: int)
    requires |t| == |o| && |o| <= n
    ensures Overlay(o, t, 0) == o && Overlay(o, t, n) == t
  {
  }

  /** Writing the next three bytes of the target. */
  lemma OverlayStep(o: seq<Byte>, t: seq<Byte>, n: int)
    requires |t| == |o| && 0 <= n && n + 3 <= |o|
    ensures Overlay(o, t, n)[n] == o[n] && Overlay(o, t, n)[n + 1] == o[n + 1] && Overlay(o, t, n)[n + 2] == o[n + 2]
    ensures Overlay(o, t, n + 3) == Overlay(o, t, n)[n := t[n]][n + 1 := t[n + 1]][n + 2 := t[n + 2]]
  {
  }

  /** Passing over bytes the target leaves as they were changes nothing. */
  lemma OverlaySkip(o: seq<Byte>, t: seq<Byte>, m: int, n: int)
    requires |t| == |o| && m <= n
    requires forall i :: m <= i < n && 0 <= i < |o| ==> t[i] == o[i]
    ensures Overlay(o, t, m) == Overlay(o, t, n)
  {
  }

  /** `new unsigned char[n]` followed by `memcpy` of the frame's first n bytes. */
  method Snapshot(frame: array<Byte>, n: int) returns (copy: array<Byte>)
    requires 0 <= n <= frame.Length
    ensures fresh(copy) && copy.Length == n
    ensures forall i :: 0 <= i < n ==> copy[i] == frame[i]
  {
    copy := new Byte[n];
    forall k | 0 <= k < n {
      copy[k] := frame[k];
    }
  }

  // ---------------------------------------------------------------------------
  // apply_invert_omp

  /** Every one of the first n bytes replaced by 255 minus itself, the rest kept. */
  function Inverted(s: seq<Byte>, n: int): (r: seq<Byte>)
  {
    seq(|s|, i requires 0 <= i < |s| => if i < n then 255 - s[i] else s[i])
  }

  /** Inverting twice restores the frame. */
  lemma InvertIsInvolution(s: seq<Byte>, n: int)
    ensures Inverted(Inverted(s, n), n) == s
  {
  }

  method ApplyInvert(frame: array<Byte>, w: int, h: int)
    requires FrameSize(w, h) <= frame.Length
    modifies frame
    ensures frame[..] == Inverted(old(frame[..]), FrameSize(w, h))
  {
    var totalPixels := w * h;
    var i := 0;
    while i < totalPixels * 3
      invariant 0 <= i <= Max(0, totalPixels * 3)
      invariant forall k :: 0 <= k < frame.Length ==> frame[k] == if k < i then 255 - old(frame[k]) else old(frame[k])
    {
      frame[i] := 255 - frame[i];
      i := i + 1;
    }
  }

  // ---------------------------------------------------------------------------
  // apply_grayscale_omp

  /** The gray value of pixel p: the luma of its R, G and B bytes. */
  function GrayOf(s: seq<Byte>, p: int, luma: Luma): Byte
    requires 0 <= p && 3 * p + 2 < |s|
  {
    luma(s[3 * p + 2], s[3 * p + 1], s[3 * p])
  }

  /** Each of the first n pixels with all three bytes set to its gray value. */
  function Grayed(s: seq<Byte>, n: int, luma: Luma): (r: seq<Byte>)
    requires 3 * n <= |s|
  {
    seq(|s|, i requires 0 <= i < |s| => if i < 3 * n then GrayOf(s, i / 3, luma) else s[i])
  }

  /** After grayscale every pixel's B, G and R bytes are equal, each pixel's value
      depends only on that pixel's old bytes, and the bytes past the pixels are kept. */
  lemma GrayscaleChannelsEqual(s: seq<Byte>, n: int, luma: Luma, p: int)
    requires 3 * n <= |s| && 0 <= p < n
    ensures var r := Grayed(s, n, luma);
      r[3 * p] == r[3 * p + 1] == r[3 * p + 2] == luma(s[3 * p + 2], s[3 * p + 1], s[3 * p])
    ensures forall i :: 3 * n <= i < |s| ==> Grayed(s, n, luma)[i] == s[i]
  {
    var r := Grayed(s, n, luma);
    assert (3 * p + 1) / 3 == p && (3 * p + 2) / 3 == p;
  }

  /** Graying one more pixel sets its three bytes and no other. */
  lemma GrayedStep(s: seq<Byte>, n: int, luma: Luma)
    requires 0 <= n && 3 * n + 3 <= |s|
    ensures Grayed(s, n + 1, luma) ==
      Grayed(s, n, luma)[3 * n := GrayOf(s, n, luma)][3 * n + 1 := GrayOf(s, n, luma)][3 * n + 2 := GrayOf(s, n, luma)]
  {
    assert (3 * n + 1) / 3 == n && (3 * n + 2) / 3 == n;
  }

  method ApplyGrayscale(frame: array<Byte>, w: int, h: int, luma: Luma)
    requires 0 <= w && 0 <= h && FrameSize(w, h) <= frame.Length
    modifies frame
    ensures frame[..] == Grayed(old(frame[..]), w * h, luma)
  {
    ghost var o := frame[..];
    var totalPixels := w * h;
    assert frame[..] == Grayed(o, 0, luma);
    for i := 0 to totalPixels
      invariant frame[..] == Grayed(o, i, luma)
    {
      var idx := i * 3;
      var b := frame[idx];
      var g := frame[idx + 1];
      var r := frame[idx + 2];
      var gray := luma(r, g, b);
      assert gray == GrayOf(o, i, luma);
      GrayedStep(o, i, luma);
      frame[idx] := gray;
      frame[idx + 1] := gray;
      frame[idx + 2] := gray;
    }
  }

  // ---------------------------------------------------------------------------
  // apply_blur_omp

  /** Tap t of the 3x3 window (t = 3 * (dy + 1) + (dx + 1), dy the outer loop) lies
      inside the frame. */
  predicate TapInFrame(w: int, h: int, x: int, y: int, t: int)
  {
    InFrame(x + t % 3 - 1, y + t / 3 - 1, w, h)
  }

  /** What each of the nine taps adds to `sumB` (c = 0), `sumG` (c = 1) or `sumR`
      (c = 2): the neighbour's byte, or nothing outside the frame. */
  function TapValues(o: seq<Byte>, w: int, h: int, x: int, y: int, c: int): (r: seq<int>)
    requires FrameSize(w, h) <= |o| && 0 <= c < 3
    ensures |r| == 9
  {
    seq(9, t requires 0 <= t < 9 =>
      if TapInFrame(w, h, x, y, t) then Neighbour(o, w, h, x, y, t % 3 - 1, t / 3 - 1, c) as int else 0)
  }

  /** What each of the nine taps adds to `count`. */
  function TapFlags(w: int, h: int, x: int, y: int): (r: seq<int>)
    ensures |r| == 9
  {
    seq(9, t requires 0 <= t < 9 => if TapInFrame(w, h, x, y, t) then 1 else 0)
  }

  function Sum(s: seq<int>): int
  {
    if s == [] then 0 else Sum(s[..|s| - 1]) + s[|s| - 1]
  }

  lemma SumStep(s: seq<int>, k: int)
    requires 0 <= k < |s|
    ensures Sum(s[..k + 1]) == Sum(s[..k]) + s[k]
  {
    assert s[..k + 1][..k] == s[..k];
  }

  /** The nine-term sum written out. */
  lemma SumOfNine(s: seq<int>)
    requires |s| == 9
    ensures Sum(s) == s[0] + s[1] + s[2] + s[3] + s[4] + s[5] + s[6] + s[7] + s[8]
  {
    assert s[..0] == [];
    SumStep(s, 0);
    SumStep(s, 1);
    SumStep(s, 2);
    SumStep(s, 3);
    SumStep(s, 4);
    SumStep(s, 5);
    SumStep(s, 6);
    SumStep(s, 7);
    SumStep(s, 8);
    assert s[..9] == s;
  }

  /** A sum of terms between 0 and m lies between 0 and m times the number of terms. */
  lemma {:induction false} SumBounds(s: seq<int>, m: int)
    requires forall i :: 0 <= i < |s| ==> 0 <= s[i] <= m
    ensures 0 <= Sum(s) <= |s| * m
  {
    if s != [] {
      SumBounds(s[..|s| - 1], m);
    }
  }

  /** The new value of channel c of pixel (x, y): the window sum over a fixed 9. */
  function BlurAt(o: seq<Byte>, w: int, h: int, x: int, y: int, c: int): Byte
    requires FrameSize(w, h) <= |o| && InFrame(x, y, w, h) && 0 <= c < 3
  {
    if Sum(TapFlags(w, h, x, y)) > 0 then Clamp(Sum(TapValues(o, w, h, x, y, c)) / 9) else PixelByte(o, w, h, x, y, c)
  }

  /** The frame after blur, computed from the snapshot `o` alone. */
  function Blurred(o: seq<Byte>, w: int, h: int): seq<Byte>
    requires 0 <= w && FrameSize(w, h) <= |o|
  {
    seq(|o|, i requires 0 <= i < |o| =>
      if i < FrameSize(w, h) then
        var (x, y, c) := Coords(i, w, h);
        BlurAt(o, w, h, x, y, c)
      else o[i])
  }

  /** The byte blur leaves at channel c of pixel (x, y). */
  lemma BlurredAt(o: seq<Byte>, w: int, h: int, x: int, y: int, c: int)
    requires 0 <= w && FrameSize(w, h) <= |o| && InFrame(x, y, w, h) && 0 <= c < 3
    ensures 0 <= PixelIndex(x, y, w) + c < |o|
    ensures Blurred(o, w, h)[PixelIndex(x, y, w) + c] == BlurAt(o, w, h, x, y, c)
  {
    CoordsOfPixel(x, y, c, w, h);
  }

  /** No window sum exceeds 9 * 255 and the pixel itself (tap 4) is always counted, so
      `clamp` never engages and the fallback never runs: the new value is exactly the
      window sum divided by 9, whatever the position. */
  lemma BlurIsSumOverNine(o: seq<Byte>, w: int, h: int, x: int, y: int, c: int)
    requires FrameSize(w, h) <= |o| && InFrame(x, y, w, h) && 0 <= c < 3
    ensures Sum(TapFlags(w, h, x, y)) >= 1
    ensures 0 <= Sum(TapValues(o, w, h, x, y, c)) <= 9 * 255
    ensures BlurAt(o, w, h, x, y, c) as int == Sum(TapValues(o, w, h, x, y, c)) / 9
  {
    var values, flags := TapValues(o, w, h, x, y, c), TapFlags(w, h, x, y);
    SumBounds(values, 255);
    SumOfNine(flags);
    assert TapInFrame(w, h, x, y, 4);
  }

  /** A pixel whose whole 3x3 neighbourhood holds value v in channel c keeps v. */
  lemma BlurKeepsConstantNeighbourhood(o: seq<Byte>, w: int, h: int, x: int, y: int, c: int, v: Byte)
    requires FrameSize(w, h) <= |o| && Interior(x, y, w, h) && 0 <= c < 3
    requires forall t :: 0 <= t < 9 ==> PixelByte(o, w, h, x + t % 3 - 1, y + t / 3 - 1, c) == v
    ensures BlurAt(o, w, h, x, y, c) == v
  {
    var values := TapValues(o, w, h, x, y, c);
    forall t | 0 <= t < 9
      ensures values[t] == v as int
    {
      assert TapInFrame(w, h, x, y, t);
      NeighbourIsPixelByte(o, w, h, x, y, t % 3 - 1, t / 3 - 1, c);
    }
    SumOfNine(values);
    BlurIsSumOverNine(o, w, h, x, y, c);
  }

  /** The divisor stays 9 at the border: a corner pixel of a region of value v gets
      4v/9 (so 255 becomes 113), not v. */
  lemma BlurDarkensCorner(o: seq<Byte>, w: int, h: int, c: int, v: Byte)
    requires 2 <= w && 2 <= h && FrameSize(w, h) <= |o| && 0 <= c < 3
    requires PixelByte(o, w, h, 0, 0, c) == v && PixelByte(o, w, h, 1, 0, c) == v
    requires PixelByte(o, w, h, 0, 1, c) == v && PixelByte(o, w, h, 1, 1, c) == v
    ensures BlurAt(o, w, h, 0, 0, c) as int == 4 * (v as int) / 9
  {
    var values := TapValues(o, w, h, 0, 0, c);
    NeighbourIsPixelByte(o, w, h, 0, 0, 0, 0, c);
    NeighbourIsPixelByte(o, w, h, 0, 0, 1, 0, c);
    NeighbourIsPixelByte(o, w, h, 0, 0, 0, 1, c);
    NeighbourIsPixelByte(o, w, h, 0, 0, 1, 1, c);
    assert values[4] == values[5] == values[7] == values[8] == v as int;
    assert values[0] == values[1] == values[2] == values[3] == values[6] == 0;
    SumOfNine(values);
    BlurIsSumOverNine(o, w, h, 0, 0, c);
  }

  /** A blurred pixel depends only on the snapshot's bytes in its own window, so the
      order in which pixels are written cannot change the result. */
  lemma BlurIsLocal(o1: seq<Byte>, o2: seq<Byte>, w: int, h: int, x: int, y: int, c: int)
    requires FrameSize(w, h) <= |o1| && FrameSize(w, h) <= |o2| && InFrame(x, y, w, h) && 0 <= c < 3
    requires forall t :: 0 <= t < 9 && TapInFrame(w, h, x, y, t) ==>
      PixelByte(o1, w, h, x + t % 3 - 1, y + t / 3 - 1, c) == PixelByte(o2, w, h, x + t % 3 - 1, y + t / 3 - 1, c)
    requires PixelByte(o1, w, h, x, y, c) == PixelByte(o2, w, h, x, y, c)
    ensures BlurAt(o1, w, h, x, y, c) == BlurAt(o2, w, h, x, y, c)
  {
    forall t | 0 <= t < 9 && TapInFrame(w, h, x, y, t)
      ensures TapValues(o1, w, h, x, y, c)[t] == TapValues(o2, w, h, x, y, c)[t]
    {
      NeighbourIsPixelByte(o1, w, h, x, y, t % 3 - 1, t / 3 - 1, c);
      NeighbourIsPixelByte(o2, w, h, x, y, t % 3 - 1, t / 3 - 1, c);
    }
    assert TapValues(o1, w, h, x, y, c) == TapValues(o2, w, h, x, y, c);
  }

  /** Tap 3 * (dy + 1) + (dx + 1) is the neighbour at offset (dx, dy). */
  lemma TapStep(o: seq<Byte>, w: int, h: int, x: int, y: int, c: int, dx: int, dy: int)
    requires FrameSize(w, h) <= |o| && 0 <= c < 3 && -1 <= dx <= 1 && -1 <= dy <= 1
    ensures var t := 3 * (dy + 1) + (dx + 1);
      TapValues(o, w, h, x, y, c)[t] ==
        (if InFrame(x + dx, y + dy, w, h) then Neighbour(o, w, h, x, y, dx, dy, c) as int else 0) &&
      TapFlags(w, h, x, y)[t] == (if InFrame(x + dx, y + dy, w, h) then 1 else 0)
  {
    var t := 3 * (dy + 1) + (dx + 1);
    assert t % 3 == dx + 1 && t / 3 == dy + 1;
  }

  /** `original[idx]`, `original[idx + 1]`, `original[idx + 2]` at
      `idx = (ny * width + nx) * 3` with (nx, ny) = (x + dx, y + dy): the B, G, R bytes
      of that neighbour in the snapshot. */
  method ReadPixel(original: array<Byte>, ghost o: seq<Byte>, w: int, h: int, x: int, y: int, dx: int, dy: int)
    returns (b: Byte, g: Byte, r: Byte)
    requires FrameSize(w, h) <= |o| && original.Length == FrameSize(w, h) && InFrame(x + dx, y + dy, w, h)
    requires forall i :: 0 <= i < original.Length ==> original[i] == o[i]
    ensures b == Neighbour(o, w, h, x, y, dx, dy, 0)
    ensures g == Neighbour(o, w, h, x, y, dx, dy, 1)
    ensures r == Neighbour(o, w, h, x, y, dx, dy, 2)
  {
    var nx := x + dx;
    var ny := y + dy;
    PixelInBounds(nx, ny, w, h);
    NeighbourOffset(x, y, dx, dy, w);
    var idx := (ny * w + nx) * 3;
    b := original[idx];
    g := original[idx + 1];
    r := original[idx + 2];
  }

  /** The inner dy/dx loops of blur over the snapshot copy `original` (equal to `o` on
      the frame's bytes): the three channel sums and the in-frame count. */
  method NeighbourSums(original: array<Byte>, ghost o: seq<Byte>, w: int, h: int, x: int, y: int)
    returns (sumB: int, sumG: int, sumR: int, count: int)
    requires FrameSize(w, h) <= |o| && original.Length == FrameSize(w, h)
    requires forall i :: 0 <= i < original.Length ==> original[i] == o[i]
    ensures sumB == Sum(TapValues(o, w, h, x, y, 0))
    ensures sumG == Sum(TapValues(o, w, h, x, y, 1))
    ensures sumR == Sum(TapValues(o, w, h, x, y, 2))
    ensures count == Sum(TapFlags(w, h, x, y))
  {
    ghost var vb, vg, vr, flags := TapValues(o, w, h, x, y, 0), TapValues(o, w, h, x, y, 1), TapValues(o, w, h, x, y, 2), TapFlags(w, h, x, y);
    sumB, sumG, sumR, count := 0, 0, 0, 0;
    for dy := -1 to 2
      invariant sumB == Sum(vb[..3 * (dy + 1)]) && sumG == Sum(vg[..3 * (dy + 1)])
      invariant sumR == Sum(vr[..3 * (dy + 1)]) && count == Sum(flags[..3 * (dy + 1)])
    {
      for dx := -1 to 2
        invariant sumB == Sum(vb[..3 * (dy + 1) + (dx + 1)]) && sumG == Sum(vg[..3 * (dy + 1) + (dx + 1)])
        invariant sumR == Sum(vr[..3 * (dy + 1) + (dx + 1)]) && count == Sum(flags[..3 * (dy + 1) + (dx + 1)])
      {
        ghost var t := 3 * (dy + 1) + (dx + 1);
        TapStep(o, w, h, x, y, 0, dx, dy);
        TapStep(o, w, h, x, y, 1, dx, dy);
        TapStep(o, w, h, x, y, 2, dx, dy);
        SumStep(vb, t);
        SumStep(vg, t);
        SumStep(vr, t);
        SumStep(flags, t);
        var nx := x + dx;
        var ny := y + dy;
        if nx >= 0 && nx < w && ny >= 0 && ny < h {
          var b, g, r := ReadPixel(original, o, w, h, x, y, dx, dy);
          sumB := sumB + b as int;
          sumG := sumG + g as int;
          sumR := sumR + r as int;
          count := count + 1;
        }
      }
    }
    assert vb[..9] == vb && vg[..9] == vg && vr[..9] == vr && flags[..9] == flags;
  }

  /** One iteration of blur's y/x loops: pixel (x, y) gets its blurred value, read
      from the snapshot, and nothing else changes. */
  method BlurPixel(frame: array<Byte>, original: array<Byte>, ghost o: seq<Byte>, ghost t: seq<Byte>,
                   w: int, h: int, x: int, y: int)
    requires 0 <= w && FrameSize(w, h) <= |o| == frame.Length && original.Length == FrameSize(w, h)
    requires InFrame(x, y, w, h) && original != frame && t == Blurred(o, w, h)
    requires forall i :: 0 <= i < original.Length ==> original[i] == o[i]
    requires frame[..] == Overlay(o, t, PixelIndex(x, y, w))
    modifies frame
    ensures frame[..] == Overlay(o, t, PixelIndex(x, y, w) + 3)
  {
    BlurredAt(o, w, h, x, y, 0);
    BlurredAt(o, w, h, x, y, 1);
    BlurredAt(o, w, h, x, y, 2);
    var sumB, sumG, sumR, count := NeighbourSums(original, o, w, h, x, y);
    var idx := (y * w + x) * 3;
    assert idx == PixelIndex(x, y, w);
    OverlayStep(o, t, idx);
    ghost var before := frame[..];
    var divisor := 9;
    if count > 0 {
      frame[idx] := Clamp(sumB / divisor);
      frame[idx + 1] := Clamp(sumG / divisor);
      frame[idx + 2] := Clamp(sumR / divisor);
      assert frame[..] == before[idx := t[idx]][idx + 1 := t[idx + 1]][idx + 2 := t[idx + 2]];
    } else {
      assert t[idx] == o[idx] && t[idx + 1] == o[idx + 1] && t[idx + 2] == o[idx + 2];
      assert before == before[idx := t[idx]][idx + 1 := t[idx + 1]][idx + 2 := t[idx + 2]];
    }
  }

  /** The x loop of blur for row y. */
  method BlurRow(frame: array<Byte>, original: array<Byte>, ghost o: seq<Byte>, ghost t: seq<Byte>,
                 w: int, h: int, y: int)
    requires 0 <= w && FrameSize(w, h) <= |o| == frame.Length && original.Length == FrameSize(w, h)
    requires 0 <= y < h && original != frame && t == Blurred(o, w, h)
    requires forall i :: 0 <= i < original.Length ==> original[i] == o[i]
    requires frame[..] == Overlay(o, t, PixelIndex(0, y, w))
    modifies frame
    ensures frame[..] == Overlay(o, t, PixelIndex(0, y + 1, w))
  {
    for x := 0 to w
      invariant frame[..] == Overlay(o, t, PixelIndex(x, y, w))
    {
      BlurPixel(frame, original, o, t, w, h, x, y);
    }
    assert PixelIndex(w, y, w) == PixelIndex(0, y + 1, w);
  }

  method ApplyBlur(frame: array<Byte>, w: int, h: int)
    requires 0 <= w && 0 <= h && FrameSize(w, h) <= frame.Length
    modifies frame
    ensures frame[..] == Blurred(old(frame[..]), w, h)
  {
    ghost var o := frame[..];
    ghost var t := Blurred(o, w, h);
    OverlayEnds(o, t, |o|);
    var frameSize := w * h * 3;
    var original := Snapshot(frame, frameSize);
    for y := 0 to h
      invariant forall i :: 0 <= i < original.Length ==> original[i] == o[i]
      invariant frame[..] == Overlay(o, t, PixelIndex(0, y, w))
    {
      BlurRow(frame, original, o, t, w, h, y);
    }
    assert PixelIndex(0, h, w) == frameSize;
    OverlaySkip(o, t, frameSize, |o|);
  }

  // ---------------------------------------------------------------------------
  // apply_edge_omp

  /** The B, G, R snapshot bytes of the neighbour at offset (dx, dy). */
  function TapBytes(o: seq<Byte>, w: int, h: int, x: int, y: int, dx: int, dy: int): (r: seq<Byte>)
    requires FrameSize(w, h) <= |o| && InFrame(x + dx, y + dy, w, h)
    ensures |r| == 3
  {
    [Neighbour(o, w, h, x, y, dx, dy, 0), Neighbour(o, w, h, x, y, dx, dy, 1), Neighbour(o, w, h, x, y, dx, dy, 2)]
  }

  /** The nine taps of an interior pixel's 3x3 window in loop order (dy outer, dx inner). */
  function WindowTaps(o: seq<Byte>, w: int, h: int, x: int, y: int): (r: seq<seq<Byte>>)
    requires FrameSize(w, h) <= |o| && Interior(x, y, w, h)
    ensures |r| == 9
  {
    seq(9, t requires 0 <= t < 9 => TapBytes(o, w, h, x, y, t % 3 - 1, t / 3 - 1))
  }

  /** The 27 bytes `magnitude` receives: B, G, R of tap 0, then of tap 1, and so on. */
  function Window(o: seq<Byte>, w: int, h: int, x: int, y: int): seq<Byte>
    requires FrameSize(w, h) <= |o| && Interior(x, y, w, h)
  {
    Flatten(WindowTaps(o, w, h, x, y))
  }

  /** The value all three channels of an interior pixel receive. */
  function EdgeAt(o: seq<Byte>, w: int, h: int, x: int, y: int, magnitude: Magnitude): Byte
    requires FrameSize(w, h) <= |o| && Interior(x, y, w, h)
  {
    Clamp(magnitude(Window(o, w, h, x, y)))
  }

  /** Tap 3 * (dy + 1) + (dx + 1) is the neighbour at offset (dx, dy). */
  lemma WindowStep(o: seq<Byte>, w: int, h: int, x: int, y: int, dx: int, dy: int)
    requires FrameSize(w, h) <= |o| && Interior(x, y, w, h) && -1 <= dx <= 1 && -1 <= dy <= 1
    ensures WindowTaps(o, w, h, x, y)[3 * (dy + 1) + (dx + 1)] == TapBytes(o, w, h, x, y, dx, dy)
  {
    var t := 3 * (dy + 1) + (dx + 1);
    assert t % 3 == dx + 1 && t / 3 == dy + 1;
  }

  /** The frame after edge detection: interior pixels replaced, the border kept. */
  function Edged(o: seq<Byte>, w: int, h: int, magnitude: Magnitude): seq<Byte>
    requires 0 <= w && FrameSize(w, h) <= |o|
  {
    seq(|o|, i requires 0 <= i < |o| =>
      if i < FrameSize(w, h) then
        var (x, y, c) := Coords(i, w, h);
        if Interior(x, y, w, h) then EdgeAt(o, w, h, x, y, magnitude) else o[i]
      else o[i])
  }

  /** Edge leaves rows 0 and h-1 and columns 0 and w-1 as they were. */
  lemma EdgeKeepsBorder(o: seq<Byte>, w: int, h: int, magnitude: Magnitude, x: int, y: int, c: int)
    requires 0 <= w && FrameSize(w, h) <= |o| && InFrame(x, y, w, h) && 0 <= c < 3
    requires x == 0 || x == w - 1 || y == 0 || y == h - 1
    ensures 0 <= PixelIndex(x, y, w) + c < |o|
    ensures Edged(o, w, h, magnitude)[PixelIndex(x, y, w) + c] == o[PixelIndex(x, y, w) + c]
  {
    CoordsOfPixel(x, y, c, w, h);
  }

  /** The byte edge leaves at channel c of an interior pixel. */
  lemma EdgedAt(o: seq<Byte>, w: int, h: int, magnitude: Magnitude, x: int, y: int, c: int)
    requires 0 <= w && FrameSize(w, h) <= |o| && Interior(x, y, w, h) && 0 <= c < 3
    ensures PixelIndex(x, y, w) + c < |o|
    ensures Edged(o, w, h, magnitude)[PixelIndex(x, y, w) + c] == EdgeAt(o, w, h, x, y, magnitude)
  {
    CoordsOfPixel(x, y, c, w, h);
  }

  /** Edge writes one value to all three channels of every interior pixel. */
  lemma EdgeChannelsEqual(o: seq<Byte>, w: int, h: int, magnitude: Magnitude, x: int, y: int)
    requires 0 <= w && FrameSize(w, h) <= |o| && Interior(x, y, w, h)
    ensures PixelIndex(x, y, w) + 2 < |o|
    ensures var r := Edged(o, w, h, magnitude); var i := PixelIndex(x, y, w);
      r[i] == r[i + 1] == r[i + 2] == EdgeAt(o, w, h, x, y, magnitude)
  {
    EdgedAt(o, w, h, magnitude, x, y, 0);
    EdgedAt(o, w, h, magnitude, x, y, 1);
    EdgedAt(o, w, h, magnitude, x, y, 2);
  }

  /** The inner dy/dx loops of edge: the snapshot bytes of the 3x3 window, in order. */
  method NeighbourWindow(original: array<Byte>, ghost o: seq<Byte>, w: int, h: int, x: int, y: int)
    returns (window: seq<Byte>)
    requires FrameSize(w, h) <= |o| && original.Length == FrameSize(w, h) && Interior(x, y, w, h)
    requires forall i :: 0 <= i < original.Length ==> original[i] == o[i]
    ensures window == Window(o, w, h, x, y)
  {
    ghost var taps := WindowTaps(o, w, h, x, y);
    window := [];
    for dy := -1 to 2
      invariant window == Flatten(taps[..3 * (dy + 1)])
    {
      for dx := -1 to 2
        invariant window == Flatten(taps[..3 * (dy + 1) + (dx + 1)])
      {
        WindowStep(o, w, h, x, y, dx, dy);
        FlattenStep(taps, 3 * (dy + 1) + (dx + 1));
        var b, g, r := ReadPixel(original, o, w, h, x, y, dx, dy);
        window := window + [b, g, r];
      }
    }
    assert taps[..9] == taps;
  }

  /** Row 0 and the first pixel of row 1, which the scan skips before (1, 1), are kept. */
  lemma EdgeKeepsTop(o: seq<Byte>, w: int, h: int, magnitude: Magnitude, i: int)
    requires 0 <= w && FrameSize(w, h) <= |o| && 0 <= i < |o| && i < PixelIndex(1, 1, w)
    ensures Edged(o, w, h, magnitude)[i] == o[i]
  {
    if i < FrameSize(w, h) {
      var (px, py, c) := Coords(i, w, h);
      if Interior(px, py, w, h) {
        FrameRanges.MulLeq(1, py, w);
        assert false;
      }
    }
  }

  /** The last pixel of row y and the first of row y + 1, which the scan steps over
      between (w - 2, y) and (1, y + 1), are kept. */
  lemma EdgeKeepsRowGap(o: seq<Byte>, w: int, h: int, magnitude: Magnitude, y: int, i: int)
    requires 0 <= w && FrameSize(w, h) <= |o| && 0 <= i < |o|
    requires PixelIndex(Max(1, w - 1), y, w) <= i < PixelIndex(1, y + 1, w)
    ensures Edged(o, w, h, magnitude)[i] == o[i]
  {
    if i < FrameSize(w, h) {
      var (px, py, c) := Coords(i, w, h);
      if Interior(px, py, w, h) {
        FrameRanges.MulSucc(y, w);
        if py <= y {
          FrameRanges.MulLeq(py, y, w);
        } else {
          FrameRanges.MulLeq(y + 1, py, w);
        }
        assert false;
      }
    }
  }

  /** Everything from (1, h - 1) on, where the scan ends, is kept. */
  lemma EdgeKeepsBottom(o: seq<Byte>, w: int, h: int, magnitude: Magnitude, i: int)
    requires 0 <= w && FrameSize(w, h) <= |o| && 0 <= i < |o| && PixelIndex(1, Max(1, h - 1), w) <= i
    ensures Edged(o, w, h, magnitude)[i] == o[i]
  {
    if i < FrameSize(w, h) {
      var (px, py, c) := Coords(i, w, h);
      if Interior(px, py, w, h) {
        FrameRanges.MulLeq(py + 1, h - 1, w);
        FrameRanges.MulSucc(py, w);
        assert false;
      }
    }
  }

  /** The scan's first stop, (1, 1), comes after bytes edge keeps. */
  lemma EdgeScanStart(o: seq<Byte>, w: int, h: int, magnitude: Magnitude)
    requires 0 <= w && FrameSize(w, h) <= |o|
    ensures Overlay(o, Edged(o, w, h, magnitude), PixelIndex(1, 1, w)) == o
  {
    var t := Edged(o, w, h, magnitude);
    forall i | 0 <= i < |o| && i < PixelIndex(1, 1, w)
      ensures t[i] == o[i]
    {
      EdgeKeepsTop(o, w, h, magnitude, i);
    }
    OverlaySkip(o, t, 0, PixelIndex(1, 1, w));
  }

  /** Leaving row y at x = max(1, w - 1) and entering row y + 1 at x = 1 skips only
      bytes edge keeps. */
  lemma EdgeScanNextRow(o: seq<Byte>, w: int, h: int, magnitude: Magnitude, y: int)
    requires 0 <= w && FrameSize(w, h) <= |o|
    ensures var t := Edged(o, w, h, magnitude);
      Overlay(o, t, PixelIndex(Max(1, w - 1), y, w)) == Overlay(o, t, PixelIndex(1, y + 1, w))
  {
    var t := Edged(o, w, h, magnitude);
    forall i | 0 <= i < |o| && PixelIndex(Max(1, w - 1), y, w) <= i < PixelIndex(1, y + 1, w)
      ensures t[i] == o[i]
    {
      EdgeKeepsRowGap(o, w, h, magnitude, y, i);
    }
    FrameRanges.MulSucc(y, w);
    OverlaySkip(o, t, PixelIndex(Max(1, w - 1), y, w), PixelIndex(1, y + 1, w));
  }

  /** Once the scan stops at (1, max(1, h - 1)) the rest of the frame is already final. */
  lemma EdgeScanEnd(o: seq<Byte>, w: int, h: int, magnitude: Magnitude)
    requires 0 <= w && FrameSize(w, h) <= |o|
    ensures Overlay(o, Edged(o, w, h, magnitude), PixelIndex(1, Max(1, h - 1), w)) == Edged(o, w, h, magnitude)
  {
    var t := Edged(o, w, h, magnitude);
    var n := PixelIndex(1, Max(1, h - 1), w);
    var last := Max(n, |o|);
    forall i | 0 <= i < |o| && n <= i < last
      ensures t[i] == o[i]
    {
      EdgeKeepsBottom(o, w, h, magnitude, i);
    }
    OverlaySkip(o, t, n, last);
    OverlayEnds(o, t, last);
  }

  /** One iteration of edge's y/x loops over an interior pixel. */
  method EdgePixel(frame: array<Byte>, original: array<Byte>, ghost o: seq<Byte>, ghost t: seq<Byte>,
                   w: int, h: int, magnitude: Magnitude, x: int, y: int)
    requires 0 <= w && FrameSize(w, h) <= |o| == frame.Length && original.Length == FrameSize(w, h)
    requires Interior(x, y, w, h) && original != frame && t == Edged(o, w, h, magnitude)
    requires forall i :: 0 <= i < original.Length ==> original[i] == o[i]
    requires frame[..] == Overlay(o, t, PixelIndex(x, y, w))
    modifies frame
    ensures frame[..] == Overlay(o, t, PixelIndex(x, y, w) + 3)
  {
    EdgedAt(o, w, h, magnitude, x, y, 0);
    EdgedAt(o, w, h, magnitude, x, y, 1);
    EdgedAt(o, w, h, magnitude, x, y, 2);
    var window := NeighbourWindow(original, o, w, h, x, y);
    var v := Clamp(magnitude(window));
    var idx := (y * w + x) * 3;
    assert idx == PixelIndex(x, y, w);
    OverlayStep(o, t, idx);
    assert v == EdgeAt(o, w, h, x, y, magnitude);
    ghost var before := frame[..];
    frame[idx] := v;
    frame[idx + 1] := v;
    frame[idx + 2] := v;
    assert frame[..] == before[idx := t[idx]][idx + 1 := t[idx + 1]][idx + 2 := t[idx + 2]];
  }

  /** The inner x loop of edge over row y, from x = 1 to x = w - 2. */
  method EdgeRow(frame: array<Byte>, original: array<Byte>, ghost o: seq<Byte>, ghost t: seq<Byte>,
                 w: int, h: int, magnitude: Magnitude, y: int)
    requires 0 <= w && FrameSize(w, h) <= |o| == frame.Length && original.Length == FrameSize(w, h)
    requires 1 <= y < h - 1 && original != frame && t == Edged(o, w, h, magnitude)
    requires forall i :: 0 <= i < original.Length ==> original[i] == o[i]
    requires frame[..] == Overlay(o, t, PixelIndex(1, y, w))
    modifies frame
    ensures frame[..] == Overlay(o, t, PixelIndex(1, y + 1, w))
  {
    var x := 1;
    while x < w - 1
      invariant 1 <= x <= Max(1, w - 1)
      invariant frame[..] == Overlay(o, t, PixelIndex(x, y, w))
    {
      EdgePixel(frame, original, o, t, w, h, magnitude, x, y);
      x := x + 1;
    }
    assert x == Max(1, w - 1);
    EdgeScanNextRow(o, w, h, magnitude, y);
  }

  method ApplyEdge(frame: array<Byte>, w: int, h: int, magnitude: Magnitude)
    requires 0 <= w && 0 <= h && FrameSize(w, h) <= frame.Length
    modifies frame
    ensures frame[..] == Edged(old(frame[..]), w, h, magnitude)
  {
    ghost var o := frame[..];
    ghost var t := Edged(o, w, h, magnitude);
    var frameSize := w * h * 3;
    var original := Snapshot(frame, frameSize);
    EdgeScanStart(o, w, h, magnitude);
    var y := 1;
    while y < h - 1
      invariant 1 <= y <= Max(1, h - 1)
      invariant forall i :: 0 <= i < original.Length ==> original[i] == o[i]
      invariant frame[..] == Overlay(o, t, PixelIndex(1, y, w))
    {
      EdgeRow(frame, original, o, t, w, h, magnitude, y);
      y := y + 1;
    }
    assert y == Max(1, h - 1);
    EdgeScanEnd(o, w, h, magnitude);
  }

  // ---------------------------------------------------------------------------
  // apply_filter_cpu

  /** The frame `apply_filter_cpu(choice, ...)` leaves. */
  function FilterResult(choice: int, s: seq<Byte>, w: int, h: int, ops: FloatOps): seq<Byte>
    requires 0 <= w && 0 <= h && FrameSize(w, h) <= |s|
  {
    match FilterOfId(choice)
    case Some(Grayscale) => Grayed(s, w * h, ops.luma)
    case Some(Blur) => Blurred(s, w, h)
    case Some(Invert) => Inverted(s, FrameSize(w, h))
    case Some(Edge) => Edged(s, w, h, ops.magnitude)
    case _ => s
  }

  /** Any choice outside 1..4, FILTER_NONE included, leaves the frame as it was. */
  lemma UnknownChoiceLeavesFrame(choice: int, s: seq<Byte>, w: int, h: int, ops: FloatOps)
    requires 0 <= w && 0 <= h && FrameSize(w, h) <= |s|
    requires choice < 1 || choice > 4
    ensures FilterResult(choice, s, w, h, ops) == s
  {
  }

  method ApplyFilterCpu(choice: int, frame: array?<Byte>, w: int, h: int, ops: FloatOps)
    requires frame != null ==> 0 <= w && 0 <= h && FrameSize(w, h) <= frame.Length
    modifies frame
    ensures frame != null ==> frame[..] == FilterResult(choice, old(frame[..]), w, h, ops)
  {
    if frame == null {
      return;
    }
    match FilterOfId(choice)
    case Some(Grayscale) => ApplyGrayscale(frame, w, h, ops.luma);
    case Some(Blur) => ApplyBlur(frame, w, h);
    case Some(Invert) => ApplyInvert(frame, w, h);
    case Some(Edge) => ApplyEdge(frame, w, h, ops.magnitude);
    case _ =>
  }
}
