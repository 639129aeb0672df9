// The region API of native/include/blur.h: blur_apply_regions applies one filter, box
// blur (mode 0) or pixelate (mode 1), to each rectangle of a list in turn, in place, and
// reports a status code. The header documents the modes, the strength, the buffer layout
// and "0 on success"; the body of the entry point is not part of native/src/blur.cpp, so
// its validation and dispatch are chosen here rather than taken from code: an invalid
// buffer is refused before anything is touched, the rectangles are processed in order,
// each one sees the buffer left by the previous ones, empty rectangles are skipped, and a
// mode other than 0 or 1 stops the call at the first rectangle.

module Regions {

  import opened Layout
  import opened Sampling
  import opened BoxBlur
  import opened Pixelate

  /** The outcome of a call. Only Ok's code, 0, is fixed by the header; the two failures
      have distinct negative codes. */
  datatype Status = Ok | InvalidBuffer | UnsupportedMode

  function Code(s: Status): (rc: int)
    ensures rc == 0 <==> s == Ok
    ensures s != Ok ==> rc < 0
  {
    match s
    case Ok => 0
    case InvalidBuffer => -1
    case UnsupportedMode => -2
  }

  /** Mode 0 selects the box blur and mode 1 pixelate; no other mode exists. */
  predicate ValidMode(mode: int)
  {
    mode == 0 || mode == 1
  }

  /** A rectangle with no width or no height, which the dispatch skips. */
  predicate Degenerate(r: BlurRect)
  {
    r.w <= 0 || r.h <= 0
  }

  /** The buffer after one rectangle: untouched when it is degenerate, otherwise blurred
      with radius `strength` in both directions (mode 0) or pixelated with blocks of edge
      max(1, strength) over its clamped window (mode 1). */
  function ApplyRegion(p: seq<Byte>, W: int, H: int, r: BlurRect, mode: int, strength: int): (q: seq<Byte>)
    requires W > 0 && H > 0 && |p| == W * H * 4 && ValidMode(mode)
    ensures |q| == |p|
    ensures forall x, y, c :: InImage(W, H, x, y, c) && (Degenerate(r) || !ClampWindow(W, H, r).Contains(x, y)) ==>
      At(q, W, H, x, y, c) == At(p, W, H, x, y, c)
  {
    if Degenerate(r) then p
    else if mode == 0 then BoxBlurred(p, W, H, strength, strength, r)
    else Pixelated(p, W, H, ClampWindow(W, H, r), Radius(strength))
  }

  /** The buffer after the rectangles of rects, applied one after another in list order. */
  function ApplyRegions(p: seq<Byte>, W: int, H: int, rects: seq<BlurRect>, mode: int, strength: int): (q: seq<Byte>)
    requires W > 0 && H > 0 && |p| == W * H * 4 && ValidMode(mode)
    ensures |q| == |p|
    decreases |rects|
  {
    if |rects| == 0 then p
    else ApplyRegion(ApplyRegions(p, W, H, rects[..|rects| - 1], mode, strength), W, H, rects[|rects| - 1], mode, strength)
  }

  /** Pixel (x, y) lies in the clamped window of some non-degenerate rectangle of rects. */
  predicate Covered(W: int, H: int, rects: seq<BlurRect>, x: int, y: int)
    requires W > 0 && H > 0
  {
    exists k :: 0 <= k < |rects| && !Degenerate(rects[k]) && ClampWindow(W, H, rects[k]).Contains(x, y)
  }

  /** No pixel outside the union of the rectangles' clamped windows is written. */
  lemma {:induction false} ApplyRegionsFrame(p: seq<Byte>, W: int, H: int, rects: seq<BlurRect>, mode: int, strength: int,
                                             x: int, y: int, c: int)
    requires W > 0 && H > 0 && |p| == W * H * 4 && ValidMode(mode)
    requires InImage(W, H, x, y, c) && !Covered(W, H, rects, x, y)
    ensures At(ApplyRegions(p, W, H, rects, mode, strength), W, H, x, y, c) == At(p, W, H, x, y, c)
    decreases |rects|
  {
    if |rects| > 0 {
      var front := rects[..|rects| - 1];
      ApplyRegionsFrame(p, W, H, front, mode, strength, x, y, c);
      assert Degenerate(rects[|rects| - 1]) || !ClampWindow(W, H, rects[|rects| - 1]).Contains(x, y);
    }
  }

  /** A list of degenerate rectangles only, the empty list among them, leaves the buffer
      byte for byte unchanged. */
  lemma {:induction false} DegenerateRegionsChangeNothing(p: seq<Byte>, W: int, H: int, rects: seq<BlurRect>,
                                                          mode: int, strength: int)
    requires W > 0 && H > 0 && |p| == W * H * 4 && ValidMode(mode)
    requires forall k :: 0 <= k < |rects| ==> Degenerate(rects[k])
    ensures ApplyRegions(p, W, H, rects, mode, strength) == p
    decreases |rects|
  {
    if |rects| > 0 {
      DegenerateRegionsChangeNothing(p, W, H, rects[..|rects| - 1], mode, strength);
    }
  }

  /** The rectangles are processed strictly in order, each on the buffer the earlier ones
      left: running a list is running its first part and then the rest on the result. */
  lemma {:induction false} ApplyRegionsAppend(p: seq<Byte>, W: int, H: int, first: seq<BlurRect>, rest: seq<BlurRect>,
                                              mode: int, strength: int)
    requires W > 0 && H > 0 && |p| == W * H * 4 && ValidMode(mode)
    ensures ApplyRegions(p, W, H, first + rest, mode, strength) ==
      ApplyRegions(ApplyRegions(p, W, H, first, mode, strength), W, H, rest, mode, strength)
    decreases |rest|
  {
    if |rest| == 0 {
      assert first + rest == first;
    } else {
      var all := first + rest;
      assert all[..|all| - 1] == first + rest[..|rest| - 1];
      assert all[|all| - 1] == rest[|rest| - 1];
      ApplyRegionsAppend(p, W, H, first, rest[..|rest| - 1], mode, strength);
    }
  }

  /** blur_apply_regions(pixels, width, height, rects, rect_count, mode, strength). A null
      buffer or a non-positive dimension is refused with InvalidBuffer before anything is
      touched. An empty list succeeds and changes nothing. A mode other than 0 or 1 fails
      with UnsupportedMode at the first rectangle, so nothing has been written yet. Otherwise
      the call succeeds and the buffer is the result of applying the rectangles in order. */
  method BlurApplyRegions(pixels: array?<Byte>, width: int, height: int, rects: seq<BlurRect>, mode: int, strength: int)
    returns (rc: int)
    requires pixels != null && width > 0 && height > 0 ==> pixels.Length == width * height * 4
    modifies pixels
    ensures pixels == null || width <= 0 || height <= 0 ==> rc == Code(InvalidBuffer)
    ensures pixels != null && (width <= 0 || height <= 0) ==> pixels[..] == old(pixels[..])
    ensures pixels != null && width > 0 && height > 0 && |rects| == 0 ==>
      rc == Code(Ok) && pixels[..] == old(pixels[..])
    ensures pixels != null && width > 0 && height > 0 && |rects| > 0 && !ValidMode(mode) ==>
      rc == Code(UnsupportedMode) && pixels[..] == old(pixels[..])
    ensures pixels != null && width > 0 && height > 0 && ValidMode(mode) ==>
      rc == Code(Ok) && pixels[..] == ApplyRegions(old(pixels[..]), width, height, rects, mode, strength)
  {
    if pixels == null || width <= 0 || height <= 0 {
      return Code(InvalidBuffer);
    }
    var k := 0;
    while k < |rects|
      invariant 0 <= k <= |rects|
      invariant k > 0 ==> ValidMode(mode)
      invariant k == 0 ==> pixels[..] == old(pixels[..])
      invariant ValidMode(mode) ==>
        pixels[..] == ApplyRegions(old(pixels[..]), width, height, rects[..k], mode, strength)
    {
      if !ValidMode(mode) {
        return Code(UnsupportedMode);
      }
      var r := rects[k];
      if !Degenerate(r) {
        if mode == 0 {
          BoxBlurRGBA(pixels, width, height, strength, strength, r);
        } else {
          PixelateRegion(pixels, width, height, ClampWindow(width, height, r), Radius(strength));
        }
      }
      assert rects[..k + 1][..k] == rects[..k];
      k := k + 1;
    }
    assert rects[..k] == rects;
    return Code(Ok);
  }

  // ---------------------------------------------------------------------------
  // The smoke test of native/test/test_blur_apply_regions.cpp.

  /** Channel c of pure opaque red and of pure opaque blue. */
  function Red(c: int): Byte
  {
    if c == 0 || c == 3 then 255 else 0
  }

  function Blue(c: int): Byte
  {
    if c == 2 || c == 3 then 255 else 0
  }

  /** The test's 8x8 image: the left four columns opaque red, the right four opaque blue. */
  function SplitImage(): (img: seq<Byte>)
    ensures |img| == 8 * 8 * 4
    ensures forall x, y, c :: InImage(8, 8, x, y, c) ==> At(img, 8, 8, x, y, c) == if x < 4 then Red(c) else Blue(c)
  {
    IdxDecomposeAll(8);
    seq(8 * 8 * 4, i requires 0 <= i < 8 * 8 * 4 => if XOf(8, i) < 4 then Red(COf(i)) else Blue(COf(i)))
  }

  /** Pixelating the whole split image with blocks of edge 4 keeps every block one-coloured:
      the blocks' vertical boundary falls on the colour split, so no colour bleeds across
      it. Pixel (2, 4) stays pure red and pixel (6, 4) pure blue, which meets the test's
      bounds (dominant channel above the others and at least 255 - 40). */
  lemma PixelateSplitImage(x: int, y: int, c: int)
    requires InImage(8, 8, x, y, c)
    ensures At(ApplyRegions(SplitImage(), 8, 8, [BlurRect(0, 0, 8, 8)], 1, 4), 8, 8, x, y, c) ==
      if x < 4 then Red(c) else Blue(c)
  {
    var img := SplitImage();
    var win := ClampWindow(8, 8, BlurRect(0, 0, 8, 8));
    assert [BlurRect(0, 0, 8, 8)][..0] == [];
    assert ApplyRegions(img, 8, 8, [BlurRect(0, 0, 8, 8)], 1, 4) == Pixelated(img, 8, 8, win, 4);
    var v := if x < 4 then Red(c) else Blue(c);
    assert win == Window(0, 0, 7, 7);
    SplitImageBlock(x, y, c);
    PixelatedBetween(img, 8, 8, win, 4, x, y, c, v, v);
  }

  /** The block of edge 4 that holds pixel (x, y) of the 8x8 image lies wholly on one side
      of the colour split. */
  lemma SplitImageBlock(x: int, y: int, c: int)
    requires InImage(8, 8, x, y, c)
    ensures forall x', y' :: BlockOf(Window(0, 0, 7, 7), 4, x, y).Contains(x', y') ==>
      InImage(8, 8, x', y', c) && At(SplitImage(), 8, 8, x', y', c) == if x < 4 then Red(c) else Blue(c)
  {
    if x < 4 {
      DivModUnique(x, 4, 0, x);
    } else {
      DivModUnique(x, 4, 1, x - 4);
    }
    var blk := BlockOf(Window(0, 0, 7, 7), 4, x, y);
    assert blk.x0 == (if x < 4 then 0 else 4) && blk.x1 == blk.x0 + 3;
  }

  /** The two pixels the test reads, at byte offsets ((H/2)*W + W/4)*4 = 136 and
      ((H/2)*W + 3*W/4)*4 = 152, come out pure opaque red and pure opaque blue. */
  lemma SplitImageProbes(img: seq<Byte>, rects: seq<BlurRect>, q: seq<Byte>)
    requires img == SplitImage() && rects == [BlurRect(0, 0, 8, 8)]
    requires q == ApplyRegions(img, 8, 8, rects, 1, 4)
    ensures |q| == 256 && q[136..140] == [255, 0, 0, 255] && q[152..156] == [0, 0, 255, 255]
  {
    PixelateSplitImage(2, 4, 0);
    PixelateSplitImage(2, 4, 1);
    PixelateSplitImage(2, 4, 2);
    PixelateSplitImage(2, 4, 3);
    PixelateSplitImage(6, 4, 0);
    PixelateSplitImage(6, 4, 1);
    PixelateSplitImage(6, 4, 2);
    PixelateSplitImage(6, 4, 3);
    ProbeSlices(q);
  }

  /** The probe bytes read as the test's two four-byte pixels. */
  lemma ProbeSlices(q: seq<Byte>)
    requires |q| == 256
    requires q[136] == 255 && q[137] == 0 && q[138] == 0 && q[139] == 255
    requires q[152] == 0 && q[153] == 0 && q[154] == 255 && q[155] == 255
    ensures q[136..140] == [255, 0, 0, 255] && q[152..156] == [0, 0, 255, 255]
  {
    assert q[136..140] == [q[136], q[137], q[138], q[139]];
    assert q[152..156] == [q[152], q[153], q[154], q[155]];
  }

  /** Box-blurring the whole split image with radius 1 leaves column 0 pure red: every
      sample its taps reach, columns 0 and 1 after clamping, is red. */
  lemma BlurSplitImageEdge(img: seq<Byte>, rects: seq<BlurRect>, y: int, c: int)
    requires img == SplitImage() && rects == [BlurRect(0, 0, 8, 8)] && InImage(8, 8, 0, y, c)
    ensures At(ApplyRegions(img, 8, 8, rects, 0, 1), 8, 8, 0, y, c) == Red(c)
  {
    assert rects[..0] == [];
    assert ApplyRegions(img, 8, 8, rects, 0, 1) == BoxBlurred(img, 8, 8, 1, 1, rects[0]);
    BlurEdge(img, 8, 8, rects[0], y, c);
  }

  /** Channel c of pixel (0, y) of the split image blurred with radius 1 over the whole
      buffer. */
  lemma BlurEdge(img: seq<Byte>, W: int, H: int, r: BlurRect, y: int, c: int)
    requires W == 8 && H == 8 && |img| == W * H * 4 && r == BlurRect(0, 0, W, H)
    requires 0 <= y < H && 0 <= c < 4
    requires forall x, y :: 0 <= x < W && 0 <= y < H ==> At(img, W, H, x, y, c) == if x < 4 then Red(c) else Blue(c)
    ensures At(BoxBlurred(img, W, H, 1, 1, r), W, H, 0, y, c) == Red(c)
  {
    WholeImageBlur(img, W, H, 1, 1, r, 0, y, c);
    var horiz := HorizontalPass(img, W, H, Radius(1));
    forall j | 0 <= j < H
      ensures At(horiz, W, H, 0, j, c) == Red(c)
    {
      RowMeanBetween(img, W, H, Radius(1), 0, j, c, Red(c), Red(c));
    }
    ColumnMeanBetween(horiz, W, H, Radius(1), 0, y, c, Red(c), Red(c));
  }

  /** Next to the split the colours blend: column 3 of the blurred split image is
      (170, 0, 85, 255) in R, G, B, A, the mean of two red taps and one blue tap, in every
      row. */
  lemma BlurSplitImageSeam(img: seq<Byte>, rects: seq<BlurRect>, y: int, c: int)
    requires img == SplitImage() && rects == [BlurRect(0, 0, 8, 8)] && InImage(8, 8, 3, y, c)
    ensures At(ApplyRegions(img, 8, 8, rects, 0, 1), 8, 8, 3, y, c) == [170, 0, 85, 255][c]
  {
    assert rects[..0] == [];
    assert ApplyRegions(img, 8, 8, rects, 0, 1) == BoxBlurred(img, 8, 8, 1, 1, rects[0]);
    BlurSeam(img, 8, 8, rects[0], y, c);
  }

  /** Channel c of pixel (3, y) of the split image blurred with radius 1 over the whole
      buffer. */
  lemma BlurSeam(img: seq<Byte>, W: int, H: int, r: BlurRect, y: int, c: int)
    requires W == 8 && H == 8 && |img| == W * H * 4 && r == BlurRect(0, 0, W, H)
    requires 0 <= y < H && 0 <= c < 4
    requires forall x, y :: 0 <= x < W && 0 <= y < H ==> At(img, W, H, x, y, c) == if x < 4 then Red(c) else Blue(c)
    ensures At(BoxBlurred(img, W, H, 1, 1, r), W, H, 3, y, c) == (2 * Red(c) + Blue(c)) / 3 == [170, 0, 85, 255][c]
  {
    WholeImageBlur(img, W, H, 1, 1, r, 3, y, c);
    var horiz := HorizontalPass(img, W, H, Radius(1));
    var v := (2 * Red(c) + Blue(c)) / 3;
    SeamColumn(img, horiz, W, H, Radius(1), c, v);
    ColumnMeanBetween(horiz, W, H, Radius(1), 3, y, c, v, v);
  }

  /** After the horizontal pass, channel c of column 3 holds (2 * Red(c) + Blue(c)) / 3 in
      every row. */
  lemma SeamColumn(tmp: seq<Byte>, horiz: seq<Byte>, w: int, h: int, rad: int, c: int, v: int)
    requires w == 8 && h == 8 && rad == 1 && |tmp| == w * h * 4 && 0 <= c < 4
    requires forall x, y :: 0 <= x < 8 && 0 <= y < 8 ==> At(tmp, w, h, x, y, c) == if x < 4 then Red(c) else Blue(c)
    requires horiz == HorizontalPass(tmp, w, h, rad) && v == (2 * Red(c) + Blue(c)) / 3
    ensures forall j :: 0 <= j < 8 ==> At(horiz, w, h, 3, j, c) == v
  {
    forall j | 0 <= j < 8
      ensures At(horiz, w, h, 3, j, c) == v
    {
      var row := Row(tmp, w, h, j, c);
      assert TapSum(row, 3, -1, 2) == row[2] + row[3] + row[4];
    }
  }

  /** The test's main: fill the split image, pixelate the whole buffer with strength 4 and
      read the two probe pixels. The call returns 0, the left pixel is dominantly red and
      the right one dominantly blue, each within the test's tolerance of 40. */
  method SmokeTest() returns (rc: int, left: seq<Byte>, right: seq<Byte>)
    ensures rc == 0
    ensures |left| == 4 && left[0] > left[1] && left[0] > left[2] && left[0] >= 255 - 40
    ensures |right| == 4 && right[2] > right[0] && right[2] > right[1] && right[2] >= 255 - 40
  {
    var pixels := NewSplitImage();
    ghost var img := pixels[..];
    var rects := [BlurRect(0, 0, 8, 8)];
    rc := BlurApplyRegions(pixels, 8, 8, rects, 1, 4);
    SplitImageProbes(img, rects, pixels[..]);
    left := pixels[136..140];
    right := pixels[152..156];
  }

  /** The test's fill loops, as one fresh buffer holding the split image. */
  method NewSplitImage() returns (pixels: array<Byte>)
    ensures fresh(pixels) && pixels[..] == SplitImage()
  {
    var img := SplitImage();
    pixels := new Byte[8 * 8 * 4](i requires 0 <= i < 8 * 8 * 4 => img[i]);
    assert pixels[..] == img;
  }

  // ---------------------------------------------------------------------------
  // The rectangle list as the JNI bridge passes it (app/android/app/blurcore/jni_bridge.cpp):
  // a flat int array [x, y, w, h] * N.

  /** The rectangles a packed int array stands for: N = len / 4 of them, any trailing
      ints ignored. */
  function Unpacked(arr: seq<int>): (rs: seq<BlurRect>)
    ensures |rs| == |arr| / 4
  {
    seq(|arr| / 4, k requires 0 <= k < |arr| / 4 => BlurRect(arr[k * 4], arr[k * 4 + 1], arr[k * 4 + 2], arr[k * 4 + 3]))
  }

  /** The packed form of a list of rectangles. */
  function Packed(rs: seq<BlurRect>): (arr: seq<int>)
    ensures |arr| == 4 * |rs|
  {
    if |rs| == 0 then []
    else Packed(rs[..|rs| - 1]) + [rs[|rs| - 1].x, rs[|rs| - 1].y, rs[|rs| - 1].w, rs[|rs| - 1].h]
  }

  /** Rectangle k of a list sits at offsets 4k .. 4k+3 of its packed form. */
  lemma {:induction false} PackedAt(rs: seq<BlurRect>, k: int)
    requires 0 <= k < |rs|
    ensures Packed(rs)[k * 4] == rs[k].x && Packed(rs)[k * 4 + 1] == rs[k].y
    ensures Packed(rs)[k * 4 + 2] == rs[k].w && Packed(rs)[k * 4 + 3] == rs[k].h
    decreases |rs|
  {
    if k < |rs| - 1 {
      PackedAt(rs[..|rs| - 1], k);
    }
  }

  /** Unpacking a packed list gives the list back, whatever fewer-than-four ints follow it. */
  lemma UnpackPacked(rs: seq<BlurRect>, extra: seq<int>)
    requires |extra| < 4
    ensures Unpacked(Packed(rs) + extra) == rs
  {
    var arr := Packed(rs) + extra;
    assert |arr| / 4 == |rs|;
    forall k | 0 <= k < |rs|
      ensures Unpacked(arr)[k] == rs[k]
    {
      PackedAt(rs, k);
    }
  }

  /** The loop of the JNI bridge that fills rs[i] from arr[i*4 .. i*4+3]. */
  method UnpackRects(arr: seq<int>) returns (rs: seq<BlurRect>)
    ensures rs == Unpacked(arr)
  {
    var n := |arr| / 4;
    rs := [];
    for i := 0 to n
      invariant rs == Unpacked(arr)[..i]
    {
      rs := rs + [BlurRect(arr[i * 4], arr[i * 4 + 1], arr[i * 4 + 2], arr[i * 4 + 3])];
    }
  }
}
