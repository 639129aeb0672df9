// boxBlurRGBA of native/src/blur.cpp: a separable box blur of one clamped
// rectangle of an RGBA8888 buffer, done in place.
//
// The specification is a chain of functions on byte sequences, one per commented
// phase of the source: Crop (copy the sub-rectangle into tmp), HorizontalPass
// (tmp -> horiz), VerticalPass (horiz -> tmp) and Paste (blit tmp back). The
// methods at the end of the module do the same work on arrays, loop by loop, and
// are proved equal to that chain.

module BoxBlur {

  import opened Layout
  import opened Sampling

  /** The inclusive pixel window x0..x1, y0..y1 that a rectangle clamps to. */
  datatype Window = Window(x0: int, y0: int, x1: int, y1: int) {

    function Width(): int { x1 - x0 + 1 }

    function Height(): int { y1 - y0 + 1 }

    predicate Contains(x: int, y: int) { x0 <= x <= x1 && y0 <= y <= y1 }

    /** A non-empty window inside a W-by-H image. */
    predicate Within(W: int, H: int) { 0 <= x0 <= x1 < W && 0 <= y0 <= y1 < H }
  }

  /** rx = std::max(1, rx): a radius below 1 is raised to 1, any other is kept. */
  function Radius(r: int): (r': int)
    ensures r' >= 1
    ensures r >= 1 ==> r' == r
    ensures r < 1 ==> r' == 1
  {
    if r < 1 then 1 else r
  }

  /** The window of a rectangle: each corner clamped into the image separately. */
  function ClampWindow(W: int, H: int, r: BlurRect): (win: Window)
    requires W > 0 && H > 0
    ensures 0 <= win.x0 < W && 0 <= win.x1 < W && 0 <= win.y0 < H && 0 <= win.y1 < H
    ensures r.w > 0 && r.h > 0 ==> win.Within(W, H)
  {
    ClampiMonotone(r.x, r.x + r.w - 1, 0, W - 1);
    ClampiMonotone(r.y, r.y + r.h - 1, 0, H - 1);
    Window(Clampi(r.x, 0, W - 1), Clampi(r.y, 0, H - 1),
           Clampi(r.x + r.w - 1, 0, W - 1), Clampi(r.y + r.h - 1, 0, H - 1))
  }

  /** A rectangle that meets the image clamps to exactly the pixels it shares with it. */
  lemma WindowIsClippedRect(W: int, H: int, r: BlurRect)
    requires W > 0 && H > 0 && r.w > 0 && r.h > 0
    requires r.x < W && 0 < r.x + r.w && r.y < H && 0 < r.y + r.h
    ensures forall x, y :: ClampWindow(W, H, r).Contains(x, y) <==>
      (0 <= x < W && 0 <= y < H && r.x <= x < r.x + r.w && r.y <= y < r.y + r.h)
  {
  }

  /** A rectangle wholly to the right of the image is not dropped: it clamps onto the last
      column, and one wholly to the left onto the first. */
  lemma OutsideRectClampsToEdge(W: int, H: int, r: BlurRect)
    requires W > 0 && H > 0 && r.w > 0
    ensures W <= r.x ==> ClampWindow(W, H, r).x0 == ClampWindow(W, H, r).x1 == W - 1
    ensures r.x + r.w <= 0 ==> ClampWindow(W, H, r).x0 == ClampWindow(W, H, r).x1 == 0
  {
  }

  /** A rectangle that covers the whole buffer clamps to the whole buffer. */
  lemma WholeImageWindow(W: int, H: int, r: BlurRect)
    requires W > 0 && H > 0 && r == BlurRect(0, 0, W, H)
    ensures ClampWindow(W, H, r).x0 == 0 && ClampWindow(W, H, r).y0 == 0
    ensures ClampWindow(W, H, r).Width() == W && ClampWindow(W, H, r).Height() == H
  {
  }

  /** The scratch copy tmp of lines 19-25: the window's pixels, in rows of Width() pixels. */
  function Crop(p: seq<Byte>, W: int, H: int, win: Window): (tmp: seq<Byte>)
    requires |p| == W * H * 4 && win.Within(W, H)
    ensures |tmp| == win.Width() * win.Height() * 4
    ensures forall x, y, c :: InImage(win.Width(), win.Height(), x, y, c) ==>
      At(tmp, win.Width(), win.Height(), x, y, c) == At(p, W, H, win.x0 + x, win.y0 + y, c)
  {
    var w, h := win.Width(), win.Height();
    IdxDecomposeAll(w);
    IdxInRangeAll(w, h);
    seq(w * h * 4, i requires 0 <= i < w * h * 4 =>
      IdxCompose(w, h, i);
      At(p, W, H, win.x0 + XOf(w, i), win.y0 + YOf(w, i), COf(i)))
  }

  /** Channel c of row y of a w-by-h image. */
  function Row(img: seq<Byte>, w: int, h: int, y: int, c: int): (line: seq<int>)
    requires w > 0 && |img| == w * h * 4 && 0 <= y < h && 0 <= c < 4
    ensures |line| == w
    ensures forall x :: 0 <= x < w ==> line[x] == At(img, w, h, x, y, c)
  {
    seq(w, x requires 0 <= x < w => At(img, w, h, x, y, c) as int)
  }

  /** Channel c of column x of a w-by-h image. */
  function Column(img: seq<Byte>, w: int, h: int, x: int, c: int): (line: seq<int>)
    requires h > 0 && |img| == w * h * 4 && 0 <= x < w && 0 <= c < 4
    ensures |line| == h
    ensures forall y :: 0 <= y < h ==> line[y] == At(img, w, h, x, y, c)
  {
    seq(h, y requires 0 <= y < h => At(img, w, h, x, y, c) as int)
  }

  /** The horizontal pass of lines 29-43: channel c of pixel (x, y) of horiz is the
      truncated mean of the 2rx+1 taps of row y of tmp around x, clamped to the row. */
  function HorizontalPass(tmp: seq<Byte>, w: int, h: int, rx: int): (horiz: seq<Byte>)
    requires w > 0 && h > 0 && |tmp| == w * h * 4 && rx >= 1
    ensures |horiz| == w * h * 4
    ensures forall x, y, c :: InImage(w, h, x, y, c) ==>
      At(horiz, w, h, x, y, c) == BoxMean(Row(tmp, w, h, y, c), x, rx)
  {
    IdxDecomposeAll(w);
    IdxInRangeAll(w, h);
    seq(w * h * 4, i requires 0 <= i < w * h * 4 =>
      IdxCompose(w, h, i);
      RowMean(tmp, w, h, rx, XOf(w, i), YOf(w, i), COf(i)))
  }

  function RowMean(img: seq<Byte>, w: int, h: int, r: int, x: int, y: int, c: int): Byte
    requires |img| == w * h * 4 && InImage(w, h, x, y, c) && r >= 1
  {
    BoxMeanIsByte(Row(img, w, h, y, c), x, r);
    BoxMean(Row(img, w, h, y, c), x, r)
  }

  function ColumnMean(img: seq<Byte>, w: int, h: int, r: int, x: int, y: int, c: int): Byte
    requires |img| == w * h * 4 && InImage(w, h, x, y, c) && r >= 1
  {
    BoxMeanIsByte(Column(img, w, h, x, c), y, r);
    BoxMean(Column(img, w, h, x, c), y, r)
  }

  /** The vertical pass of lines 44-57: the same mean down column x of horiz, radius ry. */
  function VerticalPass(horiz: seq<Byte>, w: int, h: int, ry: int): (out: seq<Byte>)
    requires w > 0 && h > 0 && |horiz| == w * h * 4 && ry >= 1
    ensures |out| == w * h * 4
    ensures forall x, y, c :: InImage(w, h, x, y, c) ==>
      At(out, w, h, x, y, c) == BoxMean(Column(horiz, w, h, x, c), y, ry)
  {
    IdxDecomposeAll(w);
    IdxInRangeAll(w, h);
    seq(w * h * 4, i requires 0 <= i < w * h * 4 =>
      IdxCompose(w, h, i);
      ColumnMean(horiz, w, h, ry, XOf(w, i), YOf(w, i), COf(i)))
  }

  /** The blit of lines 58-63: the window's pixels of p replaced by those of blk. */
  function Paste(p: seq<Byte>, W: int, H: int, win: Window, blk: seq<Byte>): (q: seq<Byte>)
    requires |p| == W * H * 4 && win.Within(W, H) && |blk| == win.Width() * win.Height() * 4
    ensures |q| == |p|
    ensures forall x, y, c :: InImage(W, H, x, y, c) ==>
      At(q, W, H, x, y, c) ==
        if win.Contains(x, y) then At(blk, win.Width(), win.Height(), x - win.x0, y - win.y0, c)
        else At(p, W, H, x, y, c)
  {
    IdxDecomposeAll(W);
    IdxInRangeAll(W, H);
    IdxInRangeAll(win.Width(), win.Height());
    seq(|p|, i requires 0 <= i < |p| =>
      IdxCompose(W, H, i);
      if win.Contains(XOf(W, i), YOf(W, i))
      then At(blk, win.Width(), win.Height(), XOf(W, i) - win.x0, YOf(W, i) - win.y0, COf(i))
      else p[i])
  }

  /** The buffer after boxBlurRGBA(p, W, H, rx, ry, r). */
  function BoxBlurred(p: seq<Byte>, W: int, H: int, rx: int, ry: int, r: BlurRect): (q: seq<Byte>)
    requires W > 0 && H > 0 && |p| == W * H * 4 && r.w > 0 && r.h > 0
    ensures |q| == |p|
    ensures forall x, y, c :: InImage(W, H, x, y, c) && !ClampWindow(W, H, r).Contains(x, y) ==>
      At(q, W, H, x, y, c) == At(p, W, H, x, y, c)
  {
    var win := ClampWindow(W, H, r);
    var w, h := win.Width(), win.Height();
    Paste(p, W, H, win, VerticalPass(HorizontalPass(Crop(p, W, H, win), w, h, Radius(rx)), w, h, Radius(ry)))
  }


  /** A window that is the whole buffer crops to the buffer itself. */
  lemma CropWhole(p: seq<Byte>, W: int, H: int, win: Window)
    requires W > 0 && H > 0 && |p| == W * H * 4 && win.Within(W, H)
    requires win.x0 == 0 && win.y0 == 0 && win.Width() == W && win.Height() == H
    ensures Crop(p, W, H, win) == p
  {
    var tmp := Crop(p, W, H, win);
    forall i | 0 <= i < |p|
      ensures tmp[i] == p[i]
    {
      IdxCompose(W, H, i);
      assert tmp[i] == At(tmp, W, H, XOf(W, i), YOf(W, i), COf(i));
    }
  }

  /** Blurring with a rectangle that covers the whole buffer is the two passes over the
      buffer itself: the copy into tmp and the blit back change nothing. */
  lemma WholeImageBlur(p: seq<Byte>, W: int, H: int, rx: int, ry: int, r: BlurRect, x: int, y: int, c: int)
    requires W > 0 && H > 0 && |p| == W * H * 4 && r == BlurRect(0, 0, W, H) && InImage(W, H, x, y, c)
    ensures At(BoxBlurred(p, W, H, rx, ry, r), W, H, x, y, c) ==
      ColumnMean(HorizontalPass(p, W, H, Radius(rx)), W, H, Radius(ry), x, y, c)
  {
    WholeImageWindow(W, H, r);
    var win := ClampWindow(W, H, r);
    CropWhole(p, W, H, win);
    BlurredInWindow(p, W, H, rx, ry, r, win, x, y, c);
  }

  /** Only bytes of pixels inside the window are written: every byte whose pixel lies
      outside it keeps its value. */
  lemma BoxBlurWritesOnlyWindow(p: seq<Byte>, W: int, H: int, rx: int, ry: int, r: BlurRect, i: int)
    requires W > 0 && H > 0 && |p| == W * H * 4 && r.w > 0 && r.h > 0
    requires 0 <= i < |p| && !ClampWindow(W, H, r).Contains(XOf(W, i), YOf(W, i))
    ensures BoxBlurred(p, W, H, rx, ry, r)[i] == p[i]
  {
    IdxCompose(W, H, i);
  }

  /** Each output channel lies between the least and the greatest value of that channel
      over the pixels the two passes sample: the window's pixels within Radius(rx)
      columns and Radius(ry) rows of the output pixel. */
  lemma BoxBlurBetween(p: seq<Byte>, W: int, H: int, rx: int, ry: int, r: BlurRect,
                       x: int, y: int, c: int, a: int, b: int)
    requires W > 0 && H > 0 && |p| == W * H * 4 && r.w > 0 && r.h > 0
    requires InImage(W, H, x, y, c) && ClampWindow(W, H, r).Contains(x, y)
    requires forall x', y' ::
      (ClampWindow(W, H, r).Contains(x', y') &&
       x - Radius(rx) <= x' <= x + Radius(rx) && y - Radius(ry) <= y' <= y + Radius(ry)) ==>
        a <= At(p, W, H, x', y', c) <= b
    ensures a <= At(BoxBlurred(p, W, H, rx, ry, r), W, H, x, y, c) <= b
  {
    var win := ClampWindow(W, H, r);
    var w, h := win.Width(), win.Height();
    var tmp := Crop(p, W, H, win);
    var rx', ry' := Radius(rx), Radius(ry);
    CropBetween(p, W, H, win, x, y, rx', ry', c, a, b);
    PassesBetween(tmp, w, h, rx', ry', x - win.x0, y - win.y0, c, a, b);
    BlurredInWindow(p, W, H, rx, ry, r, win, x, y, c);
  }

  /** Inside the window, the blurred buffer holds the two passes over the scratch copy, at the
      same offset from the window's corner. */
  lemma BlurredInWindow(p: seq<Byte>, W: int, H: int, rx: int, ry: int, r: BlurRect, win: Window, x: int, y: int, c: int)
    requires W > 0 && H > 0 && |p| == W * H * 4 && r.w > 0 && r.h > 0 && win == ClampWindow(W, H, r)
    requires InImage(W, H, x, y, c) && win.Contains(x, y)
    ensures At(BoxBlurred(p, W, H, rx, ry, r), W, H, x, y, c) ==
      At(VerticalPass(HorizontalPass(Crop(p, W, H, win), win.Width(), win.Height(), Radius(rx)),
                      win.Width(), win.Height(), Radius(ry)),
         win.Width(), win.Height(), x - win.x0, y - win.y0, c)
  {
    var out := VerticalPass(HorizontalPass(Crop(p, W, H, win), win.Width(), win.Height(), Radius(rx)),
                            win.Width(), win.Height(), Radius(ry));
    assert BoxBlurred(p, W, H, rx, ry, r) == Paste(p, W, H, win, out);
    PasteInside(p, W, H, win, out, x, y, c);
  }


  /** A window pixel of the pasted buffer is the block's pixel at the same offset from the
      window's corner. */
  lemma PasteInside(p: seq<Byte>, W: int, H: int, win: Window, blk: seq<Byte>, x: int, y: int, c: int)
    requires |p| == W * H * 4 && win.Within(W, H) && |blk| == win.Width() * win.Height() * 4
    requires InImage(W, H, x, y, c) && win.Contains(x, y)
    ensures InImage(win.Width(), win.Height(), x - win.x0, y - win.y0, c)
    ensures At(Paste(p, W, H, win, blk), W, H, x, y, c) == At(blk, win.Width(), win.Height(), x - win.x0, y - win.y0, c)
  {
  }

  /** Bounds on the window's pixels around (x, y) carry over to the scratch copy, around
      (x - x0, y - y0). */
  lemma CropBetween(p: seq<Byte>, W: int, H: int, win: Window, x: int, y: int, rx: int, ry: int, c: int, a: int, b: int)
    requires |p| == W * H * 4 && win.Within(W, H) && 0 <= c < 4
    requires forall x', y' ::
      (win.Contains(x', y') && x - rx <= x' <= x + rx && y - ry <= y' <= y + ry) ==>
        a <= At(p, W, H, x', y', c) <= b
    ensures forall i, j ::
      (0 <= i < win.Width() && 0 <= j < win.Height() &&
       x - win.x0 - rx <= i <= x - win.x0 + rx && y - win.y0 - ry <= j <= y - win.y0 + ry) ==>
        a <= At(Crop(p, W, H, win), win.Width(), win.Height(), i, j, c) <= b
  {
    var tmp := Crop(p, W, H, win);
    forall i, j | 0 <= i < win.Width() && 0 <= j < win.Height() &&
                  x - win.x0 - rx <= i <= x - win.x0 + rx && y - win.y0 - ry <= j <= y - win.y0 + ry
      ensures a <= At(tmp, win.Width(), win.Height(), i, j, c) <= b
    {
      assert At(tmp, win.Width(), win.Height(), i, j, c) == At(p, W, H, win.x0 + i, win.y0 + j, c);
    }
  }



  /** The two passes over a w-by-h image keep each output channel between the least and the
      greatest value of the pixels within rx columns and ry rows of it. */
  lemma PassesBetween(tmp: seq<Byte>, w: int, h: int, rx: int, ry: int, x: int, y: int, c: int, a: int, b: int)
    requires |tmp| == w * h * 4 && InImage(w, h, x, y, c) && rx >= 1 && ry >= 1
    requires forall i, j :: 0 <= i < w && 0 <= j < h && x - rx <= i <= x + rx && y - ry <= j <= y + ry ==>
      a <= At(tmp, w, h, i, j, c) <= b
    ensures a <= At(VerticalPass(HorizontalPass(tmp, w, h, rx), w, h, ry), w, h, x, y, c) <= b
  {
    var horiz := HorizontalPass(tmp, w, h, rx);
    forall j | 0 <= j < h && y - ry <= j <= y + ry
      ensures a <= At(horiz, w, h, x, j, c) <= b
    {
      RowMeanBetween(tmp, w, h, rx, x, j, c, a, b);
    }
    ColumnMeanBetween(horiz, w, h, ry, x, y, c, a, b);
  }

  /** A horizontal-pass output lies between the extremes of the samples in its row. */
  lemma RowMeanBetween(img: seq<Byte>, w: int, h: int, r: int, x: int, y: int, c: int, a: int, b: int)
    requires |img| == w * h * 4 && InImage(w, h, x, y, c) && r >= 1
    requires forall i :: 0 <= i < w && x - r <= i <= x + r ==> a <= At(img, w, h, i, y, c) <= b
    ensures a <= RowMean(img, w, h, r, x, y, c) <= b
  {
    var row := Row(img, w, h, y, c);
    forall j | Clampi(x - r, 0, w - 1) <= j <= Clampi(x + r, 0, w - 1)
      ensures a <= row[j] <= b
    {
    }
    BoxMeanBetween(row, x, r, a, b);
  }

  /** A vertical-pass output lies between the extremes of the samples in its column. */
  lemma ColumnMeanBetween(img: seq<Byte>, w: int, h: int, r: int, x: int, y: int, c: int, a: int, b: int)
    requires |img| == w * h * 4 && InImage(w, h, x, y, c) && r >= 1
    requires forall j :: 0 <= j < h && y - r <= j <= y + r ==> a <= At(img, w, h, x, j, c) <= b
    ensures a <= ColumnMean(img, w, h, r, x, y, c) <= b
  {
    var col := Column(img, w, h, x, c);
    forall j | Clampi(y - r, 0, h - 1) <= j <= Clampi(y + r, 0, h - 1)
      ensures a <= col[j] <= b
    {
    }
    BoxMeanBetween(col, y, r, a, b);
  }

  /** A window whose pixels all share one RGBA value comes out of the blur byte for byte
      unchanged: every mean is a mean of equal samples. */
  lemma BoxBlurUniformFixed(p: seq<Byte>, W: int, H: int, rx: int, ry: int, r: BlurRect)
    requires W > 0 && H > 0 && |p| == W * H * 4 && r.w > 0 && r.h > 0
    requires forall x, y, c :: InImage(W, H, x, y, c) && ClampWindow(W, H, r).Contains(x, y) ==>
      At(p, W, H, x, y, c) == At(p, W, H, ClampWindow(W, H, r).x0, ClampWindow(W, H, r).y0, c)
    ensures BoxBlurred(p, W, H, rx, ry, r) == p
  {
    var win := ClampWindow(W, H, r);
    var q := BoxBlurred(p, W, H, rx, ry, r);
    forall i | 0 <= i < |p|
      ensures q[i] == p[i]
    {
      IdxCompose(W, H, i);
      var x, y, c := XOf(W, i), YOf(W, i), COf(i);
      if win.Contains(x, y) {
        var v := At(p, W, H, win.x0, win.y0, c);
        BoxBlurBetween(p, W, H, rx, ry, r, x, y, c, v, v);
      }
    }
  }

  // ---------------------------------------------------------------------------
  // The kernel on arrays.

  /** boxBlurRGBA(p, W, H, rx, ry, r): raise both radii to at least 1, clamp the
      rectangle's corners, copy the window out, run the horizontal and then the vertical
      pass, and copy the result back over the window's rows. */
  method BoxBlurRGBA(p: array<Byte>, W: int, H: int, rx: int, ry: int, r: BlurRect)
    requires W > 0 && H > 0 && p.Length == W * H * 4 && r.w > 0 && r.h > 0
    modifies p
    ensures p[..] == BoxBlurred(old(p[..]), W, H, rx, ry, r)
  {
    var rx', ry' := Radius(rx), Radius(ry);
    var win := ClampWindow(W, H, r);
    var tmp := CopyWindow(p, W, H, win);
    var w, h := win.Width(), win.Height();
    var horiz := HorizontalBoxPass(tmp, w, h, rx');
    VerticalBoxPass(horiz, tmp, w, h, ry');
    BlitBack(tmp, p, W, H, win);
  }

  /** Lines 19-25: the window's rows, w*4 bytes each, copied into a fresh scratch buffer. */
  method CopyWindow(p: array<Byte>, W: int, H: int, win: Window) returns (tmp: array<Byte>)
    requires p.Length == W * H * 4 && win.Within(W, H)
    ensures fresh(tmp) && tmp[..] == Crop(p[..], W, H, win)
  {
    var w, h := win.Width(), win.Height();
    ghost var crop := Crop(p[..], W, H, win);
    tmp := new Byte[w * h * 4];
    var y := win.y0;
    var dst := 0;
    while y <= win.y1
      invariant win.y0 <= y <= win.y1 + 1
      invariant dst == Idx(w, 0, y - win.y0, 0) && 0 <= dst <= |crop|
      invariant forall i :: 0 <= i < dst ==> tmp[i] == crop[i]
    {
      var src := Idx(W, win.x0, y, 0);
      NextRow(w, y - win.y0);
      RowStartInRange(w, h, y - win.y0 + 1);
      var j := 0;
      while j < w * 4
        invariant 0 <= j <= w * 4
        invariant forall i :: 0 <= i < dst + j ==> tmp[i] == crop[i]
      {
        CropByte(p[..], W, H, win, y, j);
        tmp[dst + j] := p[src + j];
        j := j + 1;
      }
      y, dst := y + 1, dst + w * 4;
    }
    LastRow(w, h);
    assert tmp[..] == crop;
  }

  lemma NextRow(w: int, y: int)
    ensures Idx(w, 0, y, 0) + w * 4 == Idx(w, 0, y + 1, 0)
  {
  }

  lemma LastRow(w: int, h: int)
    ensures Idx(w, 0, h, 0) == w * h * 4
  {
  }

  /** Byte j of window row y sits at the same distance from the row's start in p and in tmp. */
  lemma CropByte(p: seq<Byte>, W: int, H: int, win: Window, y: int, j: int)
    requires |p| == W * H * 4 && win.Within(W, H) && win.y0 <= y <= win.y1 && 0 <= j < win.Width() * 4
    ensures 0 <= Idx(win.Width(), 0, y - win.y0, 0) + j < win.Width() * win.Height() * 4
    ensures 0 <= Idx(W, win.x0, y, 0) + j < |p|
    ensures Crop(p, W, H, win)[Idx(win.Width(), 0, y - win.y0, 0) + j] == p[Idx(W, win.x0, y, 0) + j]
  {
    var w, h := win.Width(), win.Height();
    var x, c := j / 4, j % 4;
    IdxRowOffset(w, 0, y - win.y0, j);
    IdxRowOffset(W, win.x0, y, j);
    IdxInRange(w, h, x, y - win.y0, c);
    IdxInRange(W, H, win.x0 + x, y, c);
    assert At(Crop(p, W, H, win), w, h, x, y - win.y0, c) == At(p, W, H, win.x0 + x, y, c);
  }

  /** The four bytes of pixel (x, y) are the channels of that pixel. */
  lemma PixelBytes(img: seq<Byte>, w: int, h: int, x: int, y: int)
    requires |img| == w * h * 4 && 0 <= x < w && 0 <= y < h
    ensures 0 <= Idx(w, x, y, 0) && Idx(w, x, y, 3) < w * h * 4
    ensures forall c :: 0 <= c < 4 ==> img[Idx(w, x, y, 0) + c] == At(img, w, h, x, y, c)
  {
    IdxInRange(w, h, x, y, 0);
    IdxInRange(w, h, x, y, 3);
  }

  /** The k loop of lines 34-38: the running sums of the four channels over the taps
      x-r .. x+r of row y, each clamped to the row, and the tap count. */
  method RowTaps(src: array<Byte>, w: int, h: int, r: int, x: int, y: int)
    returns (rsum: int, gsum: int, bsum: int, asum: int, cnt: int)
    requires w > 0 && src.Length == w * h * 4 && 0 <= y < h && r >= 1
    ensures cnt == 2 * r + 1
    ensures rsum == TapSum(Row(src[..], w, h, y, 0), x, -r, r + 1)
    ensures gsum == TapSum(Row(src[..], w, h, y, 1), x, -r, r + 1)
    ensures bsum == TapSum(Row(src[..], w, h, y, 2), x, -r, r + 1)
    ensures asum == TapSum(Row(src[..], w, h, y, 3), x, -r, r + 1)
  {
    rsum, gsum, bsum, asum, cnt := 0, 0, 0, 0, 0;
    for k := -r to r + 1
      invariant cnt == k + r
      invariant rsum == TapSum(Row(src[..], w, h, y, 0), x, -r, k)
      invariant gsum == TapSum(Row(src[..], w, h, y, 1), x, -r, k)
      invariant bsum == TapSum(Row(src[..], w, h, y, 2), x, -r, k)
      invariant asum == TapSum(Row(src[..], w, h, y, 3), x, -r, k)
    {
      var xx := Clampi(x + k, 0, w - 1);
      var s := Idx(w, xx, y, 0);
      RowTapStep(src[..], w, h, x, y, r, k, s);
      rsum, gsum, bsum, asum := rsum + src[s], gsum + src[s + 1], bsum + src[s + 2], asum + src[s + 3];
      cnt := cnt + 1;
    }
  }
  /** One more tap: the tap sum of each channel up to k + 1 adds byte c of the clamped
      pixel at offset k to the sum up to k. */
  lemma RowTapStep(img: seq<Byte>, w: int, h: int, x: int, y: int, r: int, k: int, s: int)
    requires w > 0 && h > 0 && |img| == w * h * 4 && 0 <= y < h && -r <= k
    requires s == Idx(w, Clampi(x + k, 0, w - 1), y, 0)
    ensures 0 <= s && s + 4 <= |img|
    ensures TapSum(Row(img, w, h, y, 0), x, -r, k + 1) == TapSum(Row(img, w, h, y, 0), x, -r, k) + img[s]
    ensures TapSum(Row(img, w, h, y, 1), x, -r, k + 1) == TapSum(Row(img, w, h, y, 1), x, -r, k) + img[s + 1]
    ensures TapSum(Row(img, w, h, y, 2), x, -r, k + 1) == TapSum(Row(img, w, h, y, 2), x, -r, k) + img[s + 2]
    ensures TapSum(Row(img, w, h, y, 3), x, -r, k + 1) == TapSum(Row(img, w, h, y, 3), x, -r, k) + img[s + 3]
  {
    var xx := Clampi(x + k, 0, w - 1);
    PixelBytes(img, w, h, xx, y);
  }


  /** The k loop of lines 48-52: the same sums down column x, over rows y-r .. y+r. */
  method ColumnTaps(src: array<Byte>, w: int, h: int, r: int, x: int, y: int)
    returns (rsum: int, gsum: int, bsum: int, asum: int, cnt: int)
    requires h > 0 && src.Length == w * h * 4 && 0 <= x < w && r >= 1
    ensures cnt == 2 * r + 1
    ensures rsum == TapSum(Column(src[..], w, h, x, 0), y, -r, r + 1)
    ensures gsum == TapSum(Column(src[..], w, h, x, 1), y, -r, r + 1)
    ensures bsum == TapSum(Column(src[..], w, h, x, 2), y, -r, r + 1)
    ensures asum == TapSum(Column(src[..], w, h, x, 3), y, -r, r + 1)
  {
    rsum, gsum, bsum, asum, cnt := 0, 0, 0, 0, 0;
    for k := -r to r + 1
      invariant cnt == k + r
      invariant rsum == TapSum(Column(src[..], w, h, x, 0), y, -r, k)
      invariant gsum == TapSum(Column(src[..], w, h, x, 1), y, -r, k)
      invariant bsum == TapSum(Column(src[..], w, h, x, 2), y, -r, k)
      invariant asum == TapSum(Column(src[..], w, h, x, 3), y, -r, k)
    {
      var yy := Clampi(y + k, 0, h - 1);
      var s := Idx(w, x, yy, 0);
      ColumnTapStep(src[..], w, h, x, y, r, k, s);
      rsum, gsum, bsum, asum := rsum + src[s], gsum + src[s + 1], bsum + src[s + 2], asum + src[s + 3];
      cnt := cnt + 1;
    }
  }
  /** One more tap: the tap sum of each channel up to k + 1 adds byte c of the clamped
      pixel at offset k to the sum up to k. */
  lemma ColumnTapStep(img: seq<Byte>, w: int, h: int, x: int, y: int, r: int, k: int, s: int)
    requires w > 0 && h > 0 && |img| == w * h * 4 && 0 <= x < w && -r <= k
    requires s == Idx(w, x, Clampi(y + k, 0, h - 1), 0)
    ensures 0 <= s && s + 4 <= |img|
    ensures TapSum(Column(img, w, h, x, 0), y, -r, k + 1) == TapSum(Column(img, w, h, x, 0), y, -r, k) + img[s]
    ensures TapSum(Column(img, w, h, x, 1), y, -r, k + 1) == TapSum(Column(img, w, h, x, 1), y, -r, k) + img[s + 1]
    ensures TapSum(Column(img, w, h, x, 2), y, -r, k + 1) == TapSum(Column(img, w, h, x, 2), y, -r, k) + img[s + 2]
    ensures TapSum(Column(img, w, h, x, 3), y, -r, k + 1) == TapSum(Column(img, w, h, x, 3), y, -r, k) + img[s + 3]
  {
    var yy := Clampi(y + k, 0, h - 1);
    PixelBytes(img, w, h, x, yy);
  }


  /** Lines 29-43: every pixel of horiz, row by row, from the row taps of tmp. */
  method HorizontalBoxPass(tmp: array<Byte>, w: int, h: int, rx: int) returns (horiz: array<Byte>)
    requires w > 0 && h > 0 && tmp.Length == w * h * 4 && rx >= 1
    ensures fresh(horiz) && horiz[..] == HorizontalPass(tmp[..], w, h, rx)
  {
    ghost var spec := HorizontalPass(tmp[..], w, h, rx);
    horiz := new Byte[w * h * 4];
    for y := 0 to h
      invariant 0 <= Idx(w, 0, y, 0) <= |spec|
      invariant forall i :: 0 <= i < Idx(w, 0, y, 0) ==> horiz[i] == spec[i]
    {
      NextRow(w, y);
      RowStartInRange(w, h, y + 1);
      HorizontalBoxRow(tmp, horiz, w, h, rx, y);
    }
    LastRow(w, h);
    assert horiz[..] == spec;
  }

  /** One pass of the y loop of lines 29-43: row y of horiz, pixel by pixel. */
  method HorizontalBoxRow(tmp: array<Byte>, horiz: array<Byte>, w: int, h: int, rx: int, y: int)
    requires w > 0 && h > 0 && tmp.Length == w * h * 4 && horiz.Length == w * h * 4 && rx >= 1
    requires tmp != horiz && 0 <= y < h && Idx(w, 0, y + 1, 0) <= w * h * 4
    requires forall i :: 0 <= i < Idx(w, 0, y, 0) ==> horiz[i] == HorizontalPass(tmp[..], w, h, rx)[i]
    modifies horiz
    ensures forall i :: 0 <= i < Idx(w, 0, y + 1, 0) ==> horiz[i] == HorizontalPass(tmp[..], w, h, rx)[i]
  {
    ghost var spec := HorizontalPass(tmp[..], w, h, rx);
    for x := 0 to w
      invariant Idx(w, x, y, 0) <= Idx(w, 0, y + 1, 0)
      invariant forall i :: 0 <= i < Idx(w, x, y, 0) ==> horiz[i] == spec[i]
    {
      HorizontalBoxPixel(tmp, horiz, w, h, rx, x, y);
    }
  }

  /** The body of the x loop: the taps around pixel (x, y) summed and their truncated
      means stored in the pixel's four bytes, and nothing else written. */
  method HorizontalBoxPixel(tmp: array<Byte>, horiz: array<Byte>, w: int, h: int, rx: int, x: int, y: int)
    requires w > 0 && h > 0 && tmp.Length == w * h * 4 && horiz.Length == w * h * 4 && rx >= 1
    requires tmp != horiz && 0 <= x < w && 0 <= y < h
    modifies horiz
    ensures 0 <= Idx(w, x, y, 0) && Idx(w, x, y, 0) + 4 <= w * h * 4
    ensures forall i :: 0 <= i < horiz.Length ==>
      horiz[i] == if Idx(w, x, y, 0) <= i < Idx(w, x, y, 0) + 4 then HorizontalPass(tmp[..], w, h, rx)[i] else old(horiz[i])
  {
    var px := HorizontalPixel(tmp, w, h, rx, x, y);
    WritePixel(horiz, Idx(w, x, y, 0), px);
  }

  /** The four truncated means of lines 39-41 for pixel (x, y): the bytes of HorizontalPass there. */
  method HorizontalPixel(tmp: array<Byte>, w: int, h: int, rx: int, x: int, y: int) returns (px: seq<Byte>)
    requires w > 0 && h > 0 && tmp.Length == w * h * 4 && rx >= 1 && 0 <= x < w && 0 <= y < h
    ensures 0 <= Idx(w, x, y, 0) && Idx(w, x, y, 0) + 4 <= w * h * 4
    ensures px == HorizontalPass(tmp[..], w, h, rx)[Idx(w, x, y, 0)..Idx(w, x, y, 0) + 4]
  {
    var rsum, gsum, bsum, asum, cnt := RowTaps(tmp, w, h, rx, x, y);
    HorizontalPixelAt(tmp[..], w, h, rx, x, y);
    SumOverCount(Row(tmp[..], w, h, y, 0), x, rx, rsum, cnt);
    SumOverCount(Row(tmp[..], w, h, y, 1), x, rx, gsum, cnt);
    SumOverCount(Row(tmp[..], w, h, y, 2), x, rx, bsum, cnt);
    SumOverCount(Row(tmp[..], w, h, y, 3), x, rx, asum, cnt);
    px := [rsum / cnt, gsum / cnt, bsum / cnt, asum / cnt];
  }

  /** The four bytes of pixel (x, y) of HorizontalPass: each channel's box mean along row y. */
  lemma HorizontalPixelAt(t: seq<Byte>, w: int, h: int, rx: int, x: int, y: int)
    requires w > 0 && h > 0 && |t| == w * h * 4 && rx >= 1 && 0 <= x < w && 0 <= y < h
    ensures 0 <= Idx(w, x, y, 0) && Idx(w, x, y, 0) + 4 <= w * h * 4
    ensures HorizontalPass(t, w, h, rx)[Idx(w, x, y, 0)..Idx(w, x, y, 0) + 4] ==
      [BoxMean(Row(t, w, h, y, 0), x, rx), BoxMean(Row(t, w, h, y, 1), x, rx),
       BoxMean(Row(t, w, h, y, 2), x, rx), BoxMean(Row(t, w, h, y, 3), x, rx)]
  {
    HorizontalPassAt(t, w, h, rx, x, y, 0);
    HorizontalPassAt(t, w, h, rx, x, y, 1);
    HorizontalPassAt(t, w, h, rx, x, y, 2);
    HorizontalPassAt(t, w, h, rx, x, y, 3);
  }

  /** The four stores d[0] .. d[3] of one output pixel. */
  method WritePixel(dst: array<Byte>, d: int, px: seq<Byte>)
    requires |px| == 4 && 0 <= d && d + 4 <= dst.Length
    modifies dst
    ensures forall i :: 0 <= i < dst.Length ==> dst[i] == if d <= i < d + 4 then px[i - d] else old(dst[i])
  {
    dst[d], dst[d + 1], dst[d + 2], dst[d + 3] := px[0], px[1], px[2], px[3];
  }

  /** Byte c of pixel (x, y) of the horizontal pass, read at offset Idx(w, x, y, 0) + c as the
      stores of lines 39-41 address it, is the box mean of channel c along row y. */
  lemma HorizontalPassAt(tmp: seq<Byte>, w: int, h: int, rx: int, x: int, y: int, c: int)
    requires w > 0 && h > 0 && |tmp| == w * h * 4 && rx >= 1 && InImage(w, h, x, y, c)
    ensures 0 <= Idx(w, x, y, 0) + c < w * h * 4
    ensures HorizontalPass(tmp, w, h, rx)[Idx(w, x, y, 0) + c] == BoxMean(Row(tmp, w, h, y, c), x, rx)
  {
    IdxInRange(w, h, x, y, c);
    IdxDecompose(w, x, y, c);
    var out := HorizontalPass(tmp, w, h, rx);
    assert out[Idx(w, x, y, 0) + c] == At(out, w, h, x, y, c);
  }

  /** Byte c of pixel (x, y) of the vertical pass, read at offset Idx(w, x, y, 0) + c as the
      stores of lines 53-55 address it, is the box mean of channel c down column x. */
  lemma VerticalPassAt(horiz: seq<Byte>, w: int, h: int, ry: int, x: int, y: int, c: int)
    requires w > 0 && h > 0 && |horiz| == w * h * 4 && ry >= 1 && InImage(w, h, x, y, c)
    ensures 0 <= Idx(w, x, y, 0) + c < w * h * 4
    ensures VerticalPass(horiz, w, h, ry)[Idx(w, x, y, 0) + c] == BoxMean(Column(horiz, w, h, x, c), y, ry)
  {
    IdxInRange(w, h, x, y, c);
    IdxDecompose(w, x, y, c);
    var out := VerticalPass(horiz, w, h, ry);
    assert out[Idx(w, x, y, 0) + c] == At(out, w, h, x, y, c);
  }

  /** Lines 44-57: every pixel written back into tmp from the column taps of horiz. The
      pass reads only horiz, so no sample is read after it has been overwritten. */
  method VerticalBoxPass(horiz: array<Byte>, tmp: array<Byte>, w: int, h: int, ry: int)
    requires w > 0 && h > 0 && horiz.Length == w * h * 4 && tmp.Length == w * h * 4 && ry >= 1
    requires horiz != tmp
    modifies tmp
    ensures tmp[..] == VerticalPass(horiz[..], w, h, ry)
  {
    ghost var spec := VerticalPass(horiz[..], w, h, ry);
    for y := 0 to h
      invariant 0 <= Idx(w, 0, y, 0) <= |spec|
      invariant forall i :: 0 <= i < Idx(w, 0, y, 0) ==> tmp[i] == spec[i]
    {
      NextRow(w, y);
      RowStartInRange(w, h, y + 1);
      VerticalBoxRow(horiz, tmp, w, h, ry, y);
    }
    LastRow(w, h);
    assert tmp[..] == spec;
  }

  /** One pass of the y loop of lines 44-57: row y of tmp, pixel by pixel. */
  method VerticalBoxRow(horiz: array<Byte>, tmp: array<Byte>, w: int, h: int, ry: int, y: int)
    requires w > 0 && h > 0 && horiz.Length == w * h * 4 && tmp.Length == w * h * 4 && ry >= 1
    requires horiz != tmp && 0 <= y < h && Idx(w, 0, y + 1, 0) <= w * h * 4
    requires forall i :: 0 <= i < Idx(w, 0, y, 0) ==> tmp[i] == VerticalPass(horiz[..], w, h, ry)[i]
    modifies tmp
    ensures forall i :: 0 <= i < Idx(w, 0, y + 1, 0) ==> tmp[i] == VerticalPass(horiz[..], w, h, ry)[i]
  {
    ghost var spec := VerticalPass(horiz[..], w, h, ry);
    for x := 0 to w
      invariant Idx(w, x, y, 0) <= Idx(w, 0, y + 1, 0)
      invariant forall i :: 0 <= i < Idx(w, x, y, 0) ==> tmp[i] == spec[i]
    {
      VerticalBoxPixel(horiz, tmp, w, h, ry, x, y);
    }
  }

  /** The body of the x loop: the taps around pixel (x, y) summed and their truncated
      means stored in the pixel's four bytes, and nothing else written. */
  method VerticalBoxPixel(horiz: array<Byte>, tmp: array<Byte>, w: int, h: int, ry: int, x: int, y: int)
    requires w > 0 && h > 0 && horiz.Length == w * h * 4 && tmp.Length == w * h * 4 && ry >= 1
    requires horiz != tmp && 0 <= x < w && 0 <= y < h
    modifies tmp
    ensures 0 <= Idx(w, x, y, 0) && Idx(w, x, y, 0) + 4 <= w * h * 4
    ensures forall i :: 0 <= i < tmp.Length ==>
      tmp[i] == if Idx(w, x, y, 0) <= i < Idx(w, x, y, 0) + 4 then VerticalPass(horiz[..], w, h, ry)[i] else old(tmp[i])
  {
    var px := VerticalPixel(horiz, w, h, ry, x, y);
    WritePixel(tmp, Idx(w, x, y, 0), px);
  }

  /** The four truncated means of lines 53-55 for pixel (x, y): the bytes of VerticalPass there. */
  method VerticalPixel(horiz: array<Byte>, w: int, h: int, ry: int, x: int, y: int) returns (px: seq<Byte>)
    requires w > 0 && h > 0 && horiz.Length == w * h * 4 && ry >= 1 && 0 <= x < w && 0 <= y < h
    ensures 0 <= Idx(w, x, y, 0) && Idx(w, x, y, 0) + 4 <= w * h * 4
    ensures px == VerticalPass(horiz[..], w, h, ry)[Idx(w, x, y, 0)..Idx(w, x, y, 0) + 4]
  {
    var rsum, gsum, bsum, asum, cnt := ColumnTaps(horiz, w, h, ry, x, y);
    VerticalPixelAt(horiz[..], w, h, ry, x, y);
    SumOverCount(Column(horiz[..], w, h, x, 0), y, ry, rsum, cnt);
    SumOverCount(Column(horiz[..], w, h, x, 1), y, ry, gsum, cnt);
    SumOverCount(Column(horiz[..], w, h, x, 2), y, ry, bsum, cnt);
    SumOverCount(Column(horiz[..], w, h, x, 3), y, ry, asum, cnt);
    px := [rsum / cnt, gsum / cnt, bsum / cnt, asum / cnt];
  }

  /** The four bytes of pixel (x, y) of VerticalPass: each channel's box mean down column x. */
  lemma VerticalPixelAt(t: seq<Byte>, w: int, h: int, ry: int, x: int, y: int)
    requires w > 0 && h > 0 && |t| == w * h * 4 && ry >= 1 && 0 <= x < w && 0 <= y < h
    ensures 0 <= Idx(w, x, y, 0) && Idx(w, x, y, 0) + 4 <= w * h * 4
    ensures VerticalPass(t, w, h, ry)[Idx(w, x, y, 0)..Idx(w, x, y, 0) + 4] ==
      [BoxMean(Column(t, w, h, x, 0), y, ry), BoxMean(Column(t, w, h, x, 1), y, ry),
       BoxMean(Column(t, w, h, x, 2), y, ry), BoxMean(Column(t, w, h, x, 3), y, ry)]
  {
    VerticalPassAt(t, w, h, ry, x, y, 0);
    VerticalPassAt(t, w, h, ry, x, y, 1);
    VerticalPassAt(t, w, h, ry, x, y, 2);
    VerticalPassAt(t, w, h, ry, x, y, 3);
  }

  /** Lines 58-63: each row of tmp copied over the window's row in p. */
  method BlitBack(tmp: array<Byte>, p: array<Byte>, W: int, H: int, win: Window)
    requires p.Length == W * H * 4 && win.Within(W, H) && tmp.Length == win.Width() * win.Height() * 4
    requires tmp != p
    modifies p
    ensures p[..] == Paste(old(p[..]), W, H, win, tmp[..])
  {
    ghost var p0 := p[..];
    PasteStart(p0, W, H, win, tmp[..]);
    for y := win.y0 to win.y1 + 1
      invariant PastedUpTo(p[..], p0, Paste(p0, W, H, win, tmp[..]), Idx(W, win.x0, y, 0))
    {
      BlitRow(tmp, p, W, H, win, y, p0);
    }
    PasteEnd(p[..], p0, W, H, win, tmp[..]);
  }

  /** Before the first window row nothing is written, and every byte before it keeps its
      value in the pasted buffer. */
  lemma PasteStart(p0: seq<Byte>, W: int, H: int, win: Window, blk: seq<Byte>)
    requires |p0| == W * H * 4 && win.Within(W, H) && |blk| == win.Width() * win.Height() * 4
    ensures PastedUpTo(p0, p0, Paste(p0, W, H, win, blk), Idx(W, win.x0, win.y0, 0))
  {
    var q := Paste(p0, W, H, win, blk);
    var n := Idx(W, win.x0, win.y0, 0);
    forall i | 0 <= i < |p0|
      ensures p0[i] == if i < n then q[i] else p0[i]
    {
      if i < n {
        GapOutsideWindow(W, H, win, win.y0 - 1, i);
        PasteOutside(p0, W, H, win, blk, i);
      }
    }
  }

  /** After the last window row every byte after it keeps its value too, so the buffer is
      the pasted one. */
  lemma PasteEnd(p: seq<Byte>, p0: seq<Byte>, W: int, H: int, win: Window, blk: seq<Byte>)
    requires |p0| == W * H * 4 && win.Within(W, H) && |blk| == win.Width() * win.Height() * 4
    requires PastedUpTo(p, p0, Paste(p0, W, H, win, blk), Idx(W, win.x0, win.y1 + 1, 0))
    ensures p == Paste(p0, W, H, win, blk)
  {
    var q := Paste(p0, W, H, win, blk);
    var n := Idx(W, win.x0, win.y1 + 1, 0);
    assert (win.y1 + 1) * W == win.y1 * W + W;
    assert Idx(W, win.x1 + 1, win.y1, 0) <= n;
    forall i | 0 <= i < |p0|
      ensures p[i] == q[i]
    {
      if n <= i {
        GapOutsideWindow(W, H, win, win.y1, i);
        PasteOutside(p0, W, H, win, blk, i);
      }
    }
  }

  /** p agrees with the pasted buffer q before offset n and with the original p0 from n on. */
  ghost predicate PastedUpTo(p: seq<Byte>, p0: seq<Byte>, q: seq<Byte>, n: int)
  {
    |p| == |p0| == |q| && forall i :: 0 <= i < |p0| ==> p[i] == if i < n then q[i] else p0[i]
  }

  /** One pass of the row loop of lines 58-63: the w*4 bytes of block row y - y0 copied
      to the window's segment of row y, after which p agrees with the paste up to the
      next row's segment. */
  method BlitRow(tmp: array<Byte>, p: array<Byte>, W: int, H: int, win: Window, y: int, ghost p0: seq<Byte>)
    requires p.Length == W * H * 4 && win.Within(W, H) && tmp.Length == win.Width() * win.Height() * 4
    requires tmp != p && win.y0 <= y <= win.y1 && |p0| == W * H * 4
    requires PastedUpTo(p[..], p0, Paste(p0, W, H, win, tmp[..]), Idx(W, win.x0, y, 0))
    modifies p
    ensures PastedUpTo(p[..], p0, Paste(p0, W, H, win, tmp[..]), Idx(W, win.x0, y + 1, 0))
  {
    ghost var q := Paste(p0, W, H, win, tmp[..]);
    var w := win.Width();
    var j := 0;
    while j < w * 4
      invariant 0 <= j <= w * 4
      invariant PastedUpTo(p[..], p0, q, Idx(W, win.x0, y, 0) + j)
    {
      PasteByte(p0, W, H, win, tmp[..], y, j);
      p[Idx(W, win.x0, y, 0) + j] := tmp[Idx(w, 0, y - win.y0, 0) + j];
      j := j + 1;
    }
    RowDone(p[..], p0, W, H, win, tmp[..], y);
  }

  /** Once the window's part of row y is pasted, everything up to the window's part of row
      y + 1 is: the bytes between them lie outside the window and keep their value. */
  lemma RowDone(p: seq<Byte>, p0: seq<Byte>, W: int, H: int, win: Window, blk: seq<Byte>, y: int)
    requires |p0| == W * H * 4 && win.Within(W, H) && |blk| == win.Width() * win.Height() * 4
    requires win.y0 <= y <= win.y1
    requires PastedUpTo(p, p0, Paste(p0, W, H, win, blk), Idx(W, win.x0, y, 0) + win.Width() * 4)
    ensures PastedUpTo(p, p0, Paste(p0, W, H, win, blk), Idx(W, win.x0, y + 1, 0))
  {
    var q := Paste(p0, W, H, win, blk);
    var n0, n1 := Idx(W, win.x1 + 1, y, 0), Idx(W, win.x0, y + 1, 0);
    assert Idx(W, win.x0, y, 0) + win.Width() * 4 == n0;
    assert (y + 1) * W == y * W + W;
    forall i | 0 <= i < |p0|
      ensures p[i] == if i < n1 then q[i] else p0[i]
    {
      if n0 <= i < n1 {
        GapOutsideWindow(W, H, win, y, i);
        PasteOutside(p0, W, H, win, blk, i);
      }
    }
  }

  /** A byte whose pixel lies outside the window keeps its value in the pasted buffer. */
  lemma PasteOutside(p: seq<Byte>, W: int, H: int, win: Window, blk: seq<Byte>, i: int)
    requires |p| == W * H * 4 && win.Within(W, H) && |blk| == win.Width() * win.Height() * 4
    requires 0 <= i < |p| && !win.Contains(XOf(W, i), YOf(W, i))
    ensures Paste(p, W, H, win, blk)[i] == p[i]
  {
    IdxCompose(W, H, i);
    assert Paste(p, W, H, win, blk)[i] == At(Paste(p, W, H, win, blk), W, H, XOf(W, i), YOf(W, i), COf(i));
  }

  /** Byte j of window row y of the pasted buffer is byte j of row y - y0 of the block. */
  lemma PasteByte(p: seq<Byte>, W: int, H: int, win: Window, blk: seq<Byte>, y: int, j: int)
    requires |p| == W * H * 4 && win.Within(W, H) && |blk| == win.Width() * win.Height() * 4
    requires win.y0 <= y <= win.y1 && 0 <= j < win.Width() * 4
    ensures 0 <= Idx(win.Width(), 0, y - win.y0, 0) + j < |blk|
    ensures 0 <= Idx(W, win.x0, y, 0) + j < |p|
    ensures Paste(p, W, H, win, blk)[Idx(W, win.x0, y, 0) + j] == blk[Idx(win.Width(), 0, y - win.y0, 0) + j]
  {
    var w, h := win.Width(), win.Height();
    var x, c := j / 4, j % 4;
    IdxRowOffset(w, 0, y - win.y0, j);
    IdxRowOffset(W, win.x0, y, j);
    IdxInRange(w, h, x, y - win.y0, c);
    IdxInRange(W, H, win.x0 + x, y, c);
    assert At(Paste(p, W, H, win, blk), W, H, win.x0 + x, y, c) == At(blk, w, h, x, y - win.y0, c);
  }

  /** The bytes before the window's first row segment, between the segments of rows y and
      y + 1, and after the last segment belong to pixels outside the window, so the paste
      leaves them alone. */
  lemma GapOutsideWindow(W: int, H: int, win: Window, y: int, i: int)
    requires win.Within(W, H) && 0 <= i < W * H * 4 && win.y0 - 1 <= y <= win.y1
    requires y < win.y0 || Idx(W, win.x1 + 1, y, 0) <= i
    requires y == win.y1 || i < Idx(W, win.x0, y + 1, 0)
    ensures !win.Contains(XOf(W, i), YOf(W, i))
  {
    IdxCompose(W, H, i);
    var X, Y, C := XOf(W, i), YOf(W, i), COf(i);
    IdxBefore(W, X, Y, C, win.x1 + 1, y);
    IdxBefore(W, X, Y, C, win.x0, y + 1);
  }
}
