// The pixelate kernel (mode 1 of blur_apply_regions, native/include/blur.h). Its body is
// not part of native/src/blur.cpp, so it is stated here as a specification only: the
// clamped window is tiled by square blocks of edge `block` from its top-left corner (the
// last row and column of blocks are cut short by the window's edge), and every pixel of a
// block is overwritten with the block's per-channel truncated mean.

module Pixelate {

  import opened Layout
  import opened Sampling
  import opened BoxBlur

  function Min(a: int, b: int): int
  {
    if a <= b then a else b
  }

  /** Sum of channel c over the pixels x0 .. x1-1 of row y. */
  function SpanSum(p: seq<Byte>, W: int, H: int, x0: int, x1: int, y: int, c: int): int
    requires |p| == W * H * 4 && 0 <= x0 && x1 <= W && 0 <= y < H && 0 <= c < 4
    decreases x1 - x0
  {
    if x1 <= x0 then 0 else SpanSum(p, W, H, x0, x1 - 1, y, c) + At(p, W, H, x1 - 1, y, c)
  }

  /** Sum of channel c over the pixels x0 .. x1-1 of the rows y0 .. y1-1. */
  function BlockSum(p: seq<Byte>, W: int, H: int, x0: int, x1: int, y0: int, y1: int, c: int): int
    requires |p| == W * H * 4 && 0 <= x0 && x1 <= W && 0 <= y0 && y1 <= H && 0 <= c < 4
    decreases y1 - y0
  {
    if y1 <= y0 then 0 else BlockSum(p, W, H, x0, x1, y0, y1 - 1, c) + SpanSum(p, W, H, x0, x1, y1 - 1, c)
  }

  /** Channel c of every pixel of the block x0 .. x1-1, y0 .. y1-1 lies in [a, b]. */
  ghost predicate BlockBetween(p: seq<Byte>, W: int, H: int, x0: int, x1: int, y0: int, y1: int, c: int, a: int, b: int)
    requires |p| == W * H * 4 && 0 <= x0 && x1 <= W && 0 <= y0 && y1 <= H && 0 <= c < 4
  {
    forall x, y :: x0 <= x < x1 && y0 <= y < y1 ==> a <= At(p, W, H, x, y, c) <= b
  }

  /** A sum over n pixels of a row whose values lie in [a, b] lies in [n*a, n*b]. */
  lemma {:induction false} SpanSumBetween(p: seq<Byte>, W: int, H: int, x0: int, x1: int, y: int, c: int, a: int, b: int)
    requires |p| == W * H * 4 && 0 <= x0 <= x1 <= W && 0 <= y < H && 0 <= c < 4
    requires forall x :: x0 <= x < x1 ==> a <= At(p, W, H, x, y, c) <= b
    ensures (x1 - x0) * a <= SpanSum(p, W, H, x0, x1, y, c) <= (x1 - x0) * b
    decreases x1 - x0
  {
    if x0 < x1 {
      SpanSumBetween(p, W, H, x0, x1 - 1, y, c, a, b);
      AddSample(x1 - 1 - x0, SpanSum(p, W, H, x0, x1 - 1, y, c), At(p, W, H, x1 - 1, y, c), a, b);
    }
  }

  /** One more sample in [a, b] keeps a sum of m such samples within the bounds for m+1. */
  lemma AddSample(m: int, s: int, v: int, a: int, b: int)
    requires m * a <= s <= m * b && a <= v <= b
    ensures (m + 1) * a <= s + v <= (m + 1) * b
  {
    assert (m + 1) * a == m * a + a;
    assert (m + 1) * b == m * b + b;
  }

  /** A sum over the k rows of a block, each of n pixels whose values lie in [a, b], lies in
      [k*(n*a), k*(n*b)]. */
  lemma {:induction false} BlockSumBetween(p: seq<Byte>, W: int, H: int, x0: int, x1: int, y0: int, y1: int,
                                           c: int, a: int, b: int)
    requires |p| == W * H * 4 && 0 <= x0 <= x1 <= W && 0 <= y0 <= y1 <= H && 0 <= c < 4
    requires BlockBetween(p, W, H, x0, x1, y0, y1, c, a, b)
    ensures (y1 - y0) * ((x1 - x0) * a) <= BlockSum(p, W, H, x0, x1, y0, y1, c) <= (y1 - y0) * ((x1 - x0) * b)
    decreases y1 - y0
  {
    if y0 < y1 {
      SplitLastRow(p, W, H, x0, x1, y0, y1, y1 - 1, c, a, b);
      BlockSumBetween(p, W, H, x0, x1, y0, y1 - 1, c, a, b);
      SpanSumBetween(p, W, H, x0, x1, y1 - 1, c, a, b);
      AddSample(y1 - 1 - y0, BlockSum(p, W, H, x0, x1, y0, y1 - 1, c), SpanSum(p, W, H, x0, x1, y1 - 1, c),
                (x1 - x0) * a, (x1 - x0) * b);
    }
  }

  /** The bounds on a block hold for its rows but the last, and for its last row y. */
  lemma SplitLastRow(p: seq<Byte>, W: int, H: int, x0: int, x1: int, y0: int, y1: int, y: int, c: int, a: int, b: int)
    requires |p| == W * H * 4 && 0 <= x0 <= x1 <= W && 0 <= y0 < y1 <= H && y == y1 - 1 && 0 <= c < 4
    requires BlockBetween(p, W, H, x0, x1, y0, y1, c, a, b)
    ensures BlockBetween(p, W, H, x0, x1, y0, y, c, a, b)
    ensures forall x :: x0 <= x < x1 ==> a <= At(p, W, H, x, y, c) <= b
  {
  }

  /** k rows of n pixels are k*n pixels. */
  lemma RowsTimesColumns(n: int, k: int, v: int)
    ensures k * (n * v) == (n * k) * v
  {
  }

  /** The number of pixels of a non-empty window is positive. */
  lemma AreaPositive(win: Window)
    requires win.Width() >= 1 && win.Height() >= 1
    ensures win.Width() * win.Height() >= 1
  {
    MulMonotone(1, win.Width(), win.Height());
  }

  /** The per-channel truncated mean of the pixels of window blk. */
  function BlockMean(p: seq<Byte>, W: int, H: int, blk: Window, c: int): int
    requires |p| == W * H * 4 && blk.Within(W, H) && 0 <= c < 4
  {
    AreaPositive(blk);
    BlockSum(p, W, H, blk.x0, blk.x1 + 1, blk.y0, blk.y1 + 1, c) / (blk.Width() * blk.Height())
  }

  /** The mean of a block lies between the least and the greatest of its pixels' values. */
  lemma BlockMeanBetween(p: seq<Byte>, W: int, H: int, blk: Window, c: int, a: int, b: int)
    requires |p| == W * H * 4 && blk.Within(W, H) && 0 <= c < 4
    requires forall x, y :: blk.Contains(x, y) ==> a <= At(p, W, H, x, y, c) <= b
    ensures a <= BlockMean(p, W, H, blk, c) <= b
  {
    AreaPositive(blk);
    BlockSumBetween(p, W, H, blk.x0, blk.x1 + 1, blk.y0, blk.y1 + 1, c, a, b);
    RowsTimesColumns(blk.Width(), blk.Height(), a);
    RowsTimesColumns(blk.Width(), blk.Height(), b);
    DivBetween(BlockSum(p, W, H, blk.x0, blk.x1 + 1, blk.y0, blk.y1 + 1, c), blk.Width() * blk.Height(), a, b);
  }

  /** The first coordinate of the block, of edge b tiled from lo, that holds v. */
  function BlockStart(lo: int, b: int, v: int): (s: int)
    requires b >= 1 && lo <= v
    ensures lo <= s <= v < s + b
  {
    QuotientBounds(v - lo, b);
    lo + ((v - lo) / b) * b
  }

  /** A non-negative n lies in the step of length b that its quotient by b names. */
  lemma QuotientBounds(n: int, b: int)
    requires n >= 0 && b >= 1
    ensures 0 <= (n / b) * b <= n < (n / b) * b + b
  {
    var q := n / b;
    assert n == q * b + n % b;
    if q < 0 {
      MulMonotone(q + 1, 0, b);
      assert false;
    }
    MulMonotone(0, q, b);
  }

  /** Every value of a block has that block's start. */
  lemma BlockStartSame(lo: int, b: int, v: int, u: int)
    requires b >= 1 && lo <= v && BlockStart(lo, b, v) <= u < BlockStart(lo, b, v) + b
    ensures BlockStart(lo, b, u) == BlockStart(lo, b, v)
  {
    var q := (v - lo) / b;
    DivModUnique(u - lo, b, q, u - BlockStart(lo, b, v));
  }

  /** The block of edge b, tiled from the window's top-left corner and cut short by its
      right and bottom edges, that holds pixel (x, y). */
  function BlockOf(win: Window, b: int, x: int, y: int): (blk: Window)
    requires b >= 1 && win.Contains(x, y)
    ensures blk.Contains(x, y)
    ensures win.x0 <= blk.x0 && blk.x1 <= win.x1 && win.y0 <= blk.y0 && blk.y1 <= win.y1
    ensures blk.Width() <= b && blk.Height() <= b
  {
    var sx := BlockStart(win.x0, b, x);
    var sy := BlockStart(win.y0, b, y);
    Window(sx, sy, Min(sx + b - 1, win.x1), Min(sy + b - 1, win.y1))
  }

  /** The blocks partition the window: every pixel of the block of (x, y) has that same block. */
  lemma BlockOfSame(win: Window, b: int, x: int, y: int, x': int, y': int)
    requires b >= 1 && win.Contains(x, y) && BlockOf(win, b, x, y).Contains(x', y')
    ensures win.Contains(x', y') && BlockOf(win, b, x', y') == BlockOf(win, b, x, y)
  {
    BlockStartSame(win.x0, b, x, x');
    BlockStartSame(win.y0, b, y, y');
  }

  /** The fill value of channel c of pixel (x, y): the mean of its block. */
  function PixelMean(p: seq<Byte>, W: int, H: int, win: Window, b: int, x: int, y: int, c: int): Byte
    requires |p| == W * H * 4 && win.Within(W, H) && b >= 1 && win.Contains(x, y) && 0 <= c < 4
  {
    var blk := BlockOf(win, b, x, y);
    BlockMeanBetween(p, W, H, blk, c, 0, 255);
    BlockMean(p, W, H, blk, c)
  }

  /** The buffer after pixelating window win with blocks of edge b: each pixel of the window
      takes its block's mean, every other pixel keeps its value. */
  function Pixelated(p: seq<Byte>, W: int, H: int, win: Window, b: int): (q: seq<Byte>)
    requires |p| == W * H * 4 && win.Within(W, H) && b >= 1
    ensures |q| == |p|
    ensures forall x, y, c :: InImage(W, H, x, y, c) ==>
      At(q, W, H, x, y, c) ==
        if win.Contains(x, y) then BlockMean(p, W, H, BlockOf(win, b, x, y), c) else At(p, W, H, x, y, c)
  {
    IdxDecomposeAll(W);
    IdxInRangeAll(W, H);
    seq(|p|, i requires 0 <= i < |p| =>
      IdxCompose(W, H, i);
      if win.Contains(XOf(W, i), YOf(W, i)) then PixelMean(p, W, H, win, b, XOf(W, i), YOf(W, i), COf(i))
      else p[i])
  }

  /** Pixelating leaves a flat fill: all pixels of one block end up with the same colour. */
  lemma PixelatedFlatBlocks(p: seq<Byte>, W: int, H: int, win: Window, b: int, x: int, y: int, x': int, y': int, c: int)
    requires |p| == W * H * 4 && win.Within(W, H) && b >= 1 && 0 <= c < 4
    requires win.Contains(x, y) && BlockOf(win, b, x, y).Contains(x', y')
    ensures win.Contains(x', y')
    ensures At(Pixelated(p, W, H, win, b), W, H, x', y', c) == At(Pixelated(p, W, H, win, b), W, H, x, y, c)
  {
    BlockOfSame(win, b, x, y, x', y');
  }

  /** Each channel of a pixelated pixel lies between the least and the greatest value of that
      channel over the original pixels of its block. */
  lemma PixelatedBetween(p: seq<Byte>, W: int, H: int, win: Window, b: int, x: int, y: int, c: int, lo: int, hi: int)
    requires |p| == W * H * 4 && win.Within(W, H) && b >= 1 && 0 <= c < 4 && win.Contains(x, y)
    requires forall x', y' :: BlockOf(win, b, x, y).Contains(x', y') ==> lo <= At(p, W, H, x', y', c) <= hi
    ensures lo <= At(Pixelated(p, W, H, win, b), W, H, x, y, c) <= hi
  {
    BlockMeanBetween(p, W, H, BlockOf(win, b, x, y), c, lo, hi);
  }

  /** Pixelating a window whose pixels all share one colour changes nothing, whatever the
      block edge: the mean of equal values is that value. */
  lemma PixelatedUniformFixed(p: seq<Byte>, W: int, H: int, win: Window, b: int)
    requires |p| == W * H * 4 && win.Within(W, H) && b >= 1
    requires forall x, y, c :: InImage(W, H, x, y, c) && win.Contains(x, y) ==>
      At(p, W, H, x, y, c) == At(p, W, H, win.x0, win.y0, c)
    ensures Pixelated(p, W, H, win, b) == p
  {
    var q := Pixelated(p, W, H, win, b);
    forall i | 0 <= i < |p|
      ensures q[i] == p[i]
    {
      IdxCompose(W, H, i);
      var x, y, c := XOf(W, i), YOf(W, i), COf(i);
      if win.Contains(x, y) {
        PixelatedBetween(p, W, H, win, b, x, y, c, At(p, W, H, win.x0, win.y0, c), At(p, W, H, win.x0, win.y0, c));
      }
    }
  }

  /** A block edge of at least the window's width and height makes the window one block:
      every pixel of it takes the mean of all the window's original pixels. */
  lemma PixelatedLargeBlock(p: seq<Byte>, W: int, H: int, win: Window, b: int, x: int, y: int, c: int)
    requires |p| == W * H * 4 && win.Within(W, H) && b >= win.Width() && b >= win.Height()
    requires win.Contains(x, y) && 0 <= c < 4
    ensures At(Pixelated(p, W, H, win, b), W, H, x, y, c) == BlockMean(p, W, H, win, c)
  {
    BlockStartSame(win.x0, b, win.x0, x);
    BlockStartSame(win.y0, b, win.y0, y);
    assert BlockOf(win, b, x, y) == win;
  }

  /** The pixelate kernel on the caller's buffer: the window's pixels replaced by the
      pixelated values, every other byte untouched. */
  method PixelateRegion(p: array<Byte>, W: int, H: int, win: Window, b: int)
    requires p.Length == W * H * 4 && win.Within(W, H) && b >= 1
    modifies p
    ensures p[..] == Pixelated(old(p[..]), W, H, win, b)
  {
    var q := Pixelated(p[..], W, H, win, b);
    forall i | 0 <= i < p.Length {
      p[i] := q[i];
    }
    assert p[..] == q;
  }
}
