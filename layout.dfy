// The data types and buffer layout that native/include/blur.h documents:
// the BlurRect record and the RGBA8888 pixel buffer with row stride width*4.

module Layout {

  /** One 8-bit channel value (the C type uint8_t). */
  type Byte = b: int | 0 <= b < 256

  /** A region of the image: (x, y) is its top-left corner, w its width and h its height,
      all in pixels. Nothing constrains the fields: a region may be empty, negative or
      lie partly or wholly outside the buffer. */
  datatype BlurRect = BlurRect(x: int, y: int, w: int, h: int)

  /** Byte offset of channel c (0 = R, 1 = G, 2 = B, 3 = A) of pixel (x, y) in a
      row-major RGBA8888 buffer whose rows hold w pixels. */
  function Idx(w: int, x: int, y: int, c: int): int
  {
    (y * w + x) * 4 + c
  }

  /** The column, row and channel that a byte offset i stands for, in rows of w pixels. */
  function XOf(w: int, i: int): int
    requires w > 0
  {
    (i / 4) % w
  }

  function YOf(w: int, i: int): int
    requires w > 0
  {
    (i / 4) / w
  }

  function COf(i: int): int
  {
    i % 4
  }

  /** (x, y, c) names a channel of a pixel inside a w-by-h image. */
  predicate InImage(w: int, h: int, x: int, y: int, c: int)
  {
    0 <= x < w && 0 <= y < h && 0 <= c < 4
  }

  /** Channel c of pixel (x, y) of a w-by-h image stored in img. */
  function At(img: seq<Byte>, w: int, h: int, x: int, y: int, c: int): Byte
    requires |img| == w * h * 4 && InImage(w, h, x, y, c)
  {
    IdxInRange(w, h, x, y, c);
    img[Idx(w, x, y, c)]
  }

  lemma MulMonotone(a: int, b: int, k: int)
    requires a <= b && k >= 0
    ensures a * k <= b * k
  {
  }

  /** Euclidean division is determined by the quotient-remainder decomposition. */
  lemma {:induction false} DivModUnique(n: int, d: int, q: int, r: int)
    requires d > 0 && 0 <= r < d && n == q * d + r
    ensures n / d == q && n % d == r
  {
    var q', r' := n / d, n % d;
    assert n == q' * d + r' && 0 <= r' < d;
    if q' < q {
      MulMonotone(q' + 1, q, d);
      assert false;
    } else if q < q' {
      MulMonotone(q + 1, q', d);
      assert false;
    }
  }

  /** Every channel of every pixel of a w-by-h image has an offset inside the buffer
      of w*h*4 bytes. */
  lemma IdxInRange(w: int, h: int, x: int, y: int, c: int)
    requires InImage(w, h, x, y, c)
    ensures 0 <= Idx(w, x, y, c) < w * h * 4
  {
    MulMonotone(0, y, w);
    MulMonotone(y + 1, h, w);
  }

  /** The first byte of row y, for y in [0, h], lies within a w*h*4-byte buffer or just past it. */
  lemma RowStartInRange(w: int, h: int, y: int)
    requires w >= 0 && 0 <= y <= h
    ensures 0 <= Idx(w, 0, y, 0) <= w * h * 4
  {
    MulMonotone(0, y, w);
    MulMonotone(y, h, w);
  }

  lemma IdxInRangeAll(w: int, h: int)
    ensures forall x, y, c :: InImage(w, h, x, y, c) ==> 0 <= Idx(w, x, y, c) < w * h * 4
  {
    forall x, y, c | InImage(w, h, x, y, c)
      ensures 0 <= Idx(w, x, y, c) < w * h * 4
    {
      IdxInRange(w, h, x, y, c);
    }
  }

  /** The offset of (x, y, c) decodes back to x, y and c. */
  lemma IdxDecompose(w: int, x: int, y: int, c: int)
    requires w > 0 && 0 <= x < w && 0 <= y && 0 <= c < 4
    ensures XOf(w, Idx(w, x, y, c)) == x && YOf(w, Idx(w, x, y, c)) == y && COf(Idx(w, x, y, c)) == c
  {
    var n := y * w + x;
    DivModUnique(Idx(w, x, y, c), 4, n, c);
    DivModUnique(n, w, y, x);
  }

  lemma IdxDecomposeAll(w: int)
    requires w > 0
    ensures forall x, y, c :: 0 <= x < w && 0 <= y && 0 <= c < 4 ==>
      XOf(w, Idx(w, x, y, c)) == x && YOf(w, Idx(w, x, y, c)) == y && COf(Idx(w, x, y, c)) == c
  {
    forall x, y, c | 0 <= x < w && 0 <= y && 0 <= c < 4
      ensures XOf(w, Idx(w, x, y, c)) == x && YOf(w, Idx(w, x, y, c)) == y && COf(Idx(w, x, y, c)) == c
    {
      IdxDecompose(w, x, y, c);
    }
  }

  /** Every offset of a w*h*4-byte buffer names a channel of a pixel of the image. */
  lemma IdxCompose(w: int, h: int, i: int)
    requires w > 0 && 0 <= i < w * h * 4
    ensures InImage(w, h, XOf(w, i), YOf(w, i), COf(i))
    ensures Idx(w, XOf(w, i), YOf(w, i), COf(i)) == i
  {
    var n, x, y, c := i / 4, XOf(w, i), YOf(w, i), COf(i);
    assert i == n * 4 + c && 0 <= c < 4;
    assert n == y * w + x && 0 <= x < w;
    assert 0 <= n < w * h;
    if y < 0 {
      MulMonotone(y, -1, w);
      assert false;
    }
    if y >= h {
      MulMonotone(h, y, w);
      assert false;
    }
  }

  /** Byte j of a row segment that starts at pixel (x, y) is channel j % 4 of pixel x + j / 4. */
  lemma IdxRowOffset(w: int, x: int, y: int, j: int)
    requires 0 <= j
    ensures Idx(w, x + j / 4, y, j % 4) == Idx(w, x, y, 0) + j
  {
  }

  /** Offsets follow the row-major order of pixels: a channel of pixel (X, Y) lies before the
      first byte of pixel (x, y) exactly when (Y, X) comes first in row-major order. The column
      x may be w, standing for the first pixel of the next row. */
  lemma IdxBefore(w: int, X: int, Y: int, C: int, x: int, y: int)
    requires 0 <= X < w && 0 <= C < 4 && 0 <= x <= w
    ensures Idx(w, X, Y, C) < Idx(w, x, y, 0) <==> (Y < y || (Y == y && X < x))
  {
    var a, b := Y * w + X, y * w + x;
    assert Idx(w, X, Y, C) == a * 4 + C && Idx(w, x, y, 0) == b * 4;
    if Y < y {
      MulMonotone(Y + 1, y, w);
      assert (Y + 1) * w == Y * w + w;
      assert a < b;
    } else if Y > y {
      MulMonotone(y + 1, Y, w);
      assert (y + 1) * w == y * w + w;
      assert b <= a;
    }
  }
}
