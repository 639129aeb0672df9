// The row tiles of ProcessImageParallel (app/android/blurcore/stub.cpp): the rows
// [0, height) are cut into n bands of height / n rows, one per worker, and the last band
// also takes the height % n rows left over. n is the worker count, which must be at least
// 1 (the source divides by it).

module Tiles {

  import opened Layout

  /** tile_height: the rows of every band but the last. */
  function TileHeight(height: int, n: int): (t: int)
    requires height >= 0 && n >= 1
    ensures 0 <= t && t * n <= height < t * n + n
  {
    DivBounds(height, n);
    height / n
  }

  lemma DivBounds(a: int, n: int)
    requires a >= 0 && n >= 1
    ensures 0 <= a / n && (a / n) * n <= a < (a / n) * n + n
  {
    var t := a / n;
    assert a == t * n + a % n;
    if t < 0 {
      MulMonotone(t, -1, n);
      assert false;
    }
  }

  /** start_y of band i. */
  function TileStart(height: int, n: int, i: int): int
    requires height >= 0 && n >= 1
  {
    i * TileHeight(height, n)
  }

  /** end_y of band i: the next band's start, or height for the last band. */
  function TileEnd(height: int, n: int, i: int): int
    requires height >= 0 && n >= 1
  {
    if i == n - 1 then height else (i + 1) * TileHeight(height, n)
  }

  /** Every band is a well-formed range of rows inside the image. */
  lemma TileInImage(height: int, n: int, i: int)
    requires height >= 0 && n >= 1 && 0 <= i < n
    ensures 0 <= TileStart(height, n, i) <= TileEnd(height, n, i) <= height
  {
    var t := TileHeight(height, n);
    MulMonotone(0, i, t);
    MulMonotone(i + 1, n, t);
    assert (i + 1) * t == i * t + t;
    MulMonotone(i, n - 1, t);
    assert (n - 1) * t == n * t - t;
  }

  /** The bands are contiguous: the first starts at row 0, each one ends where the next
      starts, and the last ends at the image's height. */
  lemma TilesContiguous(height: int, n: int)
    requires height >= 0 && n >= 1
    ensures TileStart(height, n, 0) == 0
    ensures TileEnd(height, n, n - 1) == height
    ensures forall i :: 0 <= i < n - 1 ==> TileEnd(height, n, i) == TileStart(height, n, i + 1)
  {
  }

  /** The band that holds row y: y / tile_height, capped at the last band. */
  function TileOf(height: int, n: int, y: int): (i: int)
    requires height >= 0 && n >= 1 && 0 <= y < height
    ensures 0 <= i < n && TileStart(height, n, i) <= y < TileEnd(height, n, i)
  {
    var t := TileHeight(height, n);
    if t == 0 then n - 1
    else
      var q := y / t;
      assert y == q * t + y % t;
      MulMonotone(0, q, t);
      if q >= n - 1 then
        MulMonotone(n - 1, q, t);
        n - 1
      else
        assert (q + 1) * t == q * t + t;
        q
  }

  /** Bands are pairwise disjoint: a row lies in at most one band. */
  lemma TilesDisjoint(height: int, n: int, i: int, j: int, y: int)
    requires height >= 0 && n >= 1 && 0 <= i < n && 0 <= j < n
    requires TileStart(height, n, i) <= y < TileEnd(height, n, i)
    requires TileStart(height, n, j) <= y < TileEnd(height, n, j)
    ensures i == j
  {
    if i < j {
      BandsOrdered(height, n, i, j);
    } else if j < i {
      BandsOrdered(height, n, j, i);
    }
  }

  /** An earlier band ends no later than a later band starts. */
  lemma BandsOrdered(height: int, n: int, i: int, j: int)
    requires height >= 0 && n >= 1 && 0 <= i < j < n
    ensures TileEnd(height, n, i) <= TileStart(height, n, j)
  {
    var t := TileHeight(height, n);
    MulMonotone(i + 1, j, t);
  }

  /** The bands partition [0, height): each row lies in exactly one band, TileOf's. */
  lemma TilesPartition(height: int, n: int, y: int)
    requires height >= 0 && n >= 1 && 0 <= y < height
    ensures forall i :: 0 <= i < n && TileStart(height, n, i) <= y < TileEnd(height, n, i) <==> i == TileOf(height, n, y)
  {
    forall i | 0 <= i < n && TileStart(height, n, i) <= y < TileEnd(height, n, i)
      ensures i == TileOf(height, n, y)
    {
      TilesDisjoint(height, n, i, TileOf(height, n, y), y);
    }
  }

  /** The loop of lines 1260-1267 without its thread work: the (start_y, end_y) pair that
      band i is enqueued with, for i = 0 .. n-1. */
  method PlanTiles(height: int, n: int) returns (tiles: seq<(int, int)>)
    requires height >= 0 && n >= 1
    ensures |tiles| == n
    ensures forall i :: 0 <= i < n ==> tiles[i] == (TileStart(height, n, i), TileEnd(height, n, i))
  {
    var tileHeight := height / n;
    tiles := [];
    for i := 0 to n
      invariant |tiles| == i
      invariant forall k :: 0 <= k < i ==> tiles[k] == (TileStart(height, n, k), TileEnd(height, n, k))
    {
      var startY := i * tileHeight;
      var endY := if i == n - 1 then height else (i + 1) * tileHeight;
      tiles := tiles + [(startY, endY)];
    }
  }
}
