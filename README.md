# Region blur, buffer pool and row tiles

This project models the native image core of a mobile blur app and proves properties of it in Dafny.

- **Region filter.** `blur_apply_regions` blurs or pixelates a list of rectangles of an RGBA8888 buffer, in place.
- **Box blur kernel.** The blur is `boxBlurRGBA`. It clamps the rectangle into the buffer and copies it into a scratch buffer. It then runs a horizontal and a vertical integer box mean, with edge-clamped taps and a divisor of `2r+1`, and blits the result back.
- **Buffer pool.** `MemoryPool` is a first-fit table of at most 32 reusable byte buffers.
- **Row tiles.** `ProcessImageParallel` cuts the rows of an image into one band per worker.

Modules:

- `Layout` (layout.dfy): `BlurRect`, bytes, and the flat RGBA layout. The datatype `Layout.BlurRect` is the record of native/include/blur.h:10-15, with the same four int fields. Channel `c` of pixel `(x, y)` is byte `(y*w + x)*4 + c`.
- `Sampling` (sampling.dfy): `clampi`, the clamped tap sum, and the truncating box mean.
- `BoxBlur` (box_blur.dfy): `boxBlurRGBA`.
  - The specification is a chain of four functions, one per commented phase of the source: `Crop`, `HorizontalPass`, `VerticalPass` and `Paste`.
  - The array methods do the same work loop by loop and are proved equal to that chain.
- `Pixelate` (pixelate.dfy): mode 1, stated as a specification. Its body is absent from the source; see "Left out".
- `Regions` (regions.dfy):
  - the entry point `blur_apply_regions`: status codes, validation, and the in-order fold over the rectangles;
  - the smoke test of `native/test/test_blur_apply_regions.cpp`;
  - the JNI bridge's `[x, y, w, h] * N` packing of the rectangles.
- `BufferPool` (memory_pool.dfy): `MemoryPool` as a class over a sequence of blocks, with pure `Acquire` and `Release` functions as its specification. The datatype `BufferPool.Block` is the `Block` struct of app/android/blurcore/stub.cpp:1106-1110: the length of its data vector, `in_use` and `size`.
- `Tiles` (tiles.dfy): the tile bounds of `ProcessImageParallel`.

Buffers handed out by the pool are block indices, not addresses. A null buffer is `None`.

## Model

| member | source | states |
|---|---|---|
| Layout.Idx | native/include/blur.h:20 | byte offset (y*w + x)*4 + c of channel c of pixel (x, y), with a row stride of w*4 bytes |
| Layout.IdxInRange | native/include/blur.h:20 | channel c of an in-image pixel (x, y) lies inside the buffer of width*height*4 bytes |
| Layout.IdxDecompose | native/include/blur.h:20 | the pixel, row and channel of byte (y*w+x)*4+c are x, y and c again: the row-stride layout is unambiguous |
| Layout.IdxCompose | native/include/blur.h:20 | every byte of a w*h*4 buffer is channel COf(i) of an in-image pixel, and the layout maps that pixel back to i |
| Sampling.Clampi | native/src/blur.cpp:7 | the result lies in [lo, hi] when lo <= hi, is v itself when v is in range, and is otherwise one of the two bounds |
| Sampling.ClampiMonotone | native/src/blur.cpp:13-16 | clamping keeps order, so the clamped first and last corner of a non-empty rectangle stay ordered |
| Sampling.TapSum | native/src/blur.cpp:33-38 | the running sum after the k loop has visited offsets lo .. hi-1: each tap reads the line at x+k clamped to [0, len-1] |
| Sampling.BoxMean | native/src/blur.cpp:33-41 | one output channel: the sum of the 2r+1 clamped taps divided by cnt = 2r+1, truncating |
| Sampling.TapSumBetween | native/src/blur.cpp:34-38 | a running sum over n taps whose samples lie in [a, b] lies in [n*a, n*b] |
| Sampling.BoxMeanBetween | native/src/blur.cpp:33-41 | the truncated mean of the 2r+1 clamped taps lies between the least and the greatest sample reached |
| Sampling.BoxMeanUniform | native/src/blur.cpp:34-41 | when every sample the taps reach is v, the mean is v |
| Sampling.BoxMeanIsByte | native/src/blur.cpp:39-41 | the mean of byte samples is in [0, 255], so the uint8_t cast of sum/cnt loses nothing |
| BoxBlur.Radius | native/src/blur.cpp:12 | a radius below 1 becomes 1; a radius of 1 or more is kept |
| BoxBlur.ClampWindow | native/src/blur.cpp:13-16 | every corner lies inside the buffer; a rectangle with w, h > 0 gives a non-empty window with x0 <= x1 and y0 <= y1 |
| BoxBlur.WindowIsClippedRect | native/src/blur.cpp:13-16 | a rectangle that meets the buffer clamps to exactly the pixels it shares with the buffer |
| BoxBlur.OutsideRectClampsToEdge | native/src/blur.cpp:13-16 | a rectangle wholly right of the buffer clamps onto the last column; one wholly left of it clamps onto column 0 |
| BoxBlur.WholeImageWindow | native/src/blur.cpp:13-16 | a rectangle covering the buffer clamps to the whole buffer |
| BoxBlur.Crop | native/src/blur.cpp:19-25 | the scratch copy holds the window's pixels: pixel (x, y) of tmp is pixel (x0+x, y0+y) of p |
| BoxBlur.CropWhole | native/src/blur.cpp:19-25 | copying a window that is the whole buffer gives the buffer itself |
| BoxBlur.HorizontalPass | native/src/blur.cpp:29-43 | each channel of horiz at (x, y) is the box mean of row y of tmp around x with radius rx |
| BoxBlur.VerticalPass | native/src/blur.cpp:44-57 | each channel of the result at (x, y) is the box mean of column x of horiz around y with radius ry; it reads only horiz |
| BoxBlur.Paste | native/src/blur.cpp:58-63 | window pixels take the block's values at the same offset from the window corner; all other pixels keep p's values |
| BoxBlur.BoxBlurred | native/src/blur.cpp:11-63 | the length is unchanged, and every pixel outside the clamped window keeps its value |
| BoxBlur.WholeImageBlur | native/src/blur.cpp:11-63 | blurring a rectangle that covers the buffer is the vertical pass over the horizontal pass of the buffer itself |
| BoxBlur.BlurredInWindow | native/src/blur.cpp:19-63 | inside the window, the blurred buffer holds the two passes over the scratch copy, at the same offset from the window's corner |
| BoxBlur.CropBetween | native/src/blur.cpp:19-25 | bounds on the window's pixels around (x, y) hold for the scratch copy around (x - x0, y - y0) |
| BoxBlur.PasteOutside | native/src/blur.cpp:58-63 | a byte whose pixel lies outside the window is not written by the blit |
| BoxBlur.PasteStart | native/src/blur.cpp:58-63 | every byte before the window's first row keeps its value |
| BoxBlur.PasteEnd | native/src/blur.cpp:58-63 | once all window rows are copied and the bytes after the last one are untouched, the buffer is Paste of the old one |
| BoxBlur.RowDone | native/src/blur.cpp:59-63 | after window row y is copied, the buffer agrees with the pasted buffer up to the window's part of row y+1 |
| BoxBlur.BoxBlurWritesOnlyWindow | native/src/blur.cpp:58-63 | every byte whose pixel lies outside the window keeps its value |
| BoxBlur.BoxBlurBetween | native/src/blur.cpp:31-57 | each output channel lies between the least and the greatest value of that channel in the window; channels do not mix |
| BoxBlur.PassesBetween | native/src/blur.cpp:29-57 | after both passes each channel lies within the extremes of that channel in the scratch image |
| BoxBlur.RowMeanBetween | native/src/blur.cpp:31-43 | a horizontal-pass output lies between the extremes of the samples of its row |
| BoxBlur.ColumnMeanBetween | native/src/blur.cpp:45-57 | a vertical-pass output lies between the extremes of the samples of its column |
| BoxBlur.BoxBlurUniformFixed | native/src/blur.cpp:11-63 | a window whose pixels share one RGBA value is left byte for byte unchanged |
| BoxBlur.BoxBlurRGBA | native/src/blur.cpp:11-63 | the buffer afterwards is BoxBlurred of the buffer before |
| BoxBlur.CopyWindow | native/src/blur.cpp:19-25 | the fresh scratch array is Crop of the buffer |
| BoxBlur.RowTaps | native/src/blur.cpp:33-38 | cnt is 2*rx+1 and each channel's running sum is the clamped tap sum of its row |
| BoxBlur.ColumnTaps | native/src/blur.cpp:47-52 | cnt is 2*ry+1 and each channel's running sum is the clamped tap sum of its column |
| BoxBlur.HorizontalBoxPass | native/src/blur.cpp:29-43 | the fresh horiz array is HorizontalPass of tmp |
| BoxBlur.HorizontalBoxRow | native/src/blur.cpp:31-43 | after row y, every byte of rows 0..y of horiz is that of HorizontalPass |
| BoxBlur.HorizontalBoxPixel | native/src/blur.cpp:32-42 | exactly the four bytes of pixel (x, y) are written, with the HorizontalPass values |
| BoxBlur.HorizontalPassAt | native/src/blur.cpp:39-41 | the byte at d[c], d = (y*w + x)*4, of HorizontalPass is the box mean of channel c along row y around x |
| BoxBlur.VerticalPassAt | native/src/blur.cpp:53-55 | the byte at d[c], d = (y*w + x)*4, of VerticalPass is the box mean of channel c down column x around y |
| BoxBlur.HorizontalPixelAt | native/src/blur.cpp:39-41 | the four bytes d[0..3] of pixel (x, y) of HorizontalPass are the four channels' row box means |
| BoxBlur.VerticalPixelAt | native/src/blur.cpp:53-55 | the four bytes d[0..3] of pixel (x, y) of VerticalPass are the four channels' column box means |
| BoxBlur.HorizontalPixel | native/src/blur.cpp:33-41 | the four values rsum/cnt .. asum/cnt computed for (x, y) are the bytes of HorizontalPass at that pixel |
| BoxBlur.VerticalPixel | native/src/blur.cpp:47-55 | the four values rsum/cnt .. asum/cnt computed for (x, y) are the bytes of VerticalPass at that pixel |
| BoxBlur.WritePixel | native/src/blur.cpp:39-41 | the stores d[0] .. d[3] write exactly the four bytes from d on, and every other byte keeps its value |
| BoxBlur.RowTapStep | native/src/blur.cpp:35-37 | tap k adds the four bytes of the pixel at clampi(x+k, 0, w-1) in row y to the four running sums |
| BoxBlur.ColumnTapStep | native/src/blur.cpp:49-51 | tap k adds the four bytes of the pixel at clampi(y+k, 0, h-1) in column x to the four running sums |
| BoxBlur.VerticalBoxPass | native/src/blur.cpp:44-57 | tmp afterwards is VerticalPass of horiz |
| BoxBlur.VerticalBoxRow | native/src/blur.cpp:45-57 | after row y, every byte of rows 0..y of tmp is that of VerticalPass |
| BoxBlur.VerticalBoxPixel | native/src/blur.cpp:46-56 | exactly the four bytes of pixel (x, y) of tmp are written, with the VerticalPass values |
| BoxBlur.BlitBack | native/src/blur.cpp:58-63 | the buffer afterwards is Paste of the old buffer with tmp |
| BoxBlur.BlitRow | native/src/blur.cpp:59-63 | after copying window row y, the buffer agrees with the pasted buffer up to the end of that row and with the old buffer after it |
| Pixelate.SpanSumBetween | native/include/blur.h:18-19 | a channel sum over n pixels of a row whose values lie in [a, b] lies in [n*a, n*b] |
| Pixelate.BlockSumBetween | native/include/blur.h:18-19 | a channel sum over k rows of n pixels whose values lie in [a, b] lies between k*(n*a) and k*(n*b) |
| Pixelate.BlockMeanBetween | native/include/blur.h:18-19 | a block's truncated mean lies between the least and greatest value of its pixels |
| Pixelate.BlockStart | native/include/blur.h:19 | the block of edge `strength` tiled from the window's start that holds v starts at or before v and ends after it |
| Pixelate.BlockStartSame | native/include/blur.h:19 | every coordinate inside a block yields that block's start |
| Pixelate.BlockOf | native/include/blur.h:19 | the block of (x, y) contains (x, y), lies inside the window and has edges of at most `strength` |
| Pixelate.BlockOfSame | native/include/blur.h:19 | the blocks partition the window: each pixel of the block of (x, y) has that same block |
| Pixelate.Pixelated | native/include/blur.h:18-19 | each window pixel takes its block's per-channel mean; all pixels outside the window keep their value; the length is unchanged |
| Pixelate.PixelatedFlatBlocks | native/include/blur.h:18-19 | all pixels of one block come out with the same colour |
| Pixelate.PixelatedBetween | native/include/blur.h:18-19 | a pixelated channel lies between the extremes of its block |
| Pixelate.PixelatedUniformFixed | native/include/blur.h:18-19 | a window of one colour is left unchanged |
| Pixelate.PixelatedLargeBlock | native/include/blur.h:19 | a block edge at least the window's size fills the whole window with its one mean |
| Pixelate.PixelateRegion | native/include/blur.h:18-20 | the buffer afterwards is Pixelated of the buffer before |
| Regions.Code | native/include/blur.h:21 | the code is 0 exactly on success, and failures are negative |
| Regions.ValidMode | native/include/blur.h:18 | the only modes are 0 (box blur) and 1 (pixelate) |
| Regions.Degenerate | native/include/blur.h:10-15 | a rectangle with no width or no height, which the entry point skips |
| Regions.ApplyRegion | native/include/blur.h:18-19 | the length is unchanged; a degenerate rectangle changes nothing; pixels outside the clamped window keep their value |
| Regions.ApplyRegions | native/include/blur.h:22-24 | the rectangles' effects, in list order, keep the buffer length |
| Regions.ApplyRegionsFrame | native/include/blur.h:22-24 | no pixel outside every rectangle's clamped window is written |
| Regions.DegenerateRegionsChangeNothing | native/include/blur.h:22-24 | a list of empty rectangles, the empty list among them, leaves the buffer unchanged |
| Regions.ApplyRegionsAppend | native/include/blur.h:22-24 | running a list is running its first part and then the rest on that result |
| Regions.BlurApplyRegions | native/include/blur.h:18-24 | a null buffer or bad size gives a negative code; an empty list returns 0 with no change; an unknown mode gives a negative code with no change; otherwise returns 0 and the buffer is ApplyRegions of the old buffer |
| Regions.SplitImage | native/test/test_blur_apply_regions.cpp:10-19 | the 8x8 buffer with the left four columns opaque red and the right four opaque blue |
| Regions.NewSplitImage | native/test/test_blur_apply_regions.cpp:8-19 | the test's filled vector is a fresh array holding SplitImage |
| Regions.PixelateSplitImage | native/test/test_blur_apply_regions.cpp:21-34 | pixelating the whole split image with blocks of 4 leaves every pixel its original colour |
| Regions.SplitImageBlock | native/test/test_blur_apply_regions.cpp:30-32 | each block of edge 4 of the split image lies on one side of the colour split |
| Regions.SplitImageProbes | native/test/test_blur_apply_regions.cpp:33-57 | the four bytes from offset 136, pixel (2, 4), are opaque red, and the four from 152, pixel (6, 4), opaque blue |
| Regions.SmokeTest | native/test/test_blur_apply_regions.cpp:6-61 | the call returns 0; the left probe is dominantly red and the right probe dominantly blue, both at least 255-40 |
| Regions.BlurSplitImageEdge | native/src/blur.cpp:33-55 | blurring the whole split image with radius 1 leaves column 0 pure red, because its clamped taps reach only red columns |
| Regions.BlurSplitImageSeam | native/src/blur.cpp:33-55 | next to the split, column 3 becomes (170, 0, 85, 255) in every row |
| Regions.BlurEdge | native/src/blur.cpp:33-55 | channel c at (0, y) of the blurred split image is red's channel c: the clamped taps reach only red pixels |
| Regions.BlurSeam | native/src/blur.cpp:33-55 | channel c at (3, y) of the blurred split image is (2*red + blue)/3, that is 170, 0, 85, 255 for c = 0 .. 3 |
| Regions.SeamColumn | native/src/blur.cpp:33-41 | after the horizontal pass, column 3 holds (2*red + blue)/3 in every row |
| Regions.Unpacked | app/android/app/blurcore/jni_bridge.cpp:14-15 | a packed array of len ints stands for len/4 rectangles |
| Regions.Packed | app/android/app/blurcore/jni_bridge.cpp:10 | the packed form of N rectangles has 4N ints |
| Regions.PackedAt | app/android/app/blurcore/jni_bridge.cpp:10 | rectangle k sits at offsets 4k..4k+3 as x, y, w, h |
| Regions.UnpackPacked | app/android/app/blurcore/jni_bridge.cpp:10-15 | unpacking a packed list, with up to three trailing ints, gives the list back |
| Regions.UnpackRects | app/android/app/blurcore/jni_bridge.cpp:14-15 | the bridge's loop builds exactly Unpacked(arr) |
| BufferPool.WellFormed | app/android/blurcore/stub.cpp:1114-1115 | the table invariant: at most MAX_POOL_SIZE = 32 blocks, each at least BLOCK_SIZE = 4 MiB long and at least as long as its requested size |
| BufferPool.FirstFitFrom | app/android/blurcore/stub.cpp:1122-1127 | the found index is the earliest block from i on that is free and large enough; None means no such block |
| BufferPool.FirstFit | app/android/blurcore/stub.cpp:1122-1127 | the earliest fitting block of the whole table; None exactly when no block fits |
| BufferPool.Acquire | app/android/blurcore/stub.cpp:1118-1141 | acquireBuffer: the first fitting block is marked in use and returned; else, below 32 blocks, a new in-use block of max(required, 4 MiB) bytes is appended and returned; else null |
| BufferPool.Release | app/android/blurcore/stub.cpp:1143-1152 | releaseBuffer: the in-use flag of the buffer's block is cleared; a null or unknown buffer changes nothing |
| BufferPool.AcquireGivesFreeFittingBlock | app/android/blurcore/stub.cpp:1122-1136 | a returned buffer is an in-use block of the table, at least as long as the request, and was not in use before |
| BufferPool.AcquireFirstFit | app/android/blurcore/stub.cpp:1122-1127 | when some free block fits, the earliest fitting one is returned and the table keeps its length |
| BufferPool.AcquireChangesOneBlock | app/android/blurcore/stub.cpp:1118-1141 | every block other than the returned one keeps its entry; the table grows by at most one, only below 32 |
| BufferPool.AcquireFullPool | app/android/blurcore/stub.cpp:1139-1140 | with 32 blocks and none fitting, the result is null and the table is unchanged |
| BufferPool.AcquireAppendsBlock | app/android/blurcore/stub.cpp:1130-1136 | with room and no fit, exactly one block is appended: in use, max(required, 4 MiB) long, size = required |
| BufferPool.ReleaseUndoesAcquire | app/android/blurcore/stub.cpp:1118-1152 | releasing the buffer just acquired restores the table, except that an appended block stays, free |
| BufferPool.ReleaseKeepsTable | app/android/blurcore/stub.cpp:1143-1152 | the table length never changes; only the matching block's flag is cleared; an unknown buffer changes nothing |
| BufferPool.StepWellFormed | app/android/blurcore/stub.cpp:1114-1136 | each acquire, release or cleanup keeps at most 32 blocks, each at least 4 MiB and at least its requested size |
| BufferPool.RunWellFormed | app/android/blurcore/stub.cpp:1114-1162 | over any sequence of calls the table never holds more than MAX_POOL_SIZE = 32 blocks |
| BufferPool.MemoryPool.AcquireBuffer | app/android/blurcore/stub.cpp:1118-1141 | the new table and the returned buffer are Acquire of the old table; the invariant is kept |
| BufferPool.MemoryPool.ReleaseBuffer | app/android/blurcore/stub.cpp:1143-1152 | the new table is Release of the old one; the scan stops at the match |
| BufferPool.MemoryPool.Cleanup | app/android/blurcore/stub.cpp:1154-1157 | the table is empty and getPoolSize is 0 |
| BufferPool.MemoryPool.GetPoolSize | app/android/blurcore/stub.cpp:1159-1162 | the size is at most 32 and is 0 exactly when the table is empty |
| Tiles.TileHeight | app/android/blurcore/stub.cpp:1255 | tile_height*n <= height < tile_height*n + n |
| Tiles.TileStart | app/android/blurcore/stub.cpp:1261 | start_y of band i is i*tile_height |
| Tiles.TileEnd | app/android/blurcore/stub.cpp:1262 | end_y of band i is height for the last band and (i+1)*tile_height otherwise |
| Tiles.TileInImage | app/android/blurcore/stub.cpp:1260-1262 | every band is a well-formed row range inside [0, height] |
| Tiles.TilesContiguous | app/android/blurcore/stub.cpp:1260-1262 | the first band starts at 0, each band ends where the next starts, and the last ends at height |
| Tiles.TileOf | app/android/blurcore/stub.cpp:1260-1262 | every row lies in some band, whose index is below n |
| Tiles.BandsOrdered | app/android/blurcore/stub.cpp:1261-1262 | an earlier band ends no later than a later one starts |
| Tiles.TilesDisjoint | app/android/blurcore/stub.cpp:1260-1262 | a row lies in at most one band |
| Tiles.TilesPartition | app/android/blurcore/stub.cpp:1254-1262 | each row lies in exactly one band: the bands partition [0, height) |
| Tiles.PlanTiles | app/android/blurcore/stub.cpp:1260-1267 | band i is enqueued with (i*tile_height, end), where end is height for the last band |

## Left out

- Pixelate and `blur_apply_regions`: `native/src/blur.cpp` ends inside `boxBlurRGBA`, and it defines neither of them.
  - Both are modelled from the header's comments and the smoke test. Where these leave a behaviour open, the behaviours below are chosen here; none of them is taken from code.
  - The pixel fill is the per-channel truncated mean over square blocks tiled from the window's top-left corner.
  - The block edge is `max(1, strength)`.
  - Degenerate rectangles are skipped.
  - An unknown mode fails at the first rectangle. An empty list therefore returns 0 for any mode.
  - Regions.Code: the header fixes only 0 for success; the failure codes -1 and -2 are chosen here.
- Regions.ApplyRegion: native/include/blur.h:19 gives the pixelate block size as "(>=2)". The model reads this as advice to callers, not as a precondition. It accepts any strength and uses a block edge of `max(1, strength)`, so a strength of 1 or less makes every block one pixel and leaves the window unchanged.
- Rectangles outside the buffer are not skipped. The code clamps each corner into the buffer, so a rectangle wholly outside blurs the edge column or row. The model follows the code; see BoxBlur.OutsideRectClampsToEdge.
- BoxBlur.BoxBlurRGBA requires `W, H > 0`, `r.w, r.h > 0` and a buffer of `W*H*4` bytes. The source checks none of these.
  - With `W` or `H` at most 0, or a shorter buffer, the source reads and writes out of bounds.
  - A degenerate rectangle (`r.w <= 0` or `r.h <= 0`) reads nothing out of bounds: native/src/blur.cpp:13-16 clamps every corner into the buffer.
  - What the source does with it depends on where the rectangle lies. `r = (0, 0, 0, 8)` clamps `x1` onto `x0` and blurs column 0. `r = (3, 0, 0, 8)` gives `x1 = x0 - 1`, an empty scratch buffer, and nothing is written. When exactly one of `x1 - x0 + 1` and `y1 - y0 + 1` is negative, the size at native/src/blur.cpp:19 is negative and the `std::vector` constructor throws.
  - The model excludes degenerate rectangles because the entry point it models skips them before the kernel runs (Regions.ApplyRegion).
- BoxBlur.ClampWindow computes the corners unbounded; the source computes `r.x + r.w - 1` and `r.y + r.h - 1` (native/src/blur.cpp:15-16) in 32-bit `int`.
  - A rectangle reaching past 2^31-1 overflows there, which is undefined behaviour. Example: W = H = 8 and r = (2147483000, 0, 1000, 8). The model clamps to the window (7, 0, 7, 7) and blurs column 7; in the program the sum typically wraps negative, giving x1 = 0 < x0 = 7, a negative size at native/src/blur.cpp:19, and a throwing `std::vector` constructor.
  - The JNI bridge passes arbitrary Java ints through (app/android/app/blurcore/jni_bridge.cpp:15), so callers can reach such rectangles.
  - BoxBlur.BoxBlurRGBA likewise computes the byte offsets `(y*W + x0)*4` (native/src/blur.cpp:22, 60) and the scratch sizes (native/src/blur.cpp:19, 30) unbounded; in the program these overflow once W*H*4 exceeds 2^31-1.
- BoxBlur.BoxBlurRGBA does not model 32-bit overflow of the running sums `rsum` .. `asum`, because integers here are unbounded. 255*(2r+1) exceeds 2^31-1 only from r = 4,210,752 (about 2^22), far beyond any image.
- The rectangle count is the length of the sequence. The C pointer/count pair and a negative count are not modelled.
- BufferPool.MemoryPool.AcquireBuffer: a buffer is the index of its block, not `&block.data`. Pointer invalidation by `emplace_back` is not modelled.
- BufferPool.WellFormed: holds only under the pool's own operations. The program's only caller, app/android/blurcore/stub.cpp:1240-1241, resizes every acquired buffer to the image size, which the model does not capture.
  - After such a resize, a block's data may be shorter than 4 MiB and shorter than its recorded `size`, so the 4 MiB floor and `size <= dataLen` no longer hold in the program.
  - The first-fit test of the program can then differ from BufferPool.Acquire. Example: a block created for a 1 MiB request is shrunk to 1 MiB by the caller and later released. A 2 MiB request then appends a new block in the program, while the model, which still records 4 MiB of data, reuses the old block.
- The pool's mutex is left out. It only serialises callers.
- Tiles.TileHeight requires `n >= 1` and `height >= 0`. `std::thread::hardware_concurrency()` may return 0, and the source would then divide by zero. A negative height is not modelled: C++ `height / num_threads` truncates toward zero while Dafny's `/` rounds down, so the two would give different tiles.
- `i * tile_height` is not checked for int overflow.
- Not modelled:
  - the thread pool, futures, `processor`, metrics, the OpenCV and MediaPipe engines and the JNI entry points: they are concurrency, foreign calls, floating point or marshalling;
  - the JNI bridge's element fetch and release;
  - `scripts/fetch_ci_logs.py`, which is network and file I/O.
