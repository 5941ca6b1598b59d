# Motion tracker and packed-image layouts, modelled in Dafny

This project models the motion-detection engine of the ncabatoff Go
repository, together with the integer byte-layout code for packed images
that the engine works on.

- **Rolling averages and column scores** (`gophercon14talk/deltas.go`, modules `Deltas` and `DeltaJobs`).
  - Every frame byte has one `uint32` running total of the last 64 frames (`LAVGN`).
  - `rollSumDelta` computes each delta against the average the total held before this frame, then rolls the total.
  - The column delta finders turn deltas into per-pixel squared-distance scores, for YUYV, RGB and gray.
  - `findRects` collects the columns whose score is strictly above the threshold into height-one rectangles.
  - `run` and `buildHeightOneRects` do this for every row of a frame.
- **The scanline rectangle merger** (`motion/rects.go`, module `Rects`).
  - A `Slate` records, for each column, which open rectangle owns it.
  - `add` grows a box by one pixel and unions it with every open rectangle it meets. Each absorbed rectangle is replaced by `ZR`.
  - The `RectJoiner` retires rectangles the next row does not reach.
  - `FindConnectedRects` joins the rows of a frame.
- **The tracker and its ring buffer** (`motion/tracker.go`, `motion/ringbuf.go`; modules `MotionTracker` and `RingBuf`).
  - The ring holds the last 64 frames.
  - While the ring fills, a frame is only added to the totals.
  - After that, the oldest frame rolls out while the new one rolls in, and the rows with motion are joined into rectangles.
- **The rectangle helpers of `motion/util.go`** (module `MotionUtil`): the `RowRects` shape and the area order of `RectAreaSlice`.
- **Packed image layouts** (`imglib/*.go`).
  - Modules: `Yuyv`, `Rgb`, `Convert`, `Packed`, `ImgBytes`, `Scale`, `Layout`.
  - Pixel offsets and strides.
  - YUYV pair packing.
  - The YUYV ⇄ planar 4:2:2 round trip.
  - RGB ⇄ RGBA.
  - The fixed-point YUYV → RGBA conversion with clamping.
  - NRGBA premultiplication.
  - Tagged frame bytes and pixel sequences.
  - 2× nearest-neighbour upscaling.

Go's integer conversions are written out in module `Ints`:
- `uint8` and `uint32` truncation;
- division truncating toward zero;
- the wrap-around of `lnsum` arithmetic.

Go's `image.Point`/`image.Rectangle` operations are in `Geom`, and the standard image types are in `GoImage`.

How state is modelled:
- Images are values: a byte sequence with a stride and a rectangle.
- The source's in-place writers are methods over an `array<byte>` standing for `Pix`, and each is proved equal to a function of the old contents.
- The stateful motion types are classes:
  - `RingBuf.RingBuf`;
  - `Deltas.ColumnDeltaFinder`;
  - `DeltaJobs.DeltaFinderJob`;
  - `Rects.Slate` and `Rects.RectJoiner`;
  - `MotionTracker.Tracker`.
- Each method is proved against a pure specification function. The properties are lemmas about those functions.

## Model

| member | source | states |
|---|---|---|
| `Ints.ToByte` | gophercon14talk/deltas.go:15-17 | `uint8(x)` keeps the low eight bits: congruent to x modulo 256, and x itself when x is in range |
| `Ints.ToU32` | gophercon14talk/deltas.go:21-23 | conversion to `uint32` wraps: congruent to x modulo 2^32, and x itself when x is in range |
| `Ints.Quo` | imglib/bytes.go:18-22 | Go's `/` truncates toward zero: floor division for a non-negative dividend, the negated quotient of −a for a negative one |
| `Ints.Rem` | motion/tracker.go:62 | Go's `%` takes the dividend's sign: Dafny's remainder for a non-negative dividend, the negated remainder of −a (in (−b, 0]) for a negative one, and always a − Quo(a, b)·b |
| `Geom.Rectangle.Inset` | motion/rects.go:42-69 | `Inset(n)` shrinks by n on every side; an axis too short collapses to its midpoint |
| `Geom.Rectangle.Union` | motion/rects.go:42-69 | the union of two non-empty rectangles holds both; an empty operand is ignored |
| `Geom.Rectangle.Intersect` | imglib/yuyv.go:206-220 | a point is in the intersection if and only if it is in both rectangles; an empty intersection is ZR |
| `Geom.InsetRoundTrip` | motion/rects.go:42-69 | growing a non-empty box by one (`Inset(-1)`) and shrinking it back (`Inset(1)`) gives the box again |
| `GoImage.NewRGBA` | imglib/convert.go:31-53 | the destination `GetRGBA` allocates: 4·w·h bytes, stride 4·w |
| `GoImage.NewYCbCr422` | imglib/yuyv.go:104-122 | the planar 4:2:2 image `ToYCbCrMinZp` allocates: w·h luma bytes with stride w, and chroma planes of stride ⌈w/2⌉ |
| `Layout.SubOffset` | imglib/yuyv.go:206-220 | offsets inside a sub-image are the parent's, shifted by the offset of the sub-rectangle's Min |
| `Layout.Apart` | imglib/rgb.go:80-88 | two different pixels of a rectangle whose rows fit the stride start at least bpp bytes apart, so writing one pixel never touches another |
| `Yuyv.NewYUYV` | imglib/yuyv.go:25-29 | a zeroed buffer of 2·w·h bytes with stride 2·w over r |
| `Yuyv.NewYUYVHolds` | imglib/yuyv.go:25-29 | the buffer of `NewYUYV(r)` holds every pixel of r |
| `Yuyv.PixOffsetExample` | imglib/yuyv_test.go:117-125 | `PixOffset(1, 1)` of a 128-wide image is 258 |
| `Yuyv.YUYV.At` | imglib/yuyv.go:54-66 | outside the bounds the zero colour; inside, Y is the pixel's own byte (its chroma from the pair is stated by `Yuyv.RowColorsAgreeWithAt`) |
| `Yuyv.GetRow` | imglib/yuyv.go:128-139 | a row of no groups reads nothing and leaves dest unchanged; otherwise dest holds the row's colours (as far as dest reaches) and the rest of dest is untouched |
| `Yuyv.RowColorsAgreeWithAt` | imglib/yuyv.go:128-139 | for an even Min.X, the k-th colour `GetRow` delivers is `At(Min.X + k, y)` |
| `Yuyv.SetRow` | imglib/yuyv.go:144-154 | Pix becomes the image with the row packed in: (Y1, Cb1\|Cb2, Y2, Cr1\|Cr2) per pair, nothing else changed |
| `Yuyv.PackExample` | motion/motion_test.go:130-146 | the row (0, {Y:1,Cb:2}, 0, {Cr:3}) packs to [0,2,1,0,0,0,0,3] |
| `Yuyv.UnpackPack` | imglib/yuyv.go:128-154 | reading back a packed row of pairs that share chroma gives the row |
| `Yuyv.PackUnpack` | imglib/yuyv.go:128-154 | packing what `GetRow` reads gives the bytes back |
| `Yuyv.UnpackChromaPaired` | imglib/yuyv.go:128-139 | the two colours of each group share Cb and Cr |
| `Yuyv.SetRowThenRowColors` | imglib/yuyv.go:144-154 | `SetRow` followed by `GetRow` gives the colours written, for pairs that share chroma |
| `Yuyv.RowColorsThenSetRow` | imglib/yuyv.go:144-154 | writing back a row as `GetRow` read it leaves the image unchanged |
| `Yuyv.ToYCbCrMinZp` | imglib/yuyv.go:104-122 | a Min other than (0,0) panics (None); otherwise the planar image whose planes are the packed bytes split apart |
| `Yuyv.NewYUYVFromYCbCrMinZP` | imglib/yuyv.go:87-101 | None, for a panic, exactly when Min is not (0,0) or the planes do not fit: an odd or too long Y plane, or too few Cb or Cr bytes for its pairs; otherwise the packed image interleaving the planes |
| `Yuyv.PlanarRoundTrip` | imglib/yuyv_test.go:127-131 | `NewYUYVFromYCbCrMinZP(ToYCbCrMinZp(img)) == img` for every tightly laid out image at the origin |
| `Yuyv.PackedRoundTrip` | imglib/yuyv.go:87-122 | the planar → packed → planar round trip is the identity for every 4:2:2 image at the origin |
| `Yuyv.SubImageAt` | imglib/yuyv.go:206-220 | a sub-image shows the parent's colour at every point of the intersection and the zero colour elsewhere |
| `Yuyv.StrictSubImageAsWrittenPanics` | imglib/yuyv.go:226-241 | as written, `StrictSubImage` of a `NewYUYV` image's own bounds slices past the buffer and panics |
| `Yuyv.StrictSubImageAsWrittenExample` | imglib/yuyv.go:226-241 | the 2×1 case of the panic above |
| `Yuyv.StrictSubImageExact` | imglib/yuyv.go:226-241 | the intended strict sub-image exists, has the intersection as its rectangle and the parent's stride, holds exactly its own rows, and addresses each pixel as the parent does |
| `Rgb.NewRGB` | imglib/rgb.go:18-22 | a zeroed buffer of 3·w·h bytes with stride 3·w over r |
| `Rgb.NewRGBHolds` | imglib/rgb.go:18-22 | the buffer of `NewRGB(r)` holds every pixel of r |
| `Rgb.RGB.At` | imglib/rgb.go:41-47 | alpha is 0xFF exactly inside the bounds; outside, the zero colour; inside, the three bytes at `PixOffset(x, y)` |
| `Rgb.SetRGBA` | imglib/rgb.go:80-88 | Pix becomes the image with pixel (x, y) written, and is unchanged outside the bounds |
| `Rgb.SetThenAt` | imglib/rgb.go:80-88 | after `SetRGBA` inside the bounds, `At` returns the colour with alpha 0xFF; outside the bounds the image is unchanged |
| `Rgb.SetKeepsOthers` | imglib/rgb.go:80-88 | `SetRGBA` leaves every other pixel's colour as it was |
| `Rgb.UnpackOpaque` | imglib/rgb.go:94-101 | every colour read from RGB bytes has alpha 0xFF |
| `Rgb.UnpackPack` | imglib/rgb.go:94-117 | reading back packed colours gives them again if and only if every one is opaque |
| `Rgb.PackUnpack` | imglib/rgb.go:94-117 | packing what was read gives the bytes back |
| `Rgb.GetRow` | imglib/rgb.go:94-101 | intended `GetRow`: dest holds the Dx colours of row y from Min.X (as far as dest reaches); the rest of dest is untouched |
| `Rgb.RowColorsAgreeWithAt` | imglib/rgb.go:94-101 | the k-th colour of the row is `At(Min.X + k, y)` |
| `Rgb.GetRowAsWrittenPanics` | imglib/rgb.go:94-101 | as written, `GetRow` of a sub-image with Min.X = 1 starts reading at offset −3 and panics |
| `Rgb.GetRowAsWrittenZeroWidth` | imglib/rgb.go:94-101 | as written, `GetRow` with a stride of 0 never enters its loop, so it reads nothing even where the row would start before `Pix` |
| `Rgb.GetRowAsWrittenWhole` | imglib/rgb.go:94-101 | for a tight image at the origin, the as-written `GetRow` and the intended one agree |
| `Rgb.SetRow` | imglib/rgb.go:106-117 | Pix becomes the image with three bytes per colour written from the row's first pixel, nothing else changed |
| `Rgb.SetRowThenRowColors` | imglib/rgb.go:106-117 | `SetRow` followed by `GetRow` gives the colours written if and only if they are all opaque |
| `Rgb.RowColorsThenSetRow` | imglib/rgb.go:106-117 | writing back a row as `GetRow` read it leaves the image unchanged |
| `Rgb.SubImageAt` | imglib/rgb.go:121-135 | a sub-image shows the parent's colour at every point of the intersection and the zero colour elsewhere |
| `Rgb.StrictSubImageAsWrittenPanics` | imglib/rgb.go:141-156 | as written, `StrictSubImage` of a `NewRGB` image's own bounds slices past the buffer and panics |
| `Rgb.StrictSubImageExact` | imglib/rgb.go:141-156 | the intended strict sub-image exists, has the intersection as its rectangle and the parent's stride, holds exactly its own rows, and addresses each pixel as the parent does |
| `Rgb.ToRGBA` | imglib/rgb.go:181-199 | the RGBA image at the origin whose pixels are the RGB pixels with alpha 0xFF, row padding skipped |
| `Rgb.RgbaPixOpaque` | imglib/rgb.go:181-199 | every pixel `ToRGBA` writes is opaque |
| `Rgb.NewRGBFromRGBADropAlpha` | imglib/rgb.go:202-219 | the RGB image whose pixels are the RGBA pixels without alpha |
| `Rgb.RgbRoundTrip` | imglib/rgb_test.go:6-10 | RGB → RGBA → RGB is the identity for every tight image at the origin |
| `Rgb.RgbPixRoundTrip` | imglib/rgb.go:181-219 | the bytes survive RGB → RGBA → RGB |
| `Rgb.RgbaPixRoundTrip` | imglib/rgb.go:181-219 | RGBA → RGB → RGBA gives the bytes back if and only if every pixel is opaque |
| `Rgb.RgbaRoundTrip` | imglib/rgb.go:181-219 | RGBA → RGB → RGBA is the identity if and only if every pixel is opaque |
| `Packed.ConvertRows` | imglib/convert.go:243-259 | the row walk writes each row's converted groups back to back, rows `stride` apart in the source |
| `Packed.YuyvPixel` | imglib/convert.go:125-183 | each fixed-point pixel is four bytes with alpha 0xFF |
| `Packed.NeutralChromaIsGrey` | imglib/convert.go:125-183 | neutral chroma (Cb = Cr = 128) gives r = g = b = Y |
| `Packed.PremulBounds` | imglib/convert.go:204-221 | `c·a/255` never exceeds c or a; it is c for a = 0xFF and 0 for a = 0 |
| `Packed.DropAlphaAfterAddAlpha` | imglib/rgb.go:181-219 | dropping the alpha that was added gives the RGB row back |
| `Packed.AddAlphaAfterDropAlpha` | imglib/rgb.go:181-219 | adding alpha to a row that had it dropped gives the row back if and only if it was opaque |
| `Convert.ConvertImage` | imglib/convert.go:243-259 | dest becomes the converted rows of the source rectangle, filling dest exactly |
| `Convert.ConvertYUYV` | imglib/convert.go:125-183 | dest becomes the source's groups converted to two RGBA pixels each, in 16.16 fixed point with clamping |
| `Convert.YuyvRgbaOpaque` | imglib/convert.go:125-183 | every pixel `convertYUYV` writes has alpha 0xFF |
| `Convert.YuyvPairGrey` | imglib/convert.go:125-183 | a pair with neutral chroma converts to two grey pixels |
| `Convert.ConvertRGBA64` | imglib/convert.go:185-202 | dest becomes the high byte of each 16-bit channel |
| `Convert.HighBytesOfWiden` | imglib/convert.go:185-202 | an RGBA image widened to 16 bits per channel converts back to itself |
| `Convert.ConvertNRGBA` | imglib/convert.go:204-221 | dest becomes every channel premultiplied by alpha, alpha copied |
| `Convert.PremulIsPremultiplied` | imglib/convert.go:204-221 | a converted pixel keeps its alpha and no channel exceeds it |
| `Convert.NrgbaOpaqueUnchanged` | imglib/convert.go:204-221 | an opaque NRGBA image converts to its own bytes |
| `Convert.ConvertNRGBA64` | imglib/convert.go:223-240 | dest becomes the high bytes premultiplied by the high byte of alpha |
| `Convert.Nrgba64IsHighBytesThenPremul` | imglib/convert.go:223-240 | converting NRGBA64 is taking the high bytes and then premultiplying as for NRGBA |
| `Convert.ConvertRGB` | imglib/convert.go:243-259 | dest becomes the bytes `RGB.ToRGBA` builds: alpha 0xFF added, padding skipped |
| `Convert.GetRGBA` | imglib/convert.go:31-53 | an `*image.RGBA` comes back unchanged; each other known kind is converted into a new image at the origin |
| `Convert.GetRGBAOpaque` | imglib/convert.go:31-53 | RGB and YUYV images come back opaque; an RGBA image comes back as it is |
| `ImgBytes.ImageBytes.GetBytesPerPixel` | imglib/bytes.go:24-62 | bytes per pixel: 3 for RGB, 4 for RGBA, 2 for YUYV, always positive |
| `ImgBytes.BytesPerPixelOfImages` | imglib/bytes.go:24-62 | each tag's bytes per pixel are those of the image type `AsImage` builds |
| `ImgBytes.ImageBytes.GetRect` | imglib/bytes.go:18-22 | None, the division-by-zero panic, if and only if the width is 0 |
| `ImgBytes.ImageBytes.AsImage` | imglib/bytes.go:24-62 | None, the panic of `getRect`, if and only if the width is 0 |
| `ImgBytes.PixelSequence.GetImage` | imglib/bytes.go:109-111 | None, the panic of `getRect`, if and only if the sequence is 0 pixels wide |
| `ImgBytes.RectOfBytes` | imglib/bytes.go:18-22 | `getRect` is the origin to (width, whole rows of pixels) |
| `ImgBytes.RowsWithin` | imglib/bytes.go:18-22 | the rows `getRect` counts fit in the bytes |
| `ImgBytes.AsImageHolds` | imglib/bytes.go:18-22 | the image `AsImage` builds, with stride width·bpp, lies within its bytes |
| `ImgBytes.GetRectOfTight` | imglib/bytes.go:18-22 | a tight buffer gives back its own rectangle through `getRect` |
| `ImgBytes.GetImageBytesOfAsImage` | imglib/bytes.go:67-78 | `GetImageBytes(ib.AsImage(w))` is ib with its tag |
| `ImgBytes.AsImageOfImageBytes` | imglib/bytes.go:67-78 | a tight image survives `GetImageBytes` followed by `AsImage` at its width |
| `ImgBytes.PixelSequenceOfImage` | imglib/bytes.go:86-111 | a tight image's `PixelSequence` gives the image back and measures offsets as the image does |
| `ImgBytes.RgbSequenceOffsets` | imglib/bytes.go:86-92 | for RGB, `GetStride` is 3·Dx and `PixOffset(0, y)` is where the image puts row y |
| `ImgBytes.PixelRowOfRgb` | imglib/bytes.go:104-107 | `PixelRow.GetBytes` at row y's offset is exactly the packed colours of row y |
| `Scale.LinePadded` | imglib/util.go:17-29 | a destination line is the doubled groups followed by zeros for a trailing partial group |
| `Scale.ScaleUpRow` | imglib/util.go:5-14 | dest, from base, becomes every whole k-byte group of the row written twice in a row; everything else is untouched |
| `Scale.ScaleUpPacked` | imglib/util.go:17-29 | a negative stride is the panic of the first slice (None); a stride of 0 gives the zeroed buffer of 4·len(pix) bytes; otherwise the specification `Rows`: each whole row becomes two identical doubled lines, the rest zero |
| `Scale.ScaleUpPackedTriple` | imglib/util.go:17-29 | `ScaleUpPacked` with 3-byte groups, in each of the three stride cases |
| `Scale.ScaleUpPackedQuad` | imglib/util.go:45-57 | `ScaleUpPacked` with 4-byte groups, in each of the three stride cases |
| `Scale.RowTurnsAsWritten` | imglib/util.go:20 | the row loop as written stops at once exactly when the first row does not fit |
| `Scale.RowTurnsAsWrittenHangs` | imglib/util.go:20 | with a stride of 0 the row loop as written never ends, whatever the number of turns allowed |
| `Scale.RowTurnsEnd` | imglib/util.go:20 | with a positive stride the row loop ends after t turns, where t strides still fit in the bytes and t + 1 do not |
| `Scale.ScaledRow` | imglib/util.go:17-29 | the output is 4·len(pix) bytes, and source row j becomes two identical lines at 4·j·stride and 4·j·stride + 2·stride |
| `Scale.PartialRowIgnored` | imglib/util.go:17-29 | a trailing partial row adds only zeros to the output |
| `Scale.ScaleUpPackedQuadAsWrittenPanics` | imglib/util.go:31-42 | as written, three bytes with a stride of three make `scaleUpRowQuad` read past the row and panic |
| `Scale.QuadLoopPanics` | imglib/util.go:31-42 | the as-written row loop panics if and only if the row leaves three bytes after its whole groups |
| `Scale.QuadLoopAgrees` | imglib/util.go:31-42 | where it does not panic, the as-written row loop writes what the corrected one does |
| `Deltas.Div` | gophercon14talk/deltas.go:15-17 | the average is at most total/64, and exactly total/64 for every total a steady state can reach |
| `Deltas.Roll` | gophercon14talk/deltas.go:21-23 | the total plus new minus old whenever that stays in `uint32` range; otherwise that value wrapped modulo 2^32 |
| `Deltas.RollUndo` | gophercon14talk/deltas.go:21-23 | rolling a value in and back out restores the total, wrap-around included |
| `Deltas.RollSame` | gophercon14talk/deltas.go:21-23 | rolling in the value displaced leaves the total unchanged |
| `Deltas.RollSumDelta` | gophercon14talk/deltas.go:42-47 | every delta is measured against the total before this frame, then the totals roll; the rest of both slices is untouched |
| `Deltas.AgainstZeroTotals` | gophercon14talk/deltas.go:42-47 | against zero totals every delta is its new byte negated |
| `Deltas.SteadyState` | gophercon14talk/deltas.go:42-47 | at totals of 64·b, rolling b out and in again changes no total and gives zero deltas |
| `Deltas.FirstRollExample` | motion/motion_test.go:63-90 | the first roll of [1,2,3,4] gives deltas [-1,-2,-3,-4] and totals [1,2,3,4] |
| `Deltas.Add` | gophercon14talk/deltas.go:49-53 | the totals become those rolled with an old value of 0 everywhere |
| `Deltas.AccumulatedFromZero` | gophercon14talk/deltas.go:49-53 | k ≤ 64 frames of b added to zero totals give k·b at every position |
| `Deltas.ScoresSymmetric` | gophercon14talk/deltas.go:74-115 | gray, YUYV and RGB scores are non-negative and blind to the sign of the channel deltas |
| `Deltas.ScoresAt` | gophercon14talk/deltas.go:78-125 | slot by slot, the scores are what each `find` writes into that slot |
| `Deltas.ScoresNonNegative` | gophercon14talk/deltas.go:78-125 | every score is non-negative |
| `Deltas.ScoresIgnoreSign` | gophercon14talk/deltas.go:78-125 | swapping old and new frames negates the deltas and changes no score |
| `Deltas.ColumnDeltaFinder.constructor` | gophercon14talk/deltas.go:70-111 | `build()` gives a fresh buffer of the builder's width, for the builder's kind |
| `Deltas.ColumnDeltaFinder.Find` | gophercon14talk/deltas.go:78-125 | `find` overwrites the buffer with the scores of the deltas and returns it |
| `Deltas.ColumnDeltaFinder.FindGray` | gophercon14talk/deltas.go:78-83 | the gray finder's buffer becomes the gray scores |
| `Deltas.ColumnDeltaFinder.FindYuv` | gophercon14talk/deltas.go:97-104 | the YUYV finder's buffer becomes two scores per 4-byte group, sharing the chroma term |
| `Deltas.ColumnDeltaFinder.FindRgb` | gophercon14talk/deltas.go:118-125 | the RGB finder's buffer becomes dr²+dg²+db² per pixel |
| `Deltas.RgbScoresExample` | motion/motion_test.go:115-128 | the test's RGB row scores [0,5,0,9] |
| `Deltas.YuvScoresExample` | motion/motion_test.go:130-146 | the test's YUYV row scores [4,5,9,9] |
| `DeltaJobs.HitsRuns` | gophercon14talk/deltas.go:158-174 | the hits of a row are height-one rectangles of that row, ordered and apart, covering column x if and only if its score exceeds the threshold |
| `DeltaJobs.HitsMaximal` | gophercon14talk/deltas.go:158-174 | each hit is a maximal run: the columns just outside it are at or below the threshold |
| `DeltaJobs.HitsNone` | gophercon14talk/deltas.go:158-174 | a row has no hits if and only if no score exceeds the threshold |
| `DeltaJobs.CollectHits` | gophercon14talk/deltas.go:158-174 | the loop of `findRects` returns the row's hits |
| `DeltaJobs.DeltaFinderJob.constructor` | gophercon14talk/deltas.go:150-156 | a job over the given rows, with deltas one row long and its rects buffer of Dx/2 entries |
| `DeltaJobs.DeltaFinderJob.FindRects` | gophercon14talk/deltas.go:158-174 | the current row rolls into the totals, its deltas are stored, and rects become the hits of its scores |
| `DeltaJobs.DeltaFinderJob.Next` | gophercon14talk/deltas.go:176-185 | false on the last row, with nothing changed; otherwise y and both offsets move down one row and rects empties |
| `DeltaJobs.DeltaFinderJob.Run` | gophercon14talk/deltas.go:202-212 | every row in turn: the totals become all rows rolled, and each result slot holds that row's hits |
| `DeltaJobs.FoundRowsInRow` | gophercon14talk/deltas.go:202-212 | every row's result is height-one rectangles in that row, within the columns, and apart |
| `DeltaJobs.Build` | gophercon14talk/deltas.go:70-111 | a fresh finder of the builder's kind and width |
| `DeltaJobs.BuildHeightOneRects` | gophercon14talk/deltas.go:214-223 | one slot per row of the old frame, holding the rows' hits, and the totals rolled over every row |
| `DeltaJobs.HeightOneRowExample` | motion/motion_test.go:155-173 | the test's second row, with its threshold, gives no rectangles, and its bytes land in the zero totals |
| `DeltaJobs.ExampleRollRow` | motion/motion_test.go:155-173 | the test row rolled into zero totals against a zero old row gives totals equal to its bytes |
| `RingBuf.RingBuf.constructor` | motion/tracker.go:17-21 | a ring of n empty slots, `cnt` = `i` = 0, queue empty |
| `RingBuf.RingBuf.Size` | motion/ringbuf.go:9-11 | `Size` is `cnt`, between 0 and the capacity |
| `RingBuf.RingBuf.Peek` | motion/ringbuf.go:13-15 | on a non-empty ring, the oldest queued element |
| `RingBuf.RingBuf.Enqueue` | motion/ringbuf.go:17-23 | on a full ring, the panic, reported as overflow with nothing changed; otherwise only slot (i+cnt) mod len is written, and the queue gains x at its end |
| `RingBuf.RingBuf.Dequeue` | motion/ringbuf.go:25-27 | `cnt` − 1, `i` advances modulo the capacity, and the queue loses its head |
| `RingBuf.ViewEnqueue` | motion/ringbuf.go:17-23 | writing the slot after the last queued one appends to the queue |
| `RingBuf.ViewDequeue` | motion/ringbuf.go:25-27 | advancing the head slot drops the queue's first element |
| `MotionUtil.Swap` | motion/util.go:17-19 | entries a and b trade places, every other entry stays, and the contents are a permutation of the old ones |
| `MotionUtil.LessStrictWeakOrder` | motion/util.go:20-23 | `Less` (area strictly larger) is irreflexive, asymmetric and transitive; incomparable means equal area, and incomparability is transitive |
| `MotionUtil.SortedDecreasing` | motion/util.go:11-23 | a slice sorted by `Less` has non-increasing areas from first to last |
| `Rects.Slate.constructor` | motion/rects.go:12-14 | `width` unowned columns and no open rectangles |
| `Rects.Slate.Clean` | motion/rects.go:17-21 | every column becomes unowned (0) |
| `Rects.Slate.Draw` | motion/rects.go:24-29 | columns [Min.X, Max.X) of rectangle i become i+1; the others are unchanged |
| `Rects.Slate.DrawAll` | motion/rects.go:32-36 | the columns after drawing every open rectangle in order |
| `Rects.PaintedOwner` | motion/rects.go:32-36 | after `drawall`, each column names the last rectangle covering it, or 0 when none does |
| `Rects.Slate.Add` | motion/rects.go:42-69 | the slate becomes `add`'s specification: the widened columns are scanned, the union appended and drawn |
| `Rects.ScanKeeps` | motion/rects.go:42-69 | the scan only replaces rectangles by ZR |
| `Rects.ScanGrows` | motion/rects.go:42-69 | the union only grows, stays within one column of the slate, and holds every rectangle removed, grown by one |
| `Rects.ScanMeets` | motion/rects.go:42-69 | every rectangle named in the scanned columns is removed |
| `Rects.AddEncloses` | motion/rects.go:42-69 | the appended rectangle fits the slate and holds o, and every rectangle replaced by ZR lies inside it |
| `Rects.AddMeets` | motion/rects.go:42-69 | `add` removes every open rectangle named in the columns it scans |
| `Rects.AddFits` | motion/rects.go:42-69 | `add` keeps every rectangle inside the frame |
| `Rects.AddKeepsHeld` | motion/rects.go:42-69 | a box held by an open rectangle stays held after `add` |
| `Rects.AddAllHolds` | motion/rects.go:102-121 | adding a row of boxes keeps the rectangles inside the frame, keeps every held box held, and holds each added box |
| `Rects.RectJoiner.constructor` | motion/rects.go:77-80 | a new joiner: clean slate, nothing open or done, and a spare buffer |
| `Rects.RectJoiner.AddRow` | motion/rects.go:82-100 | the joiner becomes `addrow`'s specification: with nothing open, the row's boxes are opened; an empty row retires everything; otherwise the row is merged |
| `Rects.RectJoiner.Merge` | motion/rects.go:102-121 | the joiner becomes `merge`'s specification: redraw, add the row's boxes, retire the rectangles left behind |
| `Rects.RectJoiner.Retire` | motion/rects.go:102-121 | ZR is dropped; rectangles whose bottom is above y go to done, the rest to the spare buffer |
| `Rects.SplitParts` | motion/rects.go:102-121 | every non-ZR rectangle goes to exactly the side its bottom says, and nothing else appears |
| `Rects.FinishedFit` | motion/rects.go:102-121 | the done and open lists after `merge` stay inside the frame |
| `Rects.MergeCovers` | motion/rects.go:102-121 | after `merge`, every box held before and every box of the row is held by a done or open rectangle |
| `Rects.AddRowCovers` | motion/rects.go:82-100 | one `addrow` keeps every rectangle inside the frame and every box seen so far held |
| `Rects.RowsCover` | motion/rects.go:125-133 | row after row, the joiner holds every box seen, inside the frame |
| `Rects.FindConnectedRects` | motion/rects.go:125-133 | the result is the done rectangles followed by those still open, after every row |
| `Rects.ConnectedCovers` | motion/rects.go:125-133 | no motion is lost: every non-empty box of every row lies inside a returned rectangle, and each of those lies inside the frame |
| `RectsExamples.SinglePixel` | motion/motion_test.go:242-264 | one pixel at (1,1) gives [Rect(1,1,2,2)] |
| `RectsExamples.DiagonalJoin` | motion/motion_test.go:242-264 | pixels (1,1) and (2,2) join into [Rect(1,1,3,3)] |
| `RectsExamples.FinishedFirst` | motion/motion_test.go:242-264 | a rectangle the next row does not reach comes out first, ahead of the diagonal pair and the late pixel |
| `RectsExamples.LatePixel` | motion/motion_test.go:242-264 | the diagonal pair and a separate pixel at (4,4) give [Rect(1,1,3,3), Rect(4,4,5,5)] |
| `RectsExamples.SideBySide` | motion/motion_test.go:242-264 | two columns growing side by side stay apart: [Rect(1,1,3,3), Rect(4,1,5,3), Rect(4,4,5,5)] |
| `RectsExamples.LeftGrows` | motion/motion_test.go:242-264 | when only the left column grows on row 3, the right one is finished first: [Rect(4,1,5,3), Rect(1,1,3,4), Rect(4,4,5,5)] |
| `RectsExamples.BothGrow` | motion/motion_test.go:242-264 | when both columns grow and (4,4) touches the right one, it joins it: [Rect(1,1,3,4), Rect(4,1,5,5)] |
| `MotionTracker.BuilderFor` | motion/tracker.go:38-49 | the YUYV or RGB builder of width Dx, whose finder fits the frame's rows |
| `MotionTracker.Tracker.constructor` | motion/tracker.go:17-21 | frame 0, an empty ring of 64 slots, no totals and no builder |
| `MotionTracker.Tracker.Roll` | motion/tracker.go:67-81 | on a full ring, the oldest frame, whose place img takes; otherwise nothing and img is appended; `frameNum` + 1 either way and the ring never exceeds 64 |
| `MotionTracker.Tracker.GetOldFrame` | motion/tracker.go:61-63 | None where the source panics: Go's remainder of i + cnt + 64 − n is negative, or it names a slot never written (the nil type assertion); otherwise that slot, which for 1 ≤ n ≤ cnt is the frame added n frames ago |
| `MotionTracker.Tracker.Prepare` | motion/tracker.go:38-49 | on the first frame, zero totals as long as its bytes and the builder for its format; later frames keep both |
| `MotionTracker.Tracker.GetRows` | motion/tracker.go:35-58 | while the ring fills, no rows, img queued and added to the totals; after that, the rows found against the oldest frame, with the totals rolled; either way each total stays the sum of its byte over the frames in the ring (`Valid`) |
| `MotionTracker.Tracker.RollOut` | motion/tracker.go:51-57 | once the ring is full: the rows found against the oldest frame, the totals rolled over its rows, and the totals still the sums over the ring, which has lost the oldest frame and gained img |
| `MotionTracker.Tracker.AddIn` | motion/tracker.go:51-54 | while the ring fills: img's bytes added to the totals, which stay the sums over the ring with img in it |
| `MotionTracker.Tracker.GetRects` | motion/tracker.go:25-33 | while the ring fills, the empty list; after that, the connected rectangles of the rows found; `frameNum` + 1; each total stays the sum of its byte over the frames in the ring |
| `MotionTracker.Tracker.WindowAverage` | motion/tracker.go:51-54 | on a full ring, the average `rollSumDelta` compares against is the mean of that byte over the 64 frames in the ring |
| `MotionTracker.WindowSum` | gophercon14talk/deltas.go:42-47 | the sum of one byte over the frames is between 0 and 255 per frame |
| `MotionTracker.WindowSumDropFirst` | gophercon14talk/deltas.go:42-47 | the sum over the frames is the first frame's byte plus the sum over the rest |
| `MotionTracker.AddedWindow` | gophercon14talk/deltas.go:49-53 | adding a frame's bytes to totals that sum fewer than 64 frames gives the sums over those frames and the new one |
| `MotionTracker.RolledWindow` | gophercon14talk/deltas.go:42-47 | rolling the oldest frame out and a new one in over whole rows turns the sums over the window into the sums over the next window, on every byte of those rows |
| `DeltaJobs.RolledRowsAt` | gophercon14talk/deltas.go:158-185 | after the rows roll, a total in one of them has rolled exactly once, old byte out and new byte in; the others are untouched |
| `MotionTracker.InRowFits` | motion/util.go:7-9 | a row of one-high boxes in row y is a `RowRects` fitting the joiner's width |
| `MotionTracker.RowsFitJoiner` | motion/util.go:7-9 | every row the delta finder returns is a `RowRects` that fits the joiner's columns |
| `MotionTracker.SteadyRectsCover` | motion/tracker.go:25-33 | every box the delta finder found lies in a rectangle `GetRects` returns, and each returned rectangle fits the frame |
| `MotionTracker.EmptyRowsJoinNothing` | motion/tracker.go:25-33 | rows without boxes join into no rectangles |
| `MotionTracker.StillRowsEmpty` | motion/tracker.go:51-54 | a frame scored against totals of 64 copies of itself finds no box in any row |
| `MotionTracker.StillRowsRoll` | motion/tracker.go:51-54 | rolling that frame out of such totals and back in leaves them unchanged |
| `MotionTracker.WarmUp` | motion/motion_test.go:273-285 | 64 copies of a frame give no rectangles, fill the ring with copies, and leave totals of 64·b |
| `MotionTracker.StillFrame` | motion/motion_test.go:287 | one more copy after warm-up gives no rectangles and leaves the ring and totals as they were |
| `MotionTracker.StillFrames` | motion/motion_test.go:266-287 | 65 copies of a frame fed to a new tracker: all give no rectangles, `frameNum` is 65 and the totals are 64·b |

## Left out

- `runJobs` (gophercon14talk/deltas.go:225-239) runs jobs in goroutines. The source fixes one job, so `buildHeightOneRects` is modelled with that single job, run sequentially. `buildDeltaFinderJobs` advances one stride per job, which is only right for one job, so no multi-job split is modelled.
- The gray finder is modelled as written (`FindGray`). The tracker never selects it, so no property is claimed for it beyond its scores.
- `XY`, `Distance` and `Point` (motion/util.go:25-43) use floating point and are left out.
- These call Go's colour library and are left out: `ToRGBGeneric`, `ToRGBMinZp`, `convertYCbCr`, `convertImageWithAt`, `RGB.Set`. For the same reason, `GetRGBA`'s `*image.YCbCr` case and its default case are not among the `StdImage` variants.
- `GetRGB` (imglib/convert.go:27-29) is not part of this model. It is `NewRGBFromRGBADropAlpha(GetRGBA())`, and `Rgb.RgbRoundTrip` states its round trip.
- File I/O, the `String` methods and the trivial `ColorModel`/`Bounds`/`Opaque` methods are left out: `StoreRaw`, `LoadRaw`, `NewYUYVFromFile`.
- Go's `int` is unbounded here. The products in offsets and `Less`'s areas could overflow a 64-bit int on absurd sizes, and this is not modelled. The `uint32` totals and the `uint8` conversions do wrap as in Go.
- `SubImage` and `StrictSubImage` return values. The source shares `Pix` with the parent, so a later write shows through both; that aliasing is not modelled.
- `GetRow` takes dest as an array. The Go `append` into `dest[:0]` beyond its capacity reallocates invisibly, so only what lands inside dest is stated.
- `MotionTracker.Tracker.GetRects` takes a `PixelSequence` instead of an `imgseq.Img`. It leaves out the `.(*imgseq.RawImg)` type assertion in `roll`.
- `MotionTracker.Tracker.GetRects`: the first frame must be YUYV or RGB, non-empty, with an even width for YUYV and whole rows. The source panics with "unknown format" on any other tag; the model has this as a precondition. A zero-byte frame would leave the totals empty and re-pick the builder on every call; the model excludes it.
- `MotionTracker.Tracker.GetRects`: later frames must have the first frame's format, width and byte length. The source has no such check, so the model states it as a precondition.
- `MotionTracker.Tracker.GetRects`: Dafny has no nil slice, so "never nil" is stated as "the empty list during warm-up". A row with no hits is the empty sequence where the source leaves a nil slot.
- `Rects.FindConnectedRects` requires every row box to be canonical and inside [0, width). The source would index `cols` out of range otherwise. Merge properties are stated for non-empty boxes, because `ZR` doubles as the tombstone, and no maximality of the joined rectangles is claimed.
- `Convert.ConvertYUYV` requires an even width. For an odd width the source reads the last group past the row.
- `Yuyv.SetRow` requires an even number of colours. For an odd one the source indexes past the slice.
- `Deltas.ColumnDeltaFinder.Find` requires the buffer to match the deltas (`FindFits`). A YUYV finder over an odd width would panic in the source.
- `Yuyv.ToYCbCrMinZp` requires an even pixel count and a buffer that holds the image. The source would index the chroma planes out of range otherwise.
- `Rgb.RGB.At`, `Rgb.SetRGBA`, `Yuyv.YUYV.At`, `Rgb.SetRow`, `Yuyv.SetRow`, `Rgb.SubImage`, `Yuyv.SubImage`, `Rgb.NewRGB`, `Yuyv.NewYUYV`, `Rgb.ToRGBA`, `Rgb.NewRGBFromRGBADropAlpha`, `Convert.ConvertYUYV`, `Convert.ConvertRGBA64`, `Convert.ConvertNRGBA`, `Convert.ConvertNRGBA64`, `Convert.ConvertRGB`, `Convert.GetRGBA` and `RingBuf.RingBuf.Peek` have preconditions instead of an error path. Each precondition excludes exactly the inputs on which the Go code panics: a hand-built image whose `Pix` does not hold the bytes addressed (`Readable`, `RowWritable`, `Layout.Holds`, a sub-image offset past `len(Pix)`), a rectangle whose area is negative (a negative `make` size), and a ring with no slots (`data[i]` of an empty slice). The panics themselves are not modelled.
- `RingBuf.RingBuf.Enqueue` reports the source's "no room in buffer" panic as `overflow` = true, with nothing changed.
- `RingBuf.RingBuf.Dequeue` requires `cnt` > 0. The source has no check.
- `MotionTracker.Tracker.Valid` ties each total to the sum of its byte over the ring only below `span`. Once the ring is full, only the bytes of the oldest frame's whole rows roll, so `span` becomes the smaller of itself and those rows' length. The bytes past the last whole row keep a stale total, as in the source.
- `Deltas.Div` states the average exactly only for totals up to 64·255, which is every total a steady state reaches. For larger totals it states only the bound; the function itself truncates as Go does.
- The last expectation of TestTracker (motion/motion_test.go:288-290) is not proved end to end: a blank frame after 64 copies of the two-pixel frame gives [Rect(1,1,3,3)]. Its parts are proved: the warm-up totals (`StillFrames`), the steady-state rows (`GetRows`), and the diagonal join (`RectsExamples.DiagonalJoin`).

## Findings

| source | as written | input that shows it | evidently intended | confidence | as-written member | corrected member |
|---|---|---|---|---|---|---|
| imglib/rgb.go:94-101 | `GetRow` reads a whole `Stride` starting at `PixOffset(0, y)` | `SubImage(NewRGB(Rect(0,0,2,1)), Rect(1,0,2,1)).GetRow(0)`: the start offset is −3, so the read panics | read the row's Dx pixels starting at `PixOffset(Min.X, y)`, as `SetRow` writes them | high, not executed | `Rgb.GetRowAsWrittenPanics` | `Rgb.GetRow` |
| imglib/yuyv.go:235 | `StrictSubImage` cuts `Pix` at `PixOffset(r.Max.X, r.Max.Y)`, one whole row past the rectangle | `NewYUYV(Rect(0,0,2,1)).StrictSubImage(Rect(0,0,2,1))`: the slice is `Pix[0:8]` of a 4-byte buffer, so it panics | end at the last row's end, `PixOffset(r.Max.X, r.Max.Y − 1)` | high, not executed | `Yuyv.StrictSubImageAsWrittenPanics` | `Yuyv.StrictSubImageExact` |
| imglib/rgb.go:150 | `StrictSubImage` cuts `Pix` at `PixOffset(r.Max.X, r.Max.Y)`, one whole row past the rectangle | `NewRGB(r).StrictSubImage(r)` for any non-empty r slices past the buffer and panics | end at the last row's end, `PixOffset(r.Max.X, r.Max.Y − 1)` | high, not executed | `Rgb.StrictSubImageAsWrittenPanics` | `Rgb.StrictSubImageExact` |
| imglib/util.go:20 | the row loops of `ScaleUpPackedTriple` (and the same loop at line 48 of `ScaleUpPackedQuad`) advance by `stride` | any pix with a stride of 0: `i` stays 0 and `0 <= len(pix)` holds forever, so the call never returns | no whole rows to copy, so the zeroed buffer | high, not executed | `Scale.RowTurnsAsWrittenHangs` | `Scale.ScaleUpPacked` |
| imglib/util.go:32 | `scaleUpRowQuad` loops while `i+2 < len(src)` but reads `src[i+3]` | `ScaleUpPackedQuad([0,0,0], 3)`: the only row has three bytes, so `src[3]` is out of range | loop while `i+3 < len(src)`, so only whole 4-byte groups are doubled | high, not executed | `Scale.ScaleUpPackedQuadAsWrittenPanics` | `Scale.ScaleUpPackedQuad` |
