# LSB encoder of stegography, in Dafny

This project models the embedding engine of the `lsb` package in
`stegify_methods/lsb/encode.go`:

- the payload scan inside `Encode`. It walks the RGBA carrier with `x` in
  the outer loop and `y` in the inner loop. While `countProcessedBytes` is
  below 20 it skips a pixel and adds 4, so 5 pixels are reserved for the
  header. Every later pixel goes through `SetColorSegment` on R, then G,
  then B. `totalNumberBytes` (a `uint32`) grows by one for each call that
  reports more data. The pixel is written back with `SetRGBA`. The scan
  stops once `hasMoreBytes` is false, and the first error aborts `Encode`.
- the capacity probe, `setDataSizeHeader` and the format switch that
  follow the scan.
- `setDataSizeHeader`. In the same scan order it writes quanta
  `count`, `count + 1` and `count + 2` of the header into the R, G and B
  low bits of successive pixels while `count < 15`.

Layout:

- `pixels.dfy` (module `Pixels`): the carrier, a class `RGBAImage` over an
  `array2<Pixel>` indexed `[x, y]`, with `RGBAAt` and `SetRGBA`. A ghost
  field `Cells` lists the pixels in scan order, and `Valid()` ties it to
  the array.
- `encode_spec.dfy` (module `EncodeSpec`): specification functions. `Scan`
  mirrors the payload loop on the scan-order pixel list. `Feed` is an
  independent reference: it feeds every channel once, in order, through
  the shared source. `HeaderWrite` mirrors `setDataSizeHeader`.
  `EncodeCells` is the whole of `Encode`.
- `encode_lemmas.dfy` (module `EncodeLemmas`): what those functions
  guarantee. Among them: the skip and the header write land on the same 5
  pixels, and the scan relates to `Feed`.
- `encode.dfy` (module `Lsb`): the imperative methods, with the source's
  loops, counters and in-place `SetRGBA` writes. Each one is proved against
  its specification function.

The helpers of the `utils` and `bitmanip` packages are not part of this
model. They become function-typed parameters:

- `SetColorSegment` is `seg: SegmentFn`, one step over an explicit source
  state (the payload bytes and a cursor). It yields the new channel value,
  the "more data" flag and the next source state. On failure it yields the
  reader's error message, which the scan reports as `ReadError`.
- `SetLastTwoBits` is `setLow`.
- `QuartersOfBytesOf` is `quarters`.

`dataSizeHeaderReservedBytes` (encode.go:15-16) reserves 20 for the
header. The code, however, skips 5 whole pixels (15 channels) and
`setDataSizeHeader` writes only quanta 0..14 into them. The model follows
the code, and `HeaderIgnoresTail` states that quanta from 15 on never
reach the image.

## Model

| member | source | states |
|---|---|---|
| Lsb.Encode | stegify_methods/lsb/encode.go:36-95 | Ends with `Encoded` and the pixels `EncodeCells` gives when the scan succeeds, the probe finds nothing and the format is png or jpeg. Otherwise it fails with the scan's error, `TooLarge` or `UnsupportedFormat`, checked in that order. |
| Lsb.EmbedPayload | stegify_methods/lsb/encode.go:36-72 | The nested x/y loop, pixel by pixel, gives exactly what `EncodeScan` gives. On success it returns the new pixels and `totalNumberBytes`, the count of true calls modulo 2^32. On failure it returns the first error. |
| Lsb.EmbedColumn | stegify_methods/lsb/encode.go:42-71 | The inner y loop over one column keeps the scan invariant `ScanLoop`. Afterwards the scan continues at the top of the next column, or has stopped, or `goal` is the failure it returned with. |
| Lsb.EncodePixel | stegify_methods/lsb/encode.go:47-69 | R, G and B are fed in that order, as `EmbedPixel` on the pixel read with `RGBAAt`. The new pixel is stored at exactly its scan position and the counter grows by the number of true calls modulo 2^32. On error nothing is written. |
| Lsb.Inc32 | stegify_methods/lsb/encode.go:52-54 | `totalNumberBytes++` on a uint32 wraps modulo 2^32. |
| Lsb.Inc32Counts | stegify_methods/lsb/encode.go:59-61 | Each increment keeps the uint32 counter equal to the exact count modulo 2^32. |
| Lsb.SetDataSizeHeader | stegify_methods/lsb/encode.go:98-115 | The nested x/y loop with `count < 15` leaves the image as `HeaderWrite` of the old pixels. |
| Pixels.RGBAImage.SetRGBA | stegify_methods/lsb/encode.go:69 | Writing (x, y) replaces exactly the cell `Offset[x] + y` of the scan order and nothing else. A later `RGBAAt(x, y)` reads the new colour back. |
| Pixels.RGBAImage.ScanCell | stegify_methods/lsb/encode.go:47 | `RGBAAt(x, y)` is the scan-order cell `Offset[x] + y`. |
| EncodeSpec.Channels | stegify_methods/lsb/encode.go:48-62 | A pixel run has 3 channels per pixel. |
| EncodeSpec.Feed | stegify_methods/lsb/encode.go:48-65 | Feeding channels one by one yields one value and one flag per channel. |
| EncodeSpec.EmbedPixel | stegify_methods/lsb/encode.go:47-69 | A payload pixel keeps its alpha and yields three flags. |
| EncodeSpec.Scan | stegify_methods/lsb/encode.go:41-72 | The scan keeps the grid size, visits at most every pixel, and never lowers the count. |
| EncodeSpec.EncodeScan | stegify_methods/lsb/encode.go:36-72 | The same facts for the scan from the first pixel. |
| EncodeLemmas.SkipReservesHeader | stegify_methods/lsb/encode.go:43-45 | `countProcessedBytes` runs 0, 4, 8, ... The first min(5, n) pixels are passed over without touching the image, the source or the count. |
| EncodeLemmas.EncodeScanExplained | stegify_methods/lsb/encode.go:41-72 | Holds for every input. On success, the visited payload pixels 5..v-1 hold exactly what `Feed` gives on their original channels in scan order. Every other pixel and every alpha is unchanged. The count is the number of true calls. Every payload pixel before the last let the scan go on, and the loop ended on a false blue call or at the grid's end. On failure, every earlier pixel continued and feeding the failing pixel's channels gives that error. |
| EncodeLemmas.PayloadTrace | stegify_methods/lsb/encode.go:46-72 | The same, by induction over the payload pixels from any point on. |
| EncodeLemmas.FeedPixel | stegify_methods/lsb/encode.go:47-68 | One payload pixel is the next three channel calls on the shared source: R, G, B in order. |
| EncodeLemmas.ChannelsSnoc | stegify_methods/lsb/encode.go:48-62 | One more pixel appends its R, G and B to the channel list. |
| EncodeLemmas.CountTrueAppend | stegify_methods/lsb/encode.go:52-68 | Counts of true calls add up across pixels. |
| EncodeLemmas.CountTrueOfPixel | stegify_methods/lsb/encode.go:52-68 | One pixel adds one per true call, in R, G, B order. |
| EncodeLemmas.CountTrueBound | stegify_methods/lsb/encode.go:52-68 | At most one increment per call. |
| EncodeLemmas.CountBound | stegify_methods/lsb/encode.go:52-68 | `totalNumberBytes` before wrap-around is at most 3 per visited payload pixel, and so at most 3 * (n - 5). |
| EncodeLemmas.CountFitsUint32 | stegify_methods/lsb/encode.go:39 | On a carrier of fewer than 2^32 / 3 pixels the uint32 counter never wraps. |
| EncodeLemmas.ScanFailsOnlyOnRead | stegify_methods/lsb/encode.go:48-65 | Every failure of the scan is a `ReadError` passed on from `SetColorSegment`. |
| EncodeLemmas.EncodeRefusalCause | stegify_methods/lsb/encode.go:74-95 | Each refusal names its cause. `Encode` fails with a reader error iff the scan failed, with `TooLarge` iff the scan succeeded and the probe fired, and with `UnsupportedFormat` iff neither happened and the format is not png or jpeg. |
| EncodeLemmas.TraceFail | stegify_methods/lsb/encode.go:49-51 | An error on a payload pixel's channel aborts the scan with that error. |
| EncodeLemmas.TraceStop | stegify_methods/lsb/encode.go:41-42 | A false blue call ends the scan right after that pixel. |
| EncodeLemmas.TraceEnd | stegify_methods/lsb/encode.go:41-42 | Running off the grid ends the scan with more data still expected. |
| EncodeLemmas.PixelStepTrace | stegify_methods/lsb/encode.go:47-69 | One payload pixel extends the trace: only it changes, its alpha is kept, and the feed grows by its channels. |
| EncodeLemmas.SkipPending | stegify_methods/lsb/encode.go:44-45 | A reserved pixel keeps the loop invariant. |
| EncodeLemmas.PixelPending | stegify_methods/lsb/encode.go:46-69 | A successful payload pixel keeps the loop invariant. The loop goes on exactly when the blue call returned true. |
| EncodeLemmas.PixelFails | stegify_methods/lsb/encode.go:49-65 | A failing payload pixel is the scan's failure. |
| EncodeLemmas.ScanEnd | stegify_methods/lsb/encode.go:41-42 | Once the loops end, the pixels and counters are the scan's result. |
| EncodeLemmas.HeaderStep | stegify_methods/lsb/encode.go:105-112 | A header pixel with count < 15 reads quanta 3k..3k+2, which exist, and keeps the loop invariant. |
| EncodeLemmas.HeaderDone | stegify_methods/lsb/encode.go:104-105 | The header loop ends when the grid or the 15 quanta run out. |
| EncodeLemmas.HeaderLayout | stegify_methods/lsb/encode.go:104-112 | `setDataSizeHeader` stamps exactly the first min(5, n) pixels, the k-th with quanta 3k, 3k+1 and 3k+2. All other pixels are unchanged. |
| EncodeLemmas.HeaderIgnoresTail | stegify_methods/lsb/encode.go:106-109 | Only the first 3 * min(5, n) quanta are read, so entries 15 and up never reach the image. |
| EncodeLemmas.HeaderLandsOnReservedPixels | stegify_methods/lsb/encode.go:44-45 | The header goes onto exactly the pixels the scan reserved. Each header pixel is the original carrier pixel with only its quanta stamped in. Every payload pixel keeps what the scan wrote, and no alpha changes. |
| EncodeLemmas.EncodeOutputLayout | stegify_methods/lsb/encode.go:74-95 | There is output iff the scan succeeds, the probe is empty and the format is png or jpeg. The output is the header pixels stamped with the quarters of the count modulo 2^32, plus the scanned payload pixels as `EncodeScanExplained` describes them. |

## Left out

- `utils.GetImageAsRGBA` and `png.Encode` (lines 23 and 87): image codec I/O. The model starts from the decoded pixel grid. `Encoded` stands for the PNG bytes, and a failure of `png.Encode` is not modelled.
- `utils.ReadData`, the goroutine and the `dataBytes`/`errChan` channels (lines 28-31) are replaced by a sequential source state threaded through `seg`. Read errors come back through `seg` as a message, which the scan reports as `ReadError`.
- The `select` probe (lines 74-80) depends on goroutine timing. It is the boolean parameter `probeReceived`.
- `SetColorSegment`, `SetLastTwoBits` and `QuartersOfBytesOf` live in packages that are not part of this model. They are parameters with no bodies of their own.
- Encode: requires `quarters` to return at least 15 quanta for every count. With fewer, `setDataSizeHeader` would index out of range and the Go code would panic.
- Go's error strings become the constructors of `Error`.
- The `Pix`/`Stride` byte layout of `image.RGBA` is abstracted to a grid indexed from (0, 0), so bounds with a non-zero origin are not modelled.
- After an error `Encode` returns `nil`. The model does not specify what the in-memory image then holds.
- `EmbedPixel` collects the three "more" flags in a sequence. This is a modelling device for stating the count and the stop rule.
