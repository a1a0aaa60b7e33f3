/** Pure specification of the two loops of encode.go: the payload scan of
    `Encode` and `setDataSizeHeader`, both over the carrier's pixels listed in
    scan order (x outer, y inner).

    The helpers of the `utils` and `bitmanip` packages are not part of this
    model; they enter as function-typed parameters:
      - `utils.SetColorSegment` as `seg: SegmentFn`, one step over an explicit
        payload source (the bytes and a cursor) that yields the new channel
        value, the "more data" flag, and the next source state, or an error;
      - `bitmanip.SetLastTwoBits` as `setLow: SetBitsFn`;
      - `bitmanip.QuartersOfBytesOf` as `quarters: QuartersFn`. */
module EncodeSpec {
  import opened Pixels

  /** `dataSizeHeaderReservedBytes`: the scan counts 4 of these per skipped pixel. */
  const DataSizeHeaderReservedBytes: int := 20
  /** Number of header pixels: 20 / 4. */
  const HeaderPixels: int := DataSizeHeaderReservedBytes / 4
  /** Bound on `count` in `setDataSizeHeader`: (20 / 4) * 3 quanta. */
  const HeaderQuanta: int := (DataSizeHeaderReservedBytes / 4) * 3

  datatype Error =
    | ReadError(reason: string)   // delivered by the payload reader through SetColorSegment
    | TooLarge                    // the probe after the scan still found a payload byte
    | UnsupportedFormat           // carrier format other than png or jpeg

  /** The payload as SetColorSegment sees it: its bytes and how far they are consumed. */
  datatype Source = Source(data: seq<uint8>, cursor: nat)

  /** Result of one SetColorSegment call on one channel. */
  datatype Segment =
    | Segment(channel: uint8, more: bool, rest: Source)
    | SegmentFailed(reason: string)   // the error SetColorSegment got from the payload reader

  type SegmentFn = (Source, uint8) -> Segment
  type SetBitsFn = (uint8, uint8) -> uint8
  type QuartersFn = uint32 -> seq<uint8>

  function Min(a: int, b: int): int { if a <= b then a else b }

  /** Pixels reserved for the header in a grid of n pixels. */
  function ReservedPixels(n: nat): nat { Min(HeaderPixels, n) }

  // ---------------------------------------------------------------------------
  // Channel level: every channel fed once, in order, through the shared source.

  /** The R, G, B channels of ps, pixel after pixel. */
  function Channels(ps: seq<Pixel>): (cs: seq<uint8>)
    ensures |cs| == 3 * |ps|
  {
    if ps == [] then []
    else
      var p := ps[|ps| - 1];
      Channels(ps[..|ps| - 1]) + [p.r, p.g, p.b]
  }

  datatype Fed =
    | Fed(values: seq<uint8>, flags: seq<bool>, rest: Source)
    | FeedFailed(err: Error)

  /** Calls seg on each input channel in order, threading the source state from
      one call to the next; stops at the first error. */
  function Feed(src: Source, inputs: seq<uint8>, seg: SegmentFn): (f: Fed)
    ensures f.Fed? ==> |f.values| == |inputs| && |f.flags| == |inputs|
    decreases |inputs|
  {
    if inputs == [] then Fed([], [], src)
    else
      match Feed(src, inputs[..|inputs| - 1], seg)
      case FeedFailed(e) => FeedFailed(e)
      case Fed(vs, fs, s) =>
        match seg(s, inputs[|inputs| - 1])
        case SegmentFailed(e) => FeedFailed(ReadError(e))
        case Segment(v, m, s') => Fed(vs + [v], fs + [m], s')
  }

  /** Number of calls that reported more data. */
  function CountTrue(flags: seq<bool>): nat
  {
    if flags == [] then 0
    else CountTrue(flags[..|flags| - 1]) + (if flags[|flags| - 1] then 1 else 0)
  }

  // ---------------------------------------------------------------------------
  // Pixel level: the payload scan of Encode.

  datatype PixelStep =
    | PixelDone(pixel: Pixel, flags: seq<bool>, rest: Source)
    | PixelFailed(err: Error)

  /** One payload pixel: SetColorSegment on R, then G, then B; `flags` holds the
      three "more" results in that order, and alpha is carried over. */
  function EmbedPixel(p: Pixel, src: Source, seg: SegmentFn): (r: PixelStep)
    ensures r.PixelDone? ==> r.pixel.a == p.a && |r.flags| == 3
  {
    match seg(src, p.r)
    case SegmentFailed(e) => PixelFailed(ReadError(e))
    case Segment(r, m1, s1) =>
      match seg(s1, p.g)
      case SegmentFailed(e) => PixelFailed(ReadError(e))
      case Segment(g, m2, s2) =>
        match seg(s2, p.b)
        case SegmentFailed(e) => PixelFailed(ReadError(e))
        case Segment(b, m3, s3) => PixelDone(Pixel(r, g, b, p.a), [m1, m2, m3], s3)
  }

  datatype Scanned =
    | Scanned(cells: seq<Pixel>, rest: Source, count: nat, more: bool, visited: nat)
    | ScanFailed(err: Error)

  /** The scan loop from pixel i on. `processed` is countProcessedBytes, `count`
      the number of SetColorSegment calls that returned true (totalNumberBytes
      before its 32-bit wrap-around), `visited` the number of pixels the loop
      went through. */
  function Scan(cells: seq<Pixel>, i: nat, processed: int, src: Source, count: nat, seg: SegmentFn): (r: Scanned)
    requires i <= |cells|
    ensures r.Scanned? ==> |r.cells| == |cells| && i <= r.visited <= |cells| && count <= r.count
    decreases |cells| - i
  {
    if i == |cells| then Scanned(cells, src, count, true, i)
    else if processed < DataSizeHeaderReservedBytes then
      Scan(cells, i + 1, processed + 4, src, count, seg)
    else
      match EmbedPixel(cells[i], src, seg)
      case PixelFailed(e) => ScanFailed(e)
      case PixelDone(p, flags, s) =>
        if flags[2] then Scan(cells[i := p], i + 1, processed, s, count + CountTrue(flags), seg)
        else Scanned(cells[i := p], s, count + CountTrue(flags), false, i + 1)
  }

  /** The whole scan of Encode, from the first pixel with both counters at zero. */
  function EncodeScan(cells: seq<Pixel>, src: Source, seg: SegmentFn): (r: Scanned)
    ensures r.Scanned? ==> |r.cells| == |cells| && r.visited <= |cells|
  {
    Scan(cells, 0, 0, src, 0, seg)
  }

  // ---------------------------------------------------------------------------
  // setDataSizeHeader

  /** Writes quanta[count], quanta[count + 1], quanta[count + 2] into the low
      bits of R, G and B; alpha is carried over. */
  function Stamp(p: Pixel, quanta: seq<uint8>, count: nat, setLow: SetBitsFn): Pixel
    requires count + 2 < |quanta|
  {
    Pixel(setLow(p.r, quanta[count]), setLow(p.g, quanta[count + 1]), setLow(p.b, quanta[count + 2]), p.a)
  }

  /** The loop of setDataSizeHeader from pixel i on, with count == 3 * i. */
  function HeaderFrom(cells: seq<Pixel>, i: nat, count: nat, quanta: seq<uint8>, setLow: SetBitsFn): seq<Pixel>
    requires i <= |cells| && count == 3 * i
    requires |quanta| >= 3 * ReservedPixels(|cells|)
    decreases |cells| - i
  {
    if i == |cells| || count >= HeaderQuanta then cells
    else HeaderFrom(cells[i := Stamp(cells[i], quanta, count, setLow)], i + 1, count + 3, quanta, setLow)
  }

  /** setDataSizeHeader applied to the pixels in scan order. */
  function HeaderWrite(cells: seq<Pixel>, quanta: seq<uint8>, setLow: SetBitsFn): seq<Pixel>
    requires |quanta| >= 3 * ReservedPixels(|cells|)
  {
    HeaderFrom(cells, 0, 0, quanta, setLow)
  }

  // ---------------------------------------------------------------------------
  // Encode as a whole

  /** What Encode leaves behind: the pixels it hands to the PNG encoder, or the
      error it returns. */
  datatype Outcome = Output(cells: seq<Pixel>) | Refused(err: Error)

  /** Encode on the carrier's pixels in scan order: the payload scan, the
      size probe (`probeReceived`: the non-blocking receive after the scan got
      a byte), the data size header with totalNumberBytes as a uint32, and the
      carrier format check. */
  function EncodeCells(cells: seq<Pixel>, data: seq<uint8>, format: string, probeReceived: bool,
                       seg: SegmentFn, setLow: SetBitsFn, quarters: QuartersFn): Outcome
    requires forall t: uint32 :: |quarters(t)| >= HeaderQuanta
  {
    match EncodeScan(cells, Source(data, 0), seg)
    case ScanFailed(e) => Refused(e)
    case Scanned(scanned, _, count, _, _) =>
      if probeReceived then Refused(TooLarge)
      else if format == "png" || format == "jpeg" then
        Output(HeaderWrite(scanned, quarters((count % Uint32Modulus) as uint32), setLow))
      else Refused(UnsupportedFormat)
  }
}
