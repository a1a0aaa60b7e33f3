/** encode.go of package lsb: the payload scan of `Encode` and
    `setDataSizeHeader`, working in place on the carrier's pixel grid.
    Each method is proved against its specification function in EncodeSpec;
    what those functions guarantee is proved in EncodeLemmas. */
module Lsb {
  import opened Pixels
  import opened EncodeSpec
  import EncodeLemmas

  /** What Encode returns. The output image is `img` itself: its PNG
      serialisation is not part of this model. */
  datatype EncodeResult = Encoded | Failed(err: Error)

  /** `totalNumberBytes++` on a uint32. */
  function Inc32(t: uint32): (r: uint32)
    ensures r as int == (t as int + 1) % Uint32Modulus
  {
    if t as int == Uint32Modulus - 1 then 0 else t + 1
  }

  /** Inc32 keeps a uint32 counter equal to an unbounded count modulo 2^32. */
  lemma Inc32Counts(t: uint32, count: nat)
    requires t as int == count % Uint32Modulus
    ensures Inc32(t) as int == (count + 1) % Uint32Modulus
  {
  }

  /** setDataSizeHeader: writes quanta count, count + 1, count + 2 into the
      low bits of R, G, B of successive pixels in scan order while count < 15. */
  method SetDataSizeHeader(img: RGBAImage, dataCountBytes: seq<uint8>, setLow: SetBitsFn)
    requires img.Valid()
    requires |dataCountBytes| >= 3 * ReservedPixels(|img.Cells|)
    modifies img, img.pix
    ensures img.Valid()
    ensures img.Cells == HeaderWrite(old(img.Cells), dataCountBytes, setLow)
  {
    var width := img.Width();
    var height := img.Height();
    ghost var goal := HeaderWrite(img.Cells, dataCountBytes, setLow);
    ghost var k: nat := 0;
    ghost var column := 0;
    var count := 0;
    var x := 0;
    while x < width && count < HeaderQuanta
      invariant img.Valid()
      invariant 0 <= x <= width && count == 3 * k
      invariant column == img.Offset[x]
      invariant count < HeaderQuanta ==> k == column
      invariant EncodeLemmas.HeaderPending(img.Cells, k, dataCountBytes, setLow, goal)
    {
      var y := 0;
      while y < height && count < HeaderQuanta
        invariant img.Valid()
        invariant 0 <= y <= height && count == 3 * k
        invariant count < HeaderQuanta ==> k == column + y
        invariant EncodeLemmas.HeaderPending(img.Cells, k, dataCountBytes, setLow, goal)
      {
        img.ScanCell(x, y);
        ghost var cells := img.Cells;
        EncodeLemmas.HeaderStep(cells, k, dataCountBytes, setLow, goal);
        var c := img.RGBAAt(x, y);
        assert c == cells[k];
        c := Stamp(c, dataCountBytes, count, setLow);
        img.SetRGBA(x, y, c);
        assert img.Cells == cells[k := c];
        count := count + 3;
        k := k + 1;
        y := y + 1;
      }
      column := column + height;
      x := x + 1;
    }
    EncodeLemmas.HeaderDone(img.Cells, k, dataCountBytes, setLow, goal);
  }

  /** One payload pixel of Encode's scan: SetColorSegment on R, then G, then B,
      totalNumberBytes incremented after each call that reports more data,
      and the new colour written back with SetRGBA; an error returns at once,
      before anything is written. */
  method EncodePixel(img: RGBAImage, x: int, y: int, src: Source, seg: SegmentFn, total: uint32, ghost count: nat)
    returns (step: PixelStep, total': uint32)
    requires img.Valid() && img.InBounds(x, y)
    requires total as int == count % Uint32Modulus
    modifies img, img.pix
    ensures img.Valid()
    ensures step == EmbedPixel(old(img.RGBAAt(x, y)), src, seg)
    ensures step.PixelFailed? ==> img.Cells == old(img.Cells)
    ensures step.PixelDone? ==>
      && img.Cells == old(img.Cells)[img.Offset[x] + y := step.pixel]
      && total' as int == (count + CountTrue(step.flags)) % Uint32Modulus
  {
    var c := img.RGBAAt(x, y);
    var red := seg(src, c.r);
    if red.SegmentFailed? {
      return PixelFailed(ReadError(red.reason)), total;
    }
    total' := total;
    ghost var n := count;
    if red.more {
      Inc32Counts(total', n);
      total', n := Inc32(total'), n + 1;
    }
    var green := seg(red.rest, c.g);
    if green.SegmentFailed? {
      return PixelFailed(ReadError(green.reason)), total;
    }
    if green.more {
      Inc32Counts(total', n);
      total', n := Inc32(total'), n + 1;
    }
    var blue := seg(green.rest, c.b);
    if blue.SegmentFailed? {
      return PixelFailed(ReadError(blue.reason)), total;
    }
    if blue.more {
      Inc32Counts(total', n);
      total', n := Inc32(total'), n + 1;
    }
    EncodeLemmas.CountTrueOfPixel(red.more, green.more, blue.more);
    var p := Pixel(red.channel, green.channel, blue.channel, c.a);
    img.SetRGBA(x, y, p);
    step := PixelDone(p, [red.more, green.more, blue.more], blue.rest);
  }

  /** What the payload scan reports: totalNumberBytes, or the error it returned with. */
  datatype ScanStatus = ScanDone(total: uint32) | ScanError(err: Error)

  /** The inner loop of Encode's payload scan over column x, from y = 0 while
      hasMoreBytes: a pixel is skipped while countProcessedBytes < 20 and
      passed through EncodePixel otherwise. `failed` is the error Encode
      returns with; the ghost k is the scan index of pixel (x, y) and count the
      number of true calls so far. */
  method EmbedColumn(img: RGBAImage, x: int, src: Source, countProcessedBytes: int, totalNumberBytes: uint32,
                     seg: SegmentFn, ghost count: nat, ghost k: nat, ghost goal: Scanned)
    returns (failed: ScanStatus, src': Source, hasMoreBytes: bool, countProcessedBytes': int,
             totalNumberBytes': uint32, ghost count': nat, ghost k': nat)
    requires img.Valid() && 0 <= x < img.Width() && k == img.Offset[x]
    requires EncodeLemmas.ScanLoop(img.Cells, k, countProcessedBytes, src, count, totalNumberBytes, true, seg, goal)
    modifies img, img.pix
    ensures img.Valid()
    ensures failed.ScanError? ==> goal == ScanFailed(failed.err)
    ensures failed.ScanDone? ==>
      && EncodeLemmas.ScanLoop(img.Cells, k', countProcessedBytes', src', count', totalNumberBytes', hasMoreBytes, seg, goal)
      && (hasMoreBytes ==> k' == img.Offset[x + 1])
  {
    src', countProcessedBytes', totalNumberBytes', count', k' := src, countProcessedBytes, totalNumberBytes, count, k;
    hasMoreBytes := true;
    failed := ScanDone(totalNumberBytes');
    var height := img.Height();
    var y := 0;
    while y < height && hasMoreBytes
      invariant img.Valid()
      invariant 0 <= y <= height
      invariant hasMoreBytes ==> k' == img.Offset[x] + y
      invariant EncodeLemmas.ScanLoop(img.Cells, k', countProcessedBytes', src', count', totalNumberBytes', hasMoreBytes, seg, goal)
    {
      img.ScanCell(x, y);
      ghost var cells := img.Cells;
      if countProcessedBytes' < DataSizeHeaderReservedBytes {
        // header space, filled in by SetDataSizeHeader
        EncodeLemmas.SkipPending(cells, k', countProcessedBytes', src', count', totalNumberBytes', seg, goal);
        countProcessedBytes' := countProcessedBytes' + 4;
      } else {
        var step, total := EncodePixel(img, x, y, src', seg, totalNumberBytes', count');
        if step.PixelFailed? {
          EncodeLemmas.PixelFails(cells, k', countProcessedBytes', src', count', totalNumberBytes', seg, goal, step);
          return ScanError(step.err), src', hasMoreBytes, countProcessedBytes', totalNumberBytes', count', k';
        }
        EncodeLemmas.PixelPending(cells, k', countProcessedBytes', src', count', totalNumberBytes', seg, goal, step, img.Cells, total);
        totalNumberBytes', count' := total, count' + CountTrue(step.flags);
        hasMoreBytes := step.flags[2];
        src' := step.rest;
      }
      k' := k' + 1;
      y := y + 1;
    }
  }

  /** The payload scan of Encode: columns x = 0, 1, ... while hasMoreBytes,
      each scanned by EmbedColumn; the first error is returned. */
  method EmbedPayload(img: RGBAImage, data: seq<uint8>, seg: SegmentFn) returns (status: ScanStatus)
    requires img.Valid()
    modifies img, img.pix
    ensures img.Valid()
    ensures
      match EncodeScan(old(img.Cells), Source(data, 0), seg)
      case ScanFailed(e) => status == ScanError(e)
      case Scanned(cells, _, count, _, _) => status == ScanDone((count % Uint32Modulus) as uint32) && img.Cells == cells
  {
    var width := img.Width();
    ghost var goal := EncodeScan(img.Cells, Source(data, 0), seg);
    ghost var k: nat := 0;
    ghost var count: nat := 0;
    var src := Source(data, 0);
    var hasMoreBytes := true;
    var countProcessedBytes := 0;
    var totalNumberBytes: uint32 := 0;
    var x := 0;
    while x < width && hasMoreBytes
      invariant img.Valid()
      invariant 0 <= x <= width
      invariant hasMoreBytes ==> k == img.Offset[x]
      invariant EncodeLemmas.ScanLoop(img.Cells, k, countProcessedBytes, src, count, totalNumberBytes, hasMoreBytes, seg, goal)
    {
      var failed;
      failed, src, hasMoreBytes, countProcessedBytes, totalNumberBytes, count, k :=
        EmbedColumn(img, x, src, countProcessedBytes, totalNumberBytes, seg, count, k, goal);
      if failed.ScanError? {
        return failed;
      }
      x := x + 1;
    }
    EncodeLemmas.ScanEnd(img.Cells, k, countProcessedBytes, src, count, totalNumberBytes, hasMoreBytes, seg, goal);
    status := ScanDone(totalNumberBytes);
  }

  /** Encode, from the decoded carrier to the choice of output format.
      `probeReceived` is the outcome of the non-blocking receive after the
      scan: true when it got a byte the scan did not consume. */
  method Encode(img: RGBAImage, data: seq<uint8>, format: string, probeReceived: bool,
                seg: SegmentFn, setLow: SetBitsFn, quarters: QuartersFn) returns (result: EncodeResult)
    requires img.Valid()
    requires forall t: uint32 :: |quarters(t)| >= HeaderQuanta
    modifies img, img.pix
    ensures img.Valid()
    ensures
      match EncodeCells(old(img.Cells), data, format, probeReceived, seg, setLow, quarters)
      case Output(out) => result == Encoded && img.Cells == out
      case Refused(e) => result == Failed(e)
  {
    var status := EmbedPayload(img, data, seg);
    if status.ScanError? {
      return Failed(status.err);
    }

    if probeReceived {
      return Failed(TooLarge);
    }

    SetDataSizeHeader(img, quarters(status.total), setLow);

    if format == "png" || format == "jpeg" {
      result := Encoded;
    } else {
      result := Failed(UnsupportedFormat);
    }
  }
}
