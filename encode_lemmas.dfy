/** What the two loops of encode.go guarantee, proved about their
    specification functions in EncodeSpec. */
module EncodeLemmas {
  import opened Pixels
  import opened EncodeSpec

  // ---------------------------------------------------------------------------
  // Vocabulary

  /** The blue-channel flag of the j-th payload pixel: the value hasMoreBytes
      has after that pixel, which decides whether the scan goes on. */
  ghost predicate Continues(flags: seq<bool>, j: nat)
    requires 3 * j + 2 < |flags|
  {
    flags[3 * j + 2]
  }

  /** cells agrees with cells0 outside the positions lo..hi-1. */
  ghost predicate Untouched(cells0: seq<Pixel>, cells: seq<Pixel>, lo: int, hi: int)
    requires |cells| == |cells0|
  {
    forall k :: 0 <= k < |cells0| && !(lo <= k < hi) ==> cells[k] == cells0[k]
  }

  ghost predicate SameAlpha(cells0: seq<Pixel>, cells: seq<Pixel>)
    requires |cells| == |cells0|
  {
    forall k :: 0 <= k < |cells0| ==> cells[k].a == cells0[k].a
  }

  /** The scan aborted with e while on pixel v - 1: every payload pixel before
      it was fed through the source and let the scan go on, and feeding that
      pixel's channels fails with e. */
  ghost predicate FailsAt(cells0: seq<Pixel>, h: nat, v: nat, src0: Source, seg: SegmentFn, e: Error)
    requires h < v <= |cells0|
  {
    var f := Feed(src0, Channels(cells0[h..v - 1]), seg);
    f.Fed? && (forall j :: 0 <= j < v - 1 - h ==> Continues(f.flags, j))
    && Feed(src0, Channels(cells0[h..v]), seg) == FeedFailed(e)
  }

  /** r is the outcome of scanning cells0 when the payload starts at pixel h:
      on success the visited payload pixels h..v-1 hold exactly what feeding
      their original channels, in scan order, through the source gives; every
      other pixel and every alpha value is unchanged; count is the number of
      calls that reported more data; v is the first payload pixel whose blue
      call reported no more data, or the end of the grid. On failure, the
      error is that of the first failing call. */
  ghost predicate ScanExplained(cells0: seq<Pixel>, h: nat, src0: Source, seg: SegmentFn, r: Scanned)
    requires h <= |cells0|
  {
    match r
    case Scanned(cells, rest, count, more, v) => Finished(cells0, h, src0, seg, cells, rest, count, more, v)
    case ScanFailed(e) => exists v :: h < v <= |cells0| && FailsAt(cells0, h, v, src0, seg, e)
  }

  /** The successful half of ScanExplained. */
  ghost predicate Finished(cells0: seq<Pixel>, h: nat, src0: Source, seg: SegmentFn,
                           cells: seq<Pixel>, rest: Source, count: nat, more: bool, v: nat)
    requires h <= |cells0|
  {
    h <= v <= |cells0| && |cells| == |cells0|
    && Untouched(cells0, cells, h, v) && SameAlpha(cells0, cells)
    && var f := Feed(src0, Channels(cells0[h..v]), seg);
       f.Fed? && f.values == Channels(cells[h..v]) && f.rest == rest
       && count == CountTrue(f.flags)
       && (forall j :: 0 <= j < v - h - 1 ==> Continues(f.flags, j))
       && (more <==> v == h || f.flags[|f.flags| - 1])
       && (more ==> v == |cells0|)
  }

  // ---------------------------------------------------------------------------
  // Channel-level facts

  lemma ChannelsSnoc(ps: seq<Pixel>, p: Pixel)
    ensures Channels(ps + [p]) == Channels(ps) + [p.r, p.g, p.b]
  {
    assert (ps + [p])[..|ps|] == ps;
  }

  lemma {:induction false} CountTrueAppend(a: seq<bool>, b: seq<bool>)
    ensures CountTrue(a + b) == CountTrue(a) + CountTrue(b)
    decreases |b|
  {
    if b != [] {
      var b' := b[..|b| - 1];
      assert (a + b)[..|a + b| - 1] == a + b';
      CountTrueAppend(a, b');
      assert b[..|b| - 1] == b';
    } else {
      assert a + b == a;
    }
  }

  /** The three calls of one payload pixel add one to the count per true. */
  lemma CountTrueOfPixel(m1: bool, m2: bool, m3: bool)
    ensures CountTrue([m1, m2, m3]) == (if m1 then 1 else 0) + (if m2 then 1 else 0) + (if m3 then 1 else 0)
  {
    assert [m1, m2, m3][..2] == [m1, m2];
    assert [m1, m2][..1] == [m1];
    assert [m1][..0] == [];
    assert CountTrue([m1]) == if m1 then 1 else 0;
    assert CountTrue([m1, m2]) == CountTrue([m1]) + if m2 then 1 else 0;
  }

  lemma {:induction false} CountTrueBound(flags: seq<bool>)
    ensures CountTrue(flags) <= |flags|
    decreases |flags|
  {
    if flags != [] {
      CountTrueBound(flags[..|flags| - 1]);
    }
  }

  lemma AppendThree<T>(s: seq<T>, a: T, b: T, c: T)
    ensures s + [a] + [b] + [c] == s + [a, b, c]
  {
  }

  /** Feed unfolded once at its last input. */
  lemma FeedStep(src0: Source, c: seq<uint8>, v: uint8, seg: SegmentFn)
    ensures Feed(src0, c + [v], seg) ==
      match Feed(src0, c, seg)
      case FeedFailed(e) => FeedFailed(e)
      case Fed(vs, fs, s) =>
        match seg(s, v)
        case SegmentFailed(e) => FeedFailed(ReadError(e))
        case Segment(w, m, s') => Fed(vs + [w], fs + [m], s')
  {
    assert (c + [v])[..|c + [v]| - 1] == c;
  }

  /** Feeding one more pixel's channels is EmbedPixel on the source left by
      the channels before it. */
  lemma FeedPixel(src0: Source, ps: seq<Pixel>, p: Pixel, seg: SegmentFn)
    requires Feed(src0, Channels(ps), seg).Fed?
    ensures
      var f := Feed(src0, Channels(ps), seg);
      Feed(src0, Channels(ps + [p]), seg) ==
        match EmbedPixel(p, f.rest, seg)
        case PixelFailed(e) => FeedFailed(e)
        case PixelDone(q, fl, s) => Fed(f.values + [q.r, q.g, q.b], f.flags + fl, s)
  {
    var c := Channels(ps);
    var f := Feed(src0, c, seg);
    ChannelsSnoc(ps, p);
    var c1, c2 := c + [p.r], c + [p.r] + [p.g];
    assert c + [p.r, p.g, p.b] == c2 + [p.b];
    FeedStep(src0, c, p.r, seg);
    FeedStep(src0, c1, p.g, seg);
    FeedStep(src0, c2, p.b, seg);
    match seg(f.rest, p.r)
    case SegmentFailed(e) =>
      assert Feed(src0, c2, seg) == FeedFailed(ReadError(e));
    case Segment(r, m1, s1) =>
      assert Feed(src0, c1, seg) == Fed(f.values + [r], f.flags + [m1], s1);
      match seg(s1, p.g)
      case SegmentFailed(e) =>
        assert Feed(src0, c2, seg) == FeedFailed(ReadError(e));
      case Segment(g, m2, s2) =>
        assert Feed(src0, c2, seg) == Fed(f.values + [r] + [g], f.flags + [m1] + [m2], s2);
        match seg(s2, p.b)
        case SegmentFailed(e) =>
        case Segment(b, m3, s3) =>
          AppendThree(f.values, r, g, b);
          AppendThree(f.flags, m1, m2, m3);
  }

  // ---------------------------------------------------------------------------
  // The payload scan of Encode

  /** Header skip: while countProcessedBytes < 20 the scan only adds 4 to it,
      so it goes 0, 4, ..., and the first min(5, n) pixels are passed over
      with the image, the source and the count untouched. */
  lemma {:induction false} SkipReservesHeader(cells: seq<Pixel>, i: nat, src: Source, count: nat, seg: SegmentFn)
    requires i <= ReservedPixels(|cells|)
    ensures Scan(cells, i, 4 * i, src, count, seg)
         == Scan(cells, ReservedPixels(|cells|), 4 * ReservedPixels(|cells|), src, count, seg)
    decreases ReservedPixels(|cells|) - i
  {
    if i < ReservedPixels(|cells|) {
      SkipReservesHeader(cells, i + 1, src, count, seg);
    }
  }

  /** After payload pixels h..i-1: only they changed, each carries what
      feeding the original channels through the source gave, and each let the
      scan go on. */
  ghost predicate TraceInv(cells0: seq<Pixel>, h: nat, i: nat, cells: seq<Pixel>,
                           src0: Source, src: Source, flags: seq<bool>, seg: SegmentFn)
  {
    h <= i <= |cells0| == |cells|
    && Untouched(cells0, cells, h, i) && SameAlpha(cells0, cells)
    && Feed(src0, Channels(cells0[h..i]), seg) == Fed(Channels(cells[h..i]), flags, src)
    && (forall j :: 0 <= j < i - h ==> Continues(flags, j))
  }

  /** The scan from payload pixel i on, given that pixels h..i-1 were fed
      and all let the scan continue, ends as ScanExplained says. */
  lemma {:induction false} PayloadTrace(cells0: seq<Pixel>, h: nat, i: nat, cells: seq<Pixel>, processed: int,
                                        src0: Source, src: Source, flags: seq<bool>, seg: SegmentFn)
    requires TraceInv(cells0, h, i, cells, src0, src, flags, seg)
    requires processed >= DataSizeHeaderReservedBytes || i == |cells|
    ensures ScanExplained(cells0, h, src0, seg, Scan(cells, i, processed, src, CountTrue(flags), seg))
    decreases |cells0| - i
  {
    var count := CountTrue(flags);
    if i == |cells| {
      TraceEnd(cells0, h, cells, processed, src0, src, flags, seg);
    } else {
      match EmbedPixel(cells[i], src, seg)
      case PixelFailed(e) =>
        TraceFail(cells0, h, i, cells, processed, src0, src, flags, seg, e);
      case PixelDone(p, fl, s) =>
        PixelStepTrace(cells0, h, i, cells, src0, src, flags, seg, p, fl, s);
        CountTrueAppend(flags, fl);
        if fl[2] {
          PayloadTrace(cells0, h, i + 1, cells[i := p], processed, src0, s, flags + fl, seg);
          ScanContinues(cells0, h, src0, cells, i, processed, src, count, CountTrue(flags + fl), seg, p, fl, s);
        } else {
          TraceStop(cells0, h, i, cells, processed, src0, src, flags, seg, p, fl, s);
        }
    }
  }

  lemma ScanContinues(cells0: seq<Pixel>, h: nat, src0: Source,
                      cells: seq<Pixel>, i: nat, processed: int, src: Source, count: nat, count': nat,
                      seg: SegmentFn, p: Pixel, fl: seq<bool>, s: Source)
    requires h <= |cells0| && i < |cells| && processed >= DataSizeHeaderReservedBytes
    requires EmbedPixel(cells[i], src, seg) == PixelDone(p, fl, s) && fl[2]
    requires count' == count + CountTrue(fl)
    requires ScanExplained(cells0, h, src0, seg, Scan(cells[i := p], i + 1, processed, s, count', seg))
    ensures ScanExplained(cells0, h, src0, seg, Scan(cells, i, processed, src, count, seg))
  {
    assert Scan(cells, i, processed, src, count, seg) == Scan(cells[i := p], i + 1, processed, s, count', seg);
  }

  lemma TraceEnd(cells0: seq<Pixel>, h: nat, cells: seq<Pixel>, processed: int,
                 src0: Source, src: Source, flags: seq<bool>, seg: SegmentFn)
    requires TraceInv(cells0, h, |cells|, cells, src0, src, flags, seg)
    ensures ScanExplained(cells0, h, src0, seg, Scan(cells, |cells|, processed, src, CountTrue(flags), seg))
  {
    var n := |cells|;
    if n > h {
      assert Continues(flags, n - h - 1);
    }
    assert Finished(cells0, h, src0, seg, cells, src, CountTrue(flags), true, n);
  }

  lemma TraceFail(cells0: seq<Pixel>, h: nat, i: nat, cells: seq<Pixel>, processed: int,
                  src0: Source, src: Source, flags: seq<bool>, seg: SegmentFn, e: Error)
    requires TraceInv(cells0, h, i, cells, src0, src, flags, seg)
    requires i < |cells| && processed >= DataSizeHeaderReservedBytes
    requires EmbedPixel(cells[i], src, seg) == PixelFailed(e)
    ensures ScanExplained(cells0, h, src0, seg, Scan(cells, i, processed, src, CountTrue(flags), seg))
  {
    assert cells[i] == cells0[i];
    assert cells0[h..i + 1] == cells0[h..i] + [cells0[i]];
    FeedPixel(src0, cells0[h..i], cells0[i], seg);
    assert FailsAt(cells0, h, i + 1, src0, seg, e);
  }

  lemma TraceStop(cells0: seq<Pixel>, h: nat, i: nat, cells: seq<Pixel>, processed: int,
                  src0: Source, src: Source, flags: seq<bool>, seg: SegmentFn,
                  p: Pixel, fl: seq<bool>, s: Source)
    requires h <= i < |cells0| == |cells| && processed >= DataSizeHeaderReservedBytes
    requires EmbedPixel(cells[i], src, seg) == PixelDone(p, fl, s) && !fl[2]
    requires
      var next := cells[i := p];
      Untouched(cells0, next, h, i + 1) && SameAlpha(cells0, next)
      && Feed(src0, Channels(cells0[h..i + 1]), seg) == Fed(Channels(next[h..i + 1]), flags + fl, s)
      && (forall j :: 0 <= j < i - h ==> Continues(flags + fl, j))
      && (flags + fl)[|flags + fl| - 1] == fl[2]
    requires CountTrue(flags + fl) == CountTrue(flags) + CountTrue(fl)
    ensures ScanExplained(cells0, h, src0, seg, Scan(cells, i, processed, src, CountTrue(flags), seg))
  {
    var next := cells[i := p];
    assert Scan(cells, i, processed, src, CountTrue(flags), seg) == Scanned(next, s, CountTrue(flags + fl), false, i + 1);
    assert Finished(cells0, h, src0, seg, next, s, CountTrue(flags + fl), false, i + 1);
  }

  /** One payload pixel keeps TraceInv, and its blue flag is the last flag. */
  lemma PixelStepTrace(cells0: seq<Pixel>, h: nat, i: nat, cells: seq<Pixel>,
                       src0: Source, src: Source, flags: seq<bool>, seg: SegmentFn,
                       p: Pixel, fl: seq<bool>, s: Source)
    requires TraceInv(cells0, h, i, cells, src0, src, flags, seg) && i < |cells|
    requires EmbedPixel(cells[i], src, seg) == PixelDone(p, fl, s)
    ensures (flags + fl)[|flags + fl| - 1] == fl[2]
    ensures fl[2] ==> TraceInv(cells0, h, i + 1, cells[i := p], src0, s, flags + fl, seg)
    ensures
      var next := cells[i := p];
      Untouched(cells0, next, h, i + 1) && SameAlpha(cells0, next)
      && Feed(src0, Channels(cells0[h..i + 1]), seg) == Fed(Channels(next[h..i + 1]), flags + fl, s)
      && (forall j :: 0 <= j < i - h ==> Continues(flags + fl, j))
  {
    PixelStepFrame(cells0, h, i, cells, p);
    PixelStepFeed(cells0, h, i, cells, src0, src, flags, seg, p, fl, s);
    PixelStepFlags(flags, fl, i - h);
  }

  lemma PixelStepFrame(cells0: seq<Pixel>, h: nat, i: nat, cells: seq<Pixel>, p: Pixel)
    requires h <= i < |cells0| == |cells|
    requires Untouched(cells0, cells, h, i) && SameAlpha(cells0, cells)
    requires p.a == cells[i].a
    ensures Untouched(cells0, cells[i := p], h, i + 1) && SameAlpha(cells0, cells[i := p])
  {
  }

  lemma PixelStepFeed(cells0: seq<Pixel>, h: nat, i: nat, cells: seq<Pixel>,
                      src0: Source, src: Source, flags: seq<bool>, seg: SegmentFn,
                      p: Pixel, fl: seq<bool>, s: Source)
    requires h <= i < |cells0| == |cells|
    requires cells[i] == cells0[i]
    requires Feed(src0, Channels(cells0[h..i]), seg) == Fed(Channels(cells[h..i]), flags, src)
    requires EmbedPixel(cells[i], src, seg) == PixelDone(p, fl, s)
    ensures Feed(src0, Channels(cells0[h..i + 1]), seg) == Fed(Channels(cells[i := p][h..i + 1]), flags + fl, s)
  {
    var next := cells[i := p];
    assert cells0[h..i + 1] == cells0[h..i] + [cells0[i]];
    FeedPixel(src0, cells0[h..i], cells0[i], seg);
    assert next[h..i + 1] == cells[h..i] + [p];
    ChannelsSnoc(cells[h..i], p);
  }

  lemma PixelStepFlags(flags: seq<bool>, fl: seq<bool>, m: nat)
    requires |flags| == 3 * m && |fl| == 3
    requires forall j :: 0 <= j < m ==> Continues(flags, j)
    ensures forall j :: 0 <= j < m ==> Continues(flags + fl, j)
    ensures (flags + fl)[|flags + fl| - 1] == fl[2]
    ensures fl[2] ==> Continues(flags + fl, m)
  {
    forall j | 0 <= j < m
      ensures Continues(flags + fl, j)
    {
      assert Continues(flags, j);
    }
  }

  /** The payload loop's state: running the scan from pixel k on yields goal. */
  ghost predicate ScanPending(cells: seq<Pixel>, k: nat, processed: int, src: Source, count: nat,
                              seg: SegmentFn, goal: Scanned)
  {
    k <= |cells| && Scan(cells, k, processed, src, count, seg) == goal
  }

  /** The invariant of Encode's payload loop: totalNumberBytes is the count of
      true calls modulo 2^32; while more data is expected the scan from pixel k
      on yields goal, and once it is not, goal is the stopped scan. */
  ghost predicate ScanLoop(cells: seq<Pixel>, k: nat, processed: int, src: Source, count: nat,
                           total: uint32, more: bool, seg: SegmentFn, goal: Scanned)
  {
    && total as int == count % Uint32Modulus
    && (more ==> ScanPending(cells, k, processed, src, count, seg, goal))
    && (!more ==> goal == Scanned(cells, src, count, false, k))
  }

  /** A reserved pixel only advances countProcessedBytes. */
  lemma SkipPending(cells: seq<Pixel>, k: nat, processed: int, src: Source, count: nat,
                    total: uint32, seg: SegmentFn, goal: Scanned)
    requires ScanLoop(cells, k, processed, src, count, total, true, seg, goal)
    requires k < |cells| && processed < DataSizeHeaderReservedBytes
    ensures ScanLoop(cells, k + 1, processed + 4, src, count, total, true, seg, goal)
  {
  }

  /** A payload pixel whose calls succeed: the scan goes on from the next
      pixel when the blue call reported more data, and stops there otherwise. */
  lemma PixelPending(cells: seq<Pixel>, k: nat, processed: int, src: Source, count: nat, total: uint32,
                     seg: SegmentFn, goal: Scanned, step: PixelStep, cells': seq<Pixel>, total': uint32)
    requires ScanLoop(cells, k, processed, src, count, total, true, seg, goal)
    requires k < |cells| && processed >= DataSizeHeaderReservedBytes
    requires step == EmbedPixel(cells[k], src, seg) && step.PixelDone?
    requires cells' == cells[k := step.pixel]
    requires total' as int == (count + CountTrue(step.flags)) % Uint32Modulus
    ensures ScanLoop(cells', k + 1, processed, step.rest, count + CountTrue(step.flags), total', step.flags[2], seg, goal)
  {
  }

  /** A payload pixel whose calls fail: so does the scan. */
  lemma PixelFails(cells: seq<Pixel>, k: nat, processed: int, src: Source, count: nat, total: uint32,
                   seg: SegmentFn, goal: Scanned, step: PixelStep)
    requires ScanLoop(cells, k, processed, src, count, total, true, seg, goal)
    requires k < |cells| && processed >= DataSizeHeaderReservedBytes
    requires step == EmbedPixel(cells[k], src, seg) && step.PixelFailed?
    ensures goal == ScanFailed(step.err)
  {
  }

  /** The loop is over: past the last pixel, the scan ends with more data
      still expected. */
  lemma ScanEnd(cells: seq<Pixel>, k: nat, processed: int, src: Source, count: nat, total: uint32,
                more: bool, seg: SegmentFn, goal: Scanned)
    requires ScanLoop(cells, k, processed, src, count, total, more, seg, goal)
    requires more ==> k == |cells|
    ensures goal == Scanned(cells, src, count, more, k)
  {
  }

  /** setDataSizeHeader's loop state: pixels 0..k-1 are stamped, and running
      the loop from pixel k on yields goal. */
  ghost predicate HeaderPending(cells: seq<Pixel>, k: nat, quanta: seq<uint8>, setLow: SetBitsFn, goal: seq<Pixel>)
  {
    k <= |cells| && |quanta| >= 3 * ReservedPixels(|cells|)
    && HeaderFrom(cells, k, 3 * k, quanta, setLow) == goal
  }

  /** setDataSizeHeader's loop over one header pixel. */
  lemma HeaderStep(cells: seq<Pixel>, k: nat, quanta: seq<uint8>, setLow: SetBitsFn, goal: seq<Pixel>)
    requires HeaderPending(cells, k, quanta, setLow, goal) && k < |cells| && 3 * k < HeaderQuanta
    ensures 3 * k + 2 < |quanta|
    ensures HeaderPending(cells[k := Stamp(cells[k], quanta, 3 * k, setLow)], k + 1, quanta, setLow, goal)
  {
  }

  /** setDataSizeHeader's loop ends once the grid or the 15 quanta run out. */
  lemma HeaderDone(cells: seq<Pixel>, k: nat, quanta: seq<uint8>, setLow: SetBitsFn, goal: seq<Pixel>)
    requires HeaderPending(cells, k, quanta, setLow, goal) && (k == |cells| || 3 * k >= HeaderQuanta)
    ensures cells == goal
  {
  }

  /** The whole payload scan of Encode: the first min(5, n) pixels are
      reserved and the payload starts right after them. */
  lemma EncodeScanExplained(cells: seq<Pixel>, src: Source, seg: SegmentFn)
    ensures ScanExplained(cells, ReservedPixels(|cells|), src, seg, EncodeScan(cells, src, seg))
  {
    var h := ReservedPixels(|cells|);
    SkipReservesHeader(cells, 0, src, 0, seg);
    assert cells[h..h] == [];
    assert TraceInv(cells, h, h, cells, src, src, [], seg);
    PayloadTrace(cells, h, h, cells, 4 * h, src, src, [], seg);
  }

  /** totalNumberBytes, before wrap-around, is at most three per visited
      payload pixel, hence at most 3 * (n - 5). */
  lemma CountBound(cells: seq<Pixel>, src: Source, seg: SegmentFn)
    ensures
      var r := EncodeScan(cells, src, seg);
      r.Scanned? ==>
        r.count <= 3 * (r.visited - ReservedPixels(|cells|))
        && r.count <= 3 * (|cells| - ReservedPixels(|cells|))
  {
    var r := EncodeScan(cells, src, seg);
    EncodeScanExplained(cells, src, seg);
    if r.Scanned? {
      var h := ReservedPixels(|cells|);
      CountTrueBound(Feed(src, Channels(cells[h..r.visited]), seg).flags);
    }
  }

  // ---------------------------------------------------------------------------
  // setDataSizeHeader

  lemma {:induction false} HeaderFromLayout(cells0: seq<Pixel>, cells: seq<Pixel>, i: nat,
                                            quanta: seq<uint8>, setLow: SetBitsFn)
    requires |cells| == |cells0| && i <= ReservedPixels(|cells0|)
    requires |quanta| >= 3 * ReservedPixels(|cells0|)
    requires forall k :: 0 <= k < i ==> cells[k] == Stamp(cells0[k], quanta, 3 * k, setLow)
    requires forall k :: i <= k < |cells| ==> cells[k] == cells0[k]
    ensures
      var r := HeaderFrom(cells, i, 3 * i, quanta, setLow);
      |r| == |cells0|
      && (forall k :: 0 <= k < ReservedPixels(|cells0|) ==> r[k] == Stamp(cells0[k], quanta, 3 * k, setLow))
      && (forall k :: ReservedPixels(|cells0|) <= k < |cells0| ==> r[k] == cells0[k])
    decreases |cells0| - i
  {
    if i < ReservedPixels(|cells0|) {
      var next := cells[i := Stamp(cells[i], quanta, 3 * i, setLow)];
      HeaderFromLayout(cells0, next, i + 1, quanta, setLow);
    }
  }

  /** setDataSizeHeader stamps exactly the first min(5, n) pixels in scan
      order, the k-th with quanta 3k, 3k+1, 3k+2, and leaves the rest alone. */
  lemma HeaderLayout(cells: seq<Pixel>, quanta: seq<uint8>, setLow: SetBitsFn)
    requires |quanta| >= 3 * ReservedPixels(|cells|)
    ensures
      var r := HeaderWrite(cells, quanta, setLow);
      |r| == |cells|
      && (forall k :: 0 <= k < ReservedPixels(|cells|) ==> r[k] == Stamp(cells[k], quanta, 3 * k, setLow))
      && (forall k :: ReservedPixels(|cells|) <= k < |cells| ==> r[k] == cells[k])
  {
    HeaderFromLayout(cells, cells, 0, quanta, setLow);
  }

  /** Only the first 3 * min(5, n) quanta are read: in particular entries 15
      and beyond of the quarter sequence never reach the image. */
  lemma HeaderIgnoresTail(cells: seq<Pixel>, q1: seq<uint8>, q2: seq<uint8>, setLow: SetBitsFn)
    requires |q1| >= 3 * ReservedPixels(|cells|) && |q2| >= 3 * ReservedPixels(|cells|)
    requires q1[..3 * ReservedPixels(|cells|)] == q2[..3 * ReservedPixels(|cells|)]
    ensures HeaderWrite(cells, q1, setLow) == HeaderWrite(cells, q2, setLow)
  {
    var n := ReservedPixels(|cells|);
    HeaderLayout(cells, q1, setLow);
    HeaderLayout(cells, q2, setLow);
    forall k | 0 <= k < n
      ensures Stamp(cells[k], q1, 3 * k, setLow) == Stamp(cells[k], q2, 3 * k, setLow)
    {
      assert q1[3 * k] == q1[..3 * n][3 * k] == q2[3 * k];
      assert q1[3 * k + 1] == q1[..3 * n][3 * k + 1] == q2[3 * k + 1];
      assert q1[3 * k + 2] == q1[..3 * n][3 * k + 2] == q2[3 * k + 2];
    }
  }

  // ---------------------------------------------------------------------------
  // Skip and header agree

  /** The header is written on exactly the pixels the scan reserved: each
      header pixel is the original carrier pixel with only its header quanta
      stamped in (the payload never touched it), every payload pixel keeps
      what the scan wrote, and no alpha value changes. */
  lemma HeaderLandsOnReservedPixels(cells0: seq<Pixel>, src0: Source, seg: SegmentFn,
                                    quanta: seq<uint8>, setLow: SetBitsFn)
    requires |quanta| >= 3 * ReservedPixels(|cells0|)
    ensures
      var r := EncodeScan(cells0, src0, seg);
      r.Scanned? ==>
        var out := HeaderWrite(r.cells, quanta, setLow);
        |out| == |cells0|
        && (forall k :: 0 <= k < ReservedPixels(|cells0|) ==> out[k] == Stamp(cells0[k], quanta, 3 * k, setLow))
        && (forall k :: ReservedPixels(|cells0|) <= k < |cells0| ==> out[k] == r.cells[k])
        && (forall k :: 0 <= k < |cells0| ==> out[k].a == cells0[k].a)
  {
    var r := EncodeScan(cells0, src0, seg);
    EncodeScanExplained(cells0, src0, seg);
    if r.Scanned? {
      HeaderLayout(r.cells, quanta, setLow);
    }
  }

  // ---------------------------------------------------------------------------
  // Encode as a whole

  /** What Encode hands to the PNG encoder: the header pixels are the original
      carrier pixels stamped with the quarters of totalNumberBytes (the count of
      true calls modulo 2^32), and the other pixels are exactly what the payload
      scan left, as ScanExplained describes it. Encode produces output exactly
      when the scan succeeds, the probe finds no byte left and the carrier is a
      png or jpeg. */
  lemma EncodeOutputLayout(cells: seq<Pixel>, data: seq<uint8>, format: string, probeReceived: bool,
                           seg: SegmentFn, setLow: SetBitsFn, quarters: QuartersFn)
    requires forall t: uint32 :: |quarters(t)| >= HeaderQuanta
    ensures
      var r := EncodeScan(cells, Source(data, 0), seg);
      var o := EncodeCells(cells, data, format, probeReceived, seg, setLow, quarters);
      var h := ReservedPixels(|cells|);
      && (o.Output? <==> r.Scanned? && !probeReceived && (format == "png" || format == "jpeg"))
      && (o.Output? ==>
            && Finished(cells, h, Source(data, 0), seg, r.cells, r.rest, r.count, r.more, r.visited)
            && |o.cells| == |cells|
            && (forall k :: 0 <= k < h ==>
                  o.cells[k] == Stamp(cells[k], quarters((r.count % Uint32Modulus) as uint32), 3 * k, setLow))
            && (forall k :: h <= k < |cells| ==> o.cells[k] == r.cells[k]))
  {
    var r := EncodeScan(cells, Source(data, 0), seg);
    EncodeScanExplained(cells, Source(data, 0), seg);
    if r.Scanned? {
      var quanta := quarters((r.count % Uint32Modulus) as uint32);
      HeaderLandsOnReservedPixels(cells, Source(data, 0), seg, quanta, setLow);
    }
  }

  /** The scan can only fail with an error of the payload reader. */
  lemma {:induction false} ScanFailsOnlyOnRead(cells: seq<Pixel>, i: nat, processed: int, src: Source,
                                               count: nat, seg: SegmentFn)
    requires i <= |cells|
    ensures Scan(cells, i, processed, src, count, seg).ScanFailed? ==>
              Scan(cells, i, processed, src, count, seg).err.ReadError?
    decreases |cells| - i
  {
    if i < |cells| {
      if processed < DataSizeHeaderReservedBytes {
        ScanFailsOnlyOnRead(cells, i + 1, processed + 4, src, count, seg);
      } else {
        match EmbedPixel(cells[i], src, seg)
        case PixelFailed(e) =>
        case PixelDone(p, flags, s) =>
          if flags[2] {
            ScanFailsOnlyOnRead(cells[i := p], i + 1, processed, s, count + CountTrue(flags), seg);
          }
      }
    }
  }

  /** Each refusal of Encode names its cause: a reader error comes from the
      payload scan, TooLarge only from the probe after a successful scan, and
      UnsupportedFormat only from a carrier that is neither png nor jpeg. */
  lemma EncodeRefusalCause(cells: seq<Pixel>, data: seq<uint8>, format: string, probeReceived: bool,
                           seg: SegmentFn, setLow: SetBitsFn, quarters: QuartersFn)
    requires forall t: uint32 :: |quarters(t)| >= HeaderQuanta
    ensures
      var r := EncodeScan(cells, Source(data, 0), seg);
      var o := EncodeCells(cells, data, format, probeReceived, seg, setLow, quarters);
      && (o.Refused? && o.err.ReadError? <==> r.ScanFailed?)
      && (o == Refused(TooLarge) <==> r.Scanned? && probeReceived)
      && (o == Refused(UnsupportedFormat) <==> r.Scanned? && !probeReceived && format != "png" && format != "jpeg")
  {
    ScanFailsOnlyOnRead(cells, 0, 0, Source(data, 0), 0, seg);
  }

  /** totalNumberBytes cannot wrap around on a carrier of fewer than 2^32 / 3
      pixels: the header then records the exact number of true calls. */
  lemma CountFitsUint32(cells: seq<Pixel>, src: Source, seg: SegmentFn)
    requires 3 * |cells| < Uint32Modulus
    ensures
      var r := EncodeScan(cells, src, seg);
      r.Scanned? ==> r.count % Uint32Modulus == r.count
  {
    CountBound(cells, src, seg);
  }
}
