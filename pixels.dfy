/** The carrier image as the encoder sees it: Go's `image.RGBA`, viewed as a
    W x H grid of 8-bit RGBA records indexed by (x, y). The byte layout of
    `image.RGBA` (its `Pix` slice and `Stride`) is abstracted away; only the
    accessors `RGBAAt` and `SetRGBA` are modelled. */
module Pixels {

  newtype uint8 = x: int | 0 <= x < 0x100
  newtype uint32 = x: int | 0 <= x < 0x1_0000_0000

  const Uint32Modulus: int := 0x1_0000_0000

  datatype Pixel = Pixel(r: uint8, g: uint8, b: uint8, a: uint8)

  const Transparent := Pixel(0, 0, 0, 0)

  /** offset lists where each column of height h starts in scan order (x outer,
      y inner): column i + 1 starts h pixels after column i. */
  ghost predicate ColumnStarts(offset: seq<int>, h: nat)
  {
    |offset| > 0 && offset[0] == 0
    && forall i :: 0 <= i < |offset| - 1 ==> offset[i + 1] == offset[i] + h
  }

  /** Column starts are h * (column number). */
  lemma {:induction false} ColumnStartValue(offset: seq<int>, h: nat, i: nat)
    requires ColumnStarts(offset, h) && i < |offset|
    ensures offset[i] == i * h
  {
    if i > 0 {
      ColumnStartValue(offset, h, i - 1);
    }
  }

  /** An earlier column ends before a later one starts. */
  lemma {:induction false} ColumnsApart(offset: seq<int>, h: nat, i: nat, x: nat)
    requires ColumnStarts(offset, h) && i < x < |offset|
    ensures offset[i] + h <= offset[x]
    decreases x - i
  {
    if i + 1 < x {
      ColumnsApart(offset, h, i + 1, x);
    }
  }

  /** The first w columns of pixels appear in cells in scan order: column i
      occupies cells[offset[i] .. offset[i] + height). */
  ghost predicate ScanLayout(pixels: array2<Pixel>, offset: seq<int>, cells: seq<Pixel>, w: int)
    requires 0 <= w <= pixels.Length0 && |offset| == w + 1
    reads pixels
  {
    (forall i :: 0 <= i < w ==> 0 <= offset[i] && offset[i] + pixels.Length1 <= |cells|)
    && forall i, j :: 0 <= i < w && 0 <= j < pixels.Length1 ==> cells[offset[i] + j] == pixels[i, j]
  }

  class RGBAImage {
    /** pix[x, y] is the pixel in column x and row y. */
    const pix: array2<Pixel>
    /** Offset[x] is the scan index of pixel (x, 0); Offset[W] is the pixel count. */
    ghost const Offset: seq<int>
    /** The pixels in the order the encoder visits them: x outer, y inner. */
    ghost var Cells: seq<Pixel>

    ghost predicate Valid()
      reads this, pix
    {
      |Offset| == pix.Length0 + 1 && ColumnStarts(Offset, pix.Length1)
      && |Cells| == Offset[pix.Length0]
      && ScanLayout(pix, Offset, Cells, pix.Length0)
    }

    constructor (pixels: array2<Pixel>)
      ensures pix == pixels && Valid()
      ensures forall x :: 0 <= x <= Width() ==> Offset[x] == x * Height()
    {
      var w, h := pixels.Length0, pixels.Length1;
      ghost var offset: seq<int> := [0];
      ghost var cells: seq<Pixel> := [];
      for x := 0 to w
        invariant |offset| == x + 1 && ColumnStarts(offset, h) && |cells| == offset[x]
        invariant ScanLayout(pixels, offset, cells, x)
      {
        forall i | 0 <= i < x
          ensures offset[i] + h <= offset[x]
        {
          ColumnsApart(offset, h, i, x);
        }
        ghost var column := seq(h, j requires 0 <= j < h reads pixels => pixels[x, j]);
        ghost var before, starts := cells, offset;
        cells := cells + column;
        offset := offset + [|cells|];
        assert ColumnStarts(offset, h) by {
          assert offset[x + 1] == offset[x] + h;
        }
        forall i, j | 0 <= i < x + 1 && 0 <= j < h
          ensures cells[offset[i] + j] == pixels[i, j]
        {
          assert offset[i] == starts[i];
          if i < x {
            assert before[starts[i] + j] == pixels[i, j];
          } else {
            assert cells[offset[i] + j] == column[j];
          }
        }
      }
      forall x | 0 <= x <= w
        ensures offset[x] == x * h
      {
        ColumnStartValue(offset, h, x);
      }
      pix := pixels;
      Offset := offset;
      Cells := cells;
    }

    function Width(): nat { pix.Length0 }

    function Height(): nat { pix.Length1 }

    predicate InBounds(x: int, y: int) {
      0 <= x < pix.Length0 && 0 <= y < pix.Length1
    }

    /** `RGBAAt`: the pixel at (x, y); the zero colour outside the image. */
    function RGBAAt(x: int, y: int): Pixel
      reads pix
    {
      if InBounds(x, y) then pix[x, y] else Transparent
    }

    /** Pixel (x, y) is the cell Offset[x] + y of the scan. */
    lemma ScanCell(x: int, y: int)
      requires Valid() && InBounds(x, y)
      ensures 0 <= Offset[x] + y < |Cells| && RGBAAt(x, y) == Cells[Offset[x] + y]
    {
    }

    /** `SetRGBA`: stores c at (x, y); a position outside the image is ignored.
        In scan order this replaces exactly the cell Offset[x] + y. */
    method SetRGBA(x: int, y: int, c: Pixel)
      requires Valid()
      modifies this, pix
      ensures Valid()
      ensures InBounds(x, y) ==> 0 <= Offset[x] + y < |old(Cells)| && Cells == old(Cells)[Offset[x] + y := c]
      ensures !InBounds(x, y) ==> Cells == old(Cells)
      ensures RGBAAt(x, y) == if InBounds(x, y) then c else Transparent
    {
      if InBounds(x, y) {
        ScanCell(x, y);
        pix[x, y] := c;
        Cells := Cells[Offset[x] + y := c];
        forall i, j | 0 <= i < pix.Length0 && 0 <= j < pix.Length1
          ensures Cells[Offset[i] + j] == pix[i, j]
        {
          if i < x {
            ColumnsApart(Offset, pix.Length1, i, x);
          } else if x < i {
            ColumnsApart(Offset, pix.Length1, x, i);
          }
          if (i, j) != (x, y) {
            assert pix[i, j] == old(pix[i, j]);
          }
        }
      }
    }
  }
}
