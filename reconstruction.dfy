/** The fresco reconstruction: every fragment is pasted onto the canvas at its
    position, clipped to the canvas, copying only its visible pixels; later
    fragments cover earlier ones. */
module Reconstruction {
  import opened Pixels

  /** A fragment to paste: its index, the canvas column and row of its centre,
      and its (already rotated) image, rows by columns. */
  datatype Fragment = Fragment(id: int, x: int, y: int, img: array2<Pixel>)

  /** An axis-aligned rectangle: left column, top row, width and height. */
  datatype Rect = Rect(x: int, y: int, width: int, height: int)
  {
    predicate Contains(row: int, column: int)
    {
      y <= row < y + height && x <= column < x + width
    }

    /** The rectangle is a valid region of an image rows by columns. */
    predicate InsideOf(rows: nat, columns: nat)
    {
      0 <= x && 0 <= width && x + width <= columns && 0 <= y && 0 <= height && y + height <= rows
    }
  }

  function Min(a: int, b: int): int
  {
    if a <= b then a else b
  }

  function Max(a: int, b: int): int
  {
    if a >= b then a else b
  }

  // ---------------------------------------------------------------------------
  // Clipping

  /** Where a fragment rows by columns centred at (x, y) lands on the canvas,
      before clipping. */
  function Footprint(x: int, y: int, rows: nat, columns: nat): (f: Rect)
    ensures f.width == columns && f.height == rows
    ensures rows > 0 && columns > 0 ==> f.Contains(y, x)
    ensures f.Contains(y, x) ==> f.y + rows / 2 == y && f.x + columns / 2 == x
  {
    Rect(x - columns / 2, y - rows / 2, columns, rows)
  }

  /** The common part of two rectangles (negative sizes when they are apart). */
  function Intersection(a: Rect, b: Rect): (r: Rect)
    ensures forall row, column :: r.Contains(row, column) <==> a.Contains(row, column) && b.Contains(row, column)
  {
    var left := Max(a.x, b.x);
    var top := Max(a.y, b.y);
    Rect(left, top, Min(a.x + a.width, b.x + b.width) - left, Min(a.y + a.height, b.y + b.height) - top)
  }

  /** The clipped destination on the canvas and the matching source region of
      the fragment: the footprint cut to the canvas, and the same rectangle in
      the fragment's own coordinates. */
  function Clip(x: int, y: int, rows: nat, columns: nat, canvasRows: nat, canvasColumns: nat): (clipped: (Rect, Rect))
    ensures forall row, column :: clipped.0.Contains(row, column) <==>
              Footprint(x, y, rows, columns).Contains(row, column) && 0 <= row < canvasRows && 0 <= column < canvasColumns
    ensures forall row, column :: clipped.0.Contains(row, column) <==>
              clipped.1.Contains(row - Footprint(x, y, rows, columns).y, column - Footprint(x, y, rows, columns).x)
  {
    var footprint := Footprint(x, y, rows, columns);
    var roi := Intersection(footprint, Rect(0, 0, canvasColumns, canvasRows));
    (roi, Rect(roi.x - footprint.x, roi.y - footprint.y, roi.width, roi.height))
  }

  /** The clipping steps: start from the footprint with width and height cut
      at the right and bottom canvas edges, then shift what sticks out on the
      left or top into the fragment offsets. */
  method ClipFragment(x: int, y: int, rows: nat, columns: nat, canvasRows: nat, canvasColumns: nat)
    returns (roi: Rect, source: Rect)
    ensures (roi, source) == Clip(x, y, rows, columns, canvasRows, canvasColumns)
  {
    var fragRoiX, fragRoiY := 0, 0;
    var roiX := x - columns / 2;
    var roiY := y - rows / 2;
    var roiW := Min(columns, canvasColumns - roiX);
    var roiH := Min(rows, canvasRows - roiY);
    if roiX < 0 {
      roiW := roiW + roiX;
      fragRoiX := -roiX;
      roiX := 0;
    }
    if roiY < 0 {
      roiH := roiH + roiY;
      fragRoiY := -roiY;
      roiY := 0;
    }
    roi := Rect(roiX, roiY, roiW, roiH);
    source := Rect(fragRoiX, fragRoiY, roiW, roiH);
  }

  /** The clipped destination lies inside the canvas and the source inside the
      fragment, with the same size, whenever the sizes are not negative. */
  lemma ClipBounds(x: int, y: int, rows: nat, columns: nat, canvasRows: nat, canvasColumns: nat)
    ensures var (roi, source) := Clip(x, y, rows, columns, canvasRows, canvasColumns);
            && 0 <= roi.x && roi.x + roi.width <= canvasColumns
            && 0 <= roi.y && roi.y + roi.height <= canvasRows
            && 0 <= source.x && source.x + source.width <= columns
            && 0 <= source.y && source.y + source.height <= rows
            && source.width == roi.width && source.height == roi.height
  {
  }

  /** A fragment that lies fully on the canvas is not clipped. */
  lemma NoClipInside(x: int, y: int, rows: nat, columns: nat, canvasRows: nat, canvasColumns: nat)
    requires Footprint(x, y, rows, columns).InsideOf(canvasRows, canvasColumns)
    ensures Clip(x, y, rows, columns, canvasRows, canvasColumns)
            == (Footprint(x, y, rows, columns), Rect(0, 0, columns, rows))
  {
  }

  /** The footprint touches the canvas (possibly along an edge only). */
  predicate Touches(x: int, y: int, rows: nat, columns: nat, canvasRows: nat, canvasColumns: nat)
  {
    var footprint := Footprint(x, y, rows, columns);
    footprint.x <= canvasColumns && footprint.x + columns >= 0 && footprint.y <= canvasRows && footprint.y + rows >= 0
  }

  /** The clipped sizes are never negative exactly when the footprint touches
      the canvas, and both are positive exactly when it overlaps it. */
  lemma ClipSizes(x: int, y: int, rows: nat, columns: nat, canvasRows: nat, canvasColumns: nat)
    ensures var (roi, source) := Clip(x, y, rows, columns, canvasRows, canvasColumns);
            var footprint := Footprint(x, y, rows, columns);
            && (roi.width >= 0 && roi.height >= 0 <==> Touches(x, y, rows, columns, canvasRows, canvasColumns))
            && (roi.width > 0 && roi.height > 0 <==>
                  footprint.x < canvasColumns && footprint.x + columns > 0 && footprint.y < canvasRows && footprint.y + rows > 0
                  && columns > 0 && rows > 0 && canvasColumns > 0 && canvasRows > 0)
  {
  }

  /** A clipped, non-negative result gives valid regions of both images. */
  lemma ClipRegions(x: int, y: int, rows: nat, columns: nat, canvasRows: nat, canvasColumns: nat)
    requires Touches(x, y, rows, columns, canvasRows, canvasColumns)
    ensures var (roi, source) := Clip(x, y, rows, columns, canvasRows, canvasColumns);
            roi.InsideOf(canvasRows, canvasColumns) && source.InsideOf(rows, columns)
  {
    ClipBounds(x, y, rows, columns, canvasRows, canvasColumns);
    ClipSizes(x, y, rows, columns, canvasRows, canvasColumns);
  }

  // ---------------------------------------------------------------------------
  // The mask

  /** The mask byte for an alpha value: 1 for a visible pixel, 0 otherwise. */
  function MaskBit(alpha: byte): (bit: byte)
    ensures bit == 1 <==> Visible(alpha)
    ensures bit == 0 <==> !Visible(alpha)
  {
    if alpha > VisibleAbove then 1 else 0
  }

  /** The alpha channel of a region of the fragment, as a fresh mask. */
  method AlphaMask(frag: array2<Pixel>, source: Rect) returns (mask: array2<byte>)
    requires source.InsideOf(frag.Length0, frag.Length1)
    ensures fresh(mask) && mask.Length0 == source.height && mask.Length1 == source.width
    ensures forall i, j | 0 <= i < source.height && 0 <= j < source.width :: mask[i, j] == frag[source.y + i, source.x + j].alpha
  {
    mask := new byte[source.height, source.width]((i, j) reads frag
                                                   requires 0 <= i < source.height && 0 <= j < source.width =>
                                                   frag[source.y + i, source.x + j].alpha);
  }

  /** Overwrites every mask byte with its mask bit, in place. */
  method ThresholdMask(mask: array2<byte>)
    modifies mask
    ensures forall i, j | 0 <= i < mask.Length0 && 0 <= j < mask.Length1 :: mask[i, j] == MaskBit(old(mask[i, j]))
  {
    var i := 0;
    while i < mask.Length0
      invariant 0 <= i <= mask.Length0
      invariant forall i', j' | 0 <= i' < mask.Length0 && 0 <= j' < mask.Length1 ::
                  mask[i', j'] == if i' < i then MaskBit(old(mask[i', j'])) else old(mask[i', j'])
    {
      var j := 0;
      while j < mask.Length1
        invariant 0 <= j <= mask.Length1
        invariant forall i', j' | 0 <= i' < mask.Length0 && 0 <= j' < mask.Length1 ::
                    mask[i', j'] == if i' < i || (i' == i && j' < j) then MaskBit(old(mask[i', j'])) else old(mask[i', j'])
      {
        mask[i, j] := MaskBit(mask[i, j]);
        j := j + 1;
      }
      i := i + 1;
    }
  }

  // ---------------------------------------------------------------------------
  // The masked copy

  /** The canvas pixel at (row, column) after copying the source region of the
      fragment onto roi through the mask. */
  ghost function MaskedPixel(under: Pixel, frag: array2<Pixel>, source: Rect, mask: array2<byte>, roi: Rect, row: int, column: int): Pixel
    reads frag, mask
    requires source.InsideOf(frag.Length0, frag.Length1) && mask.Length0 == roi.height == source.height
    requires mask.Length1 == roi.width == source.width
  {
    if roi.Contains(row, column) && mask[row - roi.y, column - roi.x] != 0
    then frag[source.y + row - roi.y, source.x + column - roi.x]
    else under
  }

  /** Copies the source region of the fragment onto roi, where the mask is not zero. */
  method CopyMasked(frag: array2<Pixel>, source: Rect, mask: array2<byte>, canvas: array2<Pixel>, roi: Rect)
    requires canvas != frag
    requires source.InsideOf(frag.Length0, frag.Length1) && roi.InsideOf(canvas.Length0, canvas.Length1)
    requires mask.Length0 == roi.height == source.height && mask.Length1 == roi.width == source.width
    modifies canvas
    ensures forall i, j | 0 <= i < canvas.Length0 && 0 <= j < canvas.Length1 ::
              canvas[i, j] == MaskedPixel(old(canvas[i, j]), frag, source, mask, roi, i, j)
  {
    var i := 0;
    while i < roi.height
      invariant 0 <= i <= roi.height
      invariant forall i', j' | 0 <= i' < canvas.Length0 && 0 <= j' < canvas.Length1 ::
                  canvas[i', j'] == if i' < roi.y + i then MaskedPixel(old(canvas[i', j']), frag, source, mask, roi, i', j') else old(canvas[i', j'])
    {
      var j := 0;
      while j < roi.width
        invariant 0 <= j <= roi.width
        invariant forall i', j' | 0 <= i' < canvas.Length0 && 0 <= j' < canvas.Length1 ::
                    canvas[i', j'] == if i' < roi.y + i || (i' == roi.y + i && j' < roi.x + j)
                                      then MaskedPixel(old(canvas[i', j']), frag, source, mask, roi, i', j')
                                      else old(canvas[i', j'])
      {
        if mask[i, j] != 0 {
          canvas[roi.y + i, roi.x + j] := frag[source.y + i, source.x + j];
        }
        j := j + 1;
      }
      i := i + 1;
    }
  }

  // ---------------------------------------------------------------------------
  // One fragment, and all of them

  /** The canvas pixel at (row, column) after pasting f on top of under: the
      fragment's pixel where its footprint covers the spot with a visible
      pixel, under otherwise. */
  ghost function Pasted(under: Pixel, f: Fragment, canvasRows: nat, canvasColumns: nat, row: int, column: int): Pixel
    reads f.img
  {
    var footprint := Footprint(f.x, f.y, f.img.Length0, f.img.Length1);
    if 0 <= row < canvasRows && 0 <= column < canvasColumns && footprint.Contains(row, column)
       && Visible(f.img[row - footprint.y, column - footprint.x].alpha)
    then f.img[row - footprint.y, column - footprint.x]
    else under
  }

  /** The body of the fragment loop: clip, extract and threshold the mask,
      copy through it. */
  method PasteFragment(canvas: array2<Pixel>, f: Fragment)
    requires f.img != canvas
    requires Touches(f.x, f.y, f.img.Length0, f.img.Length1, canvas.Length0, canvas.Length1)
    modifies canvas
    ensures forall i, j | 0 <= i < canvas.Length0 && 0 <= j < canvas.Length1 ::
              canvas[i, j] == Pasted(old(canvas[i, j]), f, canvas.Length0, canvas.Length1, i, j)
  {
    var roi, source := ClipFragment(f.x, f.y, f.img.Length0, f.img.Length1, canvas.Length0, canvas.Length1);
    ClipRegions(f.x, f.y, f.img.Length0, f.img.Length1, canvas.Length0, canvas.Length1);
    var mask := AlphaMask(f.img, source);
    ThresholdMask(mask);
    CopyMasked(f.img, source, mask, canvas, roi);
    forall i, j | 0 <= i < canvas.Length0 && 0 <= j < canvas.Length1
      ensures MaskedPixel(old(canvas[i, j]), f.img, source, mask, roi, i, j)
              == Pasted(old(canvas[i, j]), f, canvas.Length0, canvas.Length1, i, j)
    {
      var footprint := Footprint(f.x, f.y, f.img.Length0, f.img.Length1);
      if roi.Contains(i, j) {
        assert mask[i - roi.y, j - roi.x] == MaskBit(f.img[i - footprint.y, j - footprint.x].alpha);
      }
    }
  }

  /** The images of a list of fragments. */
  ghost function Images(fragments: seq<Fragment>): set<array2<Pixel>>
  {
    set k | 0 <= k < |fragments| :: fragments[k].img
  }

  /** The canvas pixel at (row, column) after pasting the fragments in order
      on top of under. */
  ghost function Composite(under: Pixel, fragments: seq<Fragment>, canvasRows: nat, canvasColumns: nat, row: int, column: int): Pixel
    reads Images(fragments)
  {
    if fragments == [] then under
    else
      var last := fragments[|fragments| - 1];
      assert last.img in Images(fragments);
      assert Images(fragments[..|fragments| - 1]) <= Images(fragments);
      Pasted(Composite(under, fragments[..|fragments| - 1], canvasRows, canvasColumns, row, column), last, canvasRows, canvasColumns, row, column)
  }

  /** The fragment loop: paste every fragment in list order. */
  method Reconstruct(canvas: array2<Pixel>, fragments: seq<Fragment>)
    requires forall k | 0 <= k < |fragments| :: fragments[k].img != canvas
    requires forall k | 0 <= k < |fragments| ::
               Touches(fragments[k].x, fragments[k].y, fragments[k].img.Length0, fragments[k].img.Length1, canvas.Length0, canvas.Length1)
    modifies canvas
    ensures forall i, j | 0 <= i < canvas.Length0 && 0 <= j < canvas.Length1 ::
              canvas[i, j] == Composite(old(canvas[i, j]), fragments, canvas.Length0, canvas.Length1, i, j)
  {
    var k := 0;
    while k < |fragments|
      invariant 0 <= k <= |fragments|
      invariant forall i, j | 0 <= i < canvas.Length0 && 0 <= j < canvas.Length1 ::
                  canvas[i, j] == Composite(old(canvas[i, j]), fragments[..k], canvas.Length0, canvas.Length1, i, j)
    {
      assert canvas !in Images(fragments[..k]);
      PasteFragment(canvas, fragments[k]);
      assert fragments[..k + 1][..k] == fragments[..k];
      k := k + 1;
    }
    assert fragments[..k] == fragments;
  }

  /** Where the last fragment shows a visible pixel, the canvas shows that
      pixel, whatever came before. */
  lemma LaterFragmentWins(under: Pixel, fragments: seq<Fragment>, canvasRows: nat, canvasColumns: nat, row: int, column: int)
    requires |fragments| > 0
    requires var last := fragments[|fragments| - 1];
             var footprint := Footprint(last.x, last.y, last.img.Length0, last.img.Length1);
             0 <= row < canvasRows && 0 <= column < canvasColumns && footprint.Contains(row, column)
             && Visible(last.img[row - footprint.y, column - footprint.x].alpha)
    ensures var last := fragments[|fragments| - 1];
            var footprint := Footprint(last.x, last.y, last.img.Length0, last.img.Length1);
            Composite(under, fragments, canvasRows, canvasColumns, row, column) == last.img[row - footprint.y, column - footprint.x]
  {
  }

  /** A canvas pixel that no fragment shows a visible pixel at keeps its value. */
  lemma {:induction false} UncoveredPixelUnchanged(under: Pixel, fragments: seq<Fragment>, canvasRows: nat, canvasColumns: nat, row: int, column: int)
    requires forall k | 0 <= k < |fragments| :: Pasted(under, fragments[k], canvasRows, canvasColumns, row, column) == under
    ensures Composite(under, fragments, canvasRows, canvasColumns, row, column) == under
  {
    if fragments != [] {
      var n := |fragments| - 1;
      var earlier := fragments[..n];
      assert forall k | 0 <= k < n :: earlier[k] == fragments[k];
      UncoveredPixelUnchanged(under, earlier, canvasRows, canvasColumns, row, column);
    }
  }
}
