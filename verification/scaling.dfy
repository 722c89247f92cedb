/**
 The print-resolution rule shared by "Save Frame" and the bookmark export: a frame is
 resampled so that its long edge covers ten inches at 300 DPI, and is never shrunk. The
 factor is `max(1, 3000 / max(width, height))` and each new dimension is the product
 truncated toward zero; on exact rationals that is integer floor division.
 */
module Scaling {
  import opened Media
  import opened Arith

  /** Dots per inch of the written TIFF files. */
  const PrintDpi: int := 300
  /** Length in inches of the printed long edge. */
  const PrintInches: int := 10
  /** The long edge, in pixels, a small frame is scaled up to. */
  const PrintLongEdge: int := PrintDpi * PrintInches

  datatype Size = Size(width: Extent, height: Extent)

  function LongEdge(width: Extent, height: Extent): Extent
  {
    if width >= height then width else height
  }

  /** The real-valued factor `max(1, 3000 / max(width, height))`. */
  function ScaleFactor(width: Extent, height: Extent): real
  {
    var f := (PrintLongEdge as real) / (LongEdge(width, height) as real);
    if 1.0 >= f then 1.0 else f
  }

  /** The pixel size a frame of the given size is resampled to before it is written. */
  function PrintSize(width: Extent, height: Extent): (r: Size)
    ensures r.width >= width && r.height >= height
    ensures LongEdge(width, height) >= PrintLongEdge ==> r == Size(width, height)
    ensures LongEdge(width, height) < PrintLongEdge ==> LongEdge(r.width, r.height) == PrintLongEdge
  {
    var m := LongEdge(width, height);
    if m >= PrintLongEdge then Size(width, height)
    else
      ScaleUp(width, m);
      ScaleUp(height, m);
      ScaleOwnEdge(m);
      Size(width * PrintLongEdge / m, height * PrintLongEdge / m)
  }

  /** Scaling an edge by 3000/m with m below 3000 does not shrink it, and keeps it within 3000. */
  lemma {:induction false} ScaleUp(e: Extent, m: Extent)
    requires e <= m < PrintLongEdge
    ensures e <= e * PrintLongEdge / m <= PrintLongEdge
  {
    assert e * m <= e * PrintLongEdge;
    FloorLower(e * PrintLongEdge, m, e);
    assert e * PrintLongEdge <= m * PrintLongEdge;
    FloorUpper(e * PrintLongEdge, m, PrintLongEdge);
  }

  lemma {:induction false} ScaleOwnEdge(m: Extent)
    ensures m * PrintLongEdge / m == PrintLongEdge
  {
    FloorExact(PrintLongEdge, m);
  }

  /**
   The picture written for a frame: its Lanczos resample to print size. Its long edge is the
   frame's long edge or 3000 pixels (ten inches at 300 DPI), whichever is larger.
   */
  function Resampled(f: Frame): (p: Picture)
    ensures p.Lanczos? && p.frame == f
    ensures Size(p.width, p.height) == PrintSize(f.width, f.height)
    ensures p.width >= f.width && p.height >= f.height
    ensures LongEdge(p.width, p.height) ==
              if LongEdge(f.width, f.height) >= PrintLongEdge then LongEdge(f.width, f.height) else PrintLongEdge
  {
    var size := PrintSize(f.width, f.height);
    Lanczos(f, size.width, size.height)
  }

  /**
   Below the print size every new edge is the truncation of its exact proportional value:
   `new * m <= edge * 3000 < (new + 1) * m`, so the aspect ratio is kept up to less than one pixel.
   */
  lemma {:induction false} PrintSizeTruncates(width: Extent, height: Extent)
    requires LongEdge(width, height) < PrintLongEdge
    ensures var m := LongEdge(width, height);
            var r := PrintSize(width, height);
            && r.width * m <= width * PrintLongEdge < (r.width + 1) * m
            && r.height * m <= height * PrintLongEdge < (r.height + 1) * m
  {
    var m := LongEdge(width, height);
    FloorBracket(width * PrintLongEdge, m);
    FloorBracket(height * PrintLongEdge, m);
  }

  /**
   The integer result agrees with the real-valued computation of the application: each new
   edge is the real product `edge * ScaleFactor` truncated to an integer.
   */
  lemma {:induction false} PrintSizeMatchesFactor(width: Extent, height: Extent)
    ensures var r := PrintSize(width, height);
            var f := ScaleFactor(width, height);
            && (r.width as real) <= (width as real) * f < (r.width as real) + 1.0
            && (r.height as real) <= (height as real) * f < (r.height as real) + 1.0
  {
    var m := LongEdge(width, height);
    if m < PrintLongEdge {
      SmallFrameMatchesFactor(width, height);
    } else {
      FactorOne(m);
      assert ScaleFactor(width, height) == 1.0;
    }
  }

  lemma {:induction false} SmallFrameMatchesFactor(width: Extent, height: Extent)
    requires LongEdge(width, height) < PrintLongEdge
    ensures var r := PrintSize(width, height);
            var f := ScaleFactor(width, height);
            && (r.width as real) <= (width as real) * f < (r.width as real) + 1.0
            && (r.height as real) <= (height as real) * f < (r.height as real) + 1.0
  {
    var m := LongEdge(width, height);
    var r := PrintSize(width, height);
    var f := ScaleFactor(width, height);
    assert f == (PrintLongEdge as real) / (m as real) by {
      FactorAboveOne(m);
    }
    assert r.width == width * PrintLongEdge / m && r.height == height * PrintLongEdge / m;
    EdgeMatchesFactor(width, m, r.width, f);
    EdgeMatchesFactor(height, m, r.height, f);
  }

  /** One edge: the integer scaling `e * 3000 / m` is the truncation of the real product `e * (3000 / m)`. */
  lemma {:induction false} EdgeMatchesFactor(e: int, m: int, q: int, f: real)
    requires m > 0 && f == (PrintLongEdge as real) / (m as real)
    requires q == e * PrintLongEdge / m
    ensures (q as real) <= (e as real) * f < (q as real) + 1.0
  {
    FloorBracket(e * PrintLongEdge, m);
    TruncateReal(e, m, q, f);
  }

  lemma {:induction false} FactorAboveOne(m: int)
    requires 0 < m < PrintLongEdge
    ensures (PrintLongEdge as real) / (m as real) > 1.0
  {
    var f := (PrintLongEdge as real) / (m as real);
    assert f * (m as real) == PrintLongEdge as real;
  }

  lemma {:induction false} FactorOne(m: int)
    requires m >= PrintLongEdge
    ensures (PrintLongEdge as real) / (m as real) <= 1.0
  {
  }

  lemma {:induction false} TruncateReal(e: int, m: int, q: int, f: real)
    requires m > 0 && f == (PrintLongEdge as real) / (m as real)
    requires q * m <= e * PrintLongEdge < (q + 1) * m
    ensures (q as real) <= (e as real) * f < (q as real) + 1.0
  {
    var x := (e as real) * f;
    assert x * (m as real) == (e * PrintLongEdge) as real;
    assert (q as real) * (m as real) <= x * (m as real);
    assert x * (m as real) < ((q + 1) as real) * (m as real);
  }

  /** Scaling an already-scaled frame changes nothing. */
  lemma {:induction false} PrintSizeIdempotent(width: Extent, height: Extent)
    ensures var r := PrintSize(width, height);
            PrintSize(r.width, r.height) == r
  {
  }

  /** A 640 x 360 frame is written at 3000 x 1687: the short edge is truncated, not rounded. */
  lemma {:induction false} PrintSizeSmallFrame()
    ensures PrintSize(640, 360) == Size(3000, 1687)
  {
  }

  /** A 4000 x 3000 frame is already large enough and is written at its own size. */
  lemma {:induction false} PrintSizeLargeFrame()
    ensures PrintSize(4000, 3000) == Size(4000, 3000)
  {
  }
}
