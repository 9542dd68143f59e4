/** The geometry of app.js: the A4 canvas size for a DPI (`a4Pixels`), the
    contain/cover placement of an image on that canvas (`drawFit`), and the
    placement of an image on a PDF page inside its margins (the PDF export
    handler). All arithmetic is exact. */
module Geometry {
  import opened Rounding

  /* ---------------- a4Pixels ---------------- */

  /** A4 in inches: 8.27 by 11.69. */
  const A4WidthIn: real := 8.27
  const A4HeightIn: real := 11.69

  datatype Size = Size(w: int, h: int)

  /** `a4Pixels(dpi)`: the A4 page size in pixels at `dpi`. Each side is the
      physical side times the DPI, rounded with `Math.round`, so off by at
      most half a pixel. */
  function A4Pixels(dpi: real): (s: Size)
    ensures -0.5 < s.w as real - A4WidthIn * dpi <= 0.5
    ensures -0.5 < s.h as real - A4HeightIn * dpi <= 0.5
  {
    Size(Round(A4WidthIn * dpi), Round(A4HeightIn * dpi))
  }

  /** A higher DPI never gives a smaller page. */
  lemma A4PixelsMonotone(dpi: real, dpi': real)
    requires dpi <= dpi'
    ensures A4Pixels(dpi).w <= A4Pixels(dpi').w
    ensures A4Pixels(dpi).h <= A4Pixels(dpi').h
  {
    RoundMonotone(A4WidthIn * dpi, A4WidthIn * dpi');
    RoundMonotone(A4HeightIn * dpi, A4HeightIn * dpi');
  }

  /** A non-negative DPI gives a portrait page with non-negative sides. */
  lemma A4PixelsPortrait(dpi: real)
    requires 0.0 <= dpi
    ensures 0 <= A4Pixels(dpi).w <= A4Pixels(dpi).h
  {
    RoundMonotone(0.0, A4WidthIn * dpi);
    RoundMonotone(A4WidthIn * dpi, A4HeightIn * dpi);
  }

  /** The sizes the A4 tool produces at its usual resolutions. */
  lemma A4PixelsExamples()
    ensures A4Pixels(300.0) == Size(2481, 3507)
    ensures A4Pixels(150.0) == Size(1241, 1754)
    ensures A4Pixels(0.0) == Size(0, 0)
  {
  }

  /* ---------------- drawFit ---------------- */

  /** The mode that scales to cover the target; any other mode contains. */
  const CoverMode: string := "cover"

  /** Where `drawFit` draws the image: size (dw, dh) at offset (dx, dy). */
  datatype FitRect = FitRect(dw: int, dh: int, dx: int, dy: int)

  /** The scale factor: the larger of the two side ratios for "cover", the
      smaller otherwise. */
  function FitScale(iw: int, ih: int, targetW: int, targetH: int, mode: string): (r: real)
    requires iw > 0 && ih > 0
    ensures var rw, rh := targetW as real / iw as real, targetH as real / ih as real;
      && (r == rw || r == rh)
      && (mode == CoverMode ==> rw <= r && rh <= r)
      && (mode != CoverMode ==> r <= rw && r <= rh)
  {
    var rw := targetW as real / iw as real;
    var rh := targetH as real / ih as real;
    if mode == CoverMode then Max(rw, rh) else Min(rw, rh)
  }

  /** The arithmetic of `drawFit`: the scaled image size and the offset that
      centres it on a `targetW` by `targetH` canvas, all rounded with `Math.round`. */
  /** Both modes keep the aspect ratio up to rounding: each drawn side is
      within half a pixel of the source side times the common scale. */
  function DrawFit(iw: int, ih: int, targetW: int, targetH: int, mode: string): (f: FitRect)
    requires iw > 0 && ih > 0
    ensures var scale := FitScale(iw, ih, targetW, targetH, mode);
      && -0.5 < f.dw as real - iw as real * scale <= 0.5
      && -0.5 < f.dh as real - ih as real * scale <= 0.5
  {
    FitAtScale(iw, ih, targetW, targetH, FitScale(iw, ih, targetW, targetH, mode))
  }

  /** The picture scaled by `scale`, sides rounded, centred on the canvas:
      each side is within half a pixel of the scaled side. */
  function FitAtScale(iw: int, ih: int, targetW: int, targetH: int, scale: real): (f: FitRect)
    ensures -0.5 < f.dw as real - iw as real * scale <= 0.5
    ensures -0.5 < f.dh as real - ih as real * scale <= 0.5
  {
    Centred(Round(iw as real * scale), Round(ih as real * scale), targetW, targetH)
  }

  /** A `dw` by `dh` picture centred on the canvas, offsets rounded with
      `Math.round`: the space after the picture is the space before it, or
      one pixel less, along each axis. */
  function Centred(dw: int, dh: int, targetW: int, targetH: int): (f: FitRect)
    ensures f.dw == dw && f.dh == dh
    ensures -1 <= (targetW - f.dx - f.dw) - f.dx <= 0
    ensures -1 <= (targetH - f.dy - f.dh) - f.dy <= 0
  {
    FitRect(dw, dh, Round((targetW - dw) as real / 2.0), Round((targetH - dh) as real / 2.0))
  }

  lemma MulDivCancel(a: real, b: real)
    requires b != 0.0
    ensures b * (a / b) == a
  {
  }

  /** Before rounding, the scaled source fits inside the target in contain
      mode, matching it exactly along one axis. */
  lemma ScaledContain(iw: int, ih: int, targetW: int, targetH: int, mode: string)
    requires iw > 0 && ih > 0 && targetW >= 0 && targetH >= 0 && mode != CoverMode
    ensures 0.0 <= iw as real * FitScale(iw, ih, targetW, targetH, mode) <= targetW as real
    ensures 0.0 <= ih as real * FitScale(iw, ih, targetW, targetH, mode) <= targetH as real
    ensures iw as real * FitScale(iw, ih, targetW, targetH, mode) == targetW as real
         || ih as real * FitScale(iw, ih, targetW, targetH, mode) == targetH as real
  {
    var rw := targetW as real / iw as real;
    var rh := targetH as real / ih as real;
    MulDivCancel(targetW as real, iw as real);
    MulDivCancel(targetH as real, ih as real);
    if rw <= rh {
      MulMonotone(iw as real, 0.0, rw);
      MulMonotone(ih as real, 0.0, rw);
      MulMonotone(ih as real, rw, rh);
    } else {
      MulMonotone(iw as real, 0.0, rh);
      MulMonotone(ih as real, 0.0, rh);
      MulMonotone(iw as real, rh, rw);
    }
  }

  /** Before rounding, the scaled source covers the target in cover mode,
      matching it exactly along one axis. */
  lemma ScaledCover(iw: int, ih: int, targetW: int, targetH: int)
    requires iw > 0 && ih > 0
    ensures targetW as real <= iw as real * FitScale(iw, ih, targetW, targetH, CoverMode)
    ensures targetH as real <= ih as real * FitScale(iw, ih, targetW, targetH, CoverMode)
    ensures iw as real * FitScale(iw, ih, targetW, targetH, CoverMode) == targetW as real
         || ih as real * FitScale(iw, ih, targetW, targetH, CoverMode) == targetH as real
  {
    var rw := targetW as real / iw as real;
    var rh := targetH as real / ih as real;
    MulDivCancel(targetW as real, iw as real);
    MulDivCancel(targetH as real, ih as real);
    if rw >= rh {
      MulMonotone(ih as real, rh, rw);
    } else {
      MulMonotone(iw as real, rw, rh);
    }
  }

  /** The drawn rectangle lies on the canvas and spans it along one axis. */
  predicate Inscribed(f: FitRect, targetW: int, targetH: int)
  {
    && 0 <= f.dw <= targetW && 0 <= f.dh <= targetH
    && 0 <= f.dx && f.dx + f.dw <= targetW
    && 0 <= f.dy && f.dy + f.dh <= targetH
    && (f.dw == targetW || f.dh == targetH)
  }

  /** The drawn rectangle covers the canvas and matches it along one axis. */
  predicate Covering(f: FitRect, targetW: int, targetH: int)
  {
    && f.dw >= targetW && f.dh >= targetH
    && f.dx <= 0 && f.dx + f.dw >= targetW
    && f.dy <= 0 && f.dy + f.dh >= targetH
    && (f.dw == targetW || f.dh == targetH)
  }

  /** Rounding scaled sides that lie within the canvas and centring them keeps
      the picture on the canvas, still touching it along one axis. */
  lemma CentredWithin(sw: real, sh: real, targetW: int, targetH: int)
    requires 0.0 <= sw <= targetW as real && 0.0 <= sh <= targetH as real
    requires sw == targetW as real || sh == targetH as real
    ensures Inscribed(Centred(Round(sw), Round(sh), targetW, targetH), targetW, targetH)
  {
    RoundWithin(sw, 0, targetW);
    RoundWithin(sh, 0, targetH);
    RoundWithin(targetW as real, targetW, targetW);
    RoundWithin(targetH as real, targetH, targetH);
    var dw, dh := Round(sw), Round(sh);
    RoundWithin((targetW - dw) as real / 2.0, 0, targetW - dw);
    RoundWithin((targetH - dh) as real / 2.0, 0, targetH - dh);
  }

  /** Rounding scaled sides that reach past the canvas and centring them
      covers the canvas, matching it along one axis. */
  lemma CentredOver(sw: real, sh: real, targetW: int, targetH: int)
    requires targetW as real <= sw && targetH as real <= sh
    requires sw == targetW as real || sh == targetH as real
    ensures Covering(Centred(Round(sw), Round(sh), targetW, targetH), targetW, targetH)
  {
    RoundMonotone(targetW as real, sw);
    RoundMonotone(targetH as real, sh);
    RoundWithin(targetW as real, targetW, targetW);
    RoundWithin(targetH as real, targetH, targetH);
    var dw, dh := Round(sw), Round(sh);
    RoundWithin((targetW - dw) as real / 2.0, targetW - dw, 0);
    RoundWithin((targetH - dh) as real / 2.0, targetH - dh, 0);
  }

  /** Contain at a given scale: if the scaled sides fit, the rounded, centred picture is inscribed. */
  lemma InscribedAtScale(iw: int, ih: int, targetW: int, targetH: int, scale: real)
    requires 0.0 <= iw as real * scale <= targetW as real && 0.0 <= ih as real * scale <= targetH as real
    requires iw as real * scale == targetW as real || ih as real * scale == targetH as real
    ensures Inscribed(FitAtScale(iw, ih, targetW, targetH, scale), targetW, targetH)
  {
    CentredWithin(iw as real * scale, ih as real * scale, targetW, targetH);
  }

  /** Cover at a given scale: if the scaled sides reach the canvas, the rounded, centred picture covers it. */
  lemma CoveringAtScale(iw: int, ih: int, targetW: int, targetH: int, scale: real)
    requires targetW as real <= iw as real * scale && targetH as real <= ih as real * scale
    requires iw as real * scale == targetW as real || ih as real * scale == targetH as real
    ensures Covering(FitAtScale(iw, ih, targetW, targetH, scale), targetW, targetH)
  {
    CentredOver(iw as real * scale, ih as real * scale, targetW, targetH);
  }

  /** In contain mode the picture lies inside the canvas, and touches both
      edges along at least one axis (it is letterboxed, never cropped). */
  lemma ContainInside(iw: int, ih: int, targetW: int, targetH: int, mode: string)
    requires iw > 0 && ih > 0 && targetW >= 0 && targetH >= 0 && mode != CoverMode
    ensures Inscribed(DrawFit(iw, ih, targetW, targetH, mode), targetW, targetH)
  {
    ScaledContain(iw, ih, targetW, targetH, mode);
    InscribedAtScale(iw, ih, targetW, targetH, FitScale(iw, ih, targetW, targetH, mode));
  }

  /** In cover mode the picture covers the whole canvas (it may be cropped on
      one axis), and matches the canvas exactly along at least one axis. */
  lemma CoverCovers(iw: int, ih: int, targetW: int, targetH: int)
    requires iw > 0 && ih > 0 && targetW >= 0 && targetH >= 0
    ensures Covering(DrawFit(iw, ih, targetW, targetH, CoverMode), targetW, targetH)
  {
    ScaledCover(iw, ih, targetW, targetH);
    CoveringAtScale(iw, ih, targetW, targetH, FitScale(iw, ih, targetW, targetH, CoverMode));
  }

  /** The A4 tool on an 800 by 600 image at 150 DPI, contain mode: the canvas
      is 1241 by 1754 and the image spans its width, centred vertically. */
  lemma A4ContainExample()
    ensures DrawFit(800, 600, 1241, 1754, "contain") == FitRect(1241, 931, 0, 412)
  {
  }

  /* ---------------- PDF placement ---------------- */

  /** The smallest usable width or height, in millimetres. */
  const MinUsableMm: real := 10.0

  /** Where the PDF export puts the image on the page, in millimetres. */
  datatype Placement = Placement(usableW: real, usableH: real, drawW: real, drawH: real, x: real, y: real)

  /** The placement arithmetic of the PDF export: the page less twice the
      margin, but at least 10 mm each way; the image as wide as that area,
      or, if it is then too tall, as tall as the area; centred on the page. */
  function PdfPlacement(pageW: real, pageH: real, marginMm: real, iw: int, ih: int): (p: Placement)
    requires iw > 0 && ih > 0
    ensures p.usableW >= MinUsableMm && p.usableH >= MinUsableMm
    ensures p.x + p.drawW + p.x == pageW && p.y + p.drawH + p.y == pageH
  {
    var usableW := Max(MinUsableMm, pageW - 2.0 * marginMm);
    var usableH := Max(MinUsableMm, pageH - 2.0 * marginMm);
    var imgAspect := iw as real / ih as real;
    var widthFirstH := usableW / imgAspect;
    var drawW := if widthFirstH > usableH then usableH * imgAspect else usableW;
    var drawH := if widthFirstH > usableH then usableH else widthFirstH;
    Placement(usableW, usableH, drawW, drawH, (pageW - drawW) / 2.0, (pageH - drawH) / 2.0)
  }

  /** The image fits the usable area, keeps the source's aspect ratio and
      fills the area along at least one axis. */
  lemma {:induction false} PdfPlacementFits(pageW: real, pageH: real, marginMm: real, iw: int, ih: int)
    requires iw > 0 && ih > 0
    ensures var p := PdfPlacement(pageW, pageH, marginMm, iw, ih);
      && 0.0 < p.drawW <= p.usableW && 0.0 < p.drawH <= p.usableH
      && p.drawW * ih as real == p.drawH * iw as real
      && (p.drawW == p.usableW || p.drawH == p.usableH)
  {
    var p := PdfPlacement(pageW, pageH, marginMm, iw, ih);
    var aspect := iw as real / ih as real;
    assert aspect * ih as real == iw as real;
    var widthFirstH := p.usableW / aspect;
    assert widthFirstH * aspect == p.usableW;
    if widthFirstH > p.usableH {
      assert p.drawW == p.usableH * aspect;
      assert p.usableH * aspect < widthFirstH * aspect;
    } else {
      assert p.drawW * ih as real == widthFirstH * aspect * ih as real;
    }
  }

  /** When the margins leave at least 10 mm each way, the image stays inside them. */
  lemma PdfPlacementRespectsMargins(pageW: real, pageH: real, marginMm: real, iw: int, ih: int)
    requires iw > 0 && ih > 0
    requires pageW - 2.0 * marginMm >= MinUsableMm && pageH - 2.0 * marginMm >= MinUsableMm
    ensures var p := PdfPlacement(pageW, pageH, marginMm, iw, ih);
      && marginMm <= p.x && p.x + p.drawW <= pageW - marginMm
      && marginMm <= p.y && p.y + p.drawH <= pageH - marginMm
  {
    PdfPlacementFits(pageW, pageH, marginMm, iw, ih);
  }
}
