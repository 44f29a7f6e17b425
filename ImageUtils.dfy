/**
 * Box utilities of the SDK: the front-camera mirror, the padded square used
 * before cropping a face, and the crop window of `safeCropWithMargin`.
 * Bitmaps enter only through their width and height.
 */
module ImageUtils {
  import opened Wrappers
  import opened Rects

  /** `mirroredToNonMirrored`: reflect a box about the vertical axis of an image `width` wide. */
  function MirroredToNonMirrored(r: Rect, width: int): (m: Rect)
    ensures m.top == r.top && m.bottom == r.bottom
    ensures m.Width() == r.Width() && m.Height() == r.Height()
    ensures m.left + r.right == width && m.right + r.left == width
  {
    Rect(width - r.right, r.top, width - r.left, r.bottom)
  }

  /** Mirroring twice with the same width gives the box back. */
  lemma MirrorInvolution(r: Rect, width: int)
    ensures MirroredToNonMirrored(MirroredToNonMirrored(r, width), width) == r
  {
  }

  /**
   * The square `expandSquare` builds before clamping: side
   * `(max(w, h) * (1 + padFrac)).toInt()`, placed so that its corner is
   * `((cx - half).toInt(), (cy - half).toInt())` with `half = side / 2`.
   */
  function PaddedSquare(r: Rect, padFrac: real): (sq: Rect)
    ensures sq.Width() == SquareSide(r, padFrac) && sq.Height() == SquareSide(r, padFrac)
  {
    var newSize := SquareSide(r, padFrac);
    var half := TruncDiv(newSize, 2);
    var left := ToInt(CentreX(r) - half as real);
    var top := ToInt(CentreY(r) - half as real);
    Rect(left, top, left + newSize, top + newSize)
  }

  /** `(maxOf(rect.width(), rect.height()) * (1 + padFrac)).toInt()`. */
  function SquareSide(r: Rect, padFrac: real): int
  {
    ToInt(Max(r.Width(), r.Height()) as real * (1.0 + padFrac))
  }

  function CentreX(r: Rect): real { (r.left + r.right) as real / 2.0 }
  function CentreY(r: Rect): real { (r.top + r.bottom) as real / 2.0 }

  /**
   * `expandSquare(rect, padFrac, imgW, imgH)`: the padded square clamped into
   * the image. `None` is the IllegalArgumentException `coerceIn(0, imgW - 1)`
   * (or `coerceIn(0, imgH - 1)`) throws when the image is empty.
   */
  function ExpandSquare(r: Rect, padFrac: real, imgW: int, imgH: int): (e: Option<Rect>)
    ensures e.None? <==> imgW < 1 || imgH < 1
    ensures e.Some? ==> 0 <= e.value.left <= imgW - 1 && 0 <= e.value.top <= imgH - 1
    ensures e.Some? ==> e.value.left < e.value.right <= imgW && e.value.top < e.value.bottom <= imgH
  {
    var sq := PaddedSquare(r, padFrac);
    match CoerceIn(sq.left, 0, imgW - 1)
    case None => None
    case Some(left) =>
      match CoerceIn(sq.top, 0, imgH - 1)
      case None => None
      case Some(top) =>
        // these two bounds never cross once left and top are inside the image
        var right := Clamp(sq.right, left + 1, imgW);
        var bottom := Clamp(sq.bottom, top + 1, imgH);
        Some(Rect(left, top, right, bottom))
  }

  /** A padded square that already lies inside the image, with a positive side, is returned as it is. */
  lemma ExpandSquareKeepsInside(r: Rect, padFrac: real, imgW: int, imgH: int)
    requires var sq := PaddedSquare(r, padFrac);
      0 <= sq.left && 0 <= sq.top && sq.left < sq.right <= imgW && sq.top < sq.bottom <= imgH
    ensures ExpandSquare(r, padFrac, imgW, imgH) == Some(PaddedSquare(r, padFrac))
  {
  }

  /** `expandSquare` as written: the square's corners computed, then clamped one after the other. */
  method ExpandSquareSteps(r: Rect, padFrac: real, imgW: int, imgH: int) returns (e: Option<Rect>)
    ensures e == ExpandSquare(r, padFrac, imgW, imgH)
  {
    var cx := CentreX(r);
    var cy := CentreY(r);
    var newSize := SquareSide(r, padFrac);
    var half := TruncDiv(newSize, 2);
    var left := ToInt(cx - half as real);
    var top := ToInt(cy - half as real);
    var right := left + newSize;
    var bottom := top + newSize;
    assert Rect(left, top, right, bottom) == PaddedSquare(r, padFrac);
    if imgW - 1 < 0 {
      return None;
    }
    left := Clamp(left, 0, imgW - 1);
    if imgH - 1 < 0 {
      return None;
    }
    top := Clamp(top, 0, imgH - 1);
    right := Clamp(right, left + 1, imgW);
    bottom := Clamp(bottom, top + 1, imgH);
    e := Some(Rect(left, top, right, bottom));
  }

  /** The window handed to `Bitmap.createBitmap(src, left, top, w, h)`. */
  datatype Window = Window(left: int, top: int, w: int, h: int)

  /** What `safeCropWithMargin` does: crop, return null (createBitmap refused), or throw (from expandSquare). */
  datatype CropOutcome = Cropped(window: Window) | NullCrop | CropThrows

  /** `Bitmap.createBitmap`'s own argument check: the window lies inside the source and is not empty. */
  predicate FitsIn(win: Window, srcW: int, srcH: int)
  {
    win.left >= 0 && win.top >= 0 && win.w > 0 && win.h > 0
    && win.left + win.w <= srcW && win.top + win.h <= srcH
  }

  /**
   * `safeCropWithMargin(src, rect, padFrac)` on a source of `srcW` x `srcH`:
   * it throws exactly when the source is empty, never returns null, and its
   * window is the clamped square itself.
   */
  function SafeCropWithMargin(srcW: int, srcH: int, r: Rect, padFrac: real): (c: CropOutcome)
    ensures c.CropThrows? <==> srcW < 1 || srcH < 1
    ensures !c.NullCrop?
    ensures c.Cropped? ==>
      && c.window.w >= 1 && c.window.h >= 1
      && c.window.left + c.window.w <= srcW && c.window.top + c.window.h <= srcH
      && ExpandSquare(r, padFrac, srcW, srcH)
         == Some(Rect(c.window.left, c.window.top, c.window.left + c.window.w, c.window.top + c.window.h))
  {
    match ExpandSquare(r, padFrac, srcW, srcH)
    case None => CropThrows
    case Some(er) => CropOf(er, srcW, srcH)
  }

  /**
   * The window of a clamped square: its width and height, at least 1 and at most what is left
   * of the source; the try/catch around `createBitmap` turns a refused window into null, which
   * a square inside the source never is.
   */
  function CropOf(er: Rect, srcW: int, srcH: int): (c: CropOutcome)
    requires 0 <= er.left < er.right <= srcW && 0 <= er.top < er.bottom <= srcH
    ensures c == Cropped(Window(er.left, er.top, er.Width(), er.Height()))
  {
    var w := Min(Max(er.Width(), 1), srcW - er.left);
    var h := Min(Max(er.Height(), 1), srcH - er.top);
    var win := Window(er.left, er.top, w, h);
    if FitsIn(win, srcW, srcH) then Cropped(win) else NullCrop
  }
}
