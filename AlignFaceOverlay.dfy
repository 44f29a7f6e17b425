/**
 * The alignment overlay's geometry: the guide rectangle drawn on the canvas, the mapping of
 * the detected face from frame to canvas coordinates (the preview fills its view, cropping the
 * frame and keeping it centred), the aligned test that feeds the stable counters, the colour
 * of the guide and the percentage shown above it. Floats are `real`s.
 */
module AlignFaceOverlay {
  import opened Wrappers
  import opened Rects

  /** The guide is 60 % of the canvas width wide and 1.15 times as tall as it is wide. */
  const GuideWidthRatio: real := 0.60
  const GuideAspect: real := 1.15

  /** The parameters' defaults. */
  const DefaultMinSizeRatio: real := 0.29
  const DefaultMaxSizeRatio: real := 0.80
  const DefaultTolerancePx: real := 40.0

  datatype Colour = Red | Yellow | Green

  /** What one draw decides: whether the face is aligned, and the guide's colour. */
  datatype Judgement = Judgement(aligned: bool, colour: Colour)

  /** The guide rectangle: horizontally centred, vertically centred then shifted by `offsetYRatio` of the height. */
  function GuideRect(viewW: real, viewH: real, offsetYRatio: real): (g: RectF)
    ensures g.Width() == GuideWidthRatio * viewW
    ensures g.Height() == GuideAspect * g.Width()
    ensures g.left + g.right == viewW
    ensures g.top + g.bottom == viewH + 2.0 * offsetYRatio * viewH
  {
    var overlayWidth := viewW * GuideWidthRatio;
    var overlayHeight := overlayWidth * GuideAspect;
    var left := (viewW - overlayWidth) / 2.0;
    var top := (viewH - overlayHeight) / 2.0 + offsetYRatio * viewH;
    RectF(left, top, left + overlayWidth, top + overlayHeight)
  }

  /** `toFloat().coerceAtLeast(1f)` of a preview side. */
  function PreviewSide(n: int): (s: real)
    ensures s >= 1.0 && s >= n as real
  {
    MaxR(n as real, 1.0)
  }

  /** The frame-to-preview scale: the larger of the two ratios, so that the frame covers the preview. */
  function Scale(frameW: real, frameH: real, previewW: real, previewH: real): real
    requires frameW > 0.0 && frameH > 0.0
  {
    MaxR(previewW / frameW, previewH / frameH)
  }

  /** The scaled frame covers the preview in both directions and fits it exactly in one. */
  lemma ScaleCovers(frameW: real, frameH: real, previewW: real, previewH: real)
    requires frameW > 0.0 && frameH > 0.0
    ensures var s := Scale(frameW, frameH, previewW, previewH);
      && frameW * s >= previewW && frameH * s >= previewH
      && (frameW * s == previewW || frameH * s == previewH)
  {
    var s := Scale(frameW, frameH, previewW, previewH);
    MulDivCancel(previewW, frameW);
    MulDivCancel(previewH, frameH);
    ScaleMono(previewW / frameW, s, frameW);
    ScaleMono(previewH / frameH, s, frameH);
  }

  lemma MulDivCancel(a: real, b: real)
    requires b > 0.0
    ensures b * (a / b) == a
  {
  }

  lemma ScaleMono(x: real, y: real, k: real)
    requires x <= y && k >= 0.0
    ensures k * x <= k * y && x * k <= y * k
  {
  }

  lemma DivMulCancel(a: real, b: real)
    requires b > 0.0
    ensures (a * b) / b == a
  {
  }

  /** The face box in canvas coordinates: scaled and centred into the preview, then stretched onto the canvas. */
  function MapBox(box: RectF, frameW: real, frameH: real, previewW: real, previewH: real,
                  viewW: real, viewH: real): (m: RectF)
    requires frameW > 0.0 && frameH > 0.0 && previewW >= 1.0 && previewH >= 1.0
    ensures m.Width() == box.Width() * Scale(frameW, frameH, previewW, previewH) * (viewW / previewW)
    ensures m.Height() == box.Height() * Scale(frameW, frameH, previewW, previewH) * (viewH / previewH)
  {
    var scale := Scale(frameW, frameH, previewW, previewH);
    var dx := (previewW - frameW * scale) / 2.0;
    var dy := (previewH - frameH * scale) / 2.0;
    AxisSpan(box.left, box.right, scale, dx, viewW / previewW);
    AxisSpan(box.top, box.bottom, scale, dy, viewH / previewH);
    RectF(Axis(box.left, scale, dx, viewW / previewW),
          Axis(box.top, scale, dy, viewH / previewH),
          Axis(box.right, scale, dx, viewW / previewW),
          Axis(box.bottom, scale, dy, viewH / previewH))
  }

  /** One coordinate: scaled, shifted into the preview, stretched onto the canvas. */
  function Axis(v: real, scale: real, offset: real, stretch: real): real
  {
    (v * scale + offset) * stretch
  }

  /** The mapped span of two coordinates is their span times the scale and the stretch. */
  lemma AxisSpan(a: real, b: real, s: real, d: real, k: real)
    ensures Axis(b, s, d, k) - Axis(a, s, d, k) == (b - a) * s * k
  {
    assert (b * s + d) * k - (a * s + d) * k == (b * s - a * s) * k;
  }

  /** On a canvas of non-negative size the mapping keeps left before right and top before bottom. */
  lemma MapPreservesOrder(box: RectF, frameW: real, frameH: real, previewW: real, previewH: real,
                          viewW: real, viewH: real)
    requires frameW > 0.0 && frameH > 0.0 && previewW >= 1.0 && previewH >= 1.0
    requires viewW >= 0.0 && viewH >= 0.0
    ensures var m := MapBox(box, frameW, frameH, previewW, previewH, viewW, viewH);
      && (box.left <= box.right ==> m.left <= m.right)
      && (box.top <= box.bottom ==> m.top <= m.bottom)
  {
    var scale := Scale(frameW, frameH, previewW, previewH);
    DivMono(0.0, previewW, frameW);
    DivMono(0.0, viewW, previewW);
    DivMono(0.0, viewH, previewH);
    var dx := (previewW - frameW * scale) / 2.0;
    var dy := (previewH - frameH * scale) / 2.0;
    if box.left <= box.right {
      AffineMono(box.left, box.right, scale, dx, viewW / previewW);
    }
    if box.top <= box.bottom {
      AffineMono(box.top, box.bottom, scale, dy, viewH / previewH);
    }
  }

  lemma AffineMono(a: real, b: real, s: real, d: real, k: real)
    requires a <= b && s >= 0.0 && k >= 0.0
    ensures Axis(a, s, d, k) <= Axis(b, s, d, k)
  {
    ScaleMono(a, b, s);
    ScaleMono(a * s + d, b * s + d, k);
  }

  /** The guide grown by the tolerance on every side. */
  function Expanded(g: RectF, tolerance: real): (e: RectF)
    ensures e.Width() == g.Width() + 2.0 * tolerance && e.Height() == g.Height() + 2.0 * tolerance
  {
    RectF(g.left - tolerance, g.top - tolerance, g.right + tolerance, g.bottom + tolerance)
  }

  /** `RectF.contains(RectF)`: the outer rectangle is not empty and holds the inner one. */
  predicate Contains(outer: RectF, inner: RectF)
    ensures Contains(outer, inner) ==>
      outer.Width() > 0.0 && outer.Height() > 0.0
      && inner.Width() <= outer.Width() && inner.Height() <= outer.Height()
  {
    && outer.left < outer.right && outer.top < outer.bottom
    && outer.left <= inner.left && outer.top <= inner.top
    && outer.right >= inner.right && outer.bottom >= inner.bottom
  }

  /** `faceHeightRatio in minSizeRatio..maxSizeRatio`; on a canvas of height 0 the ratio is 0 / 0, NaN, and fails. */
  predicate SizeOk(height: real, viewH: real, minSizeRatio: real, maxSizeRatio: real)
    ensures viewH > 0.0 ==>
      (SizeOk(height, viewH, minSizeRatio, maxSizeRatio) <==> minSizeRatio * viewH <= height <= maxSizeRatio * viewH)
  {
    viewH != 0.0 && minSizeRatio <= height / viewH <= maxSizeRatio
  }

  /** One draw of the overlay: no face or no frame size leaves it red and not aligned. */
  function Judge(faceBox: Option<RectF>, frameWidth: int, frameHeight: int, previewWidth: int, previewHeight: int,
                 viewW: real, viewH: real, offsetYRatio: real, minSizeRatio: real, maxSizeRatio: real,
                 tolerancePx: real): (j: Judgement)
    ensures faceBox.None? || frameWidth <= 0 || frameHeight <= 0 ==> j == Judgement(false, Red)
    ensures j.aligned <==> j.colour == Green
  {
    if faceBox.None? || frameWidth <= 0 || frameHeight <= 0 then Judgement(false, Red)
    else
      var guide := GuideRect(viewW, viewH, offsetYRatio);
      var mapped := MapBox(faceBox.value, frameWidth as real, frameHeight as real,
                           PreviewSide(previewWidth), PreviewSide(previewHeight), viewW, viewH);
      var inside := Contains(Expanded(guide, tolerancePx), mapped);
      var alignedNow := inside && SizeOk(mapped.Height(), viewH, minSizeRatio, maxSizeRatio);
      Judgement(alignedNow, if alignedNow then Green else if inside then Yellow else Red)
  }

  /**
   * On a canvas of positive height, a face is aligned exactly when its mapped box lies within
   * the guide grown by the tolerance (which must not be empty), and its mapped height is between
   * `minSizeRatio` and `maxSizeRatio` of the canvas height. A yellow guide means the box is in
   * place but of the wrong size.
   */
  lemma AlignedMeans(box: RectF, frameWidth: int, frameHeight: int, previewWidth: int, previewHeight: int,
                     viewW: real, viewH: real, offsetYRatio: real, minSizeRatio: real, maxSizeRatio: real,
                     tolerancePx: real)
    requires frameWidth > 0 && frameHeight > 0 && viewH > 0.0
    ensures var j := Judge(Some(box), frameWidth, frameHeight, previewWidth, previewHeight,
                           viewW, viewH, offsetYRatio, minSizeRatio, maxSizeRatio, tolerancePx);
      var g := GuideRect(viewW, viewH, offsetYRatio);
      var m := MapBox(box, frameWidth as real, frameHeight as real,
                      PreviewSide(previewWidth), PreviewSide(previewHeight), viewW, viewH);
      var inside :=
        && g.Width() + 2.0 * tolerancePx > 0.0 && g.Height() + 2.0 * tolerancePx > 0.0
        && g.left - tolerancePx <= m.left && m.right <= g.right + tolerancePx
        && g.top - tolerancePx <= m.top && m.bottom <= g.bottom + tolerancePx;
      var sized := minSizeRatio * viewH <= m.Height() <= maxSizeRatio * viewH;
      && (j.aligned <==> inside && sized)
      && (j.colour == Yellow <==> inside && !sized)
      && (j.colour == Red <==> !inside)
  {
    var m := MapBox(box, frameWidth as real, frameHeight as real,
                    PreviewSide(previewWidth), PreviewSide(previewHeight), viewW, viewH);
    RatioBand(m.Height(), viewH, minSizeRatio, maxSizeRatio);
  }

  lemma RatioBand(h: real, viewH: real, lo: real, hi: real)
    requires viewH > 0.0
    ensures SizeOk(h, viewH, lo, hi) <==> lo * viewH <= h <= hi * viewH
  {
    MulDivCancel(h, viewH);
    if lo <= h / viewH {
      ScaleMono(lo, h / viewH, viewH);
    }
    if h / viewH <= hi {
      ScaleMono(h / viewH, hi, viewH);
    }
    if lo * viewH <= h {
      DivMono(lo * viewH, h, viewH);
      DivMulCancel(lo, viewH);
    }
    if h <= hi * viewH {
      DivMono(h, hi * viewH, viewH);
      DivMulCancel(hi, viewH);
    }
  }

  /**
   * The percentage written above the guide: `stableCounter.toFloat() / requiredStableFrames`,
   * times 100, truncated and clamped to [0, 100]. A zero requirement divides by zero: a
   * positive counter gives +∞ (100), a zero counter NaN, which `toInt` makes 0.
   */
  function Percent(stableCounter: int, requiredStableFrames: int): (p: int)
    ensures 0 <= p <= 100
  {
    if requiredStableFrames == 0 then (if stableCounter > 0 then 100 else 0)
    else Clamp(ToInt(stableCounter as real / requiredStableFrames as real * 100.0), 0, 100)
  }

  /**
   * For a positive requirement and a counter that is not negative, the percentage is the
   * rounded-down share, capped at 100, and it shows the "aligned" text (100) exactly when the
   * counter has reached the requirement.
   */
  lemma PercentOfCounter(stableCounter: int, requiredStableFrames: int)
    requires requiredStableFrames > 0 && stableCounter >= 0
    ensures Percent(stableCounter, requiredStableFrames) == Min(100, stableCounter * 100 / requiredStableFrames)
    ensures Percent(stableCounter, requiredStableFrames) == 100 <==> stableCounter >= requiredStableFrames
  {
    var c, r := stableCounter as real, requiredStableFrames as real;
    var x := c / r * 100.0;
    DivScale(c, r, 100.0);
    assert x == (stableCounter * 100) as real / r;
    FloorOfQuotient(stableCounter * 100, requiredStableFrames);
    assert x >= 100.0 <==> c >= r by {
      DivScale(c, r, 100.0);
      ShareAtLeastOne(c, r);
    }
  }

  lemma DivScale(a: real, b: real, k: real)
    requires b > 0.0
    ensures a / b * k == (a * k) / b
  {
  }

  /** A share of `c` over `r` reaches 100 % exactly when `c` reaches `r`. */
  lemma ShareAtLeastOne(c: real, r: real)
    requires r > 0.0
    ensures c / r * 100.0 >= 100.0 <==> c >= r
  {
    if c >= r {
      DivMono(r, c, r);
      assert r / r == 1.0;
    } else {
      DivStrict(c, r, r);
      assert r / r == 1.0;
    }
  }

  /** The integer quotient of non-negative numbers is the whole part of the real one. */
  lemma FloorOfQuotient(a: int, b: int)
    requires a >= 0 && b > 0
    ensures ToInt(a as real / b as real) == a / b
  {
    var q, m := a / b, a % b;
    assert a == q * b + m && 0 <= m < b;
    var x := a as real / b as real;
    SplitQuotient(q as real, m as real, b as real);
    assert x == q as real + m as real / b as real;
    assert q >= 0;
  }

  /** (q · b + m) / b splits into q plus a fraction in [0, 1) when 0 <= m < b. */
  lemma SplitQuotient(q: real, m: real, b: real)
    requires b > 0.0 && 0.0 <= m < b
    ensures (q * b + m) / b == q + m / b
    ensures 0.0 <= m / b < 1.0
  {
    DivMulCancel(q, b);
    DivStrict(m, b, b);
    DivMono(0.0, m, b);
    assert b / b == 1.0;
  }

  lemma DivMono(x: real, y: real, d: real)
    requires x <= y && d > 0.0
    ensures x / d <= y / d
  {
  }

  lemma DivStrict(x: real, y: real, d: real)
    requires x < y && d > 0.0
    ensures x / d < y / d
  {
  }
}
