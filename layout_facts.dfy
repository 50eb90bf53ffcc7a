/** What `layout` guarantees: the first fit, the override, the clamping of each axis, what a
    NaN coordinate does, and worked examples. */
module LayoutFacts {
  import opened Wrappers
  import opened JsMath
  import opened SafeArea
  import opened Layout

  // ---------------------------------------------------------------- clamping one axis

  /** The three alignments of `AxisOffset`, stated on the edges of the scaled safe span: the
      start edge has priority over the end edge. */
  lemma AxisOffsetCases(bg: real, node: real, lo: real, hi: real)
    ensures var c := (bg - node) / 2.0; var r := AxisOffset(bg, node, lo, hi);
      (lo < c ==> r == lo)
      && (lo >= c && hi > c + node ==> r == hi - node)
      && (lo >= c && hi <= c + node ==> r == c)
  {
  }

  /** A safe span no longer than the container ends up inside the container's window
      `r..r + node` of the drawn image. */
  lemma SafeSpanVisible(bg: real, node: real, lo: real, hi: real)
    requires lo <= hi && hi - lo <= node
    ensures var r := AxisOffset(bg, node, lo, hi); r <= lo && hi <= r + node
  {
    AxisOffsetCases(bg, node, lo, hi);
  }

  /** When the drawn image is at least as long as the container and the safe span lies on it,
      clamping never uncovers the container: the window stays on the drawn image. */
  lemma ClampKeepsCover(bg: real, node: real, lo: real, hi: real)
    requires node <= bg && 0.0 <= lo <= hi <= bg
    ensures var r := AxisOffset(bg, node, lo, hi); 0.0 <= r <= bg - node
  {
    AxisOffsetCases(bg, node, lo, hi);
  }

  /** `SafeSpanVisible` after `offset = Math.round(-offset)`: the safe span is visible up to
      half a pixel. */
  lemma RoundedSpanVisible(bg: real, node: real, lo: real, hi: real)
    requires lo <= hi && hi - lo <= node
    ensures var o := Round(-AxisOffset(bg, node, lo, hi)) as real;
      lo + o >= -0.5 && hi + o <= node + 0.5
  {
    SafeSpanVisible(bg, node, lo, hi);
  }

  /** `ClampKeepsCover` after rounding, for whole-pixel lengths: the rounded offset keeps the
      container covered even when the safe span overhangs the drawn image by up to half a
      pixel at its end. */
  lemma RoundedKeepsCover(bg: int, node: int, lo: real, hi: real)
    requires node <= bg && 0.0 <= lo <= hi <= bg as real + 0.5
    ensures var o := Round(-AxisOffset(bg as real, node as real, lo, hi));
      node - bg <= o <= 0
  {
    var r := AxisOffset(bg as real, node as real, lo, hi);
    AxisOffsetCases(bg as real, node as real, lo, hi);
    assert -r >= (node - bg) as real - 0.5;
    RoundAtMost(-r, 0);
  }

  // ---------------------------------------------------------------- the first fit

  /** Comparing aspect ratios is comparing cross products. */
  lemma WideCross(nodeW: real, nodeH: real, w: real, h: real)
    requires nodeW > 0.0 && nodeH > 0.0 && w > 0.0 && h > 0.0
    ensures Wide(nodeW, nodeH, w, h) <==> Mul(nodeW, h) > Mul(w, nodeH)
  {
    assert nodeW / nodeH * (nodeH * h) == nodeW * h;
    assert w / h * (nodeH * h) == w * nodeH;
  }

  /** Filling the width: the height is the width over the aspect ratio, rounded. */
  lemma FillWidthValues(nodeW: real, w: real, h: real)
    requires w > 0.0 && h > 0.0
    ensures var f := FillWidth(nodeW, w, h);
      f.width == nodeW && f.height == Round(Div(Mul(nodeW, h), w)) as real && f.scale == Div(nodeW, w)
  {
    DivOfQuotient(nodeW, w, h);
  }

  /** Filling the height: the width is the height times the aspect ratio, rounded. */
  lemma FillHeightValues(nodeH: real, w: real, h: real)
    requires w > 0.0 && h > 0.0
    ensures var f := FillHeight(nodeH, w, h);
      f.height == nodeH && f.width == Round(Div(Mul(nodeH, w), h)) as real && f.scale == Div(f.width, w)
  {
    MulOfQuotient(nodeH, w, h);
  }

  /** In a container relatively wider than the image, the first fit spans the container's
      width exactly and, for a container of whole pixels, at least its height. */
  lemma PrimaryFitWide(nodeW: int, nodeH: int, w: real, h: real)
    requires nodeW > 0 && nodeH > 0 && w > 0.0 && h > 0.0
    requires Wide(nodeW as real, nodeH as real, w, h)
    ensures var p := PrimaryFit(nodeW as real, nodeH as real, w, h);
      p.width == nodeW as real && p.height == Round(Div(Mul(nodeW as real, h), w)) as real
      && p.height >= nodeH as real
  {
    var x := Div(Mul(nodeW as real, h), w);
    FillWidthValues(nodeW as real, w, h);
    WideCross(nodeW as real, nodeH as real, w, h);
    DivCompare(Mul(nodeW as real, h), w, nodeH as real);
    RoundAtLeast(x, nodeH);
  }

  /** Otherwise the first fit spans the container's height exactly and, for a container of
      whole pixels, at least its width. */
  lemma PrimaryFitNarrow(nodeW: int, nodeH: int, w: real, h: real)
    requires nodeW > 0 && nodeH > 0 && w > 0.0 && h > 0.0
    requires !Wide(nodeW as real, nodeH as real, w, h)
    ensures var p := PrimaryFit(nodeW as real, nodeH as real, w, h);
      p.height == nodeH as real && p.width == Round(Div(Mul(nodeH as real, w), h)) as real
      && p.width >= nodeW as real
  {
    var x := Div(Mul(nodeH as real, w), h);
    FillHeightValues(nodeH as real, w, h);
    WideCross(nodeW as real, nodeH as real, w, h);
    DivCompare(Mul(nodeH as real, w), h, nodeW as real);
    RoundAtLeast(x, nodeW);
  }

  // ---------------------------------------------------------------- the override

  /** In the wide case the override fires exactly when the safe span, scaled by
      `nodeW / w`, is strictly taller than the container. */
  lemma OverrideWide(nodeW: real, nodeH: real, w: real, h: real, safe: Rect)
    requires nodeW > 0.0 && nodeH > 0.0 && w > 0.0 && h > 0.0 && Wide(nodeW, nodeH, w, h)
    ensures OverrideFires(nodeW, nodeH, w, h, safe) <==> Mul(safe.y2 - safe.y1, nodeW) > Mul(nodeH, w)
  {
    var safeH := safe.y2 - safe.y1;
    FillWidthValues(nodeW, w, h);
    MulOfQuotient(safeH, nodeW, w);
    DivCompare(Mul(safeH, nodeW), w, nodeH);
  }

  /** Otherwise it fires exactly when the safe span, scaled by the first fit's width over
      `w`, is strictly wider than the container. */
  lemma OverrideNarrow(nodeW: real, nodeH: real, w: real, h: real, safe: Rect)
    requires nodeW > 0.0 && nodeH > 0.0 && w > 0.0 && h > 0.0 && !Wide(nodeW, nodeH, w, h)
    ensures var bgW := Round(Div(Mul(nodeH, w), h)) as real;
      OverrideFires(nodeW, nodeH, w, h, safe) <==> Mul(safe.x2 - safe.x1, bgW) > Mul(nodeW, w)
  {
    var safeW := safe.x2 - safe.x1;
    var bgW := Round(Div(Mul(nodeH, w), h)) as real;
    FillHeightValues(nodeH, w, h);
    MulOfQuotient(safeW, bgW, w);
    DivCompare(Mul(safeW, bgW), w, nodeW);
  }

  /** When the override does not fire, `layout` keeps the first fit. */
  lemma NoOverrideKeepsPrimary(nodeW: real, nodeH: real, w: real, h: real, safe: Rect)
    requires nodeW > 0.0 && nodeH > 0.0 && w > 0.0 && h > 0.0
    requires !OverrideFires(nodeW, nodeH, w, h, safe)
    ensures Fit(nodeW, nodeH, w, h, safe) == PrimaryFit(nodeW, nodeH, w, h)
  {
  }

  /** The size the override picks in the wide case: the safe span becomes as tall as the
      container, up to rounding, and the width follows the aspect ratio. */
  lemma OverrideWideValues(nodeW: real, nodeH: real, w: real, h: real, safe: Rect)
    requires nodeW > 0.0 && nodeH > 0.0 && w > 0.0 && h > 0.0 && Wide(nodeW, nodeH, w, h)
    requires OverrideFires(nodeW, nodeH, w, h, safe)
    ensures var f := Fit(nodeW, nodeH, w, h, safe); var safeH := safe.y2 - safe.y1;
      safeH > 0.0
      && f.height == Round(Div(Mul(nodeH, h), safeH)) as real
      && f.width == Round(Div(Mul(f.height, w), h)) as real
  {
    var safeH := safe.y2 - safe.y1;
    OverrideWide(nodeW, nodeH, w, h, safe);
    assert safeH > 0.0;
    var f := Fit(nodeW, nodeH, w, h, safe);
    assert f == FitSafeHeight(nodeH, w, h, safeH);
    DivOfQuotient(nodeH, safeH, h);
    MulOfQuotient(f.height, w, h);
  }

  /** The size the override picks otherwise: the safe span becomes as wide as the container,
      up to rounding, and the height follows the aspect ratio. */
  lemma OverrideNarrowValues(nodeW: real, nodeH: real, w: real, h: real, safe: Rect)
    requires nodeW > 0.0 && nodeH > 0.0 && w > 0.0 && h > 0.0 && !Wide(nodeW, nodeH, w, h)
    requires OverrideFires(nodeW, nodeH, w, h, safe)
    ensures var f := Fit(nodeW, nodeH, w, h, safe); var safeW := safe.x2 - safe.x1;
      safeW > 0.0
      && f.width == Round(Div(Mul(nodeW, w), safeW)) as real
      && f.height == Round(Div(Mul(f.width, h), w)) as real
  {
    var safeW := safe.x2 - safe.x1;
    OverrideNarrow(nodeW, nodeH, w, h, safe);
    assert safeW > 0.0;
    var f := Fit(nodeW, nodeH, w, h, safe);
    assert f == FitSafeWidth(nodeW, w, h, safeW);
    DivOfQuotient(nodeW, safeW, w);
    DivOfQuotient(f.width, w, h);
  }

  /** The override never enlarges the image along the axis it corrects: in the wide case the
      height does not grow. */
  lemma OverrideShrinksWide(nodeW: real, nodeH: real, w: real, h: real, safe: Rect)
    requires nodeW > 0.0 && nodeH > 0.0 && w > 0.0 && h > 0.0 && Wide(nodeW, nodeH, w, h)
    requires OverrideFires(nodeW, nodeH, w, h, safe)
    ensures Fit(nodeW, nodeH, w, h, safe).height <= PrimaryFit(nodeW, nodeH, w, h).height
  {
    var safeH := safe.y2 - safe.y1;
    OverrideWide(nodeW, nodeH, w, h, safe);
    OverrideWideValues(nodeW, nodeH, w, h, safe);
    FillWidthValues(nodeW, w, h);
    ScaledQuotientLess(nodeH, safeH, nodeW, w, h);
    RoundMonotone(Div(Mul(nodeH, h), safeH), Div(Mul(nodeW, h), w));
  }

  /** Otherwise the width does not grow. */
  lemma OverrideShrinksNarrow(nodeW: real, nodeH: real, w: real, h: real, safe: Rect)
    requires nodeW > 0.0 && nodeH > 0.0 && w > 0.0 && h > 0.0 && !Wide(nodeW, nodeH, w, h)
    requires OverrideFires(nodeW, nodeH, w, h, safe)
    ensures Fit(nodeW, nodeH, w, h, safe).width <= PrimaryFit(nodeW, nodeH, w, h).width
  {
    var safeW := safe.x2 - safe.x1;
    var n := Round(Div(Mul(nodeH, w), h));
    OverrideNarrow(nodeW, nodeH, w, h, safe);
    OverrideNarrowValues(nodeW, nodeH, w, h, safe);
    FillHeightValues(nodeH, w, h);
    DivCompare(Mul(nodeW, w), safeW, n as real);
    RoundAtMost(Div(Mul(nodeW, w), safeW), n);
  }

  // ---------------------------------------------------------------- NaN coordinates

  /** A NaN edge on the axis the first fit did not fill makes the safe span NaN, so the
      override never fires and the first fit stays. */
  lemma NaNSpanKeepsPrimary(nodeW: real, nodeH: real, w: real, h: real, safe: Area)
    requires nodeW > 0.0 && nodeH > 0.0 && w > 0.0 && h > 0.0
    requires if Wide(nodeW, nodeH, w, h) then safe.y1.None? || safe.y2.None? else safe.x1.None? || safe.x2.None?
    ensures !Overflows(nodeW, nodeH, w, h, safe)
    ensures FitArea(nodeW, nodeH, w, h, safe) == PrimaryFit(nodeW, nodeH, w, h)
  {
  }

  /** A NaN edge never moves the offset: only the other edge, if it is a number, can align
      the span with the container. */
  lemma NaNEdgeIgnored(bg: real, node: real, lo: Number, hi: Number)
    ensures var c := (bg - node) / 2.0; var r := Clamp(bg, node, lo, hi);
      (lo.None? && hi.None? ==> r == c)
      && (lo.None? && hi.Some? ==> r == (if hi.value > c + node then hi.value - node else c))
      && (lo.Some? && hi.None? ==> r == (if lo.value < c then lo.value else c))
  {
  }

  // ---------------------------------------------------------------- the aspect ratio

  /** Whichever path `layout` takes, the dimension it computes second is the first one
      carried through the image's aspect ratio and rounded: it is off by at most half a
      pixel. The height is computed second when the first fit spans the width and is kept,
      or when the override corrects the width. */
  lemma FitKeepsAspect(nodeW: real, nodeH: real, w: real, h: real, safe: Rect)
    requires nodeW > 0.0 && nodeH > 0.0 && w > 0.0 && h > 0.0
    ensures var f := Fit(nodeW, nodeH, w, h, safe);
      (Wide(nodeW, nodeH, w, h) != OverrideFires(nodeW, nodeH, w, h, safe) ==>
        -0.5 <= f.height - Div(Mul(f.width, h), w) <= 0.5)
      && (Wide(nodeW, nodeH, w, h) == OverrideFires(nodeW, nodeH, w, h, safe) ==>
        -0.5 <= f.width - Div(Mul(f.height, w), h) <= 0.5)
  {
    var f := Fit(nodeW, nodeH, w, h, safe);
    if Wide(nodeW, nodeH, w, h) {
      if OverrideFires(nodeW, nodeH, w, h, safe) {
        OverrideWideValues(nodeW, nodeH, w, h, safe);
        RoundError(Div(Mul(f.height, w), h));
      } else {
        FillWidthValues(nodeW, w, h);
        RoundError(Div(Mul(f.width, h), w));
      }
    } else {
      if OverrideFires(nodeW, nodeH, w, h, safe) {
        OverrideNarrowValues(nodeW, nodeH, w, h, safe);
        RoundError(Div(Mul(f.width, h), w));
      } else {
        FillHeightValues(nodeH, w, h);
        RoundError(Div(Mul(f.height, w), h));
      }
    }
  }

  /** When the width is the dimension computed second, the scale is taken from that rounded
      width, so the image scaled by it is off the drawn height by up to half a pixel times
      the image's height over its width. The safe-area offsets use this scale, so the
      clamped edges can miss the drawn image by as much (see `PortraitLiftExample`). */
  lemma ScaledHeightOff(nodeW: real, nodeH: real, w: real, h: real, safe: Rect)
    requires nodeW > 0.0 && nodeH > 0.0 && w > 0.0 && h > 0.0
    requires Wide(nodeW, nodeH, w, h) == OverrideFires(nodeW, nodeH, w, h, safe)
    ensures var f := Fit(nodeW, nodeH, w, h, safe);
      -0.5 * Div(h, w) <= Mul(h, f.scale) - f.height <= 0.5 * Div(h, w)
  {
    var f := Fit(nodeW, nodeH, w, h, safe);
    FitKeepsAspect(nodeW, nodeH, w, h, safe);
    RescaledError(f.width, f.height, w, h);
  }

  /** An error of `e` in a width becomes an error of `e * h / w` in the height. */
  lemma RescaledError(width: real, height: real, w: real, h: real)
    requires w > 0.0 && h > 0.0
    requires -0.5 <= width - Div(Mul(height, w), h) <= 0.5
    ensures -0.5 * Div(h, w) <= Mul(h, Div(width, w)) - height <= 0.5 * Div(h, w)
  {
    var d := width - height * w / h;
    var k := h / w;
    assert k > 0.0;
    assert h * (width / w) - height == d * k by {
      assert h * (width / w) == width * k;
      assert height * w / h * k == height;
    }
    assert -0.5 * k <= d * k <= 0.5 * k;
  }

  // ---------------------------------------------------------------- the whole image as safe area

  /** The safe area covering the whole image, as the default specification resolves. */
  function WholeImage(w: real, h: real): (r: Rect)
  {
    Rect(0.0, 0.0, w, h)
  }

  /** With the whole image as safe area, in a container relatively wider than the image, the
      override always fires and the image is fitted to the container's height. */
  lemma WholeImageWide(nodeW: int, nodeH: int, w: real, h: real)
    requires nodeW > 0 && nodeH > 0 && w > 0.0 && h > 0.0
    requires Wide(nodeW as real, nodeH as real, w, h)
    ensures OverrideFires(nodeW as real, nodeH as real, w, h, WholeImage(w, h))
    ensures var f := Fit(nodeW as real, nodeH as real, w, h, WholeImage(w, h));
      f.height == nodeH as real && f.width <= nodeW as real
  {
    var nW, nH := nodeW as real, nodeH as real;
    var safe := WholeImage(w, h);
    OverrideWide(nW, nH, w, h, safe);
    WideCross(nW, nH, w, h);
    MulCommutes(h, nW);
    MulCommutes(nH, w);
    OverrideWideValues(nW, nH, w, h, safe);
    DivCancel(nH, h);
    RoundInt(nodeH);
    DivCompare(Mul(nH, w), h, nW);
    RoundAtMost(Div(Mul(nH, w), h), nodeW);
  }

  /** With the whole image as safe area, otherwise, the image ends up fitted to the
      container's width, whether or not the override fires. */
  lemma WholeImageNarrow(nodeW: int, nodeH: int, w: real, h: real)
    requires nodeW > 0 && nodeH > 0 && w > 0.0 && h > 0.0
    requires !Wide(nodeW as real, nodeH as real, w, h)
    ensures var f := Fit(nodeW as real, nodeH as real, w, h, WholeImage(w, h));
      f.width == nodeW as real && f.height <= nodeH as real
  {
    var nW, nH := nodeW as real, nodeH as real;
    var safe := WholeImage(w, h);
    var n := Round(Div(Mul(nH, w), h));
    PrimaryFitNarrow(nodeW, nodeH, w, h);
    OverrideNarrow(nW, nH, w, h, safe);
    MulCommutes(w, n as real);
    if OverrideFires(nW, nH, w, h, safe) {
      OverrideNarrowValues(nW, nH, w, h, safe);
      DivCancel(nW, w);
      RoundInt(nodeW);
      WideCross(nW, nH, w, h);
      DivCompare(Mul(nW, h), w, nH);
      MulCommutes(nH, w);
      RoundAtMost(Div(Mul(nW, h), w), nodeH);
    }
  }

  /** With the whole image as safe area the drawn image fits inside the container and spans
      it along one axis: `layout` then behaves as a "contain" fit, not a "cover" fit. */
  lemma WholeImageContained(nodeW: int, nodeH: int, w: real, h: real)
    requires nodeW > 0 && nodeH > 0 && w > 0.0 && h > 0.0
    ensures var f := Fit(nodeW as real, nodeH as real, w, h, WholeImage(w, h));
      f.width <= nodeW as real && f.height <= nodeH as real
      && (f.width == nodeW as real || f.height == nodeH as real)
  {
    if Wide(nodeW as real, nodeH as real, w, h) {
      WholeImageWide(nodeW, nodeH, w, h);
    } else {
      WholeImageNarrow(nodeW, nodeH, w, h);
    }
  }

  // ---------------------------------------------------------------- placement without override

  /** A span inside `0..w`, scaled by a non-negative factor, stays ordered and inside the
      scaled `0..w`. */
  lemma ScaledSpan(a: real, b: real, w: real, s: real)
    requires 0.0 <= a <= b <= w && s >= 0.0
    ensures 0.0 <= Mul(a, s) <= Mul(b, s) <= Mul(w, s)
  {
    MulMonotone(0.0, a, s);
    MulMonotone(a, b, s);
    MulMonotone(b, w, s);
  }

  /** In the wide case, when the override does not fire and the safe area lies on the image,
      the drawn image covers the whole container: the rounded offsets never uncover an edge. */
  lemma CoverWide(nodeW: int, nodeH: int, w: real, h: real, safe: Rect)
    requires nodeW > 0 && nodeH > 0 && w > 0.0 && h > 0.0
    requires Wide(nodeW as real, nodeH as real, w, h)
    requires !OverrideFires(nodeW as real, nodeH as real, w, h, safe)
    requires 0.0 <= safe.x1 <= safe.x2 <= w && 0.0 <= safe.y1 <= safe.y2 <= h
    ensures var p := Compute(nodeW as real, nodeH as real, w, h, safe);
      nodeW as real - p.width <= p.offsetX as real <= 0.0
      && nodeH as real - p.height <= p.offsetY as real <= 0.0
  {
    var nW, nH := nodeW as real, nodeH as real;
    var f := Fit(nW, nH, w, h, safe);
    var n := Round(Div(Mul(nW, h), w));
    PrimaryFitWide(nodeW, nodeH, w, h);
    FillWidthValues(nW, w, h);
    assert f.scale > 0.0;
    ScaledSpan(safe.x1, safe.x2, w, f.scale);
    ScaleBack(nW, w);
    RoundedKeepsCover(nodeW, nodeW, Mul(safe.x1, f.scale), Mul(safe.x2, f.scale));
    ScaledSpan(safe.y1, safe.y2, h, f.scale);
    MulOfQuotient(h, nW, w);
    MulCommutes(h, nW);
    RoundedKeepsCover(n, nodeH, Mul(safe.y1, f.scale), Mul(safe.y2, f.scale));
  }

  /** The drawn height over the drawn width is the image's within half a pixel of height;
      for an image no taller than wide this keeps the scaled image within half a pixel of
      the container's height. */
  lemma NarrowSpanBound(nodeH: real, w: real, h: real, bg: real)
    requires nodeH > 0.0 && w > 0.0 && h > 0.0 && h <= w && bg <= Div(Mul(nodeH, w), h) + 0.5
    ensures Div(Mul(h, bg), w) <= nodeH + 0.5
  {
    var x := nodeH * w / h;
    assert h * x == nodeH * w;
    calc {
      h * bg;
    <= h * (x + 0.5);
    == h * x + h * 0.5;
    <= nodeH * w + w * 0.5;
    == (nodeH + 0.5) * w;
    }
    DivCompare(Mul(h, bg), w, nodeH + 0.5);
  }

  /** Otherwise, when the override does not fire and the safe area lies on the image, the
      drawn image covers the container's width; it covers its height too when the image is
      no taller than wide. */
  lemma CoverNarrow(nodeW: int, nodeH: int, w: real, h: real, safe: Rect)
    requires nodeW > 0 && nodeH > 0 && w > 0.0 && h > 0.0
    requires !Wide(nodeW as real, nodeH as real, w, h)
    requires !OverrideFires(nodeW as real, nodeH as real, w, h, safe)
    requires 0.0 <= safe.x1 <= safe.x2 <= w && 0.0 <= safe.y1 <= safe.y2 <= h
    ensures var p := Compute(nodeW as real, nodeH as real, w, h, safe);
      nodeW as real - p.width <= p.offsetX as real <= 0.0
      && (h <= w ==> nodeH as real - p.height <= p.offsetY as real <= 0.0)
  {
    var nW, nH := nodeW as real, nodeH as real;
    var f := Fit(nW, nH, w, h, safe);
    var n := Round(Div(Mul(nH, w), h));
    PrimaryFitNarrow(nodeW, nodeH, w, h);
    FillHeightValues(nH, w, h);
    assert f.scale > 0.0;
    ScaledSpan(safe.x1, safe.x2, w, f.scale);
    ScaleBack(f.width, w);
    RoundedKeepsCover(n, nodeW, Mul(safe.x1, f.scale), Mul(safe.x2, f.scale));
    if h <= w {
      ScaledSpan(safe.y1, safe.y2, h, f.scale);
      MulOfQuotient(h, f.width, w);
      NarrowSpanBound(nH, w, h, f.width);
      RoundedKeepsCover(nodeH, nodeH, Mul(safe.y1, f.scale), Mul(safe.y2, f.scale));
    }
  }

  /** In the wide case, when the override does not fire, the safe area's vertical span is
      visible in the container, up to the half pixel lost to rounding the offset. */
  lemma VisibleWide(nodeW: real, nodeH: real, w: real, h: real, safe: Rect)
    requires nodeW > 0.0 && nodeH > 0.0 && w > 0.0 && h > 0.0
    requires Wide(nodeW, nodeH, w, h) && !OverrideFires(nodeW, nodeH, w, h, safe)
    requires safe.y1 <= safe.y2
    ensures var p := Compute(nodeW, nodeH, w, h, safe); var s := Fit(nodeW, nodeH, w, h, safe).scale;
      Mul(safe.y1, s) + p.offsetY as real >= -0.5 && Mul(safe.y2, s) + p.offsetY as real <= nodeH + 0.5
  {
    var f := Fit(nodeW, nodeH, w, h, safe);
    FillWidthValues(nodeW, w, h);
    assert f.scale > 0.0;
    MulMonotone(safe.y1, safe.y2, f.scale);
    MulDistributes(safe.y1, safe.y2, f.scale);
    RoundedSpanVisible(f.height, nodeH, Mul(safe.y1, f.scale), Mul(safe.y2, f.scale));
  }

  /** Otherwise, when the override does not fire, the safe area's horizontal span is visible
      in the container, up to the half pixel lost to rounding the offset. */
  lemma VisibleNarrow(nodeW: real, nodeH: real, w: real, h: real, safe: Rect)
    requires nodeW > 0.0 && nodeH > 0.0 && w > 0.0 && h > 0.0
    requires !Wide(nodeW, nodeH, w, h) && !OverrideFires(nodeW, nodeH, w, h, safe)
    requires safe.x1 <= safe.x2
    ensures var p := Compute(nodeW, nodeH, w, h, safe); var s := Fit(nodeW, nodeH, w, h, safe).scale;
      Mul(safe.x1, s) + p.offsetX as real >= -0.5 && Mul(safe.x2, s) + p.offsetX as real <= nodeW + 0.5
  {
    var f := Fit(nodeW, nodeH, w, h, safe);
    FillHeightValues(nodeH, w, h);
    assert f.scale >= 0.0;
    MulMonotone(safe.x1, safe.x2, f.scale);
    MulDistributes(safe.x1, safe.x2, f.scale);
    RoundedSpanVisible(f.width, nodeW, Mul(safe.x1, f.scale), Mul(safe.x2, f.scale));
  }

  /** In the wide case, when the override does not fire and the safe area is no wider than
      the image, its horizontal span is visible in the container too, up to the half pixel
      lost to rounding: the scale is exactly `nodeW / w` there. */
  lemma VisibleWideAcross(nodeW: real, nodeH: real, w: real, h: real, safe: Rect)
    requires nodeW > 0.0 && nodeH > 0.0 && w > 0.0 && h > 0.0
    requires Wide(nodeW, nodeH, w, h) && !OverrideFires(nodeW, nodeH, w, h, safe)
    requires safe.x1 <= safe.x2 <= safe.x1 + w
    ensures var p := Compute(nodeW, nodeH, w, h, safe); var s := Fit(nodeW, nodeH, w, h, safe).scale;
      Mul(safe.x1, s) + p.offsetX as real >= -0.5 && Mul(safe.x2, s) + p.offsetX as real <= nodeW + 0.5
  {
    var f := Fit(nodeW, nodeH, w, h, safe);
    FillWidthValues(nodeW, w, h);
    assert f.scale > 0.0;
    MulMonotone(safe.x1, safe.x2, f.scale);
    MulDistributes(safe.x1, safe.x2, f.scale);
    assert Mul(safe.x2 - safe.x1, f.scale) <= nodeW by {
      MulMonotone(safe.x2 - safe.x1, w, f.scale);
      ScaleBack(nodeW, w);
    }
    RoundedSpanVisible(f.width, nodeW, Mul(safe.x1, f.scale), Mul(safe.x2, f.scale));
  }

  /** `RoundedSpanVisible` for a safe span up to `e` longer than the container: it is visible
      up to `e` plus the half pixel lost to rounding. */
  lemma RoundedSpanNearlyVisible(bg: real, node: real, lo: real, hi: real, e: real)
    requires e >= 0.0 && lo <= hi && hi - lo <= node + e
    ensures var o := Round(-AxisOffset(bg, node, lo, hi)) as real;
      lo + o >= -0.5 - e && hi + o <= node + 0.5 + e
  {
    AxisOffsetCases(bg, node, lo, hi);
    RoundError(-AxisOffset(bg, node, lo, hi));
  }

  /** Otherwise, when the override does not fire and the safe area is no taller than the
      image, its vertical span is visible up to half a pixel plus half a pixel times `h / w`:
      the scale comes from the rounded `bgW`, so the scaled image can be that much taller
      than the container (`PortraitGapExample` puts the top edge at -1). */
  lemma VisibleNarrowDown(nodeW: real, nodeH: real, w: real, h: real, safe: Rect)
    requires nodeW > 0.0 && nodeH > 0.0 && w > 0.0 && h > 0.0
    requires !Wide(nodeW, nodeH, w, h) && !OverrideFires(nodeW, nodeH, w, h, safe)
    requires safe.y1 <= safe.y2 <= safe.y1 + h
    ensures var p := Compute(nodeW, nodeH, w, h, safe); var s := Fit(nodeW, nodeH, w, h, safe).scale;
      var e := 0.5 * Div(h, w);
      Mul(safe.y1, s) + p.offsetY as real >= -0.5 - e && Mul(safe.y2, s) + p.offsetY as real <= nodeH + 0.5 + e
  {
    var f := Fit(nodeW, nodeH, w, h, safe);
    FillHeightValues(nodeH, w, h);
    assert f.scale >= 0.0;
    ScaledHeightOff(nodeW, nodeH, w, h, safe);
    MulMonotone(safe.y1, safe.y2, f.scale);
    MulDistributes(safe.y1, safe.y2, f.scale);
    assert Mul(safe.y2 - safe.y1, f.scale) <= nodeH + 0.5 * Div(h, w) by {
      MulMonotone(safe.y2 - safe.y1, h, f.scale);
    }
    RoundedSpanNearlyVisible(f.height, nodeH, Mul(safe.y1, f.scale), Mul(safe.y2, f.scale), 0.5 * Div(h, w));
  }

  // ---------------------------------------------------------------- worked examples

  /** A 1000 by 500 image with its whole area safe, in a 400 by 400 container: the first fit
      (800 by 400) would crop the safe area, so the image is shrunk to 400 by 200 and
      centred vertically. */
  lemma WholeImageExample(area: Area)
    requires area == AreaOf(WholeImage(1000.0, 500.0))
    ensures Place(400.0, 400.0, 1000.0, 500.0, area) == Placement(400.0, 200.0, 0, 100)
  {
    var safe := WholeImage(1000.0, 500.0);
    assert !Wide(400.0, 400.0, 1000.0, 500.0);
    assert PrimaryFit(400.0, 400.0, 1000.0, 500.0) == Size(800.0, 400.0, 0.8);
    assert OverrideFires(400.0, 400.0, 1000.0, 500.0, safe);
    var f := Fit(400.0, 400.0, 1000.0, 500.0, safe);
    assert f == Size(400.0, 200.0, 0.4);
    assert Mul(safe.y1, f.scale) == 0.0 && Mul(safe.y2, f.scale) == 200.0;
    assert Mul(safe.x1, f.scale) == 0.0 && Mul(safe.x2, f.scale) == 400.0;
    var offsetY := AxisOffset(f.height, 400.0, Mul(safe.y1, f.scale), Mul(safe.y2, f.scale));
    var offsetX := AxisOffset(f.width, 400.0, Mul(safe.x1, f.scale), Mul(safe.x2, f.scale));
    assert offsetY == -100.0 && offsetX == 0.0;
    RoundInt(0);
    RoundInt(100);
    assert Compute(400.0, 400.0, 1000.0, 500.0, safe) == Placement(f.width, f.height, Round(-offsetX), Round(-offsetY));
  }

  /** The same image with the safe area `250,0,750,500`: scaled by 0.8 the safe span is
      exactly 400 wide, so the first fit stays and the safe area is centred. */
  lemma CentredSafeAreaExample(safe: Rect)
    requires safe == Rect(250.0, 0.0, 750.0, 500.0)
    ensures Compute(400.0, 400.0, 1000.0, 500.0, safe) == Placement(800.0, 400.0, -200, 0)
  {
    assert !Wide(400.0, 400.0, 1000.0, 500.0);
    assert PrimaryFit(400.0, 400.0, 1000.0, 500.0) == Size(800.0, 400.0, 0.8);
    assert !OverrideFires(400.0, 400.0, 1000.0, 500.0, safe);
    assert Fit(400.0, 400.0, 1000.0, 500.0, safe) == Size(800.0, 400.0, 0.8);
    assert AxisOffset(400.0, 400.0, Mul(0.0, 0.8), Mul(500.0, 0.8)) == 0.0;
    assert AxisOffset(800.0, 400.0, Mul(250.0, 0.8), Mul(750.0, 0.8)) == 200.0;
    RoundInt(0);
    RoundInt(-200);
  }

  /** `auto,0%,100%,100%` on a 1000 by 500 image in a 400 by 400 container: the left edge
      is NaN, so the first fit (800 by 400) stays although the 1000 pixel wide safe area,
      scaled to 800, is twice as wide as the container, and only the right edge is kept in
      view: the image is drawn 400 pixels to the left. */
  lemma NaNEdgeExample(area: Area)
    requires area == Area(None, Some(0.0), Some(1000.0), Some(500.0))
    ensures Place(400.0, 400.0, 1000.0, 500.0, area) == Placement(800.0, 400.0, -400, 0)
  {
    assert !Wide(400.0, 400.0, 1000.0, 500.0);
    assert PrimaryFit(400.0, 400.0, 1000.0, 500.0) == Size(800.0, 400.0, 0.8);
    assert !Overflows(400.0, 400.0, 1000.0, 500.0, area);
    var f := FitArea(400.0, 400.0, 1000.0, 500.0, area);
    assert f == Size(800.0, 400.0, 0.8);
    assert Times(area.y1, f.scale) == Some(0.0) && Times(area.y2, f.scale) == Some(400.0);
    assert Times(area.x1, f.scale) == None && Times(area.x2, f.scale) == Some(800.0);
    var offsetY := Clamp(f.height, 400.0, Times(area.y1, f.scale), Times(area.y2, f.scale));
    var offsetX := Clamp(f.width, 400.0, Times(area.x1, f.scale), Times(area.x2, f.scale));
    assert offsetY == 0.0 && offsetX == 400.0;
    RoundInt(0);
    RoundInt(-400);
    assert Place(400.0, 400.0, 1000.0, 500.0, area) == Placement(f.width, f.height, Round(-offsetX), Round(-offsetY));
  }

  /** A 10 by 30 image with safe area `0,0,5,30` in a 10 by 50 container: rounding the width
      up to 17 makes the scaled image 51 high, one pixel more than the drawn height of 50, and
      keeping the safe area's bottom edge in view shifts the image up by one pixel, leaving
      the container's bottom row uncovered. This is why `CoverNarrow` needs `h <= w` for the
      vertical axis. */
  lemma PortraitGapExample(safe: Rect)
    requires safe == Rect(0.0, 0.0, 5.0, 30.0)
    ensures Compute(10.0, 50.0, 10.0, 30.0, safe) == Placement(17.0, 50.0, 0, -1)
  {
    assert !Wide(10.0, 50.0, 10.0, 30.0);
    assert Round(Mul(50.0, Div(10.0, 30.0))) == 17;
    assert PrimaryFit(10.0, 50.0, 10.0, 30.0) == Size(17.0, 50.0, 1.7);
    assert !OverrideFires(10.0, 50.0, 10.0, 30.0, safe);
    assert Fit(10.0, 50.0, 10.0, 30.0, safe) == Size(17.0, 50.0, 1.7);
    assert AxisOffset(50.0, 50.0, Mul(0.0, 1.7), Mul(30.0, 1.7)) == 1.0;
    assert AxisOffset(17.0, 10.0, Mul(0.0, 1.7), Mul(5.0, 1.7)) == 0.0;
    RoundInt(0);
    RoundInt(-1);
  }

  /** A 101 by 1000 image, all of it safe, in a 100 by 500 container: the override makes the
      drawn height 500 and rounds the width from 50.5 up to 51, so the scale `51 / 101` makes
      the safe span 504.95 pixels tall. Keeping its bottom edge in view lifts the image by 5
      pixels: the safe area no longer fits although the override was meant to make it fit. */
  lemma OverrideGapExample(safe: Rect)
    requires safe == Rect(0.0, 0.0, 101.0, 1000.0)
    ensures Compute(100.0, 500.0, 101.0, 1000.0, safe) == Placement(51.0, 500.0, 25, -5)
  {
    assert Wide(100.0, 500.0, 101.0, 1000.0);
    assert Round(Div(100.0, Div(101.0, 1000.0))) == 990;
    assert PrimaryFit(100.0, 500.0, 101.0, 1000.0) == Size(100.0, 990.0, 100.0 / 101.0);
    assert OverrideFires(100.0, 500.0, 101.0, 1000.0, safe);
    assert Round(Div(500.0, Div(1000.0, 1000.0))) == 500;
    assert Round(Mul(500.0, Div(101.0, 1000.0))) == 51;
    assert Fit(100.0, 500.0, 101.0, 1000.0, safe) == Size(51.0, 500.0, 51.0 / 101.0);
    assert Mul(1000.0, 51.0 / 101.0) == 51000.0 / 101.0;
    assert AxisOffset(500.0, 500.0, Mul(0.0, 51.0 / 101.0), Mul(1000.0, 51.0 / 101.0)) == 500.0 / 101.0;
    assert AxisOffset(51.0, 100.0, Mul(0.0, 51.0 / 101.0), Mul(101.0, 51.0 / 101.0)) == -24.5;
    assert Round(-500.0 / 101.0) == -5;
    assert Round(24.5) == 25;
  }

  /** A 7 by 3 image with safe area `0,0,7,2` in a 4 by 1 container: the first fit (4 by 2,
      scale 4/7) lets the safe span overflow, and the override, after rounding 1.5 up to 2
      and 14/3 up to 5, draws the image larger (5 by 2, scale 5/7), with the safe span still
      10/7 high. */
  lemma ScaleGrowthExample(safe: Rect)
    requires safe == Rect(0.0, 0.0, 7.0, 2.0)
    ensures PrimaryFit(4.0, 1.0, 7.0, 3.0) == Size(4.0, 2.0, 4.0 / 7.0)
    ensures Fit(4.0, 1.0, 7.0, 3.0, safe) == Size(5.0, 2.0, 5.0 / 7.0)
    ensures Mul(safe.y2 - safe.y1, Fit(4.0, 1.0, 7.0, 3.0, safe).scale) > 1.0
  {
    assert Wide(4.0, 1.0, 7.0, 3.0);
    assert Round(Div(4.0, Div(7.0, 3.0))) == 2;
    assert OverrideFires(4.0, 1.0, 7.0, 3.0, safe);
    assert Round(Div(1.0, Div(2.0, 3.0))) == 2;
    assert Round(Mul(2.0, Div(7.0, 3.0))) == 5;
  }

  /** A 10 by 100 image with safe area `0,0,5,100` in a 10 by 105 container, where the
      override does not fire: the width 10.5 rounds up to 11, the scaled image is 110 high
      against a drawn height of 105, and keeping the safe area's bottom edge in view lifts
      the image by 5 pixels, leaving the container's bottom 5 rows uncovered: for a tall
      image the gap `PortraitGapExample` shows grows with the height over the width. */
  lemma PortraitLiftExample(safe: Rect)
    requires safe == Rect(0.0, 0.0, 5.0, 100.0)
    ensures Compute(10.0, 105.0, 10.0, 100.0, safe) == Placement(11.0, 105.0, 0, -5)
  {
    assert !Wide(10.0, 105.0, 10.0, 100.0);
    assert Round(Mul(105.0, Div(10.0, 100.0))) == 11;
    assert PrimaryFit(10.0, 105.0, 10.0, 100.0) == Size(11.0, 105.0, 1.1);
    assert !OverrideFires(10.0, 105.0, 10.0, 100.0, safe);
    assert Fit(10.0, 105.0, 10.0, 100.0, safe) == Size(11.0, 105.0, 1.1);
    assert AxisOffset(105.0, 105.0, Mul(0.0, 1.1), Mul(100.0, 1.1)) == 5.0;
    assert AxisOffset(11.0, 10.0, Mul(0.0, 1.1), Mul(5.0, 1.1)) == 0.0;
    RoundInt(0);
    RoundInt(-5);
  }
}
