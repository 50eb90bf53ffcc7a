/** The geometry of `layout`: how large the background is drawn and where it is placed so that
    the safe area of the image stays inside the container. Sizes are exact reals; the places
    where the plugin calls `Math.round` are `Round`. */
module Layout {
  import opened Wrappers
  import opened JsMath
  import opened SafeArea

  /** What `_update` receives: the drawn size of the image and the position of its top left
      corner relative to the container. */
  datatype Placement = Placement(width: real, height: real, offsetX: int, offsetY: int)

  /** The drawn size of the image (`bgW`, `bgH`) and the factor from image pixels to drawn
      pixels (`scale`). */
  datatype Size = Size(width: real, height: real, scale: real)

  /** The container is wider, relative to its height, than the image: the image is first
      fitted to the container's width. */
  predicate Wide(nodeW: real, nodeH: real, w: real, h: real)
    requires nodeH > 0.0 && h > 0.0
  {
    Div(nodeW, nodeH) > Div(w, h)
  }

  /** The image fitted to the container's width, its height following the aspect ratio. */
  function FillWidth(nodeW: real, w: real, h: real): (r: Size)
    requires w > 0.0 && h > 0.0
    ensures r.width == nodeW && r.scale == Div(r.width, w)
  {
    var aspect := Div(w, h);
    Size(nodeW, Round(Div(nodeW, aspect)) as real, Div(nodeW, w))
  }

  /** The image fitted to the container's height, its width following the aspect ratio. */
  function FillHeight(nodeH: real, w: real, h: real): (r: Size)
    requires w > 0.0 && h > 0.0
    ensures r.height == nodeH && r.scale == Div(r.width, w)
  {
    var aspect := Div(w, h);
    var bgW := Round(Mul(nodeH, aspect)) as real;
    Size(bgW, nodeH, Div(bgW, w))
  }

  /** The image scaled so that a safe span `safeH` high becomes `nodeH` high. */
  function FitSafeHeight(nodeH: real, w: real, h: real, safeH: real): (r: Size)
    requires w > 0.0 && h > 0.0 && safeH != 0.0
    ensures r.scale == Div(r.width, w)
  {
    var aspect := Div(w, h);
    var safeHPercentage := Div(safeH, h);
    var bgH := Round(Div(nodeH, safeHPercentage)) as real;
    var bgW := Round(Mul(bgH, aspect)) as real;
    Size(bgW, bgH, Div(bgW, w))
  }

  /** The image scaled so that a safe span `safeW` wide becomes `nodeW` wide. */
  function FitSafeWidth(nodeW: real, w: real, h: real, safeW: real): (r: Size)
    requires w > 0.0 && h > 0.0 && safeW != 0.0
    ensures r.scale == Div(r.width, w)
  {
    var aspect := Div(w, h);
    var safeWPercentage := Div(safeW, w);
    var bgW := Round(Div(nodeW, safeWPercentage)) as real;
    var bgH := Round(Div(bgW, aspect)) as real;
    Size(bgW, bgH, Div(bgW, w))
  }

  /** The first fit: the image fills the container along one axis and keeps its aspect ratio. */
  function PrimaryFit(nodeW: real, nodeH: real, w: real, h: real): (r: Size)
    requires nodeW > 0.0 && nodeH > 0.0 && w > 0.0 && h > 0.0
    ensures r.scale == Div(r.width, w)
    ensures Wide(nodeW, nodeH, w, h) ==> r.width == nodeW
    ensures !Wide(nodeW, nodeH, w, h) ==> r.height == nodeH
  {
    if Wide(nodeW, nodeH, w, h) then FillWidth(nodeW, w, h) else FillHeight(nodeH, w, h)
  }

  /** The scaled safe area would reach beyond the container along the axis the first fit did
      not fill. Reaching exactly to the edge does not count, and neither does a span that is
      NaN, since every comparison with NaN is false. */
  predicate Overflows(nodeW: real, nodeH: real, w: real, h: real, safe: Area)
    requires nodeW > 0.0 && nodeH > 0.0 && w > 0.0 && h > 0.0
    ensures Overflows(nodeW, nodeH, w, h, safe) ==>
      if Wide(nodeW, nodeH, w, h) then Greater(Minus(safe.y2, safe.y1), 0.0)
      else Greater(Minus(safe.x2, safe.x1), 0.0)
  {
    var p := PrimaryFit(nodeW, nodeH, w, h);
    if Wide(nodeW, nodeH, w, h) then Greater(Times(Minus(safe.y2, safe.y1), p.scale), nodeH)
    else Greater(Times(Minus(safe.x2, safe.x1), p.scale), nodeW)
  }

  /** The size `layout` settles on: the first fit, or, when the scaled safe area would
      overflow, the size that makes the safe area exactly as tall (wide case) or as wide
      (otherwise) as the container, before rounding. */
  function FitArea(nodeW: real, nodeH: real, w: real, h: real, safe: Area): (r: Size)
    requires nodeW > 0.0 && nodeH > 0.0 && w > 0.0 && h > 0.0
    ensures r.scale == Div(r.width, w)
  {
    if !Overflows(nodeW, nodeH, w, h, safe) then PrimaryFit(nodeW, nodeH, w, h)
    else if Wide(nodeW, nodeH, w, h) then FitSafeHeight(nodeH, w, h, Minus(safe.y2, safe.y1).value)
    else FitSafeWidth(nodeW, w, h, Minus(safe.x2, safe.x1).value)
  }

  /** The offset of the container within the drawn image along one axis, before it is negated
      and rounded: centred, unless the scaled safe span `lo..hi` would start before the
      container (then its start is aligned with the container's start) or else end after it
      (then its end is aligned with the container's end). A NaN edge never moves the offset. */
  function Clamp(bg: real, node: real, lo: Number, hi: Number): (r: real)
    ensures r == (bg - node) / 2.0 || (lo.Some? && r == lo.value) || (hi.Some? && r == hi.value - node)
  {
    var offset := (bg - node) / 2.0;
    var over1 := Minus(lo, Some(offset));
    var over2 := Minus(Minus(Some(bg), hi), Some(offset));
    if Less(over1, 0.0) then offset + over1.value
    else if Less(over2, 0.0) then offset - over2.value
    else offset
  }

  /** `layout`'s result for a container of `nodeW` by `nodeH`, an image of `w` by `h` and the
      stored safe area. */
  function Place(nodeW: real, nodeH: real, w: real, h: real, safe: Area): (p: Placement)
    requires nodeW > 0.0 && nodeH > 0.0 && w > 0.0 && h > 0.0
    ensures p.width == FitArea(nodeW, nodeH, w, h, safe).width
    ensures p.height == FitArea(nodeW, nodeH, w, h, safe).height
  {
    var f := FitArea(nodeW, nodeH, w, h, safe);
    var offsetY := Clamp(f.height, nodeH, Times(safe.y1, f.scale), Times(safe.y2, f.scale));
    var offsetX := Clamp(f.width, nodeW, Times(safe.x1, f.scale), Times(safe.x2, f.scale));
    Placement(f.width, f.height, Round(-offsetX), Round(-offsetY))
  }

  /** `Place` assembled from a size equal to `FitArea` and the two clamped offsets. */
  lemma PlaceOf(nodeW: real, nodeH: real, w: real, h: real, safe: Area,
                bgW: real, bgH: real, scale: real, offsetX: real, offsetY: real)
    requires nodeW > 0.0 && nodeH > 0.0 && w > 0.0 && h > 0.0
    requires FitArea(nodeW, nodeH, w, h, safe) == Size(bgW, bgH, scale)
    requires offsetY == Clamp(bgH, nodeH, Times(safe.y1, scale), Times(safe.y2, scale))
    requires offsetX == Clamp(bgW, nodeW, Times(safe.x1, scale), Times(safe.x2, scale))
    ensures Place(nodeW, nodeH, w, h, safe) == Placement(bgW, bgH, Round(-offsetX), Round(-offsetY))
  {
  }

  /** The first half of `layout`, step by step as the plugin performs it on JavaScript
      numbers: the drawn size of a `w` by `h` image with safe area `safe` in a `nodeW` by
      `nodeH` container, and its scale. */
  method Scale(nodeW: real, nodeH: real, w: real, h: real, safe: Area) returns (bgW: real, bgH: real, scale: real)
    requires nodeW > 0.0 && nodeH > 0.0 && w > 0.0 && h > 0.0
    ensures Size(bgW, bgH, scale) == FitArea(nodeW, nodeH, w, h, safe)
  {
    var nodeAspect := Div(nodeW, nodeH);
    var safeW, safeH := Minus(safe.x2, safe.x1), Minus(safe.y2, safe.y1);
    var aspect := Div(w, h);
    var safeWPercentage, safeHPercentage := Quotient(safeW, w), Quotient(safeH, h);
    if nodeAspect > aspect {
      bgW := nodeW;
      bgH := Round(Div(bgW, aspect)) as real;
      scale := Div(bgW, w);
      if Greater(Times(safeH, scale), nodeH) {
        bgH := Round(Div(nodeH, safeHPercentage.value)) as real;
        bgW := Round(Mul(bgH, aspect)) as real;
        scale := Div(bgW, w);
        assert FitArea(nodeW, nodeH, w, h, safe) == FitSafeHeight(nodeH, w, h, safeH.value);
      } else {
        assert FitArea(nodeW, nodeH, w, h, safe) == FillWidth(nodeW, w, h);
      }
    } else {
      bgH := nodeH;
      bgW := Round(Mul(bgH, aspect)) as real;
      scale := Div(bgW, w);
      if Greater(Times(safeW, scale), nodeW) {
        bgW := Round(Div(nodeW, safeWPercentage.value)) as real;
        bgH := Round(Div(bgW, aspect)) as real;
        scale := Div(bgW, w);
        assert FitArea(nodeW, nodeH, w, h, safe) == FitSafeWidth(nodeW, w, h, safeW.value);
      } else {
        assert FitArea(nodeW, nodeH, w, h, safe) == FillHeight(nodeH, w, h);
      }
    }
  }

  /** `layout` step by step as the plugin performs it on JavaScript numbers: the placement of
      a `w` by `h` image with safe area `safe` in a `nodeW` by `nodeH` container. */
  method Arrange(nodeW: real, nodeH: real, w: real, h: real, safe: Area) returns (p: Placement)
    requires nodeW > 0.0 && nodeH > 0.0 && w > 0.0 && h > 0.0
    ensures p == Place(nodeW, nodeH, w, h, safe)
  {
    var x1, y1, x2, y2 := safe.x1, safe.y1, safe.x2, safe.y2;
    var bgW, bgH, scale := Scale(nodeW, nodeH, w, h, safe);

    var offsetY := (bgH - nodeH) / 2.0;
    var offsetX := (bgW - nodeW) / 2.0;

    var overY1 := Minus(Times(y1, scale), Some(offsetY));
    var overY2 := Minus(Minus(Some(bgH), Times(y2, scale)), Some(offsetY));
    if Less(overY1, 0.0) {
      offsetY := offsetY + overY1.value;
    } else if Less(overY2, 0.0) {
      offsetY := offsetY - overY2.value;
    }
    assert offsetY == Clamp(bgH, nodeH, Times(y1, scale), Times(y2, scale));

    var overX1 := Minus(Times(x1, scale), Some(offsetX));
    var overX2 := Minus(Minus(Some(bgW), Times(x2, scale)), Some(offsetX));
    if Less(overX1, 0.0) {
      offsetX := offsetX + overX1.value;
    } else if Less(overX2, 0.0) {
      offsetX := offsetX - overX2.value;
    }
    assert offsetX == Clamp(bgW, nodeW, Times(x1, scale), Times(x2, scale));

    PlaceOf(nodeW, nodeH, w, h, safe, bgW, bgH, scale, offsetX, offsetY);
    p := Placement(bgW, bgH, Round(-offsetX), Round(-offsetY));
  }

  // ---------------------------------------------------------------- safe areas without NaN

  /** `Overflows` for a safe area all of whose coordinates are numbers. */
  predicate OverrideFires(nodeW: real, nodeH: real, w: real, h: real, safe: Rect)
    requires nodeW > 0.0 && nodeH > 0.0 && w > 0.0 && h > 0.0
  {
    Overflows(nodeW, nodeH, w, h, AreaOf(safe))
  }

  /** `FitArea` for a safe area all of whose coordinates are numbers. */
  function Fit(nodeW: real, nodeH: real, w: real, h: real, safe: Rect): (r: Size)
    requires nodeW > 0.0 && nodeH > 0.0 && w > 0.0 && h > 0.0
    ensures r.scale == Div(r.width, w)
  {
    FitArea(nodeW, nodeH, w, h, AreaOf(safe))
  }

  /** `Clamp` for a safe span whose edges are numbers. */
  function AxisOffset(bg: real, node: real, lo: real, hi: real): (r: real)
    ensures r == lo || r == hi - node || r == (bg - node) / 2.0
  {
    Clamp(bg, node, Some(lo), Some(hi))
  }

  /** `Place` for a safe area all of whose coordinates are numbers. */
  function Compute(nodeW: real, nodeH: real, w: real, h: real, safe: Rect): (p: Placement)
    requires nodeW > 0.0 && nodeH > 0.0 && w > 0.0 && h > 0.0
    ensures p.width == Fit(nodeW, nodeH, w, h, safe).width && p.height == Fit(nodeW, nodeH, w, h, safe).height
  {
    Place(nodeW, nodeH, w, h, AreaOf(safe))
  }
}
