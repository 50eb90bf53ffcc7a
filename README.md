# jQuery backgroundcover in Dafny

This project models the core of the jQuery plugin `backgroundcover`
(`dist/jquery.backgroundcover.js`). The plugin draws an element's background image so that
it covers the element. It keeps a configurable *safe area* of the image, the part that must
stay visible, inside the element. The model has four parts:

- **Layout geometry** (`Layout`, facts in `LayoutFacts`). This module decides how large the
  image is drawn and at which offset.
  - The image first fills the container along one axis.
  - If the scaled safe area would then overflow the other axis, the image is rescaled so
    that, before rounding, the safe span would exactly match the container along that axis.
    Rounding the drawn size can then leave the image larger than the first fit and the safe
    area still overflowing (`LayoutFacts.ScaleGrowthExample`,
    `LayoutFacts.OverrideGapExample`).
  - The image is then centred, and the offset is clamped so that the safe area's start edge
    (or else its end edge) lies on the container's edge.
  - All arithmetic is over exact reals. `Math.round` is `JsMath.Round(x) = floor(x + 1/2)`,
    which is its meaning for negative arguments too.
  - A safe-area coordinate may be NaN (`JsMath.Number` is `Option<real>`, with `None` for
    NaN). NaN spreads through subtraction, multiplication and division, and every
    comparison with it is false. So a NaN span never triggers the override, and a NaN edge
    never moves the offset; the placement itself is always a number.
- **Safe-area resolution** (`SafeArea`). A specification such as `"0%,0%,100%,100%"` is split
  at commas. Each piece is trimmed and turned into image pixels. A piece ending in `%` is a
  share of the image's width (pieces 0 and 2) or its height (pieces 1 and 3). Any other piece
  is a pixel count read as `parseFloat` reads its leading decimal number. A piece that does
  not start with a digit has no value (NaN), and its coordinate stays NaN.
- **Image URL** (`ImageUrl`). `init` takes the configured image. Failing that, it takes the
  first group of `/url\(["']?([^"']*)["']?\)/i` matched against the element's CSS
  `background-image` value, or raises one of its two errors. The matcher follows the
  backtracking order of JavaScript regular expressions, so `url(a), url(b)` yields
  `a), url(b`.
- **The plugin object** (`BackgroundCover.Plugin`). This class holds the lifecycle state:
  - `loaded`, `imageWidth`, `imageHeight`;
  - `settings.safearea` (`settingsSafearea`) and the resolved `safearea`;
  - the arguments of the last `_update` call (`applied`).

  `setSafearea` before the image has loaded only stores the specification. `_onload`
  records the size and then replays the stored specification. `Plugin.Layout` hands the
  geometry to `Layout.Arrange`, which performs `layout`'s steps on JavaScript numbers (NaN
  included) and whose contract ties it to the function `Layout.Place`.

Inputs the plugin reads from the DOM become parameters:
- the container's width and height;
- the CSS `background-image` value;
- the loaded image's natural size.

The DOM write `_update` becomes the field `applied`.

With the default (whole-image) safe area the override fires whenever the plain cover fit
would crop, so for a container of whole pixels the code yields a *contain* fit rather than
a cover. For a 1000 by 500 image
in a 400 by 400 container it draws the image 400 by 200 at (0, 100)
(`LayoutFacts.WholeImageExample`; in general `LayoutFacts.WholeImageContained`). A safe area
of the middle half of the image gives a cover instead, 800 by 400 at (-200, 0)
(`LayoutFacts.CentredSafeAreaExample`).

## Model

| member | source | states |
|---|---|---|
| JsMath.Round | dist/jquery.backgroundcover.js:226-227 | `Math.round` gives the integer within half a unit of its argument, rounding halves up |
| JsMath.RoundMonotone | dist/jquery.backgroundcover.js:186 | rounding preserves order, which the fit bounds rely on |
| JsMath.Minus | dist/jquery.backgroundcover.js:167-168 | a difference is a number exactly when both operands are: NaN spreads |
| JsMath.Times | dist/jquery.backgroundcover.js:188 | a product by a number is NaN exactly when the other factor is |
| JsMath.Quotient | dist/jquery.backgroundcover.js:172-173 | a quotient by a non-zero number is NaN exactly when the dividend is |
| SafeArea.Trim | dist/jquery.backgroundcover.js:137-139 | the trimmed text neither starts nor ends with a blank |
| SafeArea.TrimStartDropsBlanks | dist/jquery.backgroundcover.js:137-139 | everything trimmed off the front is blank |
| SafeArea.TrimEndDropsBlanks | dist/jquery.backgroundcover.js:137-139 | everything trimmed off the end is blank |
| SafeArea.TrimPadded | dist/jquery.backgroundcover.js:137-139 | trimming blanks around a core that neither starts nor ends with a blank gives back exactly that core |
| SafeArea.TrimIdempotent | dist/jquery.backgroundcover.js:137-139 | trimming twice is trimming once |
| SafeArea.ParseFloat | dist/jquery.backgroundcover.js:142 | `parseFloat` of the restricted grammar yields a number exactly when the text starts with a digit, and that number is not negative |
| SafeArea.ParseNumeral | dist/jquery.backgroundcover.js:142 | `parseFloat` of digits with an optional fraction, followed by anything other than a digit or point, yields that numeral's value |
| SafeArea.ParseDigits | dist/jquery.backgroundcover.js:145 | a leading digit run is read as its decimal value plus the fraction after it |
| SafeArea.TextSize | dist/jquery.backgroundcover.js:141-145 | a trimmed piece has a value exactly when it starts with a digit; that value is a whole number of pixels |
| SafeArea.AbsSize | dist/jquery.backgroundcover.js:131-146 | a number passes through unchanged; a text has a value exactly when its trimmed form starts with a digit, and the value is whole |
| SafeArea.AbsSizeTrims | dist/jquery.backgroundcover.js:137-139 | surrounding blanks do not change a piece's size |
| SafeArea.AbsSizeOfPercent | dist/jquery.backgroundcover.js:141-143 | blanks, a numeral and `%` give `Round(p / 100 * base)` |
| SafeArea.AbsSizeOfPixels | dist/jquery.backgroundcover.js:145 | blanks and a numeral without `%` give `Round(p)` whatever the base |
| SafeArea.AbsSizePercentExample | dist/jquery.backgroundcover.js:141-143 | `"50%"` of 200 is 100 |
| SafeArea.AbsSizePixelExample | dist/jquery.backgroundcover.js:133-135 | `"10"` is 10 pixels; the number 5 passes through as 5 |
| SafeArea.AbsSizeFractionExample | dist/jquery.backgroundcover.js:137-143 | `" 12.5% "` of 200 is 25 |
| SafeArea.AbsSizeNaNExample | dist/jquery.backgroundcover.js:145 | `" auto"` has no value (NaN in JavaScript) |
| SafeArea.Split | dist/jquery.backgroundcover.js:129 | `split(",")` gives at least one piece and no piece holds a comma |
| SafeArea.SplitLength | dist/jquery.backgroundcover.js:129 | a specification with k commas splits into k + 1 pieces |
| SafeArea.JoinSplit | dist/jquery.backgroundcover.js:129 | joining the pieces with commas gives back the specification |
| SafeArea.SplitJoin | dist/jquery.backgroundcover.js:129 | splitting comma-free pieces joined by commas gives back those pieces |
| SafeArea.SplitFour | dist/jquery.backgroundcover.js:129 | four comma-free pieces joined by commas split back into exactly those four pieces |
| SafeArea.Resolve | dist/jquery.backgroundcover.js:129-153 | resolution fails for a missing piece exactly when the specification has fewer than three commas; otherwise it gives an area |
| SafeArea.ResolveJoined | dist/jquery.backgroundcover.js:148-153 | pieces 0 and 2 are sized against the image width and pieces 1 and 3 against its height, each coordinate being what `absSize` gives (NaN included); pieces beyond four are ignored |
| SafeArea.ResolveDefault | dist/jquery.backgroundcover.js:29-34 | the default specification `0%,0%,100%,100%` resolves to the whole image `(0, 0, w, h)`, no coordinate NaN |
| SafeArea.SplitNaNSpec | dist/jquery.backgroundcover.js:129 | `"auto,0%,100%,100%"` splits into `auto`, `0%`, `100%`, `100%` |
| SafeArea.ResolveNaNExample | dist/jquery.backgroundcover.js:141-153 | `"auto,0%,100%,100%"` on a 1000 by 500 image resolves to a NaN left edge and the numbers 0, 1000 and 500 |
| ImageUrl.ResolveImage | dist/jquery.backgroundcover.js:58-69 | a non-empty configured image is taken as it is |
| ImageUrl.GroupFrom | dist/jquery.backgroundcover.js:65 | `([^"']*)["']?\)` from a position: the group found is one the rest of the expression accepts after, and the longest such; none exactly when no end is accepted |
| ImageUrl.MatchAt | dist/jquery.backgroundcover.js:65 | the expression at a `url(`: the group is `GroupFrom` after the quote when a quote follows `url(` and the quoted reading matches, and `GroupFrom` right after `url(` otherwise (the longest group the rest accepts); no group exactly when neither reading matches |
| ImageUrl.Match | dist/jquery.backgroundcover.js:65 | `cssImage.match(...)` finds nothing only when the expression matches at no `url(` from the start position on |
| ImageUrl.NoImageAvailable | dist/jquery.backgroundcover.js:59-64 | with no configured image and an empty CSS value, `init` fails with "No background image available" |
| ImageUrl.NoUrlNotRetrievable | dist/jquery.backgroundcover.js:65-68 | a non-empty CSS value with no `url(` fails with "Background image could not be retrieved from CSS property" |
| ImageUrl.NoMatchNotRetrievable | dist/jquery.backgroundcover.js:65-68 | a non-empty CSS value in which no `url(` starts a match fails with "Background image could not be retrieved from CSS property" |
| ImageUrl.UnclosedExample | dist/jquery.backgroundcover.js:65-68 | `url(abc`, with no closing parenthesis, is not retrievable |
| ImageUrl.NoUrlNoMatch | dist/jquery.backgroundcover.js:65 | the expression does not match a value with no `url(` |
| ImageUrl.NoneValueExample | dist/jquery.backgroundcover.js:65-68 | the CSS value `none` is not retrievable |
| ImageUrl.MatchSound | dist/jquery.backgroundcover.js:65 | a match is what the expression matches at the leftmost `url(` (letters in either case) where it matches at all, and its group holds no quote |
| ImageUrl.QuotedUrl | dist/jquery.backgroundcover.js:65-69 | `url("u")` and `url('u')` yield `u` when `u` holds no quote |
| ImageUrl.BareUrl | dist/jquery.backgroundcover.js:65-69 | `url(u)` yields `u` when `u` holds no quote, even if `u` holds `)` |
| ImageUrl.TwoLayersExample | dist/jquery.backgroundcover.js:65-69 | the greedy group takes `a), url(b` from `url(a), url(b)` |
| Layout.AxisOffset | dist/jquery.backgroundcover.js:205-224 | one axis's offset is the start of the scaled safe span, its end less the container size, or the centred offset |
| Layout.Clamp | dist/jquery.backgroundcover.js:205-224 | one axis's offset is the centred offset, the start of the scaled safe span, or its end less the container size, the last two only where that edge is a number |
| Layout.PrimaryFit | dist/jquery.backgroundcover.js:184-197 | the first fit spans the container's width in the wide case and its height otherwise, with scale `bgW / w` |
| Layout.Overflows | dist/jquery.backgroundcover.js:188-198 | the override's test can only succeed when the safe span on the tested axis is a positive number |
| Layout.FitArea | dist/jquery.backgroundcover.js:184-203 | the scale is always the drawn width over the image width, NaN safe area or not |
| Layout.Place | dist/jquery.backgroundcover.js:184-229 | the placement's size is the size `FitArea` settles on |
| Layout.Scale | dist/jquery.backgroundcover.js:184-203 | the drawn size and scale computed step by step, on NaN-carrying numbers, are those of `FitArea` |
| Layout.Arrange | dist/jquery.backgroundcover.js:167-229 | the placement `layout` computes step by step, on NaN-carrying numbers, is `Place` of its inputs |
| Layout.Compute | dist/jquery.backgroundcover.js:184-229 | the placement's size is the fitted size |
| Layout.Fit | dist/jquery.backgroundcover.js:184-203 | the scale is always the drawn width over the image width |
| LayoutFacts.AxisOffsetCases | dist/jquery.backgroundcover.js:205-224 | a start overflow aligns the safe span's start with the container's start; otherwise an end overflow aligns its end with the container's end; otherwise the image stays centred |
| LayoutFacts.SafeSpanVisible | dist/jquery.backgroundcover.js:205-224 | a safe span no longer than the container lies inside it after clamping |
| LayoutFacts.ClampKeepsCover | dist/jquery.backgroundcover.js:205-224 | a safe span inside a drawn image at least as large as the container keeps the container covered after clamping |
| LayoutFacts.RoundedSpanVisible | dist/jquery.backgroundcover.js:205-227 | after `Round(-offset)` the safe span lies inside the container within half a pixel |
| LayoutFacts.RoundedKeepsCover | dist/jquery.backgroundcover.js:205-227 | with whole-pixel sizes, the rounded offset still keeps the container covered |
| LayoutFacts.WideCross | dist/jquery.backgroundcover.js:162-184 | `nodeW/nodeH > w/h` exactly when `nodeW*h > w*nodeH` |
| LayoutFacts.FillWidthValues | dist/jquery.backgroundcover.js:185-187 | filling the width gives width `nodeW`, height `Round(nodeW*h/w)` and scale `nodeW/w` |
| LayoutFacts.FillHeightValues | dist/jquery.backgroundcover.js:195-197 | filling the height gives height `nodeH`, width `Round(nodeH*w/h)` and scale `width/w` |
| LayoutFacts.PrimaryFitWide | dist/jquery.backgroundcover.js:184-187 | for a relatively wider whole-pixel container the first fit has `bgW == nodeW` and `bgH == Round(nodeW/aspect) >= nodeH` |
| LayoutFacts.PrimaryFitNarrow | dist/jquery.backgroundcover.js:194-197 | otherwise, for a whole-pixel container, it has `bgH == nodeH` and `bgW == Round(nodeH*aspect) >= nodeW` |
| LayoutFacts.OverrideWide | dist/jquery.backgroundcover.js:188 | for a wider container the override fires exactly when `safeH*nodeW > nodeH*w`, strictly, so equality keeps the first fit |
| LayoutFacts.OverrideNarrow | dist/jquery.backgroundcover.js:198 | otherwise it fires exactly when `safeW*bgW > nodeW*w`, strictly |
| LayoutFacts.NoOverrideKeepsPrimary | dist/jquery.backgroundcover.js:184-203 | when the override does not fire, the size `layout` settles on is the first fit |
| LayoutFacts.OverrideWideValues | dist/jquery.backgroundcover.js:188-191 | when the override fires for a wider container the safe height is positive, `bgH == Round(nodeH*h/safeH)` and `bgW == Round(bgH*w/h)` |
| LayoutFacts.OverrideNarrowValues | dist/jquery.backgroundcover.js:198-201 | otherwise the safe width is positive, `bgW == Round(nodeW*w/safeW)` and `bgH == Round(bgW*h/w)` |
| LayoutFacts.OverrideShrinksWide | dist/jquery.backgroundcover.js:188-191 | the override never makes the drawn height larger than the first fit's |
| LayoutFacts.OverrideShrinksNarrow | dist/jquery.backgroundcover.js:198-201 | the override never makes the drawn width larger than the first fit's |
| LayoutFacts.NaNSpanKeepsPrimary | dist/jquery.backgroundcover.js:184-203 | a NaN edge on the axis the first fit left free means the override does not fire and the first fit is kept |
| LayoutFacts.NaNEdgeIgnored | dist/jquery.backgroundcover.js:205-224 | with both edges NaN the image stays centred; with one edge NaN only the other edge can move the offset, and only in its own direction |
| LayoutFacts.FitKeepsAspect | dist/jquery.backgroundcover.js:184-203 | the dimension computed second is within half a pixel of the other one scaled by the aspect ratio, in every path |
| LayoutFacts.ScaledHeightOff | dist/jquery.backgroundcover.js:184-203 | when the width is computed second, the image height times the scale is within half a pixel times `h/w` of the drawn height |
| LayoutFacts.WholeImageWide | dist/jquery.backgroundcover.js:184-192 | with a whole-image safe area and a relatively wider whole-pixel container the override always fires; the height is the container's and the width fits |
| LayoutFacts.WholeImageNarrow | dist/jquery.backgroundcover.js:194-202 | with a whole-image safe area and a narrower whole-pixel container the width is the container's and the height fits |
| LayoutFacts.WholeImageContained | dist/jquery.backgroundcover.js:184-203 | with a whole-image safe area and a whole-pixel container the drawn image fits inside the container on both axes and fills it on one: a contain fit |
| LayoutFacts.CoverWide | dist/jquery.backgroundcover.js:184-227 | for a relatively wider whole-pixel container without override and a safe area inside the image, the drawn image covers the container on both axes |
| LayoutFacts.CoverNarrow | dist/jquery.backgroundcover.js:194-227 | for a narrower whole-pixel container without override, the image covers the container horizontally, and vertically when the image is not portrait |
| LayoutFacts.VisibleWide | dist/jquery.backgroundcover.js:184-227 | for a wider container without override, the scaled safe span is visible vertically within half a pixel |
| LayoutFacts.VisibleNarrow | dist/jquery.backgroundcover.js:194-227 | for a narrower container without override, the scaled safe span is visible horizontally within half a pixel |
| LayoutFacts.VisibleWideAcross | dist/jquery.backgroundcover.js:184-227 | for a wider container without override and a safe area no wider than the image, the scaled safe span is visible horizontally within half a pixel |
| LayoutFacts.RoundedSpanNearlyVisible | dist/jquery.backgroundcover.js:205-227 | a safe span up to `e` longer than the container is visible after clamping and rounding within `e` plus half a pixel |
| LayoutFacts.VisibleNarrowDown | dist/jquery.backgroundcover.js:194-227 | for a narrower container without override and a safe area no taller than the image, the scaled safe span is visible vertically within `0.5 + 0.5*h/w` pixels |
| LayoutFacts.WholeImageExample | dist/jquery.backgroundcover.js:184-227 | a 1000 by 500 image with the whole-image safe area in a 400 by 400 container is drawn 400 by 200 at (0, 100) |
| LayoutFacts.CentredSafeAreaExample | dist/jquery.backgroundcover.js:184-227 | with safe area (250, 0, 750, 500) the same image is drawn 800 by 400 at (-200, 0) |
| LayoutFacts.NaNEdgeExample | dist/jquery.backgroundcover.js:184-229 | with the area (NaN, 0, 1000, 500) the 1000 by 500 image in a 400 by 400 container is drawn 800 by 400 at (-400, 0): only the right edge is clamped |
| LayoutFacts.PortraitGapExample | dist/jquery.backgroundcover.js:194-215 | a 10 by 30 image in a 10 by 50 container with safe area (0, 0, 5, 30) is drawn 17 by 50 at (0, -1), leaving the bottom pixel row uncovered |
| LayoutFacts.OverrideGapExample | dist/jquery.backgroundcover.js:184-227 | a 101 by 1000 image, all of it safe, in a 100 by 500 container is drawn 51 by 500 at (25, -5): after the override the safe area still does not fit |
| LayoutFacts.ScaleGrowthExample | dist/jquery.backgroundcover.js:184-192 | a 7 by 3 image with safe area (0, 0, 7, 2) in a 4 by 1 container: the first fit is 4 by 2 at scale 4/7, the override draws 5 by 2 at scale 5/7, and the scaled safe span, 10/7, still exceeds the container |
| LayoutFacts.PortraitLiftExample | dist/jquery.backgroundcover.js:194-227 | a 10 by 100 image with safe area (0, 0, 5, 100) in a 10 by 105 container is drawn 11 by 105 at (0, -5), leaving 5 rows uncovered |
| BackgroundCover.Plugin.constructor | dist/jquery.backgroundcover.js:37-48 | the new plugin holds the merged settings, is not loaded, has no safe area and has applied nothing |
| BackgroundCover.Plugin.Init | dist/jquery.backgroundcover.js:58-92 | `init` settles on the image that `ResolveImage` gives and marks the plugin not loaded, or fails with that error, leaving the image as configured |
| BackgroundCover.Plugin.Layout | dist/jquery.backgroundcover.js:156-229 | before load nothing is applied; loaded but with no safe area ever resolved, it raises a TypeError; otherwise the placement applied is `Place` of the container, the image size and the stored area, NaN coordinates included; no other field changes |
| BackgroundCover.Plugin.SetSafearea | dist/jquery.backgroundcover.js:122-155 | the specification is always stored; before load nothing else changes; after load a missing piece raises a TypeError and leaves the safe area, otherwise the resolved area, NaN coordinates included, is stored and laid out |
| BackgroundCover.Plugin.OnLoad | dist/jquery.backgroundcover.js:95-101 | `_onload` records the size, marks the plugin loaded, and resolves and lays out the stored specification |
| BackgroundCover.DeferredSafeareaScenario | dist/jquery.backgroundcover.js:95-128 | for any request made before load nothing is applied; on load the latest request, not the configured one, is resolved and laid out, or nothing is applied if it lacks a piece |
| BackgroundCover.MissingComponentScenario | dist/jquery.backgroundcover.js:95-166 | a two-piece specification raises a TypeError on load, and so does every later layout |

## Left out

- DOM and jQuery effects are not modelled, because they are presentation only:
  - the `img` versus `css` render mode;
  - the injected `<img>` element;
  - forcing `position` and `overflow`;
  - the CSS properties `_update` writes.

  `_update` is the field `applied`.
- Browser image loading is not modelled: `new Image()`, the `onload`/`complete` wiring and the
  IE cache-busting timestamp are I/O and wall-clock time. `OnLoad` is called with the natural
  size the browser would report.
- The window resize listener and the `$.data` wrapper that prevents double instantiation are
  event and framework glue. A resize is a call of `Plugin.Layout` with the new container size.
- `$.extend` settings merging reads the element's `data-` attributes. The constructor takes
  the merged `image` and `safearea` settings.
- Infinity and IEEE-754 rounding are not modelled: every size is an exact real.
- Zero-sized images are excluded by preconditions, because the code divides by the image's
  width and height. Zero-sized containers are excluded too, although the code gives a finite
  placement there: its only division by the container's size is `nodeW / nodeH`, whose
  result is only compared. A 0 by 0 container gets `_update(0, 0, 0, 0)`.
- The fit and cover facts (`LayoutFacts.PrimaryFitWide`, `PrimaryFitNarrow`,
  `WholeImageWide`, `WholeImageNarrow`, `WholeImageContained`, `CoverWide`, `CoverNarrow`)
  assume a container of whole pixels. jQuery can report fractional sizes, and then rounding
  can fall short or overshoot: a 10.4 by 10.3 container with a 10 by 10 image gets
  `bgH = Math.round(10.4) = 10`, less than the container's height, and with the whole-image
  safe area a 10.6 by 10.7 container gets an 11 by 11 image, larger on both axes.
- `parseFloat` is modelled on the digits-and-point grammar only. A sign, `Infinity` or a
  leading point gives no value in the model, where JavaScript reads a number.
- SafeArea.ParseFloat: an exponent is not read. `1e2` reads as 1 in the model, where
  JavaScript gives 100.
- Blanks are the ASCII white space characters together with U+00A0, U+FEFF, U+2028 and U+2029. The other Unicode space separators are not modelled.
- `absSize` on an engine without `String.prototype.trim` is not modelled.
- BackgroundCover.Plugin.SetSafearea: a `safearea` setting that is not a string (for example
  `null`) is not modelled.
- LayoutFacts.OverrideShrinksWide: states that the override does not enlarge the override
  axis's dimension, not that `scale` never increases. In the wider-container branch, rounding
  `bgW` up can make the new scale exceed the first fit's by a fraction of a pixel per image
  pixel (`LayoutFacts.ScaleGrowthExample`: from 4/7 to 5/7).
- LayoutFacts.CoverNarrow: the vertical cover is stated only for images that are not portrait
  (`h <= w`). For portrait images, rounding `bgW` up can push the scaled safe span below the
  drawn image's bottom. The bottom clamp then lifts the image, by one pixel in
  `LayoutFacts.PortraitGapExample` and by five in `LayoutFacts.PortraitLiftExample`: the
  lift grows with `h/w` (`LayoutFacts.ScaledHeightOff`).
- Cover and visibility after the override fires are not proved, because they do not hold.
  The scale is taken from the rounded `bgW`, so the scaled safe span can overrun the
  container by up to about `0.5 + 0.5*h/w` pixels (`LayoutFacts.OverrideGapExample`). Only
  the size facts are proved (`OverrideWideValues`, `OverrideShrinksWide`).
- LayoutFacts.VisibleNarrow: vertical visibility in the narrower-container case is stated
  by `LayoutFacts.VisibleNarrowDown` only within `0.5 + 0.5*h/w` pixels, not half a pixel.
  The scale comes from the rounded `bgW`, and `LayoutFacts.PortraitGapExample` puts the safe
  span's top edge one full pixel outside the container.
- LayoutFacts.WholeImageContained: the whole-image *contain* fit is a statement about the
  drawn size only; the offsets are not stated.
- Gruntfile.js holds build, lint and release configuration, with no runtime logic.
