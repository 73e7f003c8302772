# Focal point widget: a Dafny model of its coordinate logic

The Backdrop focal point widget lets an editor pick the point of interest of
an image by dragging a crosshair indicator over a preview, or by clicking the
preview. The point is stored in a text field as two whole percentages,
`"left,top"`. When the field changes, the indicator moves to those
percentages of the image and the preview link's last path segment is
replaced with the URL-encoded value.

This project models the part of `js/focal_point.js` that computes and keeps
things in step:

- `Geometry` covers `focalPointRound` (with `Math.round` read as
  `floor(v + 0.5)` over exact reals), pixel-to-percent and percent-to-pixel
  conversion, and `focalPointGetDimensions` as a choice between the rendered
  size and the intrinsic size.
- `CoordinateStore` covers how `focalPointSetIndicator` reads the field.
  It splits on `,`, applies `parseInt(_, 10)` to the first two pieces, and
  uses `50,50` when the field is empty or undefined. It also covers how the
  field is rewritten to its first two pieces, and how `focalPointSetValue`
  formats `"L,T"`.
- `PreviewLink` covers the change handler's href rewrite: split on `/`, pop
  the last segment, push `encodeURIComponent(value)`, then join.
- `FocalPoint.Widget` is a class. Its fields are the field value, the
  indicator's CSS `left`/`top`, the preview href and the preview request
  registry. Its methods are `SetIndicator`, `Change` (the field's change
  handler), `SetValue`, `Click` (the image click handler) and `DragStop` (the
  draggable's stop callback). `SetValue` fires `Change`. `SetIndicator`
  writes the field without firing it, so the handlers cannot loop.
- `Numbers`, `Text` and `UriComponent` model the JavaScript built-ins that
  the logic calls. `Numbers` has `Math.round`, `parseInt` on strings and on
  numbers, and integer-to-string conversion. `Text` has `split` and `join`.
  `UriComponent` has `encodeURIComponent`, with `decodeURIComponent` as its
  inverse.

Pixels are exact reals and percentages are integers. JavaScript's NaN, as
produced by `parseInt` on text without digits, is `None`.

The code behaves as follows on inputs a reader might expect to be cleaned
up:

- A field value that is not empty and does not parse is not replaced by
  `50,50`. `parseInt` gives NaN, jQuery ignores a NaN CSS value, so that
  indicator coordinate stays where it was. The field is rewritten with the
  word `undefined` in place of a missing second piece (see
  `MalformedIsNotDefaulted`).
- Out-of-range values typed into the field are not clamped when the
  indicator is placed, and they are not clamped when the field is rewritten
  (`OutOfRangeIsNotClamped`). Clamping happens only when a pixel offset
  becomes a percentage.
- No equality check guards the change notification. `SetValue` always fires
  it, and `SetIndicator` never does.
- Halves are rounded toward +∞, as `Math.round` does, not away from zero.
  The two rules differ only for negative halves, and those clamp to 0 either
  way.
- The field is not required to hold exactly two pieces. The first two are
  kept and the rest are dropped (`NormaliseKeepsFirstTwo`).

## Model

| member | source | states |
|---|---|---|
| Numbers.Round | js/focal_point.js:161 | `Math.round(v)` is the integer r with r − ½ ≤ v < r + ½ |
| Numbers.RoundIsNearest | js/focal_point.js:161 | no integer is closer to v than `Math.round(v)` |
| Numbers.Trunc | js/focal_point.js:70-71 | `parseInt` of a click offset truncates toward zero: for x ≥ 0 it gives 0 ≤ r ≤ x < r + 1, and the mirror bound for x < 0 |
| Numbers.IntToString | js/focal_point.js:127 | an integer concatenated to a string prints as a non-empty run of digits, preceded by a minus sign exactly when the integer is negative |
| Numbers.ParseInt | js/focal_point.js:143-144 | `parseInt(s, 10)` is NaN when `s` holds no digit at all, and it gives a negative number only when `s` holds a minus sign |
| Numbers.ParseIntOfIntToString | js/focal_point.js:143-144 | `parseInt` reads back exactly the integer that was printed, whatever non-digit text follows it |
| Numbers.ParseIntOfUndefined | js/focal_point.js:144 | `parseInt` of a missing second piece (the text `undefined`) is NaN |
| Text.Split | js/focal_point.js:142 | `split` on one character gives at least one piece, and no piece contains the separator |
| Text.JoinSplit | js/focal_point.js:89-92 | joining the pieces of a split with the same separator gives the original string |
| Text.Join | js/focal_point.js:92 | joining one or more separator-free pieces and splitting the result again gives those pieces back |
| UriComponent.Encode | js/focal_point.js:91 | `encodeURIComponent` outputs only unreserved characters and `%`, so its output has no `/` and no `,` |
| UriComponent.DecodeEncode | js/focal_point.js:91 | `decodeURIComponent(encodeURIComponent(s)) == s` for every string of Unicode scalar values |
| Geometry.FocalPointRound | js/focal_point.js:160-165 | when min ≤ max, the result lies in [min, max], and an integer already in [min, max] comes back unchanged |
| Geometry.FocalPointRoundIsNearestInRange | js/focal_point.js:160-165 | the result is the integer in [min, max] closest to the value |
| Geometry.PixelsToPercent | js/focal_point.js:121-125 | with a positive dimension the percentage is an integer in [0, 100], an offset ≤ 0 gives 0, and an offset ≥ the dimension gives 100 |
| Geometry.PercentToPixels | js/focal_point.js:143-144 | a percentage in [0, 100] of a non-negative dimension lies in [0, dimension], 50 gives half of it, and 0 gives 0 |
| Geometry.PercentRoundTrip | js/focal_point.js:124-125 | placing the indicator at p% and converting back gives p, for every integer p in [0, 100] |
| Geometry.PixelRoundTripError | js/focal_point.js:124-125 | converting an offset inside the image to a percentage and back moves it by at most half a percent of the dimension |
| Geometry.NoDrift | js/focal_point.js:124-125 | converting pixels → percent → pixels → percent gives the same percentage as the first conversion |
| Geometry.PixelsToPercentMonotone | js/focal_point.js:124-125 | a larger offset never gives a smaller percentage |
| Geometry.GetDimensions | js/focal_point.js:175-195 | returns the rendered size when both of its sides are non-zero and the intrinsic size otherwise, and the result is non-degenerate whenever the intrinsic size is |
| CoordinateStore.FieldPieces | js/focal_point.js:142 | an empty or undefined value gives `[50, 50]`; any other value gives comma-free pieces that join back into that value |
| CoordinateStore.Piece | js/focal_point.js:143-145 | `coordinates[i]` is the i-th piece when there is one; past the end it is the text `undefined`, which `parseInt` reads as NaN; it holds no comma when no piece does |
| CoordinateStore.ParseCoordinates | js/focal_point.js:142-144 | an empty or undefined field reads as (50, 50); a non-empty value without a comma has no second piece, so its top coordinate is NaN |
| CoordinateStore.Normalise | js/focal_point.js:145 | the rewritten field holds exactly two comma-free pieces, which are the first two pieces of the old value |
| CoordinateStore.DefaultIsCentre | js/focal_point.js:142-145 | an empty or undefined field is rewritten to `"50,50"` |
| CoordinateStore.Format | js/focal_point.js:127 | the `"L,T"` that `focalPointSetValue` writes reads back as (L, T) through `focalPointSetIndicator`, and is already in the form that function rewrites the field to |
| CoordinateStore.NormaliseKeepsPair | js/focal_point.js:145 | a value of the form `a,b` (neither part containing a comma) is left unchanged |
| CoordinateStore.NormaliseKeepsFirstTwo | js/focal_point.js:142-145 | of a value with two or more pieces, only the first two survive |
| CoordinateStore.NormaliseIdempotent | js/focal_point.js:145 | rewriting the field twice gives the same result as rewriting it once |
| CoordinateStore.NormalisePreservesCoordinates | js/focal_point.js:142-145 | rewriting the field does not change which coordinates it reads as |
| CoordinateStore.OutOfRangeIsNotClamped | js/focal_point.js:143-144 | `"150,-20"` reads as 150 and −20, with no clamping |
| CoordinateStore.MalformedIsNotDefaulted | js/focal_point.js:142-145 | `"abc"` reads as NaN, NaN (not the default) and is rewritten to `"abc,undefined"` |
| FocalPoint.ThirtySeventy | js/focal_point.js:142-145 | `"30,70"` is what `focalPointSetValue` writes for (30, 70); it reads back as (30, 70) and is left unchanged |
| PreviewLink.RewriteHref | js/focal_point.js:89-92 | the new href has the same number of `/` segments, the same segments except the last, and the encoded value as the last segment |
| PreviewLink.RewriteCarriesValue | js/focal_point.js:91 | decoding the new last segment gives the field value |
| PreviewLink.RewriteTwice | js/focal_point.js:89-93 | only the latest value shows: rewriting with v and then w gives the same href as rewriting once with w |
| PreviewLink.EncodeExample | js/focal_point.js:91 | the value `30,70` is encoded as `30%2C70` |
| FocalPoint.ThirtySeventyHref | js/focal_point.js:89-93 | after the field changes to `30,70`, the href keeps its segment count and ends in `30%2C70` |
| FocalPoint.CornerValues | js/focal_point.js:121-127 | dropping at the top-left corner writes `"0,0"`; dropping at the bottom-right corner writes `"100,100"` |
| FocalPoint.Widget.PreviewId | js/focal_point.js:88 | the preview request's key is the widget's id followed by `-preview-link` |
| FocalPoint.DistinctPreviewIds | js/focal_point.js:88 | widgets with different ids use different preview request keys, so one widget's change handler never rewrites another's request |
| FocalPoint.Widget.Size | js/focal_point.js:141 | the indicator is placed against the rendered size of a visible image and the intrinsic size of a hidden one, and that size is non-degenerate whenever the intrinsic size is |
| FocalPoint.Widget.constructor | js/focal_point.js:18-23 | a widget starts with the given id, image sizes, field, preview href and registry |
| FocalPoint.Widget.SetIndicator | js/focal_point.js:140-146 | puts the indicator at the field's percentages of the chosen image size, leaving a coordinate unchanged when its piece is NaN; rewrites the field to its normal form without changing its coordinates; when both pieces parse, field and indicator end up in step; in-step state is left unchanged (idempotent); an empty field gives `"50,50"` and the image centre |
| FocalPoint.Widget.Change | js/focal_point.js:82-97 | repositions the indicator as `SetIndicator` does, then sets the preview href and the registered request's URL to the href rewritten with the normalised field value; with no preview link, nothing else changes |
| FocalPoint.Widget.SetValue | js/focal_point.js:117-128 | the field becomes `"L,T"` with L and T the clamped, rounded percentages of the offsets (each in [0, 100]); the change handler then puts the indicator at L% and T% of the image and updates the preview link, leaving field and indicator in step |
| FocalPoint.Widget.Click | js/focal_point.js:61-73 | records the click offsets, truncated to whole pixels, exactly as `SetValue` records an offset |
| FocalPoint.Widget.DragStop | js/focal_point.js:52-57 | records the drop offset as `SetValue` does |

## Left out

- Attaching the behaviour is not modelled. This covers `.once`,
  `Backdrop.checkPlain` and the DOM queries that find the indicator, the
  image, the field and the preview link (js/focal_point.js:16-23). It is
  framework plumbing; the constructor takes what those queries find.
- Hiding and toggling the form item, the double-click handler, `wrapAll` and
  the cursor style are not modelled. They are presentation only.
- The `setTimeout` and the image `load` trigger are not modelled. They are
  event-loop scheduling; what they end in is a call of `SetIndicator`, which
  is modelled.
- jQuery UI `draggable` and its containment are foreign. The drop offset is
  the input of `DragStop`.
- The layout queries `$img.offset()` and `$indicator.offset()` are not
  modelled, and neither is the `pageX − offset` fallback for browsers without
  `offsetX`. `SetValue` takes the two deltas as given numbers. `Click` and
  `DragStop` assume that the indicator's offset from the image equals its
  CSS `left`/`top`.
- The `new Image()` probe is a browser call. The intrinsic size is a
  constructor parameter.
- Both image sizes are constant for the life of a widget. Showing or hiding
  the image between events is not modelled.
- FocalPoint.Widget.SetValue requires a rendered image with non-zero width
  and height, because the source divides by `$img.width()` and
  `$img.height()`. Infinity and NaN from a hidden image are not modelled.
- FocalPoint.Widget.Click requires a rendered image with non-zero width and
  height, for the same reason.
- FocalPoint.Widget.DragStop requires a rendered image with non-zero width
  and height, for the same reason.
- Arithmetic is exact, not IEEE double. Where a double computation of
  `100 * delta / width` lands just beside a .5 tie, the source's rounding
  can differ from the model's.
- Numbers.Trunc: `parseInt` of a number parses its printed form. Numbers
  smaller than 1e-6 in magnitude, or at least 1e21, print in exponent
  notation (`parseInt(1e-7, 10)` is 1), and this is not modelled.
- Numbers.IntToString: integers at or above 1e21 in magnitude print in
  exponent notation in JavaScript, and integers above 2^53 lose precision in
  `parseInt`. Neither is modelled. The widget only prints percentages in
  [0, 100].
- Strings are sequences of Unicode scalar values. JavaScript strings may
  hold lone surrogates, on which `encodeURIComponent` throws `URIError`.
  That case is not modelled.
- A missing `Backdrop.ajax` entry for the preview request makes the source
  throw after the href has been set. In the model the registry is left
  unchanged in that case, which is the state the source leaves behind.
  `url` and `options.url` are always set together, so they are one URL in
  the model.
- A preview link without an `href` attribute makes `split` throw. That case
  is not modelled: the preview href is a string whenever a link exists.
- A field element that is missing (`$field.val()` is undefined) is covered
  only by `FieldPieces`, `ParseCoordinates` and `DefaultIsCentre`. The widget class assumes the
  field exists.
