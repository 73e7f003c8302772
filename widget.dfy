/**
 * One focal point widget as the behaviour in `focal_point.js` wires it: an
 * indicator positioned over an image, the text field holding the focal
 * point as `"left,top"` percentages, and optionally a preview link whose
 * last path segment carries the field value. The event handlers become
 * methods: `SetValue` (drag stop and click end in it), `SetIndicator`
 * (image load and field change call it) and `Change`, the field's change
 * handler, which `SetValue` fires and `SetIndicator` does not.
 */
module FocalPoint {
  import opened Wrappers
  import opened Numbers
  import opened Geometry
  import opened CoordinateStore
  import opened PreviewLink
  import Text

  class Widget {
    /** The indicator element's id, from which the preview request's key is derived. */
    const id: string
    /** `$img.width()` and `$img.height()`: both zero while the image is hidden. */
    const rendered: Dimensions
    /** What an `Image` probe of the same source reports. */
    const intrinsic: Dimensions

    /** The value of the focal point field. */
    var field: string
    /** The indicator's CSS `left` and `top`, its offset from the image's corner in pixels. */
    var indicatorLeft: real
    var indicatorTop: real
    /** The preview link's href; `None` when the page has no preview link. */
    var previewHref: Option<string>
    /** The URLs of the framework's registered preview requests, by key. */
    var ajaxUrls: map<string, string>

    constructor (id: string, rendered: Dimensions, intrinsic: Dimensions, field: string,
                 previewHref: Option<string>, ajaxUrls: map<string, string>)
      ensures this.id == id && this.rendered == rendered && this.intrinsic == intrinsic
      ensures this.field == field && this.previewHref == previewHref && this.ajaxUrls == ajaxUrls
      ensures indicatorLeft == 0.0 && indicatorTop == 0.0
    {
      this.id := id;
      this.rendered := rendered;
      this.intrinsic := intrinsic;
      this.field := field;
      this.previewHref := previewHref;
      this.ajaxUrls := ajaxUrls;
      indicatorLeft := 0.0;
      indicatorTop := 0.0;
    }

    /**
     * The key of the preview request in the framework's registry: the
     * widget's id followed by `-preview-link`, so widgets with different
     * ids never share a request (`DistinctPreviewIds`).
     */
    function PreviewId(): (key: string)
      ensures |key| == |id| + |"-preview-link"|
      ensures key[..|id|] == id && key[|id|..] == "-preview-link"
    {
      id + "-preview-link"
    }

    /**
     * The image size the indicator is placed against: the rendered size of
     * a visible image, the intrinsic size of a hidden one, and never a
     * degenerate size when the image source has one.
     */
    function Size(): (d: Dimensions)
      ensures rendered.width != 0.0 && rendered.height != 0.0 ==> d == rendered
      ensures rendered.width == 0.0 || rendered.height == 0.0 ==> d == intrinsic
      ensures intrinsic.width != 0.0 && intrinsic.height != 0.0 ==> d.width != 0.0 && d.height != 0.0
    {
      GetDimensions(rendered, intrinsic)
    }

    /**
     * Field and indicator agree: the field is in normal form, both of its
     * numbers parse, and the indicator sits at those percentages of the image.
     */
    ghost predicate InSync()
      reads this`field, this`indicatorLeft, this`indicatorTop
    {
      var c := ParseCoordinates(Some(field));
      field == Normalise(Some(field)) && c.left.Some? && c.top.Some?
      && indicatorLeft == PercentToPixels(c.left.value, Size().width)
      && indicatorTop == PercentToPixels(c.top.value, Size().height)
    }

    /** The preview link and the registry after a change of the field to `value`. */
    ghost predicate PreviewFollows(oldHref: Option<string>, oldUrls: map<string, string>, value: string)
      reads this`previewHref, this`ajaxUrls
    {
      previewHref == (if oldHref.Some? then Some(RewriteHref(oldHref.value, value)) else None)
      && ajaxUrls == (if oldHref.Some? && PreviewId() in oldUrls
                      then oldUrls[PreviewId() := RewriteHref(oldHref.value, value)] else oldUrls)
    }

    /**
     * `focalPointSetIndicator`: place the indicator at the percentages the
     * field holds (50,50 when it is empty) and rewrite the field to its
     * first two pieces, without firing the change handler. A piece that
     * does not parse leaves that coordinate where it was (jQuery ignores a
     * NaN CSS value); nothing is clamped.
     */
    method SetIndicator()
      modifies this`field, this`indicatorLeft, this`indicatorTop
      ensures field == Normalise(Some(old(field)))
      ensures ParseCoordinates(Some(field)) == ParseCoordinates(Some(old(field)))
      ensures var c := ParseCoordinates(Some(old(field)));
              indicatorLeft == (if c.left.Some? then PercentToPixels(c.left.value, Size().width) else old(indicatorLeft))
              && indicatorTop == (if c.top.Some? then PercentToPixels(c.top.value, Size().height) else old(indicatorTop))
      ensures var c := ParseCoordinates(Some(old(field)));
              c.left.Some? && c.top.Some? ==> InSync()
      ensures old(InSync()) ==> field == old(field) && indicatorLeft == old(indicatorLeft) && indicatorTop == old(indicatorTop)
      ensures old(field) == "" ==>
                field == "50,50" && indicatorLeft == Size().width / 2.0 && indicatorTop == Size().height / 2.0
    {
      var dimensions := GetDimensions(rendered, intrinsic);
      var pieces := FieldPieces(Some(field));
      var left := ParseInt(Piece(pieces, 0));
      var top := ParseInt(Piece(pieces, 1));
      if left.Some? {
        indicatorLeft := PercentToPixels(left.value, dimensions.width);
      }
      if top.Some? {
        indicatorTop := PercentToPixels(top.value, dimensions.height);
      }
      NormaliseIdempotent(Some(field));
      NormalisePreservesCoordinates(Some(field));
      if field == "" {
        DefaultIsCentre(Some(field));
      }
      field := Piece(pieces, 0) + "," + Piece(pieces, 1);
    }

    /**
     * The field's change handler: reposition the indicator from the field,
     * then, when there is a preview link, put the encoded field value in
     * the last segment of its href and of the registered request's URL.
     */
    method Change()
      modifies this`field, this`indicatorLeft, this`indicatorTop, this`previewHref, this`ajaxUrls
      ensures field == Normalise(Some(old(field)))
      ensures var c := ParseCoordinates(Some(old(field)));
              indicatorLeft == (if c.left.Some? then PercentToPixels(c.left.value, Size().width) else old(indicatorLeft))
              && indicatorTop == (if c.top.Some? then PercentToPixels(c.top.value, Size().height) else old(indicatorTop))
      ensures var c := ParseCoordinates(Some(old(field)));
              c.left.Some? && c.top.Some? ==> InSync()
      ensures PreviewFollows(old(previewHref), old(ajaxUrls), field)
    {
      SetIndicator();
      if previewHref.Some? {
        var href := RewriteHref(previewHref.value, field);
        previewHref := Some(href);
        if PreviewId() in ajaxUrls {
          ajaxUrls := ajaxUrls[PreviewId() := href];
        }
      }
    }

    /**
     * `focalPointSetValue`: turn the indicator's offset from the image into
     * two whole percentages in [0, 100], write them to the field as
     * `"L,T"` and fire the change handler, which puts the indicator on
     * exactly those percentages and updates the preview link.
     */
    method SetValue(leftDelta: real, topDelta: real)
      requires rendered.width > 0.0 && rendered.height > 0.0
      modifies this`field, this`indicatorLeft, this`indicatorTop, this`previewHref, this`ajaxUrls
      ensures var left, top := PixelsToPercent(leftDelta, rendered.width), PixelsToPercent(topDelta, rendered.height);
              field == Format(left, top)
              && ParseCoordinates(Some(field)) == Coordinates(Some(left), Some(top))
              && indicatorLeft == PercentToPixels(left, rendered.width)
              && indicatorTop == PercentToPixels(top, rendered.height)
      ensures InSync()
      ensures PreviewFollows(old(previewHref), old(ajaxUrls), field)
    {
      var left := PixelsToPercent(leftDelta, rendered.width);
      var top := PixelsToPercent(topDelta, rendered.height);
      field := Format(left, top);
      Change();
    }

    /**
     * The image's click handler: move the indicator to the click offset,
     * truncated to whole pixels by `parseInt`, then record it with `SetValue`.
     */
    method Click(offsetX: real, offsetY: real)
      requires rendered.width > 0.0 && rendered.height > 0.0
      modifies this`field, this`indicatorLeft, this`indicatorTop, this`previewHref, this`ajaxUrls
      ensures var left, top := PixelsToPercent(Trunc(offsetX) as real, rendered.width),
                               PixelsToPercent(Trunc(offsetY) as real, rendered.height);
              field == Format(left, top)
              && indicatorLeft == PercentToPixels(left, rendered.width)
              && indicatorTop == PercentToPixels(top, rendered.height)
      ensures InSync()
      ensures PreviewFollows(old(previewHref), old(ajaxUrls), field)
    {
      indicatorLeft := Trunc(offsetX) as real;
      indicatorTop := Trunc(offsetY) as real;
      SetValue(indicatorLeft, indicatorTop);
    }

    /**
     * The draggable's stop callback: the indicator was dropped at
     * (`left`, `top`) relative to the image, and that offset is recorded
     * with `SetValue`.
     */
    method DragStop(left: real, top: real)
      requires rendered.width > 0.0 && rendered.height > 0.0
      modifies this`field, this`indicatorLeft, this`indicatorTop, this`previewHref, this`ajaxUrls
      ensures var l, t := PixelsToPercent(left, rendered.width), PixelsToPercent(top, rendered.height);
              field == Format(l, t)
              && indicatorLeft == PercentToPixels(l, rendered.width)
              && indicatorTop == PercentToPixels(t, rendered.height)
      ensures InSync()
      ensures PreviewFollows(old(previewHref), old(ajaxUrls), field)
    {
      indicatorLeft, indicatorTop := left, top;
      SetValue(left, top);
    }
  }

  /** Two widgets with different ids register their preview requests under different keys. */
  lemma DistinctPreviewIds(a: Widget, b: Widget)
    requires a.id != b.id
    ensures a.PreviewId() != b.PreviewId()
  {
    if |a.id| == |b.id| {
      assert a.PreviewId()[..|a.id|] != b.PreviewId()[..|b.id|];
    }
  }

  /**
   * Dropping the indicator on the image's top-left corner records `"0,0"`;
   * on its bottom-right corner, `"100,100"`.
   */
  lemma CornerValues(size: Dimensions)
    requires size.width > 0.0 && size.height > 0.0
    ensures Format(PixelsToPercent(0.0, size.width), PixelsToPercent(0.0, size.height)) == "0,0"
    ensures Format(PixelsToPercent(size.width, size.width), PixelsToPercent(size.height, size.height)) == "100,100"
  {
    var l, t := PixelsToPercent(0.0, size.width), PixelsToPercent(0.0, size.height);
    PrintsCorners(l, t, "0,0");
    var r, b := PixelsToPercent(size.width, size.width), PixelsToPercent(size.height, size.height);
    PrintsCorners(r, b, "100,100");
    assert Format(l, t) == IntToString(l) + "," + IntToString(t);
    assert Format(r, b) == IntToString(r) + "," + IntToString(b);
  }

  lemma PrintsCorners(left: int, top: int, value: string)
    requires (left == top == 0 && value == "0,0") || (left == top == 100 && value == "100,100")
    ensures IntToString(left) + "," + IntToString(top) == value
  {
    assert NatToString(10) == "10";
    assert NatToString(100) == "100";
  }

  /** The value `30,70` is what `SetValue` writes for (30, 70), and it reads back unchanged. */
  lemma ThirtySeventy(value: string)
    requires value == "30,70"
    ensures Format(30, 70) == value
    ensures ParseCoordinates(Some(value)) == Coordinates(Some(30), Some(70))
    ensures Normalise(Some(value)) == value
  {
    var left, top := 30, 70;
    PrintsThirtySeventy(left, top, value);
    var r := Format(left, top);
    assert r == IntToString(left) + "," + IntToString(top);
  }

  lemma PrintsThirtySeventy(left: int, top: int, value: string)
    requires left == 30 && top == 70 && value == "30,70"
    ensures IntToString(left) + "," + IntToString(top) == value
  {
    assert NatToString(30) == "30" && NatToString(70) == "70";
  }

  /** Typing `30,70` into the field of a visible 400×300 image with a preview link. */
  method ExternalEditExample(href: string)
  {
    var w := new Widget("fp", Dimensions(400.0, 300.0), Dimensions(800.0, 600.0), "30,70",
                        Some(href), map["fp" + "-preview-link" := href]);
    ThirtySeventy("30,70");
    w.Change();
    assert w.field == "30,70";
    assert w.indicatorLeft == 0.30 * 400.0 && w.indicatorTop == 0.70 * 300.0;
    assert w.previewHref == Some(RewriteHref(href, "30,70"));
    assert w.ajaxUrls[w.PreviewId()] == RewriteHref(href, "30,70");
    ThirtySeventyHref(href);
  }

  /** The preview link for `30,70` keeps the href's segments and ends in `30%2C70`. */
  lemma ThirtySeventyHref(href: string)
    ensures var before, after := Text.Split(href, '/'), Text.Split(RewriteHref(href, "30,70"), '/');
            |after| == |before| && after[|after| - 1] == "30%2C70"
  {
    EncodeExample();
  }

  /** A hidden image with an empty field: the indicator goes to the centre of the image's intrinsic size. */
  method HiddenImageExample()
  {
    var w := new Widget("fp", Dimensions(0.0, 0.0), Dimensions(800.0, 600.0), "", None, map[]);
    w.SetIndicator();
    assert w.field == "50,50";
    assert w.indicatorLeft == 400.0 && w.indicatorTop == 300.0;
  }
}
