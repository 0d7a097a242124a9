/** The layout engine: the aspect-ratio cap on the container, the strip width
    accumulated from the slides, and the alignment of the container inside its
    parent. */
module Layout {
  import opened Carousel

  /** Sum of the outer widths the slides report. */
  function TotalWidth(boxes: seq<Box>): real
  {
    if |boxes| == 0 then 0.0 else boxes[0].outerWidth + TotalWidth(boxes[1..])
  }

  lemma {:induction false} TotalWidthAppend(a: seq<Box>, b: seq<Box>)
    ensures TotalWidth(a + b) == TotalWidth(a) + TotalWidth(b)
  {
    if |a| == 0 {
      assert a + b == b;
    } else {
      assert (a + b)[0] == a[0];
      assert (a + b)[1..] == a[1..] + b;
      TotalWidthAppend(a[1..], b);
    }
  }

  /** The running total the widget keeps while it asks each slide in turn to
      resize: after the loop it is the width the strip is given. */
  method AccumulateWidths(boxes: seq<Box>) returns (width: real)
    ensures width == TotalWidth(boxes)
    ensures (forall k :: 0 <= k < |boxes| ==> boxes[k].outerWidth >= 0.0) ==>
              forall k :: 0 <= k < |boxes| ==> boxes[k].outerWidth <= width
  {
    width := 0.0;
    var i := 0;
    while i < |boxes|
      invariant 0 <= i <= |boxes|
      invariant width == TotalWidth(boxes[..i])
    {
      TotalWidthAppend(boxes[..i], [boxes[i]]);
      assert boxes[..i + 1] == boxes[..i] + [boxes[i]];
      width := width + boxes[i].outerWidth;
      i := i + 1;
    }
    assert boxes[..i] == boxes;
    if forall k :: 0 <= k < |boxes| ==> boxes[k].outerWidth >= 0.0 {
      forall k | 0 <= k < |boxes|
        ensures boxes[k].outerWidth <= width
      {
        TotalWidthDominates(boxes, k);
      }
    }
  }

  /** With non-negative widths no single slide is wider than the strip. */
  lemma {:induction false} TotalWidthDominates(boxes: seq<Box>, k: int)
    requires 0 <= k < |boxes|
    requires forall m :: 0 <= m < |boxes| ==> boxes[m].outerWidth >= 0.0
    ensures boxes[k].outerWidth <= TotalWidth(boxes)
  {
    TotalWidthNonNegative(boxes[1..]);
    if k > 0 {
      TotalWidthDominates(boxes[1..], k - 1);
    }
  }

  lemma {:induction false} TotalWidthNonNegative(boxes: seq<Box>)
    requires forall m :: 0 <= m < |boxes| ==> boxes[m].outerWidth >= 0.0
    ensures TotalWidth(boxes) >= 0.0
  {
    if |boxes| > 0 {
      TotalWidthNonNegative(boxes[1..]);
    }
  }

  /** An aspect ratio is in force only when it is set and non-zero. */
  predicate AspectEngaged(c: Config)
  {
    c.aspectRatio.Some? && c.aspectRatio.value != 0.0
  }

  /** Scaling a `width` x `height` box by the smaller of the two parent ratios
      makes it fit the parent, touching it on at least one side. */
  lemma ScaledFits(width: real, height: real, pw: real, ph: real)
    requires width > 0.0 && height > 0.0
    ensures var scaled := height * Min(pw / width, ph / height);
      && scaled <= ph
      && scaled * width <= pw * height
      && (scaled == ph || scaled * width == pw * height)
  {
  }

  /** The container height the aspect-ratio rule picks: the current box scaled
      to fit the parent, capped at the configured maximum height. */
  function FitHeight(maxHeight: real, width: real, height: real, pw: real, ph: real): (h: real)
    requires width > 0.0 && height > 0.0
    ensures h <= maxHeight
    ensures h <= ph
    ensures h * width <= pw * height
    ensures h == maxHeight || h == ph || h * width == pw * height
  {
    ScaledFits(width, height, pw, ph);
    var rate := Min(pw / width, ph / height);
    var scaled := height * rate;
    if scaled > maxHeight then
      assert maxHeight * width < scaled * width;
      maxHeight
    else
      scaled
  }

  /** Horizontal alignment as a relation between the old and the new left
      offset: centred means equal margins, right means flush with the parent's
      right edge, anything else keeps the old offset. */
  predicate AlignedH(align: string, parentWidth: real, width: real, oldLeft: real, left: real)
  {
    && (align == "center" ==> left == parentWidth - (left + width))
    && (align == "right" ==> left + width == parentWidth)
    && (align != "center" && align != "right" ==> left == oldLeft)
  }

  /** Vertical alignment, the same rule with `bottom` in place of `right`. */
  predicate AlignedV(verticalAlign: string, parentHeight: real, height: real, oldTop: real, top: real)
  {
    && (verticalAlign == "center" ==> top == parentHeight - (top + height))
    && (verticalAlign == "bottom" ==> top + height == parentHeight)
    && (verticalAlign != "center" && verticalAlign != "bottom" ==> top == oldTop)
  }

  function Align(s: State): (r: State)
    ensures AlignedH(s.config.align, s.parentWidth, s.width, s.left, r.left)
    ensures AlignedV(s.config.verticalAlign, s.parentHeight, s.height, s.top, r.top)
    ensures r == s.(left := r.left, top := r.top)
  {
    var left :=
      if s.config.align == "center" then s.parentWidth / 2.0 - s.width / 2.0
      else if s.config.align == "right" then s.parentWidth - s.width
      else s.left;
    var top :=
      if s.config.verticalAlign == "center" then s.parentHeight / 2.0 - s.height / 2.0
      else if s.config.verticalAlign == "bottom" then s.parentHeight - s.height
      else s.top;
    s.(left := left, top := top)
  }

  /** Resize may run when every slide reports a box and, if the aspect ratio
      is in force, the measured container box is non-degenerate (it is a
      divisor). */
  predicate CanResize(s: State, view: Viewport, boxes: seq<Box>)
  {
    |boxes| == |s.slides| && (AspectEngaged(s.config) ==> view.width > 0.0 && view.height > 0.0)
  }

  function ResizedSlides(slides: seq<Slide>, boxes: seq<Box>): (r: seq<Slide>)
    requires |boxes| == |slides|
    ensures |r| == |slides|
    ensures forall k :: 0 <= k < |r| ==>
              r[k] == Slide(boxes[k].outerWidth, boxes[k].left, slides[k].disabled)
  {
    seq(|slides|, k requires 0 <= k < |slides| =>
      Slide(boxes[k].outerWidth, boxes[k].left, slides[k].disabled))
  }

  /** Re-layout: read the parent's and the container's boxes afresh, cap the
      container to the aspect ratio, let the slides take their new boxes, size
      the strip to fit them all, then align. */
  function Resize(s: State, view: Viewport, boxes: seq<Box>): (r: State)
    requires CanResize(s, view, boxes)
    ensures r.stripWidth == TotalWidth(boxes)
    ensures |r.slides| == |s.slides|
    ensures forall k :: 0 <= k < |r.slides| ==>
              && r.slides[k].outerWidth == boxes[k].outerWidth
              && r.slides[k].left == boxes[k].left
              && r.slides[k].disabled == s.slides[k].disabled
    ensures r.parentWidth == view.parentWidth && r.parentHeight == view.parentHeight
    ensures AspectEngaged(s.config) ==>
              && r.height <= s.config.maxHeight
              && r.height <= view.parentHeight
              && r.height * view.width <= view.parentWidth * view.height
              && (r.height == s.config.maxHeight || r.height == view.parentHeight
                  || r.height * view.width == view.parentWidth * view.height)
              && r.width == r.height * s.config.aspectRatio.value
    ensures !AspectEngaged(s.config) ==> r.width == view.width && r.height == view.height
    ensures AlignedH(s.config.align, view.parentWidth, r.width, s.left, r.left)
    ensures AlignedV(s.config.verticalAlign, view.parentHeight, r.height, s.top, r.top)
    ensures r == s.(slides := r.slides, width := r.width, height := r.height,
                    parentWidth := r.parentWidth, parentHeight := r.parentHeight,
                    stripWidth := r.stripWidth, left := r.left, top := r.top)
  {
    var measured := s.(parentWidth := view.parentWidth, parentHeight := view.parentHeight,
                       width := view.width, height := view.height);
    var boxed :=
      if AspectEngaged(s.config) then
        var h := FitHeight(s.config.maxHeight, view.width, view.height, view.parentWidth, view.parentHeight);
        measured.(width := h * s.config.aspectRatio.value, height := h)
      else measured;
    var laidOut := boxed.(slides := ResizedSlides(s.slides, boxes), stripWidth := TotalWidth(boxes));
    Align(laidOut)
  }
}
