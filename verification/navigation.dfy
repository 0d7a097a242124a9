/** The navigation engine: resolving a requested index to a slide, computing
    the clamped strip offset, and the two phases of a single-flight move. */
module Navigation {
  import opened Carousel

  /** The strip offset that puts the centre of `target` on the centre of a
      container `containerWidth` wide. */
  function CenterOffset(containerWidth: real, target: Slide): (changeTo: real)
    ensures changeTo + (target.left + target.outerWidth / 2.0) == containerWidth / 2.0
  {
    containerWidth / 2.0 - (target.outerWidth / 2.0 + target.left)
  }

  /** The most negative offset the strip may take: the container width minus
      the strip width, or 0 when the strip is the narrower of the two. */
  function LowerBound(containerWidth: real, stripWidth: real): (lo: real)
    ensures lo <= 0.0
    ensures lo == Min(0.0, containerWidth - stripWidth)
  {
    var max := containerWidth - stripWidth;
    if max > 0.0 then 0.0 else max
  }

  /** The offset actually animated to: `changeTo` moved to the nearest point
      of the interval [LowerBound, 0]. */
  function ClampOffset(changeTo: real, containerWidth: real, stripWidth: real): (point: real)
    ensures LowerBound(containerWidth, stripWidth) <= point <= 0.0
    ensures containerWidth > stripWidth ==> point == 0.0
    ensures containerWidth <= stripWidth ==> containerWidth - stripWidth <= point
    ensures LowerBound(containerWidth, stripWidth) <= changeTo <= 0.0 ==> point == changeTo
    ensures changeTo > 0.0 ==> point == 0.0
    ensures changeTo < LowerBound(containerWidth, stripWidth) ==>
              point == LowerBound(containerWidth, stripWidth)
  {
    var min := 0.0;
    var max := containerWidth - stripWidth;
    Max(Min(min, changeTo), if max > 0.0 then 0.0 else max)
  }

  /** Some enabled slide lies at or after position `i`. */
  predicate EnabledAhead(slides: seq<Slide>, i: int)
  {
    0 <= i && exists k :: i <= k < |slides| && !slides[k].disabled
  }

  /** `j` is the first enabled slide at or after position `i`. */
  predicate LeastEnabledAt(slides: seq<Slide>, i: int, j: int)
  {
    && 0 <= i <= j < |slides|
    && !slides[j].disabled
    && (forall k :: i <= k < j ==> slides[k].disabled)
  }

  /** The first focused slide in strip order, if any. */
  function FindActiveFrom(focus: set<int>, count: int, k: nat): (r: Option<int>)
    decreases count - k
    ensures r.Some? ==> k <= r.value < count && r.value in focus
    ensures r.Some? ==> forall m :: k <= m < r.value ==> m !in focus
    ensures r.None? ==> forall m :: k <= m < count ==> m !in focus
  {
    if k >= count then None
    else if k in focus then Some(k)
    else FindActiveFrom(focus, count, k + 1)
  }

  function FindActive(s: State): (r: Option<int>)
  {
    FindActiveFrom(s.focus, |s.slides|, 0)
  }

  /** The first phase of a move: refuse while a move is in flight, ignore an
      index that names no slide, step forward over disabled slides (marking
      the request as a fallback), then compute the clamped offset, raise the
      moving marker and produce the `moving` notification. Index, focus and
      strip position are left for the completion phase.

      A fallback request centres on the first slide's box rather than the
      resolved slide's. */
  function StartMove(s: State, i: int, dontMove: bool): (r: Option<(State, Event)>)
    decreases |s.slides| - i
    ensures s.Moving() ==> r.None?
    ensures r.None? ==>
              s.Moving() || i < 0 || forall k :: i <= k < |s.slides| ==> s.slides[k].disabled
    ensures r.Some? ==>
              var (t, e) := r.value;
              && e.MovingEvent?
              && 0 <= i <= e.toIndex < |s.slides|
              && !s.slides[e.toIndex].disabled
              && (forall k :: i <= k < e.toIndex ==> s.slides[k].disabled)
              && e.to == s.slides[e.toIndex]
              && e.from == FindActive(s)
              && e.point == ClampOffset(
                   CenterOffset(s.width,
                     if dontMove || e.toIndex != i then s.slides[0] else s.slides[e.toIndex]),
                   s.width, s.stripWidth)
              && t == s.(inFlight := Some(Transition(e.toIndex, e.point)))
  {
    if s.Moving() then None
    else if !(0 <= i < |s.slides|) then None
    else if s.slides[i].disabled then StartMove(s, i + 1, true)
    else
      var slide := s.slides[i];
      var changeTo := CenterOffset(s.width, if dontMove then s.slides[0] else slide);
      var point := ClampOffset(changeTo, s.width, s.stripWidth);
      var event := MovingEvent(point, FindActive(s), i, slide);
      Some((s.(inFlight := Some(Transition(i, point))), event))
  }

  /** The animation's completion callback: commit the index, drop the moving
      marker, focus the target slide alone and announce `moved`. */
  function CompleteMove(s: State): (r: (State, Event))
    requires s.Moving()
    ensures !r.0.Moving()
    ensures r.0.index == s.inFlight.value.toIndex
    ensures r.0.focus == {s.inFlight.value.toIndex}
    ensures r.0.stripLeft == s.inFlight.value.point
    ensures r.1 == MovedEvent
    ensures r.0 == s.(index := r.0.index, inFlight := None, focus := r.0.focus,
                      stripLeft := r.0.stripLeft)
  {
    var Transition(toIndex, point) := s.inFlight.value;
    (s.(index := toIndex, inFlight := None, focus := {toIndex}, stripLeft := point), MovedEvent)
  }

  /** A move that starts commits nothing: only the moving marker changes, and
      the notification reports the index as it was. */
  lemma StartMoveCommitsNothing(s: State, i: int, dontMove: bool)
    requires StartMove(s, i, dontMove).Some?
    ensures var t := StartMove(s, i, dontMove).value.0;
      && !s.Moving() && t.Moving()
      && t.index == s.index && t.focus == s.focus && t.stripLeft == s.stripLeft
      && t.slides == s.slides && t.settleAt == s.settleAt
  {
  }

  /** A request resolves to the least enabled slide at or after it; this is
      the only index a move can reach, so the search never goes backward. */
  lemma ResolvesToLeastEnabled(s: State, i: int, j: int)
    requires !s.Moving()
    requires 0 <= i <= j < |s.slides|
    requires !s.slides[j].disabled
    requires forall k :: i <= k < j ==> s.slides[k].disabled
    ensures StartMove(s, i, false).Some?
    ensures StartMove(s, i, false).value.1.toIndex == j
  {
  }

  /** The offset of every started move keeps the strip inside its bounds,
      and is pinned at 0 when the strip is narrower than its container. */
  lemma StartedOffsetInBounds(s: State, i: int)
    requires StartMove(s, i, false).Some?
    ensures var e := StartMove(s, i, false).value.1;
      && Min(0.0, s.width - s.stripWidth) <= e.point <= 0.0
      && (s.width > s.stripWidth ==> e.point == 0.0)
  {
  }

  /** Start followed by completion lands on the resolved slide: the index is
      committed, the moving marker is gone, and exactly that slide is the
      active one. */
  lemma {:induction false} MoveCompletes(s: State, i: int)
    requires StartMove(s, i, false).Some?
    ensures var (t, e) := StartMove(s, i, false).value;
      var (u, done) := CompleteMove(t);
      && u.index == e.toIndex
      && !u.Moving()
      && u.focus == {e.toIndex}
      && FindActive(u) == Some(e.toIndex)
      && u.stripLeft == e.point
      && done == MovedEvent
  {
  }
}
