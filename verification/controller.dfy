/** The controller: the guarded navigation entry points, the prev/next button
    rule that listens to `moving`, the trailing-edge resize debounce, and the
    widget as a state machine over its inputs. */
module Controller {
  import opened Carousel
  import opened Layout
  import opened Navigation

  /** Delay, in milliseconds, between the last window resize of a burst and
      the settling move. */
  const SettleDelay: int := 300

  /** Number of slides carrying the `disabled` marker, wherever they are. */
  function DisabledCount(slides: seq<Slide>): (n: nat)
    ensures n <= |slides|
  {
    if |slides| == 0 then 0
    else DisabledCount(slides[..|slides| - 1]) + (if slides[|slides| - 1].disabled then 1 else 0)
  }

  function DisabledSet(slides: seq<Slide>): set<int>
  {
    set k | 0 <= k < |slides| && slides[k].disabled
  }

  /** The count is the number of disabled positions in the sequence. */
  lemma {:induction false} DisabledCountIsCardinality(slides: seq<Slide>)
    ensures DisabledCount(slides) == |DisabledSet(slides)|
  {
    if |slides| > 0 {
      var n := |slides| - 1;
      var init := slides[..n];
      DisabledCountIsCardinality(init);
      assert forall k :: 0 <= k < n ==> init[k] == slides[k];
      if slides[n].disabled {
        assert DisabledSet(slides) == DisabledSet(init) + {n};
        assert n !in DisabledSet(init);
      } else {
        assert DisabledSet(slides) == DisabledSet(init);
      }
    }
  }

  /** The listener on `moving`: the next button is shown only while a slide
      follows the target, the prev button only while the target lies more
      than one place past the number of disabled slides. */
  function InitControls(s: State, toIndex: int): (r: State)
    ensures r.nextShown <==> toIndex + 1 < |s.slides|
    ensures r.prevShown <==> toIndex - 1 >= DisabledCount(s.slides)
    ensures r == s.(prevShown := r.prevShown, nextShown := r.nextShown)
  {
    var nextShown := !(toIndex + 1 >= |s.slides|);
    var disabledSlidesCount := DisabledCount(s.slides);
    var prevShown := !(toIndex - 1 < disabledSlidesCount);
    s.(prevShown := prevShown, nextShown := nextShown)
  }

  /** A move request: start the move and, when it starts, let the `moving`
      listener update the buttons. Nothing is committed here. */
  function Move(s: State, i: int): (r: Step)
    ensures s.Moving() ==> r == Step(s, [])
    ensures r.events == [] ==> r.state == s
    ensures r.events != [] ==>
              && |r.events| == 1
              && r.events[0].MovingEvent?
              && !s.Moving() && r.state.Moving()
              && LeastEnabledAt(s.slides, i, r.events[0].toIndex)
              && r.state.inFlight.value.toIndex == r.events[0].toIndex
              && r.state.index == s.index && r.state.focus == s.focus
              && r.state.stripLeft == s.stripLeft && r.state.slides == s.slides
              && LowerBound(s.width, s.stripWidth) <= r.events[0].point <= 0.0
              && (r.state.nextShown <==> r.events[0].toIndex + 1 < |s.slides|)
              && (r.state.prevShown <==> r.events[0].toIndex - 1 >= DisabledCount(s.slides))
              && r.events[0].from == FindActive(s)
              && r.events[0].to == s.slides[r.events[0].toIndex]
              && r.events[0].point == ClampOffset(
                   CenterOffset(s.width, if r.events[0].toIndex == i then s.slides[i] else s.slides[0]),
                   s.width, s.stripWidth)
              && r.state == s.(inFlight := Some(Transition(r.events[0].toIndex, r.events[0].point)),
                               prevShown := r.state.prevShown, nextShown := r.state.nextShown)
    ensures r.events != [] <==> !s.Moving() && EnabledAhead(s.slides, i)
  {
    match StartMove(s, i, false)
    case None => Step(s, [])
    case Some((t, e)) => Step(InitControls(t, e.toIndex), [e])
  }

  /** Previous button: only when a slide precedes the current index. */
  function Prev(s: State): (r: Step)
    ensures s.index - 1 < 0 ==> r == Step(s, [])
    ensures s.index - 1 >= 0 ==> r == Move(s, s.index - 1)
    ensures r.events == [] ==> r.state == s
    ensures r.state.index == s.index
    ensures r.events != [] <==>
              s.index - 1 >= 0 && !s.Moving() && EnabledAhead(s.slides, s.index - 1)
    ensures r.events != [] ==>
              r.events[0].MovingEvent? && LeastEnabledAt(s.slides, s.index - 1, r.events[0].toIndex)
  {
    if s.index - 1 >= 0 then Move(s, s.index - 1) else Step(s, [])
  }

  /** Next button: only when a slide follows the current index; no wrap. */
  function Next(s: State): (r: Step)
    ensures s.index + 1 >= |s.slides| ==> r == Step(s, [])
    ensures s.index + 1 < |s.slides| ==> r == Move(s, s.index + 1)
    ensures r.events == [] ==> r.state == s
    ensures r.state.index == s.index
    ensures r.events != [] <==>
              s.index + 1 < |s.slides| && !s.Moving() && EnabledAhead(s.slides, s.index + 1)
    ensures r.events != [] ==>
              r.events[0].MovingEvent? && LeastEnabledAt(s.slides, s.index + 1, r.events[0].toIndex)
  {
    if s.index + 1 < |s.slides| then Move(s, s.index + 1) else Step(s, [])
  }

  /** Select a slide by position. The index option is assigned before the
      move is requested, so it changes even when the move is refused. */
  function ToSlide(s: State, k: int): (r: Step)
    ensures !(0 <= k < |s.slides|) ==> r == Step(s, [])
    ensures 0 <= k < |s.slides| ==> r.state.index == k
    ensures 0 <= k < |s.slides| ==> r == Move(s.(index := k), k)
    ensures 0 <= k < |s.slides| && r.events == [] ==> r.state == s.(index := k)
    ensures r.events != [] <==> 0 <= k < |s.slides| && !s.Moving() && EnabledAhead(s.slides, k)
    ensures r.events != [] ==>
              r.events[0].MovingEvent? && LeastEnabledAt(s.slides, k, r.events[0].toIndex)
  {
    if k + 1 <= |s.slides| && k >= 0 then Move(s.(index := k), k) else Step(s, [])
  }

  /** A click on the slide at position `k`; a focused slide ignores clicks. */
  function OnSlideClick(s: State, k: int): (r: Step)
    ensures k in s.focus ==> r == Step(s, [])
    ensures k !in s.focus && 0 <= k < |s.slides| ==> r.state.index == k
    ensures k !in s.focus ==> r == ToSlide(s, k)
    ensures r.events == [] ==> r.state == s || r.state == s.(index := k)
    ensures r.events != [] <==>
              k !in s.focus && 0 <= k < |s.slides| && !s.Moving() && EnabledAhead(s.slides, k)
    ensures r.events != [] ==>
              r.events[0].MovingEvent? && LeastEnabledAt(s.slides, k, r.events[0].toIndex)
  {
    if k !in s.focus then ToSlide(s, k) else Step(s, [])
  }

  /** Wheel: a positive deltaY steps back, anything else (zero included)
      steps forward. */
  function OnMousewheel(s: State, deltaY: real): (r: Step)
    ensures deltaY > 0.0 ==> r == Prev(s)
    ensures deltaY <= 0.0 ==> r == Next(s)
    ensures deltaY <= 0.0 && r.events != [] ==>
              r.events[0].MovingEvent? && r.events[0].toIndex > s.index
  {
    if deltaY > 0.0 then Prev(s) else Next(s)
  }

  /** Window resize: re-layout at once, cancel any pending settle and
      schedule a fresh one `SettleDelay` after this event. */
  function OnWindowResize(s: State, view: Viewport, boxes: seq<Box>, now: int): (r: Step)
    requires CanResize(s, view, boxes)
    ensures r.state == Resize(s, view, boxes).(settleAt := Some(now + SettleDelay))
    ensures r.state.settleAt == Some(now + SettleDelay)
    ensures r.events == [ResizedEvent]
    ensures r.state.inFlight == s.inFlight && r.state.index == s.index
    ensures r.state.focus == s.focus && r.state.stripLeft == s.stripLeft
    ensures r.state.stripWidth == TotalWidth(boxes)
  {
    var resized := Resize(s, view, boxes);
    Step(resized.(settleAt := Some(now + SettleDelay)), [ResizedEvent])
  }

  /** The settle timer: when its deadline has passed it fires once, clearing
      the pending slot and moving to the index current at that moment. */
  function FireSettle(s: State, now: int): (r: Step)
    ensures s.settleAt.None? || now < s.settleAt.value ==> r == Step(s, [])
    ensures s.settleAt.Some? && now >= s.settleAt.value ==> r.state.settleAt.None?
    ensures s.settleAt.Some? && now >= s.settleAt.value ==> r == Move(s.(settleAt := None), s.index)
    ensures r.state.index == s.index
    ensures r.events != [] <==>
              && s.settleAt.Some? && now >= s.settleAt.value
              && !s.Moving() && EnabledAhead(s.slides, s.index)
    ensures r.events != [] ==>
              r.events[0].MovingEvent? && LeastEnabledAt(s.slides, s.index, r.events[0].toIndex)
  {
    if s.settleAt.Some? && now >= s.settleAt.value then
      Move(s.(settleAt := None), s.index)
    else
      Step(s, [])
  }

  /** The tail of rendering: lay out, then move to the configured index. */
  function Render(s: State, view: Viewport, boxes: seq<Box>): (r: Step)
    requires CanResize(s, view, boxes)
    ensures |r.events| >= 1 && r.events[0] == ResizedEvent
    ensures r.state.stripWidth == TotalWidth(boxes)
    ensures r.state.index == s.index
    ensures |r.events| == 2 <==> !s.Moving() && EnabledAhead(s.slides, s.index)
    ensures |r.events| <= 2
    ensures var m := Move(Resize(s, view, boxes), s.index);
      r == Step(m.state, [ResizedEvent] + m.events)
    ensures |r.events| == 1 ==> r.state == Resize(s, view, boxes)
    ensures |r.events| == 2 ==> r.state == Move(Resize(s, view, boxes), s.index).state
    ensures |r.events| == 2 ==> r.state.Moving() && r.state.stripWidth == TotalWidth(boxes)
    ensures |r.events| == 2 ==>
              && r.events[1].MovingEvent?
              && LeastEnabledAt(s.slides, s.index, r.events[1].toIndex)
              && LowerBound(r.state.width, TotalWidth(boxes)) <= r.events[1].point <= 0.0
  {
    var resized := Resize(s, view, boxes);
    var moved := Move(resized, s.index);
    Step(moved.state, [ResizedEvent] + moved.events)
  }

  /** An input can be handled unless it is a resize the layout cannot do,
      or a resize that comes after the pending settle fell due: the model
      assumes a due settle fires before any later resize is handled. */
  predicate Enabled(s: State, input: Input)
  {
    input.WindowResize? ==>
      && CanResize(s, input.view, input.boxes)
      && (s.settleAt.None? || input.now < s.settleAt.value)
  }

  /** One input handled by the widget. A completion with no move in flight
      has no callback to run. */
  function Apply(s: State, input: Input): Step
    requires Enabled(s, input)
  {
    match input
    case PrevClick => Prev(s)
    case NextClick => Next(s)
    case SlideClick(k) => OnSlideClick(s, k)
    case Wheel(deltaY) => OnMousewheel(s, deltaY)
    case WindowResize(view, boxes, now) => OnWindowResize(s, view, boxes, now)
    case Tick(now) => FireSettle(s, now)
    case AnimationDone =>
      if s.Moving() then
        var (t, e) := CompleteMove(s);
        Step(t, [e])
      else Step(s, [])
  }

  predicate Admissible(s: State, inputs: seq<Input>)
    decreases |inputs|
  {
    |inputs| == 0 || (Enabled(s, inputs[0]) && Admissible(Apply(s, inputs[0]).state, inputs[1..]))
  }

  /** A sequence of inputs handled in order, with everything emitted. */
  function Run(s: State, inputs: seq<Input>): Step
    requires Admissible(s, inputs)
    decreases |inputs|
  {
    if |inputs| == 0 then Step(s, [])
    else
      var first := Apply(s, inputs[0]);
      var rest := Run(first.state, inputs[1..]);
      Step(rest.state, first.events + rest.events)
  }

  /** What every reachable state satisfies: at most one focused slide and it
      exists, and a move in flight heads for an enabled slide. */
  predicate Inv(s: State)
  {
    && |s.focus| <= 1
    && (forall f :: f in s.focus ==> 0 <= f < |s.slides|)
    && (s.Moving() ==>
          0 <= s.inFlight.value.toIndex < |s.slides| && !s.slides[s.inFlight.value.toIndex].disabled)
  }

  lemma MovePreservesInv(s: State, i: int)
    requires Inv(s)
    ensures Inv(Move(s, i).state)
  {
  }

  lemma ApplyPreservesInv(s: State, input: Input)
    requires Inv(s) && Enabled(s, input)
    ensures Inv(Apply(s, input).state)
  {
  }

  lemma {:induction false} RunPreservesInv(s: State, inputs: seq<Input>)
    requires Inv(s) && Admissible(s, inputs)
    ensures Inv(Run(s, inputs).state)
    decreases |inputs|
  {
    if |inputs| > 0 {
      ApplyPreservesInv(s, inputs[0]);
      RunPreservesInv(Apply(s, inputs[0]).state, inputs[1..]);
    }
  }
}
