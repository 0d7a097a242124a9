/** The data model of the Lenta carousel: slides, configuration, the widget's
    state and the notifications it emits. Pixel values are exact reals. */
module Carousel {

  datatype Option<+T> = None | Some(value: T)

  function Min(a: real, b: real): real { if a <= b then a else b }

  function Max(a: real, b: real): real { if a >= b then a else b }

  /** One slide as the strip sees it: its measured outer width, its left
      offset inside the strip, and whether it carries the `disabled` marker. */
  datatype Slide = Slide(outerWidth: real, left: real, disabled: bool)

  /** What a slide reports after it has resized itself to the container. */
  datatype Box = Box(outerWidth: real, left: real)

  /** The parent's and the container's boxes as the page measures them when
      a resize runs; the window and the page's own styles may have changed
      them since the last resize. */
  datatype Viewport = Viewport(parentWidth: real, parentHeight: real, width: real, height: real)

  /** The options the engine reads. An absent (or zero) aspect ratio leaves
      the container's own box alone. */
  datatype Config = Config(
    maxHeight: real,
    aspectRatio: Option<real>,
    align: string,
    verticalAlign: string)

  /** The one move in flight: the resolved slide index and the strip offset
      the animation is heading for. */
  datatype Transition = Transition(toIndex: int, point: real)

  /** The whole widget. `inFlight` is present exactly while the root carries
      the "moving" marker; `focus` holds the indices of the slides carrying the
      "focus" marker; `settleAt` is the deadline of the pending resize-settle
      timer, if one is pending. */
  datatype State = State(
    config: Config,
    slides: seq<Slide>,
    index: int,
    inFlight: Option<Transition>,
    focus: set<int>,
    width: real,
    height: real,
    parentWidth: real,
    parentHeight: real,
    left: real,
    top: real,
    stripWidth: real,
    stripLeft: real,
    prevShown: bool,
    nextShown: bool,
    settleAt: Option<int>)
  {
    predicate Moving() { inFlight.Some? }
  }

  /** The notifications observers can bind to. `from` is the index of the
      slide that was focused when the move started, if any. */
  datatype Event =
    | MovingEvent(point: real, from: Option<int>, toIndex: int, to: Slide)
    | MovedEvent
    | ResizedEvent

  /** The result of handling one input: the new state and what was emitted,
      in order. */
  datatype Step = Step(state: State, events: seq<Event>)

  /** The inputs the widget reacts to. `Tick(now)` is the clock reaching
      `now`; `AnimationDone` is the strip animation's completion callback. */
  datatype Input =
    | PrevClick
    | NextClick
    | SlideClick(slide: int)
    | Wheel(deltaY: real)
    | WindowResize(view: Viewport, boxes: seq<Box>, now: int)
    | Tick(now: int)
    | AnimationDone
}
