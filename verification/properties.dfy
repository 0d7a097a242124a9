/** Properties of the widget that relate several operations: single flight,
    the ordering of notifications, commit-on-completion, the buttons against
    the navigation guards, the resize debounce, and Lenta's deliberate quirks,
    in general and on concrete strips. */
module Properties {
  import opened Carousel
  import opened Layout
  import opened Navigation
  import opened Controller

  // ---------------------------------------------------------------------
  // Single flight and the ordering of notifications

  /** While a move is in flight nothing but its completion touches the
      transition, the focus or the strip position, and no other move starts. */
  lemma BusyGuard(s: State, input: Input)
    requires Enabled(s, input) && s.Moving() && !input.AnimationDone?
    ensures var r := Apply(s, input);
      && r.state.inFlight == s.inFlight
      && r.state.focus == s.focus
      && r.state.stripLeft == s.stripLeft
      && (forall k :: 0 <= k < |r.events| ==> r.events[k] == ResizedEvent)
      && (input.SlideClick? ==> r.events == [])
      && (!input.SlideClick? && !input.WindowResize? ==>
            r.events == [] && r.state == s.(settleAt := r.state.settleAt))
  {
  }

  /** The notifications of a run, read against the moving marker: `moving`
      is only emitted when no move is in flight, `moved` only when one is,
      and `resized` at any time. */
  predicate Bracketed(events: seq<Event>, moving: bool, movingAfter: bool)
    decreases |events|
  {
    if |events| == 0 then moving == movingAfter
    else match events[0]
      case MovingEvent(_, _, _, _) => !moving && Bracketed(events[1..], true, movingAfter)
      case MovedEvent => moving && Bracketed(events[1..], false, movingAfter)
      case ResizedEvent => Bracketed(events[1..], moving, movingAfter)
  }

  lemma {:induction false} BracketedAppend(a: seq<Event>, b: seq<Event>, m1: bool, m2: bool, m3: bool)
    requires Bracketed(a, m1, m2) && Bracketed(b, m2, m3)
    ensures Bracketed(a + b, m1, m3)
    decreases |a|
  {
    if |a| > 0 {
      assert (a + b)[0] == a[0];
      assert (a + b)[1..] == a[1..] + b;
      match a[0]
      case MovingEvent(_, _, _, _) => BracketedAppend(a[1..], b, true, m2, m3);
      case MovedEvent => BracketedAppend(a[1..], b, false, m2, m3);
      case ResizedEvent => BracketedAppend(a[1..], b, m1, m2, m3);
    } else {
      assert a + b == b;
    }
  }

  lemma ApplyBracketed(s: State, input: Input)
    requires Enabled(s, input)
    ensures Bracketed(Apply(s, input).events, s.Moving(), Apply(s, input).state.Moving())
  {
  }

  /** Over any run, every `moving` is followed by its `moved` before another
      `moving`, and a run that starts idle ends idle exactly when every move
      it started has completed. */
  lemma {:induction false} RunBracketed(s: State, inputs: seq<Input>)
    requires Admissible(s, inputs)
    ensures Bracketed(Run(s, inputs).events, s.Moving(), Run(s, inputs).state.Moving())
    decreases |inputs|
  {
    if |inputs| > 0 {
      var first := Apply(s, inputs[0]);
      ApplyBracketed(s, inputs[0]);
      RunBracketed(first.state, inputs[1..]);
      BracketedAppend(first.events, Run(first.state, inputs[1..]).events,
                      s.Moving(), first.state.Moving(), Run(s, inputs).state.Moving());
    }
  }

  // ---------------------------------------------------------------------
  // Commit on completion

  /** A move to an enabled slide, once its animation completes, commits that
      index and leaves exactly that slide focused. Until then the index and
      focus are those from before the request. */
  lemma MoveToEnabledSlide(s: State, i: int)
    requires !s.Moving() && 0 <= i < |s.slides| && !s.slides[i].disabled
    ensures var m := Move(s, i);
      && |m.events| == 1 && m.events[0].MovingEvent? && m.events[0].toIndex == i
      && m.state.index == s.index && m.state.focus == s.focus
      && var u := Apply(m.state, AnimationDone);
        && u.events == [MovedEvent]
        && u.state.index == i
        && !u.state.Moving()
        && u.state.focus == {i}
        && FindActive(u.state) == Some(i)
  {
  }

  /** Once a move has completed in a reachable state, some slide stays
      focused for the rest of the run (no input clears the focus). */
  lemma {:induction false} FocusNeverCleared(s: State, inputs: seq<Input>)
    requires Admissible(s, inputs) && s.focus != {}
    ensures Run(s, inputs).state.focus != {}
    decreases |inputs|
  {
    if |inputs| > 0 {
      var first := Apply(s, inputs[0]);
      assert first.state.focus != {};
      FocusNeverCleared(first.state, inputs[1..]);
    }
  }

  // ---------------------------------------------------------------------
  // Buttons against the navigation guards

  /** After a move completes, the next button is shown exactly when the next
      button's own guard would let it request a move, and a shown prev button
      always passes the prev guard. */
  lemma ButtonsMatchGuards(s: State, i: int)
    requires Move(s, i).events != []
    ensures var u := Apply(Move(s, i).state, AnimationDone).state;
      && (u.nextShown <==> u.index + 1 < |u.slides|)
      && (u.prevShown ==> u.index - 1 >= 0)
      && (!u.nextShown ==> Next(u) == Step(u, []))
  {
  }

  /** The prev button's rule, read against the set of disabled positions:
      after a move starts, prev is shown exactly when the target lies more
      than one place past the number of disabled slides anywhere in the strip. */
  lemma PrevRuleCountsDisabledPositions(s: State, i: int)
    requires Move(s, i).events != []
    ensures Move(s, i).state.prevShown <==>
              Move(s, i).events[0].toIndex - 1 >= |DisabledSet(s.slides)|
  {
    DisabledCountIsCardinality(s.slides);
  }

  /** The prev rule counts every disabled slide, not only those before the
      target: on [A, B, C(disabled)] a move to B hides prev, although prev at
      B would move to A. */
  lemma PrevHiddenPastEnabledSlide()
    ensures var s := Strip3(false, false, true);
      var m := Move(s, 1);
      var u := Apply(m.state, AnimationDone).state;
      && !m.state.prevShown
      && u.index == 1
      && Prev(u).events != [] && Prev(u).events[0].MovingEvent?
      && Prev(u).events[0].toIndex == 0
  {
    MoveToSecondHidesPrev();
    var m := Move(Strip3(false, false, true), 1);
    PrevFromSecondReachesFirst(Apply(m.state, AnimationDone).state);
  }

  lemma MoveToSecondHidesPrev()
    ensures var s := Strip3(false, false, true);
      var m := Move(s, 1);
      var u := Apply(m.state, AnimationDone).state;
      && !m.state.prevShown
      && u.index == 1 && !u.Moving() && u.slides == s.slides
  {
    var s := Strip3(false, false, true);
    assert DisabledCount(s.slides) == 1 by {
      assert s.slides[..2][..1] == s.slides[..1];
      assert s.slides[..1][..0] == [];
    }
    ResolvesToLeastEnabled(s, 1, 1);
  }

  lemma PrevFromSecondReachesFirst(u: State)
    requires u.index == 1 && !u.Moving() && u.slides == Strip3(false, false, true).slides
    ensures Prev(u).events != [] && Prev(u).events[0].MovingEvent? && Prev(u).events[0].toIndex == 0
  {
    ResolvesToLeastEnabled(u, 0, 0);
  }

  // ---------------------------------------------------------------------
  // Lenta's quirks

  /** Three slides 100 wide side by side in a container 100 wide. */
  function Strip3(d0: bool, d1: bool, d2: bool): (s: State)
    ensures |s.slides| == 3 && !s.Moving() && s.focus == {}
    ensures s.stripWidth == s.slides[0].outerWidth + s.slides[1].outerWidth + s.slides[2].outerWidth
  {
    State(
      Config(0.0, None, "left", "top"),
      [Slide(100.0, 0.0, d0), Slide(100.0, 100.0, d1), Slide(100.0, 200.0, d2)],
      0, None, {},
      100.0, 100.0, 100.0, 100.0, 0.0, 0.0,
      300.0, 0.0, true, true, None)
  }

  /** On [A, B(disabled), C] a request for B lands on C, but the strip is
      centred on A's box (offset 0) rather than on C's (offset -200). */
  lemma SkipForwardCentresOnFirst()
    ensures var m := Move(Strip3(false, true, false), 1);
      && |m.events| == 1 && m.events[0].MovingEvent?
      && m.events[0].toIndex == 2
      && m.events[0].point == 0.0
      && ClampOffset(CenterOffset(100.0, Strip3(false, true, false).slides[2]), 100.0, 300.0) == -200.0
  {
  }

  /** In general a request that had to skip centres on the first slide. */
  lemma SkippedRequestCentresOnFirst(s: State, i: int)
    requires Move(s, i).events != [] && Move(s, i).events[0].toIndex != i
    ensures Move(s, i).events[0].point ==
              ClampOffset(CenterOffset(s.width, s.slides[0]), s.width, s.stripWidth)
  {
  }

  /** Prev onto a disabled slide resolves forward again, back to the slide
      already shown, and re-centres the strip on the first slide. */
  lemma PrevOntoDisabledStaysPut()
    ensures var s := Strip3(true, false, false).(index := 1);
      var p := Prev(s);
      && |p.events| == 1 && p.events[0].MovingEvent?
      && p.events[0].toIndex == s.index
      && p.events[0].point == ClampOffset(CenterOffset(s.width, s.slides[0]), s.width, s.stripWidth)
  {
  }

  /** In general, prev from an enabled slide whose predecessor is disabled
      requests the current slide again, centred on the first slide's box. */
  lemma PrevOntoDisabledResolvesToCurrent(s: State)
    requires !s.Moving() && 1 <= s.index < |s.slides|
    requires s.slides[s.index - 1].disabled && !s.slides[s.index].disabled
    ensures var p := Prev(s);
      && |p.events| == 1 && p.events[0].MovingEvent?
      && p.events[0].toIndex == s.index
      && p.events[0].point == ClampOffset(CenterOffset(s.width, s.slides[0]), s.width, s.stripWidth)
  {
    ResolvesToLeastEnabled(s, s.index - 1, s.index);
  }

  /** Selecting a slide assigns the index before the move is requested: a
      refused request (a move in flight, or nothing enabled from there on)
      still changes the index, so the index can disagree with the focus. */
  lemma ToSlideAssignsFirst(s: State, k: int)
    requires 0 <= k < |s.slides|
    requires s.Moving() || forall m :: k <= m < |s.slides| ==> s.slides[m].disabled
    ensures ToSlide(s, k) == Step(s.(index := k), [])
  {
  }

  // ---------------------------------------------------------------------
  // The resize debounce

  /** A burst of window resizes, each arriving before the settle scheduled by
      the one before it falls due, re-lays out on every event, starts no move,
      and leaves exactly one settle pending, due `SettleDelay` after the last
      event of the burst. */
  lemma {:induction false} ResizeBurst(s: State, inputs: seq<Input>)
    requires Admissible(s, inputs) && |inputs| > 0
    requires forall k :: 0 <= k < |inputs| ==> inputs[k].WindowResize?
    ensures var r := Run(s, inputs);
      && r.state.settleAt == Some(inputs[|inputs| - 1].now + SettleDelay)
      && |r.events| == |inputs|
      && (forall k :: 0 <= k < |r.events| ==> r.events[k] == ResizedEvent)
      && r.state.inFlight == s.inFlight && r.state.index == s.index && r.state.focus == s.focus
    ensures forall k :: 0 < k < |inputs| ==> inputs[k].now < inputs[k - 1].now + SettleDelay
    decreases |inputs|
  {
    var first := Apply(s, inputs[0]);
    if |inputs| > 1 {
      ResizeBurst(first.state, inputs[1..]);
      assert inputs[1..][|inputs[1..]| - 1] == inputs[|inputs| - 1];
      forall k | 0 < k < |inputs|
        ensures inputs[k].now < inputs[k - 1].now + SettleDelay
      {
        if k > 1 {
          assert inputs[1..][k - 1] == inputs[k] && inputs[1..][k - 2] == inputs[k - 1];
        }
      }
    }
  }

  /** The settle is timed from the last resize: before its deadline the timer
      does nothing; after it, the timer fires once, moving to the index of
      that moment, and a second tick finds nothing pending. */
  lemma SettleFiresOnce(s: State, view: Viewport, boxes: seq<Box>, t: int, early: int, late: int, later: int)
    requires CanResize(s, view, boxes)
    requires early < t + SettleDelay <= late
    ensures var r := OnWindowResize(s, view, boxes, t).state;
      && FireSettle(r, early) == Step(r, [])
      && var f := FireSettle(r, late);
        && f == Move(r.(settleAt := None), s.index)
        && FireSettle(f.state, later) == Step(f.state, [])
  {
  }

  // ---------------------------------------------------------------------
  // Rendering

  /** Rendering an idle strip whose configured index has an enabled slide at
      or after it, then letting the animation finish, commits the least such
      slide with it alone focused and the strip inside the bounds of the
      newly laid-out strip. */
  lemma RenderThenComplete(s: State, view: Viewport, boxes: seq<Box>, j: int)
    requires CanResize(s, view, boxes) && !s.Moving()
    requires LeastEnabledAt(s.slides, s.index, j)
    ensures var r := Render(s, view, boxes);
      && |r.events| == 2 && r.events[1].MovingEvent? && r.events[1].toIndex == j
      && r.state.Moving()
      && var u := Apply(r.state, AnimationDone).state;
        && u.index == j && u.focus == {j} && !u.Moving()
        && u.stripWidth == TotalWidth(boxes)
        && Min(0.0, u.width - TotalWidth(boxes)) <= u.stripLeft <= 0.0
  {
    var laidOut := Resize(s, view, boxes);
    ResolvesToLeastEnabled(laidOut, s.index, j);
  }
}
