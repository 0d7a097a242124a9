# Lenta carousel: navigation and geometry engine

A Dafny model of the engine inside the `Lenta` carousel view (`src/lenta.js`):
a strip of slides scrolled inside a container, moved one slide at a time by
the prev/next buttons, slide clicks and the mouse wheel, re-laid out when the
window resizes, and settled again once a burst of resizes is over.

The model is a functional state machine.

- `carousel.dfy` (module `Carousel`) holds the data. A `Slide` is an outer
  width, a left offset in the strip and a `disabled` marker. `State` holds the
  slides, the current `index` option, the move in flight (present exactly while
  the root carries the `moving` class), the set of focused slides, the box of
  the container and of its parent, the strip's width and offset, the
  visibility of the two buttons, and the pending resize-settle deadline.
  `Event` is one of the `moving`, `moved` and `resized` notifications.
- `layout.dfy` (module `Layout`) holds `resize` and `align`. This covers the
  aspect-ratio cap, the strip width accumulated from the slides, and
  left/centre/right and top/centre/bottom alignment.
- `navigation.dfy` (module `Navigation`) holds `move` in two phases.
  `StartMove` covers the busy guard, the forward skip over disabled slides,
  the centring offset and its clamp, the moving marker and the `moving`
  notification. `CompleteMove` is the animation's completion callback: it
  commits the index, clears the marker, focuses the target and emits `moved`.
- `controller.dfy` (module `Controller`) holds the guarded entry points
  `prev`, `next`, `toSlide`, `onSlideClick` and `onMousewheel`. It also holds
  the `initControls` button rule, run as the listener on `moving`, and the
  trailing-edge resize debounce. `Apply` and `Run` drive the widget over a
  sequence of inputs.
- `properties.dfy` (module `Properties`) relates several operations. It covers
  single flight, the bracketing of `moving`/`moved`, commit on completion, the
  buttons against the navigation guards, the debounce, and Lenta's
  deliberate quirks, in general and on concrete three-slide strips.

Pixel values are exact `real`s. The clock is a parameter: `Tick(now)` means
the clock has reached `now`. The animation is the explicit `AnimationDone`
input. Slide measurement is foreign code, so `Resize` takes the boxes the
slides report once they have resized themselves, together with the parent's
and the container's boxes as measured at that moment (`Viewport`).

Three behaviours of the code are kept as written, although a reader might expect otherwise:

- A `resized` notification can fall between a `moving` and its `moved`, when
  the window resizes during an animation. `Properties.Bracketed` allows this.
- The prev-button rule compares against the number of disabled slides in the
  whole strip, not only those before the target.
- The settle timer moves to the `index` option current when it fires.

## Model

| member | source | states |
|---|---|---|
| Navigation.StartMove | src/lenta.js:154-185 | A move in flight refuses the request. An index naming no slide is a no-op. Otherwise the request resolves to the least enabled slide at or after it, and is refused exactly when none exists. The `moving` notification carries that slide, its index, the previously focused slide and the clamped offset of the first slide's box when a skip happened. Only the moving marker changes. |
| Navigation.CompleteMove | src/lenta.js:186-194 | The completion commits the in-flight index and clears the moving marker. It leaves exactly the target slide focused, puts the strip at the animated offset and emits `moved`. |
| Navigation.CenterOffset | src/lenta.js:171-173 | Placing the strip at the computed offset puts the target slide's centre on the container's centre. |
| Navigation.ClampOffset | src/lenta.js:175-177 | The offset is the nearest point of [min(0, W - S), 0] to the centring offset. It is 0 when the strip is narrower than the container, never below W - S otherwise, and unchanged when already in bounds. |
| Navigation.FindActiveFrom | src/lenta.js:198-205 | The active slide is the first focused slide in strip order, or none when no slide is focused. |
| Navigation.ResolvesToLeastEnabled | src/lenta.js:161-167 | Any request i with least enabled slide j >= i reaches exactly j. |
| Navigation.StartMoveCommitsNothing | src/lenta.js:169-185 | Starting a move changes neither index, focus, strip offset, slides nor the pending settle. |
| Navigation.StartedOffsetInBounds | src/lenta.js:175-177 | Every started move's offset keeps the strip in bounds, pinned at 0 for a narrow strip. |
| Navigation.MoveCompletes | src/lenta.js:154-227 | Start then completion commits the resolved index. It leaves exactly that slide focused and active and the strip at the announced offset. |
| Controller.DisabledCount | src/lenta.js:104-107 | The disabled count never exceeds the number of slides. |
| Controller.DisabledCountIsCardinality | src/lenta.js:104-107 | The count equals the number of disabled positions in the whole sequence. |
| Controller.InitControls | src/lenta.js:96-114 | Next is hidden iff toIndex + 1 >= slide count. Prev is hidden iff toIndex - 1 < the disabled count. Nothing else changes. |
| Controller.Move | src/lenta.js:154-196 | Emits a `moving` exactly when no move is in flight and an enabled slide lies at or after i; otherwise the state is untouched. The target is the least such slide. The offset is the clamped centring offset of the target's own box on a direct hit and of the first slide's box after a skip. The event reports the previously focused slide and the target slide. The new state differs only in the transition heading for that offset and in the buttons, which follow the listener's rule: next shown iff a slide follows the target, prev shown iff toIndex - 1 >= the disabled count. |
| Controller.Prev | src/lenta.js:138-144 | With a slide before the index it is exactly `Move(index - 1)`, otherwise nothing happens. A move starts exactly when no move is in flight and an enabled slide lies at or after index - 1, targeting the least such slide. A refused press leaves the state untouched and the index is never committed here. |
| Controller.Next | src/lenta.js:146-152 | With a slide after the index it is exactly `Move(index + 1)`, otherwise nothing happens; no wrap-around. A move starts exactly when no move is in flight and an enabled slide lies at or after index + 1, targeting the least such slide. A refused press leaves the state untouched. |
| Controller.ToSlide | src/lenta.js:128-136 | An out-of-range position is ignored. An in-range one is exactly `Move` from the state with the index already set to it, so the index changes even when the move is refused and nothing else does. A move starts exactly when nothing is in flight and an enabled slide lies at or after the position, targeting the least such slide. |
| Controller.OnSlideClick | src/lenta.js:116-126 | A click on a focused slide does nothing. Any other click is exactly `ToSlide` of that position. A move starts exactly when nothing is in flight and an enabled slide lies at or after it, targeting the least such slide. A refused click changes at most the index. |
| Controller.OnMousewheel | src/lenta.js:71-78 | A positive deltaY acts as prev. Zero or negative acts as next and can only move forward. |
| Controller.OnWindowResize | src/lenta.js:80-94 | The new state is the full re-layout of the measured boxes (`Resize`) with any pending settle replaced by one due 300 ms after this event. Emits `resized` only; no move starts and index, focus and transition are unchanged. |
| Controller.FireSettle | src/lenta.js:91-93 | Before the deadline nothing happens. At or after it the pending slot is cleared and the result is exactly `Move` to the index current at that moment. So a `moving` is emitted exactly when nothing is in flight and an enabled slide lies at or after that index, targeting the least such slide. |
| Controller.Render | src/lenta.js:318 | Rendering is exactly the re-layout followed by `Move` to the configured index: it emits `resized` and then, if anything, that move's single `moving` with its payload. So a `moving` follows exactly when nothing is in flight and an enabled slide lies at or after the configured index. It targets the least such slide with an offset within the new strip's bounds, and the state is then the move started on the re-laid-out state. Otherwise the state is just the re-layout. |
| Controller.MovePreservesInv | src/lenta.js:154-196 | A move request keeps focus within the slides and at most one slide focused. A move in flight always heads for an enabled slide. |
| Controller.ApplyPreservesInv | src/lenta.js:71-227 | Every input handler, the completion callback included, preserves that invariant. |
| Controller.RunPreservesInv | src/lenta.js:80-227 | Every run of inputs preserves that invariant. |
| Layout.TotalWidthAppend | src/lenta.js:249-257 | The summed width of two runs of slides is the sum of their widths. |
| Layout.AccumulateWidths | src/lenta.js:249-259 | The running total kept while resizing slides in turn is the strip width. With non-negative widths no slide is wider than it. |
| Layout.ScaledFits | src/lenta.js:237-239 | Scaling by the smaller parent ratio makes the box fit the parent and touch it on one side. |
| Layout.FitHeight | src/lenta.js:233-247 | The capped height is at most the maximum height and the parent height. The box scaled to it fits the parent's width. It equals one of the three limits. |
| Layout.Align | src/lenta.js:268-295 | Centre gives equal margins, right/bottom is flush with the parent's edge, and any other setting keeps the old offset, on each axis. |
| Layout.Resize | src/lenta.js:229-266 | The parent and container boxes are read afresh. The strip width is the sum of the reported widths. Slides take their boxes and keep their disabled marker. With an aspect ratio the height obeys the fit rule and width = height * ratio, otherwise the measured box is kept. Alignment is applied to the new box and nothing else changes. |
| Properties.BusyGuard | src/lenta.js:158-159 | While moving, no input but completion touches the transition, focus or strip offset, or emits `moving`/`moved`. Clicks, wheel and ticks emit nothing. A resize emits only `resized`. |
| Properties.BracketedAppend | src/lenta.js:179-194 | Concatenating two well-bracketed event runs gives a well-bracketed run. |
| Properties.RunBracketed | src/lenta.js:179-194 | In every run, `moving` is only emitted while idle and `moved` only while moving. Another `moving` never comes before the pending `moved`. |
| Properties.MoveToEnabledSlide | src/lenta.js:154-194 | A move to an enabled slide announces that index and keeps the old index and focus until completion. It then commits it with exactly that slide focused. |
| Properties.FocusNeverCleared | src/lenta.js:222-227 | Once some slide is focused, no input leaves the strip with none focused. |
| Properties.ButtonsMatchGuards | src/lenta.js:96-152 | After a completed move the next button is shown exactly when next's guard passes. A shown prev button implies prev's guard passes. |
| Properties.PrevRuleCountsDisabledPositions | src/lenta.js:104-113 | Prev is shown iff toIndex - 1 is at least the number of disabled positions in the whole strip. |
| Properties.PrevHiddenPastEnabledSlide | src/lenta.js:104-113 | On [A, B, C(disabled)] a move to B hides prev, yet prev at B moves to A. |
| Properties.SkipForwardCentresOnFirst | src/lenta.js:165-173 | On [A, B(disabled), C] a request for B lands on C at offset 0 (A's centring), not -200 (C's). |
| Properties.SkippedRequestCentresOnFirst | src/lenta.js:171-172 | Any request that skipped disabled slides uses the first slide's box for its offset. |
| Properties.PrevOntoDisabledStaysPut | src/lenta.js:142-143 | Prev onto a disabled slide resolves forward to the current slide and re-centres on the first slide. |
| Properties.PrevOntoDisabledResolvesToCurrent | src/lenta.js:142-172 | From any enabled slide whose predecessor is disabled, prev requests the current slide again and centres on the first slide's box. |
| Properties.ToSlideAssignsFirst | src/lenta.js:134-135 | A refused selection still assigns the index and emits nothing. |
| Properties.ResizeBurst | src/lenta.js:80-94 | A burst of resizes, each arriving before the previous one's settle falls due, emits one `resized` each and starts no move. It leaves one settle pending, due 300 ms after the last event. |
| Properties.SettleFiresOnce | src/lenta.js:86-93 | The settle is inert before its deadline. After it, it requests the move once, and a second tick finds nothing pending. |
| Properties.RenderThenComplete | src/lenta.js:154-194 | Rendering an idle strip whose configured index has an enabled slide at or after it, then finishing the animation, commits the least such slide with it alone focused and the strip inside the new strip's bounds. |

## Left out

- DOM and event wiring (`initialize`, the `events` map, jQuery selectors and click bindings, `$(window).resize`, `preventDefault`) is I/O plumbing. The listener on `moving` is kept, as the call to `InitControls` inside `Controller.Move`.
- `Slide`, `Scrollbar` and the data-options mix-in are foreign modules and are not part of this model. A slide is a given box plus a disabled marker, and `Resize` takes the boxes the slides report after resizing.
- Animation timing and `setTimeout` are wall-clock behaviour. The animation is the explicit `AnimationDone` input, which does nothing when no move is in flight. The timer is a pending deadline that fires on `Tick(now)` once `now` reaches it. Lenta leaves the fired timer's handle set; clearing a fired timer is harmless, so the model simply empties the slot.
- `activateAllSlides` is never called and would break the single-focus invariant.
- `render` builds the slides, writes CSS and removes the `loading` class. Only its tail `resize().move(index)` is modelled, as `Controller.Render`.
- The `resized` and `moved` notifications have no listener in this file, so they are only emitted.
- JavaScript number semantics are not modelled: double rounding, `NaN` and division by zero. Sizes are exact reals.
- Layout.Resize: requires a positive measured container width and height when an aspect ratio is in force, because they are divisors. Lenta's behaviour on a degenerate box (`NaN` sizes) is not modelled. With the default maximum height 0 an aspect-ratio resize collapses the box to 0, after which a further aspect-ratio resize is outside this precondition.
- Slides' `disabled` markers are read on every move and by the button rule, but no input of the model changes them: they are fixed when the slides are rendered. Toggling them from outside is not modelled, and the invariant that a move in flight heads for an enabled slide relies on this.
- A window resize is only handled before the pending settle falls due (`Controller.Enabled`). The model assumes a due settle fires, through a `Tick`, before any later resize is handled. Browsers do not guarantee that ordering, and the interleaving where a late resize cancels a due settle is not modelled.
- Indices are mathematical integers; a non-integer index, which JavaScript would treat as naming no slide, is not modelled.
