# Carousel slide-index model

A Dafny model of the image carousel component in `src/components/Carousel.jsx`.
Without the rendering framework, the component is a small state machine. It
keeps the index of the slide on display and the measured width of one slide.
The number of images `n` is fixed for a run. The component reacts to four events:

- a click on "next" (`NextSlide`): step forward, stopping at the last slide;
- a click on "previous" (`PrevSlide`): step back, stopping at the first slide;
- a firing of the autoplay timer (`Tick`): step forward, wrapping from the last
  slide back to the first;
- a width measurement on mount or resize (`UpdateSlideWidth`): it takes effect
  only when a first slide exists.

Two values are derived from the state. One is the horizontal offset of the slide
strip, `-(width * index)`. The other is the pair of "disabled" flags of the two buttons.

Files:

- `carousel.dfy` (module `Carousel`): the state, the handlers, the offset
  and the disabled predicates, and the validity invariant `Valid`.
- `events.dfy` (module `CarouselEvents`): the event type, one `Step`, and
  `Run` over a sequence of events.
- `properties.dfy` (module `CarouselProperties`): the lemmas.
- `modular.dfy` (module `Modular`): remainder facts used by the autoplay-cycle proof.

The index is a `nat`. Dafny therefore checks that `PrevSlide` never takes it
below 0, which is the `0 <= index` half of the invariant. Widths are `nat`
because a measured element width is a non-negative whole number of pixels.

## Model

| member | source | states |
|---|---|---|
| Carousel.Init | src/components/Carousel.jsx:5-6 | the mounted state shows the first slide with no width measured yet; it is in range for every number of images, and "previous" starts disabled |
| Carousel.NextSlide | src/components/Carousel.jsx:29-33 | a click on "next" moves forward by at most one slide and never changes the width; it keeps the index in range |
| Carousel.PrevSlide | src/components/Carousel.jsx:36-40 | a click on "previous" moves back by at most one slide and never changes the width; it keeps the index in range |
| Carousel.Tick | src/components/Carousel.jsx:44-49 | a timer firing moves to the next slide or back to slide 0. It always lands in range (at most `n - 1`, or 0 with no images), even from an out-of-range index. It never changes the width |
| Carousel.UpdateSlideWidth | src/components/Carousel.jsx:10-14 | a measurement never changes the index; it sets the width when there is a first slide (`n > 0`) and leaves the whole state untouched otherwise |
| Carousel.Offset | src/components/Carousel.jsx:63 | the strip never moves right of its origin, and it sits at 0 exactly when the index or the width is 0 |
| Carousel.PrevDisabled | src/components/Carousel.jsx:77 | "previous" is disabled exactly when the index is 0, which is exactly when its handler would change nothing |
| Carousel.NextDisabled | src/components/Carousel.jsx:88 | "next" is disabled exactly when its handler would change nothing (the index is at least `n - 1`), and always when there are no images |
| CarouselEvents.Step | src/components/Carousel.jsx:10-49 | every event keeps a valid state valid; a measurement keeps the index and every other event keeps the width |
| CarouselProperties.RunPreservesValid | src/components/Carousel.jsx:29-49 | any sequence of clicks, timer firings and measurements keeps a valid index valid |
| CarouselProperties.ReachableIsValid | src/components/Carousel.jsx:5-6 | from the mounted state (index 0, width 0), every event sequence keeps the index at most `n - 1` with images and at 0 without |
| CarouselProperties.EveryValidIndexIsReachable | src/components/Carousel.jsx:29-33 | conversely, every index below `n` is reached from mount, by that many clicks on "next" |
| CarouselProperties.NextRepeatSaturates | src/components/Carousel.jsx:29-33 | `k` clicks on "next" give index `min(index + k, n - 1)` with the width unchanged: manual forward navigation saturates |
| CarouselProperties.PrevRepeatSaturates | src/components/Carousel.jsx:36-40 | `k` clicks on "previous" give index `max(index - k, 0)` with the width unchanged |
| CarouselProperties.NextIdempotentAtLast | src/components/Carousel.jsx:29-33 | at the last slide a click on "next" changes nothing, and neither does any number `k` of clicks |
| CarouselProperties.PrevIdempotentAtFirst | src/components/Carousel.jsx:36-40 | at the first slide a click on "previous" changes nothing, and neither does any number `k` of clicks |
| CarouselProperties.NextPrevInverse | src/components/Carousel.jsx:29-40 | on a valid state, an effective "next" is undone by "previous" and an effective "previous" is undone by "next" |
| CarouselProperties.TickIsSuccessorModN | src/components/Carousel.jsx:44-49 | on a valid state with images, a tick is the successor modulo `n` |
| CarouselProperties.TickRepeatModular | src/components/Carousel.jsx:44-49 | `k` timer firings give index `(index + k) mod n` with the width unchanged |
| CarouselProperties.TickCycle | src/components/Carousel.jsx:44-49 | `n` timer firings bring every valid state back to itself, so autoplay cycles and never halts |
| CarouselProperties.TickCycleRepeated | src/components/Carousel.jsx:44-49 | every whole number `m` of rounds of `n` firings brings a valid state back to itself |
| CarouselProperties.TickNoShorterCycle | src/components/Carousel.jsx:44-49 | between 1 and `n - 1` firings never return to the starting slide, so autoplay visits every slide |
| CarouselProperties.TickVersusNext | src/components/Carousel.jsx:29-49 | a tick and a click on "next" agree exactly when the index is before the last slide or is 0. On the last slide of two or more, the click does nothing and the tick wraps to 0 |
| CarouselProperties.DisabledAtEnds | src/components/Carousel.jsx:75-91 | on a valid state with images "next" is disabled exactly at slide `n - 1`; with no images both buttons are disabled |
| CarouselProperties.PrevRecoversFromOverrun | src/components/Carousel.jsx:36-40 | at index `n`, past the last slide, "previous" is enabled and one click returns to slide `n - 1`, back in range |
| CarouselProperties.ResizeRecomputesOffset | src/components/Carousel.jsx:10-14 | with images, a measurement keeps the slide shown and moves the strip to `-(measured * index)` |
| CarouselProperties.OffsetMovesBySlideWidth | src/components/Carousel.jsx:63 | each effective "next" moves the strip left by one slide width, and each effective "previous" moves it right by one |
| CarouselProperties.EmptyListStaysInitial | src/components/Carousel.jsx:11-12 | with no images, every event sequence leaves the component in its mounted state (index 0, width 0), whatever is measured |
| CarouselProperties.ThreeImagesScenario | src/components/Carousel.jsx:29-49 | with three images: one "next" shows slide 1, three saturate at slide 2, and a tick there returns to slide 0 |

## Left out

- React hooks and effect scheduling (`useState`, `useEffect`, `useRef`, dependency arrays, cleanup functions). Ticks and measurements are modelled as events applied one after another to one current state.
- The 3000 ms interval and its cancel-and-rearm on every index change: timing only, so a tick is just an event.
- The resize listener and the DOM measurement through `offsetWidth`: browser I/O. The measured width is an input of `UpdateSlideWidth`. The model ties "a first slide element exists" to `n > 0`.
- Stale closures. The handlers test the `currentIndex` captured at render time but apply a functional update to the latest index. The model applies every event to the single current state, where both are the same value. In the component, a timer firing and a click on "next" can both be handled before the next render. Both then read the same `currentIndex == n - 2` (lines 30 and 45), and both apply `prevIndex + 1` (lines 31 and 46). The index then reaches `n`, which is outside `Valid`. The next timer firing (to 0) or a click on "previous" (to `n - 1`, since that button is enabled there) brings it back. The model accounts for both recoveries: `Carousel.Tick`'s contract says a tick lands in range even from an out-of-range index, and `CarouselProperties.PrevRecoversFromOverrun` covers the click.
- Changing the image list while mounted: the component does not clamp the index when the list shrinks. `n` is fixed per run, and the invariant is claimed only for a fixed `n`. `Tick` does return any index to the valid range.
- JavaScript number semantics: the offset is an unbounded integer, so floating-point rounding above 2^53 and the sign of `-0` are not modelled.
- Rendering: JSX, classes, CSS transitions, `alt` and `aria-label` text.
