/**
 The slide-index state machine of the image carousel, stripped of its
 rendering framework. The component keeps two pieces of state: the index of
 the slide on display and the measured width of one slide. The number of
 images `n` is fixed for a run and passed to every operation.

 Manual navigation (`NextSlide`, `PrevSlide`) saturates at the ends of the
 slide list; autoplay (`Tick`) wraps from the last slide back to the first.
 */
module Carousel {

  /** The component's state: the current slide and the width of one slide.
      Both start at zero when the component mounts. */
  datatype State = State(index: nat, width: nat)

  /** The state right after mount: the first slide, not yet measured. */
  function Init(): (r: State)
    ensures forall n: nat :: Valid(r, n)
    ensures PrevDisabled(r)
    ensures r.width == 0
  {
    State(0, 0)
  }

  /** The reachable range of the index for `n` images: a position inside the
      list when it is non-empty, and the initial 0 when it is empty. */
  ghost predicate Valid(s: State, n: nat) {
    if n == 0 then s.index == 0 else s.index < n
  }

  /** The "next" button handler: step forward unless already on the last
      slide (or past it); never wraps. */
  function NextSlide(s: State, n: nat): (r: State)
    ensures r.width == s.width
    ensures r.index == s.index || r.index == s.index + 1
    ensures Valid(s, n) ==> Valid(r, n)
  {
    if s.index < n - 1 then s.(index := s.index + 1) else s
  }

  /** The "previous" button handler: step back unless already on the first
      slide; never wraps and never goes below 0. */
  function PrevSlide(s: State, n: nat): (r: State)
    ensures r.width == s.width
    ensures r.index == s.index || r.index + 1 == s.index
    ensures Valid(s, n) ==> Valid(r, n)
  {
    if s.index > 0 then s.(index := s.index - 1) else s
  }

  /** One firing of the autoplay timer: step forward before the last slide,
      otherwise return to the first slide. */
  function Tick(s: State, n: nat): (r: State)
    ensures r.width == s.width
    // a tick always lands in range, whatever the index it starts from
    ensures Valid(r, n)
    ensures r.index == s.index + 1 || r.index == 0
  {
    if s.index < n - 1 then s.(index := s.index + 1) else s.(index := 0)
  }

  /** A width measurement. The component reads the width of the first slide
      element, so the measurement takes effect only when there is a first
      slide, that is when `n > 0`; otherwise the stored width is kept. */
  function UpdateSlideWidth(s: State, n: nat, measured: nat): (r: State)
    ensures r.index == s.index
    ensures n > 0 ==> r.width == measured
    ensures n == 0 ==> r == s
  {
    if n > 0 then s.(width := measured) else s
  }

  /** The horizontal translation of the slide strip, in pixels. */
  function Offset(s: State): (r: int)
    ensures r <= 0
    ensures s.index == 0 || s.width == 0 <==> r == 0
  {
    -(s.width * s.index)
  }

  /** Whether the "previous" button is disabled: exactly on the first
      slide, which is exactly when its handler would leave the state
      unchanged. */
  predicate PrevDisabled(s: State)
    ensures PrevDisabled(s) <==> s.index == 0
    ensures forall n: nat :: PrevDisabled(s) <==> PrevSlide(s, n) == s
  {
    s.index <= 0
  }

  /** Whether the "next" button is disabled: exactly when its handler would
      leave the state unchanged, and always when there are no images. */
  predicate NextDisabled(s: State, n: nat)
    ensures NextDisabled(s, n) <==> NextSlide(s, n) == s
    ensures n == 0 ==> NextDisabled(s, n)
  {
    s.index >= n - 1
  }
}
