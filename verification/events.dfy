/**
 The events the carousel reacts to, applied one after another to a single
 current state, for a fixed number of images.
 */
module CarouselEvents {
  import opened Carousel

  /** A click on "next", a click on "previous", a firing of the autoplay
      timer, or a width measurement (on mount or on a viewport resize). */
  datatype Event = Next | Prev | TimerFired | Resize(measured: nat)

  /** The effect of one event. */
  function Step(s: State, e: Event, n: nat): (r: State)
    ensures Valid(s, n) ==> Valid(r, n)
    ensures e.Resize? ==> r.index == s.index
    ensures !e.Resize? ==> r.width == s.width
  {
    match e
    case Next => NextSlide(s, n)
    case Prev => PrevSlide(s, n)
    case TimerFired => Tick(s, n)
    case Resize(w) => UpdateSlideWidth(s, n, w)
  }

  /** The state after applying `evs` in order, starting from `s`. */
  function Run(s: State, evs: seq<Event>, n: nat): (r: State)
    decreases |evs|
  {
    if |evs| == 0 then s else Run(Step(s, evs[0], n), evs[1..], n)
  }

  /** `k` copies of the same event. */
  function Repeat(e: Event, k: nat): (r: seq<Event>)
    ensures |r| == k
    ensures forall i :: 0 <= i < |r| ==> r[i] == e
  {
    if k == 0 then [] else [e] + Repeat(e, k - 1)
  }
}
