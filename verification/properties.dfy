/**
 Properties of the carousel state machine: the reachability invariant over
 event sequences, saturation of manual navigation, the cycle of autoplay,
 the agreement between the disabled buttons and their handlers' no-op
 condition, and the slide offset.
 */
module CarouselProperties {
  import opened Carousel
  import opened CarouselEvents
  import Modular

  function Min(a: int, b: int): (r: int) { if a <= b then a else b }
  function Max(a: int, b: int): (r: int) { if a <= b then b else a }

  /** Running `[e] + rest` is one step followed by running `rest`. */
  lemma RunCons(s: State, e: Event, rest: seq<Event>, n: nat)
    ensures Run(s, [e] + rest, n) == Run(Step(s, e, n), rest, n)
  {
  }

  /** Running `a + b` is running `a`, then running `b` from where it ended. */
  lemma {:induction false} RunAppend(s: State, a: seq<Event>, b: seq<Event>, n: nat)
    ensures Run(s, a + b, n) == Run(Run(s, a, n), b, n)
    decreases |a|
  {
    if |a| == 0 {
      assert a + b == b;
    } else {
      assert a + b == [a[0]] + (a[1..] + b);
      RunCons(s, a[0], a[1..] + b, n);
      RunAppend(Step(s, a[0], n), a[1..], b, n);
      assert a == [a[0]] + a[1..];
      RunCons(s, a[0], a[1..], n);
    }
  }

  // ---------------------------------------------------------------------
  // Reachability invariant
  // ---------------------------------------------------------------------

  /** Every event sequence keeps a valid state valid. */
  lemma {:induction false} RunPreservesValid(s: State, evs: seq<Event>, n: nat)
    requires Valid(s, n)
    ensures Valid(Run(s, evs, n), n)
    decreases |evs|
  {
    if |evs| > 0 {
      RunPreservesValid(Step(s, evs[0], n), evs[1..], n);
    }
  }

  /** From mount, every sequence of clicks, timer firings and resizes keeps
      the index in range: at most `n - 1` when there are images, and 0 when
      there are none. */
  lemma ReachableIsValid(evs: seq<Event>, n: nat)
    ensures n > 0 ==> Run(Init(), evs, n).index <= n - 1
    ensures n == 0 ==> Run(Init(), evs, n).index == 0
  {
    RunPreservesValid(Init(), evs, n);
  }

  /** Conversely, every index in range is reached from mount by that many
      clicks on "next", so the invariant describes exactly the reachable
      indices. */
  lemma EveryValidIndexIsReachable(i: nat, n: nat)
    requires i < n
    ensures Run(Init(), Repeat(Next, i), n).index == i
  {
    NextRepeatSaturates(Init(), i, n);
  }

  // ---------------------------------------------------------------------
  // Manual navigation saturates
  // ---------------------------------------------------------------------

  /** `k` clicks on "next" advance by `k` but stop at the last slide, and
      never change the width. */
  lemma {:induction false} NextRepeatSaturates(s: State, k: nat, n: nat)
    requires Valid(s, n) && n > 0
    ensures Run(s, Repeat(Next, k), n) == s.(index := Min(s.index + k, n - 1))
    decreases k
  {
    if k > 0 {
      RunCons(s, Next, Repeat(Next, k - 1), n);
      NextRepeatSaturates(NextSlide(s, n), k - 1, n);
    }
  }

  /** `k` clicks on "previous" go back by `k` but stop at the first slide,
      and never change the width. */
  lemma {:induction false} PrevRepeatSaturates(s: State, k: nat, n: nat)
    ensures Run(s, Repeat(Prev, k), n) == s.(index := Max(s.index - k, 0))
    decreases k
  {
    if k > 0 {
      RunCons(s, Prev, Repeat(Prev, k - 1), n);
      PrevRepeatSaturates(PrevSlide(s, n), k - 1, n);
    }
  }

  /** Clicking "next" at the last slide changes nothing, however often. */
  lemma {:induction false} NextIdempotentAtLast(s: State, k: nat, n: nat)
    requires s.index == n - 1
    ensures NextSlide(s, n) == s
    ensures Run(s, Repeat(Next, k), n) == s
    decreases k
  {
    if k > 0 {
      RunCons(s, Next, Repeat(Next, k - 1), n);
      NextIdempotentAtLast(s, k - 1, n);
    }
  }

  /** Clicking "previous" at the first slide changes nothing, however often. */
  lemma {:induction false} PrevIdempotentAtFirst(s: State, k: nat, n: nat)
    requires s.index == 0
    ensures PrevSlide(s, n) == s
    ensures Run(s, Repeat(Prev, k), n) == s
    decreases k
  {
    if k > 0 {
      RunCons(s, Prev, Repeat(Prev, k - 1), n);
      PrevIdempotentAtFirst(s, k - 1, n);
    }
  }

  /** Away from the boundaries the two buttons undo each other. */
  lemma NextPrevInverse(s: State, n: nat)
    requires Valid(s, n)
    ensures NextSlide(s, n) != s ==> PrevSlide(NextSlide(s, n), n) == s
    ensures PrevSlide(s, n) != s ==> NextSlide(PrevSlide(s, n), n) == s
  {
  }

  // ---------------------------------------------------------------------
  // Autoplay is cyclic
  // ---------------------------------------------------------------------

  /** On a valid state a tick is the successor modulo `n`. */
  lemma TickIsSuccessorModN(s: State, n: nat)
    requires Valid(s, n) && n > 0
    ensures Tick(s, n) == s.(index := (s.index + 1) % n)
  {
  }

  /** `k` timer firings advance the index by `k` modulo `n`. */
  lemma {:induction false} TickRepeatModular(s: State, k: nat, n: nat)
    requires Valid(s, n) && n > 0
    ensures Run(s, Repeat(TimerFired, k), n) == s.(index := (s.index + k) % n)
    decreases k
  {
    if k > 0 {
      var t := Tick(s, n);
      RunCons(s, TimerFired, Repeat(TimerFired, k - 1), n);
      TickIsSuccessorModN(s, n);
      TickRepeatModular(t, k - 1, n);
      Modular.ModAddMod(s.index + 1, k - 1, n);
    }
  }

  /** Autoplay never halts: `n` firings bring every valid state back to
      itself. */
  lemma TickCycle(s: State, n: nat)
    requires Valid(s, n) && n > 0
    ensures Run(s, Repeat(TimerFired, n), n) == s
  {
    TickRepeatModular(s, n, n);
    Modular.ModAddSelf(s.index, n);
  }

  /** `a + b` copies of an event are `a` copies followed by `b` copies. */
  lemma RepeatAppend(e: Event, a: nat, b: nat)
    ensures Repeat(e, a + b) == Repeat(e, a) + Repeat(e, b)
  {
  }

  /** Autoplay keeps cycling: every whole number `m` of rounds of `n`
      firings brings a valid state back to itself. */
  lemma {:induction false} TickCycleRepeated(s: State, m: nat, n: nat)
    requires Valid(s, n) && n > 0
    ensures Run(s, Repeat(TimerFired, m * n), n) == s
    decreases m
  {
    if m > 0 {
      assert m * n == n + (m - 1) * n;
      RepeatAppend(TimerFired, n, (m - 1) * n);
      RunAppend(s, Repeat(TimerFired, n), Repeat(TimerFired, (m - 1) * n), n);
      TickCycle(s, n);
      TickCycleRepeated(s, m - 1, n);
    }
  }

  /** No shorter positive number of firings brings the index back: with `k`
      strictly between 0 and `n`, the slide shown differs. */
  lemma TickNoShorterCycle(s: State, k: nat, n: nat)
    requires Valid(s, n) && 0 < k < n
    ensures Run(s, Repeat(TimerFired, k), n).index != s.index
  {
    TickRepeatModular(s, k, n);
    if s.index + k < n {
      Modular.ModUnique(s.index + k, 0, s.index + k, n);
    } else {
      Modular.ModAddSelf(s.index + k - n, n);
      assert (s.index + k) % n == s.index + k - n;
    }
  }

  /** The asymmetry between the two ways of moving forward: a tick agrees
      with a click on "next" except on the last slide of a list of at least
      two, where the click does nothing and the tick wraps to the start. */
  lemma TickVersusNext(s: State, n: nat)
    requires Valid(s, n)
    ensures Tick(s, n) == NextSlide(s, n) <==> s.index < n - 1 || s.index == 0
    ensures n >= 2 && s.index == n - 1 ==> NextSlide(s, n) == s && Tick(s, n).index == 0
  {
  }

  // ---------------------------------------------------------------------
  // Disabled buttons
  // ---------------------------------------------------------------------

  /** On a valid state "next" is disabled exactly on the last slide, and
      both buttons are disabled when the list is empty. (That "previous" is
      disabled exactly on the first slide is part of its own contract.) */
  lemma DisabledAtEnds(s: State, n: nat)
    requires Valid(s, n)
    ensures n > 0 ==> (NextDisabled(s, n) <==> s.index == n - 1)
    ensures n == 0 ==> PrevDisabled(s) && NextDisabled(s, n)
  {
  }

  // ---------------------------------------------------------------------
  // Width and offset
  // ---------------------------------------------------------------------

  /** A measurement moves the strip to the current slide at the new width,
      without changing which slide is shown. */
  lemma ResizeRecomputesOffset(s: State, n: nat, measured: nat)
    requires n > 0
    ensures UpdateSlideWidth(s, n, measured).index == s.index
    ensures Offset(UpdateSlideWidth(s, n, measured)) == -(measured * s.index)
  {
  }

  /** Each effective click on "next" moves the strip left by one slide
      width, and each effective click on "previous" moves it right by one. */
  lemma OffsetMovesBySlideWidth(s: State, n: nat)
    ensures NextSlide(s, n) != s ==> Offset(NextSlide(s, n)) == Offset(s) - s.width
    ensures PrevSlide(s, n) != s ==> Offset(PrevSlide(s, n)) == Offset(s) + s.width
  {
  }

  /** An index past the last slide, which the component can reach when a
      timer firing and a click on "next" are handled before the same render,
      leaves "previous" enabled, and one click on it returns to the last
      slide. */
  lemma PrevRecoversFromOverrun(s: State, n: nat)
    requires n > 0 && s.index == n
    ensures !PrevDisabled(s)
    ensures PrevSlide(s, n).index == n - 1 && Valid(PrevSlide(s, n), n)
  {
  }

  /** Without images no event moves the component out of its mounted state:
      the index stays 0 and the width stays 0 whatever is measured, so the
      offset stays 0. */
  lemma {:induction false} EmptyListStaysInitial(evs: seq<Event>)
    ensures Run(Init(), evs, 0) == Init()
    decreases |evs|
  {
    if |evs| > 0 {
      assert Step(Init(), evs[0], 0) == Init();
      EmptyListStaysInitial(evs[1..]);
    }
  }

  // ---------------------------------------------------------------------
  // A worked scenario
  // ---------------------------------------------------------------------

  /** Three images: one click on "next" shows slide 1; two more saturate at
      slide 2; a tick there returns to slide 0. */
  lemma ThreeImagesScenario()
    ensures Run(Init(), [Next], 3).index == 1
    ensures Run(Init(), [Next, Next, Next], 3).index == 2
    ensures Run(Init(), [Next, Next, Next, TimerFired], 3).index == 0
  {
  }
}
