/**
 * The esports gallery slideshow (esports-gallery.js): a deck of slides and
 * indicators queried once, a current index, an auto-advance interval, keyboard
 * and swipe navigation, and an image preloader guarded by a per-image flag.
 *
 * The deck may be empty; every entry point then does nothing.  The slide
 * transition that the source defers to an animation frame is one atomic step.
 */
module EsportsGallery {
  import opened Wrappers
  import opened SlideDeck

  /** A slide's `img` element as the preloader sees it. */
  datatype SlideImage = NoImage | Image(complete: bool)

  /** A `.slide` element as found in the document: its `active` class and its image. */
  datatype Slide = Slide(active: bool, image: SlideImage)

  /**
   * The `changeSlide` direction a touch that starts at startX and ends at endX
   * asks for (0: no change): a swipe to the left advances, a swipe to the right
   * goes back, and a horizontal travel of at most the threshold is ignored.
   */
  function SwipeStep(startX: int, endX: int): (step: int)
    ensures step == 0 <==> -SwipeThreshold <= endX - startX <= SwipeThreshold
    ensures step == 1 <==> endX - startX < -SwipeThreshold
    ensures step == -1 <==> endX - startX > SwipeThreshold
  {
    var diff := endX - startX;
    if Abs(diff) > SwipeThreshold then (if diff < 0 then 1 else -1) else 0
  }

  function Abs(x: int): (a: nat)
    ensures a == x || a == -x
  {
    if x < 0 then -x else x
  }

  class Slideshow {
    /** `totalSlides`. */
    const n: nat
    /** The `active` class of each `.slide`. */
    const slides: array<bool>
    /** The `active` class of each `.indicator`; their number need not be n. */
    const indicators: array<bool>
    /** Each slide's image. */
    const images: seq<SlideImage>
    /** The `data-preloaded` flag of each slide's image. */
    const preloaded: array<bool>
    /** `currentSlide`. */
    var currentSlide: int
    /** `slideshowInterval`: the id of the interval last created, or null. */
    var handle: Option<nat>
    /** The auto-advance intervals the browser still runs. */
    var liveTimers: set<nat>
    /** The next id `setInterval` hands out (ids are positive, never reused). */
    var nextTimerId: nat

    ghost predicate Valid()
      reads this
    {
      && slides.Length == n && preloaded.Length == n && |images| == n
      && slides != indicators && slides != preloaded && indicators != preloaded
      && (if n == 0 then currentSlide == 0 else 0 <= currentSlide < n)
      && liveTimers == Elements(handle)
      && 0 < nextTimerId
      && (forall id :: id in liveTimers ==> 0 < id < nextTimerId)
    }

    /** The deck and the indicators as `initSlideshow` queries them; no interval yet. */
    constructor (deck: seq<Slide>, indicatorFlags: seq<bool>)
      ensures Valid()
      ensures n == |deck| && currentSlide == 0
      ensures fresh(slides) && fresh(indicators) && fresh(preloaded)
      ensures forall i :: 0 <= i < n ==> slides[i] == deck[i].active && images[i] == deck[i].image && !preloaded[i]
      ensures indicators[..] == indicatorFlags
      ensures handle == None && liveTimers == {}
    {
      n := |deck|;
      slides := new bool[|deck|](i requires 0 <= i < |deck| => deck[i].active);
      indicators := new bool[|indicatorFlags|](i requires 0 <= i < |indicatorFlags| => indicatorFlags[i]);
      images := seq(|deck|, i requires 0 <= i < |deck| => deck[i].image);
      preloaded := new bool[|deck|];
      new;
      forall i | 0 <= i < preloaded.Length {
        preloaded[i] := false;
      }
      currentSlide := 0;
      handle := None;
      liveTimers := {};
      nextTimerId := 1;
    }

    /** A request for slide i's image is worth issuing: it exists, is not loaded and not yet preloaded. */
    predicate NeedsPreload(i: int)
      requires Valid() && 0 <= i < n
      reads this, preloaded
    {
      images[i].Image? && !images[i].complete && !preloaded[i]
    }

    /** The request `changeSlide` makes after a move: the slide after the current one, when its image needs preloading. */
    function NextPreload(): (o: Option<nat>)
      requires Valid() && n > 0
      reads this, preloaded
      ensures o.Some? ==> o.value == (currentSlide + 1) % n && NeedsPreload(o.value)
      ensures o.None? ==> !NeedsPreload((currentSlide + 1) % n)
    {
      var next := (currentSlide + 1) % n;
      if NeedsPreload(next) then Some(next) else None
    }

    /**
     * The immediate requests of `preloadImages`: the first slide's image when
     * it is not loaded, then each of the next two slides' images that needs preloading.
     */
    function InitialRequests(): (rs: seq<nat>)
      requires Valid() && n > 0
      reads this, preloaded
      ensures |rs| <= 3
      ensures forall k :: 0 <= k < |rs| ==>
                && rs[k] < n
                && ((rs[k] == 0 && images[0].Image? && !images[0].complete) || NeedsPreload(rs[k]))
    {
      (if images[0].Image? && !images[0].complete then [0] else [])
      + (if NeedsPreload((currentSlide + 1) % n) then [(currentSlide + 1) % n] else [])
      + (if NeedsPreload((currentSlide + 2) % n) then [(currentSlide + 2) % n] else [])
    }

    /** `initSlideshow`: nothing at all for an empty deck; otherwise mark the indicators, start auto-advance and preload. */
    method Init() returns (requests: seq<nat>)
      requires Valid()
      modifies this, indicators
      ensures Valid()
      ensures n == 0 ==> unchanged(this, indicators) && requests == []
      ensures n > 0 ==> && currentSlide == old(currentSlide)
                        && ActiveExactlyAt(indicators[..], currentSlide)
                        && handle == Some(old(nextTimerId)) && liveTimers == {old(nextTimerId)}
                        && requests == InitialRequests()
    {
      if n == 0 {
        return [];
      }
      UpdateIndicators();
      StartAutoSlide();
      requests := PreloadImages();
    }

    /** `updateIndicators`: exactly the indicator at the current index is active afterwards. */
    method UpdateIndicators()
      requires Valid()
      modifies indicators
      ensures ActiveExactlyAt(indicators[..], currentSlide)
    {
      if indicators.Length == 0 {
        return;
      }
      for i := 0 to indicators.Length
        invariant forall j :: 0 <= j < i ==> indicators[j] == (j == currentSlide)
      {
        indicators[i] := i == currentSlide;
      }
    }

    /** `startAutoSlide`: clear the interval held, if any, then create a new one. */
    method StartAutoSlide()
      requires Valid()
      modifies this
      ensures Valid()
      ensures currentSlide == old(currentSlide)
      ensures handle == Some(old(nextTimerId)) && liveTimers == {old(nextTimerId)}
      ensures nextTimerId == old(nextTimerId) + 1
    {
      if handle.Some? {
        liveTimers := liveTimers - {handle.value};
      }
      var id := nextTimerId;
      nextTimerId := id + 1;
      liveTimers := liveTimers + {id};
      handle := Some(id);
    }

    /** `pauseAutoSlide`: clear the interval held and forget its id. */
    method PauseAutoSlide()
      requires Valid()
      modifies this
      ensures Valid()
      ensures currentSlide == old(currentSlide) && nextTimerId == old(nextTimerId)
      ensures handle == None && liveTimers == {}
    {
      if handle.Some? {
        liveTimers := liveTimers - {handle.value};
        handle := None;
      }
    }

    /** `resetAutoSlide`: pause, then start. */
    method ResetAutoSlide()
      requires Valid()
      modifies this
      ensures Valid()
      ensures currentSlide == old(currentSlide)
      ensures handle == Some(old(nextTimerId)) && liveTimers == {old(nextTimerId)}
      ensures nextTimerId == old(nextTimerId) + 1
    {
      PauseAutoSlide();
      StartAutoSlide();
    }

    /**
     * `changeSlide(direction)`: move the active slide from the current index to
     * the wrapped new one, re-mark the indicators, ask for the following
     * slide's image when it needs preloading, and restart auto-advance.
     */
    method ChangeSlide(direction: int) returns (preload: Option<nat>)
      requires Valid()
      modifies this, slides, indicators
      ensures Valid()
      ensures n == 0 ==> unchanged(this, slides, indicators) && preload == None
      ensures n > 0 ==> && currentSlide == Wrap(old(currentSlide), direction, n)
                        && slides[..] == old(slides[..])[old(currentSlide) := false][currentSlide := true]
                        && ActiveExactlyAt(indicators[..], currentSlide)
                        && handle == Some(old(nextTimerId)) && liveTimers == {old(nextTimerId)}
                        && preload == NextPreload()
      ensures ActiveExactlyAt(old(slides[..]), old(currentSlide)) ==> ActiveExactlyAt(slides[..], currentSlide)
    {
      if n == 0 {
        return None;
      }
      slides[currentSlide] := false;
      if currentSlide < indicators.Length {
        indicators[currentSlide] := false;
      }
      currentSlide := currentSlide + direction;
      if currentSlide < 0 {
        currentSlide := n - 1;
      } else if currentSlide >= n {
        currentSlide := 0;
      }
      slides[currentSlide] := true;
      UpdateIndicators();
      ResetAutoSlide();
      preload := NextPreload();
      if ActiveExactlyAt(old(slides[..]), old(currentSlide)) {
        MoveActive(old(slides[..]), old(currentSlide), currentSlide);
      }
    }

    /**
     * `goToSlide(index)`: only an index inside the deck other than the current
     * one changes anything; then the active slide moves there and auto-advance restarts.
     */
    method GoToSlide(index: int)
      requires Valid()
      modifies this, slides, indicators
      ensures Valid()
      ensures (n == 0 || index < 0 || index >= n || index == old(currentSlide)) ==> unchanged(this, slides, indicators)
      ensures 0 <= index < n && index != old(currentSlide) ==>
                && currentSlide == index
                && slides[..] == old(slides[..])[old(currentSlide) := false][index := true]
                && ActiveExactlyAt(indicators[..], index)
                && handle == Some(old(nextTimerId)) && liveTimers == {old(nextTimerId)}
      ensures ActiveExactlyAt(old(slides[..]), old(currentSlide)) ==> ActiveExactlyAt(slides[..], currentSlide)
    {
      if n == 0 {
        return;
      }
      if 0 <= index < n && index != currentSlide {
        slides[currentSlide] := false;
        if currentSlide < indicators.Length {
          indicators[currentSlide] := false;
        }
        currentSlide := index;
        slides[currentSlide] := true;
        UpdateIndicators();
        ResetAutoSlide();
        if ActiveExactlyAt(old(slides[..]), old(currentSlide)) {
          MoveActive(old(slides[..]), old(currentSlide), index);
        }
      }
    }

    /**
     * `handleKeyboard`: the arrows step back and forth, Space pauses and then
     * advances (which restarts auto-advance), Escape pauses; these four call
     * `preventDefault`.  Any other key, or an empty deck, changes nothing.
     */
    method HandleKeyboard(key: Key) returns (preventDefault: bool, preload: Option<nat>)
      requires Valid()
      modifies this, slides, indicators
      ensures Valid()
      ensures preventDefault <==> n > 0 && !key.OtherKey?
      ensures (n == 0 || key.OtherKey?) ==> unchanged(this, slides, indicators)
      ensures !(n > 0 && (key.ArrowLeft? || key.ArrowRight? || key.Space?)) ==> preload == None
      ensures n > 0 && (key.ArrowLeft? || key.ArrowRight? || key.Space?) ==>
                && currentSlide == Wrap(old(currentSlide), if key.ArrowLeft? then -1 else 1, n)
                && slides[..] == old(slides[..])[old(currentSlide) := false][currentSlide := true]
                && ActiveExactlyAt(indicators[..], currentSlide)
                && handle == Some(old(nextTimerId)) && liveTimers == {old(nextTimerId)}
                && preload == NextPreload()
      ensures n > 0 && key.Escape? ==>
                && currentSlide == old(currentSlide) && unchanged(slides, indicators)
                && handle == None && liveTimers == {}
      ensures ActiveExactlyAt(old(slides[..]), old(currentSlide)) ==> ActiveExactlyAt(slides[..], currentSlide)
    {
      preload := None;
      if n == 0 {
        return false, None;
      }
      match key
      case ArrowLeft =>
        preventDefault := true;
        preload := ChangeSlide(-1);
      case ArrowRight =>
        preventDefault := true;
        preload := ChangeSlide(1);
      case Space =>
        preventDefault := true;
        PauseAutoSlide();
        preload := ChangeSlide(1);
      case Escape =>
        preventDefault := true;
        PauseAutoSlide();
      case OtherKey(_) =>
        preventDefault := false;
    }

    /** `handleSwipe`: a swipe beyond the threshold steps by `SwipeStep`; a shorter one changes nothing. */
    method HandleSwipe(startX: int, endX: int) returns (preload: Option<nat>)
      requires Valid()
      modifies this, slides, indicators
      ensures Valid()
      ensures SwipeStep(startX, endX) == 0 || n == 0 ==> unchanged(this, slides, indicators) && preload == None
      ensures SwipeStep(startX, endX) != 0 && n > 0 ==>
                && currentSlide == Wrap(old(currentSlide), SwipeStep(startX, endX), n)
                && slides[..] == old(slides[..])[old(currentSlide) := false][currentSlide := true]
                && ActiveExactlyAt(indicators[..], currentSlide)
                && handle == Some(old(nextTimerId)) && liveTimers == {old(nextTimerId)}
                && preload == NextPreload()
      ensures ActiveExactlyAt(old(slides[..]), old(currentSlide)) ==> ActiveExactlyAt(slides[..], currentSlide)
    {
      preload := None;
      var step := SwipeStep(startX, endX);
      if step != 0 {
        preload := ChangeSlide(step);
      }
    }

    /** The auto-advance interval firing: advance by one when the deck is not empty. */
    method AutoAdvance() returns (preload: Option<nat>)
      requires Valid()
      modifies this, slides, indicators
      ensures Valid()
      ensures n == 0 ==> unchanged(this, slides, indicators) && preload == None
      ensures n > 0 ==> && currentSlide == Wrap(old(currentSlide), 1, n)
                        && slides[..] == old(slides[..])[old(currentSlide) := false][currentSlide := true]
                        && ActiveExactlyAt(indicators[..], currentSlide)
                        && handle == Some(old(nextTimerId)) && liveTimers == {old(nextTimerId)}
                        && preload == NextPreload()
      ensures ActiveExactlyAt(old(slides[..]), old(currentSlide)) ==> ActiveExactlyAt(slides[..], currentSlide)
    {
      preload := None;
      if n > 0 {
        preload := ChangeSlide(1);
      }
    }

    /**
     * `preloadImages`, immediate part: the first slide's image if it is not
     * loaded, then each of the next two slides' images that needs preloading.
     */
    method PreloadImages() returns (requests: seq<nat>)
      requires Valid()
      ensures n == 0 ==> requests == []
      ensures n > 0 ==> requests == InitialRequests()
    {
      if n == 0 {
        return [];
      }
      requests := [];
      if images[0].Image? && !images[0].complete {
        requests := [0];
      }
      var next1 := (currentSlide + 1) % n;
      var next2 := (currentSlide + 2) % n;
      if NeedsPreload(next1) {
        requests := requests + [next1];
      }
      if NeedsPreload(next2) {
        requests := requests + [next2];
      }
    }

    /**
     * `preloadImages`, deferred part: every slide other than the current one
     * and the two indices captured when it was scheduled, in deck order, whose
     * image needs preloading.
     */
    method PreloadRemaining(next1: int, next2: int) returns (requests: seq<nat>)
      requires Valid()
      ensures forall i :: i in requests <==> 0 <= i < n && i != currentSlide && i != next1 && i != next2 && NeedsPreload(i)
      ensures forall j, k :: 0 <= j < k < |requests| ==> requests[j] < requests[k]
    {
      requests := [];
      for i := 0 to n
        invariant forall r :: r in requests <==> 0 <= r < i && r != currentSlide && r != next1 && r != next2 && NeedsPreload(r)
        invariant forall j, k :: 0 <= j < k < |requests| ==> requests[j] < requests[k]
        invariant forall k :: 0 <= k < |requests| ==> requests[k] < i
      {
        if i != currentSlide && i != next1 && i != next2 && NeedsPreload(i) {
          requests := requests + [i];
        }
      }
    }

    /** A preload request for slide i completed: its image is flagged and is never requested again. */
    method ImageLoaded(i: int)
      requires Valid() && 0 <= i < n
      modifies preloaded
      ensures preloaded[..] == old(preloaded[..])[i := true]
      ensures !NeedsPreload(i)
    {
      preloaded[i] := true;
    }
  }
}
