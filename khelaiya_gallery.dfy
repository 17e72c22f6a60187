/**
 * The khelaiya gallery slideshow (khelaiya-gallery.js).  Same controller as
 * the esports one, with these differences: the deck is queried when the
 * script loads; `changeSlide` and `goToSlide` index the slides and the
 * indicators at the current index without any check, so a move needs a
 * non-empty deck and an indicator at the index it leaves; after a move the
 * next slide's image is requested, with no record of earlier requests;
 * pausing clears the interval but keeps its id;
 * Escape does not call `preventDefault`; the swipe rule is two separate tests.
 */
module KhelaiyaGallery {
  import opened Wrappers
  import opened SlideDeck
  import EsportsGallery

  /** A key that makes `handleKeyboard` call `changeSlide`. */
  predicate Navigates(key: Key)
  {
    key.ArrowLeft? || key.ArrowRight? || key.Space?
  }

  /**
   * The `changeSlide` calls `handleSwipe` makes for a touch from startX to
   * endX: +1 when the touch ended more than the threshold to the left, -1
   * when it ended more than the threshold to the right.  The two tests never
   * both succeed, so a swipe makes at most one call.
   */
  function SwipeCalls(startX: int, endX: int): (calls: seq<int>)
    ensures |calls| <= 1
    ensures calls == [1] <==> endX < startX - SwipeThreshold
    ensures calls == [-1] <==> endX > startX + SwipeThreshold
  {
    var first := if endX < startX - SwipeThreshold then [1] else [];
    var second := if endX > startX + SwipeThreshold then [-1] else [];
    assert first == [] || second == [];
    assert |first + second| == 1 ==> (first + second)[0] == (if first != [] then 1 else -1);
    first + second
  }

  /** The two galleries' swipe rules agree on every touch. */
  lemma SwipeRulesAgree(startX: int, endX: int)
    ensures SwipeCalls(startX, endX) ==
      (if EsportsGallery.SwipeStep(startX, endX) == 0 then [] else [EsportsGallery.SwipeStep(startX, endX)])
  {
  }

  class Slideshow {
    /** `totalSlides`. */
    const n: nat
    /** The `active` class of each `.slide`. */
    const slides: array<bool>
    /** The `active` class of each `.indicator`. */
    const indicators: array<bool>
    /** Each slide's image. */
    const images: seq<EsportsGallery.SlideImage>
    /** `currentSlide`. */
    var currentSlide: int
    /** `slideshowInterval`: the id of the interval last created (kept after it is cleared), or undefined. */
    var handle: Option<nat>
    /** The auto-advance intervals the browser still runs. */
    var liveTimers: set<nat>
    /** The next id `setInterval` hands out (ids are positive, never reused). */
    var nextTimerId: nat

    ghost predicate Valid()
      reads this
    {
      && slides.Length == n && |images| == n && slides != indicators
      && (if n == 0 then currentSlide == 0 else 0 <= currentSlide < n)
      && AtMostHandle(liveTimers, handle)
      && 0 < nextTimerId
      && (handle.Some? ==> 0 < handle.value < nextTimerId)
    }

    /** The deck and the indicators as the script queries them when it loads. */
    constructor (deck: seq<EsportsGallery.Slide>, indicatorFlags: seq<bool>)
      ensures Valid()
      ensures n == |deck| && currentSlide == 0
      ensures fresh(slides) && fresh(indicators)
      ensures forall i :: 0 <= i < n ==> slides[i] == deck[i].active && images[i] == deck[i].image
      ensures indicators[..] == indicatorFlags
      ensures handle == None && liveTimers == {}
    {
      n := |deck|;
      slides := new bool[|deck|](i requires 0 <= i < |deck| => deck[i].active);
      images := seq(|deck|, i requires 0 <= i < |deck| => deck[i].image);
      indicators := new bool[|indicatorFlags|](i requires 0 <= i < |indicatorFlags| => indicatorFlags[i]);
      currentSlide := 0;
      handle := None;
      liveTimers := {};
      nextTimerId := 1;
    }

    /**
     * `initSlideshow`: mark the indicators and start auto-advance; then, on a
     * page with a `.slideshow-container`, preload.  Without the container the
     * touch listeners are attached to null, which throws before the preload.
     */
    method Init(hasContainer: bool) returns (eager: seq<nat>, next: seq<nat>)
      requires Valid()
      modifies this, indicators
      ensures Valid()
      ensures currentSlide == old(currentSlide)
      ensures ActiveExactlyAt(indicators[..], currentSlide)
      ensures handle == Some(old(nextTimerId)) && liveTimers == {old(nextTimerId)}
      ensures !hasContainer ==> eager == [] && next == []
      ensures hasContainer ==> (forall i :: i in eager <==> 0 <= i < n && images[i].Image?)
      ensures hasContainer ==> next == NextRequests()
    {
      UpdateIndicators();
      StartAutoSlide();
      if !hasContainer {
        return [], [];
      }
      eager, next := PreloadImages();
    }

    /** Slide i has an image that is not loaded yet. */
    predicate Unloaded(i: int)
      requires Valid() && 0 <= i < n
      reads this
    {
      images[i].Image? && !images[i].complete
    }

    /** The requests for the two slides after the current one whose images are not loaded. */
    function NextRequests(): (rs: seq<nat>)
      requires Valid()
      reads this
      ensures |rs| <= 2
      ensures forall k :: 0 <= k < |rs| ==> rs[k] < n && Unloaded(rs[k])
    {
      if n == 0 then []
      else
        var next1, next2 := (currentSlide + 1) % n, (currentSlide + 2) % n;
        (if Unloaded(next1) then [next1] else []) + (if Unloaded(next2) then [next2] else [])
    }

    /** The request `changeSlide` makes after a move: the slide after the current one, when its image is not loaded. */
    function NextPreload(): (o: Option<nat>)
      requires Valid() && n > 0
      reads this
      ensures o.Some? ==> o.value == (currentSlide + 1) % n && Unloaded(o.value)
      ensures o.None? ==> !Unloaded((currentSlide + 1) % n)
    {
      var next := (currentSlide + 1) % n;
      if Unloaded(next) then Some(next) else None
    }

    /**
     * `preloadImages`: one eager request per slide that has an image, in deck
     * order, then one for each of the two slides after the current one whose
     * image is not loaded.  On an empty deck the indices are NaN and nothing
     * is requested.
     */
    method PreloadImages() returns (eager: seq<nat>, next: seq<nat>)
      requires Valid()
      ensures forall i :: i in eager <==> 0 <= i < n && images[i].Image?
      ensures forall j, k :: 0 <= j < k < |eager| ==> eager[j] < eager[k]
      ensures next == NextRequests()
    {
      eager := [];
      for i := 0 to n
        invariant forall r :: r in eager <==> 0 <= r < i && images[r].Image?
        invariant forall j, k :: 0 <= j < k < |eager| ==> eager[j] < eager[k]
        invariant forall k :: 0 <= k < |eager| ==> eager[k] < i
      {
        if images[i].Image? {
          eager := eager + [i];
        }
      }
      next := [];
      if n == 0 {
        return;
      }
      var next1 := (currentSlide + 1) % n;
      var next2 := (currentSlide + 2) % n;
      if Unloaded(next1) {
        next := next + [next1];
      }
      if Unloaded(next2) {
        next := next + [next2];
      }
    }

    /** `updateIndicators`: exactly the indicator at the current index is active afterwards. */
    method UpdateIndicators()
      requires Valid()
      modifies indicators
      ensures ActiveExactlyAt(indicators[..], currentSlide)
    {
      for i := 0 to indicators.Length
        invariant forall j :: 0 <= j < i ==> indicators[j] == (j == currentSlide)
      {
        indicators[i] := i == currentSlide;
      }
    }

    /** `startAutoSlide`: clear the interval whose id is held, then create a new one. */
    method StartAutoSlide()
      requires Valid()
      modifies this
      ensures Valid()
      ensures currentSlide == old(currentSlide)
      ensures handle == Some(old(nextTimerId)) && liveTimers == {old(nextTimerId)}
      ensures nextTimerId == old(nextTimerId) + 1
    {
      liveTimers := liveTimers - Elements(handle);
      var id := nextTimerId;
      nextTimerId := id + 1;
      liveTimers := liveTimers + {id};
      handle := Some(id);
    }

    /** `pauseAutoSlide`: clear the interval whose id is held; the id stays in the variable. */
    method PauseAutoSlide()
      requires Valid()
      modifies this
      ensures Valid()
      ensures currentSlide == old(currentSlide) && nextTimerId == old(nextTimerId)
      ensures handle == old(handle) && liveTimers == {}
    {
      liveTimers := liveTimers - Elements(handle);
    }

    /** `resetAutoSlide`: pause, then start. */
    method ResetAutoSlide()
      requires Valid()
      modifies this
      ensures Valid()
      ensures currentSlide == old(currentSlide)
      ensures handle == Some(old(nextTimerId)) && liveTimers == {old(nextTimerId)}
      ensures nextTimerId == old(nextTimerId) + 1
    {
      PauseAutoSlide();
      StartAutoSlide();
    }

    /**
     * `changeSlide(direction)`: move the active slide to the wrapped new
     * index, re-mark the indicators, request the next slide's image when it
     * is not loaded (returned as `preload`) and restart auto-advance.  It
     * throws on an empty deck or when the current slide has no indicator.
     */
    method ChangeSlide(direction: int) returns (preload: Option<nat>)
      requires Valid()
      requires n > 0 && currentSlide < indicators.Length
      modifies this, slides, indicators
      ensures Valid()
      ensures currentSlide == Wrap(old(currentSlide), direction, n)
      ensures slides[..] == old(slides[..])[old(currentSlide) := false][currentSlide := true]
      ensures ActiveExactlyAt(indicators[..], currentSlide)
      ensures handle == Some(old(nextTimerId)) && liveTimers == {old(nextTimerId)}
      ensures preload == NextPreload()
      ensures ActiveExactlyAt(old(slides[..]), old(currentSlide)) ==> ActiveExactlyAt(slides[..], currentSlide)
    {
      slides[currentSlide] := false;
      indicators[currentSlide] := false;
      currentSlide := currentSlide + direction;
      if currentSlide < 0 {
        currentSlide := n - 1;
      } else if currentSlide >= n {
        currentSlide := 0;
      }
      slides[currentSlide] := true;
      UpdateIndicators();
      ResetAutoSlide();
      preload := NextPreload();
      if ActiveExactlyAt(old(slides[..]), old(currentSlide)) {
        MoveActive(old(slides[..]), old(currentSlide), currentSlide);
      }
    }

    /**
     * `goToSlide(index)`: changes state only for an index inside the deck that
     * is not the current one, and then throws when the current slide has no
     * indicator.  It makes no preload request.
     */
    method GoToSlide(index: int)
      requires Valid()
      requires 0 <= index < n && index != currentSlide ==> currentSlide < indicators.Length
      modifies this, slides, indicators
      ensures Valid()
      ensures (index < 0 || index >= n || index == old(currentSlide)) ==> unchanged(this, slides, indicators)
      ensures 0 <= index < n && index != old(currentSlide) ==>
                && currentSlide == index
                && slides[..] == old(slides[..])[old(currentSlide) := false][index := true]
                && ActiveExactlyAt(indicators[..], index)
                && handle == Some(old(nextTimerId)) && liveTimers == {old(nextTimerId)}
      ensures ActiveExactlyAt(old(slides[..]), old(currentSlide)) ==> ActiveExactlyAt(slides[..], currentSlide)
    {
      if 0 <= index < n && index != currentSlide {
        slides[currentSlide] := false;
        indicators[currentSlide] := false;
        currentSlide := index;
        slides[currentSlide] := true;
        UpdateIndicators();
        ResetAutoSlide();
        if ActiveExactlyAt(old(slides[..]), old(currentSlide)) {
          MoveActive(old(slides[..]), old(currentSlide), index);
        }
      }
    }

    /**
     * `handleKeyboard`: the arrows step back and forth and Space pauses then
     * advances, all three calling `preventDefault`; Escape only pauses and does
     * not call `preventDefault`; any other key changes nothing.
     */
    method HandleKeyboard(key: Key) returns (preventDefault: bool, preload: Option<nat>)
      requires Valid()
      requires Navigates(key) ==> n > 0 && currentSlide < indicators.Length
      modifies this, slides, indicators
      ensures Valid()
      ensures preventDefault <==> Navigates(key)
      ensures key.OtherKey? ==> unchanged(this, slides, indicators)
      ensures !Navigates(key) ==> preload == None
      ensures Navigates(key) ==>
                && currentSlide == Wrap(old(currentSlide), if key.ArrowLeft? then -1 else 1, n)
                && slides[..] == old(slides[..])[old(currentSlide) := false][currentSlide := true]
                && ActiveExactlyAt(indicators[..], currentSlide)
                && handle == Some(old(nextTimerId)) && liveTimers == {old(nextTimerId)}
                && preload == NextPreload()
      ensures key.Escape? ==>
                && currentSlide == old(currentSlide) && unchanged(slides, indicators)
                && handle == old(handle) && liveTimers == {}
      ensures ActiveExactlyAt(old(slides[..]), old(currentSlide)) ==> ActiveExactlyAt(slides[..], currentSlide)
    {
      preload := None;
      match key
      case ArrowLeft =>
        preventDefault := true;
        preload := ChangeSlide(-1);
      case ArrowRight =>
        preventDefault := true;
        preload := ChangeSlide(1);
      case Space =>
        preventDefault := true;
        PauseAutoSlide();
        preload := ChangeSlide(1);
      case Escape =>
        preventDefault := false;
        PauseAutoSlide();
      case OtherKey(_) =>
        preventDefault := false;
    }

    /** `handleSwipe`: the two threshold tests in turn, each calling `changeSlide` when it holds. */
    method HandleSwipe(startX: int, endX: int) returns (preload: Option<nat>)
      requires Valid()
      requires SwipeCalls(startX, endX) != [] ==> n > 0 && currentSlide < indicators.Length
      modifies this, slides, indicators
      ensures Valid()
      ensures SwipeCalls(startX, endX) == [] ==> unchanged(this, slides, indicators) && preload == None
      ensures SwipeCalls(startX, endX) != [] ==>
                && currentSlide == Wrap(old(currentSlide), SwipeCalls(startX, endX)[0], n)
                && slides[..] == old(slides[..])[old(currentSlide) := false][currentSlide := true]
                && ActiveExactlyAt(indicators[..], currentSlide)
                && handle == Some(old(nextTimerId)) && liveTimers == {old(nextTimerId)}
                && preload == NextPreload()
      ensures ActiveExactlyAt(old(slides[..]), old(currentSlide)) ==> ActiveExactlyAt(slides[..], currentSlide)
    {
      preload := None;
      if endX < startX - SwipeThreshold {
        preload := ChangeSlide(1);
      }
      if endX > startX + SwipeThreshold {
        preload := ChangeSlide(-1);
      }
    }

    /** The auto-advance interval firing: advance by one. */
    method AutoAdvance() returns (preload: Option<nat>)
      requires Valid()
      requires n > 0 && currentSlide < indicators.Length
      modifies this, slides, indicators
      ensures Valid()
      ensures currentSlide == Wrap(old(currentSlide), 1, n)
      ensures slides[..] == old(slides[..])[old(currentSlide) := false][currentSlide := true]
      ensures ActiveExactlyAt(indicators[..], currentSlide)
      ensures handle == Some(old(nextTimerId)) && liveTimers == {old(nextTimerId)}
      ensures preload == NextPreload()
      ensures ActiveExactlyAt(old(slides[..]), old(currentSlide)) ==> ActiveExactlyAt(slides[..], currentSlide)
    {
      preload := ChangeSlide(1);
    }
  }
}
