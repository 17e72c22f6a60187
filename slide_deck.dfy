/**
 * Index arithmetic and "active" bookkeeping shared by the two slideshow
 * controllers (esports-gallery.js and khelaiya-gallery.js).
 */
module SlideDeck {
  import opened Wrappers
  import opened Arith

  /** Threshold, in pixels, of horizontal travel that counts as a swipe. */
  const SwipeThreshold: int := 50

  /** Period of the auto-advance interval, in milliseconds. */
  const AutoSlideInterval: nat := 5000

  /** The `key` of a keydown event, as the two keyboard handlers tell keys apart. */
  datatype Key = ArrowLeft | ArrowRight | Space | Escape | OtherKey(name: string)

  /**
   * The index `changeSlide(direction)` moves to in a deck of n slides:
   * add the direction, then a result below 0 becomes the last slide and a
   * result at or beyond the end becomes the first one.
   */
  function Wrap(current: int, direction: int, n: nat): (next: int)
    requires n > 0
    ensures 0 <= next < n
    ensures 0 <= current + direction < n ==> next == current + direction
    ensures current + direction < 0 ==> next == n - 1
    ensures current + direction >= n ==> next == 0
  {
    var k := current + direction;
    if k < 0 then n - 1 else if k >= n then 0 else k
  }

  /** For a single step forwards or backwards the wrap-around is arithmetic modulo n. */
  lemma WrapIsModular(current: int, direction: int, n: nat)
    requires n > 0 && 0 <= current < n
    requires direction == 1 || direction == -1
    ensures Wrap(current, direction, n) == (current + direction) % n
  {
    if current + direction == n {
      assert (current + direction) % n == 0;
    } else if current + direction == -1 {
      assert (current + direction) % n == n - 1;
    } else {
      assert (current + direction) % n == current + direction;
    }
  }

  /** The index after k successive `changeSlide(direction)` calls starting at `start`. */
  function Repeat(start: int, direction: int, n: nat, k: nat): (i: int)
    requires n > 0
    decreases k
  {
    if k == 0 then start else Wrap(Repeat(start, direction, n, k - 1), direction, n)
  }

  /** k steps of +1 or -1 from a valid index land on (start + k * direction) mod n. */
  lemma {:induction false} RepeatIsModular(start: int, direction: int, n: nat, k: nat)
    requires n > 0 && 0 <= start < n
    requires direction == 1 || direction == -1
    ensures Repeat(start, direction, n, k) == (start + k * direction) % n
  {
    if k > 0 {
      RepeatIsModular(start, direction, n, k - 1);
      var prev := Repeat(start, direction, n, k - 1);
      WrapIsModular(prev, direction, n);
      ModAddStep(start + (k - 1) * direction, direction, n);
      if direction == 1 {
        assert (k - 1) * direction + direction == k * direction;
      } else {
        assert (k - 1) * direction + direction == k * direction;
      }
    }
  }

  /** Adding d to a residue or to the number it came from gives the same residue. */
  lemma ModAddStep(a: int, d: int, n: nat)
    requires n > 0
    ensures (a % n + d) % n == (a + d) % n
  {
    var b := a % n + d;
    assert a == (a / n) * n + a % n;
    assert b == (b / n) * n + b % n;
    assert a + d == (a / n + b / n) * n + b % n;
    DivModUnique(a + d, a / n + b / n, b % n, n);
  }

  /** Cycle closure: n calls of `changeSlide(+1)` (or of `changeSlide(-1)`) return to the start. */
  lemma CycleCloses(start: int, direction: int, n: nat)
    requires n > 0 && 0 <= start < n
    requires direction == 1 || direction == -1
    ensures Repeat(start, direction, n, n) == start
  {
    RepeatIsModular(start, direction, n, n);
    DivModUnique(start + n * direction, direction, start, n);
  }

  /** Exactly the flag at index k is set (k outside the range: no flag is set). */
  ghost predicate ActiveExactlyAt(flags: seq<bool>, k: int)
  {
    forall i :: 0 <= i < |flags| ==> flags[i] == (i == k)
  }

  /** Number of set flags. */
  function CountActive(flags: seq<bool>): (c: nat)
    ensures c <= |flags|
  {
    if flags == [] then 0 else CountActive(flags[..|flags| - 1]) + (if flags[|flags| - 1] then 1 else 0)
  }

  /** "Exactly one active" means: the active flag is set at one index and nowhere else. */
  lemma {:induction false} ExactlyOneActive(flags: seq<bool>)
    ensures CountActive(flags) == 1 <==> exists k :: 0 <= k < |flags| && ActiveExactlyAt(flags, k)
  {
    if flags != [] {
      var init := flags[..|flags| - 1];
      ExactlyOneActive(init);
      NoneActive(init);
      if CountActive(flags) == 1 {
        if flags[|flags| - 1] {
          assert ActiveExactlyAt(flags, |flags| - 1);
        } else {
          var k :| 0 <= k < |init| && ActiveExactlyAt(init, k);
          assert ActiveExactlyAt(flags, k);
        }
      }
      if k :| 0 <= k < |flags| && ActiveExactlyAt(flags, k) {
        if k == |flags| - 1 {
          assert ActiveExactlyAt(init, -1);
        } else {
          assert ActiveExactlyAt(init, k);
          assert !flags[|flags| - 1];
        }
      }
    }
  }

  /** No flag set means a count of zero. */
  lemma {:induction false} NoneActive(flags: seq<bool>)
    ensures CountActive(flags) == 0 <==> ActiveExactlyAt(flags, -1)
  {
    if flags != [] {
      NoneActive(flags[..|flags| - 1]);
    }
  }

  /**
   * Moving the active mark: clearing the flag of the old index and setting
   * the flag of the new one keeps exactly one flag set, at the new index.
   */
  lemma MoveActive(flags: seq<bool>, from: int, to: int)
    requires 0 <= from < |flags| && 0 <= to < |flags|
    requires ActiveExactlyAt(flags, from)
    ensures ActiveExactlyAt(flags[from := false][to := true], to)
    ensures CountActive(flags[from := false][to := true]) == 1
  {
    ExactlyOneActive(flags[from := false][to := true]);
  }

  /** A set of live interval ids that holds nothing but the id kept in the handle variable. */
  ghost predicate AtMostHandle(live: set<nat>, handle: Option<nat>)
  {
    live <= Elements(handle)
  }

  /** Hence at most one auto-advance interval is live. */
  lemma AtMostOneLive(live: set<nat>, handle: Option<nat>)
    requires AtMostHandle(live, handle)
    ensures |live| <= 1
  {
    if handle.Some? {
      assert live == {} || live == {handle.value};
    }
  }
}
