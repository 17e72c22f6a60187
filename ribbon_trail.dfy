/**
 * The ribbon trail of NUV_Yuva.js: a queue of recent pointer positions that
 * the canvas animation draws.  New points go to the back; `trimPoints` drops
 * points from the front while the oldest is older than the point lifetime or
 * there are more than the maximum number of points.  Timestamps
 * (`performance.now()`) are arguments; drawing on the canvas is not modelled,
 * only whether another animation frame is scheduled.
 */
module RibbonTrail {
  const MaxPoints: nat := 60
  /** Lifetime of a point, in milliseconds. */
  const PointLife: real := 600.0

  /** A pointer position relative to the section, with the time it was taken. */
  datatype Point = Point(x: real, y: real, time: real)

  /** Timestamps never decrease from the front of the trail to the back. */
  ghost predicate Chronological(points: seq<Point>)
  {
    forall i, j :: 0 <= i < j < |points| ==> points[i].time <= points[j].time
  }

  /** No point of the trail is older than the lifetime at time now. */
  ghost predicate AllFresh(points: seq<Point>, now: real)
  {
    forall i :: 0 <= i < |points| ==> now - points[i].time <= PointLife
  }

  /**
   * The trail `trimPoints` leaves at time now: a suffix of the trail of at
   * most MaxPoints points whose oldest point is within the lifetime, and each
   * point it drops was, when its turn came, too old or one too many.
   */
  function Trimmed(points: seq<Point>, now: real): (r: seq<Point>)
    ensures |r| <= |points| && r == points[|points| - |r|..]
    ensures |r| <= MaxPoints
    ensures r != [] ==> now - r[0].time <= PointLife
    ensures forall j :: 0 <= j < |points| - |r| ==> now - points[j].time > PointLife || |points| - j > MaxPoints
    decreases |points|
  {
    if |points| > 0 && (now - points[0].time > PointLife || |points| > MaxPoints) then
      Trimmed(points[1..], now)
    else
      points
  }

  /** On a chronological trail the front test suffices: every point left is fresh. */
  lemma TrimmedChronologicalIsFresh(points: seq<Point>, now: real)
    requires Chronological(points)
    ensures Chronological(Trimmed(points, now))
    ensures AllFresh(Trimmed(points, now), now)
  {
    var r := Trimmed(points, now);
    SuffixChronological(points, |points| - |r|);
    FrontFresh(r, now);
  }

  lemma SuffixChronological(points: seq<Point>, k: nat)
    requires Chronological(points) && k <= |points|
    ensures Chronological(points[k..])
  {
    var r := points[k..];
    forall i, j | 0 <= i < j < |r|
      ensures r[i].time <= r[j].time
    {
      assert r[i] == points[k + i] && r[j] == points[k + j];
    }
  }

  lemma FrontFresh(r: seq<Point>, now: real)
    requires Chronological(r) && (r != [] ==> now - r[0].time <= PointLife)
    ensures AllFresh(r, now)
  {
    forall i | 0 <= i < |r|
      ensures now - r[i].time <= PointLife
    {
      if i > 0 {
        assert r[0].time <= r[i].time;
      }
    }
  }

  /** A point no older than the last one keeps the trail chronological. */
  lemma AppendChronological(points: seq<Point>, p: Point)
    requires Chronological(points)
    requires points == [] || points[|points| - 1].time <= p.time
    ensures Chronological(points + [p])
  {
    var q := points + [p];
    forall i, j | 0 <= i < j < |q|
      ensures q[i].time <= q[j].time
    {
      if j == |points| && i < |points| {
        assert points[i].time <= points[|points| - 1].time;
      }
    }
  }

  /** Trimming twice at the same time drops nothing more. */
  lemma TrimIdempotent(points: seq<Point>, now: real)
    ensures Trimmed(Trimmed(points, now), now) == Trimmed(points, now)
  {
  }

  /** A trail that is short enough and fresh is left as it is. */
  lemma TrimKeepsFresh(points: seq<Point>, now: real)
    requires |points| <= MaxPoints && AllFresh(points, now)
    ensures Trimmed(points, now) == points
  {
  }

  class Trail {
    /** `points`. */
    var points: seq<Point>
    /** `pointerActive`. */
    var pointerActive: bool
    /** An animation frame is requested (`rafId` is set). */
    var drawScheduled: bool

    ghost predicate Valid()
      reads this
    {
      |points| <= MaxPoints
    }

    constructor ()
      ensures Valid() && points == [] && !pointerActive && !drawScheduled
    {
      points := [];
      pointerActive := false;
      drawScheduled := false;
    }

    /** `scheduleDraw`: request an animation frame unless one is requested. */
    method ScheduleDraw()
      modifies this
      ensures drawScheduled
      ensures points == old(points) && pointerActive == old(pointerActive)
    {
      if !drawScheduled {
        drawScheduled := true;
      }
    }

    /** `resetTrail`: the trail restarts from this one point and the pointer is active. */
    method ResetTrail(p: Point)
      modifies this
      ensures Valid()
      ensures points == [p] && pointerActive && drawScheduled
    {
      points := [p];
      pointerActive := true;
      ScheduleDraw();
    }

    /**
     * `addPoint`: with the pointer inactive the trail restarts from p;
     * otherwise p joins the back and the trail is trimmed at time now.
     */
    method AddPoint(p: Point, now: real)
      requires Valid()
      modifies this
      ensures Valid() && pointerActive && drawScheduled
      ensures !old(pointerActive) ==> points == [p]
      ensures old(pointerActive) ==> points == Trimmed(old(points) + [p], now)
      ensures && old(pointerActive) && Chronological(old(points))
              && (old(points) == [] || old(points)[|old(points)| - 1].time <= p.time)
              ==> Chronological(points) && AllFresh(points, now)
    {
      if !pointerActive {
        ResetTrail(p);
        return;
      }
      points := points + [p];
      TrimPoints(now);
      ScheduleDraw();
      if Chronological(old(points)) && (old(points) == [] || old(points)[|old(points)| - 1].time <= p.time) {
        AppendChronological(old(points), p);
        TrimmedChronologicalIsFresh(old(points) + [p], now);
      }
    }

    /** `trimPoints`: drop points from the front while the oldest is stale or there are too many. */
    method TrimPoints(now: real)
      modifies this
      ensures Valid()
      ensures points == Trimmed(old(points), now)
      ensures pointerActive == old(pointerActive) && drawScheduled == old(drawScheduled)
    {
      while |points| > 0 && (now - points[0].time > PointLife || |points| > MaxPoints)
        invariant Trimmed(points, now) == Trimmed(old(points), now)
        invariant pointerActive == old(pointerActive) && drawScheduled == old(drawScheduled)
        decreases |points|
      {
        points := points[1..];
      }
    }

    /** `stopTrail`: the pointer left; a frame is requested so the trail can fade out. */
    method StopTrail()
      modifies this
      ensures !pointerActive && drawScheduled && points == old(points)
    {
      pointerActive := false;
      ScheduleDraw();
    }

    /**
     * `draw` as the animation frame runs it (canvas output left out): trim at
     * time now, then request the next frame exactly while the pointer is
     * active or points are left, so the loop stops once the trail has drained.
     */
    method Draw(now: real)
      modifies this
      ensures Valid()
      ensures points == Trimmed(old(points), now) && pointerActive == old(pointerActive)
      ensures drawScheduled <==> pointerActive || points != []
    {
      drawScheduled := false;
      TrimPoints(now);
      if |points| < 2 {
        if (pointerActive || |points| > 0) && !drawScheduled {
          ScheduleDraw();
        }
        return;
      }
      if pointerActive || |points| > 0 {
        ScheduleDraw();
      }
    }
  }
}
