/**
 The contour gate, centroid mapping and ordering of `detect_red_circles`, and
 the duplicate gate of `debug_red_detection`. OpenCV's per-contour
 measurements (`contourArea`, `arcLength`, `moments`) are inputs, one `Measure`
 per contour in the order `findContours` discovers them.
 */
module ContourFilter {
  import opened Wrappers
  import opened Blobs

  /** The measurements OpenCV supplies for one contour. */
  datatype Measure = Measure(area: real, perimeter: real, m00: real, m10: real, m01: real)

  /** A screen rectangle `(x, y, width, height)`; only its origin enters the detector's arithmetic. */
  datatype Region = Region(x: int, y: int, width: int, height: int)

  /** The watched region of the screen. */
  const DetectionArea: Region := Region(2159, 886, 395, 1193)

  /** `np.pi` as a real. */
  const Pi: real := 3.141592653589793

  const MinArea: real := 8.0
  const MinCircularity: real := 0.7

  /** `n` is `x` truncated toward zero, as Python's `int()` does to a float. */
  predicate TruncOf(x: real, n: int) {
    && (0.0 <= x ==> n as real <= x < n as real + 1.0)
    && (x < 0.0 ==> n as real - 1.0 < x <= n as real)
  }

  /** Python's `int(x)` on a float. */
  function Trunc(x: real): (n: int)
    ensures TruncOf(x, n)
  {
    if 0.0 <= x then x.Floor else -((-x).Floor)
  }

  /** A real has exactly one truncation toward zero. */
  lemma TruncOfIsUnique(x: real, n: int, n': int)
    requires TruncOf(x, n) && TruncOf(x, n')
    ensures n == n'
  {
  }

  /** Truncation toward zero is symmetric about zero, and on a negative non-integer it is one above floor. */
  lemma TruncIsOdd(x: real)
    ensures Trunc(-x) == -Trunc(x)
    ensures x < 0.0 && x.Floor as real != x ==> Trunc(x) == x.Floor + 1
  {
  }

  /** `4 * np.pi * area / (perimeter * perimeter)`. */
  function Circularity(m: Measure): real
    requires m.perimeter != 0.0
  {
    4.0 * Pi * m.area / (m.perimeter * m.perimeter)
  }

  /** The four gates of the main path, all of which a contour must pass. */
  predicate Passes(m: Measure) {
    && m.area > MinArea
    && m.perimeter != 0.0
    && Circularity(m) > MinCircularity
    && m.m00 != 0.0
  }

  /** The entry a contour contributes: the truncated centroid moved to screen coordinates. */
  function Entry(region: Region, m: Measure): (b: Blob)
    requires m.perimeter != 0.0 && m.m00 != 0.0
    ensures b.area == m.area && b.circularity == Circularity(m)
    ensures TruncOf(m.m10 / m.m00, b.x - region.x)
    ensures TruncOf(m.m01 / m.m00, b.y - region.y)
  {
    Blob(region.x + Trunc(m.m10 / m.m00), region.y + Trunc(m.m01 / m.m00), m.area, Circularity(m))
  }

  /** One iteration of the detection loop, with its nested early exits. */
  function Examine(region: Region, m: Measure): (r: Option<Blob>)
    ensures r.Some? <==> Passes(m)
    ensures r.Some? ==> r.value == Entry(region, m)
  {
    if m.area > MinArea then
      if m.perimeter == 0.0 then None
      else
        var circularity := 4.0 * Pi * m.area / (m.perimeter * m.perimeter);
        if circularity > MinCircularity then
          if m.m00 != 0.0 then
            var cx := Trunc(m.m10 / m.m00);
            var cy := Trunc(m.m01 / m.m00);
            Some(Blob(region.x + cx, region.y + cy, m.area, circularity))
          else None
        else None
    else None
  }

  /** The list `red_circles` after the loop over the first `|ms|` contours, before sorting. */
  function Collect(region: Region, ms: seq<Measure>): (r: seq<Blob>)
    ensures |r| <= |ms|
    ensures forall b :: b in r <==> exists i :: 0 <= i < |ms| && Passes(ms[i]) && b == Entry(region, ms[i])
    decreases |ms|
  {
    if ms == [] then []
    else
      var init := ms[..|ms| - 1];
      assert forall i :: 0 <= i < |init| ==> init[i] == ms[i];
      match Examine(region, ms[|ms| - 1])
      case None => Collect(region, init)
      case Some(b) => Collect(region, init) + [b]
  }

  /** Indices of the contours that pass every gate, in discovery order. */
  function Selected(ms: seq<Measure>): seq<nat>
    decreases |ms|
  {
    if ms == [] then []
    else Selected(ms[..|ms| - 1]) + (if Passes(ms[|ms| - 1]) then [|ms| - 1] else [])
  }

  /**
   The unsorted list holds exactly one entry per passing contour, in the order
   the contours were discovered.
   */
  lemma {:induction false} CollectKeepsDiscoveryOrder(region: Region, ms: seq<Measure>)
    ensures |Collect(region, ms)| == |Selected(ms)|
    ensures forall k :: 0 <= k < |Selected(ms)| ==>
              Selected(ms)[k] < |ms| && Passes(ms[Selected(ms)[k]])
              && Collect(region, ms)[k] == Entry(region, ms[Selected(ms)[k]])
    ensures forall k, l :: 0 <= k < l < |Selected(ms)| ==> Selected(ms)[k] < Selected(ms)[l]
    ensures forall i :: 0 <= i < |ms| ==> (Passes(ms[i]) <==> i in Selected(ms))
    decreases |ms|
  {
    if ms != [] {
      var init := ms[..|ms| - 1];
      CollectKeepsDiscoveryOrder(region, init);
      assert forall i :: 0 <= i < |init| ==> init[i] == ms[i];
    }
  }

  /**
   `detect_red_circles` after the measurements are taken: the loop that gates
   each contour and appends its entry, followed by the sort by screen y. The
   script always passes `DetectionArea` as `region`.
   */
  method DetectRedCircles(region: Region, ms: seq<Measure>) returns (r: seq<Blob>)
    ensures SortedByY(r)
    ensures SameTies(r, Collect(region, ms))
    ensures multiset(r) == multiset(Collect(region, ms))
    ensures |r| <= |ms|
    ensures forall b :: b in r <==> exists i :: 0 <= i < |ms| && Passes(ms[i]) && b == Entry(region, ms[i])
    ensures r == [] <==> forall i :: 0 <= i < |ms| ==> !Passes(ms[i])
  {
    var found: seq<Blob> := [];
    var i := 0;
    while i < |ms|
      invariant 0 <= i <= |ms|
      invariant found == Collect(region, ms[..i])
    {
      CollectStep(region, ms, i);
      var e := Examine(region, ms[i]);
      if e.Some? {
        found := found + [e.value];
      }
      i := i + 1;
    }
    assert ms[..|ms|] == ms;
    r := SortByY(found);
    SortByYIsStable(found);
    EmptyIffNonePass(region, ms);
    forall b ensures b in r <==> b in found {
      assert b in r <==> b in multiset(r);
      assert b in found <==> b in multiset(found);
    }
  }

  /** Collecting one more contour appends at most its own entry. */
  lemma CollectStep(region: Region, ms: seq<Measure>, i: int)
    requires 0 <= i < |ms|
    ensures Collect(region, ms[..i + 1]) ==
              Collect(region, ms[..i]) + (match Examine(region, ms[i]) case None => [] case Some(b) => [b])
  {
    assert ms[..i + 1][..i] == ms[..i];
  }

  /** No entry at all exactly when no contour passes every gate. */
  lemma EmptyIffNonePass(region: Region, ms: seq<Measure>)
    ensures Collect(region, ms) == [] <==> forall i :: 0 <= i < |ms| ==> !Passes(ms[i])
  {
    forall i | 0 <= i < |ms| && Passes(ms[i]) ensures Collect(region, ms) != [] {
      assert Entry(region, ms[i]) in Collect(region, ms);
    }
  }

  /** The gate of `debug_red_detection`, which tests `perimeter > 0` instead of skipping `perimeter == 0`. */
  function DebugPasses(m: Measure): (ok: bool)
    ensures ok ==> m.area > MinArea && m.perimeter > 0.0 && m.m00 != 0.0
  {
    if m.area > MinArea then
      if m.perimeter > 0.0 then
        var circularity := 4.0 * Pi * m.area / (m.perimeter * m.perimeter);
        circularity > MinCircularity && m.m00 != 0.0
      else false
    else false
  }

  /** For the non-negative perimeters `arcLength` returns, both paths accept the same contours. */
  lemma DebugGateAgrees(m: Measure)
    requires m.perimeter >= 0.0
    ensures DebugPasses(m) <==> Passes(m)
  {
  }

  /** Without a non-negative perimeter the two gates differ. */
  lemma DebugGateDiffersOnNegativePerimeter()
    ensures var m := Measure(9.0, -1.0, 1.0, 0.0, 0.0); Passes(m) && !DebugPasses(m)
  {
  }

  /** The local centres (`cx`, `cy`) the debug routine draws, in discovery order. */
  function DebugCentres(ms: seq<Measure>): (r: seq<Point>)
    ensures |r| <= |ms|
    ensures (forall i :: 0 <= i < |ms| ==> !DebugPasses(ms[i])) ==> r == []
    decreases |ms|
  {
    if ms == [] then []
    else
      var m := ms[|ms| - 1];
      DebugCentres(ms[..|ms| - 1])
        + (if DebugPasses(m) then [Point(Trunc(m.m10 / m.m00), Trunc(m.m01 / m.m00))] else [])
  }

  /**
   The debug routine marks exactly the contours the detector reports: moving
   each drawn centre by the region origin gives the detector's unsorted list.
   */
  lemma {:induction false} DebugMatchesDetection(region: Region, ms: seq<Measure>)
    requires forall i :: 0 <= i < |ms| ==> ms[i].perimeter >= 0.0
    ensures |DebugCentres(ms)| == |Collect(region, ms)|
    ensures forall k :: 0 <= k < |DebugCentres(ms)| ==>
              Collect(region, ms)[k].x == region.x + DebugCentres(ms)[k].x
              && Collect(region, ms)[k].y == region.y + DebugCentres(ms)[k].y
    decreases |ms|
  {
    if ms != [] {
      var init := ms[..|ms| - 1];
      DebugMatchesDetection(region, init);
      DebugGateAgrees(ms[|ms| - 1]);
    }
  }
}
