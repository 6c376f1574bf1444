/**
 One pass of the polling loop in `main`, when the detection found badges:
 the positions are visited in their sorted order, each is clicked and
 answered, and after each click the region is checked again; the pass stops
 right after the first re-check that finds nothing. Clicking, replying, the
 sleeps and the re-detection itself are outside the model: the re-detection
 is an oracle telling, for the i-th click, whether the re-check came back
 empty.
 */
module Monitor {
  import opened Blobs

  /** `[(x, y) for x, y, area, circularity in current_red_circles]`. */
  function Positions(circles: seq<Blob>): (r: seq<Point>)
    ensures |r| == |circles|
    ensures forall i :: 0 <= i < |r| ==> r[i].x == circles[i].x && r[i].y == circles[i].y
    ensures SortedByY(circles) ==> forall i, j :: 0 <= i < j < |r| ==> r[i].y <= r[j].y
  {
    seq(|circles|, i requires 0 <= i < |circles| => Point(circles[i].x, circles[i].y))
  }

  /**
   One pass of the loop. `clicks` are the positions handed to
   `process_unread_message`, in order; `positions` is `red_circles_positions`
   at the end of the pass.
   */
  method PollPass(current: seq<Blob>, recheckEmpty: nat -> bool) returns (clicks: seq<Point>, positions: seq<Point>)
    ensures |clicks| <= |current|
    ensures clicks == Positions(current)[..|clicks|]
    ensures forall j :: 0 <= j < |clicks| - 1 ==> !recheckEmpty(j)
    ensures current != [] ==> |clicks| > 0 && (recheckEmpty(|clicks| - 1) || |clicks| == |current|)
    ensures current == [] ==> clicks == [] && positions == []
    ensures positions == [] <==> current == [] || exists j :: 0 <= j < |clicks| && recheckEmpty(j)
    ensures positions != [] ==> positions == Positions(current)
    ensures SortedByY(current) ==> forall i, j :: 0 <= i < j < |clicks| ==> clicks[i].y <= clicks[j].y
  {
    clicks := [];
    positions := [];
    if current != [] {
      positions := Positions(current);
      var visit := positions;
      var i := 0;
      while i < |visit|
        invariant 0 <= i <= |visit| && visit == Positions(current)
        invariant positions == visit
        invariant clicks == visit[..i]
        invariant forall j :: 0 <= j < i ==> !recheckEmpty(j)
      {
        clicks := clicks + [visit[i]];
        if recheckEmpty(i) {
          positions := [];
          break;
        }
        i := i + 1;
      }
    }
  }
}
