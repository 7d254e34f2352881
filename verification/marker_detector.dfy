/**
 The corner-marker detector of the answer-sheet reader: the approximated
 quadrilaterals among a region's sizeable contours, in discovery order.
 */
module MarkerDetector {
  import opened Sheet

  /** Contours of this area or less are ignored, in square pixels. */
  const MinMarkerArea: real := 100.0
  /** A registration mark approximates to a quadrilateral. */
  const Corners: nat := 4

  predicate IsMarker(c: MarkerContour) {
    c.area > MinMarkerArea && |c.approx| == Corners
  }

  /** The vertex lists of the qualifying contours, in discovery order. */
  function SelectMarkers(cs: seq<MarkerContour>): (ms: seq<Marker>)
    ensures |ms| <= |cs|
    ensures forall m | m in ms :: |m| == Corners
    decreases |cs|
  {
    if cs == [] then []
    else SelectMarkers(cs[..|cs| - 1]) + (if IsMarker(cs[|cs| - 1]) then [cs[|cs| - 1].approx] else [])
  }

  /** The positions of the qualifying contours, in increasing order. */
  function MarkerIndices(cs: seq<MarkerContour>): seq<nat>
    decreases |cs|
  {
    if cs == [] then []
    else MarkerIndices(cs[..|cs| - 1]) + (if IsMarker(cs[|cs| - 1]) then [|cs| - 1] else [])
  }

  /**
   `ms` holds the polygons of exactly the qualifying contours of `cs`, taken
   at the strictly increasing positions `idx`: no sorting, no deduplication,
   nothing dropped.
   */
  ghost predicate KeptInOrder(cs: seq<MarkerContour>, idx: seq<nat>, ms: seq<Marker>) {
    && |idx| == |ms|
    && (forall j :: 0 <= j < |idx| ==> idx[j] < |cs| && IsMarker(cs[idx[j]]) && cs[idx[j]].approx == ms[j])
    && (forall j, k :: 0 <= j < k < |idx| ==> idx[j] < idx[k])
    && (forall i :: 0 <= i < |cs| && IsMarker(cs[i]) ==> i in idx)
  }

  /** The positions are in range and strictly increasing. */
  lemma {:induction false} MarkerIndicesIncrease(cs: seq<MarkerContour>)
    ensures forall j :: 0 <= j < |MarkerIndices(cs)| ==> MarkerIndices(cs)[j] < |cs|
    ensures forall j, k :: 0 <= j < k < |MarkerIndices(cs)| ==> MarkerIndices(cs)[j] < MarkerIndices(cs)[k]
    decreases |cs|
  {
    if cs != [] {
      MarkerIndicesIncrease(cs[..|cs| - 1]);
    }
  }

  /** Every qualifying contour's position is listed. */
  lemma {:induction false} MarkerIndicesCover(cs: seq<MarkerContour>)
    ensures forall i :: 0 <= i < |cs| && IsMarker(cs[i]) ==> i in MarkerIndices(cs)
    decreases |cs|
  {
    if cs != [] {
      var pre := cs[..|cs| - 1];
      MarkerIndicesCover(pre);
      assert forall i :: 0 <= i < |pre| ==> pre[i] == cs[i];
    }
  }

  /** The j-th marker is the polygon of the contour at the j-th listed position, which qualifies. */
  lemma {:induction false} MarkerIndicesMatch(cs: seq<MarkerContour>)
    ensures |MarkerIndices(cs)| == |SelectMarkers(cs)|
    ensures forall j :: 0 <= j < |MarkerIndices(cs)| ==>
      MarkerIndices(cs)[j] < |cs| && IsMarker(cs[MarkerIndices(cs)[j]]) && cs[MarkerIndices(cs)[j]].approx == SelectMarkers(cs)[j]
    decreases |cs|
  {
    if cs != [] {
      var pre := cs[..|cs| - 1];
      MarkerIndicesMatch(pre);
      assert forall i :: 0 <= i < |pre| ==> pre[i] == cs[i];
    }
  }

  /** The markers are an in-order subsequence of the contours' polygons: those of exactly the contours over 100 square pixels with four vertices. */
  lemma {:induction false} SelectMarkersKeepsOrder(cs: seq<MarkerContour>)
    ensures KeptInOrder(cs, MarkerIndices(cs), SelectMarkers(cs))
  {
    MarkerIndicesIncrease(cs);
    MarkerIndicesCover(cs);
    MarkerIndicesMatch(cs);
  }

  /** Detection over one cropped region whose external contours are `contours`; an empty buffer gives no markers. */
  function DetectCornerMarkers(region: Region, contours: seq<MarkerContour>): (ms: seq<Marker>)
    ensures region.Size() == 0 ==> ms == []
    ensures forall m | m in ms :: |m| == Corners
    ensures |ms| <= |contours|
  {
    if region.Size() == 0 then [] else SelectMarkers(contours)
  }

  /** The contour loop of `detect_corner_markers`, statement by statement. */
  method FindSquares(contours: seq<MarkerContour>) returns (squares: seq<Marker>)
    ensures squares == SelectMarkers(contours)
  {
    squares := [];
    var i := 0;
    while i < |contours|
      invariant 0 <= i <= |contours|
      invariant squares == SelectMarkers(contours[..i])
    {
      assert contours[..i + 1][..i] == contours[..i];
      var c := contours[i];
      if c.area > MinMarkerArea {
        if |c.approx| == Corners {
          squares := squares + [c.approx];
        }
      }
      i := i + 1;
    }
    assert contours[..i] == contours;
  }
}
