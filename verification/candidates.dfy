/**
 The bubble detector's per-contour filter: which contours become bubble
 candidates, and the integer triple each accepted contour becomes.
 */
module Candidates {
  import opened Sheet

  /** Noise floor on the contour area, in square pixels. */
  const MinArea: real := 60.0
  /** Exclusive band on the circularity `4 pi area / perimeter^2`. */
  const MinCircularity: real := 0.4
  const MaxCircularity: real := 1.6
  /** Exclusive band on the bounding box's width-to-height ratio. */
  const MinAspect: real := 0.7
  const MaxAspect: real := 1.3
  /** Exclusive band on the enclosing circle's radius, in pixels. */
  const MinRadius: real := 8.0
  const MaxRadius: real := 40.0

  /** A contour below the noise floor, or with no perimeter, is skipped before anything is divided. */
  predicate IsNoise(c: BubbleContour) {
    c.area < MinArea || c.perimeter == 0.0
  }

  function Circularity(c: BubbleContour): real
    requires c.perimeter != 0.0
  {
    4.0 * Pi * c.area / (c.perimeter * c.perimeter)
  }

  function AspectRatio(c: BubbleContour): real
    requires c.boxHeight != 0
  {
    c.boxWidth as real / c.boxHeight as real
  }

  /** What the loop body does with one contour: skip it, append a bubble, or raise on a zero box height. */
  datatype Verdict = Rejected | Accepted(bubble: Bubble) | DividesByZero

  function Classify(c: BubbleContour): (v: Verdict)
    ensures v.Accepted? ==> 8 <= v.bubble.r <= 39
  {
    if IsNoise(c) then Rejected
    else if c.boxHeight == 0 then DividesByZero
    else if !(MinCircularity < Circularity(c) < MaxCircularity && MinAspect < AspectRatio(c) < MaxAspect) then Rejected
    else if !(MinRadius < c.radius < MaxRadius) then Rejected
    else Accepted(Bubble(Trunc(c.centerX), Trunc(c.centerY), Trunc(c.radius)))
  }

  /**
   The four shape tests taken together, with the aspect-ratio band
   multiplied out by the (positive) box height so that it needs no division.
   */
  predicate LooksLikeBubble(c: BubbleContour) {
    && c.area >= MinArea
    && c.perimeter != 0.0
    && c.boxHeight > 0
    && MinCircularity < Circularity(c) < MaxCircularity
    && MinAspect * c.boxHeight as real < c.boxWidth as real < MaxAspect * c.boxHeight as real
    && MinRadius < c.radius < MaxRadius
  }

  lemma {:induction false} QuotientBounds(x: real, q: real, lo: real, hi: real)
    requires q > 0.0
    ensures lo < x / q <==> lo * q < x
    ensures x / q < hi <==> x < hi * q
  {
    assert x == (x / q) * q;
  }

  lemma {:induction false} AspectBand(c: BubbleContour)
    requires c.boxHeight != 0
    ensures MinAspect < AspectRatio(c) < MaxAspect <==>
      MinAspect * c.boxHeight as real < c.boxWidth as real < MaxAspect * c.boxHeight as real
  {
    QuotientBounds(c.boxWidth as real, c.boxHeight as real, MinAspect, MaxAspect);
  }

  /** A contour becomes a bubble exactly when it passes all four tests, and the bubble is its truncated enclosing circle. */
  lemma {:induction false} ClassifyAcceptsExactly(c: BubbleContour)
    ensures Classify(c).Accepted? <==> LooksLikeBubble(c)
    ensures Classify(c).Accepted? ==>
      Classify(c).bubble == Bubble(Trunc(c.centerX), Trunc(c.centerY), Trunc(c.radius))
    ensures Classify(c) == DividesByZero <==> !IsNoise(c) && c.boxHeight == 0
  {
    if !IsNoise(c) && c.boxHeight != 0 {
      AspectBand(c);
    }
  }

  /**
   The candidate list built by the loop over the contours, in discovery
   order; the first contour whose aspect ratio divides by zero ends the
   loop with an error.
   */
  function Collect(cs: seq<BubbleContour>): (res: Result<seq<Bubble>>)
    ensures res.Ok? ==> |res.value| <= |cs|
    ensures res.Ok? ==> forall b | b in res.value :: 8 <= b.r <= 39
    decreases |cs|
  {
    if cs == [] then Ok([])
    else
      match Collect(cs[..|cs| - 1])
      case Err(e) => Err(e)
      case Ok(found) =>
        match Classify(cs[|cs| - 1])
        case Rejected => Ok(found)
        case Accepted(b) => Ok(found + [b])
        case DividesByZero => Err(ZeroDivision(|cs| - 1))
  }

  /** The positions of the accepted contours, in increasing order. */
  function AcceptedIndices(cs: seq<BubbleContour>): (idx: seq<nat>)
    decreases |cs|
  {
    if cs == [] then []
    else AcceptedIndices(cs[..|cs| - 1]) + (if Classify(cs[|cs| - 1]).Accepted? then [|cs| - 1] else [])
  }

  /**
   `bs` is the list of the bubbles of exactly the accepted contours of `cs`,
   taken at the strictly increasing positions `idx`: nothing reordered,
   dropped or repeated.
   */
  ghost predicate SelectedInOrder(cs: seq<BubbleContour>, idx: seq<nat>, bs: seq<Bubble>) {
    && |idx| == |bs|
    && (forall j :: 0 <= j < |idx| ==> idx[j] < |cs| && Classify(cs[idx[j]]) == Accepted(bs[j]))
    && (forall j, k :: 0 <= j < k < |idx| ==> idx[j] < idx[k])
    && (forall i :: 0 <= i < |cs| && Classify(cs[i]).Accepted? ==> i in idx)
  }

  /** The positions are in range and strictly increasing. */
  lemma {:induction false} AcceptedIndicesIncrease(cs: seq<BubbleContour>)
    ensures forall j :: 0 <= j < |AcceptedIndices(cs)| ==> AcceptedIndices(cs)[j] < |cs|
    ensures forall j, k :: 0 <= j < k < |AcceptedIndices(cs)| ==> AcceptedIndices(cs)[j] < AcceptedIndices(cs)[k]
    decreases |cs|
  {
    if cs != [] {
      AcceptedIndicesIncrease(cs[..|cs| - 1]);
    }
  }

  /** Every accepted contour's position is listed. */
  lemma {:induction false} AcceptedIndicesCover(cs: seq<BubbleContour>)
    ensures forall i :: 0 <= i < |cs| && Classify(cs[i]).Accepted? ==> i in AcceptedIndices(cs)
    decreases |cs|
  {
    if cs != [] {
      var pre := cs[..|cs| - 1];
      AcceptedIndicesCover(pre);
      assert forall i :: 0 <= i < |pre| ==> pre[i] == cs[i];
    }
  }

  /** On success the j-th candidate is the bubble of the contour at the j-th listed position. */
  lemma {:induction false} AcceptedIndicesMatch(cs: seq<BubbleContour>)
    requires Collect(cs).Ok?
    ensures |AcceptedIndices(cs)| == |Collect(cs).value|
    ensures forall j :: 0 <= j < |AcceptedIndices(cs)| ==>
      AcceptedIndices(cs)[j] < |cs| && Classify(cs[AcceptedIndices(cs)[j]]) == Accepted(Collect(cs).value[j])
    decreases |cs|
  {
    if cs != [] {
      var pre := cs[..|cs| - 1];
      AcceptedIndicesMatch(pre);
      assert forall i :: 0 <= i < |pre| ==> pre[i] == cs[i];
    }
  }

  /** A successful pass yields the bubbles of the accepted contours, in discovery order. */
  lemma {:induction false} CollectSelectsInOrder(cs: seq<BubbleContour>)
    requires Collect(cs).Ok?
    ensures SelectedInOrder(cs, AcceptedIndices(cs), Collect(cs).value)
  {
    AcceptedIndicesIncrease(cs);
    AcceptedIndicesCover(cs);
    AcceptedIndicesMatch(cs);
  }

  /** Every candidate of a successful pass is the bubble of some accepted contour. */
  lemma {:induction false} CandidatesComeFromContours(cs: seq<BubbleContour>, b: Bubble)
    requires Collect(cs).Ok? && b in Collect(cs).value
    ensures exists i :: 0 <= i < |cs| && Classify(cs[i]) == Accepted(b)
  {
    AcceptedIndicesMatch(cs);
    var found := Collect(cs).value;
    var j :| 0 <= j < |found| && found[j] == b;
    assert Classify(cs[AcceptedIndices(cs)[j]]) == Accepted(b);
  }

  predicate DividesAt(cs: seq<BubbleContour>, i: int) {
    0 <= i < |cs| && Classify(cs[i]).DividesByZero?
  }

  /** The pass fails exactly when some contour divides by zero, and it reports the first such contour. */
  lemma {:induction false} CollectFailsAtFirstZeroDivision(cs: seq<BubbleContour>)
    ensures Collect(cs).Err? <==> exists i :: DividesAt(cs, i)
    ensures Collect(cs).Err? ==>
      DividesAt(cs, Collect(cs).error.contour) &&
      forall j :: 0 <= j < Collect(cs).error.contour ==> !DividesAt(cs, j)
    decreases |cs|
  {
    if cs != [] {
      var pre := cs[..|cs| - 1];
      var last := |cs| - 1;
      CollectFailsAtFirstZeroDivision(pre);
      assert forall i :: 0 <= i < |pre| ==> pre[i] == cs[i];
      assert forall i :: 0 <= i < last ==> (DividesAt(pre, i) <==> DividesAt(cs, i));
      if Collect(pre).Ok? {
        assert forall i :: 0 <= i < last ==> !DividesAt(cs, i);
        assert Collect(cs).Err? <==> DividesAt(cs, last);
      }
    }
  }

  /** Once a prefix has failed, the pass over the whole list fails with the same error. */
  lemma {:induction false} CollectErrPersists(cs: seq<BubbleContour>, n: nat)
    requires n <= |cs|
    requires Collect(cs[..n]).Err?
    ensures Collect(cs) == Collect(cs[..n])
    decreases |cs| - n
  {
    if n < |cs| {
      assert cs[..n + 1][..n] == cs[..n];
      CollectErrPersists(cs, n + 1);
    } else {
      assert cs[..n] == cs;
    }
  }

  /** The candidate loop of `detect_bubbles`, statement by statement. */
  method CollectCandidates(cs: seq<BubbleContour>) returns (res: Result<seq<Bubble>>)
    ensures res == Collect(cs)
  {
    var found: seq<Bubble> := [];
    var i := 0;
    while i < |cs|
      invariant 0 <= i <= |cs|
      invariant Collect(cs[..i]) == Ok(found)
    {
      assert cs[..i + 1][..i] == cs[..i];
      match Classify(cs[i]) {
        case Rejected =>
        case Accepted(b) =>
          found := found + [b];
        case DividesByZero =>
          CollectErrPersists(cs, i + 1);
          return Err(ZeroDivision(i));
      }
      i := i + 1;
    }
    assert cs[..i] == cs;
    return Ok(found);
  }

  /** When every bounding box has a positive height, as OpenCV's bounding rectangles always do, the pass cannot fail. */
  lemma {:induction false} NoFailureWithPositiveBoxes(cs: seq<BubbleContour>)
    requires forall i :: 0 <= i < |cs| ==> cs[i].boxHeight > 0
    ensures Collect(cs).Ok?
  {
    CollectFailsAtFirstZeroDivision(cs);
  }
}
