/**
 The bubble detector of the answer-sheet reader: the accepted contours of a
 region, in reading order (left column top to bottom, then right column top
 to bottom).
 */
module BubbleDetector {
  import opened Sheet
  import opened Candidates
  import opened ColumnOrder

  /**
   Detection over one cropped region whose external contours are `contours`.
   An empty buffer gives no bubbles without looking at any contour; so does
   a pass that accepts nothing. The column split uses the buffer's width.
   */
  function DetectBubbles(region: Region, contours: seq<BubbleContour>): (res: Result<seq<Bubble>>)
    ensures region.Size() == 0 ==> res == Ok([])
    ensures Collect(contours) == Ok([]) ==> res == Ok([])
    ensures res.Ok? ==> |res.value| <= |contours|
    ensures region.Size() > 0 && res.Ok? ==> |res.value| == |AcceptedIndices(contours)|
  {
    if region.Size() == 0 then Ok([])
    else
      match Collect(contours)
      case Err(e) => Err(e)
      case Ok(found) =>
        AcceptedIndicesMatch(contours);
        if found == [] then Ok([])
        else
          Ok(OrderColumns(found, region.cols))
  }

  /**
   On a non-empty region whose contours raise nothing, the detector answers,
   and its answer is the candidates in reading order.
   */
  lemma {:induction false} DetectBubblesInReadingOrder(region: Region, contours: seq<BubbleContour>)
    requires region.Size() > 0
    requires Collect(contours).Ok?
    ensures DetectBubbles(region, contours).Ok?
    ensures CanonicalOrder(Collect(contours).value, region.cols, DetectBubbles(region, contours).value)
  {
    var found := Collect(contours).value;
    assert OrderColumns([], region.cols) == [];
    OrderColumnsMeetsCanonical(found, region.cols);
  }

  /** Any sequence in reading order is the detector's answer: there is no other. */
  lemma {:induction false} OnlyReadingOrder(region: Region, contours: seq<BubbleContour>, r: seq<Bubble>)
    requires region.Size() > 0
    requires Collect(contours).Ok?
    requires CanonicalOrder(Collect(contours).value, region.cols, r)
    ensures DetectBubbles(region, contours) == Ok(r)
  {
    var found := Collect(contours).value;
    assert OrderColumns([], region.cols) == [];
    CanonicalIsOrderColumns(found, region.cols, r);
  }

  /**
   On a non-empty region the detector fails exactly when some candidate's
   bounding box has zero height, and it names the first such contour.
   */
  lemma {:induction false} DetectBubblesFailsOnZeroHeight(region: Region, contours: seq<BubbleContour>)
    requires region.Size() > 0
    ensures DetectBubbles(region, contours).Err? <==> exists i :: DividesAt(contours, i)
    ensures DetectBubbles(region, contours).Err? ==>
      var i := DetectBubbles(region, contours).error.contour;
      DividesAt(contours, i) && forall j :: 0 <= j < i ==> !DividesAt(contours, j)
  {
    CollectFailsAtFirstZeroDivision(contours);
  }

  /**
   Every bubble the detector returns is the truncated enclosing circle of an
   accepted contour, with a radius in 8..39.
   */
  lemma {:induction false} DetectBubblesReportsAcceptedContours(region: Region, contours: seq<BubbleContour>)
    requires DetectBubbles(region, contours).Ok?
    ensures var r := DetectBubbles(region, contours).value;
      forall j :: 0 <= j < |r| ==> exists i :: 0 <= i < |contours| && Classify(contours[i]) == Accepted(r[j])
    ensures var r := DetectBubbles(region, contours).value;
      forall j :: 0 <= j < |r| ==> 8 <= r[j].r <= 39
  {
    if region.Size() == 0 {
      return;
    }
    var found := Collect(contours).value;
    var r := DetectBubbles(region, contours).value;
    assert r == OrderColumns(found, region.cols);
    forall j | 0 <= j < |r|
      ensures exists i :: 0 <= i < |contours| && Classify(contours[i]) == Accepted(r[j])
      ensures 8 <= r[j].r <= 39
    {
      OrderColumnsMembers(found, region.cols, r[j]);
      CandidatesComeFromContours(contours, r[j]);
    }
  }
}
