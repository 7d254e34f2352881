/**
 The data model shared by the two detectors of the answer-sheet reader.

 The image pipeline (grey conversion, blurring, thresholding, morphology and
 contour extraction) and the contour-geometry primitives are not modelled:
 each contour reaches the detectors as a record of the measurements those
 primitives would have produced for it.
 */
module Sheet {

  /** An integer pixel position, as produced by polygon approximation. */
  datatype Point = Point(x: int, y: int)

  /** One detected answer bubble `[cx, cy, r]`, in the crop's own coordinates. */
  datatype Bubble = Bubble(cx: int, cy: int, r: int)

  /** A marker is the list of vertices of an approximated polygon. */
  type Marker = seq<Point>

  /** Colour samples per pixel of a BGR crop. */
  const Channels: nat := 3

  /** The shape of a cropped BGR region: `rows` by `cols` pixels of three samples. */
  datatype Region = Region(rows: nat, cols: nat) {
    /** The number of samples in the buffer (numpy's `size`). */
    function Size(): (n: nat)
      ensures n == 0 <==> rows == 0 || cols == 0
    {
      assert rows > 0 && cols > 0 ==> rows * cols > 0;
      rows * cols * Channels
    }
  }

  /**
   The measurements the bubble detector takes of one external contour:
   its area, its closed arc length, the width and height of its upright
   bounding rectangle, and the centre and radius of its minimal enclosing
   circle.
   */
  datatype BubbleContour = BubbleContour(
    area: real,
    perimeter: real,
    boxWidth: nat,
    boxHeight: nat,
    centerX: real,
    centerY: real,
    radius: real)

  /**
   The measurements the marker detector takes of one external contour:
   its area and its polygon approximated to 4% of its perimeter.
   */
  datatype MarkerContour = MarkerContour(area: real, approx: seq<Point>)

  /** The only failure of the core: the aspect ratio `w / h` of contour number `contour` divides by a zero height. */
  datatype DetectError = ZeroDivision(contour: nat)

  datatype Result<T> = Ok(value: T) | Err(error: DetectError)

  /** The double-precision value of pi that numpy provides, as an exact rational. */
  const Pi: real := 884279719003555.0 / 281474976710656.0

  /** Conversion of a real to an integer by truncation toward zero, as Python's `int` does. */
  function Trunc(x: real): (n: int)
    ensures 0.0 <= x ==> 0 <= n && n as real <= x < n as real + 1.0
    ensures x < 0.0 ==> n <= 0 && n as real - 1.0 < x <= n as real
  {
    if x >= 0.0 then x.Floor else -((-x).Floor)
  }
}
