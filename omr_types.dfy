/** Values that flow between the stages of the OMR grading pipeline.

    The image operations of the original (edge detection, contour extraction,
    polygon approximation, thresholding, pixel counting) are not modelled; what
    they produce for one contour is given here as plain data. */
module OmrTypes {

  datatype Option<T> = None | Some(value: T)

  datatype Result<T, E> = Success(value: T) | Failure(error: E)

  function Min(a: int, b: int): int {
    if a <= b then a else b
  }

  datatype Point = Point(x: int, y: int)

  /** A contour of the edge map: its enclosed area and the polygon fitted to it
      at 2% of its perimeter (the sheet is found when this polygon has 4 corners). */
  datatype Contour = Contour(area: real, approx: seq<Point>)

  /** Width or height of a bounding rectangle: never zero for a real contour. */
  type Extent = n: int | 1 <= n witness 1

  /** A contour of the thresholded, rectified sheet: its bounding rectangle and
      the number of foreground pixels inside its outline. */
  datatype Bubble = Bubble(x: int, y: int, w: Extent, h: Extent, filled: nat)

  /** One entry of the subject map: a name and the half-open range [lo, hi)
      of question indices it covers. */
  datatype Subject = Subject(name: string, lo: int, hi: int)

  datatype Colour = Green | Red

  /** An outline drawn around option `option` of question `question`. */
  datatype Marker = Marker(question: nat, option: int, colour: Colour)

  datatype OmrError = DocumentNotFound | NoBubblesFound

  /** What one grading run returns: the sheet's corners, the score, the raw
      count of correct answers (printed on the image), the per-subject counts
      and the markers that annotate the image. */
  datatype Grading = Grading(
    corners: seq<Point>,
    score: real,
    correct: nat,
    subjectScores: map<string, nat>,
    markers: seq<Marker>)
}
