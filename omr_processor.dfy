/** The grading entry point: locate the sheet, keep the bubble-shaped
    contours, group them into questions, pick each question's marked option,
    score it against the answer key and decide its annotation marker. */
module OmrProcessor {
  import opened OmrTypes
  import opened DocumentLocator
  import opened BubbleDetector
  import opened GridOrganizer
  import opened MarkEvaluator
  import opened Scorer

  /** One pass of the question loop on row `cnts` (question `q`): select the
      marked option, and on a match with the key count it for the total and
      for every subject covering `q`; a keyed question gets a marker on the
      key's option. A row that is not full changes nothing. */
  method GradeRow(
    cnts: seq<Bubble>, q: nat, key: map<int, int>, subjects: seq<Subject>,
    correct: nat, scores: map<string, nat>, markers: seq<Marker>)
    returns (correct': nat, scores': map<string, nat>, markers': seq<Marker>)
    requires ValidKey(key) && DistinctNames(subjects)
    requires Names(subjects) <= scores.Keys
    ensures correct' == correct + (if QuestionCorrect(cnts, q, key) then 1 else 0)
    ensures scores'.Keys == scores.Keys
    ensures forall i :: 0 <= i < |subjects| ==>
      scores'[subjects[i].name] == scores[subjects[i].name] +
        (if QuestionCorrect(cnts, q, key) && Covers(subjects[i], q) then 1 else 0)
    ensures forall l :: l in scores && (forall i :: 0 <= i < |subjects| ==> subjects[i].name != l) ==>
      scores'[l] == scores[l]
    ensures markers' == markers +
      (if |cnts| == 4 && q in key then [Marker(q, key[q], MarkerColour(cnts, q, key))] else [])
  {
    correct', scores', markers' := correct, scores, markers;
    // Only a full set of four options is graded.
    if |cnts| == 4 {
      var bubbled := SelectMark(cnts);
      FirstMaxUnique(cnts, bubbled.value.option);
      var colour := Red;
      var k := if q in key then Some(key[q]) else None;
      if k.Some? && bubbled.Some? && k.value == bubbled.value.option {
        colour := Green;
        correct' := correct' + 1;
        scores' := CreditSubjects(scores', subjects, q);
      }
      if k.Some? {
        // The outline goes around the key's option, which is in the row.
        assert 0 <= k.value < |cnts|;
        markers' := markers' + [Marker(q, k.value, colour)];
      }
    }
  }

  /** The question loop over the top-to-bottom order `sorted`: chunk `q` is
      question `q`, sorted left-to-right, graded only when full. */
  method GradeQuestions(
    sorted: seq<Bubble>, key: map<int, int>, subjects: seq<Subject>,
    sortContours: (seq<Bubble>, Axis) -> seq<Bubble>)
    returns (correct: nat, subjectScores: map<string, nat>, markers: seq<Marker>)
    requires ValidKey(key) && DistinctNames(subjects)
    ensures correct == CorrectCount(Grid(sorted, sortContours), key)
    ensures ScoresAre(subjectScores, Grid(sorted, sortContours), key, subjects)
    ensures markers == Annotations(Grid(sorted, sortContours), key)
  {
    ghost var rows := Grid(sorted, sortContours);
    correct := 0;
    subjectScores := InitialScores(subjects);
    markers := [];

    var q := 0;
    while 4 * q < |sorted|
      invariant 0 <= q <= |rows|
      invariant correct == CorrectCount(rows[..q], key)
      invariant ScoresAre(subjectScores, rows[..q], key, subjects)
      invariant markers == Annotations(rows[..q], key)
    {
      var cnts := sortContours(Chunk(sorted, q), LeftToRight);
      ghost var done := rows[..q + 1];
      assert done[..q] == rows[..q] && done[q] == cnts;
      correct, subjectScores, markers := GradeRow(cnts, q, key, subjects, correct, subjectScores, markers);
      assert ScoresAre(subjectScores, done, key, subjects);
      q := q + 1;
    }
    assert rows[..q] == rows;
  }

  /** `edgeContours` are the contours of the photo's edge map and
      `sheetContours` those of the thresholded, rectified sheet; `areaSort`
      and `sortContours` stand for the sorting routines the source calls.
      The answer key and the subject map are passed in. */
  method ProcessOmrSheet(
    edgeContours: seq<Contour>,
    sheetContours: seq<Bubble>,
    key: map<int, int>,
    subjects: seq<Subject>,
    areaSort: seq<Contour> -> seq<Contour>,
    sortContours: (seq<Bubble>, Axis) -> seq<Bubble>)
    returns (r: Result<Grading, OmrError>)
    requires IsAreaSorter(areaSort) && IsContourSorter(sortContours)
    requires ValidKey(key) && DistinctNames(subjects)
    ensures r == Failure(DocumentNotFound) <==> forall c :: c in edgeContours ==> !IsQuad(c)
    ensures r == Failure(NoBubblesFound) <==>
      (exists c :: c in edgeContours && IsQuad(c)) && forall b :: b in sheetContours ==> !IsBubble(b)
    ensures r.Success? ==>
      var byArea := areaSort(edgeContours);
      FirstQuad(byArea).Some? && r.value.corners == byArea[FirstQuad(byArea).value].approx
    ensures r.Success? ==>
      var rows := Grid(sortContours(Survivors(sheetContours), TopToBottom), sortContours);
      r.value.correct == CorrectCount(rows, key) &&
      r.value.score == r.value.correct as real &&
      ScoresAre(r.value.subjectScores, rows, key, subjects) &&
      r.value.markers == Annotations(rows, key)
  {
    // Document: the first four-cornered approximation, largest area first.
    var docCnt: Option<seq<Point>> := None;
    if |edgeContours| > 0 {
      var cnts := areaSort(edgeContours);
      docCnt := LocateDocument(cnts);
    }
    FoundIffSomeQuad(edgeContours, areaSort(edgeContours));
    if docCnt.None? {
      return Failure(DocumentNotFound);
    }

    // Bubbles: the shape filter.
    var questionCnts := FilterBubbles(sheetContours);
    SurvivorsEmpty(sheetContours);
    if |questionCnts| == 0 {
      return Failure(NoBubblesFound);
    }

    // Questions: top-to-bottom, then chunks of four sorted left-to-right.
    var sorted := sortContours(questionCnts, TopToBottom);
    var correct, subjectScores, markers := GradeQuestions(sorted, key, subjects, sortContours);

    var score := Score(correct);
    return Success(Grading(docCnt.value, score, correct, subjectScores, markers));
  }
}
