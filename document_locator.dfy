/** Finding the sheet: among the edge-map contours, largest area first, the
    first one whose polygon approximation has exactly four corners. */
module DocumentLocator {
  import opened OmrTypes

  predicate IsQuad(c: Contour) {
    |c.approx| == 4
  }

  /** `r` is `s` reordered by non-increasing area (what `sorted(..., reverse=True)`
      keyed on the contour area produces; the order of equal areas is left open). */
  ghost predicate SortedByAreaDesc(r: seq<Contour>, s: seq<Contour>) {
    multiset(r) == multiset(s) &&
    forall i, j :: 0 <= i < j < |r| ==> r[i].area >= r[j].area
  }

  ghost predicate IsAreaSorter(sort: seq<Contour> -> seq<Contour>) {
    forall s :: SortedByAreaDesc(sort(s), s)
  }

  /** Index of the first four-cornered contour of `cs`, if any. */
  function FirstQuad(cs: seq<Contour>): (r: Option<nat>)
    ensures r.None? <==> forall i :: 0 <= i < |cs| ==> !IsQuad(cs[i])
    ensures r.Some? ==>
      r.value < |cs| && IsQuad(cs[r.value]) &&
      forall j :: 0 <= j < r.value ==> !IsQuad(cs[j])
  {
    if cs == [] then None
    else if IsQuad(cs[0]) then Some(0)
    else match FirstQuad(cs[1..])
      case None => None
      case Some(i) => Some(i + 1)
  }

  /** The search loop: walk the area-sorted contours and stop at the first
      approximation with four corners. */
  method LocateDocument(byArea: seq<Contour>) returns (docCnt: Option<seq<Point>>)
    ensures docCnt.None? <==> FirstQuad(byArea).None?
    ensures docCnt.Some? ==>
      FirstQuad(byArea).Some? && docCnt.value == byArea[FirstQuad(byArea).value].approx
    ensures docCnt.Some? ==> |docCnt.value| == 4
  {
    docCnt := None;
    var i := 0;
    while i < |byArea|
      invariant 0 <= i <= |byArea|
      invariant forall j :: 0 <= j < i ==> !IsQuad(byArea[j])
    {
      if |byArea[i].approx| == 4 {
        docCnt := Some(byArea[i].approx);
        return;
      }
      i := i + 1;
    }
  }

  /** The sheet is found exactly when some contour, in any order, has four
      corners; the area sort neither adds nor loses candidates. */
  lemma {:induction false} FoundIffSomeQuad(contours: seq<Contour>, byArea: seq<Contour>)
    requires SortedByAreaDesc(byArea, contours)
    ensures FirstQuad(byArea).None? <==> forall c :: c in contours ==> !IsQuad(c)
  {
    if FirstQuad(byArea).Some? {
      var i := FirstQuad(byArea).value;
      assert byArea[i] in multiset(contours);
    } else {
      forall c | c in contours ensures !IsQuad(c) {
        assert c in multiset(byArea);
        var j :| 0 <= j < |byArea| && byArea[j] == c;
      }
    }
  }

  /** The chosen contour has the largest area among all four-cornered ones. */
  lemma {:induction false} ChosenIsLargestQuad(contours: seq<Contour>, byArea: seq<Contour>)
    requires SortedByAreaDesc(byArea, contours)
    requires FirstQuad(byArea).Some?
    ensures forall c :: c in contours && IsQuad(c) ==> c.area <= byArea[FirstQuad(byArea).value].area
  {
    var i := FirstQuad(byArea).value;
    forall c | c in contours && IsQuad(c) ensures c.area <= byArea[i].area {
      assert c in multiset(byArea);
      var j :| 0 <= j < |byArea| && byArea[j] == c;
      assert !(j < i);
    }
  }
}
