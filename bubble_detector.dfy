/** Keeping the sheet contours that look like answer bubbles: at least 20 by
    20 pixels and with a width/height ratio in [0.9, 1.1]. */
module BubbleDetector {
  import opened OmrTypes

  /** The width/height ratio, as an exact rational. */
  function AspectRatio(b: Bubble): real {
    b.w as real / b.h as real
  }

  /** Comparing a quotient with a constant is comparing the numerator with
      the constant times the positive denominator. */
  lemma QuotientBounds(a: real, b: real, c: real)
    requires b > 0.0
    ensures c <= a / b <==> c * b <= a
    ensures a / b <= c <==> a <= c * b
  {
    var r := a / b;
    assert r * b == a;
    if c <= r {
      assert c * b <= r * b;
    } else {
      assert r * b < c * b;
    }
  }

  /** For a positive height, the ratio test is the same as an integer
      cross-multiplication. */
  lemma RatioBounds(w: int, h: int)
    requires h >= 1
    ensures 0.9 <= w as real / h as real <==> 9 * h <= 10 * w
    ensures w as real / h as real <= 1.1 <==> 10 * w <= 11 * h
  {
    QuotientBounds(w as real, h as real, 0.9);
    QuotientBounds(w as real, h as real, 1.1);
    assert (9 * h) as real == 9.0 * h as real && (10 * w) as real == 10.0 * w as real;
    assert (11 * h) as real == 11.0 * h as real;
  }

  /** The shape filter, computed on integers; its contract is the test as the
      source writes it, on the real-valued ratio. */
  predicate IsBubble(b: Bubble)
    ensures IsBubble(b) <==> b.w >= 20 && b.h >= 20 && 0.9 <= AspectRatio(b) <= 1.1
  {
    RatioBounds(b.w, b.h);
    b.w >= 20 && b.h >= 20 && 9 * b.h <= 10 * b.w && 10 * b.w <= 11 * b.h
  }

  /** `r` keeps some of the elements of `s`, in their order in `s`. */
  ghost predicate Subsequence(r: seq<Bubble>, s: seq<Bubble>)
    decreases |s|
  {
    if r == [] then true
    else if s == [] then false
    else if r[|r| - 1] == s[|s| - 1] then Subsequence(r[..|r| - 1], s[..|s| - 1])
    else Subsequence(r, s[..|s| - 1])
  }

  /** The bubbles that pass the shape filter, in input order. */
  function Survivors(cnts: seq<Bubble>): (r: seq<Bubble>)
    ensures forall b :: multiset(r)[b] == if IsBubble(b) then multiset(cnts)[b] else 0
    ensures Subsequence(r, cnts)
  {
    if cnts == [] then []
    else
      var last := cnts[|cnts| - 1];
      assert cnts == cnts[..|cnts| - 1] + [last];
      var r := Survivors(cnts[..|cnts| - 1]);
      if IsBubble(last) then r + [last] else r
  }

  /** No survivor at all happens exactly when no candidate passes the filter. */
  lemma SurvivorsEmpty(cnts: seq<Bubble>)
    ensures Survivors(cnts) == [] <==> forall b :: b in cnts ==> !IsBubble(b)
  {
  }

  /** The collecting loop: append each contour that passes the filter. */
  method FilterBubbles(cnts: seq<Bubble>) returns (questionCnts: seq<Bubble>)
    ensures questionCnts == Survivors(cnts)
  {
    questionCnts := [];
    var i := 0;
    while i < |cnts|
      invariant 0 <= i <= |cnts|
      invariant questionCnts == Survivors(cnts[..i])
    {
      var c := cnts[i];
      assert cnts[..i + 1][..i] == cnts[..i];
      if IsBubble(c) {
        questionCnts := questionCnts + [c];
      }
      i := i + 1;
    }
    assert cnts[..i] == cnts;
  }
}
