/** Deciding which option of a question is marked: the one with the most
    foreground pixels, the leftmost one on ties. */
module MarkEvaluator {
  import opened OmrTypes

  /** Option `j` holds the greatest count, and every option before it holds
      strictly less (a later option must exceed the lead, not merely equal it). */
  predicate IsFirstMax(row: seq<Bubble>, j: int) {
    0 <= j < |row| &&
    (forall i :: 0 <= i < |row| ==> row[i].filled <= row[j].filled) &&
    (forall i :: 0 <= i < j ==> row[i].filled < row[j].filled)
  }

  /** The selected option of a non-empty row. */
  function FirstMax(row: seq<Bubble>): (j: nat)
    requires |row| > 0
    ensures IsFirstMax(row, j)
  {
    if |row| == 1 then 0
    else
      var k := FirstMax(row[..|row| - 1]);
      if row[|row| - 1].filled > row[k].filled then |row| - 1 else k
  }

  /** At most one option is the first maximum. */
  lemma FirstMaxUnique(row: seq<Bubble>, j: int)
    requires IsFirstMax(row, j)
    ensures j == FirstMax(row)
  {
  }

  /** Equal counts everywhere (a blank row included) select the first option. */
  lemma EqualCountsSelectFirst(row: seq<Bubble>)
    requires |row| > 0
    requires forall i :: 0 <= i < |row| ==> row[i].filled == row[0].filled
    ensures FirstMax(row) == 0
  {
  }

  /** Counts 10, 10, 5, 3: the tie between the first two goes to option 0. */
  lemma TieGoesToFirst(row: seq<Bubble>)
    requires |row| == 4
    requires row[0].filled == 10 && row[1].filled == 10 && row[2].filled == 5 && row[3].filled == 3
    ensures FirstMax(row) == 0
  {
  }

  /** The current leader: its pixel count and its option index. */
  datatype Pick = Pick(total: nat, option: nat)

  /** The option loop: keep the first bubble, and replace the leader only by a
      bubble with a strictly greater count. An empty row selects nothing. */
  method SelectMark(row: seq<Bubble>) returns (bubbled: Option<Pick>)
    ensures bubbled.None? <==> row == []
    ensures bubbled.Some? ==> IsFirstMax(row, bubbled.value.option)
    ensures bubbled.Some? ==> bubbled.value.total == row[bubbled.value.option].filled
  {
    bubbled := None;
    for j := 0 to |row|
      invariant bubbled.None? <==> j == 0
      invariant bubbled.Some? ==> bubbled.value == Pick(row[FirstMax(row[..j])].filled, FirstMax(row[..j]))
    {
      var total := row[j].filled;
      assert row[..j + 1][..j] == row[..j];
      if bubbled.None? || total > bubbled.value.total {
        bubbled := Some(Pick(total, j));
      }
    }
    assert row[..|row|] == row;
  }
}
