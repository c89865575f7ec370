/** The grading configuration the processor ships with: a 100-question
    answer key and five subjects of twenty consecutive questions. */
module OmrConfig {
  import opened OmrTypes
  import opened MarkEvaluator
  import opened Scorer

  /** Every row of ten entries of the answer key repeats these answers. */
  const KeyPattern: seq<int> := [1, 3, 0, 2, 1, 0, 3, 1, 2, 0]

  /** ANSWER_KEY: question q, for q in 0..99, has answer KeyPattern[q % 10]. */
  const AnswerKey: map<int, int> := map q | 0 <= q < 100 :: KeyPattern[q % 10]

  /** SUBJECT_MAP, in the order of the dictionary. */
  const SubjectMap: seq<Subject> := [
    Subject("Subject 1", 0, 20),
    Subject("Subject 2", 20, 40),
    Subject("Subject 3", 40, 60),
    Subject("Subject 4", 60, 80),
    Subject("Subject 5", 80, 100)
  ]

  /** The shipped configuration meets what the processor needs of it, and
      its key covers exactly questions 0..99. */
  lemma ConfigIsValid()
    ensures ValidKey(AnswerKey) && DistinctNames(SubjectMap)
    ensures forall q :: q in AnswerKey <==> 0 <= q < 100
  {
  }

  /** Each of the questions 0..99 lies in exactly one subject, and no other
      question lies in any. */
  lemma SubjectMapPartitions(q: int)
    ensures Coverage(SubjectMap, q) == if 0 <= q < 100 then 1 else 0
  {
    var s := SubjectMap;
    assert s[5..] == [] && s[4..][1..] == s[5..] && s[3..][1..] == s[4..];
    assert s[2..][1..] == s[3..] && s[1..][1..] == s[2..];
    assert Coverage(s[4..], q) == if 80 <= q < 100 then 1 else 0;
    assert Coverage(s[3..], q) == if 60 <= q < 100 then 1 else 0;
    assert Coverage(s[2..], q) == if 40 <= q < 100 then 1 else 0;
    assert Coverage(s[1..], q) == if 20 <= q < 100 then 1 else 0;
  }

  /** With the shipped configuration the subject scores add up to the correct
      counter, and the score lies in [0, 100]. */
  lemma ConfigTotals(rows: seq<seq<Bubble>>)
    ensures TallySum(rows, AnswerKey, SubjectMap) == CorrectCount(rows, AnswerKey)
    ensures CorrectCount(rows, AnswerKey) <= 100
    ensures 0.0 <= Score(CorrectCount(rows, AnswerKey)) <= 100.0
  {
    forall q | q in AnswerKey ensures Coverage(SubjectMap, q) == 1 {
      SubjectMapPartitions(q);
    }
    TallySumIsCorrect(rows, AnswerKey, SubjectMap);
    CorrectBelowKeyRange(rows, AnswerKey, 100);
  }

  /** A sheet on which every one of the 100 questions is answered as the key
      says scores 100, with 20 in every subject. */
  lemma AllCorrectSheet(rows: seq<seq<Bubble>>)
    requires |rows| == 100
    requires forall q :: 0 <= q < 100 ==> |rows[q]| == 4 && FirstMax(rows[q]) == AnswerKey[q]
    ensures CorrectCount(rows, AnswerKey) == 100
    ensures Score(CorrectCount(rows, AnswerKey)) == 100.0
    ensures forall i :: 0 <= i < |SubjectMap| ==> Tally(rows, AnswerKey, SubjectMap[i]) == 20
  {
    forall i | 0 <= i < |SubjectMap| ensures Tally(rows, AnswerKey, SubjectMap[i]) == 20 {
      PrefixCorrectCounts(rows, AnswerKey, 100, SubjectMap[i]);
    }
    PrefixCorrectCounts(rows, AnswerKey, 100, SubjectMap[0]);
  }

  /** A key that gives option 1 for every one of 100 questions. */
  const OnesKey: map<int, int> := map q | 0 <= q < 100 :: 1

  /** The end-to-end case of 100 full questions, all keyed to option 1, where
      the sheet selects option 1 on questions 0..49 and option 0 on 50..99:
      the score is 50, with 20, 20, 10, 0 and 0 in the five subjects. */
  lemma HalfCorrectSheet(rows: seq<seq<Bubble>>)
    requires |rows| == 100
    requires forall q :: 0 <= q < 100 ==> |rows[q]| == 4 && FirstMax(rows[q]) == if q < 50 then 1 else 0
    ensures Score(CorrectCount(rows, OnesKey)) == 50.0
    ensures Tally(rows, OnesKey, SubjectMap[0]) == 20
    ensures Tally(rows, OnesKey, SubjectMap[1]) == 20
    ensures Tally(rows, OnesKey, SubjectMap[2]) == 10
    ensures Tally(rows, OnesKey, SubjectMap[3]) == 0
    ensures Tally(rows, OnesKey, SubjectMap[4]) == 0
  {
    forall i | 0 <= i < |SubjectMap| ensures Tally(rows, OnesKey, SubjectMap[i]) == Overlap(SubjectMap[i].lo, SubjectMap[i].hi, 50) {
      PrefixCorrectCounts(rows, OnesKey, 50, SubjectMap[i]);
    }
    PrefixCorrectCounts(rows, OnesKey, 50, SubjectMap[0]);
  }
}
