/** Comparing each question's selected option with the answer key, counting
    correct answers overall and per subject, and deciding the annotation
    marker of every keyed question. The specification functions below are
    over the grid rows; row `q` is question `q`. */
module Scorer {
  import opened OmrTypes
  import opened MarkEvaluator

  /** Every key entry names one of the four options (the annotation indexes
      the row with it). */
  predicate ValidKey(key: map<int, int>) {
    forall q :: q in key ==> 0 <= key[q] < 4
  }

  /** Subject names are dictionary keys, hence pairwise different. */
  predicate DistinctNames(subjects: seq<Subject>) {
    forall i, j :: 0 <= i < j < |subjects| ==> subjects[i].name != subjects[j].name
  }

  /** `q in range(lo, hi)`. */
  predicate Covers(s: Subject, q: int) {
    s.lo <= q < s.hi
  }

  /** Question `q` counts as correct: its row is full, the key has an entry
      for it, and that entry is the selected option. */
  predicate QuestionCorrect(row: seq<Bubble>, q: int, key: map<int, int>) {
    |row| == 4 && q in key && key[q] == FirstMax(row)
  }

  function CorrectCount(rows: seq<seq<Bubble>>, key: map<int, int>): nat {
    if rows == [] then 0
    else
      var n := |rows| - 1;
      CorrectCount(rows[..n], key) + (if QuestionCorrect(rows[n], n, key) then 1 else 0)
  }

  /** Correct answers among the questions subject `s` covers. */
  function Tally(rows: seq<seq<Bubble>>, key: map<int, int>, s: Subject): nat {
    if rows == [] then 0
    else
      var n := |rows| - 1;
      Tally(rows[..n], key, s) + (if QuestionCorrect(rows[n], n, key) && Covers(s, n) then 1 else 0)
  }

  function FullRows(rows: seq<seq<Bubble>>): nat {
    if rows == [] then 0
    else FullRows(rows[..|rows| - 1]) + (if |rows[|rows| - 1]| == 4 then 1 else 0)
  }

  /** The names of the subjects: the keys of the subject-score dictionary. */
  ghost function Names(subjects: seq<Subject>): set<string> {
    set i | 0 <= i < |subjects| :: subjects[i].name
  }

  /** `{subject: 0 for subject in SUBJECT_MAP}`. */
  function InitialScores(subjects: seq<Subject>): (m: map<string, nat>)
    requires DistinctNames(subjects)
    ensures m.Keys == Names(subjects)
    ensures forall i :: 0 <= i < |subjects| ==> m[subjects[i].name] == 0
  {
    map i | 0 <= i < |subjects| :: subjects[i].name := 0
  }

  /** `m` holds, under each subject's name, that subject's tally over `rows`,
      and has no other key. */
  ghost predicate ScoresAre(m: map<string, nat>, rows: seq<seq<Bubble>>, key: map<int, int>, subjects: seq<Subject>) {
    m.Keys == Names(subjects) &&
    forall i :: 0 <= i < |subjects| ==> m[subjects[i].name] == Tally(rows, key, subjects[i])
  }

  function MarkerColour(row: seq<Bubble>, q: int, key: map<int, int>): Colour {
    if QuestionCorrect(row, q, key) then Green else Red
  }

  /** The markers drawn, in question order: one per full row with a key entry,
      on the key's option. */
  function Annotations(rows: seq<seq<Bubble>>, key: map<int, int>): seq<Marker> {
    if rows == [] then []
    else
      var n := |rows| - 1;
      Annotations(rows[..n], key) +
        (if |rows[n]| == 4 && n in key then [Marker(n, key[n], MarkerColour(rows[n], n, key))] else [])
  }

  /** The percentage the source computes, `correct / 100.0 * 100`, over exact
      rationals: the count itself, whatever the size of the key. */
  function Score(correct: nat): (r: real)
    ensures r == correct as real
    ensures correct <= 100 ==> 0.0 <= r <= 100.0
  {
    (correct as real / 100.0) * 100.0
  }

  /** The subject loop for one correct question: add one to every subject
      whose range holds `q` (no early exit), leave all other scores alone. */
  method CreditSubjects(scores: map<string, nat>, subjects: seq<Subject>, q: int)
    returns (updated: map<string, nat>)
    requires DistinctNames(subjects)
    requires Names(subjects) <= scores.Keys
    ensures updated.Keys == scores.Keys
    ensures forall i :: 0 <= i < |subjects| ==>
      updated[subjects[i].name] == scores[subjects[i].name] + (if Covers(subjects[i], q) then 1 else 0)
    ensures forall l :: l in scores && (forall i :: 0 <= i < |subjects| ==> subjects[i].name != l) ==>
      updated[l] == scores[l]
  {
    updated := scores;
    for i := 0 to |subjects|
      invariant updated.Keys == scores.Keys
      invariant forall t :: 0 <= t < i ==>
        updated[subjects[t].name] == scores[subjects[t].name] + (if Covers(subjects[t], q) then 1 else 0)
      invariant forall t :: i <= t < |subjects| ==> updated[subjects[t].name] == scores[subjects[t].name]
      invariant forall l :: l in scores && (forall t :: 0 <= t < |subjects| ==> subjects[t].name != l) ==>
        updated[l] == scores[l]
    {
      var s := subjects[i];
      if s.lo <= q < s.hi {
        updated := updated[s.name := updated[s.name] + 1];
      }
    }
  }

  /** The subject scores are determined by the tallies: two maps that both
      hold them are the same map. */
  lemma ScoresAreUnique(m1: map<string, nat>, m2: map<string, nat>, rows: seq<seq<Bubble>>, key: map<int, int>, subjects: seq<Subject>)
    requires ScoresAre(m1, rows, key, subjects) && ScoresAre(m2, rows, key, subjects)
    ensures m1 == m2
  {
  }

  // ---------------------------------------------------------------------------
  // Bounds on the correct counter

  ghost function CorrectSet(rows: seq<seq<Bubble>>, key: map<int, int>): set<int> {
    set q | 0 <= q < |rows| && QuestionCorrect(rows[q], q, key)
  }

  /** The counter equals the number of questions that are correct. */
  lemma {:induction false} CorrectCountIsSetSize(rows: seq<seq<Bubble>>, key: map<int, int>)
    ensures CorrectCount(rows, key) == |CorrectSet(rows, key)|
  {
    if rows != [] {
      var n := |rows| - 1;
      CorrectCountIsSetSize(rows[..n], key);
      var prev := CorrectSet(rows[..n], key);
      if QuestionCorrect(rows[n], n, key) {
        assert CorrectSet(rows, key) == prev + {n};
      } else {
        assert CorrectSet(rows, key) == prev;
      }
    }
  }

  lemma {:induction false} SubsetSize<T>(a: set<T>, b: set<T>)
    requires a <= b
    ensures |a| <= |b|
  {
    if a != {} {
      var e :| e in a;
      SubsetSize(a - {e}, b - {e});
    }
  }

  /** No more answers are correct than the key has entries. */
  lemma CorrectAtMostKeySize(rows: seq<seq<Bubble>>, key: map<int, int>)
    ensures CorrectCount(rows, key) <= |key|
  {
    CorrectCountIsSetSize(rows, key);
    SubsetSize(CorrectSet(rows, key), key.Keys);
  }

  /** No more answers are correct than there are full rows. */
  lemma {:induction false} CorrectAtMostFullRows(rows: seq<seq<Bubble>>, key: map<int, int>)
    ensures CorrectCount(rows, key) <= FullRows(rows)
  {
    if rows != [] {
      CorrectAtMostFullRows(rows[..|rows| - 1], key);
    }
  }

  /** When every key entry is below `m`, at most `m` answers are correct. */
  lemma {:induction false} CorrectBelowKeyRange(rows: seq<seq<Bubble>>, key: map<int, int>, m: nat)
    requires forall q :: q in key ==> q < m
    ensures CorrectCount(rows, key) <= m
    ensures CorrectCount(rows, key) <= |rows|
  {
    if rows != [] {
      CorrectBelowKeyRange(rows[..|rows| - 1], key, m);
    }
  }

  // ---------------------------------------------------------------------------
  // Subject tallies

  /** A tally only grows as more questions are graded. */
  lemma {:induction false} TallyGrows(rows: seq<seq<Bubble>>, key: map<int, int>, s: Subject, m: nat)
    requires m <= |rows|
    ensures Tally(rows[..m], key, s) <= Tally(rows, key, s)
  {
    if m < |rows| {
      var n := |rows| - 1;
      assert rows[..n][..m] == rows[..m];
      TallyGrows(rows[..n], key, s, m);
    } else {
      assert rows[..m] == rows;
    }
  }

  /** How many subjects cover question `q`. */
  function Coverage(subjects: seq<Subject>, q: int): nat {
    if subjects == [] then 0
    else Coverage(subjects[1..], q) + (if Covers(subjects[0], q) then 1 else 0)
  }

  function TallySum(rows: seq<seq<Bubble>>, key: map<int, int>, subjects: seq<Subject>): nat {
    if subjects == [] then 0
    else TallySum(rows, key, subjects[1..]) + Tally(rows, key, subjects[0])
  }

  lemma {:induction false} TallySumStep(rows: seq<seq<Bubble>>, key: map<int, int>, subjects: seq<Subject>)
    requires rows != []
    ensures var n := |rows| - 1;
      TallySum(rows, key, subjects)
        == TallySum(rows[..n], key, subjects) + (if QuestionCorrect(rows[n], n, key) then Coverage(subjects, n) else 0)
  {
    if subjects != [] {
      TallySumStep(rows, key, subjects[1..]);
    }
  }

  /** A correct answer adds one to every subject that covers it; so when the
      key's questions are each covered by exactly one subject, the subject
      scores add up to the correct counter. */
  lemma {:induction false} TallySumIsCorrect(rows: seq<seq<Bubble>>, key: map<int, int>, subjects: seq<Subject>)
    requires forall q :: q in key ==> Coverage(subjects, q) == 1
    ensures TallySum(rows, key, subjects) == CorrectCount(rows, key)
  {
    if rows == [] {
      TallySumEmpty(key, subjects);
    } else {
      var n := |rows| - 1;
      TallySumStep(rows, key, subjects);
      TallySumIsCorrect(rows[..n], key, subjects);
    }
  }

  lemma {:induction false} TallySumEmpty(key: map<int, int>, subjects: seq<Subject>)
    ensures TallySum([], key, subjects) == 0
  {
    if subjects != [] {
      TallySumEmpty(key, subjects[1..]);
    }
  }

  /** When exactly the questions below `c` are correct, the counter is the
      number of such questions graded, and a subject's tally is the size of
      the overlap of its range with them. */
  lemma {:induction false} PrefixCorrectCounts(rows: seq<seq<Bubble>>, key: map<int, int>, c: nat, s: Subject)
    requires forall q :: 0 <= q < |rows| ==> (QuestionCorrect(rows[q], q, key) <==> q < c)
    ensures CorrectCount(rows, key) == Min(c, |rows|)
    ensures Tally(rows, key, s) == Overlap(s.lo, s.hi, Min(c, |rows|))
  {
    if rows != [] {
      var n := |rows| - 1;
      forall q | 0 <= q < n ensures QuestionCorrect(rows[..n][q], q, key) <==> q < c {
        assert rows[..n][q] == rows[q];
      }
      PrefixCorrectCounts(rows[..n], key, c, s);
    }
  }

  /** Size of the intersection of [lo, hi) with [0, m). */
  function Overlap(lo: int, hi: int, m: int): nat {
    var a := if lo < 0 then 0 else lo;
    var b := if hi < m then hi else m;
    if a < b then b - a else 0
  }

  // ---------------------------------------------------------------------------
  // Annotation

  /** A marker is drawn for question `q` exactly when its row is full and the
      key has an entry `k` for it; it sits on option `k` (not on the selected
      option) and is green exactly when the answer was counted correct. */
  lemma {:induction false} AnnotationsExact(rows: seq<seq<Bubble>>, key: map<int, int>, m: Marker)
    ensures m in Annotations(rows, key) <==>
      m.question < |rows| && |rows[m.question]| == 4 && m.question in key &&
      m.option == key[m.question] &&
      (m.colour == Green <==> QuestionCorrect(rows[m.question], m.question, key))
  {
    if rows != [] {
      var n := |rows| - 1;
      AnnotationsExact(rows[..n], key, m);
      if m.question < n {
        assert rows[..n][m.question] == rows[m.question];
      }
    }
  }
}
