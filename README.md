# OMR sheet grading, modelled in Dafny

This project models the grading logic of `process_omr_sheet` in
`omr_processor.py`, which grades a photographed multiple-choice bubble sheet.
The function finds the sheet in the photo. It keeps the contours shaped like
answer bubbles and groups them into questions of four options. It picks the
marked option of each question and compares it with the answer key. It counts
correct answers overall and per subject, and outlines the key's option of every
graded question in green or red.

The OpenCV image operations are not modelled. What they produce for one contour
is given as data:

- an edge-map contour is a `Contour`: its area and the polygon fitted to it;
- a sheet contour is a `Bubble`: its bounding box and its count of foreground pixels.

The sorting routines the source calls are function parameters. The model
assumes only that they return a sorted permutation of their input. The answer
key and the subject map are parameters. The shipped constants are in
`OmrConfig`, and the properties that hold for them are proved there.

Modules, in pipeline order:

- `OmrTypes`: shared datatypes.
- `DocumentLocator`: the search for the first four-cornered contour, largest area first.
- `BubbleDetector`: the size and aspect-ratio filter.
- `GridOrganizer`: sort top-to-bottom, cut into chunks of four, sort each chunk left-to-right.
- `MarkEvaluator`: first-maximum option selection.
- `Scorer`: the correct counter, the subject tallies, the score and the markers.
- `OmrConfig`: the shipped `ANSWER_KEY` and `SUBJECT_MAP`.
- `OmrProcessor`: the loops of `process_omr_sheet` and its error paths.

The model follows the code in three places where a reader might expect otherwise:

- The score divides by a fixed 100, not by the size of the key.
- A full question always gets a selection, option 0 when every count is equal (a blank row included).
- A correct answer credits every subject whose range holds the question, not just one.

## Model

| member | source | states |
|---|---|---|
| `DocumentLocator.FirstQuad` | omr_processor.py:39-44 | the result is absent exactly when no contour has four corners; otherwise it is a four-cornered contour and no earlier contour has four corners |
| `DocumentLocator.LocateDocument` | omr_processor.py:35-46 | the search loop returns the approximation of the first four-cornered contour in area order, and nothing exactly when there is none |
| `DocumentLocator.FoundIffSomeQuad` | omr_processor.py:37-47 | for any area-descending reordering, the sheet is found exactly when some contour has four corners |
| `DocumentLocator.ChosenIsLargestQuad` | omr_processor.py:38-44 | the chosen contour's area is at least that of every four-cornered contour |
| `BubbleDetector.RatioBounds` | omr_processor.py:60-61 | for a positive height, `0.9 <= w/h` iff `9h <= 10w`, and `w/h <= 1.1` iff `10w <= 11h` |
| `BubbleDetector.IsBubble` | omr_processor.py:59-61 | the integer filter holds exactly when `w >= 20`, `h >= 20` and `0.9 <= w/h <= 1.1` over the rationals |
| `BubbleDetector.Survivors` | omr_processor.py:57-62 | each box is kept as often as it occurs when it passes the filter, never otherwise; the kept boxes keep their input order |
| `BubbleDetector.SurvivorsEmpty` | omr_processor.py:57-66 | no box survives exactly when no candidate passes the filter |
| `BubbleDetector.FilterBubbles` | omr_processor.py:57-62 | the appending loop yields exactly the survivors |
| `GridOrganizer.ChunkCount` | omr_processor.py:74 | the number of chunks is `n/4` rounded up |
| `GridOrganizer.Chunk` | omr_processor.py:74-75 | chunk `q` holds the bubbles at positions `[4q, 4q+4)`; it has one to four bubbles, and four unless it is the last |
| `GridOrganizer.Grid` | omr_processor.py:74-75 | there is one row per chunk, `n/4` rounded up; `GridPartitions` states what the rows hold |
| `GridOrganizer.ChunksPrefix` | omr_processor.py:74-75 | the first `m` chunks laid end to end are the first `4m` bubbles |
| `GridOrganizer.GridPartitions` | omr_processor.py:68-78 | the rows hold every surviving bubble once; each row is its chunk sorted left-to-right; every row but the last has four bubbles |
| `MarkEvaluator.FirstMax` | omr_processor.py:79-87 | the selected option has the greatest count, and every earlier option has a strictly smaller count |
| `MarkEvaluator.FirstMaxUnique` | omr_processor.py:79-87 | the first-maximum property determines the option uniquely |
| `MarkEvaluator.EqualCountsSelectFirst` | omr_processor.py:79-87 | when all counts are equal, a blank row included, option 0 is selected |
| `MarkEvaluator.TieGoesToFirst` | omr_processor.py:86-87 | counts 10, 10, 5, 3 select option 0 |
| `MarkEvaluator.SelectMark` | omr_processor.py:79-87 | the option loop selects nothing exactly for an empty row; otherwise it selects the first maximum, paired with its count |
| `Scorer.InitialScores` | omr_processor.py:71 | the subject scores start at 0 under every subject name, with no other key |
| `Scorer.CreditSubjects` | omr_processor.py:95-97 | every subject whose range holds `q` gains one, every other subject and every other key is unchanged |
| `Scorer.ScoresAreUnique` | omr_processor.py:71-97 | the per-subject tallies determine the subject-score map |
| `Scorer.Score` | omr_processor.py:102 | `correct / 100.0 * 100` equals the count of correct answers and lies in [0, 100] when at most 100 are correct |
| `Scorer.CorrectCountIsSetSize` | omr_processor.py:90-94 | the counter equals the number of questions that are full, keyed and answered with the key's option |
| `Scorer.CorrectAtMostKeySize` | omr_processor.py:90-94 | the counter never exceeds the number of key entries |
| `Scorer.CorrectAtMostFullRows` | omr_processor.py:78-94 | the counter never exceeds the number of full rows |
| `Scorer.CorrectBelowKeyRange` | omr_processor.py:90-94 | when all key entries are below `m`, the counter is at most `m` and at most the number of rows |
| `Scorer.TallyGrows` | omr_processor.py:95-97 | a subject's tally never decreases as more questions are graded |
| `Scorer.TallySumStep` | omr_processor.py:92-97 | one more correct question adds to the sum of tallies the number of subjects covering it |
| `Scorer.TallySumIsCorrect` | omr_processor.py:92-97 | when each keyed question lies in exactly one subject, the subject tallies sum to the counter |
| `Scorer.PrefixCorrectCounts` | omr_processor.py:90-97 | when exactly the questions below `c` are correct, the counter is `min(c, rows)` and each tally is the overlap of its range with them |
| `Scorer.AnnotationsExact` | omr_processor.py:89-100 | a marker exists for `q` iff row `q` is full and keyed; it sits on the key's option and is green iff the answer was counted correct |
| `OmrConfig.ConfigIsValid` | omr_processor.py:8-25 | the shipped key maps exactly 0..99 to options 0..3, and the subject names are distinct |
| `OmrConfig.SubjectMapPartitions` | omr_processor.py:19-25 | each question 0..99 lies in exactly one shipped subject, and no other question lies in any |
| `OmrConfig.ConfigTotals` | omr_processor.py:8-25 | with the shipped constants the subject tallies sum to the counter, the counter is at most 100 and the score lies in [0, 100] |
| `OmrConfig.AllCorrectSheet` | omr_processor.py:90-102 | a sheet answering all 100 questions as keyed scores 100, with 20 in every subject |
| `OmrConfig.HalfCorrectSheet` | omr_processor.py:90-102 | with every answer keyed to option 1 and options 1 then 0 selected for halves, the score is 50 and the subjects get 20, 20, 10, 0, 0 |
| `OmrProcessor.GradeRow` | omr_processor.py:75-100 | one question adds one to the counter and to its covering subjects iff it is correct; a full keyed question appends its marker; score entries that name no subject keep their value; a short chunk changes nothing |
| `OmrProcessor.GradeQuestions` | omr_processor.py:68-100 | the question loop yields the counter, the subject tallies and the markers of the grid of the sorted bubbles |
| `OmrProcessor.ProcessOmrSheet` | omr_processor.py:27-109 | it fails with DocumentNotFound iff no contour has four corners, and with NoBubblesFound iff a sheet is found but no candidate passes the filter; otherwise it returns the first four-cornered contour in area order, the counter, the score (equal to the counter), the subject tallies and the markers |

## Left out

- Image work is not modelled: reading, grey conversion, blur, edge detection, contour extraction, polygon approximation, contour area, bounding rectangles and Otsu thresholding. These are OpenCV calls. Their results are inputs: `Contour` and `Bubble`.
- The perspective warp (`four_point_transform`) is not modelled. The model returns the four corners it would be given. The bubble contours are an input independent of them.
- Pixel counting is not modelled. Mask drawing, `bitwise_and` and `countNonZero` are given as `Bubble.filled`.
- Drawing is reduced to data. `drawContours` on the sheet becomes a `Marker`. `putText` of the score is left out.
- `cv2.imwrite` and the `uploads` to `processed` path rewrite are file I/O. The returned path is not modelled.
- The order of equal keys after sorting is not modelled. The area sort and `sort_contours` are parameters that only promise a sorted permutation. Python's `sorted` is in fact stable, which the model does not use.
- Floating point is not modelled. The aspect ratio and the score are exact rationals. For boxes of image size, the integer ratio test gives the same answer as the double one. The returned score may differ from the count by rounding: in IEEE doubles `29 / 100.0 * 100` is 28.999999999999996.
- Bounding boxes are taken to be at least one pixel wide and high, as OpenCV returns them. The division by a zero height is therefore not modelled.
- OmrProcessor.GradeRow requires every key entry to be an option 0..3, for the reason given for ProcessOmrSheet below.
- OmrProcessor.GradeQuestions requires every key entry to be an option 0..3, for the reason given for ProcessOmrSheet below.
- OmrProcessor.ProcessOmrSheet requires every key entry to be an option 0..3. An entry outside that range would make `cnts[k]` raise `IndexError`, or index from the end when negative. This error path is not modelled. The shipped key meets the requirement.
- `app.py` is not part of this model. It holds the Streamlit page, the SQLite history and the temporary file names.
