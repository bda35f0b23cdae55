# Rubric scoring engine and document store

This project models the logic of a single-page rubric app, `App.tsx`. A
teacher keeps one document in it. The document holds a course, a scale of
achievement levels (each with a name and a score), three channel weights
(self-assessment `auto`, `peer` and `teacher`), a roster of students with
optional teams, weighted criteria, and the evaluation cells. Each cell stores
a level name per channel plus evidence and a comment, keyed by student id and
then by criterion id. The document also holds a ledger of peer points that
teammates award one another, and the settings that turn those points into a
teamwork bonus.

The model covers three parts:

- `Scoring` is the scoring engine:
  - `levelScore` resolves a name to a score.
  - `maxLevelScore` is the normalising maximum, falling back to 4.
  - `computeStudentSummary` is modelled as a method with a loop. It is proved
    equal to the specification function `StudentSummaryOf`.
  - The per-criterion pieces that the student report lists are modelled too.

  The lemmas prove what the scores mean:
  - the lookup picks the first matching level;
  - the maximum is positive;
  - the report's pieces sum to the engine's total;
  - unevaluated students score 0;
  - full marks score 100;
  - the bonus is off without the modifier or a team, is capped at half the
    maximum share, and is negative below quota;
  - the result always lies in [0, 100].
- `Store` covers the document mutators. Each is a pure update that returns a
  new document. It also covers the level-removal guard and the peer-point
  entry form with its three alerts. The lemmas prove that each update touches
  only its target, that removals of students, criteria, levels and peer
  points keep the other entries with their multiplicity and in order, that cell
  writes commute, and that, with distinct student ids, the form accepts
  exactly the teammate pairs.
- `Sequences`, `Rubric` and `Wrappers` hold the list operations (`find`,
  `filter`, update-by-id), the document's types and `Option`.
- `WorkedCases` works through small concrete documents: a two-level scale, a
  single criterion, and a capped bonus carried through the engine.

Numbers are exact `real`s. An optional text field (`team`, `dimension`,
`evidence`, `comment`, `note`) is a `string`, with `""` standing for absent.
Every use of such a field tests its truthiness, so `undefined` and `""`
behave alike. The channel fields of a cell are `Option<string>`. The ids that
the app draws from `uid()` are parameters.

`weightSum` adds every criterion's weight, evaluated or not (App.tsx:108);
it is not a sum over the evaluated criteria. `ComputeStudentSummary` states
exactly that.

## Model

| member | source | states |
|---|---|---|
| Sequences.FindSpec | App.tsx:85 | `find` reports nothing iff no element satisfies the test; otherwise it reports the element at the first satisfying position |
| Sequences.Find | App.tsx:85 | `xs.find(p)`; its meaning is stated by `FindSpec`, `FindAppend` and `FindUnique` |
| Sequences.FindAppend | App.tsx:85 | appending an element changes `find`'s answer only when nothing earlier matched |
| Sequences.FindUnique | App.tsx:392-393 | when exactly one element matches, `find` returns it |
| Sequences.FilterSpec | App.tsx:143 | `filter` keeps exactly the passing elements, each with its multiplicity, as a subsequence of the original order |
| Sequences.Filter | App.tsx:143 | `xs.filter(p)`; its meaning is stated by `FilterSpec`, `FilterIdempotent`, `FilterDropsAtMostOne` and `FilterAppend` |
| Sequences.FilterIdempotent | App.tsx:143 | filtering twice with the same test equals filtering once |
| Sequences.FilterDropsAtMostOne | App.tsx:224 | if at most one element fails the test, filtering shortens the list by at most one |
| Sequences.FilterAppend | App.tsx:118 | filtering a list with one element appended filters the list, then keeps or drops that element by the test |
| Sequences.UpdateWhere | App.tsx:140-142 | the id-keyed `map` keeps length and positions, rewrites every element whose id matches, and leaves all others equal |
| Scoring.LevelScoreSpec | App.tsx:83-87 | `levelScore` is null iff the name is absent or empty or no level carries it; otherwise it is the score of the first level with exactly that name |
| Scoring.LevelScore | App.tsx:83-87 | `levelScore`; `LevelScoreSpec` states what it returns |
| Scoring.MaxFrom | App.tsx:88 | the `reduce` never falls below its seed |
| Scoring.MaxFromSpec | App.tsx:88 | the `reduce` result is at least every score and equals the seed or one of the scores |
| Scoring.MaxFromAppend | App.tsx:88 | folding over a list with one level appended is the max of the previous fold and that level's score |
| Scoring.MaxLevelScore | App.tsx:88 | the normalising maximum is always > 0, so the divisions at App.tsx:103-105 are defined |
| Scoring.MaxLevelScoreSpec | App.tsx:88 | every score is at most the maximum; with some positive score it is a level's score; with no positive score it is 4 |
| Scoring.SumPiecesStep | App.tsx:97-107 | one `forEach` step adds exactly that criterion's piece to the running total |
| Scoring.Contribution | App.tsx:103-105 | one channel's share `(score/maxScore)*weight`, or 0 when the channel names no level; bounded by `ContributionBounds` |
| Scoring.ChannelSum | App.tsx:102-106 | the three channels blended; bounded by `ChannelSumBounds` and equal to 100 at full marks (`FullMarksPiece`) |
| Scoring.Piece | App.tsx:102-106 | the criterion weight times the blend over 100 (`PieceUnfold`); bounded by `PieceBounds`, equal to the weight at full marks (`FullMarksPiece`) |
| Rubric.EvalsOf | App.tsx:93 | a student's cells, or none when the student has no entry; `UnevaluatedStudentScoresZero` states its consequence |
| Rubric.CellOf | App.tsx:98 | a criterion's cell, or the empty cell when missing; `SetEvaluationSpec` uses it for the cell a write starts from |
| Scoring.Denom | App.tsx:120 | the bonus denominator is at least 1 |
| Scoring.Received | App.tsx:118 | the filter of the ledger by team and evaluated id; `ReceivedFromLedger` and `SubmitFeedsBonus` state its meaning |
| Scoring.EvaluatorsCount | App.tsx:119 | the number of distinct evaluators; stated by `EvaluatorsCountAppend` and `EvaluatorsCountBounds` |
| Scoring.EvaluatorsCountAppend | App.tsx:119 | a record from an evaluator already counted leaves the count unchanged; one from a new evaluator adds 1 |
| Scoring.EvaluatorsCountBounds | App.tsx:119 | the count is at most the number of records, and at least 1 when there is a record |
| Scoring.PointsSum | App.tsx:121 | the `reduce` of the received points; stated by `PointsSumNonNegative` |
| Scoring.Ratio | App.tsx:121 | the received-points ratio never exceeds 1.5 |
| Scoring.RatioCapped | App.tsx:121 | ratio ≤ 1.5, and it equals 1.5 whenever the points received reach 1.5 times the denominator |
| Scoring.RatioNonNegative | App.tsx:121 | with non-negative points the ratio is ≥ 0 |
| Scoring.PointsSumNonNegative | App.tsx:121 | the sum of non-negative points is non-negative |
| Scoring.Clamp | App.tsx:125 | the result lies in [0,100]; it is the input inside that range, 0 below it, and 100 above it |
| Scoring.StudentSummaryOf | App.tsx:90-127 | the summary's `percent` always lies in [0,100] |
| Scoring.ComputeStudentSummary | App.tsx:90-127 | the loop computes `StudentSummaryOf`; `weightSum` is the sum of all criterion weights, whatever was evaluated; `percent` is in [0,100] |
| Scoring.NoBonusWithoutModifierOrTeam | App.tsx:114-117 | the bonus is 0 with the modifier off, when the student is not on the roster, or when their entry has no team |
| Scoring.BonusTeam | App.tsx:115-117 | the team the bonus is computed for; `NoBonusWithoutModifierOrTeam` states when there is none |
| Scoring.Adjustment | App.tsx:122 | `percent*(maxBonusPct/100)*(ratio-1)`; bounded by `AdjustmentAtMostHalf`, `AdjustmentAtLeastMinusShare` and signed by `AdjustmentSign` |
| Scoring.Bonus | App.tsx:114-122 | the teamwork bonus; its meaning is stated by `NoBonusWithoutModifierOrTeam`, `BonusAtMostHalfShare`, `BonusNegativeBelowQuota`, `BonusAtLeastMinusShare` and `BonusOfZero` |
| Scoring.AdjustmentAtMostHalf | App.tsx:122 | with a ratio ≤ 1.5, `percent*(max/100)*(ratio-1)` ≤ half of `percent*max/100` |
| Scoring.AdjustmentAtLeastMinusShare | App.tsx:122 | with a ratio ≥ 0 the adjustment does not fall below `-percent*max/100` |
| Scoring.AdjustmentSign | App.tsx:122 | the adjustment is 0 at ratio 1 and negative below 1 for positive percent and cap |
| Scoring.BonusAtMostHalfShare | App.tsx:114-123 | the bonus is at most `percent * maxBonusPct/100 * 0.5` |
| Scoring.BonusNegativeBelowQuota | App.tsx:114-123 | with the modifier on, a team, positive percent and cap, and a ratio below 1, the bonus is negative |
| Scoring.BonusAtLeastMinusShare | App.tsx:114-123 | with non-negative points received, the bonus is at least `-percent * maxBonusPct/100` |
| Scoring.ReceivedFromLedger | App.tsx:118 | the received records of a ledger with non-negative points have non-negative points |
| Scoring.ReportPieces | App.tsx:476-485 | the report's list of pieces, one per criterion in order; `ReportPiecesSumToTotal` states that they sum to the engine's total |
| Scoring.ReportPiece | App.tsx:477-485 | the piece the report shows; `ReportPieceIsEnginePiece` equates it with the engine's piece |
| Scoring.ReportPieceIsEnginePiece | App.tsx:476-485 | the piece the report recomputes with its own `maxScore` equals the engine's piece at App.tsx:98-106 |
| Scoring.ReportPrefixSum | App.tsx:476-485 | the first k report pieces sum to the engine's running total after k criteria |
| Scoring.ReportPiecesSumToTotal | App.tsx:476-485 | the report's pieces sum to the engine's pre-bonus `total` |
| Scoring.UnscoredPiecesSumToZero | App.tsx:97-108 | when no channel of any criterion names a level, the pieces sum to 0 |
| Scoring.UnscoredStudentScoresZero | App.tsx:93-125 | a student none of whose channels names a level has total 0 and `percent` 0 |
| Scoring.BonusOfZero | App.tsx:122 | the bonus on a percent of 0 is 0 |
| Scoring.UnevaluatedStudentScoresZero | App.tsx:93 | a student with no evaluation entry has `percent` 0 |
| Scoring.FullMarksPiece | App.tsx:102-106 | channels at the maximum with weights summing to 100 give a piece equal to the criterion weight |
| Scoring.FullMarksPiecesSumToWeights | App.tsx:97-109 | with full marks, the running total equals the running weight sum |
| Scoring.FullMarksScoreHundred | App.tsx:102-125 | full marks, channel weights and criterion weights each summing to 100, and the modifier off give `percent` 100 |
| Scoring.ContributionBounds | App.tsx:103-105 | with non-negative scores, a channel contributes between 0 and its weight |
| Scoring.ChannelSumBounds | App.tsx:102-106 | with non-negative channel weights summing to 100, the blended channels lie in [0,100] |
| Scoring.PieceBounds | App.tsx:102-106 | then a criterion's piece lies between 0 and its weight |
| Scoring.PiecesWithinWeights | App.tsx:97-109 | the running total lies between 0 and the running weight sum |
| Scoring.TotalWithinRange | App.tsx:111-125 | with the weights normalised, the pre-bonus total is in [0,100], and with the modifier off `percent` equals it |
| Store.UpdateCourse | App.tsx:136-138 | only the chosen course field changes |
| Store.AddStudent | App.tsx:139 | exactly one blank student is appended; nothing else changes |
| Store.WithStudentField | App.tsx:140-142 | the spread keeps the id and replaces only the chosen field |
| Store.UpdateStudent | App.tsx:140-142 | the roster keeps length and order; students with the id get the field set, all others stay equal; nothing else changes |
| Store.RemoveStudent | App.tsx:143 | only the roster changes |
| Store.RemoveStudentSpec | App.tsx:143 | removal keeps exactly the students with other ids, with multiplicity and order; evaluations and ledger are kept |
| Store.RemoveStudentIdempotent | App.tsx:143 | removing an id twice equals removing it once |
| Store.AddedStudentScoresZero | App.tsx:139 | a newly added student without a stale evaluation entry scores 0 |
| Store.AddCriterion | App.tsx:145 | exactly one blank criterion of weight 0 is appended |
| Store.Patched | App.tsx:146-148 | each field the patch carries replaces the criterion's, and the others are kept |
| Store.UpdateCriterion | App.tsx:146-148 | the criteria keep length and order; those with the id are patched, all others stay equal |
| Store.RemoveCriterion | App.tsx:149 | only the criteria change |
| Store.RemoveCriterionSpec | App.tsx:149 | removal keeps exactly the criteria with other ids, with multiplicity and order |
| Store.ReweightShiftsWeightSum | App.tsx:146-148 | with distinct ids, re-weighting one criterion moves `weightSum` by exactly the change in its weight |
| Store.SetWeights | App.tsx:150 | each weight in the patch replaces the old one; the others and the rest of the document are kept |
| Store.SetLevels | App.tsx:151 | only the level list is replaced |
| Store.RenameLevel | App.tsx:222 | levels with the id get the new name; the others, the order and the rest are kept |
| Store.SetLevelScore | App.tsx:223 | levels with the id get the new score; the others, the order and the rest are kept |
| Store.RenameLevelDetachesCells | App.tsx:222 | renaming the only level named `oldName` makes every cell naming `oldName` resolve to no level |
| Store.AddLevel | App.tsx:227 | exactly one nameless level of score 0 is appended |
| Store.AddLevelKeepsSummaries | App.tsx:227 | adding that level leaves every student's summary unchanged |
| Store.AddLevelKeepsPiece | App.tsx:227 | adding that level leaves every piece unchanged |
| Store.NamelessLevelNeverMatches | App.tsx:227 | an appended nameless level changes no level lookup |
| Store.RemoveLevel | App.tsx:224 | with two levels or fewer, removal changes nothing; otherwise only the levels change |
| Store.RemoveLevelKeepsTwo | App.tsx:224 | with distinct ids, a document with at least two levels keeps at least two; if removal is enabled, exactly the levels with other ids remain |
| Store.RemoveLevelSpec | App.tsx:224 | enabled removal keeps exactly the levels with other ids, with multiplicity and order |
| Store.SetCellField | App.tsx:153-167 | the spread writes only the chosen field of the cell; a channel stores the chosen level name |
| Store.SetEvaluationSpec | App.tsx:153-167 | the write creates missing maps, changes only that field of cell (student, criterion), and keeps every other cell, every other student and the rest of the document |
| Store.SetEvaluation | App.tsx:153-167 | `setEvaluation`; `SetEvaluationSpec`, `SetEvaluationLastWriteWins` and `SetEvaluationCommutes` state its meaning |
| Store.WithCell | App.tsx:159-164 | one student's cells with one field of one cell written; its commutation is stated by `WithCellCommutes` |
| Store.SetEvaluationLastWriteWins | App.tsx:153-167 | two writes to the same field keep only the second |
| Store.SetEvaluationCommutes | App.tsx:153-167 | writes to different students, different criteria or different fields commute |
| Store.CommuteAcrossStudents | App.tsx:153-167 | writes for two different students commute |
| Store.CommuteAcrossCriteria | App.tsx:153-167 | writes to two different criteria of one student commute |
| Store.CommuteAcrossFields | App.tsx:153-167 | writes to two different fields of one cell commute |
| Store.ClearedChannelHasNoScore | App.tsx:332-333 | choosing the empty "— Selecciona —" option makes that channel resolve to no level |
| Store.SetEvaluationKeepsOtherSummaries | App.tsx:153-167 | marking one student leaves every other student's summary unchanged |
| Store.AddPeerPoint | App.tsx:168 | exactly one record is appended to the ledger; nothing else changes |
| Store.RemovePeerPoint | App.tsx:169 | only the ledger changes |
| Store.RemovePeerPointSpec | App.tsx:169 | removal keeps exactly the records with other ids, with multiplicity and order |
| Store.EditPeerPointsConfig | App.tsx:244-256 | each edit replaces its one setting; the others and the document are kept |
| Store.ModifierOffScoresPiecesOnly | App.tsx:255 | with the modifier switched off, every percent is the clamped pre-bonus total |
| Store.SubmitPeerPoint | App.tsx:391-398 | on an alert, document and form are unchanged; on acceptance, the form is cleared and exactly one record is appended, with nothing else changed |
| Store.ResolveSpec | App.tsx:392-393 | a selection resolves iff it names a roster entry, and then it resolves to the first entry with that id |
| Store.SubmitMissingSelection | App.tsx:394 | the first alert fires iff a selection is empty or names no roster entry |
| Store.Resolve | App.tsx:392-393 | `state.students.find(s => s.id === id)` for a selection; `ResolveSpec` states its meaning |
| Store.SubmitRejectsSelfAward | App.tsx:396 | selecting the same student twice is always rejected and changes nothing |
| Store.SubmitRejectsCrossTeam | App.tsx:395 | with distinct ids, two students whose teams are empty or differ get the team alert, and the document is unchanged |
| Store.SubmitAcceptedRecord | App.tsx:397 | an accepted entry rests on two distinct selections of roster members in one non-empty team; its record carries the evaluator's team, both ids, the points (0 when empty) and the note |
| Store.SubmitAcceptsTeammates | App.tsx:391-398 | with distinct ids, two different students of one non-empty team are always accepted |
| Store.SubmitFeedsBonus | App.tsx:397 | the accepted record joins the received records that the evaluated student's bonus counts |
| WorkedCases.TwoLevelsResolve | App.tsx:83-88 | on the scale Inicial=1, Avanzado=4, the maximum is 4 and both names resolve to their scores |
| WorkedCases.TeacherMarkedSummary | App.tsx:90-127 | a teacher-only mark of score sc on one criterion of weight 100 gives weightSum 100 and percent Clamp(sc/4*100) |
| WorkedCases.TopLevelScoresHundred | App.tsx:90-127 | a top-level mark scores 100 |
| WorkedCases.BottomLevelScoresQuarter | App.tsx:90-127 | a bottom-level mark scores 25 |
| WorkedCases.CappedBonusOnEighty | App.tsx:113-125 | 15 points from one evaluator of 10 is capped at 1.5, so a pre-bonus 80 earns 4 and ends at 84 |
| WorkedCases.TeammateEndsAtEightyFour | App.tsx:90-127 | in that document the channels give a pre-bonus total of 80 and the summary is weightSum 100, percent 84 |

## Left out

- Persistence through `localStorage` (App.tsx:75-81): browser I/O. The document is a value passed in and returned.
- JSON export and import (App.tsx:171-186): file and DOM plumbing around the platform's JSON parser, with no schema logic.
- `uid()` (App.tsx:21): it is random. Every operation that mints an id takes it as a parameter.
- The JSX rendering, `toFixed` formatting, progress bars, and the displayed totals `sumWeights` and `criteriaSum` (App.tsx:132-133): presentation only.
- `Number()` coercion and NaN (`Number(lv.score)`, `Number(r.points)||0`, `c.weight||0`): scores, weights and points are exact reals, so the `||0` fallbacks are not modelled. Floating-point rounding is not modelled either.
- The UI state other than the peer-point form: the selected student (App.tsx:131) and the inputs that edit it, and React's update batching. The form `temp` (App.tsx:134) is modelled as `PeerForm`. The inline level handlers read the rendered `state`, not the updater's `prev`; the model applies each update to the current document.
- Optional fields set to `undefined` versus `""`: every read of them tests truthiness, so `""` stands for both. A `Partial<Criterion>` patch whose key is present but holds `undefined` is modelled as that key being absent.
- Criterion descriptors, keyed by level name, are carried as data and displayed only. `RenameLevelDetachesCells` shows the consequence of name keys for cells. The analogous staleness of descriptors is not stated.
- Store.SetEvaluation: the model's cell stores `Some(value)` for a channel. The value `null`, which the UI never writes, is not a distinct case. `LevelScore` treats `""` and absent alike.
- Scoring.ComputeStudentSummary: `percent` is not divided by `weightSum`, following the code (App.tsx:111). `TotalWithinRange` proves that with non-negative scores and weights, and both the channel and the criterion weights summing to 100, the pre-bonus total lies in [0, 100] and is the result when the modifier is off; otherwise only the clamp keeps the result in range.
- vite.config.ts: build configuration only.
