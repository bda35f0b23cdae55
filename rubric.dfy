/** The rubric document: achievement levels, channel weights, the roster, the
    weighted criteria, the evaluation cells and the peer-point ledger
    (App.tsx:3-19). Every number is an exact `real`. An optional text field
    (`team`, `dimension`, `evidence`, `comment`) is a `string` whose empty value
    stands for "absent": each place that reads one tests it for truthiness, so
    `undefined` and `''` behave alike. A channel's level name is an `Option`,
    because the level lookup treats `null`, `undefined` and `''` alike but a
    cell may hold any of them. */
module Rubric {
  import opened Wrappers

  datatype Level = Level(id: string, name: string, score: real)

  datatype Student = Student(id: string, name: string, team: string)

  datatype Criterion = Criterion(
    id: string,
    name: string,
    dimension: string,
    weight: real,                      // percent share of the final score
    descriptors: map<string, string>)  // keyed by level NAME

  /** Percent weight of each evaluation channel. */
  datatype Weights = Weights(auto: real, peer: real, teacher: real)

  /** One student's marks against one criterion: the level name chosen in each
      channel, plus free text. */
  datatype EvalCell = EvalCell(
    auto: Option<string>,
    peer: Option<string>,
    teacher: Option<string>,
    evidence: string,
    comment: string)

  /** The cell `{}` the source substitutes for a missing one. */
  const EmptyCell := EvalCell(None, None, None, "", "")

  /** studentId -> criterionId -> cell; sparse. */
  type Evaluations = map<string, map<string, EvalCell>>

  datatype Course = Course(name: string, context: string)

  datatype PeerPointsConfig = PeerPointsConfig(
    pointsToDistribute: real,
    applyAsTeamworkModifier: bool,
    maxBonusPct: real)

  /** Points awarded by one team member to another. */
  datatype PeerPoint = PeerPoint(
    id: string,
    team: string,
    evaluatorId: string,
    evaluatedId: string,
    points: real,
    note: string)

  datatype State = State(
    course: Course,
    levels: seq<Level>,
    weights: Weights,
    students: seq<Student>,
    criteria: seq<Criterion>,
    evaluations: Evaluations,
    peerPointsConfig: PeerPointsConfig,
    peerPoints: seq<PeerPoint>)

  /** `evaluations[studentId] || {}` */
  function EvalsOf(evaluations: Evaluations, studentId: string): map<string, EvalCell>
  {
    if studentId in evaluations then evaluations[studentId] else map[]
  }

  /** `evalByStudent[criterionId] || {}` */
  function CellOf(byStudent: map<string, EvalCell>, criterionId: string): EvalCell
  {
    if criterionId in byStudent then byStudent[criterionId] else EmptyCell
  }
}
