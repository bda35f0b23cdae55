/** Three worked cases of the scoring engine: a two-level scale with every
    weight on the teacher channel and one criterion of weight 100, marked at
    the top level and at the bottom level, and the teamwork bonus of a student
    who received more than their share of peer points. */
module WorkedCases {
  import opened Wrappers
  import opened Sequences
  import opened Rubric
  import opened Scoring

  const TwoLevels := [Level("l1", "Inicial", 1.0), Level("l4", "Avanzado", 4.0)]

  const OneCriterion := [Criterion("c1", "Solución", "", 100.0, map[])]

  /** A document in which student `s1` has only a teacher mark `level` on the
      single criterion. */
  function TeacherMarked(level: string): State
  {
    State(Course("curso", ""), TwoLevels, Weights(0.0, 0.0, 100.0),
          [Student("s1", "Ana", "")], OneCriterion,
          map["s1" := map["c1" := EmptyCell.(teacher := Some(level))]],
          PeerPointsConfig(10.0, false, 10.0), [])
  }

  /** The scale's maximum is 4; "Inicial" resolves to 1 and "Avanzado" to 4. */
  lemma TwoLevelsResolve()
    ensures MaxLevelScore(TwoLevels) == 4.0
    ensures LevelScore(TwoLevels, Some("Inicial")) == Some(1.0)
    ensures LevelScore(TwoLevels, Some("Avanzado")) == Some(4.0)
  {
    assert TwoLevels[1..][1..] == [];
    assert TwoLevels[1..][0] == TwoLevels[1];
    assert !NamedLevel("Avanzado")(TwoLevels[0]);
  }

  lemma OneCriterionWeighs100()
    ensures CriteriaWeightSum(OneCriterion) == 100.0
  {
    assert OneCriterion[..0] == [];
    assert CriteriaWeightSum(OneCriterion[..0]) == 0.0;
  }

  /** With only a teacher mark of score `sc`, the total is that mark's share
      of the maximum 4, and without the modifier the summary is that total. */
  lemma TeacherMarkedSummary(level: string, sc: real)
    requires LevelScore(TwoLevels, Some(level)) == Some(sc)
    ensures StudentSummaryOf(TeacherMarked(level), "s1") == Summary(100.0, Clamp(sc / 4.0 * 100.0))
  {
    var s := TeacherMarked(level);
    TwoLevelsResolve();
    var byStudent := EvalsOf(s.evaluations, "s1");
    assert CellOf(byStudent, "c1").teacher == Some(level);
    assert ChannelSum(s, byStudent, OneCriterion[0]) == sc / 4.0 * 100.0;
    PieceUnfold(s, byStudent, OneCriterion[0]);
    assert Piece(s, byStudent, OneCriterion[0]) == sc / 4.0 * 100.0;
    assert OneCriterion[..0] == [];
    assert SumPieces(s, byStudent, OneCriterion[..0]) == 0.0;
    assert PreBonusTotal(s, "s1") == sc / 4.0 * 100.0;
    assert BonusTeam(s, "s1") == None;
    OneCriterionWeighs100();
  }

  /** Marked at the top level: (100/100) * (4/4 * 100) = 100. */
  lemma TopLevelScoresHundred()
    ensures StudentSummaryOf(TeacherMarked("Avanzado"), "s1") == Summary(100.0, 100.0)
  {
    TwoLevelsResolve();
    TeacherMarkedSummary("Avanzado", 4.0);
  }

  /** Marked at the bottom level: (100/100) * (1/4 * 100) = 25. */
  lemma BottomLevelScoresQuarter()
    ensures StudentSummaryOf(TeacherMarked("Inicial"), "s1") == Summary(100.0, 25.0)
  {
    TwoLevelsResolve();
    TeacherMarkedSummary("Inicial", 1.0);
  }

  /** Two teammates; `s2` gave `s1` 15 points out of the 10 each evaluator
      distributes, with the modifier on and a 10% cap. `s1` holds peer and
      teacher marks at the top level and no self-assessment, so the channels
      give 30 + 50 = 80 before the bonus. */
  const Ledger := [PeerPoint("p1", "Equipo A", "s2", "s1", 15.0, "")]

  function Teammates(): State
  {
    State(Course("curso", ""), TwoLevels, Weights(20.0, 30.0, 50.0),
          [Student("s1", "Ana", "Equipo A"), Student("s2", "Luis", "Equipo A")], OneCriterion,
          map["s1" := map["c1" := EmptyCell.(peer := Some("Avanzado"), teacher := Some("Avanzado"))]],
          PeerPointsConfig(10.0, true, 10.0), Ledger)
  }

  /** 15/10 is capped at 1.5, so a pre-bonus 80 earns 80 * 0.10 * 0.5 = 4 and
      ends at 84. */
  lemma CappedBonusOnEighty()
    ensures Ratio(Teammates().peerPointsConfig, Received(Ledger, "Equipo A", "s1")) == 1.5
    ensures Bonus(Teammates(), "s1", 80.0) == 4.0
    ensures Clamp(80.0 + Bonus(Teammates(), "s1", 80.0)) == 84.0
  {
    var s := Teammates();
    assert Find(s.students, HasId("s1")) == Some(Student("s1", "Ana", "Equipo A"));
    assert BonusTeam(s, "s1") == Some("Equipo A");
    assert Ledger[1..] == [];
    assert Received(Ledger, "Equipo A", "s1") == Ledger;
    assert (set r | r in Ledger :: r.evaluatorId) == {"s2"};
    assert EvaluatorsCount(Ledger) == 1;
    assert PointsSum(Ledger) == 15.0 by {
      assert Ledger[..0] == [];
    }
    assert Denom(s.peerPointsConfig, Ledger) == 10.0;
  }

  /** The same case carried through the engine: the channels give 80, the
      capped bonus adds 4, and the summary is 84. */
  lemma TeammateEndsAtEightyFour()
    ensures PreBonusTotal(Teammates(), "s1") == 80.0
    ensures StudentSummaryOf(Teammates(), "s1") == Summary(100.0, 84.0)
  {
    var s := Teammates();
    TwoLevelsResolve();
    var byStudent := EvalsOf(s.evaluations, "s1");
    var ev := CellOf(byStudent, "c1");
    assert ev.auto == None && ev.peer == Some("Avanzado") && ev.teacher == Some("Avanzado");
    assert ChannelSum(s, byStudent, OneCriterion[0]) == 80.0;
    PieceUnfold(s, byStudent, OneCriterion[0]);
    assert Piece(s, byStudent, OneCriterion[0]) == 80.0;
    assert OneCriterion[..0] == [];
    assert SumPieces(s, byStudent, OneCriterion[..0]) == 0.0;
    assert PreBonusTotal(s, "s1") == 80.0;
    CappedBonusOnEighty();
    OneCriterionWeighs100();
  }
}
