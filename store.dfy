/** The document mutators behind the editor (App.tsx:136-169 and the inline
    handlers at App.tsx:222-226 and 246-254), the level-removal guard
    (App.tsx:224) and the peer-point entry form (App.tsx:391-398). Each mutator
    is a pure update returning a new document; ids that the source draws from
    `uid()` are parameters. */
module Store {
  import opened Wrappers
  import opened Sequences
  import opened Rubric
  import opened Scoring

  // ---------------------------------------------------------------------------
  // Course
  // ---------------------------------------------------------------------------

  datatype CourseField = CourseName | CourseContext

  /** `updateCourse`: sets one course field. */
  function UpdateCourse(s: State, field: CourseField, value: string): (r: State)
    ensures r.course.name == (if field == CourseName then value else s.course.name)
    ensures r.course.context == (if field == CourseContext then value else s.course.context)
    ensures r.(course := s.course) == s
  {
    match field
    case CourseName => s.(course := s.course.(name := value))
    case CourseContext => s.(course := s.course.(context := value))
  }

  // ---------------------------------------------------------------------------
  // Students
  // ---------------------------------------------------------------------------

  datatype StudentField = StudentName | StudentTeam

  /** `addStudent`: appends a blank student under the fresh id `newId`. */
  function AddStudent(s: State, newId: string): (r: State)
    ensures r.students == s.students + [Student(newId, "", "")]
    ensures r.(students := s.students) == s
  {
    s.(students := s.students + [Student(newId, "", "")])
  }

  /** `{ ...st, [field]: value }` */
  function WithStudentField(st: Student, field: StudentField, value: string): (r: Student)
    ensures r.id == st.id
    ensures r.name == (if field == StudentName then value else st.name)
    ensures r.team == (if field == StudentTeam then value else st.team)
  {
    match field
    case StudentName => st.(name := value)
    case StudentTeam => st.(team := value)
  }

  /** `updateStudent`: sets one field of every student carrying `id`; the
      roster keeps its length, its order and its ids. */
  function UpdateStudent(s: State, id: string, field: StudentField, value: string): (r: State)
    ensures |r.students| == |s.students|
    ensures forall i :: 0 <= i < |s.students| && s.students[i].id == id ==>
      r.students[i] == WithStudentField(s.students[i], field, value)
    ensures forall i :: 0 <= i < |s.students| && s.students[i].id != id ==> r.students[i] == s.students[i]
    ensures r.(students := s.students) == s
  {
    s.(students := UpdateWhere(s.students, (st: Student) => st.id, id,
                               (st: Student) => WithStudentField(st, field, value)))
  }

  function OtherStudent(id: string): Student -> bool { (st: Student) => st.id != id }

  /** `removeStudent`: the roster without the students carrying `id`. */
  function RemoveStudent(s: State, id: string): (r: State)
    ensures r.(students := s.students) == s
  {
    s.(students := Filter(s.students, OtherStudent(id)))
  }

  /** Removal drops exactly the students carrying `id`, keeps every other
      student as often as before and in order, and leaves the evaluations and
      the peer-point ledger as they were. */
  lemma RemoveStudentSpec(s: State, id: string)
    ensures forall st :: st in RemoveStudent(s, id).students <==> st in s.students && st.id != id
    ensures forall st :: multiset(RemoveStudent(s, id).students)[st] ==
              if st.id != id then multiset(s.students)[st] else 0
    ensures IsSubsequence(RemoveStudent(s, id).students, s.students)
    ensures RemoveStudent(s, id).evaluations == s.evaluations
    ensures RemoveStudent(s, id).peerPoints == s.peerPoints
  {
    FilterSpec(s.students, OtherStudent(id));
  }

  lemma RemoveStudentIdempotent(s: State, id: string)
    ensures RemoveStudent(RemoveStudent(s, id), id) == RemoveStudent(s, id)
  {
    FilterIdempotent(s.students, OtherStudent(id));
  }

  /** A newly added student has no evaluation entry (unless a stale one was
      left under the same id) and so scores 0. */
  lemma AddedStudentScoresZero(s: State, newId: string)
    requires newId !in s.evaluations
    ensures StudentSummaryOf(AddStudent(s, newId), newId).percent == 0.0
  {
    UnevaluatedStudentScoresZero(AddStudent(s, newId), newId);
  }

  // ---------------------------------------------------------------------------
  // Criteria
  // ---------------------------------------------------------------------------

  /** `addCriterion`: appends a blank criterion of weight 0. */
  function AddCriterion(s: State, newId: string): (r: State)
    ensures r.criteria == s.criteria + [Criterion(newId, "", "", 0.0, map[])]
    ensures r.(criteria := s.criteria) == s
  {
    s.(criteria := s.criteria + [Criterion(newId, "", "", 0.0, map[])])
  }

  /** A `Partial<Criterion>`: each present field replaces the criterion's. */
  datatype CriterionPatch = CriterionPatch(
    id: Option<string>,
    name: Option<string>,
    dimension: Option<string>,
    weight: Option<real>,
    descriptors: Option<map<string, string>>)

  /** `{ ...c, ...patch }` */
  function Patched(c: Criterion, patch: CriterionPatch): (r: Criterion)
    ensures r.id == patch.id.GetOr(c.id) && r.name == patch.name.GetOr(c.name)
    ensures r.dimension == patch.dimension.GetOr(c.dimension) && r.weight == patch.weight.GetOr(c.weight)
    ensures r.descriptors == patch.descriptors.GetOr(c.descriptors)
  {
    Criterion(patch.id.GetOr(c.id), patch.name.GetOr(c.name), patch.dimension.GetOr(c.dimension),
              patch.weight.GetOr(c.weight), patch.descriptors.GetOr(c.descriptors))
  }

  /** `updateCriterion`: patches every criterion carrying `id`; the others and
      the order are kept. */
  function UpdateCriterion(s: State, id: string, patch: CriterionPatch): (r: State)
    ensures |r.criteria| == |s.criteria|
    ensures forall i :: 0 <= i < |s.criteria| && s.criteria[i].id == id ==> r.criteria[i] == Patched(s.criteria[i], patch)
    ensures forall i :: 0 <= i < |s.criteria| && s.criteria[i].id != id ==> r.criteria[i] == s.criteria[i]
    ensures r.(criteria := s.criteria) == s
  {
    s.(criteria := UpdateWhere(s.criteria, (c: Criterion) => c.id, id, (c: Criterion) => Patched(c, patch)))
  }

  function OtherCriterion(id: string): Criterion -> bool { (c: Criterion) => c.id != id }

  /** `removeCriterion`: the criteria without those carrying `id`. */
  function RemoveCriterion(s: State, id: string): (r: State)
    ensures r.(criteria := s.criteria) == s
  {
    s.(criteria := Filter(s.criteria, OtherCriterion(id)))
  }

  /** Removal drops exactly the criteria carrying `id` and keeps every other
      criterion as often as before and in order. */
  lemma RemoveCriterionSpec(s: State, id: string)
    ensures forall c :: c in RemoveCriterion(s, id).criteria <==> c in s.criteria && c.id != id
    ensures forall c :: multiset(RemoveCriterion(s, id).criteria)[c] ==
              if c.id != id then multiset(s.criteria)[c] else 0
    ensures IsSubsequence(RemoveCriterion(s, id).criteria, s.criteria)
  {
    FilterSpec(s.criteria, OtherCriterion(id));
  }

  /** Criterion ids are pairwise distinct, as `uid()` makes them. */
  predicate UniqueCriterionIds(criteria: seq<Criterion>)
  {
    forall i, j :: 0 <= i < j < |criteria| ==> criteria[i].id != criteria[j].id
  }

  /** Re-weighting one criterion moves the weight sum by exactly the change in
      its weight. */
  lemma ReweightShiftsWeightSum(s: State, k: nat, w: real)
    requires k < |s.criteria| && UniqueCriterionIds(s.criteria)
    ensures CriteriaWeightSum(UpdateCriterion(s, s.criteria[k].id, CriterionPatch(None, None, None, Some(w), None)).criteria) ==
            CriteriaWeightSum(s.criteria) - s.criteria[k].weight + w
  {
    var r := UpdateCriterion(s, s.criteria[k].id, CriterionPatch(None, None, None, Some(w), None));
    WeightSumOneChanged(s.criteria, r.criteria, k);
  }

  lemma {:induction false} WeightSumOneChanged(cs: seq<Criterion>, ds: seq<Criterion>, k: nat)
    requires |cs| == |ds| && k < |cs|
    requires forall i :: 0 <= i < |cs| && i != k ==> ds[i].weight == cs[i].weight
    ensures CriteriaWeightSum(ds) == CriteriaWeightSum(cs) - cs[k].weight + ds[k].weight
  {
    var n := |cs| - 1;
    if k == n {
      WeightSumAgree(cs[..n], ds[..n]);
    } else {
      WeightSumOneChanged(cs[..n], ds[..n], k);
    }
  }

  lemma {:induction false} WeightSumAgree(cs: seq<Criterion>, ds: seq<Criterion>)
    requires |cs| == |ds|
    requires forall i :: 0 <= i < |cs| ==> ds[i].weight == cs[i].weight
    ensures CriteriaWeightSum(ds) == CriteriaWeightSum(cs)
  {
    if |cs| > 0 {
      WeightSumAgree(cs[..|cs| - 1], ds[..|ds| - 1]);
    }
  }

  // ---------------------------------------------------------------------------
  // Channel weights and levels
  // ---------------------------------------------------------------------------

  /** A `Partial<Weights>`. */
  datatype WeightsPatch = WeightsPatch(auto: Option<real>, peer: Option<real>, teacher: Option<real>)

  /** `setWeights`: each weight the patch carries replaces the old one. */
  function SetWeights(s: State, patch: WeightsPatch): (r: State)
    ensures r.weights.auto == patch.auto.GetOr(s.weights.auto)
    ensures r.weights.peer == patch.peer.GetOr(s.weights.peer)
    ensures r.weights.teacher == patch.teacher.GetOr(s.weights.teacher)
    ensures r.(weights := s.weights) == s
  {
    s.(weights := Weights(patch.auto.GetOr(s.weights.auto), patch.peer.GetOr(s.weights.peer),
                          patch.teacher.GetOr(s.weights.teacher)))
  }

  /** `setLevels`: replaces the level list. */
  function SetLevels(s: State, newLevels: seq<Level>): (r: State)
    ensures r.levels == newLevels
    ensures r.(levels := s.levels) == s
  {
    s.(levels := newLevels)
  }

  /** Renaming a level from the level editor: every level carrying `id` gets
      the new name. */
  function RenameLevel(s: State, id: string, name: string): (r: State)
    ensures |r.levels| == |s.levels|
    ensures forall i :: 0 <= i < |s.levels| ==>
      r.levels[i] == if s.levels[i].id == id then s.levels[i].(name := name) else s.levels[i]
    ensures r.(levels := s.levels) == s
  {
    SetLevels(s, UpdateWhere(s.levels, (l: Level) => l.id, id, (l: Level) => l.(name := name)))
  }

  /** Re-scoring a level from the level editor. */
  function SetLevelScore(s: State, id: string, score: real): (r: State)
    ensures |r.levels| == |s.levels|
    ensures forall i :: 0 <= i < |s.levels| ==>
      r.levels[i] == if s.levels[i].id == id then s.levels[i].(score := score) else s.levels[i]
    ensures r.(levels := s.levels) == s
  {
    SetLevels(s, UpdateWhere(s.levels, (l: Level) => l.id, id, (l: Level) => l.(score := score)))
  }

  /** Cells and descriptors name levels by name, so renaming the only level
      called `oldName` leaves every cell that chose `oldName` resolving to no
      level: its marks silently stop counting. */
  lemma RenameLevelDetachesCells(s: State, id: string, newName: string, oldName: string)
    requires oldName != "" && newName != oldName
    requires forall i :: 0 <= i < |s.levels| && s.levels[i].name == oldName ==> s.levels[i].id == id
    ensures LevelScore(RenameLevel(s, id, newName).levels, Some(oldName)).None?
  {
    LevelScoreSpec(RenameLevel(s, id, newName).levels, Some(oldName));
  }

  /** "Añadir nivel": appends a nameless level of score 0. */
  function AddLevel(s: State, newId: string): (r: State)
    ensures r.levels == s.levels + [Level(newId, "", 0.0)]
    ensures r.(levels := s.levels) == s
  {
    SetLevels(s, s.levels + [Level(newId, "", 0.0)])
  }

  function OtherLevel(id: string): Level -> bool { (l: Level) => l.id != id }

  /** The "Eliminar" button of a level is disabled while two levels or fewer
      remain. */
  predicate CanRemoveLevel(s: State)
  {
    |s.levels| > 2
  }

  /** Level removal behind its guard: with two levels or fewer nothing
      happens, otherwise the levels carrying `id` are dropped. */
  function RemoveLevel(s: State, id: string): (r: State)
    ensures !CanRemoveLevel(s) ==> r == s
    ensures r.(levels := s.levels) == s
  {
    if !CanRemoveLevel(s) then s else SetLevels(s, Filter(s.levels, OtherLevel(id)))
  }

  /** Level ids are pairwise distinct, as `uid()` makes them. */
  predicate UniqueLevelIds(levels: seq<Level>)
  {
    forall i, j :: 0 <= i < j < |levels| ==> levels[i].id != levels[j].id
  }

  /** With distinct level ids, guarded removal drops at most one level, so a
      document with at least two levels keeps at least two; the dropped level
      is exactly the one carrying `id`. */
  lemma RemoveLevelKeepsTwo(s: State, id: string)
    requires |s.levels| >= 2 && UniqueLevelIds(s.levels)
    ensures |RemoveLevel(s, id).levels| >= 2
    ensures forall l :: l in RemoveLevel(s, id).levels ==> l in s.levels
    ensures CanRemoveLevel(s) ==> forall l :: l in RemoveLevel(s, id).levels <==> l in s.levels && l.id != id
  {
    if CanRemoveLevel(s) {
      FilterSpec(s.levels, OtherLevel(id));
      FilterDropsAtMostOne(s.levels, OtherLevel(id));
    }
  }

  /** Enabled removal drops exactly the levels carrying `id` and keeps every
      other level as often as before and in order, so first-match lookups of
      the kept names are decided as before. */
  lemma RemoveLevelSpec(s: State, id: string)
    requires CanRemoveLevel(s)
    ensures forall l :: l in RemoveLevel(s, id).levels <==> l in s.levels && l.id != id
    ensures forall l :: multiset(RemoveLevel(s, id).levels)[l] == if l.id != id then multiset(s.levels)[l] else 0
    ensures IsSubsequence(RemoveLevel(s, id).levels, s.levels)
  {
    FilterSpec(s.levels, OtherLevel(id));
  }

  // ---------------------------------------------------------------------------
  // Evaluation cells
  // ---------------------------------------------------------------------------

  /** `keyof EvalCell` */
  datatype CellField = AutoLevel | PeerLevel | TeacherLevel | Evidence | Comment

  /** `{ ...cell, [field]: value }`: a channel field stores the chosen level
      name (the empty "— Selecciona —" choice included), a text field the
      text. */
  function SetCellField(cell: EvalCell, field: CellField, value: string): (r: EvalCell)
    ensures r.auto == (if field == AutoLevel then Some(value) else cell.auto)
    ensures r.peer == (if field == PeerLevel then Some(value) else cell.peer)
    ensures r.teacher == (if field == TeacherLevel then Some(value) else cell.teacher)
    ensures r.evidence == (if field == Evidence then value else cell.evidence)
    ensures r.comment == (if field == Comment then value else cell.comment)
  {
    match field
    case AutoLevel => cell.(auto := Some(value))
    case PeerLevel => cell.(peer := Some(value))
    case TeacherLevel => cell.(teacher := Some(value))
    case Evidence => cell.(evidence := value)
    case Comment => cell.(comment := value)
  }

  /** `setEvaluation`: writes one field of cell (studentId, criterionId)
      (see `SetEvaluationSpec`). */
  function SetEvaluation(s: State, studentId: string, criterionId: string, field: CellField, value: string): State
  {
    s.(evaluations := s.evaluations[studentId := WithCell(EvalsOf(s.evaluations, studentId), criterionId, field, value)])
  }

  /** One student's cells with one field of one cell written. */
  function WithCell(byStudent: map<string, EvalCell>, criterionId: string, field: CellField, value: string): map<string, EvalCell>
  {
    byStudent[criterionId := SetCellField(CellOf(byStudent, criterionId), field, value)]
  }

  /** The write creates the student's map and the cell when missing, changes
      only the given field of that cell, and leaves every other cell, every
      other student and the rest of the document as they were. */
  lemma SetEvaluationSpec(s: State, studentId: string, criterionId: string, field: CellField, value: string)
    ensures var r := SetEvaluation(s, studentId, criterionId, field, value);
      && studentId in r.evaluations && criterionId in r.evaluations[studentId]
      && r.evaluations[studentId][criterionId] ==
           SetCellField(CellOf(EvalsOf(s.evaluations, studentId), criterionId), field, value)
      && r.evaluations.Keys == s.evaluations.Keys + {studentId}
      && r.evaluations[studentId].Keys == EvalsOf(s.evaluations, studentId).Keys + {criterionId}
      && (forall sid :: sid in s.evaluations && sid != studentId ==> r.evaluations[sid] == s.evaluations[sid])
      && (forall cid :: cid in EvalsOf(s.evaluations, studentId) && cid != criterionId ==>
            r.evaluations[studentId][cid] == EvalsOf(s.evaluations, studentId)[cid])
      && r.(evaluations := s.evaluations) == s
  {
  }

  /** Writing the same field twice keeps only the second write. */
  lemma SetEvaluationLastWriteWins(s: State, studentId: string, criterionId: string, field: CellField, v1: string, v2: string)
    ensures SetEvaluation(SetEvaluation(s, studentId, criterionId, field, v1), studentId, criterionId, field, v2) ==
            SetEvaluation(s, studentId, criterionId, field, v2)
  {
    var byStudent := EvalsOf(s.evaluations, studentId);
    var t := SetEvaluation(s, studentId, criterionId, field, v1);
    assert EvalsOf(t.evaluations, studentId) == WithCell(byStudent, criterionId, field, v1);
    WithCellOverwrite(byStudent, criterionId, field, v1, v2);
  }

  lemma WithCellOverwrite(byStudent: map<string, EvalCell>, cid: string, field: CellField, v1: string, v2: string)
    ensures WithCell(WithCell(byStudent, cid, field, v1), cid, field, v2) == WithCell(byStudent, cid, field, v2)
  {
    WithCellTwice(byStudent, cid, field, v1, field, v2);
    assert SetCellField(SetCellField(CellOf(byStudent, cid), field, v1), field, v2) ==
           SetCellField(CellOf(byStudent, cid), field, v2);
  }

  /** Writes to different cells, or to different fields of one cell, commute. */
  lemma SetEvaluationCommutes(s: State, sid1: string, cid1: string, f1: CellField, v1: string,
                              sid2: string, cid2: string, f2: CellField, v2: string)
    requires sid1 != sid2 || cid1 != cid2 || f1 != f2
    ensures SetEvaluation(SetEvaluation(s, sid1, cid1, f1, v1), sid2, cid2, f2, v2) ==
            SetEvaluation(SetEvaluation(s, sid2, cid2, f2, v2), sid1, cid1, f1, v1)
  {
    if sid1 != sid2 {
      CommuteAcrossStudents(s, sid1, cid1, f1, v1, sid2, cid2, f2, v2);
    } else if cid1 != cid2 {
      CommuteAcrossCriteria(s, sid1, cid1, f1, v1, cid2, f2, v2);
    } else {
      CommuteAcrossFields(s, sid1, cid1, f1, v1, f2, v2);
    }
  }

  lemma CommuteAcrossStudents(s: State, sid1: string, cid1: string, f1: CellField, v1: string,
                              sid2: string, cid2: string, f2: CellField, v2: string)
    requires sid1 != sid2
    ensures SetEvaluation(SetEvaluation(s, sid1, cid1, f1, v1), sid2, cid2, f2, v2) ==
            SetEvaluation(SetEvaluation(s, sid2, cid2, f2, v2), sid1, cid1, f1, v1)
  {
    var w1 := WithCell(EvalsOf(s.evaluations, sid1), cid1, f1, v1);
    var w2 := WithCell(EvalsOf(s.evaluations, sid2), cid2, f2, v2);
    assert EvalsOf(s.evaluations[sid1 := w1], sid2) == EvalsOf(s.evaluations, sid2);
    assert EvalsOf(s.evaluations[sid2 := w2], sid1) == EvalsOf(s.evaluations, sid1);
    UpdatesCommute(s.evaluations, sid1, w1, sid2, w2);
  }

  lemma CommuteAcrossCriteria(s: State, sid: string, cid1: string, f1: CellField, v1: string,
                              cid2: string, f2: CellField, v2: string)
    requires cid1 != cid2
    ensures SetEvaluation(SetEvaluation(s, sid, cid1, f1, v1), sid, cid2, f2, v2) ==
            SetEvaluation(SetEvaluation(s, sid, cid2, f2, v2), sid, cid1, f1, v1)
  {
    var byStudent := EvalsOf(s.evaluations, sid);
    var s1 := SetEvaluation(s, sid, cid1, f1, v1);
    var s2 := SetEvaluation(s, sid, cid2, f2, v2);
    assert EvalsOf(s1.evaluations, sid) == WithCell(byStudent, cid1, f1, v1);
    assert EvalsOf(s2.evaluations, sid) == WithCell(byStudent, cid2, f2, v2);
    WithCellCommutes(byStudent, cid1, f1, v1, cid2, f2, v2);
  }

  lemma WithCellCommutes(byStudent: map<string, EvalCell>, cid1: string, f1: CellField, v1: string,
                         cid2: string, f2: CellField, v2: string)
    requires cid1 != cid2
    ensures WithCell(WithCell(byStudent, cid1, f1, v1), cid2, f2, v2) ==
            WithCell(WithCell(byStudent, cid2, f2, v2), cid1, f1, v1)
  {
    var x1 := SetCellField(CellOf(byStudent, cid1), f1, v1);
    var x2 := SetCellField(CellOf(byStudent, cid2), f2, v2);
    assert CellOf(byStudent[cid1 := x1], cid2) == CellOf(byStudent, cid2);
    assert CellOf(byStudent[cid2 := x2], cid1) == CellOf(byStudent, cid1);
    UpdatesCommute(byStudent, cid1, x1, cid2, x2);
  }

  /** Updates of a map at two different keys commute. */
  lemma UpdatesCommute<K, V>(m: map<K, V>, k1: K, x1: V, k2: K, x2: V)
    requires k1 != k2
    ensures m[k1 := x1][k2 := x2] == m[k2 := x2][k1 := x1]
  {
  }

  lemma CommuteAcrossFields(s: State, sid: string, cid: string, f1: CellField, v1: string, f2: CellField, v2: string)
    requires f1 != f2
    ensures SetEvaluation(SetEvaluation(s, sid, cid, f1, v1), sid, cid, f2, v2) ==
            SetEvaluation(SetEvaluation(s, sid, cid, f2, v2), sid, cid, f1, v1)
  {
    var byStudent := EvalsOf(s.evaluations, sid);
    assert EvalsOf(SetEvaluation(s, sid, cid, f1, v1).evaluations, sid) == WithCell(byStudent, cid, f1, v1);
    assert EvalsOf(SetEvaluation(s, sid, cid, f2, v2).evaluations, sid) == WithCell(byStudent, cid, f2, v2);
    WithCellTwice(byStudent, cid, f1, v1, f2, v2);
    WithCellTwice(byStudent, cid, f2, v2, f1, v1);
    SetCellFieldCommutes(CellOf(byStudent, cid), f1, v1, f2, v2);
  }

  /** Two writes to one cell: the cell is rewritten twice, starting from its
      old contents. */
  lemma WithCellTwice(byStudent: map<string, EvalCell>, cid: string, f1: CellField, v1: string, f2: CellField, v2: string)
    ensures WithCell(WithCell(byStudent, cid, f1, v1), cid, f2, v2) ==
            byStudent[cid := SetCellField(SetCellField(CellOf(byStudent, cid), f1, v1), f2, v2)]
  {
    var x1 := SetCellField(CellOf(byStudent, cid), f1, v1);
    assert CellOf(byStudent[cid := x1], cid) == x1;
  }

  lemma SetCellFieldCommutes(cell: EvalCell, f1: CellField, v1: string, f2: CellField, v2: string)
    requires f1 != f2
    ensures SetCellField(SetCellField(cell, f1, v1), f2, v2) == SetCellField(SetCellField(cell, f2, v2), f1, v1)
  {
  }

  /** Choosing the empty "— Selecciona —" entry in a channel makes that
      channel resolve to no level, so it contributes nothing. */
  lemma ClearedChannelHasNoScore(s: State, studentId: string, criterionId: string)
    ensures LevelScore(s.levels,
      CellOf(EvalsOf(SetEvaluation(s, studentId, criterionId, TeacherLevel, "").evaluations, studentId), criterionId).teacher).None?
    ensures LevelScore(s.levels,
      CellOf(EvalsOf(SetEvaluation(s, studentId, criterionId, PeerLevel, "").evaluations, studentId), criterionId).peer).None?
    ensures LevelScore(s.levels,
      CellOf(EvalsOf(SetEvaluation(s, studentId, criterionId, AutoLevel, "").evaluations, studentId), criterionId).auto).None?
  {
  }

  /** Marking one student leaves every other student's summary as it was. */
  lemma SetEvaluationKeepsOtherSummaries(s: State, studentId: string, criterionId: string, field: CellField,
                                         value: string, other: string)
    requires other != studentId
    ensures StudentSummaryOf(SetEvaluation(s, studentId, criterionId, field, value), other) ==
            StudentSummaryOf(s, other)
  {
    var r := SetEvaluation(s, studentId, criterionId, field, value);
    assert EvalsOf(r.evaluations, other) == EvalsOf(s.evaluations, other);
    forall i | 0 <= i < |s.criteria| {
      PieceOfLevelsAndWeights(r, s, EvalsOf(s.evaluations, other), s.criteria[i]);
    }
    SumPiecesAgree(r, s, EvalsOf(s.evaluations, other), s.criteria);
    assert Bonus(r, other, PreBonusTotal(s, other)) == Bonus(s, other, PreBonusTotal(s, other));
  }

  /** Adding a level leaves every summary unchanged: the new level has no name,
      so no cell resolves to it, and its score 0 cannot raise the maximum. */
  lemma AddLevelKeepsSummaries(s: State, newId: string, studentId: string)
    ensures StudentSummaryOf(AddLevel(s, newId), studentId) == StudentSummaryOf(s, studentId)
  {
    var r := AddLevel(s, newId);
    var byStudent := EvalsOf(s.evaluations, studentId);
    forall i | 0 <= i < |s.criteria| {
      AddLevelKeepsPiece(s, newId, byStudent, s.criteria[i]);
    }
    SumPiecesAgree(r, s, byStudent, s.criteria);
    assert Bonus(r, studentId, PreBonusTotal(s, studentId)) == Bonus(s, studentId, PreBonusTotal(s, studentId));
  }

  lemma AddLevelKeepsPiece(s: State, newId: string, byStudent: map<string, EvalCell>, c: Criterion)
    ensures Piece(AddLevel(s, newId), byStudent, c) == Piece(s, byStudent, c)
  {
    var r := AddLevel(s, newId);
    var lv := Level(newId, "", 0.0);
    MaxFromAppend(0.0, s.levels, lv);
    assert MaxLevelScore(r.levels) == MaxLevelScore(s.levels);
    var ev := CellOf(byStudent, c.id);
    NamelessLevelNeverMatches(s.levels, lv, ev.auto);
    NamelessLevelNeverMatches(s.levels, lv, ev.peer);
    NamelessLevelNeverMatches(s.levels, lv, ev.teacher);
    assert ChannelSum(r, byStudent, c) == ChannelSum(s, byStudent, c);
  }

  /** A level with an empty name appended to the list changes no lookup. */
  lemma NamelessLevelNeverMatches(levels: seq<Level>, lv: Level, name: Option<string>)
    requires lv.name == ""
    ensures LevelScore(levels + [lv], name) == LevelScore(levels, name)
  {
    if name.Some? && name.value != "" {
      FindAppend(levels, lv, NamedLevel(name.value));
    }
  }

  // ---------------------------------------------------------------------------
  // Peer points
  // ---------------------------------------------------------------------------

  /** `addPeerPoint`: appends one record under the fresh id `newId`. */
  function AddPeerPoint(s: State, newId: string, team: string, evaluatorId: string, evaluatedId: string,
                        points: real, note: string): (r: State)
    ensures r.peerPoints == s.peerPoints + [PeerPoint(newId, team, evaluatorId, evaluatedId, points, note)]
    ensures r.(peerPoints := s.peerPoints) == s
  {
    s.(peerPoints := s.peerPoints + [PeerPoint(newId, team, evaluatorId, evaluatedId, points, note)])
  }

  function OtherPeerPoint(id: string): PeerPoint -> bool { (pp: PeerPoint) => pp.id != id }

  /** `removePeerPoint`: the ledger without the records carrying `id`. */
  function RemovePeerPoint(s: State, id: string): (r: State)
    ensures r.(peerPoints := s.peerPoints) == s
  {
    s.(peerPoints := Filter(s.peerPoints, OtherPeerPoint(id)))
  }

  /** Removal drops exactly the records carrying `id` and keeps the others as
      often as before and in order. */
  lemma RemovePeerPointSpec(s: State, id: string)
    ensures forall pp :: pp in RemovePeerPoint(s, id).peerPoints <==> pp in s.peerPoints && pp.id != id
    ensures forall pp :: multiset(RemovePeerPoint(s, id).peerPoints)[pp] ==
              if pp.id != id then multiset(s.peerPoints)[pp] else 0
    ensures IsSubsequence(RemovePeerPoint(s, id).peerPoints, s.peerPoints)
  {
    FilterSpec(s.peerPoints, OtherPeerPoint(id));
  }

  /** The three peer-point settings edited in place (App.tsx:246-254). */
  datatype ConfigEdit = SetPointsToDistribute(points: real) | SetMaxBonusPct(pct: real) | SetApplyModifier(on: bool)

  function EditPeerPointsConfig(s: State, edit: ConfigEdit): (r: State)
    ensures r.peerPointsConfig.pointsToDistribute ==
      (if edit.SetPointsToDistribute? then edit.points else s.peerPointsConfig.pointsToDistribute)
    ensures r.peerPointsConfig.maxBonusPct ==
      (if edit.SetMaxBonusPct? then edit.pct else s.peerPointsConfig.maxBonusPct)
    ensures r.peerPointsConfig.applyAsTeamworkModifier ==
      (if edit.SetApplyModifier? then edit.on else s.peerPointsConfig.applyAsTeamworkModifier)
    ensures r.(peerPointsConfig := s.peerPointsConfig) == s
  {
    match edit
    case SetPointsToDistribute(p) => s.(peerPointsConfig := s.peerPointsConfig.(pointsToDistribute := p))
    case SetMaxBonusPct(p) => s.(peerPointsConfig := s.peerPointsConfig.(maxBonusPct := p))
    case SetApplyModifier(on) => s.(peerPointsConfig := s.peerPointsConfig.(applyAsTeamworkModifier := on))
  }

  /** Switching the modifier off leaves every student the clamped total of the
      pieces. */
  lemma ModifierOffScoresPiecesOnly(s: State, studentId: string)
    ensures StudentSummaryOf(EditPeerPointsConfig(s, SetApplyModifier(false)), studentId).percent ==
            Clamp(PreBonusTotal(s, studentId))
  {
    var r := EditPeerPointsConfig(s, SetApplyModifier(false));
    forall i | 0 <= i < |s.criteria| {
      PieceOfLevelsAndWeights(r, s, EvalsOf(s.evaluations, studentId), s.criteria[i]);
    }
    SumPiecesAgree(r, s, EvalsOf(s.evaluations, studentId), s.criteria);
  }

  // ---------------------------------------------------------------------------
  // The peer-point entry form
  // ---------------------------------------------------------------------------

  /** The form's current contents: a selected evaluator and evaluated student,
      the points typed (`None` before anything is typed) and the note. A selection is `None`
      before anything was chosen and `Some("")` once "—" is chosen again; `""`
      is looked up like any other id. */
  datatype PeerForm = PeerForm(evaluatorId: Option<string>, evaluatedId: Option<string>, points: Option<real>, note: string)

  const EmptyForm := PeerForm(None, None, None, "")

  /** The three alerts the form can raise, in the order it checks them. */
  datatype Alert = MissingSelection | NotSameTeam | SelfAward

  datatype Submission = Submission(state: State, form: PeerForm, alert: Option<Alert>)

  /** `state.students.find(s => s.id === id)` */
  function Resolve(students: seq<Student>, id: Option<string>): Option<Student>
  {
    if id.None? then None else Find(students, HasId(id.value))
  }

  /** The "Agregar" handler: rejected with an alert (document and form left as
      they are) when either selection does not resolve, when the teams are
      empty or differ, or when a student would award themselves; otherwise
      exactly one record is appended and the form is cleared. */
  function SubmitPeerPoint(s: State, form: PeerForm, newId: string): (r: Submission)
    ensures r.alert.Some? ==> r.state == s && r.form == form
    ensures r.alert.None? ==> r.form == EmptyForm && |r.state.peerPoints| == |s.peerPoints| + 1 &&
                              r.state.(peerPoints := s.peerPoints) == s
  {
    var ev := Resolve(s.students, form.evaluatorId);
    var ed := Resolve(s.students, form.evaluatedId);
    if ev.None? || ed.None? then Submission(s, form, Some(MissingSelection))
    else if ev.value.team == "" || ed.value.team == "" || ev.value.team != ed.value.team then
      Submission(s, form, Some(NotSameTeam))
    else if ev.value.id == ed.value.id then Submission(s, form, Some(SelfAward))
    else
      Submission(AddPeerPoint(s, newId, ev.value.team, ev.value.id, ed.value.id, form.points.GetOr(0.0), form.note),
                 EmptyForm, None)
  }

  /** A selection resolves exactly when it names some roster entry; it then
      resolves to the first entry carrying that id. */
  lemma ResolveSpec(students: seq<Student>, id: Option<string>)
    ensures Resolve(students, id).None? <==>
      id.None? || forall i :: 0 <= i < |students| ==> students[i].id != id.value
    ensures Resolve(students, id).Some? ==>
      exists i :: 0 <= i < |students| && students[i] == Resolve(students, id).value && students[i].id == id.value &&
                  forall j :: 0 <= j < i ==> students[j].id != id.value
  {
    if id.Some? {
      FindSpec(students, HasId(id.value));
    }
  }

  /** The first alert is raised exactly when a selection is missing or names
      no roster entry. */
  lemma SubmitMissingSelection(s: State, form: PeerForm, newId: string)
    ensures SubmitPeerPoint(s, form, newId).alert == Some(MissingSelection) <==>
      form.evaluatorId.None? || form.evaluatedId.None? ||
      (forall i :: 0 <= i < |s.students| ==> s.students[i].id != form.evaluatorId.value) ||
      (forall i :: 0 <= i < |s.students| ==> s.students[i].id != form.evaluatedId.value)
  {
    ResolveSpec(s.students, form.evaluatorId);
    ResolveSpec(s.students, form.evaluatedId);
  }

  /** Nobody can award points to themselves: the same selection twice is
      always rejected. */
  lemma SubmitRejectsSelfAward(s: State, form: PeerForm, newId: string)
    requires form.evaluatorId == form.evaluatedId
    ensures SubmitPeerPoint(s, form, newId).alert.Some?
    ensures SubmitPeerPoint(s, form, newId).state == s
  {
  }

  /** Every accepted entry records two distinct roster members of one
      non-empty team, with the evaluator's team, the ids selected and the
      points typed (0 when none). */
  lemma SubmitAcceptedRecord(s: State, form: PeerForm, newId: string)
    requires SubmitPeerPoint(s, form, newId).alert.None?
    ensures form.evaluatorId.Some? && form.evaluatedId.Some? && form.evaluatorId != form.evaluatedId
    ensures exists i, j ::
              0 <= i < |s.students| && 0 <= j < |s.students| &&
              s.students[i].id == form.evaluatorId.value && s.students[j].id == form.evaluatedId.value &&
              s.students[i].team != "" && s.students[i].team == s.students[j].team &&
              SubmitPeerPoint(s, form, newId).state.peerPoints ==
                s.peerPoints + [PeerPoint(newId, s.students[i].team, form.evaluatorId.value, form.evaluatedId.value,
                                          form.points.GetOr(0.0), form.note)]
  {
    ResolveSpec(s.students, form.evaluatorId);
    ResolveSpec(s.students, form.evaluatedId);
    var ev := Resolve(s.students, form.evaluatorId).value;
    var ed := Resolve(s.students, form.evaluatedId).value;
    var i :| 0 <= i < |s.students| && s.students[i] == ev && s.students[i].id == form.evaluatorId.value;
    var j :| 0 <= j < |s.students| && s.students[j] == ed && s.students[j].id == form.evaluatedId.value;
  }

  /** Student ids are pairwise distinct, as `uid()` makes them. */
  predicate UniqueStudentIds(students: seq<Student>)
  {
    forall i, j :: 0 <= i < j < |students| ==> students[i].id != students[j].id
  }

  /** Conversely, with distinct ids, selecting two different students of one
      non-empty team is always accepted. */
  lemma SubmitAcceptsTeammates(s: State, form: PeerForm, newId: string, i: nat, j: nat)
    requires UniqueStudentIds(s.students)
    requires i < |s.students| && j < |s.students| && i != j
    requires s.students[i].team != "" && s.students[i].team == s.students[j].team
    requires form.evaluatorId == Some(s.students[i].id) && form.evaluatedId == Some(s.students[j].id)
    ensures SubmitPeerPoint(s, form, newId).alert.None?
  {
    FindUnique(s.students, HasId(s.students[i].id), i);
    FindUnique(s.students, HasId(s.students[j].id), j);
  }

  /** With distinct ids, an entry between two students whose teams are empty
      or differ is always rejected and records nothing. */
  lemma SubmitRejectsCrossTeam(s: State, form: PeerForm, newId: string, i: nat, j: nat)
    requires UniqueStudentIds(s.students)
    requires i < |s.students| && j < |s.students|
    requires s.students[i].team == "" || s.students[j].team == "" || s.students[i].team != s.students[j].team
    requires form.evaluatorId == Some(s.students[i].id) && form.evaluatedId == Some(s.students[j].id)
    ensures SubmitPeerPoint(s, form, newId).alert == Some(NotSameTeam)
    ensures SubmitPeerPoint(s, form, newId).state == s
  {
    FindUnique(s.students, HasId(s.students[i].id), i);
    FindUnique(s.students, HasId(s.students[j].id), j);
  }

  /** An accepted entry is counted by the teamwork bonus of the student who
      received it: their team's received records gain exactly that record. */
  lemma SubmitFeedsBonus(s: State, form: PeerForm, newId: string)
    requires SubmitPeerPoint(s, form, newId).alert.None?
    ensures var rec := SubmitPeerPoint(s, form, newId).state.peerPoints[|s.peerPoints|];
      Received(SubmitPeerPoint(s, form, newId).state.peerPoints, rec.team, rec.evaluatedId) ==
      Received(s.peerPoints, rec.team, rec.evaluatedId) + [rec]
  {
    var r := SubmitPeerPoint(s, form, newId).state;
    var rec := r.peerPoints[|s.peerPoints|];
    assert r.peerPoints == s.peerPoints + [rec];
    FilterAppend(s.peerPoints, rec, ReceivedBy(rec.team, rec.evaluatedId));
  }
}
