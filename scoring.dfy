/** The scoring engine: level lookup by name, the normalising maximum, the
    per-criterion blend of the three channels, the optional peer-point bonus and
    the final clamp (App.tsx:83-127), and the per-criterion breakdown shown in
    the student report (App.tsx:476-485). */
module Scoring {
  import opened Wrappers
  import opened Sequences
  import opened Rubric

  function Max(a: real, b: real): real { if a >= b then a else b }
  function Min(a: real, b: real): real { if a <= b then a else b }

  /** The level-name test `l => l.name === name`. */
  function NamedLevel(name: string): Level -> bool { (l: Level) => l.name == name }

  /** The roster test `s => s.id === id`. */
  function HasId(id: string): Student -> bool { (st: Student) => st.id == id }

  /** `levelScore` (see `LevelScoreSpec`). */
  function LevelScore(levels: seq<Level>, name: Option<string>): Option<real>
  {
    if name.None? || name.value == "" then None
    else
      var lv := Find(levels, NamedLevel(name.value));
      if lv.Some? then Some(lv.value.score) else None
  }

  /** The lookup gives nothing for a missing or empty name and for a name no
      level carries; otherwise it gives the score of the FIRST level carrying
      exactly that name. */
  lemma LevelScoreSpec(levels: seq<Level>, name: Option<string>)
    ensures LevelScore(levels, name).None? <==>
      name.None? || name.value == "" || forall i :: 0 <= i < |levels| ==> levels[i].name != name.value
    ensures LevelScore(levels, name).Some? ==>
      exists i :: 0 <= i < |levels| && levels[i].name == name.value && levels[i].score == LevelScore(levels, name).value &&
                  forall j :: 0 <= j < i ==> levels[j].name != name.value
  {
    if name.Some? && name.value != "" {
      FindSpec(levels, NamedLevel(name.value));
    }
  }

  /** `levels.reduce((a, l) => Math.max(a, l.score), acc)`. */
  function MaxFrom(acc: real, levels: seq<Level>): (m: real)
    ensures acc <= m
    decreases |levels|
  {
    if |levels| == 0 then acc else MaxFrom(Max(acc, levels[0].score), levels[1..])
  }

  /** The fold is the maximum of `acc` and the scores: no score exceeds it, and
      it is `acc` or one of the scores. */
  lemma {:induction false} MaxFromSpec(acc: real, levels: seq<Level>)
    ensures forall i :: 0 <= i < |levels| ==> levels[i].score <= MaxFrom(acc, levels)
    ensures MaxFrom(acc, levels) == acc || exists i :: 0 <= i < |levels| && levels[i].score == MaxFrom(acc, levels)
    decreases |levels|
  {
    if |levels| > 0 {
      MaxFromSpec(Max(acc, levels[0].score), levels[1..]);
      assert forall i :: 1 <= i < |levels| ==> levels[i] == levels[1..][i - 1];
    }
  }

  /** Folding over one more level takes the maximum with its score. */
  lemma {:induction false} MaxFromAppend(acc: real, levels: seq<Level>, l: Level)
    ensures MaxFrom(acc, levels + [l]) == Max(MaxFrom(acc, levels), l.score)
    decreases |levels|
  {
    if |levels| == 0 {
      assert levels + [l] == [l];
      assert [l][1..] == [];
    } else {
      assert (levels + [l])[0] == levels[0];
      assert (levels + [l])[1..] == levels[1..] + [l];
      MaxFromAppend(Max(acc, levels[0].score), levels[1..], l);
    }
  }

  /** `maxLevelScore`: always positive, so every division by it is defined
      (see `MaxLevelScoreSpec`). */
  function MaxLevelScore(levels: seq<Level>): (m: real)
    ensures 0.0 < m
  {
    var top := MaxFrom(0.0, levels);
    if top == 0.0 then 4.0 else top
  }

  /** The normalising maximum is the largest level score when some score is
      positive, and 4 when none is (the `|| 4` fallback replaces a maximum of 0);
      no level scores above it. */
  lemma MaxLevelScoreSpec(levels: seq<Level>)
    ensures forall i :: 0 <= i < |levels| ==> levels[i].score <= MaxLevelScore(levels)
    ensures (exists i :: 0 <= i < |levels| && levels[i].score > 0.0) ==>
      exists i :: 0 <= i < |levels| && levels[i].score == MaxLevelScore(levels)
    ensures (forall i :: 0 <= i < |levels| ==> levels[i].score <= 0.0) ==> MaxLevelScore(levels) == 4.0
  {
    MaxFromSpec(0.0, levels);
  }

  /** One channel's share: `(s / maxScore) * weight` when the level name
      resolves to a score `s`, else 0. */
  function Contribution(levels: seq<Level>, name: Option<string>, maxScore: real, weight: real): real
    requires maxScore > 0.0
  {
    match LevelScore(levels, name)
    case Some(sc) => sc / maxScore * weight
    case None => 0.0
  }

  /** The engine's `piece` for criterion `c` (App.tsx:98-106). */
  function Piece(s: State, byStudent: map<string, EvalCell>, c: Criterion): real
  {
    c.weight / 100.0 * ChannelSum(s, byStudent, c)
  }

  /** The three channels' shares for criterion `c`, before its weight applies. */
  function ChannelSum(s: State, byStudent: map<string, EvalCell>, c: Criterion): real
  {
    var ev := CellOf(byStudent, c.id);
    var maxScore := MaxLevelScore(s.levels);
    Contribution(s.levels, ev.auto, maxScore, s.weights.auto) +
    Contribution(s.levels, ev.peer, maxScore, s.weights.peer) +
    Contribution(s.levels, ev.teacher, maxScore, s.weights.teacher)
  }

  /** The pieces of `cs`, accumulated in list order. */
  function SumPieces(s: State, byStudent: map<string, EvalCell>, cs: seq<Criterion>): real
  {
    if |cs| == 0 then 0.0
    else SumPieces(s, byStudent, cs[..|cs| - 1]) + Piece(s, byStudent, cs[|cs| - 1])
  }

  lemma SumPiecesStep(s: State, byStudent: map<string, EvalCell>, cs: seq<Criterion>, i: nat)
    requires i < |cs|
    ensures SumPieces(s, byStudent, cs[..i + 1]) == SumPieces(s, byStudent, cs[..i]) + Piece(s, byStudent, cs[i])
  {
    assert cs[..i + 1][..i] == cs[..i];
  }

  /** Two documents whose pieces agree criterion by criterion give the same
      sum of pieces. */
  lemma {:induction false} SumPiecesAgree(s: State, t: State, byStudent: map<string, EvalCell>, cs: seq<Criterion>)
    requires forall i :: 0 <= i < |cs| ==> Piece(s, byStudent, cs[i]) == Piece(t, byStudent, cs[i])
    ensures SumPieces(s, byStudent, cs) == SumPieces(t, byStudent, cs)
  {
    if |cs| > 0 {
      var init := cs[..|cs| - 1];
      assert forall i :: 0 <= i < |init| ==> init[i] == cs[i];
      SumPiecesAgree(s, t, byStudent, init);
    }
  }

  /** A piece depends on the document only through its levels and weights. */
  lemma PieceOfLevelsAndWeights(s: State, t: State, byStudent: map<string, EvalCell>, c: Criterion)
    requires s.levels == t.levels && s.weights == t.weights
    ensures Piece(s, byStudent, c) == Piece(t, byStudent, c)
  {
  }

  /** The criterion weights of `cs`, accumulated in list order. */
  function CriteriaWeightSum(cs: seq<Criterion>): real
  {
    if |cs| == 0 then 0.0 else CriteriaWeightSum(cs[..|cs| - 1]) + cs[|cs| - 1].weight
  }

  /** `total` before the bonus. */
  function PreBonusTotal(s: State, studentId: string): real
  {
    SumPieces(s, EvalsOf(s.evaluations, studentId), s.criteria)
  }

  /** The ledger test `pp => pp.team === team && pp.evaluatedId === studentId`. */
  function ReceivedBy(team: string, studentId: string): PeerPoint -> bool
  {
    (pp: PeerPoint) => pp.team == team && pp.evaluatedId == studentId
  }

  /** The peer-point records `studentId` received inside `team`, in ledger order. */
  function Received(pps: seq<PeerPoint>, team: string, studentId: string): seq<PeerPoint>
  {
    Filter(pps, ReceivedBy(team, studentId))
  }

  /** `received.reduce((s, r) => s + r.points, 0)`. */
  function PointsSum(pps: seq<PeerPoint>): real
  {
    if |pps| == 0 then 0.0 else PointsSum(pps[..|pps| - 1]) + pps[|pps| - 1].points
  }

  /** `new Set(received.map(r => r.evaluatorId)).size`: distinct evaluators. */
  function EvaluatorsCount(received: seq<PeerPoint>): nat
  {
    |set r | r in received :: r.evaluatorId|
  }

  /** A record from an evaluator already counted leaves the count as it is; a
      record from a new evaluator raises it by one. */
  lemma EvaluatorsCountAppend(received: seq<PeerPoint>, rec: PeerPoint)
    ensures EvaluatorsCount(received + [rec]) ==
      if exists i :: 0 <= i < |received| && received[i].evaluatorId == rec.evaluatorId
      then EvaluatorsCount(received) else EvaluatorsCount(received) + 1
  {
    var before := set r | r in received :: r.evaluatorId;
    var after := set r | r in received + [rec] :: r.evaluatorId;
    assert after == before + {rec.evaluatorId};
    if exists i :: 0 <= i < |received| && received[i].evaluatorId == rec.evaluatorId {
      var i :| 0 <= i < |received| && received[i].evaluatorId == rec.evaluatorId;
      assert received[i] in received;
      assert after == before;
    } else {
      assert rec.evaluatorId !in before;
    }
  }

  /** There are at most as many distinct evaluators as records, and at least
      one as soon as there is a record. */
  lemma {:induction false} EvaluatorsCountBounds(received: seq<PeerPoint>)
    ensures EvaluatorsCount(received) <= |received|
    ensures |received| > 0 ==> EvaluatorsCount(received) >= 1
    decreases |received|
  {
    if |received| > 0 {
      var n := |received| - 1;
      EvaluatorsCountBounds(received[..n]);
      assert received[..n] + [received[n]] == received;
      EvaluatorsCountAppend(received[..n], received[n]);
    }
  }

  /** `Math.max(1, pointsToDistribute * evaluatorsCount)`: never below 1, so the
      ratio's division is defined. */
  function Denom(cfg: PeerPointsConfig, received: seq<PeerPoint>): (d: real)
    ensures d >= 1.0
  {
    Max(1.0, cfg.pointsToDistribute * EvaluatorsCount(received) as real)
  }

  /** `Math.min(1.5, pointsReceived / denom)`: the share of the points the
      evaluators could have given, capped at 1.5. */
  function Ratio(cfg: PeerPointsConfig, received: seq<PeerPoint>): (r: real)
    ensures r <= 1.5
  {
    Min(1.5, PointsSum(received) / Denom(cfg, received))
  }

  /** The team the bonus is computed for: present only when the modifier is on
      and the first roster entry with this id has a non-empty team. */
  function BonusTeam(s: State, studentId: string): Option<string>
  {
    if !s.peerPointsConfig.applyAsTeamworkModifier then None
    else
      match Find(s.students, HasId(studentId))
      case None => None
      case Some(st) => if st.team == "" then None else Some(st.team)
  }

  /** The teamwork bonus added to `percent` (App.tsx:114-123). */
  function Bonus(s: State, studentId: string, percent: real): real
  {
    match BonusTeam(s, studentId)
    case None => 0.0
    case Some(team) =>
      Adjustment(percent, s.peerPointsConfig.maxBonusPct,
                 Ratio(s.peerPointsConfig, Received(s.peerPoints, team, studentId)))
  }

  /** `percent * (maxBonusPct / 100) * (ratio - 1)`. */
  function Adjustment(percent: real, maxBonusPct: real, ratio: real): real
  {
    percent * (maxBonusPct / 100.0) * (ratio - 1.0)
  }

  /** `Math.max(0, Math.min(100, x))`. */
  function Clamp(x: real): (r: real)
    ensures 0.0 <= r <= 100.0
    ensures 0.0 <= x <= 100.0 ==> r == x
    ensures x < 0.0 ==> r == 0.0
    ensures x > 100.0 ==> r == 100.0
  {
    Max(0.0, Min(100.0, x))
  }

  datatype Summary = Summary(weightSum: real, percent: real)

  /** What `computeStudentSummary` returns: the criterion weights summed, and
      the pre-bonus total plus the bonus, clamped to [0, 100]. */
  function StudentSummaryOf(s: State, studentId: string): (r: Summary)
    ensures 0.0 <= r.percent <= 100.0
  {
    var total := PreBonusTotal(s, studentId);
    Summary(CriteriaWeightSum(s.criteria), Clamp(total + Bonus(s, studentId, total)))
  }

  /** `computeStudentSummary`: one pass over the criteria accumulating `total`
      and `weightSum`, then the bonus and the clamp. */
  method ComputeStudentSummary(s: State, studentId: string) returns (r: Summary)
    ensures r == StudentSummaryOf(s, studentId)
    ensures r.weightSum == CriteriaWeightSum(s.criteria)
    ensures 0.0 <= r.percent <= 100.0
  {
    var byStudent := EvalsOf(s.evaluations, studentId);
    var total := 0.0;
    var weightSum := 0.0;
    for i := 0 to |s.criteria|
      invariant total == SumPieces(s, byStudent, s.criteria[..i])
      invariant weightSum == CriteriaWeightSum(s.criteria[..i])
    {
      var c := s.criteria[i];
      var piece := Piece(s, byStudent, c);
      SumPiecesStep(s, byStudent, s.criteria, i);
      assert s.criteria[..i + 1][..i] == s.criteria[..i];
      total := total + piece;
      weightSum := weightSum + c.weight;
    }
    assert s.criteria[..|s.criteria|] == s.criteria;

    var percent := total;

    // The optional teamwork adjustment: 0 unless the modifier is on and the
    // student is on the roster with a non-empty team.
    var bonus := 0.0;
    if s.peerPointsConfig.applyAsTeamworkModifier {
      var st := Find(s.students, HasId(studentId));
      if st.Some? && st.value.team != "" {
        var received := Received(s.peerPoints, st.value.team, studentId);
        var ratio := Ratio(s.peerPointsConfig, received);
        assert BonusTeam(s, studentId) == Some(st.value.team);
        bonus := Adjustment(percent, s.peerPointsConfig.maxBonusPct, ratio);
      } else {
        assert BonusTeam(s, studentId) == None;
      }
    }
    assert bonus == Bonus(s, studentId, percent);
    percent := Max(0.0, Min(100.0, percent + bonus));
    r := Summary(weightSum, percent);
  }

  // ---------------------------------------------------------------------------
  // The teamwork bonus
  // ---------------------------------------------------------------------------

  /** The bonus is 0 with the modifier off, for an id not on the roster, and
      for a student without a team. */
  lemma NoBonusWithoutModifierOrTeam(s: State, studentId: string, percent: real)
    ensures !s.peerPointsConfig.applyAsTeamworkModifier ==> Bonus(s, studentId, percent) == 0.0
    ensures (forall i :: 0 <= i < |s.students| ==> s.students[i].id != studentId) ==>
      Bonus(s, studentId, percent) == 0.0
    ensures (forall i :: 0 <= i < |s.students| && s.students[i].id == studentId ==> s.students[i].team == "") ==>
      Bonus(s, studentId, percent) == 0.0
  {
    FindSpec(s.students, HasId(studentId));
  }

  /** However many points were recorded, the ratio never exceeds 1.5, and it is
      exactly 1.5 once the points reach 1.5 times the denominator. */
  lemma RatioCapped(cfg: PeerPointsConfig, received: seq<PeerPoint>)
    ensures Ratio(cfg, received) <= 1.5
    ensures PointsSum(received) >= 1.5 * Denom(cfg, received) ==> Ratio(cfg, received) == 1.5
  {
    var d := Denom(cfg, received);
    if PointsSum(received) >= 1.5 * d {
      QuotientAtLeast(PointsSum(received), d, 1.5);
    }
  }

  lemma QuotientAtLeast(x: real, d: real, k: real)
    requires d > 0.0 && x >= k * d
    ensures x / d >= k
  {
    assert x / d * d == x;
  }

  /** With the ratio capped at 1.5, the adjustment is at most half the cap's
      share of `percent`. */
  lemma AdjustmentAtMostHalf(percent: real, maxBonusPct: real, ratio: real)
    requires percent >= 0.0 && maxBonusPct >= 0.0 && ratio <= 1.5
    ensures Adjustment(percent, maxBonusPct, ratio) <= percent * (maxBonusPct / 100.0) * 0.5
  {
    var share := percent * (maxBonusPct / 100.0);
    assert share >= 0.0;
    assert share * (ratio - 1.0) <= share * 0.5;
  }

  /** With a ratio that is not negative, the adjustment takes away at most the
      cap's share of `percent`. */
  lemma AdjustmentAtLeastMinusShare(percent: real, maxBonusPct: real, ratio: real)
    requires percent >= 0.0 && maxBonusPct >= 0.0 && ratio >= 0.0
    ensures Adjustment(percent, maxBonusPct, ratio) >= -(percent * (maxBonusPct / 100.0))
  {
    var share := percent * (maxBonusPct / 100.0);
    assert share >= 0.0;
    assert share * (ratio - 1.0) >= share * -1.0;
  }

  /** Below a ratio of 1, with a positive `percent` and cap, the adjustment is
      negative; at a ratio of exactly 1 it is 0. */
  lemma AdjustmentSign(percent: real, maxBonusPct: real, ratio: real)
    ensures ratio == 1.0 ==> Adjustment(percent, maxBonusPct, ratio) == 0.0
    ensures percent > 0.0 && maxBonusPct > 0.0 && ratio < 1.0 ==> Adjustment(percent, maxBonusPct, ratio) < 0.0
  {
    var share := percent * (maxBonusPct / 100.0);
    if percent > 0.0 && maxBonusPct > 0.0 && ratio < 1.0 {
      assert share > 0.0;
      assert share * (1.0 - ratio) > 0.0;
      assert Adjustment(percent, maxBonusPct, ratio) == share * (ratio - 1.0) == -(share * (1.0 - ratio));
    }
  }

  /** On `percent >= 0` and a non-negative bonus cap, the bonus is at most half
      the cap's share of `percent`, since the ratio is at most 1.5. */
  lemma BonusAtMostHalfShare(s: State, studentId: string, percent: real)
    requires percent >= 0.0 && s.peerPointsConfig.maxBonusPct >= 0.0
    ensures Bonus(s, studentId, percent) <= percent * (s.peerPointsConfig.maxBonusPct / 100.0) * 0.5
  {
    AdjustmentAtMostHalf(percent, s.peerPointsConfig.maxBonusPct, 0.0);
    match BonusTeam(s, studentId)
    case None =>
    case Some(team) =>
      AdjustmentAtMostHalf(percent, s.peerPointsConfig.maxBonusPct,
                           Ratio(s.peerPointsConfig, Received(s.peerPoints, team, studentId)));
  }

  /** A student who received less than the points available to them loses
      score: with a positive `percent` and bonus cap the bonus is negative. */
  lemma BonusNegativeBelowQuota(s: State, studentId: string, percent: real, team: string)
    requires BonusTeam(s, studentId) == Some(team)
    requires Ratio(s.peerPointsConfig, Received(s.peerPoints, team, studentId)) < 1.0
    requires percent > 0.0 && s.peerPointsConfig.maxBonusPct > 0.0
    ensures Bonus(s, studentId, percent) < 0.0
  {
    AdjustmentSign(percent, s.peerPointsConfig.maxBonusPct,
                   Ratio(s.peerPointsConfig, Received(s.peerPoints, team, studentId)));
  }

  lemma {:induction false} PointsSumNonNegative(pps: seq<PeerPoint>)
    requires forall i :: 0 <= i < |pps| ==> pps[i].points >= 0.0
    ensures PointsSum(pps) >= 0.0
  {
    if |pps| > 0 {
      PointsSumNonNegative(pps[..|pps| - 1]);
    }
  }

  /** With no negative points on the ledger, the ratio is not negative. */
  lemma RatioNonNegative(cfg: PeerPointsConfig, received: seq<PeerPoint>)
    requires forall i :: 0 <= i < |received| ==> received[i].points >= 0.0
    ensures Ratio(cfg, received) >= 0.0
  {
    PointsSumNonNegative(received);
    var d := Denom(cfg, received);
    assert PointsSum(received) / d >= 0.0;
  }

  /** With no negative points on the ledger, the bonus never takes away more
      than the cap's share of `percent`. */
  lemma BonusAtLeastMinusShare(s: State, studentId: string, percent: real)
    requires forall i :: 0 <= i < |s.peerPoints| ==> s.peerPoints[i].points >= 0.0
    requires percent >= 0.0 && s.peerPointsConfig.maxBonusPct >= 0.0
    ensures Bonus(s, studentId, percent) >= -(percent * (s.peerPointsConfig.maxBonusPct / 100.0))
  {
    AdjustmentAtLeastMinusShare(percent, s.peerPointsConfig.maxBonusPct, 1.0);
    match BonusTeam(s, studentId)
    case None =>
    case Some(team) =>
      ReceivedFromLedger(s.peerPoints, team, studentId);
      RatioNonNegative(s.peerPointsConfig, Received(s.peerPoints, team, studentId));
      AdjustmentAtLeastMinusShare(percent, s.peerPointsConfig.maxBonusPct,
                                  Ratio(s.peerPointsConfig, Received(s.peerPoints, team, studentId)));
  }

  /** With no negative points on the ledger, the records received carry none. */
  lemma ReceivedFromLedger(pps: seq<PeerPoint>, team: string, studentId: string)
    requires forall i :: 0 <= i < |pps| ==> pps[i].points >= 0.0
    ensures forall i :: 0 <= i < |Received(pps, team, studentId)| ==> Received(pps, team, studentId)[i].points >= 0.0
  {
    var received := Received(pps, team, studentId);
    FilterSpec(pps, ReceivedBy(team, studentId));
    forall i | 0 <= i < |received|
      ensures received[i].points >= 0.0
    {
      assert received[i] in received;
      assert received[i] in pps;
    }
  }


  // ---------------------------------------------------------------------------
  // The per-criterion breakdown of the student report (App.tsx:476-485)
  // ---------------------------------------------------------------------------

  /** The `piece` the report shows next to criterion `cr`, computed as the report
      computes it: from its own `maxScore` and its own cell lookup. */
  function ReportPiece(s: State, studentId: string, cr: Criterion): real
  {
    var ev := CellOf(EvalsOf(s.evaluations, studentId), cr.id);
    var maxScore := MaxLevelScore(s.levels);
    var channels :=
      Contribution(s.levels, ev.auto, maxScore, s.weights.auto) +
      Contribution(s.levels, ev.peer, maxScore, s.weights.peer) +
      Contribution(s.levels, ev.teacher, maxScore, s.weights.teacher);
    cr.weight / 100.0 * channels
  }

  /** The report's pieces, one per criterion in list order. */
  function ReportPieces(s: State, studentId: string): seq<real>
  {
    seq(|s.criteria|, i requires 0 <= i < |s.criteria| => ReportPiece(s, studentId, s.criteria[i]))
  }

  function Sum(xs: seq<real>): real
  {
    if |xs| == 0 then 0.0 else Sum(xs[..|xs| - 1]) + xs[|xs| - 1]
  }

  /** The report recomputes exactly the engine's piece. */
  lemma ReportPieceIsEnginePiece(s: State, studentId: string, cr: Criterion)
    ensures ReportPiece(s, studentId, cr) == Piece(s, EvalsOf(s.evaluations, studentId), cr)
  {
    assert ChannelSum(s, EvalsOf(s.evaluations, studentId), cr) ==
      var ev := CellOf(EvalsOf(s.evaluations, studentId), cr.id);
      var maxScore := MaxLevelScore(s.levels);
      Contribution(s.levels, ev.auto, maxScore, s.weights.auto) +
      Contribution(s.levels, ev.peer, maxScore, s.weights.peer) +
      Contribution(s.levels, ev.teacher, maxScore, s.weights.teacher);
  }

  /** The first `k` pieces of the report add up to the engine's running total
      after `k` criteria. */
  lemma {:induction false} ReportPrefixSum(s: State, studentId: string, k: nat)
    requires k <= |s.criteria|
    ensures Sum(ReportPieces(s, studentId)[..k]) == SumPieces(s, EvalsOf(s.evaluations, studentId), s.criteria[..k])
  {
    if k > 0 {
      var pieces := ReportPieces(s, studentId);
      var byStudent := EvalsOf(s.evaluations, studentId);
      ReportPrefixSum(s, studentId, k - 1);
      assert pieces[..k][..k - 1] == pieces[..k - 1];
      assert s.criteria[..k][..k - 1] == s.criteria[..k - 1];
      ReportPieceIsEnginePiece(s, studentId, s.criteria[k - 1]);
    }
  }

  /** The pieces the report lists sum to the engine's pre-bonus `total`. */
  lemma ReportPiecesSumToTotal(s: State, studentId: string)
    ensures Sum(ReportPieces(s, studentId)) == PreBonusTotal(s, studentId)
  {
    ReportPrefixSum(s, studentId, |s.criteria|);
    assert ReportPieces(s, studentId)[..|s.criteria|] == ReportPieces(s, studentId);
    assert s.criteria[..|s.criteria|] == s.criteria;
  }

  // ---------------------------------------------------------------------------
  // What the score means
  // ---------------------------------------------------------------------------

  /** No channel of `ev` names a level. */
  predicate Unscored(levels: seq<Level>, ev: EvalCell)
  {
    LevelScore(levels, ev.auto).None? && LevelScore(levels, ev.peer).None? &&
    LevelScore(levels, ev.teacher).None?
  }

  lemma {:induction false} UnscoredPiecesSumToZero(s: State, byStudent: map<string, EvalCell>, cs: seq<Criterion>)
    requires forall i :: 0 <= i < |cs| ==> Unscored(s.levels, CellOf(byStudent, cs[i].id))
    ensures SumPieces(s, byStudent, cs) == 0.0
  {
    if |cs| > 0 {
      var c := cs[|cs| - 1];
      assert Unscored(s.levels, CellOf(byStudent, c.id));
      assert ChannelSum(s, byStudent, c) == 0.0;
      UnscoredPiecesSumToZero(s, byStudent, cs[..|cs| - 1]);
    }
  }

  /** A student none of whose channels names a level scores 0, whatever the
      peer-point ledger says: the bonus is proportional to the score. */
  lemma UnscoredStudentScoresZero(s: State, studentId: string)
    requires forall i :: 0 <= i < |s.criteria| ==>
      Unscored(s.levels, CellOf(EvalsOf(s.evaluations, studentId), s.criteria[i].id))
    ensures PreBonusTotal(s, studentId) == 0.0
    ensures StudentSummaryOf(s, studentId).percent == 0.0
  {
    UnscoredPiecesSumToZero(s, EvalsOf(s.evaluations, studentId), s.criteria);
    BonusOfZero(s, studentId);
  }

  lemma BonusOfZero(s: State, studentId: string)
    ensures Bonus(s, studentId, 0.0) == 0.0
  {
  }

  /** A student with no evaluation entry at all scores 0. */
  lemma UnevaluatedStudentScoresZero(s: State, studentId: string)
    requires studentId !in s.evaluations
    ensures StudentSummaryOf(s, studentId).percent == 0.0
  {
    UnscoredStudentScoresZero(s, studentId);
  }

  /** Every channel of every criterion names a level whose score is the maximum. */
  ghost predicate FullMarks(s: State, studentId: string)
  {
    forall i :: 0 <= i < |s.criteria| ==>
      var ev := CellOf(EvalsOf(s.evaluations, studentId), s.criteria[i].id);
      LevelScore(s.levels, ev.auto) == Some(MaxLevelScore(s.levels)) &&
      LevelScore(s.levels, ev.peer) == Some(MaxLevelScore(s.levels)) &&
      LevelScore(s.levels, ev.teacher) == Some(MaxLevelScore(s.levels))
  }

  /** At full marks a criterion's piece is its weight. */
  lemma FullMarksPiece(s: State, byStudent: map<string, EvalCell>, c: Criterion)
    requires s.weights.auto + s.weights.peer + s.weights.teacher == 100.0
    requires LevelScore(s.levels, CellOf(byStudent, c.id).auto) == Some(MaxLevelScore(s.levels))
    requires LevelScore(s.levels, CellOf(byStudent, c.id).peer) == Some(MaxLevelScore(s.levels))
    requires LevelScore(s.levels, CellOf(byStudent, c.id).teacher) == Some(MaxLevelScore(s.levels))
    ensures Piece(s, byStudent, c) == c.weight
  {
    var m := MaxLevelScore(s.levels);
    FullShare(m, s.weights.auto);
    FullShare(m, s.weights.peer);
    FullShare(m, s.weights.teacher);
    assert ChannelSum(s, byStudent, c) == 100.0;
  }

  lemma FullShare(m: real, w: real)
    requires m > 0.0
    ensures m / m * w == w
  {
    assert m / m == 1.0;
  }

  lemma {:induction false} FullMarksPiecesSumToWeights(s: State, studentId: string, k: nat)
    requires k <= |s.criteria| && FullMarks(s, studentId)
    requires s.weights.auto + s.weights.peer + s.weights.teacher == 100.0
    ensures SumPieces(s, EvalsOf(s.evaluations, studentId), s.criteria[..k]) == CriteriaWeightSum(s.criteria[..k])
  {
    if k > 0 {
      FullMarksPiece(s, EvalsOf(s.evaluations, studentId), s.criteria[k - 1]);
      assert s.criteria[..k][..k - 1] == s.criteria[..k - 1];
      FullMarksPiecesSumToWeights(s, studentId, k - 1);
    }
  }

  /** Full marks everywhere, channel weights and criterion weights each summing
      to 100 and the teamwork modifier off give exactly 100. */
  lemma FullMarksScoreHundred(s: State, studentId: string)
    requires FullMarks(s, studentId)
    requires s.weights.auto + s.weights.peer + s.weights.teacher == 100.0
    requires CriteriaWeightSum(s.criteria) == 100.0
    requires !s.peerPointsConfig.applyAsTeamworkModifier
    ensures StudentSummaryOf(s, studentId).percent == 100.0
  {
    FullMarksPiecesSumToWeights(s, studentId, |s.criteria|);
    assert s.criteria[..|s.criteria|] == s.criteria;
  }

  /** Level scores that are never negative. */
  predicate ScoresNonNegative(levels: seq<Level>)
  {
    forall i :: 0 <= i < |levels| ==> levels[i].score >= 0.0
  }

  lemma ContributionBounds(levels: seq<Level>, name: Option<string>, weight: real)
    requires ScoresNonNegative(levels) && weight >= 0.0
    ensures 0.0 <= Contribution(levels, name, MaxLevelScore(levels), weight) <= weight
  {
    var r := LevelScore(levels, name);
    LevelScoreSpec(levels, name);
    MaxLevelScoreSpec(levels);
    if r.Some? {
      var i :| 0 <= i < |levels| && levels[i].name == name.value && levels[i].score == r.value &&
               forall j :: 0 <= j < i ==> levels[j].name != name.value;
      assert 0.0 <= r.value <= MaxLevelScore(levels);
      ShareBounds(r.value, MaxLevelScore(levels), weight, Contribution(levels, name, MaxLevelScore(levels), weight));
    }
  }

  /** A score between 0 and the maximum yields a share between 0 and the weight. */
  lemma ShareBounds(sc: real, m: real, w: real, share: real)
    requires 0.0 <= sc <= m && m > 0.0 && w >= 0.0 && share == sc / m * w
    ensures 0.0 <= share <= w
  {
    assert sc / m <= 1.0 by {
      assert sc / m * m == sc;
    }
  }

  /** The three channels together give between 0 and 100. */
  lemma ChannelSumBounds(s: State, byStudent: map<string, EvalCell>, c: Criterion)
    requires ScoresNonNegative(s.levels)
    requires s.weights.auto >= 0.0 && s.weights.peer >= 0.0 && s.weights.teacher >= 0.0
    requires s.weights.auto + s.weights.peer + s.weights.teacher == 100.0
    ensures 0.0 <= ChannelSum(s, byStudent, c) <= 100.0
  {
    var ev := CellOf(byStudent, c.id);
    ContributionBounds(s.levels, ev.auto, s.weights.auto);
    ContributionBounds(s.levels, ev.peer, s.weights.peer);
    ContributionBounds(s.levels, ev.teacher, s.weights.teacher);
  }

  /** A criterion's piece lies between 0 and its weight. */
  lemma PieceBounds(s: State, byStudent: map<string, EvalCell>, c: Criterion)
    requires ScoresNonNegative(s.levels) && c.weight >= 0.0
    requires s.weights.auto >= 0.0 && s.weights.peer >= 0.0 && s.weights.teacher >= 0.0
    requires s.weights.auto + s.weights.peer + s.weights.teacher == 100.0
    ensures 0.0 <= Piece(s, byStudent, c) <= c.weight
  {
    ChannelSumBounds(s, byStudent, c);
    PieceUnfold(s, byStudent, c);
    WeightedBounds(c.weight, ChannelSum(s, byStudent, c), Piece(s, byStudent, c));
  }

  lemma PieceUnfold(s: State, byStudent: map<string, EvalCell>, c: Criterion)
    ensures Piece(s, byStudent, c) == c.weight / 100.0 * ChannelSum(s, byStudent, c)
  {
  }

  lemma WeightedBounds(cw: real, x: real, p: real)
    requires cw >= 0.0 && 0.0 <= x <= 100.0 && p == cw / 100.0 * x
    ensures 0.0 <= p <= cw
  {
  }

  lemma {:induction false} PiecesWithinWeights(s: State, studentId: string, k: nat)
    requires k <= |s.criteria| && ScoresNonNegative(s.levels)
    requires s.weights.auto >= 0.0 && s.weights.peer >= 0.0 && s.weights.teacher >= 0.0
    requires s.weights.auto + s.weights.peer + s.weights.teacher == 100.0
    requires forall i :: 0 <= i < |s.criteria| ==> s.criteria[i].weight >= 0.0
    ensures 0.0 <= SumPieces(s, EvalsOf(s.evaluations, studentId), s.criteria[..k]) <= CriteriaWeightSum(s.criteria[..k])
  {
    if k > 0 {
      PieceBounds(s, EvalsOf(s.evaluations, studentId), s.criteria[k - 1]);
      assert s.criteria[..k][..k - 1] == s.criteria[..k - 1];
      PiecesWithinWeights(s, studentId, k - 1);
    }
  }

  /** With non-negative scores and weights, channel weights summing to 100 and
      criterion weights summing to 100, the pre-bonus total already lies in
      [0, 100]; outside these conditions only the final clamp keeps it there. */
  lemma TotalWithinRange(s: State, studentId: string)
    requires ScoresNonNegative(s.levels)
    requires s.weights.auto >= 0.0 && s.weights.peer >= 0.0 && s.weights.teacher >= 0.0
    requires s.weights.auto + s.weights.peer + s.weights.teacher == 100.0
    requires forall i :: 0 <= i < |s.criteria| ==> s.criteria[i].weight >= 0.0
    requires CriteriaWeightSum(s.criteria) == 100.0
    ensures 0.0 <= PreBonusTotal(s, studentId) <= 100.0
    ensures !s.peerPointsConfig.applyAsTeamworkModifier ==>
      StudentSummaryOf(s, studentId).percent == PreBonusTotal(s, studentId)
  {
    PiecesWithinWeights(s, studentId, |s.criteria|);
    assert s.criteria[..|s.criteria|] == s.criteria;
  }
}
