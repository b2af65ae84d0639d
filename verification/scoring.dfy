/** The scoring package: booklet selection from the pre-test results, the
    self-assessment grade, scoring of one response, the final item grade and
    the free-text normalisation.
 */
module Scoring {
  import opened Outcomes
  import opened GoStrings
  import opened Catalog
  import opened Models
  import opened Sums

  // ---------------------------------------------------------------------
  // CEFR_LEVELS

  const CefrLevels: map<int, string> :=
    map[1 := "A1", 2 := "A2", 3 := "B1", 4 := "B2", 5 := "C1", 6 := "C2"]

  /** CEFR_LEVELS[grade]: Go's zero value "" for a grade outside 1..6. */
  function CefrLevel(grade: int): (level: string)
    ensures level != "" <==> 1 <= grade <= 6
    ensures grade == 1 ==> level == "A1"
  {
    if grade in CefrLevels then CefrLevels[grade] else ""
  }

  // ---------------------------------------------------------------------
  // Booklet selection (CalculateBookletId)

  /** The "tl#skill" key of the assignment table. */
  function AssignmentKey(tl: string, skill: string): string {
    tl + "#" + skill
  }

  /** The weight row for the submitted pre-tests; a missing row reads as
      Go's zero value, all coefficients 0. */
  function WeightsFor(c: Catalog, s: Session): PreestWeight {
    var key := WeightKey(s.tes.tl, s.tes.skill, s.vsptSubmitted, s.saSubmitted);
    if key in c.preestWeights then c.preestWeights[key] else PreestWeight(0.0, 0.0, 0.0)
  }

  /** The preliminary estimate pe = saPPE * Sa + vsptZ * Vspt + Coe, where a
      pre-test that was not submitted contributes 0 whatever the session
      still holds for it. */
  function Estimate(c: Catalog, s: Session): (pe: real)
    ensures var w := WeightsFor(c, s);
      && (!s.vsptSubmitted && !s.saSubmitted ==> pe == w.coe)
      && (s.vsptSubmitted && !s.saSubmitted ==> pe == s.vsptZScore * w.vspt + w.coe)
      && (!s.vsptSubmitted && s.saSubmitted ==> pe == s.saPpe * w.sa + w.coe)
      && (s.vsptSubmitted && s.saSubmitted ==> pe == s.saPpe * w.sa + s.vsptZScore * w.vspt + w.coe)
  {
    var z := if s.vsptSubmitted then s.vsptZScore else 0.0;
    var ppe := if s.saSubmitted then s.saPpe else 0.0;
    var w := WeightsFor(c, s);
    ppe * w.sa + z * w.vspt + w.coe
  }

  /** Entry `i` is the first of the list whose threshold is at least `pe`. */
  predicate FirstFitAt(list: seq<PreestAssignment>, pe: real, i: int) {
    0 <= i < |list| && pe <= list[i].pe && forall j :: 0 <= j < i ==> list[j].pe < pe
  }

  /** The first-fit scan: the booklet of the first assignment, in list order,
      with pe <= threshold; 0 when none qualifies. */
  function FirstFit(list: seq<PreestAssignment>, pe: real): (booklet: int)
    ensures (forall i :: 0 <= i < |list| ==> list[i].pe < pe) ==> booklet == 0
    ensures forall i :: FirstFitAt(list, pe, i) ==> booklet == list[i].bookletId
  {
    if |list| == 0 then 0
    else if pe <= list[0].pe then list[0].bookletId
    else
      var b := FirstFit(list[1..], pe);
      assert forall i :: FirstFitAt(list, pe, i) ==> i >= 1 && FirstFitAt(list[1..], pe, i - 1);
      b
  }

  /** `list[i].BookletId`, a runtime panic when the list is too short. */
  function BookletAt(list: seq<PreestAssignment>, i: nat): (r: Result<int>)
    ensures r.Ok? <==> i < |list|
    ensures r.Ok? ==> r.value == list[i].bookletId
    ensures r.Err? ==> r.failure == Panic
  {
    if i < |list| then Ok(list[i].bookletId) else Err(Panic)
  }

  /** CalculateBookletId of the scoring package. `difficulty` is the test
      difficulty setting, "" when none is set. */
  function CalculateBookletId(c: Catalog, s: Session, difficulty: string): (r: Result<int>)
    ensures r.Err? ==> r.failure == Panic
    ensures var list := Assignments(c, AssignmentKey(s.tes.tl, s.tes.skill));
      && (difficulty == "easy" ==> (r.Ok? <==> |list| >= 1) && (r.Ok? ==> r.value == list[0].bookletId))
      && (difficulty == "hard" ==> (r.Ok? <==> |list| >= 3) && (r.Ok? ==> r.value == list[2].bookletId))
      && (difficulty != "" && difficulty != "easy" && difficulty != "hard" ==>
            (r.Ok? <==> |list| >= 2) && (r.Ok? ==> r.value == list[1].bookletId))
      && (difficulty == "" && !s.vsptSubmitted && !s.saSubmitted ==>
            (r.Ok? <==> |list| >= 2) && (r.Ok? ==> r.value == list[1].bookletId))
    ensures var list, pe := Assignments(c, AssignmentKey(s.tes.tl, s.tes.skill)), Estimate(c, s);
      difficulty == "" && (s.vsptSubmitted || s.saSubmitted) ==>
        && r.Ok?
        && (forall i :: FirstFitAt(list, pe, i) ==> r.value == list[i].bookletId)
        && ((forall i :: 0 <= i < |list| ==> list[i].pe < pe) ==> r.value == 0)
  {
    var list := Assignments(c, AssignmentKey(s.tes.tl, s.tes.skill));
    if difficulty != "" then
      if difficulty == "easy" then BookletAt(list, 0)
      else if difficulty == "hard" then BookletAt(list, 2)
      else BookletAt(list, 1)
    else if !s.vsptSubmitted && !s.saSubmitted then BookletAt(list, 1)
    else Ok(FirstFit(list, Estimate(c, s)))
  }

  /** A set difficulty picks entry 0 for "easy", 2 for "hard" and 1 for
      anything else, whatever the pre-tests gave. */
  lemma DifficultyOverridesPretests(c: Catalog, s: Session, t: Session, difficulty: string)
    requires difficulty != ""
    requires s.tes.tl == t.tes.tl && s.tes.skill == t.tes.skill
    ensures CalculateBookletId(c, s, difficulty) == CalculateBookletId(c, t, difficulty)
    ensures var list := Assignments(c, AssignmentKey(s.tes.tl, s.tes.skill));
      CalculateBookletId(c, s, difficulty)
        == BookletAt(list, if difficulty == "easy" then 0 else if difficulty == "hard" then 2 else 1)
  {
  }

  /** With neither pre-test submitted the middle assignment is chosen,
      whatever scores the session still holds. */
  lemma NoPretestPicksMiddle(c: Catalog, s: Session)
    requires !s.vsptSubmitted && !s.saSubmitted
    ensures CalculateBookletId(c, s, "") == BookletAt(Assignments(c, AssignmentKey(s.tes.tl, s.tes.skill)), 1)
  {
  }

  /** A missing weight row makes every coefficient 0, so pe = 0. */
  lemma MissingWeightGivesZeroEstimate(c: Catalog, s: Session)
    requires WeightKey(s.tes.tl, s.tes.skill, s.vsptSubmitted, s.saSubmitted) !in c.preestWeights
    ensures Estimate(c, s) == 0.0
  {
  }

  /** A stale z score left in the session does not move the estimate when
      the VSPT is marked as not submitted (likewise for the SA estimate). */
  lemma UnsubmittedPretestContributesNothing(c: Catalog, s: Session, z: real, ppe: real)
    ensures !s.vsptSubmitted ==> Estimate(c, s.(vsptZScore := z)) == Estimate(c, s)
    ensures !s.saSubmitted ==> Estimate(c, s.(saPpe := ppe)) == Estimate(c, s)
  {
  }

  /** The estimate with both pre-tests submitted is the full linear
      combination of their results. */
  lemma EstimateWithBothPretests(c: Catalog, s: Session, w: PreestWeight)
    requires s.vsptSubmitted && s.saSubmitted
    requires c.preestWeights == map[WeightKey(s.tes.tl, s.tes.skill, true, true) := w]
    ensures Estimate(c, s) == s.saPpe * w.sa + s.vsptZScore * w.vspt + w.coe
  {
  }

  /** Thresholds [0.2, 0.5, 1.0] for booklets [1, 2, 3] and pe = 0.3 give
      booklet 2: the first threshold not below the estimate. */
  lemma FirstFitExample()
    ensures FirstFit([PreestAssignment(0.2, 1), PreestAssignment(0.5, 2), PreestAssignment(1.0, 3)], 0.3) == 2
  {
    var list := [PreestAssignment(0.2, 1), PreestAssignment(0.5, 2), PreestAssignment(1.0, 3)];
    assert FirstFitAt(list, 0.3, 1);
  }

  /** On a list sorted by threshold, first fit is the least threshold that is
      not below pe; on an unsorted list it need not be. */
  lemma FirstFitOnSortedIsLeastFit(list: seq<PreestAssignment>, pe: real, i: int)
    requires forall a, b :: 0 <= a < b < |list| ==> list[a].pe <= list[b].pe
    requires FirstFitAt(list, pe, i)
    ensures forall j :: 0 <= j < |list| && pe <= list[j].pe ==> list[i].pe <= list[j].pe
  {
  }

  // ---------------------------------------------------------------------
  // Self-assessment (getSaRawScore, GetSaPPEAndLevel)

  /** What one answered statement adds to the raw score: its weight when
      answered true, 0 when answered false or when it has no weight. */
  function Contribution(weights: map<string, int>, response: (string, bool)): int {
    if response.1 && response.0 in weights then weights[response.0] else 0
  }

  /** The weights of one skill: Go's nil map (every lookup 0) on a miss. */
  function SkillWeights(c: Catalog, skill: string): map<string, int> {
    if skill in c.saWeights then c.saWeights[skill] else map[]
  }

  function Contributions(weights: map<string, int>): ((string, bool)) -> int {
    r => Contribution(weights, r)
  }

  /** getSaRawScore: the sum of the weights of the statements answered true.
      The responses are a Go map; the sequence fixes one iteration order,
      and SaRawScoreAnyOrder shows the order does not matter. */
  function SaRawScore(c: Catalog, skill: string, responses: seq<(string, bool)>): (rsc: int)
    ensures (forall i :: 0 <= i < |responses| ==> !responses[i].1 || responses[i].0 !in SkillWeights(c, skill)) ==> rsc == 0
    ensures skill !in c.saWeights ==> rsc == 0
  {
    var f := Contributions(SkillWeights(c, skill));
    SumOfZeros(responses, f);
    Sum(responses, f)
  }

  /** Iterating the responses in another order gives the same raw score. */
  lemma SaRawScoreAnyOrder(c: Catalog, skill: string, responses: seq<(string, bool)>, other: seq<(string, bool)>)
    requires multiset(responses) == multiset(other)
    ensures SaRawScore(c, skill, responses) == SaRawScore(c, skill, other)
  {
    SumPermutation(responses, other, Contributions(SkillWeights(c, skill)));
  }

  /** A statement answered false adds nothing to the raw score. */
  lemma FalseAnswerAddsNothing(c: Catalog, skill: string, responses: seq<(string, bool)>, id: string)
    ensures SaRawScore(c, skill, responses + [(id, false)]) == SaRawScore(c, skill, responses)
  {
    var f := Contributions(SkillWeights(c, skill));
    SumAppend(responses, [(id, false)], f);
    assert Sum([(id, false)], f) == 0;
  }

  /** A statement answered true adds its weight, or 0 when it has none. */
  lemma TrueAnswerAddsItsWeight(c: Catalog, skill: string, responses: seq<(string, bool)>, id: string)
    ensures var w := SkillWeights(c, skill);
      SaRawScore(c, skill, responses + [(id, true)])
        == SaRawScore(c, skill, responses) + (if id in w then w[id] else 0)
  {
    var f := Contributions(SkillWeights(c, skill));
    SumAppend(responses, [(id, true)], f);
    assert Sum([(id, true)], f) == f((id, true));
  }

  /** Weights {s1: 3, s2: 5} and answers {s1: true, s2: false} give raw score 3. */
  lemma SaRawScoreExample(c: Catalog)
    requires c.saWeights == map["Reading" := map["s1" := 3, "s2" := 5]]
    ensures SaRawScore(c, "Reading", [("s1", true), ("s2", false)]) == 3
  {
    var none: seq<(string, bool)> := [];
    TrueAnswerAddsItsWeight(c, "Reading", none, "s1");
    assert none + [("s1", true)] == [("s1", true)];
    FalseAnswerAddsNothing(c, "Reading", [("s1", true)], "s2");
    assert [("s1", true)] + [("s2", false)] == [("s1", true), ("s2", false)];
  }

  /** Row `g` grades raw score `rsc` of `skill`. */
  predicate GradesScore(g: SaGrade, skill: string, rsc: int) {
    g.skill == skill && g.rsc == rsc
  }

  /** Index of the first grading row for (skill, raw score), or -1. */
  function FirstGradeRow(grades: seq<SaGrade>, skill: string, rsc: int): (i: int)
    ensures -1 <= i < |grades|
    ensures i >= 0 ==> GradesScore(grades[i], skill, rsc)
    ensures forall j :: 0 <= j < |grades| && (i < 0 || j < i) ==> !GradesScore(grades[j], skill, rsc)
    decreases |grades|
  {
    if |grades| == 0 then -1
    else if GradesScore(grades[0], skill, rsc) then 0
    else
      var k := FirstGradeRow(grades[1..], skill, rsc);
      assert forall j :: 1 <= j < |grades| ==> grades[j] == grades[1..][j - 1];
      if k < 0 then -1 else k + 1
  }

  /** GetSaPPEAndLevel: the first grading row for the skill and raw score
      gives (Ppe, CEFR level of its grade); no such row is an error. */
  function SaPpeAndLevel(c: Catalog, skill: string, responses: seq<(string, bool)>): (r: Option<(real, string)>)
    ensures var rsc := SaRawScore(c, skill, responses);
      && (r.None? <==> forall j :: 0 <= j < |c.saGrades| ==> !GradesScore(c.saGrades[j], skill, rsc))
      && (r.Some? ==> exists j :: FirstGradeFor(c.saGrades, skill, rsc, j)
                                  && r.value == (c.saGrades[j].ppe, CefrLevel(c.saGrades[j].grade)))
  {
    var rsc := SaRawScore(c, skill, responses);
    var i := FirstGradeRow(c.saGrades, skill, rsc);
    if i < 0 then None
    else
      assert FirstGradeFor(c.saGrades, skill, rsc, i);
      Some((c.saGrades[i].ppe, CefrLevel(c.saGrades[i].grade)))
  }

  /** The grade row depends on the responses only through their raw score. */
  lemma SaPpeAndLevelByScore(c: Catalog, skill: string, r1: seq<(string, bool)>, r2: seq<(string, bool)>)
    requires SaRawScore(c, skill, r1) == SaRawScore(c, skill, r2)
    ensures SaPpeAndLevel(c, skill, r1) == SaPpeAndLevel(c, skill, r2)
  {
  }

  /** Row `j` is the first that grades raw score `rsc` of `skill`. */
  predicate FirstGradeFor(grades: seq<SaGrade>, skill: string, rsc: int, j: int) {
    0 <= j < |grades| && GradesScore(grades[j], skill, rsc)
    && forall k :: 0 <= k < j ==> !GradesScore(grades[k], skill, rsc)
  }

  // ---------------------------------------------------------------------
  // Scoring one response (GetScoredIdResponseItem, GetScoredTextResponseItem)

  /** A scored item before the basket handler fills in where it sat. */
  function Unplaced(item: Item, responseId: int, responseText: string, correct: bool): (s: ScoredItem)
    ensures s.item == item && s.correct == correct
    ensures s.score == (if correct then item.weight else 0)
  {
    ScoredItem(item, 0, 0, 0, responseId, responseText, correct, if correct then item.weight else 0, [])
  }

  /** GetScoredIdResponseItem: a missing item or answer is an error; the item
      is correct exactly when the chosen answer's flag is 1, and then scores
      its weight. Which item the answer belongs to is not checked. */
  function ScoreIdResponse(c: Catalog, itemId: int, responseId: int): (r: Option<ScoredItem>)
    ensures r.None? <==> itemId !in c.items || responseId !in c.answers
    ensures r.Some? ==> r.value.item == c.items[itemId] && r.value.responseId == responseId
    ensures r.Some? ==> (r.value.correct <==> c.answers[responseId].correct == 1)
    ensures r.Some? ==> r.value.score == (if r.value.correct then c.items[itemId].weight else 0)
  {
    match GetItem(c, itemId)
    case None => None
    case Some(item) =>
      match GetAnswer(c, responseId)
      case None => None
      case Some(answer) => Some(Unplaced(item, responseId, "", answer.correct == 1))
  }

  /** The answer's own item id plays no part: an answer flagged correct
      scores for any existing item it is submitted against. */
  lemma AnswerOfAnotherItemStillScores(c: Catalog, itemId: int, responseId: int)
    requires itemId in c.items && responseId in c.answers
    requires c.answers[responseId].itemId != itemId && c.answers[responseId].correct == 1
    ensures ScoreIdResponse(c, itemId, responseId).Some?
    ensures ScoreIdResponse(c, itemId, responseId).value.correct
  {
  }

  /** The answer's text and the response agree after normalisation. */
  predicate SameText(punctuation: seq<string>, a: Answer, response: string) {
    Normalise(punctuation, a.text) == Normalise(punctuation, response)
  }

  /** Whether some answer of the list matches the response after normalisation. */
  function AnyAnswerMatches(punctuation: seq<string>, answers: seq<Answer>, response: string): (found: bool)
    ensures found <==> exists i :: 0 <= i < |answers| && SameText(punctuation, answers[i], response)
    decreases |answers|
  {
    if |answers| == 0 then false
    else if SameText(punctuation, answers[0], response) then true
    else
      var found := AnyAnswerMatches(punctuation, answers[1..], response);
      assert forall i :: 1 <= i < |answers| ==> answers[i] == answers[1..][i - 1];
      found
  }

  /** GetScoredTextResponseItem: only a missing item is an error; the item is
      correct exactly when the normalised response equals the normalised text
      of some answer registered for it. */
  function ScoreTextResponse(c: Catalog, itemId: int, response: string): (r: Option<ScoredItem>)
    ensures r.None? <==> itemId !in c.items
    ensures r.Some? ==> r.value.item == c.items[itemId] && r.value.responseText == response
    ensures r.Some? ==> (r.value.correct <==> exists a :: a in GetAnswersForItem(c, itemId) && SameText(c.punctuation, a, response))
    ensures r.Some? ==> r.value.score == (if r.value.correct then c.items[itemId].weight else 0)
  {
    match GetItem(c, itemId)
    case None => None
    case Some(item) =>
      var answers := GetAnswersForItem(c, itemId);
      var found := AnyAnswerMatches(c.punctuation, answers, response);
      assert found <==> exists a :: a in answers && SameText(c.punctuation, a, response);
      Some(Unplaced(item, 0, response, found))
  }

  // ---------------------------------------------------------------------
  // Final grade (GetItemGrade)

  function ItemScore(i: ScoredItem): int {
    i.score
  }

  function ItemWeight(i: ScoredItem): int {
    i.item.weight
  }

  /** Sum of the awarded scores: when every score lies between 0 and its
      item's weight, between 0 and the total weight of the items. */
  function SumScores(items: seq<ScoredItem>): (raw: int)
    ensures (forall i :: 0 <= i < |items| ==> 0 <= items[i].score <= items[i].item.weight) ==>
      0 <= raw <= Sum(items, ItemWeight)
  {
    SumMonotone(items, ItemScore, ItemWeight);
    Sum(items, ItemScore)
  }

  /** The raw score does not depend on the order of the items, so the
      unspecified order within a basket cannot change the grade. */
  lemma SumScoresPermutation(a: seq<ScoredItem>, b: seq<ScoredItem>)
    requires multiset(a) == multiset(b)
    ensures SumScores(a) == SumScores(b)
  {
    SumPermutation(a, b, ItemScore);
  }

  /** Appending a basket's items adds their scores to the raw score. */
  lemma SumScoresAppend(a: seq<ScoredItem>, b: seq<ScoredItem>)
    ensures SumScores(a + b) == SumScores(a) + SumScores(b)
  {
    SumAppend(a, b, ItemScore);
  }

  datatype Grade = Grade(rawScore: int, grade: int, level: string)

  /** GetItemGrade: the raw score is the sum of the scores; the grade comes
      from the (language, skill, booklet) table row for that raw score, and a
      missing table or row gives the permissive default (raw, 0, "A1"). */
  function GetItemGrade(c: Catalog, tl: string, skill: string, bookletId: int, items: seq<ScoredItem>): (g: Grade)
    ensures g.rawScore == SumScores(items)
    ensures var table := GetItemGrades(c, GradeKey(tl, skill, bookletId));
      if table.Some? && g.rawScore in table.value
      then g.grade == table.value[g.rawScore].grade && g.level == CefrLevel(g.grade)
      else g.grade == 0 && g.level == "A1"
  {
    var raw := SumScores(items);
    match GetItemGrades(c, GradeKey(tl, skill, bookletId))
    case None => Grade(raw, 0, CefrLevel(1))
    case Some(table) =>
      if raw in table then Grade(raw, table[raw].grade, CefrLevel(table[raw].grade))
      else Grade(raw, 0, CefrLevel(1))
  }

  /** A raw score outside the grading table yields (raw, 0, "A1"), not an error. */
  lemma GradeOutsideTableDefaults(c: Catalog, tl: string, skill: string, bookletId: int, items: seq<ScoredItem>)
    requires GradeKey(tl, skill, bookletId) in c.itemGrades
    requires SumScores(items) !in c.itemGrades[GradeKey(tl, skill, bookletId)]
    ensures GetItemGrade(c, tl, skill, bookletId, items) == Grade(SumScores(items), 0, "A1")
  {
  }

  // ---------------------------------------------------------------------
  // Free-text normalisation (removeWhiteSpaceAndPunctuation)

  /** The punctuation list holds the "%x" code of each character to drop. */
  predicate Listed(punctuation: seq<string>, c: char) {
    CharHex(c) in punctuation
  }

  /** `s` without its listed characters. */
  function StripListed(punctuation: seq<string>, s: string): (t: string)
    ensures |t| <= |s|
    ensures forall i :: 0 <= i < |t| ==> !Listed(punctuation, t[i])
    decreases |s|
  {
    if |s| == 0 then ""
    else (if Listed(punctuation, s[0]) then "" else [s[0]]) + StripListed(punctuation, s[1..])
  }

  /** removeWhiteSpaceAndPunctuation: with an empty punctuation list the text
      is returned unchanged; otherwise whitespace is collapsed and trimmed,
      listed characters are removed and the result is lower-cased. */
  function Normalise(punctuation: seq<string>, s: string): (t: string)
    ensures |punctuation| == 0 ==> t == s
    ensures |punctuation| > 0 ==> |t| <= |s|
    ensures |punctuation| > 0 ==> forall i :: 0 <= i < |t| ==> !('A' <= t[i] <= 'Z')
    ensures |punctuation| > 0 ==> PlainSpacesOnly(t)
    ensures |punctuation| > 0 ==> var collapsed := CollapseSpaces(s);
      t == ToLower(StripSet(collapsed, ListedSoFar(punctuation, collapsed, |collapsed|)))
  {
    if |punctuation| == 0 then s
    else
      var collapsed := CollapseSpaces(s);
      CollapseIsNoLonger(s);
      var stripped := StripListed(punctuation, collapsed);
      assert Collapsed(collapsed);
      StripKeepsOnlyPlainSpaces(punctuation, collapsed);
      LowerKeepsPlainSpaces(stripped);
      ListedSoFarComplete(punctuation, collapsed);
      ToLower(stripped)
  }

  lemma LowerKeepsPlainSpaces(s: string)
    requires PlainSpacesOnly(s)
    ensures PlainSpacesOnly(ToLower(s))
  {
  }

  lemma CollapseIsNoLonger(s: string)
    ensures |CollapseSpaces(s)| <= |s|
  {
    JoinNoLonger(s);
  }

  /** Joining the fields with single spaces is no longer than the input: each
      separator stands for at least one space between two fields, and a
      leading space is dropped. */
  lemma {:induction false} JoinNoLonger(s: string)
    ensures |Join(Fields(s), ' ')| <= |s|
    ensures |s| > 0 && IsSpace(s[0]) ==> |Join(Fields(s), ' ')| < |s|
    decreases |s|
  {
    if |s| == 0 {
    } else if IsSpace(s[0]) {
      JoinNoLonger(s[1..]);
    } else {
      var n := WordLength(s);
      var rest := Fields(s[n..]);
      JoinNoLonger(s[n..]);
      assert Fields(s) == [s[..n]] + rest;
      if |rest| > 0 {
        assert ([s[..n]] + rest)[1..] == rest;
        assert Join(Fields(s), ' ') == s[..n] + [' '] + Join(rest, ' ');
      } else {
        assert Join(Fields(s), ' ') == s[..n];
      }
    }
  }

  lemma StripKeepsOnlyPlainSpaces(punctuation: seq<string>, s: string)
    requires PlainSpacesOnly(s)
    ensures PlainSpacesOnly(StripListed(punctuation, s))
    decreases |s|
  {
    if |s| > 0 {
      StripKeepsOnlyPlainSpaces(punctuation, s[1..]);
    }
  }

  /** Every occurrence of `x` removed: strings.Replace(s, string(x), "", -1). */
  function RemoveAll(s: string, x: char): (t: string)
    ensures x !in t
    decreases |s|
  {
    if |s| == 0 then "" else (if s[0] == x then "" else [s[0]]) + RemoveAll(s[1..], x)
  }

  /** `s` without the characters of `gone`. */
  function StripSet(s: string, gone: set<char>): string
    decreases |s|
  {
    if |s| == 0 then "" else (if s[0] in gone then "" else [s[0]]) + StripSet(s[1..], gone)
  }

  lemma {:induction false} RemoveAllStripSet(s: string, gone: set<char>, x: char)
    ensures RemoveAll(StripSet(s, gone), x) == StripSet(s, gone + {x})
    decreases |s|
  {
    if |s| > 0 {
      RemoveAllStripSet(s[1..], gone, x);
      var head := if s[0] in gone then "" else [s[0]];
      RemoveAllAppend(head, StripSet(s[1..], gone), x);
    }
  }

  lemma {:induction false} RemoveAllAppend(a: string, b: string, x: char)
    ensures RemoveAll(a + b, x) == RemoveAll(a, x) + RemoveAll(b, x)
    decreases |a|
  {
    if |a| > 0 {
      assert (a + b)[1..] == a[1..] + b;
      RemoveAllAppend(a[1..], b, x);
    } else {
      assert a + b == b;
    }
  }

  lemma {:induction false} StripSetIsStripListed(punctuation: seq<string>, s: string, gone: set<char>)
    requires forall i :: 0 <= i < |s| ==> (s[i] in gone <==> Listed(punctuation, s[i]))
    ensures StripSet(s, gone) == StripListed(punctuation, s)
    decreases |s|
  {
    if |s| > 0 {
      StripSetIsStripListed(punctuation, s[1..], gone);
    }
  }

  lemma {:induction false} StripNothing(s: string)
    ensures StripSet(s, {}) == s
    decreases |s|
  {
    if |s| > 0 {
      StripNothing(s[1..]);
    }
  }

  /** The characters of `s[..i]` that the punctuation list names. */
  function ListedSoFar(punctuation: seq<string>, s: string, i: nat): set<char>
    requires i <= |s|
  {
    set j | 0 <= j < i && Listed(punctuation, s[j]) :: s[j]
  }

  /** The loop of removeWhiteSpaceAndPunctuation as written: for each
      character of the collapsed text (the range is evaluated once), when its
      hex code is listed, every occurrence of it is removed from the working
      copy. It computes exactly StripListed. */
  method RemovePunctuation(punctuation: seq<string>, s: string) returns (t: string)
    ensures t == StripListed(punctuation, s)
  {
    t := s;
    var i := 0;
    StripNothing(s);
    assert ListedSoFar(punctuation, s, 0) == {};
    while i < |s|
      invariant 0 <= i <= |s|
      invariant t == StripSet(s, ListedSoFar(punctuation, s, i))
    {
      ListedSoFarStep(punctuation, s, i);
      if Listed(punctuation, s[i]) {
        RemoveAllStripSet(s, ListedSoFar(punctuation, s, i), s[i]);
        assert ListedSoFar(punctuation, s, i + 1) == ListedSoFar(punctuation, s, i) + {s[i]};
        t := RemoveAll(t, s[i]);
      } else {
        assert ListedSoFar(punctuation, s, i + 1) == ListedSoFar(punctuation, s, i);
      }
      i := i + 1;
    }
    ListedSoFarComplete(punctuation, s);
  }

  /** One more character seen by the loop. */
  lemma ListedSoFarStep(punctuation: seq<string>, s: string, i: nat)
    requires i < |s|
    ensures ListedSoFar(punctuation, s, i + 1)
      == ListedSoFar(punctuation, s, i) + (if Listed(punctuation, s[i]) then {s[i]} else {})
  {
  }

  /** After the whole text, the removed characters are the listed ones. */
  lemma ListedSoFarComplete(punctuation: seq<string>, s: string)
    ensures StripSet(s, ListedSoFar(punctuation, s, |s|)) == StripListed(punctuation, s)
  {
    var gone := ListedSoFar(punctuation, s, |s|);
    forall k | 0 <= k < |s|
      ensures s[k] in gone <==> Listed(punctuation, s[k])
    {
      if s[k] in gone {
        var j :| 0 <= j < |s| && Listed(punctuation, s[j]) && s[j] == s[k];
      }
    }
    StripSetIsStripListed(punctuation, s, gone);
  }

  lemma {:induction false} StripSetAppend(a: string, b: string, gone: set<char>)
    ensures StripSet(a + b, gone) == StripSet(a, gone) + StripSet(b, gone)
    decreases |a|
  {
    if |a| == 0 {
      assert a + b == b;
    } else {
      assert (a + b)[1..] == a[1..] + b;
      StripSetAppend(a[1..], b, gone);
    }
  }

  /** A text with no removed character is left as it is. */
  lemma {:induction false} StripSetKeeps(s: string, gone: set<char>)
    requires forall i :: 0 <= i < |s| ==> s[i] !in gone
    ensures StripSet(s, gone) == s
    decreases |s|
  {
    if |s| > 0 {
      StripSetKeeps(s[1..], gone);
    }
  }

  /** A text of removed characters only is removed entirely. */
  lemma {:induction false} StripSetDrops(s: string, gone: set<char>)
    requires forall i :: 0 <= i < |s| ==> s[i] in gone
    ensures StripSet(s, gone) == ""
    decreases |s|
  {
    if |s| > 0 {
      StripSetDrops(s[1..], gone);
    }
  }

  /** Removing the characters of `gone` from a word, a removed separator, a
      word and a removed tail leaves the two words. */
  lemma StripPattern(gone: set<char>, w1: string, sep: string, w2: string, tail: string)
    requires forall i :: 0 <= i < |w1| ==> w1[i] !in gone
    requires forall i :: 0 <= i < |w2| ==> w2[i] !in gone
    requires forall i :: 0 <= i < |sep| ==> sep[i] in gone
    requires forall i :: 0 <= i < |tail| ==> tail[i] in gone
    ensures StripSet(w1 + sep + w2 + tail, gone) == w1 + w2
  {
    StripSetKeeps(w1, gone);
    StripSetDrops(sep, gone);
    StripSetAppend(w1, sep, gone);
    assert StripSet(w1 + sep, gone) == w1;
    StripSetKeeps(w2, gone);
    StripSetAppend(w1 + sep, w2, gone);
    assert StripSet(w1 + sep + w2, gone) == w1 + w2;
    StripSetDrops(tail, gone);
    StripSetAppend(w1 + sep + w2, tail, gone);
  }

  /** The list ["21", "2d"] names exactly '!' and '-'. */
  lemma ListedBangAndDash(c: char)
    ensures Listed(["21", "2d"], c) <==> c == '!' || c == '-'
    ensures Listed(["2d"], c) <==> c == '-'
  {
    assert Hex(33) == "21";
    assert Hex(45) == "2d";
    if CharHex(c) == "21" {
      HexInjective(c as int, 33);
    }
    if CharHex(c) == "2d" {
      HexInjective(c as int, 45);
    }
  }

  lemma BangAndDashListed()
    ensures forall c :: Listed(["21", "2d"], c) <==> c in {'!', '-'}
    ensures forall c :: Listed(["2d"], c) <==> c in {'-'}
  {
    forall c: char
      ensures Listed(["21", "2d"], c) <==> c in {'!', '-'}
      ensures Listed(["2d"], c) <==> c in {'-'}
    {
      ListedBangAndDash(c);
    }
  }

  /** A word padded by one space on each side has that word as its only field. */
  lemma FieldsAroundWord(s: string, w: string)
    requires |w| > 0 && NoSpace(w) && s == [' '] + w + [' ']
    ensures Fields(s) == [w]
  {
    assert s[0] == ' ' && s[1..] == w + [' '];
    assert Fields(s) == Fields(w + [' ']);
    WordLengthBeforeSpace(w, [' ']);
    assert (w + [' '])[..|w|] == w;
    assert (w + [' '])[|w|..] == [' '];
    assert Fields([' ']) == Fields([]);
  }

  /** A padded answer made of a word, listed punctuation, a word and
      listed punctuation normalises to the two words run together and
      lower-cased. */
  lemma NormaliseJoinsWords(p: seq<string>, gone: set<char>, w1: string, sep: string, w2: string, tail: string)
    requires |p| > 0
    requires forall c :: Listed(p, c) <==> c in gone
    requires |w1| > 0 && NoSpace(w1 + sep + w2 + tail)
    requires forall i :: 0 <= i < |w1| ==> w1[i] !in gone
    requires forall i :: 0 <= i < |w2| ==> w2[i] !in gone
    requires forall i :: 0 <= i < |sep| ==> sep[i] in gone
    requires forall i :: 0 <= i < |tail| ==> tail[i] in gone
    ensures Normalise(p, [' '] + w1 + sep + w2 + tail + [' ']) == ToLower(w1 + w2)
  {
    var word := w1 + sep + w2 + tail;
    var s := [' '] + w1 + sep + w2 + tail + [' '];
    assert s == [' '] + word + [' '];
    FieldsAroundWord(s, word);
    assert CollapseSpaces(s) == word;
    StripWordsAround(p, gone, w1, sep, w2, tail);
    NormaliseThrough(p, s, word, w1 + w2, ToLower(w1 + w2));
  }

  /** A lower-case word with no space and no listed character is already
      normal. */
  lemma NormaliseKeepsNormalWord(p: seq<string>, gone: set<char>, w: string)
    requires |p| > 0
    requires forall c :: Listed(p, c) <==> c in gone
    requires |w| > 0 && NoSpace(w) && ToLower(w) == w
    requires forall i :: 0 <= i < |w| ==> w[i] !in gone
    ensures Normalise(p, w) == w
  {
    FieldsOfWord(w);
    assert CollapseSpaces(w) == w;
    StripPlainWord(p, gone, w);
    NormaliseThrough(p, w, w, w, w);
  }

  /** " Run-dog!! " matches "rundog" when '!' (21) and '-' (2d) are listed. */
  lemma NormaliseExample(s: string)
    requires s == " Run-dog!! "
    ensures Normalise(["21", "2d"], s) == "rundog"
  {
    BangAndDashListed();
    var w1, sep, w2, tail := "Run", "-", "dog", "!!";
    assert s == [' '] + w1 + sep + w2 + tail + [' '];
    assert NoSpace(w1 + sep + w2 + tail);
    NormaliseJoinsWords(["21", "2d"], {'!', '-'}, w1, sep, w2, tail);
    assert w1 + w2 == "Rundog";
    LowerExample();
  }

  /** ... and "rundog" is already normal. */
  lemma NormalisedExampleIsStable(s: string)
    requires s == "rundog"
    ensures Normalise(["21", "2d"], s) == s
  {
    BangAndDashListed();
    LowerExample();
    NormaliseKeepsNormalWord(["21", "2d"], {'!', '-'}, s);
  }

  /** Normalisation is its three steps one after the other. */
  lemma NormaliseThrough(p: seq<string>, s: string, collapsed: string, stripped: string, lowered: string)
    requires |p| > 0
    requires CollapseSpaces(s) == collapsed
    requires StripListed(p, collapsed) == stripped
    requires ToLower(stripped) == lowered
    ensures Normalise(p, s) == lowered
  {
    NormaliseSteps(p, s);
  }

  /** With a list that names exactly the characters of `gone`, stripping
      the listed characters is removing `gone`. */
  lemma ListedAre(p: seq<string>, gone: set<char>, s: string)
    requires forall c :: Listed(p, c) <==> c in gone
    ensures StripListed(p, s) == StripSet(s, gone)
  {
    StripSetIsStripListed(p, s, gone);
  }

  /** Stripping with a list that names exactly `gone`, on a word, a listed
      separator, a word and a listed tail. */
  lemma StripWordsAround(p: seq<string>, gone: set<char>, w1: string, sep: string, w2: string, tail: string)
    requires forall c :: Listed(p, c) <==> c in gone
    requires forall i :: 0 <= i < |w1| ==> w1[i] !in gone
    requires forall i :: 0 <= i < |w2| ==> w2[i] !in gone
    requires forall i :: 0 <= i < |sep| ==> sep[i] in gone
    requires forall i :: 0 <= i < |tail| ==> tail[i] in gone
    ensures StripListed(p, w1 + sep + w2 + tail) == w1 + w2
  {
    ListedAre(p, gone, w1 + sep + w2 + tail);
    StripPattern(gone, w1, sep, w2, tail);
  }

  /** Stripping with a list that names exactly `gone` keeps a word without
      any of them. */
  lemma StripPlainWord(p: seq<string>, gone: set<char>, w: string)
    requires forall c :: Listed(p, c) <==> c in gone
    requires forall i :: 0 <= i < |w| ==> w[i] !in gone
    ensures StripListed(p, w) == w
  {
    ListedAre(p, gone, w);
    StripSetKeeps(w, gone);
  }

  lemma LowerExample()
    ensures ToLower("Rundog") == "rundog"
    ensures ToLower("rundog") == "rundog"
  {
  }

  lemma NormaliseSteps(punctuation: seq<string>, s: string)
    requires |punctuation| > 0
    ensures Normalise(punctuation, s) == ToLower(StripListed(punctuation, CollapseSpaces(s)))
  {
  }

  /** A word of the idempotence example: not empty, no space, no '-' and
      no upper-case letter. */
  predicate PlainWord(w: string) {
    && |w| > 0 && NoSpace(w)
    && forall i :: 0 <= i < |w| ==> w[i] != '-' && !('A' <= w[i] <= 'Z')
  }

  /** Text without upper-case letters is its own lower case. */
  lemma ToLowerKeeps(s: string)
    requires forall i :: 0 <= i < |s| ==> !('A' <= s[i] <= 'Z')
    ensures ToLower(s) == s
  {
  }

  /** Normalisation is not idempotent: removing '-' from "w1 - w2" leaves
      two adjacent spaces, which a second pass collapses. */
  lemma NormaliseNotIdempotent(w1: string, w2: string)
    requires PlainWord(w1) && PlainWord(w2)
    ensures Normalise(["2d"], w1 + " - " + w2) == w1 + "  " + w2
    ensures Normalise(["2d"], w1 + "  " + w2) == w1 + " " + w2
    ensures Normalise(["2d"], Normalise(["2d"], w1 + " - " + w2)) != Normalise(["2d"], w1 + " - " + w2)
  {
    DashLeavesDoubleSpace(w1, w2);
    DoubleSpaceCollapses(w1, w2);
    assert |w1 + "  " + w2| != |w1 + " " + w2|;
  }

  /** The first pass: the dash goes, both spaces around it stay. */
  lemma DashLeavesDoubleSpace(w1: string, w2: string)
    requires PlainWord(w1) && PlainWord(w2)
    ensures Normalise(["2d"], w1 + " - " + w2) == w1 + "  " + w2
  {
    CollapseAroundDash(w1, w2);
    StripDashBetween(w1, w2);
    ToLowerKeeps(w1 + "  " + w2);
    NormaliseThrough(["2d"], w1 + " - " + w2, w1 + " - " + w2, w1 + "  " + w2, w1 + "  " + w2);
  }

  lemma CollapseAroundDash(w1: string, w2: string)
    requires PlainWord(w1) && PlainWord(w2)
    ensures CollapseSpaces(w1 + " - " + w2) == w1 + " - " + w2
  {
    var words := [w1, "-", w2];
    assert words[1..] == ["-", w2] && words[1..][1..] == [w2];
    assert Join(words[1..], ' ') == "-" + [' '] + w2;
    assert Join(words, ' ') == w1 + " - " + w2;
    assert NoSpace("-");
    CollapseOfJoined(words);
  }

  lemma StripDashBetween(w1: string, w2: string)
    requires PlainWord(w1) && PlainWord(w2)
    ensures StripListed(["2d"], w1 + " - " + w2) == w1 + "  " + w2
  {
    BangAndDashListed();
    var a, b := w1 + " ", " " + w2;
    assert forall i :: 0 <= i < |a| ==> a[i] !in {'-'};
    assert forall i :: 0 <= i < |b| ==> b[i] !in {'-'};
    assert w1 + " - " + w2 == a + "-" + b + "";
    StripWordsAround(["2d"], {'-'}, a, "-", b, "");
    assert a + b == w1 + "  " + w2;
  }

  /** The second pass: the two spaces collapse to one. */
  lemma DoubleSpaceCollapses(w1: string, w2: string)
    requires PlainWord(w1) && PlainWord(w2)
    ensures Normalise(["2d"], w1 + "  " + w2) == w1 + " " + w2
  {
    CollapseDoubleSpace(w1, w2);
    BangAndDashListed();
    StripPlainWord(["2d"], {'-'}, w1 + " " + w2);
    ToLowerKeeps(w1 + " " + w2);
    NormaliseThrough(["2d"], w1 + "  " + w2, w1 + " " + w2, w1 + " " + w2, w1 + " " + w2);
  }
}
