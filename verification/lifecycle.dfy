/** The test as a sequence of requests on one session: what each handler's
    guard lets through after the others have run.
 */
module Lifecycle {
  import opened Outcomes
  import opened GoStrings
  import opened Sums
  import opened Forms
  import opened Catalog
  import opened Models
  import opened Scoring
  import opened SetTlHandler
  import opened StartTestHandler
  import opened SubmitBasketHandler

  /** The submission was of the booklet's last basket. */
  predicate LastBasket(c: Catalog, s: Session) {
    s.currentBasketNumber + 1 >= |BookletBaskets(c, s.bookletId)|
  }

  /** Finishing is not a terminal state: the session still holds a test in
      progress on the same basket, so the same basket can be submitted again
      and is graded again. */
  lemma CompletedTestStaysOpen(s: Session, c: Catalog, form: Entries)
    requires SubmitBasket(s, c, form).Ok?
    requires LastBasket(c, s)
    ensures var n := SubmitBasket(s, c, form).value.0;
      InProgress(n) && LastBasket(c, n) && n.currentBasketId == s.currentBasketId
  {
  }

  /** An mcq answer to the booklet's last basket reaches the grade: the raw
      score is what the earlier items scored plus the score the scorer gave
      the submitted answer. */
  lemma LastMcqAnswerReachesTheRawScore(s: Session, c: Catalog, form: Entries)
    requires FormValue(form, "basketType") == "mcq"
    requires SubmitBasket(s, c, form).Ok? && LastBasket(c, s)
    ensures var itemId, answerId := Atoi(FormValue(form, "itemId")).value, Atoi(FormValue(form, "response")).value;
      SubmitBasket(s, c, form).value.0.itemRawScore
        == SumScores(s.scoredItems) + ScoreIdResponse(c, itemId, answerId).value.score
  {
    var n := SubmitBasket(s, c, form).value.0;
    McqAddsOneItemAtTheEnd(s, c, form);
    assert n.scoredItems == s.scoredItems + [n.scoredItems[|s.scoredItems|]];
    var item := n.scoredItems[|s.scoredItems|];
    SumScoresAppend(s.scoredItems, [item]);
    assert Sum([item], ItemScore) == item.score + Sum([item][1..], ItemScore);
    assert n.itemRawScore == GetItemGrade(c, s.tes.tl, s.tes.skill, s.bookletId, n.scoredItems).rawScore;
  }

  /** A second submission after the last basket adds its items to those
      already graded: the raw score grows by the new items' scores and the
      basket is recorded twice. */
  lemma ResubmissionAddsToTheRawScore(s: Session, c: Catalog, f1: Entries, f2: Entries)
    requires SubmitBasket(s, c, f1).Ok? && LastBasket(c, s)
    requires SubmitBasket(SubmitBasket(s, c, f1).value.0, c, f2).Ok?
    ensures var n1 := SubmitBasket(s, c, f1).value.0;
      var n2 := SubmitBasket(n1, c, f2).value.0;
      && n2.itemRawScore == n1.itemRawScore + SumScores(n2.scoredItems[|n1.scoredItems|..])
      && |n2.scoredBaskets| == |s.scoredBaskets| + 2
      && n2.scoredBaskets[|s.scoredBaskets|].id == n2.scoredBaskets[|s.scoredBaskets| + 1].id
  {
    var n1 := SubmitBasket(s, c, f1).value.0;
    var n2 := SubmitBasket(n1, c, f2).value.0;
    CompletedTestStaysOpen(s, c, f1);
    assert n2.scoredItems == n1.scoredItems + n2.scoredItems[|n1.scoredItems|..];
    SumScoresAppend(n1.scoredItems, n2.scoredItems[|n1.scoredItems|..]);
  }

  /** Once one basket has been scored the test cannot be started again in
      the same pass. */
  lemma NoRestartAfterSubmit(s: Session, c: Catalog, form: Entries, sessionUuid: string)
    requires SubmitBasket(s, c, form).Ok?
    ensures StartTest(SubmitBasket(s, c, form).value.0, c, sessionUuid) == Err(ServerError)
  {
    var n := SubmitBasket(s, c, form).value.0;
    assert |n.scoredItems[|s.scoredItems|..]| > 0;
  }

  /** After choosing a language no basket can be submitted until the test
      is started, and starting is not blocked by an earlier attempt. */
  lemma SetTlRequiresStart(s: Session, form: Entries, passUuid: string, sessionUuid: string, c: Catalog, f: Entries)
    requires SetTl(s, form, passUuid, sessionUuid, true).Ok?
    ensures var n := SetTl(s, form, passUuid, sessionUuid, true).value.0;
      && SubmitBasket(n, c, f) == Err(ServerError)
      && n.tes.tl != "" && n.tes.skill != "" && |n.scoredItems| == 0
  {
  }

  /** A booklet of two baskets: the first submission moves to the second
      basket, and a successful second submission finishes and grades every
      item recorded in the pass. */
  lemma TwoBasketBooklet(s: Session, c: Catalog, f1: Entries, f2: Entries, b1: int, b2: int)
    requires s.currentBasketNumber == 0 && BookletBaskets(c, s.bookletId) == [b1, b2]
    requires SubmitBasket(s, c, f1).Ok?
    ensures var (n1, reply1) := SubmitBasket(s, c, f1).value;
      && reply1.NextBasket? && reply1.nextBasketId == b2
      && n1.currentBasketNumber == 1 && n1.currentBasketId == b2
      && (SubmitBasket(n1, c, f2).Ok? ==>
            var (n2, reply2) := SubmitBasket(n1, c, f2).value;
            && !reply2.NextBasket?
            && n2.itemRawScore == SumScores(n2.scoredItems)
            && |n2.scoredBaskets| == |s.scoredBaskets| + 2)
  {
    var (n1, reply1) := SubmitBasket(s, c, f1).value;
    assert Progresses(c, s, n1, reply1) && KeepsSetup(s, n1) && RecordsBasket(s, n1, reply1.basket);
    if SubmitBasket(n1, c, f2).Ok? {
      var (n2, reply2) := SubmitBasket(n1, c, f2).value;
      assert Progresses(c, n1, n2, reply2) && RecordsBasket(n1, n2, reply2.basket);
    }
  }
}
