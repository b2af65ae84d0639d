/** The session record and the scored-item records, and the reset applied
    when a new test language and skill are chosen.
 */
module Models {
  import opened Catalog

  /** The Test Execution Script: which stages are shown, for which languages. */
  datatype Tes = Tes(
    al: string,
    tl: string,
    skill: string,
    hideVspt: bool,
    hideVsptResult: bool,
    hideSa: bool,
    hideTest: bool,
    hideFeedbackMenu: bool,
    disallowInstantFeedback: bool,
    testCompleteUrl: string)

  const EmptyTes: Tes := Tes("", "", "", false, false, false, false, false, false, "")

  /** One scored response: the item, where it sat, what was answered, and
      the answer snapshot recorded for audit. */
  datatype ScoredItem = ScoredItem(
    item: Item,
    basketId: int,
    positionInBasket: int,
    positionInTest: int,
    responseId: int,
    responseText: string,
    correct: bool,
    score: int,
    answers: seq<Answer>)

  /** A submitted basket: its id, presentation type, skill and scored items. */
  datatype ScoredBasket = ScoredBasket(id: int, basketType: string, skill: string, items: seq<ScoredItem>)

  datatype Session = Session(
    sessionId: string,
    passId: string,
    vsptSubmitted: bool,
    vsptMearaScore: int,
    vsptZScore: real,
    vsptLevel: string,
    saSubmitted: bool,
    saPpe: real,
    saLevel: string,
    saDone: bool,
    bookletId: int,
    bookletLength: int,
    currentBasketId: int,
    currentBasketNumber: int,
    scoredItems: seq<ScoredItem>,
    scoredBaskets: seq<ScoredBasket>,
    itemRawScore: int,
    itemGrade: int,
    itemLevel: string,
    resultUrl: string,
    tes: Tes)

  /** Go's zero value of the session record. */
  const ZeroSession: Session :=
    Session("", "", false, 0, 0.0, "", false, 0.0, "", false, 0, 0, 0, 0, [], [], 0, 0, "", "", EmptyTes)

  /** No pre-test result, no booklet, no progress and no final grade. */
  predicate AttemptCleared(s: Session) {
    && !s.vsptSubmitted && s.vsptMearaScore == 0 && s.vsptZScore == 0.0 && s.vsptLevel == ""
    && !s.saSubmitted && s.saPpe == 0.0 && s.saLevel == "" && !s.saDone
    && s.bookletId == 0 && s.bookletLength == 0
    && s.currentBasketId == 0 && s.currentBasketNumber == 0
    && s.scoredItems == [] && s.scoredBaskets == []
    && s.itemRawScore == 0 && s.itemGrade == 0 && s.itemLevel == ""
  }

  /** The fields that identify the visitor and the pass rather than an attempt. */
  predicate SameIdentity(s: Session, t: Session) {
    s.sessionId == t.sessionId && s.passId == t.passId && s.resultUrl == t.resultUrl && s.tes == t.tes
  }

  /** DialangSession.ResetPass: forget the attempt, keep the identity. */
  function ResetPass(s: Session): (r: Session)
    ensures AttemptCleared(r)
    ensures SameIdentity(r, s)
  {
    s.(vsptSubmitted := false, vsptMearaScore := 0, vsptZScore := 0.0, vsptLevel := "",
       saSubmitted := false, saPpe := 0.0, saLevel := "", saDone := false,
       bookletId := 0, bookletLength := 0, currentBasketId := 0, currentBasketNumber := 0,
       scoredItems := [], scoredBaskets := [],
       itemRawScore := 0, itemGrade := 0, itemLevel := "")
  }

  /** A reset session is determined by the identity fields alone, so a second
      reset changes nothing. */
  lemma ResetPassIdempotent(s: Session)
    ensures ResetPass(ResetPass(s)) == ResetPass(s)
  {
  }

  /** Two sessions with the same identity reset to the same value, whatever
      attempts they carried. */
  lemma ResetPassForgetsAttempt(s: Session, t: Session)
    requires SameIdentity(s, t)
    ensures ResetPass(s) == ResetPass(t)
  {
  }
}
