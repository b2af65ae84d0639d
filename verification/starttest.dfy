/** StartTest: choosing the booklet and its first basket. */
module StartTestHandler {
  import opened Outcomes
  import opened Catalog
  import opened Models
  import opened Scoring

  datatype StartReply = StartReply(startBasket: int, totalItems: int)

  /** The first basket of a booklet; indexing an empty list panics. */
  function FirstBasket(c: Catalog, bookletId: int): (r: Result<int>)
    ensures r.Ok? <==> |BookletBaskets(c, bookletId)| > 0
    ensures r.Err? ==> r.failure == Panic
    ensures r.Ok? ==> r.value == BookletBaskets(c, bookletId)[0]
  {
    var baskets := BookletBaskets(c, bookletId);
    if |baskets| == 0 then Err(Panic) else Ok(baskets[0])
  }

  /** The handler's own booklet choice, which has no difficulty override:
      the middle assignment without pre-test results (a panic when there is
      none), otherwise the first assignment whose threshold is not below the
      estimate, and 0 when no threshold is. */
  function HandlerBookletId(c: Catalog, s: Session): (r: Result<int>)
    ensures r.Err? ==> r.failure == Panic
    ensures var list := Assignments(c, AssignmentKey(s.tes.tl, s.tes.skill));
      !s.vsptSubmitted && !s.saSubmitted ==>
        && (r.Ok? <==> |list| >= 2)
        && (r.Ok? ==> r.value == list[1].bookletId)
    ensures var list, pe := Assignments(c, AssignmentKey(s.tes.tl, s.tes.skill)), Estimate(c, s);
      s.vsptSubmitted || s.saSubmitted ==>
        && r.Ok?
        && (forall i :: FirstFitAt(list, pe, i) ==> r.value == list[i].bookletId)
        && ((forall i :: 0 <= i < |list| ==> list[i].pe < pe) ==> r.value == 0)
  {
    CalculateBookletId(c, s, "")
  }

  /** `sessionUuid` is the id the generator would hand out. */
  function StartTest(s: Session, c: Catalog, sessionUuid: string): (r: Result<(Session, StartReply)>)
    ensures r == Err(ServerError) <==> s.tes.tl == "" || s.tes.skill == "" || |s.scoredItems| > 0
    ensures r.Err? ==> r.failure in {ServerError, Panic}
    ensures r.Ok? <==>
      && s.tes.tl != "" && s.tes.skill != "" && |s.scoredItems| == 0
      && HandlerBookletId(c, s).Ok?
      && FirstBasket(c, HandlerBookletId(c, s).value).Ok?
    ensures r.Ok? ==> var (n, reply) := r.value;
      && HandlerBookletId(c, s) == Ok(n.bookletId)
      && FirstBasket(c, n.bookletId) == Ok(n.currentBasketId)
      && n.sessionId == (if s.sessionId == "" then sessionUuid else s.sessionId)
      && n == s.(bookletId := n.bookletId, currentBasketId := n.currentBasketId, sessionId := n.sessionId)
      && reply == StartReply(n.currentBasketId, BookletLength(c, n.bookletId))
  {
    if s.tes.tl == "" || s.tes.skill == "" then Err(ServerError)
    else if |s.scoredItems| > 0 then Err(ServerError)
    else
      match HandlerBookletId(c, s)
      case Err(e) => Err(e)
      case Ok(bookletId) =>
        match FirstBasket(c, bookletId)
        case Err(e) => Err(e)
        case Ok(first) =>
          var n := s.(bookletId := bookletId, currentBasketId := first);
          var n := if n.sessionId == "" then n.(sessionId := sessionUuid) else n;
          Ok((n, StartReply(first, BookletLength(c, bookletId))))
  }

  /** Without pre-test results the second assignment's booklet is used: the
      test starts exactly when there are at least two assignments and that
      booklet has a basket, and otherwise the handler panics. */
  lemma StartWithoutPretests(s: Session, c: Catalog, sessionUuid: string)
    requires s.tes.tl != "" && s.tes.skill != "" && |s.scoredItems| == 0
    requires !s.vsptSubmitted && !s.saSubmitted
    ensures var list, r := Assignments(c, AssignmentKey(s.tes.tl, s.tes.skill)), StartTest(s, c, sessionUuid);
      && (r.Ok? <==> |list| >= 2 && |BookletBaskets(c, list[1].bookletId)| > 0)
      && (r.Err? ==> r.failure == Panic)
      && (r.Ok? ==> r.value.0.bookletId == list[1].bookletId
                    && r.value.0.currentBasketId == BookletBaskets(c, list[1].bookletId)[0])
  {
    NoPretestPicksMiddle(c, s);
  }

  /** The stored booklet length and basket number are not touched. */
  lemma StartTestLeavesLengthAndNumber(s: Session, c: Catalog, sessionUuid: string)
    requires StartTest(s, c, sessionUuid).Ok?
    ensures var n := StartTest(s, c, sessionUuid).value.0;
      n.bookletLength == s.bookletLength && n.currentBasketNumber == s.currentBasketNumber
  {
  }
}
