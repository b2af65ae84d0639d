/** SubmitBasket: scoring one basket of the test, recording its items and
    moving to the next basket of the booklet, or grading the whole test
    after the last one.
 */
module SubmitBasketHandler {
  import opened Outcomes
  import opened GoStrings
  import opened Assoc
  import opened Forms
  import opened Catalog
  import opened Models
  import opened Scoring
  import opened Sorting

  // ---------------------------------------------------------------------
  // Multi-item baskets

  /** One response of a multi-item basket: an answer id or a free text. */
  datatype Response = IdResponse(itemId: int, answerId: int) | TextResponse(itemId: int, text: string)

  function IdResponseList(al: seq<(int, int)>): (rs: seq<Response>)
    ensures |rs| == |al|
    ensures forall i :: 0 <= i < |al| ==> rs[i] == IdResponse(al[i].0, al[i].1)
  {
    seq(|al|, i requires 0 <= i < |al| => IdResponse(al[i].0, al[i].1))
  }

  function TextResponseList(al: seq<(int, string)>): (rs: seq<Response>)
    ensures |rs| == |al|
    ensures forall i :: 0 <= i < |al| ==> rs[i] == TextResponse(al[i].0, al[i].1)
  {
    seq(|al|, i requires 0 <= i < |al| => TextResponse(al[i].0, al[i].1))
  }

  /** The scorer for the response's kind; `None` when it reports an error. */
  function ScoreResponse(c: Catalog, r: Response): Option<ScoredItem> {
    match r
    case IdResponse(itemId, answerId) => ScoreIdResponse(c, itemId, answerId)
    case TextResponse(itemId, text) => ScoreTextResponse(c, itemId, text)
  }

  /** What a multi-item basket is scored against: the catalog, the form,
      whether a non-numeric position is rejected (gapdrop) or ignored, the
      session's current basket and the number of items scored before. */
  datatype Placing = Placing(c: Catalog, form: Entries, strict: bool, basketId: int, numScored: int)

  /** The form key holding an item's position in its basket. */
  function PositionKey(itemId: int): string {
    Itoa(itemId) + "-position"
  }

  /** The position of an item: a missing one is rejected; a non-numeric one
      is rejected when strict and otherwise leaves the position at 0. */
  function PositionOf(p: Placing, itemId: int): (r: Result<int>)
    ensures r.Err? ==> r.failure == BadRequest
    ensures var v := FormValue(p.form, PositionKey(itemId));
      r.Err? <==> v == "" || (p.strict && Atoi(v).None?)
    ensures r.Ok? ==> r.value == AtoiOrZero(FormValue(p.form, PositionKey(itemId)))
  {
    var v := FormValue(p.form, PositionKey(itemId));
    if v == "" then Err(BadRequest)
    else
      match Atoi(v)
      case Some(n) => Ok(n)
      case None => if p.strict then Err(BadRequest) else Ok(0)
  }

  /** A scored item placed in the current basket and in the test. */
  function Place(p: Placing, item: ScoredItem, position: int): (placed: ScoredItem)
    ensures placed.item == item.item && placed.correct == item.correct && placed.score == item.score
    ensures placed.basketId == p.basketId && placed.positionInBasket == position
    ensures placed.positionInTest == Wrap64(p.numScored + position)
    ensures placed.answers == ItemAnswers(p.c, item.item.id)
  {
    item.(basketId := p.basketId, positionInBasket := position,
          positionInTest := Wrap64(p.numScored + position), answers := ItemAnswers(p.c, item.item.id))
  }

  /** One turn of the loop: a response that fails scoring is skipped
      (`Ok(None)`), one without a usable position rejects the basket. */
  function PlaceResponse(p: Placing, r: Response): (o: Result<Option<ScoredItem>>)
    ensures ScoreResponse(p.c, r).None? ==> o == Ok(None)
    ensures o.Err? ==> o.failure == BadRequest
    ensures ScoreResponse(p.c, r).Some? ==> var item := ScoreResponse(p.c, r).value;
      && (o.Err? <==> PositionOf(p, item.item.id).Err?)
      && (o.Ok? ==> o == Ok(Some(Place(p, item, PositionOf(p, item.item.id).value))))
    ensures o.Ok? && o.value.Some? ==> InPlace(p.basketId, p.numScored, o.value.value)
  {
    match ScoreResponse(p.c, r)
    case None => Ok(None)
    case Some(item) =>
      match PositionOf(p, item.item.id)
      case Err(e) => Err(e)
      case Ok(position) => Ok(Some(Place(p, item, position)))
  }

  /** The number of outcomes that place an item. */
  function CountPlaced<T(!new)>(os: seq<Result<Option<T>>>): nat
    decreases |os|
  {
    if |os| == 0 then 0
    else (if os[0].Ok? && os[0].value.Some? then 1 else 0) + CountPlaced(os[1..])
  }

  /** The loop over the responses' outcomes in visiting order: the first
      error aborts the whole basket, a skipped response leaves nothing, and
      every placed item is kept, in order. */
  function Gather<T(!new)>(os: seq<Result<Option<T>>>): (r: Result<seq<T>>)
    ensures r.Err? <==> exists i :: 0 <= i < |os| && os[i].Err?
    ensures r.Err? ==> Err(r.failure) in os
    ensures r.Ok? ==> |r.value| == CountPlaced(os)
    ensures r.Ok? ==> forall x :: x in r.value <==> Ok(Some(x)) in os
    decreases |os|
  {
    if |os| == 0 then Ok([])
    else
      assert os == [os[0]] + os[1..];
      match os[0]
      case Err(e) => Err(e)
      case Ok(first) =>
        match Gather(os[1..])
        case Err(e) =>
          var i :| 0 <= i < |os[1..]| && os[1..][i].Err?;
          assert os[i + 1].Err?;
          Err(e)
        case Ok(items) =>
          assert forall i :: 0 < i < |os| ==> os[i] == os[1..][i - 1];
          if first.Some? then Ok([first.value] + items) else Ok(items)
  }

  /** The item sits in the current basket, at the test position its basket
      position gives. */
  predicate InPlace(basketId: int, numScored: int, item: ScoredItem) {
    item.basketId == basketId && item.positionInTest == Wrap64(numScored + item.positionInBasket)
  }

  /** A scored basket: the new items (at least one), each in place, and the
      basket record holding them sorted by position. */
  predicate Filed(basketId: int, numScored: int, basketType: string, items: seq<ScoredItem>, basket: ScoredBasket) {
    && |items| > 0
    && basket.id == basketId && basket.basketType == basketType
    && multiset(basket.items) == multiset(items) && SortedBy(basket.items, BasketPosition)
    && forall item :: item in items ==> InPlace(basketId, numScored, item)
  }

  /** A basket of one item in place is filed. */
  lemma FiledAlone(basketId: int, numScored: int, basketType: string, placed: ScoredItem)
    requires InPlace(basketId, numScored, placed)
    ensures Filed(basketId, numScored, basketType, [placed], ScoredBasket(basketId, basketType, placed.item.skill, [placed]))
  {
  }

  /** The outcome of every response, in visiting order. */
  function Placements(p: Placing, responses: seq<Response>): (os: seq<Result<Option<ScoredItem>>>)
    ensures |os| == |responses|
    ensures forall i :: 0 <= i < |responses| ==> os[i] == PlaceResponse(p, responses[i])
  {
    seq(|responses|, i requires 0 <= i < |responses| => PlaceResponse(p, responses[i]))
  }

  /** The loop over a multi-item basket's responses: every placed item is
      kept, and one rejected position discards the basket. */
  function PlaceAll(p: Placing, responses: seq<Response>): (r: Result<seq<ScoredItem>>)
    ensures r.Err? <==> exists i :: 0 <= i < |responses| && PlaceResponse(p, responses[i]).Err?
    ensures r.Err? ==> r.failure == BadRequest
    ensures r.Ok? ==> forall item :: item in r.value <==>
      exists i :: 0 <= i < |responses| && PlaceResponse(p, responses[i]) == Ok(Some(item))
    ensures r.Ok? ==> forall item :: item in r.value ==> InPlace(p.basketId, p.numScored, item)
    ensures r.Ok? ==> |r.value| == CountPlaced(Placements(p, responses))
  {
    GatheredPlacements(p, responses);
    Gather(Placements(p, responses))
  }

  lemma GatheredPlacements(p: Placing, responses: seq<Response>)
    ensures var os, r := Placements(p, responses), Gather(Placements(p, responses));
      && (r.Err? <==> exists i :: 0 <= i < |responses| && PlaceResponse(p, responses[i]).Err?)
      && (r.Err? ==> r.failure == BadRequest)
      && (r.Ok? ==> forall item :: item in r.value <==>
            exists i :: 0 <= i < |responses| && PlaceResponse(p, responses[i]) == Ok(Some(item)))
      && (r.Ok? ==> forall item :: item in r.value ==> InPlace(p.basketId, p.numScored, item))
  {
    var os := Placements(p, responses);
    var r := Gather(os);
    if r.Err? {
      var i :| 0 <= i < |os| && os[i] == Err(r.failure);
      assert PlaceResponse(p, responses[i]).Err?;
    } else {
      forall item | item in r.value
        ensures InPlace(p.basketId, p.numScored, item)
        ensures exists i :: 0 <= i < |responses| && PlaceResponse(p, responses[i]) == Ok(Some(item))
      {
        var i :| 0 <= i < |os| && os[i] == Ok(Some(item));
        assert PlaceResponse(p, responses[i]) == Ok(Some(item));
      }
      forall item, i | 0 <= i < |responses| && PlaceResponse(p, responses[i]) == Ok(Some(item))
        ensures item in r.value
      {
        assert os[i] == Ok(Some(item));
      }
    }
  }

  /** The ordering of the basket's items. */
  predicate PositionLess(a: ScoredItem, b: ScoredItem) {
    a.positionInBasket < b.positionInBasket
  }

  function BasketPosition(item: ScoredItem): real {
    item.positionInBasket as real
  }

  /** The basket's items, sorted by their position in the basket. */
  function SortByPosition(items: seq<ScoredItem>): (r: seq<ScoredItem>)
    ensures multiset(r) == multiset(items)
    ensures SortedBy(r, BasketPosition)
  {
    SortIsSortedPermutation(items, PositionLess, BasketPosition);
    InsertionSort(items, PositionLess)
  }

  /** A scored multi-item basket: the new items in visiting order and the
      basket record with the items sorted; an empty basket panics, since
      the code reads the skill of its first item. */
  function MultiBasket(p: Placing, basketType: string, responses: seq<Response>): (r: Result<(seq<ScoredItem>, ScoredBasket)>)
    ensures PlaceAll(p, responses).Err? ==> r == Err(BadRequest)
    ensures PlaceAll(p, responses).Ok? ==> (r.Err? <==> PlaceAll(p, responses).value == [])
    ensures PlaceAll(p, responses) == Ok([]) ==> r == Err(Panic)
    ensures r.Err? ==> r.failure in {BadRequest, Panic}
    ensures r.Ok? ==> var (items, basket) := r.value;
      && items == PlaceAll(p, responses).value
      && Filed(p.basketId, p.numScored, basketType, items, basket)
      && |basket.items| > 0 && basket.skill == basket.items[0].item.skill
  {
    match PlaceAll(p, responses)
    case Err(e) => Err(e)
    case Ok(items) =>
      var sorted := SortByPosition(items);
      if |sorted| == 0 then Err(Panic)
      else Ok((items, ScoredBasket(p.basketId, basketType, sorted[0].item.skill, sorted)))
  }

  // ---------------------------------------------------------------------
  // The single-item (mcq) basket

  /** An mcq basket: item id and answer id from the form's "itemId" and
      "response" fields; the item is placed first in its basket and right
      after the `numScored` items scored before. */
  function McqBasket(c: Catalog, basketId: int, numScored: int, itemIdText: string, responseText: string): (r: Result<(seq<ScoredItem>, ScoredBasket)>)
    ensures Atoi(itemIdText).None? || Atoi(responseText).None? ==> r == Err(BadRequest)
    ensures r.Err? ==> r.failure in {BadRequest, ServerError}
    ensures r.Ok? <==>
      && Atoi(itemIdText).Some? && Atoi(responseText).Some?
      && ScoreIdResponse(c, Atoi(itemIdText).value, Atoi(responseText).value).Some?
    ensures Atoi(itemIdText).Some? && Atoi(responseText).Some? ==>
      (r == Err(ServerError) <==> ScoreIdResponse(c, Atoi(itemIdText).value, Atoi(responseText).value).None?)
    ensures r.Ok? ==> var itemId, answerId := Atoi(itemIdText).value, Atoi(responseText).value;
      && ScoreIdResponse(c, itemId, answerId).Some?
      && var (items, basket) := r.value;
      && |items| == 1 && basket.items == items
      && items[0].item == ScoreIdResponse(c, itemId, answerId).value.item
      && items[0].correct == ScoreIdResponse(c, itemId, answerId).value.correct
      && items[0].score == ScoreIdResponse(c, itemId, answerId).value.score
      && items[0].responseText == ScoreIdResponse(c, itemId, answerId).value.responseText
      && items[0].responseId == answerId
      && items[0].basketId == basketId && items[0].positionInBasket == 1
      && items[0].positionInTest == Wrap64(numScored + 1)
      && items[0].answers == ItemAnswers(c, itemId)
      && basket == ScoredBasket(basketId, "mcq", items[0].item.skill, items)
    ensures r.Ok? ==> Filed(basketId, numScored, "mcq", r.value.0, r.value.1)
  {
    match Atoi(itemIdText)
    case None => Err(BadRequest)
    case Some(itemId) =>
      match Atoi(responseText)
      case None => Err(BadRequest)
      case Some(answerId) =>
        match ScoreIdResponse(c, itemId, answerId)
        case None => Err(ServerError)
        case Some(item) =>
          var placed := item.(basketId := basketId, positionInBasket := 1, responseId := answerId,
                              positionInTest := Wrap64(numScored + 1), answers := ItemAnswers(c, itemId));
          FiledAlone(basketId, numScored, "mcq", placed);
          Ok(([placed], ScoredBasket(basketId, "mcq", placed.item.skill, [placed])))
  }

  // ---------------------------------------------------------------------
  // The basket switch

  const BasketTypes: set<string> := {"mcq", "tabbedpane", "shortanswer", "gaptext", "gapdrop"}

  function PlacingFor(s: Session, c: Catalog, form: Entries, strict: bool): Placing {
    Placing(c, form, strict, s.currentBasketId, |s.scoredItems|)
  }

  /** The switch on the basket type: an mcq basket needs a numeric item id
      and answer id naming a scorable item; a multi-item basket needs every
      scored response placed and at least one scored. */
  function ScoreBasket(s: Session, c: Catalog, form: Entries, basketType: string): (r: Result<(seq<ScoredItem>, ScoredBasket)>)
    ensures basketType !in BasketTypes ==> r == Err(BadRequest)
    ensures r.Err? ==> r.failure in {BadRequest, ServerError, Panic}
    ensures basketType == "mcq" ==>
      var itemId, answerId := Atoi(FormValue(form, "itemId")), Atoi(FormValue(form, "response"));
      && (r.Ok? <==> itemId.Some? && answerId.Some? && ScoreIdResponse(c, itemId.value, answerId.value).Some?)
      && (r == Err(ServerError) <==> itemId.Some? && answerId.Some? && ScoreIdResponse(c, itemId.value, answerId.value).None?)
    ensures basketType == "mcq" ==>
      r == McqBasket(c, s.currentBasketId, |s.scoredItems|, FormValue(form, "itemId"), FormValue(form, "response"))
    ensures basketType == "tabbedpane" || basketType == "gapdrop" ==>
      var placed := PlaceAll(PlacingFor(s, c, form, basketType == "gapdrop"), IdResponseList(IdResponses(form)));
      && (r.Ok? <==> placed.Ok? && placed.value != [])
      && (r == Err(Panic) <==> placed == Ok([]))
      && (r.Ok? ==> r.value.0 == placed.value)
    ensures basketType == "shortanswer" || basketType == "gaptext" ==>
      var placed := PlaceAll(PlacingFor(s, c, form, false), TextResponseList(TextResponses(form)));
      && (r.Ok? <==> placed.Ok? && placed.value != [])
      && (r == Err(Panic) <==> placed == Ok([]))
      && (r.Ok? ==> r.value.0 == placed.value)
    ensures r.Ok? ==> Filed(s.currentBasketId, |s.scoredItems|, basketType, r.value.0, r.value.1)
    ensures r.Ok? ==> |r.value.1.items| > 0 && r.value.1.skill == r.value.1.items[0].item.skill
  {
    if basketType == "mcq" then
      McqBasket(c, s.currentBasketId, |s.scoredItems|, FormValue(form, "itemId"), FormValue(form, "response"))
    else if basketType == "tabbedpane" then
      MultiBasket(PlacingFor(s, c, form, false), basketType, IdResponseList(IdResponses(form)))
    else if basketType == "shortanswer" || basketType == "gaptext" then
      MultiBasket(PlacingFor(s, c, form, false), basketType, TextResponseList(TextResponses(form)))
    else if basketType == "gapdrop" then
      MultiBasket(PlacingFor(s, c, form, true), basketType, IdResponseList(IdResponses(form)))
    else
      Err(BadRequest)
  }

  // ---------------------------------------------------------------------
  // The redirect after the last basket

  /** The query appended to the result URL: an existing query is kept only
      when the URL has exactly one '?'. */
  function RedirectUrl(resultUrl: string, grade: int, saLevel: string, vsptLevel: string): string {
    var parts := Split(resultUrl, '?');
    var query := if |parts| == 2 then "?" + parts[1] + "&" else "?";
    parts[0] + query + ResultParams(grade, saLevel, vsptLevel)
  }

  /** The result parameters, in the order the code writes them. */
  function ResultParams(grade: int, saLevel: string, vsptLevel: string): string {
    "itemGrade=" + Itoa(grade)
      + (if saLevel != "" then "&saLevel=" + saLevel else "")
      + (if vsptLevel != "" then "&vsptLevel=" + vsptLevel else "")
  }

  /** A URL without a query gets one. */
  lemma RedirectWithoutQuery(base: string, grade: int, saLevel: string, vsptLevel: string)
    requires '?' !in base
    ensures RedirectUrl(base, grade, saLevel, vsptLevel) == base + "?" + ResultParams(grade, saLevel, vsptLevel)
  {
    SplitJoin([base], '?');
  }

  /** A URL with one query keeps it, and the results follow an '&'. */
  lemma RedirectKeepsQuery(base: string, q: string, grade: int, saLevel: string, vsptLevel: string)
    requires '?' !in base && '?' !in q
    ensures RedirectUrl(base + "?" + q, grade, saLevel, vsptLevel) == base + "?" + q + "&" + ResultParams(grade, saLevel, vsptLevel)
  {
    assert Join([base, q], '?') == base + "?" + q;
    SplitJoin([base, q], '?');
  }

  /** A URL with more than one '?' loses everything after the first: only
      exactly two parts keep their query. */
  lemma RedirectDropsDoubleQuery(base: string, q1: string, q2: string, grade: int, saLevel: string, vsptLevel: string)
    requires '?' !in base && '?' !in q1 && '?' !in q2
    ensures RedirectUrl(base + "?" + q1 + "?" + q2, grade, saLevel, vsptLevel) == base + "?" + ResultParams(grade, saLevel, vsptLevel)
  {
    var url := base + "?" + q1 + "?" + q2;
    assert [base, q1, q2][1..] == [q1, q2];
    assert Join([q1, q2], '?') == q1 + "?" + q2;
    assert Join([base, q1, q2], '?') == url;
    SplitJoin([base, q1, q2], '?');
    assert Split(url, '?') == [base, q1, q2];
  }

  /** Empty levels are left out of the query. */
  lemma ResultParamsWithoutLevels(grade: int)
    ensures ResultParams(grade, "", "") == "itemGrade=" + Itoa(grade)
  {
  }

  // ---------------------------------------------------------------------
  // The handler

  /** What the client is told: the next basket, the level reached, or where
      to go with the results. Every reply carries the scored basket. */
  datatype SubmitReply =
    | NextBasket(basket: ScoredBasket, nextBasketId: int, itemsCompleted: int)
    | TestDone(basket: ScoredBasket, itemLevel: string)
    | Redirect(basket: ScoredBasket, url: string)

  /** The session holds a test in progress. */
  predicate InProgress(s: Session) {
    s.tes.tl != "" && s.tes.skill != "" && s.currentBasketId != 0
  }

  /** A submission leaves the visitor, the pass, the pre-test results and the
      booklet alone. */
  predicate KeepsSetup(s: Session, n: Session) {
    && SameIdentity(s, n)
    && n.vsptSubmitted == s.vsptSubmitted && n.vsptMearaScore == s.vsptMearaScore
    && n.vsptZScore == s.vsptZScore && n.vsptLevel == s.vsptLevel
    && n.saSubmitted == s.saSubmitted && n.saPpe == s.saPpe && n.saLevel == s.saLevel && n.saDone == s.saDone
    && n.bookletId == s.bookletId && n.bookletLength == s.bookletLength
  }

  /** After a basket: the next basket of the booklet when there is one;
      otherwise the test is graded over every item scored so far, and the
      client is sent to the result URL when the session has one. */
  predicate Progresses(c: Catalog, s: Session, n: Session, reply: SubmitReply) {
    var ids, next := BookletBaskets(c, s.bookletId), s.currentBasketNumber + 1;
    && (0 <= next < |ids| ==>
          && reply == NextBasket(reply.basket, ids[next], |n.scoredItems|)
          && n.currentBasketNumber == next && n.currentBasketId == ids[next]
          && n.itemRawScore == s.itemRawScore && n.itemGrade == s.itemGrade && n.itemLevel == s.itemLevel)
    && (next >= |ids| ==>
          && !reply.NextBasket?
          && n.currentBasketNumber == s.currentBasketNumber && n.currentBasketId == s.currentBasketId
          && Grade(n.itemRawScore, n.itemGrade, n.itemLevel) == GetItemGrade(c, s.tes.tl, s.tes.skill, s.bookletId, n.scoredItems)
          && (reply.Redirect? <==> s.resultUrl != "")
          && (reply.Redirect? ==> reply.url == RedirectUrl(s.resultUrl, n.itemGrade, s.saLevel, s.vsptLevel))
          && (reply.TestDone? ==> reply.itemLevel == n.itemLevel))
  }

  /** Everything after the switch: record the basket, then advance or grade.
      A negative basket number indexes out of range and panics. */
  function Advance(c: Catalog, s: Session, newItems: seq<ScoredItem>, basket: ScoredBasket): (r: Result<(Session, SubmitReply)>)
    ensures r.Err? <==> s.currentBasketNumber + 1 < 0
    ensures r.Err? ==> r.failure == Panic
    ensures r.Ok? ==> var (n, reply) := r.value;
      && KeepsSetup(s, n)
      && n.scoredItems == s.scoredItems + newItems && n.scoredBaskets == s.scoredBaskets + [basket]
      && reply.basket == basket
      && Progresses(c, s, n, reply)
  {
    var itemList := s.scoredItems + newItems;
    var n := s.(scoredItems := itemList, scoredBaskets := s.scoredBaskets + [basket]);
    var next := s.currentBasketNumber + 1;
    var ids := BookletBaskets(c, s.bookletId);
    if next >= |ids| then
      var g := GetItemGrade(c, s.tes.tl, s.tes.skill, s.bookletId, itemList);
      var n := n.(itemRawScore := g.rawScore, itemGrade := g.grade, itemLevel := g.level);
      if s.resultUrl != "" then Ok((n, Redirect(basket, RedirectUrl(s.resultUrl, g.grade, s.saLevel, s.vsptLevel))))
      else Ok((n, TestDone(basket, g.level)))
    else if next < 0 then Err(Panic)
    else
      var n := n.(currentBasketNumber := next, currentBasketId := ids[next]);
      Ok((n, NextBasket(basket, ids[next], |itemList|)))
  }

  /** The new session records the basket: its items after the old ones and
      the basket record after the old baskets. */
  predicate RecordsBasket(s: Session, n: Session, basket: ScoredBasket) {
    && |n.scoredItems| >= |s.scoredItems|
    && n.scoredItems[..|s.scoredItems|] == s.scoredItems
    && n.scoredBaskets == s.scoredBaskets + [basket]
  }

  function SubmitBasket(s: Session, c: Catalog, form: Entries): (r: Result<(Session, SubmitReply)>)
    ensures !InProgress(s) ==> r == Err(ServerError)
    ensures InProgress(s) && FormValue(form, "basketType") !in BasketTypes ==> r == Err(BadRequest)
    ensures r.Err? ==> r.failure in {BadRequest, ServerError, Panic}
    ensures r.Ok? <==>
      && InProgress(s)
      && ScoreBasket(s, c, form, FormValue(form, "basketType")).Ok?
      && s.currentBasketNumber + 1 >= 0
    ensures InProgress(s) && ScoreBasket(s, c, form, FormValue(form, "basketType")).Err? ==>
      r == Err(ScoreBasket(s, c, form, FormValue(form, "basketType")).failure)
    ensures r.Ok? ==> var (n, reply) := r.value;
      && KeepsSetup(s, n)
      && RecordsBasket(s, n, reply.basket)
      && Filed(s.currentBasketId, |s.scoredItems|, FormValue(form, "basketType"), n.scoredItems[|s.scoredItems|..], reply.basket)
      && (n.scoredItems[|s.scoredItems|..], reply.basket) == ScoreBasket(s, c, form, FormValue(form, "basketType")).value
      && Progresses(c, s, n, reply)
  {
    if !InProgress(s) then Err(ServerError)
    else
      var basketType := FormValue(form, "basketType");
      if basketType == "" then Err(BadRequest)
      else
        match ScoreBasket(s, c, form, basketType)
        case Err(e) => Err(e)
        case Ok((newItems, basket)) =>
          var r := Advance(c, s, newItems, basket);
          if r.Ok? then
            var itemList := s.scoredItems + newItems;
            assert itemList[..|s.scoredItems|] == s.scoredItems && itemList[|s.scoredItems|..] == newItems;
            r
          else r
  }

  // ---------------------------------------------------------------------
  // Properties of single submissions

  /** An mcq submission adds exactly one item, first in its basket and at
      the next position of the test, carrying the score and correctness the
      scorer gave the submitted answer. */
  lemma McqAddsOneItemAtTheEnd(s: Session, c: Catalog, form: Entries)
    requires FormValue(form, "basketType") == "mcq"
    requires SubmitBasket(s, c, form).Ok?
    ensures var (n, reply) := SubmitBasket(s, c, form).value;
      var scored := ScoreIdResponse(c, Atoi(FormValue(form, "itemId")).value, Atoi(FormValue(form, "response")).value).value;
      && |n.scoredItems| == |s.scoredItems| + 1
      && n.scoredItems[|s.scoredItems|] == reply.basket.items[0]
      && reply.basket.items[0].positionInBasket == 1
      && reply.basket.items[0].positionInTest == Wrap64(|s.scoredItems| + 1)
      && reply.basket.items[0].item == scored.item
      && reply.basket.items[0].score == scored.score
      && reply.basket.items[0].correct == scored.correct
  {
  }

  /** A multi-item submission records exactly the items placed from the
      form's responses, in the order they were visited. */
  lemma MultiItemRecordsPlacedItems(s: Session, c: Catalog, form: Entries)
    requires FormValue(form, "basketType") in {"tabbedpane", "gapdrop"}
    requires SubmitBasket(s, c, form).Ok?
    ensures var basketType := FormValue(form, "basketType");
      var placed := PlaceAll(PlacingFor(s, c, form, basketType == "gapdrop"), IdResponseList(IdResponses(form)));
      var n := SubmitBasket(s, c, form).value.0;
      && placed.Ok?
      && n.scoredItems == s.scoredItems + placed.value
  {
  }

  /** The text-answer counterpart: short-answer and gap-text submissions
      record the items placed from the form's text responses. */
  lemma TextItemsRecordPlacedItems(s: Session, c: Catalog, form: Entries)
    requires FormValue(form, "basketType") in {"shortanswer", "gaptext"}
    requires SubmitBasket(s, c, form).Ok?
    ensures var placed := PlaceAll(PlacingFor(s, c, form, false), TextResponseList(TextResponses(form)));
      var n := SubmitBasket(s, c, form).value.0;
      && placed.Ok?
      && n.scoredItems == s.scoredItems + placed.value
  {
  }

  /** An mcq submission to a test in progress, at a basket number that
      indexes the booklet, is accepted exactly when both ids are numeric and
      name a scorable item; a scorer error is a server error. */
  lemma McqSubmissionAccepted(s: Session, c: Catalog, form: Entries)
    requires InProgress(s) && s.currentBasketNumber >= 0
    requires FormValue(form, "basketType") == "mcq"
    ensures var itemId, answerId := Atoi(FormValue(form, "itemId")), Atoi(FormValue(form, "response"));
      && (SubmitBasket(s, c, form).Ok? <==>
            itemId.Some? && answerId.Some? && ScoreIdResponse(c, itemId.value, answerId.value).Some?)
      && (SubmitBasket(s, c, form) == Err(ServerError) <==>
            itemId.Some? && answerId.Some? && ScoreIdResponse(c, itemId.value, answerId.value).None?)
  {
  }

  /** A scored item whose position field is missing rejects the whole
      basket: nothing is recorded. */
  lemma MissingPositionRejectsBasket(s: Session, c: Catalog, form: Entries, i: int)
    requires InProgress(s) && FormValue(form, "basketType") == "tabbedpane"
    requires 0 <= i < |IdResponses(form)|
    requires var r := IdResponses(form)[i];
      ScoreIdResponse(c, r.0, r.1).Some? && FormValue(form, PositionKey(ScoreIdResponse(c, r.0, r.1).value.item.id)) == ""
    ensures SubmitBasket(s, c, form) == Err(BadRequest)
  {
    var p := PlacingFor(s, c, form, false);
    var responses := IdResponseList(IdResponses(form));
    assert PlaceResponse(p, responses[i]).Err?;
    assert PlaceAll(p, responses).Err?;
    assert ScoreBasket(s, c, form, "tabbedpane") == Err(BadRequest);
  }

  /** A non-numeric position is ignored (position 0) in tabbedpane,
      shortanswer and gaptext baskets but rejects a gapdrop basket. */
  lemma NonNumericPosition(p: Placing, itemId: int)
    requires FormValue(p.form, PositionKey(itemId)) != "" && Atoi(FormValue(p.form, PositionKey(itemId))).None?
    ensures p.strict ==> PositionOf(p, itemId) == Err(BadRequest)
    ensures !p.strict ==> PositionOf(p, itemId) == Ok(0)
  {
  }

  /** A multi-item basket in which no response scores panics: the code reads
      the skill of the first sorted item. */
  lemma EmptyBasketPanics(s: Session, c: Catalog, form: Entries)
    requires InProgress(s) && FormValue(form, "basketType") == "shortanswer"
    requires forall i :: 0 <= i < |TextResponses(form)| ==> TextResponses(form)[i].0 !in c.items
    ensures SubmitBasket(s, c, form) == Err(Panic)
  {
    var rs := TextResponseList(TextResponses(form));
    var p := PlacingFor(s, c, form, false);
    forall i | 0 <= i < |rs|
      ensures PlaceResponse(p, rs[i]) == Ok(None)
    {
      assert rs[i].itemId == TextResponses(form)[i].0;
      assert ScoreResponse(c, rs[i]).None?;
    }
    NothingPlaced(p, rs);
    assert ScoreBasket(s, c, form, "shortanswer") == Err(Panic);
  }

  /** A basket whose every response is skipped places nothing. */
  lemma NothingPlaced(p: Placing, rs: seq<Response>)
    requires forall i :: 0 <= i < |rs| ==> PlaceResponse(p, rs[i]) == Ok(None)
    ensures PlaceAll(p, rs) == Ok([])
  {
    NoneCountsZero(Placements(p, rs));
  }

  lemma {:induction false} NoneCountsZero<T(!new)>(os: seq<Result<Option<T>>>)
    requires forall i :: 0 <= i < |os| ==> os[i] == Ok(None)
    ensures CountPlaced(os) == 0
    decreases |os|
  {
    if |os| > 0 {
      NoneCountsZero(os[1..]);
    }
  }

  // ---------------------------------------------------------------------
  // What the handler reads from the form

  /** A key the handler never looks at: not a response or a position, and
      none of the fixed field names. */
  predicate Unread(key: string) {
    && !HasSuffix(key, "-response") && !HasSuffix(key, "-position")
    && key != "basketType" && key != "itemId" && key != "response"
  }

  lemma PositionKeyIsPosition(itemId: int)
    ensures HasSuffix(PositionKey(itemId), "-position")
  {
    var k := PositionKey(itemId);
    assert k[|k| - |"-position"|..] == "-position";
  }

  lemma PlacementIgnoresUnread(p: Placing, i: nat, e: (string, string), r: Response)
    requires i <= |p.form| && Unread(e.0)
    ensures PlaceResponse(p.(form := p.form[..i] + [e] + p.form[i..]), r) == PlaceResponse(p, r)
  {
    var q := p.(form := p.form[..i] + [e] + p.form[i..]);
    if ScoreResponse(p.c, r).Some? {
      var id := ScoreResponse(p.c, r).value.item.id;
      PositionKeyIsPosition(id);
      assert e.0 != PositionKey(id);
      FormValueIgnoresInsertedKey(p.form, i, e, PositionKey(id));
      PositionOfSameValue(p, q, id);
    }
    PlaceResponseSamePosition(p, q, r);
  }

  /** A placing that differs only in the form places a response the same
      way when the response's position reads the same. */
  lemma PlaceResponseSamePosition(p: Placing, q: Placing, r: Response)
    requires q == p.(form := q.form)
    requires ScoreResponse(p.c, r).Some? ==>
      var id := ScoreResponse(p.c, r).value.item.id;
      PositionOf(q, id) == PositionOf(p, id)
    ensures PlaceResponse(q, r) == PlaceResponse(p, r)
  {
    match ScoreResponse(p.c, r)
    case None =>
    case Some(item) =>
      var position := PositionOf(p, item.item.id);
      assert PositionOf(q, item.item.id) == position;
      if position.Ok? {
        assert Place(q, item, position.value) == Place(p, item, position.value);
      }
  }

  /** The position depends on the form only through the item's position key. */
  lemma PositionOfSameValue(p: Placing, q: Placing, itemId: int)
    requires q.strict == p.strict
    requires FormValue(q.form, PositionKey(itemId)) == FormValue(p.form, PositionKey(itemId))
    ensures PositionOf(q, itemId) == PositionOf(p, itemId)
  {
  }

  lemma PlaceAllIgnoresUnread(p: Placing, i: nat, e: (string, string), rs: seq<Response>)
    requires i <= |p.form| && Unread(e.0)
    ensures PlaceAll(p.(form := p.form[..i] + [e] + p.form[i..]), rs) == PlaceAll(p, rs)
  {
    var q := p.(form := p.form[..i] + [e] + p.form[i..]);
    forall j | 0 <= j < |rs|
      ensures PlaceResponse(q, rs[j]) == PlaceResponse(p, rs[j])
    {
      PlacementIgnoresUnread(p, i, e, rs[j]);
    }
    assert Placements(q, rs) == Placements(p, rs);
  }

  lemma MultiBasketIgnoresUnread(p: Placing, i: nat, e: (string, string), basketType: string, rs: seq<Response>)
    requires i <= |p.form| && Unread(e.0)
    ensures MultiBasket(p.(form := p.form[..i] + [e] + p.form[i..]), basketType, rs) == MultiBasket(p, basketType, rs)
  {
    PlaceAllIgnoresUnread(p, i, e, rs);
  }

  lemma ScoreBasketIgnoresUnread(s: Session, c: Catalog, form: Entries, i: nat, e: (string, string), basketType: string)
    requires i <= |form| && Unread(e.0)
    ensures ScoreBasket(s, c, form[..i] + [e] + form[i..], basketType) == ScoreBasket(s, c, form, basketType)
  {
    var g := form[..i] + [e] + form[i..];
    var strict := basketType == "gapdrop";
    var p := PlacingFor(s, c, form, strict);
    assert PlacingFor(s, c, g, strict) == p.(form := p.form[..i] + [e] + p.form[i..]);
    ResponsesIgnoreOtherKeys(form, i, e);
    if basketType == "mcq" {
      FormValueIgnoresInsertedKey(form, i, e, "itemId");
      FormValueIgnoresInsertedKey(form, i, e, "response");
    } else if basketType == "shortanswer" || basketType == "gaptext" {
      MultiBasketIgnoresUnread(p, i, e, basketType, TextResponseList(TextResponses(form)));
    } else if basketType == "tabbedpane" || basketType == "gapdrop" {
      MultiBasketIgnoresUnread(p, i, e, basketType, IdResponseList(IdResponses(form)));
    }
  }

  /** A form entry the handler does not read cannot change the outcome of a
      submission, whatever its value and wherever it stands in the form. */
  lemma UnreadEntryIgnored(s: Session, c: Catalog, form: Entries, i: nat, e: (string, string))
    requires i <= |form| && Unread(e.0)
    ensures SubmitBasket(s, c, form[..i] + [e] + form[i..]) == SubmitBasket(s, c, form)
  {
    FormValueIgnoresInsertedKey(form, i, e, "basketType");
    ScoreBasketIgnoresUnread(s, c, form, i, e, FormValue(form, "basketType"));
  }

  /** The handler never compares a basket id sent by the client with the
      session's: adding one anywhere in the form changes nothing. */
  lemma ClientBasketIdIgnored(s: Session, c: Catalog, form: Entries, i: nat, basketId: string)
    requires i <= |form|
    ensures SubmitBasket(s, c, form[..i] + [("basketId", basketId)] + form[i..]) == SubmitBasket(s, c, form)
  {
    UnreadEntryIgnored(s, c, form, i, ("basketId", basketId));
  }
}
