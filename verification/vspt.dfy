/** The Vocabulary Size Placement Test scorer: yes/no answers to real and
    fake words give a signal-detection z score, a Meara score in [0, 1000]
    and the CEFR level of the band the Meara score falls in.
 */
module Vspt {
  import opened Outcomes
  import opened GoStrings
  import opened Assoc
  import opened Forms
  import opened Catalog
  import opened Models

  /** The responses of a decoded body: "word:<id>" keys only, true exactly
      when the value is "valid"; a later entry for the same id wins. The map
      answers exactly the ids after the colon of the "word:" keys, each with
      the reading of one of its entries. */
  function VsptResponses(body: Entries): (m: map<string, bool>)
    ensures ReadsWordKeys(body, m)
  {
    VsptResponsesFromWordKeys(body);
    LastWins(PrefixedResponses(body, "word:", "valid"))
  }

  /** `m` answers exactly the ids after the colon of the "word:" keys of
      `body`, each with the reading (value == "valid") of one of its
      entries. */
  ghost predicate ReadsWordKeys(body: Entries, m: map<string, bool>) {
    && (forall id :: id in m <==> exists j :: 0 <= j < |body| && KeyReadsAs(body[j], "word:", id))
    && (forall id :: id in m ==>
          exists j :: 0 <= j < |body| && KeyReadsAs(body[j], "word:", id) && m[id] == (body[j].1 == "valid"))
  }

  lemma VsptResponsesFromWordKeys(body: Entries)
    ensures ReadsWordKeys(body, LastWins(PrefixedResponses(body, "word:", "valid")))
  {
    var m := LastWins(PrefixedResponses(body, "word:", "valid"));
    forall id
      ensures id in m <==> exists j :: 0 <= j < |body| && KeyReadsAs(body[j], "word:", id)
    {
      PrefixedKeysRead(body, "word:", "valid", id);
    }
    forall id | id in m
      ensures exists j :: 0 <= j < |body| && KeyReadsAs(body[j], "word:", id) && m[id] == (body[j].1 == "valid")
    {
      ReadValueHasKey(body, "word:", "valid", id);
    }
  }

  /** "word:w17" answered "valid" records w17 as recognised; any other value
      records it as not recognised. */
  lemma WordKeyExample(v: string)
    ensures VsptResponses([("word:w17", v)]) == map["w17" := v == "valid"]
  {
    assert "word" + [':'] + "w17" == "word:w17";
    assert "word" + [':'] == "word:";
    SingleEntryReading("word", "w17", v, "valid");
    assert LastWins([("w17", v == "valid")]) == map["w17" := v == "valid"];
  }

  /** getWordType: 1 (real) exactly when Valid is 1, otherwise 0 (fake). */
  function WordType(w: VsptWord): (t: int)
    ensures t == 1 || t == 0
    ensures t == 1 <==> w.valid == 1
  {
    if w.valid == 1 then 1 else 0
  }

  /** The answer recorded for a word: an absent response reads as "no". */
  function SaidYes(responses: map<string, bool>, w: VsptWord): bool {
    w.wordId in responses && responses[w.wordId]
  }

  /** yesResponses and noResponses, indexed by word type. */
  datatype Tally = Tally(fakeYes: nat, realYes: nat, fakeNo: nat, realNo: nat)

  /** The tally loop of getZScore over the language's word list. */
  function TallyWords(words: seq<VsptWord>, responses: map<string, bool>): (t: Tally)
    ensures t.fakeYes + t.realYes + t.fakeNo + t.realNo == |words|
    decreases |words|
  {
    if |words| == 0 then Tally(0, 0, 0, 0)
    else
      var t := TallyWords(words[..|words| - 1], responses);
      var w := words[|words| - 1];
      if SaidYes(responses, w) then
        if WordType(w) == 1 then t.(realYes := t.realYes + 1) else t.(fakeYes := t.fakeYes + 1)
      else
        if WordType(w) == 1 then t.(realNo := t.realNo + 1) else t.(fakeNo := t.fakeNo + 1)
  }

  /** Reference count: the words of the list that are real (or fake) and were
      answered yes (or no). */
  function CountWords(words: seq<VsptWord>, responses: map<string, bool>, isReal: bool, yes: bool): nat
    decreases |words|
  {
    if |words| == 0 then 0
    else
      (if (WordType(words[0]) == 1) == isReal && SaidYes(responses, words[0]) == yes then 1 else 0)
      + CountWords(words[1..], responses, isReal, yes)
  }

  lemma {:induction false} CountWordsSnoc(words: seq<VsptWord>, w: VsptWord, responses: map<string, bool>, isReal: bool, yes: bool)
    ensures CountWords(words + [w], responses, isReal, yes)
         == CountWords(words, responses, isReal, yes) + (if (WordType(w) == 1) == isReal && SaidYes(responses, w) == yes then 1 else 0)
    decreases |words|
  {
    if |words| == 0 {
      assert words + [w] == [w];
    } else {
      assert (words + [w])[1..] == words[1..] + [w];
      CountWordsSnoc(words[1..], w, responses, isReal, yes);
    }
  }

  /** Every word is counted exactly once, in the cell of its type and answer. */
  lemma {:induction false} TallyCountsEachWord(words: seq<VsptWord>, responses: map<string, bool>)
    ensures var t := TallyWords(words, responses);
      && t.realYes == CountWords(words, responses, true, true)
      && t.realNo == CountWords(words, responses, true, false)
      && t.fakeYes == CountWords(words, responses, false, true)
      && t.fakeNo == CountWords(words, responses, false, false)
    decreases |words|
  {
    if |words| > 0 {
      var init := words[..|words| - 1];
      var w := words[|words| - 1];
      TallyCountsEachWord(init, responses);
      assert words == init + [w];
      CountWordsSnoc(init, w, responses, true, true);
      CountWordsSnoc(init, w, responses, true, false);
      CountWordsSnoc(init, w, responses, false, true);
      CountWordsSnoc(init, w, responses, false, false);
    }
  }

  /** The real words answered are all the real words of the list, whatever
      the responses: an absent response counts as an answer "no". */
  lemma {:induction false} RealAnsweredIsRealWordCount(words: seq<VsptWord>, r1: map<string, bool>, r2: map<string, bool>)
    ensures var t1, t2 := TallyWords(words, r1), TallyWords(words, r2);
      t1.realYes + t1.realNo == t2.realYes + t2.realNo && t1.fakeYes + t1.fakeNo == t2.fakeYes + t2.fakeNo
    decreases |words|
  {
    if |words| > 0 {
      RealAnsweredIsRealWordCount(words[..|words| - 1], r1, r2);
    }
  }

  // ---------------------------------------------------------------------
  // getVersion10ZScore

  /** 4h(1 - f): the first term of both numerator and denominator. */
  function HitTerm(h: real, f: real): real {
    4.0 * h * (1.0 - f)
  }

  /** (h - f)(1 + h - f): the term subtracted, twice in the numerator and
      once in the denominator. */
  function Spread(h: real, f: real): real {
    (h - f) * (1.0 + h - f)
  }

  /** The denominator of the version-10 formula. */
  function Denominator(h: real, f: real): real {
    HitTerm(h, f) - Spread(h, f)
  }

  /** The rates are in range and the formula applies (not all-yes). */
  predicate FormulaApplies(h: real, f: real) {
    0.0 < h <= 1.0 && 0.0 <= f <= 1.0 && !(h == 1.0 && f == 1.0)
  }

  lemma PositiveProduct(a: real, b: real, p: real)
    requires a > 0.0 && b > 0.0 && p == a * b
    ensures p > 0.0
  {
  }

  lemma SquareAtMost(x: real, sq: real)
    requires 0.0 <= x <= 1.0 && sq == x * x
    ensures sq <= x
    ensures sq == x ==> x == 0.0 || x == 1.0
  {
    var rest := x * (1.0 - x);
    assert x - sq == rest;
    if 0.0 < x < 1.0 {
      PositiveProduct(x, 1.0 - x, rest);
    } else {
      assert x == 0.0 || 1.0 - x == 0.0;
      assert rest == 0.0;
    }
  }

  /** With a = h and b = 1 - f, the denominator is (a + b) - (a - b)^2. */
  lemma DenominatorInAB(h: real, f: real)
    ensures var a, b := h, 1.0 - f;
      Denominator(h, f) == (a + b) - (a - b) * (a - b)
  {
  }

  /** |a - b| <= 1 makes (a - b)^2 <= |a - b| <= a + b, with equality only
      when h = 0 or h = f = 1. */
  lemma DenominatorPositive(h: real, f: real)
    requires FormulaApplies(h, f)
    ensures Denominator(h, f) > 0.0
  {
    var a, b := h, 1.0 - f;
    DenominatorInAB(h, f);
    var e := if a >= b then a - b else b - a;
    var sq := e * e;
    assert (a - b) * (a - b) == sq;
    SquareAtMost(e, sq);
    LinearDenominatorBound(a, b, e, sq, Denominator(h, f));
  }

  /** The linear half of the argument, with the square as an opaque value. */
  lemma LinearDenominatorBound(a: real, b: real, e: real, sq: real, D: real)
    requires 0.0 < a <= 1.0 && 0.0 <= b <= 1.0 && !(a == 1.0 && b == 0.0)
    requires e == (if a >= b then a - b else b - a)
    requires sq <= e && (sq == e ==> e == 0.0 || e == 1.0)
    requires D == a + b - sq
    ensures D > 0.0
  {
  }

  /** getVersion10ZScore on the rates h and f. */
  function ZFromRates(h: real, f: real): real
    requires 0.0 < h <= 1.0 && 0.0 <= f <= 1.0
  {
    if h == 1.0 && f == 1.0 then -1.0
    else
      DenominatorPositive(h, f);
      var rhs := (HitTerm(h, f) - 2.0 * Spread(h, f)) / Denominator(h, f);
      1.0 - rhs
  }

  /** One minus a quotient, multiplied back by its divisor. */
  lemma OneMinusQuotient(n: real, D: real)
    requires D > 0.0
    ensures (1.0 - n / D) * D == D - n
  {
    var q := n / D;
    assert q * D == n;
    assert (1.0 - q) * D == D - q * D;
  }

  /** z * D = d (1 + d) with d = h - f: the formula is d (1 + d) / D. */
  lemma ZTimesDenominator(h: real, f: real)
    requires FormulaApplies(h, f)
    ensures Denominator(h, f) > 0.0
    ensures ZFromRates(h, f) * Denominator(h, f) == Spread(h, f)
  {
    DenominatorPositive(h, f);
    var D := Denominator(h, f);
    var n := HitTerm(h, f) - 2.0 * Spread(h, f);
    assert ZFromRates(h, f) == 1.0 - n / D;
    OneMinusQuotient(n, D);
  }

  /** Identities behind the bounds, with a = h and b = 1 - f. */
  lemma BoundIdentities(h: real, f: real)
    ensures var a, b := h, 1.0 - f;
      && Spread(h, f) + Denominator(h, f) == 4.0 * a * b
      && Denominator(h, f) - Spread(h, f) == 2.0 * (a * (1.0 - a) + b * (1.0 - b))
  {
  }

  /** Multiplying by a positive number keeps the sign. */
  lemma SignTimesPositive(x: real, p: real)
    requires p > 0.0
    ensures x * p > 0.0 <==> x > 0.0
    ensures x * p == 0.0 <==> x == 0.0
    ensures x * p >= 0.0 <==> x >= 0.0
  {
    if x > 0.0 {
      assert x * p > 0.0;
    } else if x < 0.0 {
      assert (-x) * p > 0.0;
    }
  }

  /** The sign of z is the sign of h - f: more hits than false alarms, in
      rate, means a positive score. */
  lemma ZSign(h: real, f: real)
    requires FormulaApplies(h, f)
    ensures ZFromRates(h, f) > 0.0 <==> h > f
    ensures ZFromRates(h, f) == 0.0 <==> h == f
  {
    ZTimesDenominator(h, f);
    SignTimesPositive(ZFromRates(h, f), Denominator(h, f));
    SignTimesPositive(h - f, 1.0 + h - f);
  }

  /** (1 - z) D = 2 (h (1 - h) + b (1 - b)) and (z + 1) D = 4 h b, with b = 1 - f. */
  lemma ZDistances(h: real, f: real)
    requires FormulaApplies(h, f)
    ensures Denominator(h, f) > 0.0
    ensures var z, a, b := ZFromRates(h, f), h, 1.0 - f;
      && (1.0 - z) * Denominator(h, f) == 2.0 * (a * (1.0 - a) + b * (1.0 - b))
      && (z + 1.0) * Denominator(h, f) == 4.0 * a * b
  {
    ZTimesDenominator(h, f);
    BoundIdentities(h, f);
    var D := Denominator(h, f);
    var z := ZFromRates(h, f);
    assert (1.0 - z) * D == D - z * D;
    assert (z + 1.0) * D == z * D + D;
  }

  /** x (1 - x) is non-negative on [0, 1] and zero only at the ends. */
  lemma UnitProduct(x: real)
    requires 0.0 <= x <= 1.0
    ensures x * (1.0 - x) >= 0.0
    ensures x * (1.0 - x) == 0.0 <==> x == 0.0 || x == 1.0
  {
    SquareAtMost(x, x * x);
    assert x * (1.0 - x) == x - x * x;
  }

  /** z lies in [-1, 1]; it is 1 exactly when every real word and no fake
      word was recognised, and -1 exactly when every fake word was. */
  lemma ZBounds(h: real, f: real)
    requires 0.0 < h <= 1.0 && 0.0 <= f <= 1.0
    ensures -1.0 <= ZFromRates(h, f) <= 1.0
    ensures ZFromRates(h, f) == 1.0 <==> h == 1.0 && f == 0.0
    ensures ZFromRates(h, f) == -1.0 <==> f == 1.0
  {
    if !(h == 1.0 && f == 1.0) {
      ZDistances(h, f);
      var D := Denominator(h, f);
      var z := ZFromRates(h, f);
      var a, b := h, 1.0 - f;
      UnitProduct(a);
      UnitProduct(b);
      var u := a * (1.0 - a) + b * (1.0 - b);
      assert u >= 0.0;
      assert u == 0.0 <==> a == 1.0 && b == 1.0;
      SignTimesPositive(1.0 - z, D);
      assert z <= 1.0;
      assert z == 1.0 <==> h == 1.0 && f == 0.0;
      SignTimesPositive(b, 4.0 * a);
      assert 4.0 * a * b == b * (4.0 * a);
      SignTimesPositive(z + 1.0, D);
      assert z >= -1.0;
      assert z == -1.0 <==> f == 1.0;
    }
  }

  /** The z score, `None` where Go computes NaN (0/0 rate of fake words when
      the list has no fake word but some hit). */
  function ZScore(t: Tally): (z: Option<real>)
    ensures t.realYes == 0 ==> z == Some(0.0)
    ensures t.realYes > 0 ==> (z.None? <==> t.fakeYes + t.fakeNo == 0)
  {
    var hits := t.realYes;
    var realAnswered := t.realYes + t.realNo;
    var falseAlarms := t.fakeYes;
    var fakeAnswered := t.fakeYes + t.fakeNo;
    if hits == 0 then Some(0.0)
    else if fakeAnswered == 0 then None
    else Some(ZFromRates(hits as real / realAnswered as real, falseAlarms as real / fakeAnswered as real))
  }

  /** No hits at all scores 0, however many fake words were ticked. */
  lemma NoHitsScoresZero(t: Tally)
    requires t.realYes == 0
    ensures ZScore(t) == Some(0.0)
  {
  }

  /** Ticking every word, real and fake, scores -1. */
  lemma AllYesScoresMinusOne(t: Tally)
    requires t.realYes > 0 && t.realNo == 0 && t.fakeYes > 0 && t.fakeNo == 0
    ensures ZScore(t) == Some(-1.0)
  {
  }

  /** Ticking every real word and no fake word scores 1, the maximum. */
  lemma PerfectAnswersScoreOne(t: Tally)
    requires t.realYes > 0 && t.realNo == 0 && t.fakeYes == 0 && t.fakeNo > 0
    ensures ZScore(t) == Some(1.0)
  {
    var h := t.realYes as real / (t.realYes + t.realNo) as real;
    var f := t.fakeYes as real / (t.fakeYes + t.fakeNo) as real;
    assert h == 1.0 && f == 0.0;
    ZBounds(h, f);
  }

  /** Whenever the z score is defined it lies in [-1, 1]. */
  lemma ZScoreInRange(t: Tally)
    requires ZScore(t).Some?
    ensures -1.0 <= ZScore(t).value <= 1.0
  {
    if t.realYes > 0 {
      var h := t.realYes as real / (t.realYes + t.realNo) as real;
      var f := t.fakeYes as real / (t.fakeYes + t.fakeNo) as real;
      assert 0.0 < h <= 1.0;
      assert 0.0 <= f <= 1.0;
      ZBounds(h, f);
    }
  }

  // ---------------------------------------------------------------------
  // getScore, getBand

  /** getScore's Meara scaling: 0 for z <= 0, else z * 1000. */
  function Meara(z: real): (m: real)
    ensures m >= 0.0
    ensures z <= 1.0 ==> m <= 1000.0
    ensures z <= 0.0 ==> m == 0.0
    ensures z > 0.0 ==> m == z * 1000.0
  {
    if z <= 0.0 then 0.0 else z * 1000.0
  }

  /** math.Round for a non-negative value: halves round up (away from zero). */
  function Round(x: real): (n: int)
    requires x >= 0.0
    ensures n as real - 0.5 <= x < n as real + 0.5
  {
    (x + 0.5).Floor
  }

  /** Band `b` contains the unrounded Meara score. */
  predicate InBand(b: VsptBand, m: real) {
    b.low as real <= m <= b.high as real
  }

  /** The first band, in list order, containing `m`; `None` when none does. */
  function FirstBand(bands: seq<VsptBand>, m: real): (r: Option<VsptBand>)
    ensures r.None? <==> forall i :: 0 <= i < |bands| ==> !InBand(bands[i], m)
    ensures r.Some? ==> exists i :: FirstBandAt(bands, m, i) && r.value == bands[i]
    decreases |bands|
  {
    if |bands| == 0 then None
    else if InBand(bands[0], m) then
      assert FirstBandAt(bands, m, 0);
      Some(bands[0])
    else
      var r := FirstBand(bands[1..], m);
      assert forall i :: 1 <= i < |bands| ==> bands[i] == bands[1..][i - 1];
      assert forall i :: FirstBandAt(bands[1..], m, i) ==> FirstBandAt(bands, m, i + 1);
      r
  }

  predicate FirstBandAt(bands: seq<VsptBand>, m: real, i: int) {
    0 <= i < |bands| && InBand(bands[i], m) && forall j :: 0 <= j < i ==> !InBand(bands[j], m)
  }

  /** A scored VSPT: z, the rounded Meara score and the band's level. */
  datatype VsptScore = VsptScore(z: real, meara: int, level: string)

  /** getBand (with getScore and getZScore): a language without words, a
      language without bands, a NaN z score or a Meara score in no band is
      an error that ends the process. */
  function ScoreWords(c: Catalog, tl: string, responses: map<string, bool>): (r: Result<VsptScore>)
    ensures r.Err? ==> r.failure == Fatal
    ensures r.Ok? <==>
      && tl in c.vsptWords && tl in c.vsptBands
      && ZScore(TallyWords(c.vsptWords[tl], responses)).Some?
      && FirstBand(c.vsptBands[tl], Meara(ZScore(TallyWords(c.vsptWords[tl], responses)).value)).Some?
    ensures r.Ok? ==> r.value.z == ZScore(TallyWords(c.vsptWords[tl], responses)).value
    ensures r.Ok? ==> r.value.meara == Round(Meara(r.value.z))
    ensures r.Ok? ==> 0 <= r.value.meara <= 1000
    ensures r.Ok? ==> -1.0 <= r.value.z <= 1.0
    ensures r.Ok? ==> exists i :: FirstBandAt(c.vsptBands[tl], Meara(r.value.z), i) && c.vsptBands[tl][i].level == r.value.level
  {
    if tl !in c.vsptWords then Err(Fatal)
    else
      var t := TallyWords(c.vsptWords[tl], responses);
      var z := ZScore(t);
      if tl !in c.vsptBands then Err(Fatal)
      else if z.None? then Err(Fatal)
      else
        ZScoreInRange(t);
        var m := Meara(z.value);
        match FirstBand(c.vsptBands[tl], m)
        case None => Err(Fatal)
        case Some(b) => Ok(VsptScore(z.value, Round(m), b.level))
  }

  /** The reply of ScoreVSPT. */
  datatype VsptReply = VsptReply(vsptZScore: real, vsptMearaScore: int, vsptLevel: string)

  /** ScoreVSPT: an undecodable body or a scoring error ends the process
      before any session write; otherwise the three VSPT results are stored,
      VsptSubmitted is set and nothing else in the session changes. */
  function ScoreVspt(s: Session, c: Catalog, body: Option<Entries>): (r: Result<(Session, VsptReply)>)
    ensures r.Err? ==> r.failure == Fatal
    ensures body.None? ==> r.Err?
    ensures r.Ok? ==> var (s', reply) := r.value;
      && s'.vsptSubmitted
      && s' == s.(vsptZScore := reply.vsptZScore, vsptMearaScore := reply.vsptMearaScore,
                  vsptLevel := reply.vsptLevel, vsptSubmitted := true)
      && 0 <= reply.vsptMearaScore <= 1000
    ensures body.Some? ==> (r.Ok? <==> ScoreWords(c, s.tes.tl, VsptResponses(body.value)).Ok?)
    ensures body.Some? && r.Ok? ==> var score := ScoreWords(c, s.tes.tl, VsptResponses(body.value)).value;
      r.value.1 == VsptReply(score.z, score.meara, score.level)
  {
    match body
    case None => Err(Fatal)
    case Some(entries) =>
      match ScoreWords(c, s.tes.tl, VsptResponses(entries))
      case Err(e) => Err(e)
      case Ok(score) =>
        Ok((s.(vsptZScore := score.z, vsptMearaScore := score.meara, vsptLevel := score.level, vsptSubmitted := true),
            VsptReply(score.z, score.meara, score.level)))
  }

  /** No word of the list matches the type and answer asked for. */
  lemma {:induction false} CountWordsNone(words: seq<VsptWord>, responses: map<string, bool>, isReal: bool, yes: bool)
    requires forall i :: 0 <= i < |words| ==> !((WordType(words[i]) == 1) == isReal && SaidYes(responses, words[i]) == yes)
    ensures CountWords(words, responses, isReal, yes) == 0
    decreases |words|
  {
    if |words| > 0 {
      assert forall i :: 1 <= i < |words| ==> words[1..][i - 1] == words[i];
      CountWordsNone(words[1..], responses, isReal, yes);
    }
  }

  /** Word `i` matches the type and answer asked for, so the count is positive. */
  lemma {:induction false} CountWordsSome(words: seq<VsptWord>, responses: map<string, bool>, isReal: bool, yes: bool, i: int)
    requires 0 <= i < |words| && (WordType(words[i]) == 1) == isReal && SaidYes(responses, words[i]) == yes
    ensures CountWords(words, responses, isReal, yes) > 0
    decreases |words|
  {
    if i > 0 {
      assert words[1..][i - 1] == words[i];
      CountWordsSome(words[1..], responses, isReal, yes, i - 1);
    }
  }

  /** Answering yes to no word scores z 0 and Meara 0, and the test is
      placed exactly when some band of the language contains 0. */
  lemma SilenceScoresZero(c: Catalog, tl: string, responses: map<string, bool>)
    requires tl in c.vsptWords && tl in c.vsptBands
    requires forall i :: 0 <= i < |c.vsptWords[tl]| ==> !SaidYes(responses, c.vsptWords[tl][i])
    ensures var r := ScoreWords(c, tl, responses);
      && (r.Ok? <==> exists i :: 0 <= i < |c.vsptBands[tl]| && InBand(c.vsptBands[tl][i], 0.0))
      && (r.Ok? ==> r.value.z == 0.0 && r.value.meara == 0)
  {
    var words := c.vsptWords[tl];
    TallyCountsEachWord(words, responses);
    CountWordsNone(words, responses, true, true);
  }

  /** Answering yes to exactly the real words of a list holding both kinds
      scores z 1 and Meara 1000, and the test is placed exactly when some
      band of the language contains 1000. */
  lemma PerfectAnswersScoreFull(c: Catalog, tl: string, responses: map<string, bool>, realWord: int, fakeWord: int)
    requires tl in c.vsptWords && tl in c.vsptBands
    requires forall i :: 0 <= i < |c.vsptWords[tl]| ==>
      (SaidYes(responses, c.vsptWords[tl][i]) <==> WordType(c.vsptWords[tl][i]) == 1)
    requires 0 <= realWord < |c.vsptWords[tl]| && WordType(c.vsptWords[tl][realWord]) == 1
    requires 0 <= fakeWord < |c.vsptWords[tl]| && WordType(c.vsptWords[tl][fakeWord]) == 0
    ensures var r := ScoreWords(c, tl, responses);
      && (r.Ok? <==> exists i :: 0 <= i < |c.vsptBands[tl]| && InBand(c.vsptBands[tl][i], 1000.0))
      && (r.Ok? ==> r.value.z == 1.0 && r.value.meara == 1000)
  {
    var words := c.vsptWords[tl];
    TallyCountsEachWord(words, responses);
    CountWordsNone(words, responses, true, false);
    CountWordsNone(words, responses, false, true);
    CountWordsSome(words, responses, true, true, realWord);
    CountWordsSome(words, responses, false, false, fakeWord);
    PerfectAnswersScoreOne(TallyWords(words, responses));
  }

  /** An empty body answers no word: the reply is z 0 and Meara 0, stored in
      the session, whenever a band of the language contains 0. */
  lemma EmptyBodyScoresZero(s: Session, c: Catalog)
    requires s.tes.tl in c.vsptWords && s.tes.tl in c.vsptBands
    requires exists i :: 0 <= i < |c.vsptBands[s.tes.tl]| && InBand(c.vsptBands[s.tes.tl][i], 0.0)
    ensures var r := ScoreVspt(s, c, Some([]));
      && r.Ok? && r.value.1.vsptZScore == 0.0 && r.value.1.vsptMearaScore == 0
      && r.value.0.vsptZScore == 0.0 && r.value.0.vsptMearaScore == 0 && r.value.0.vsptSubmitted
  {
    var m := VsptResponses([]);
    assert m == map[];
    SilenceScoresZero(c, s.tes.tl, m);
  }
}
