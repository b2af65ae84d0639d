# DIALANG placement and scoring engine in Dafny

This project models the adaptive placement and scoring engine of the
DIALANG web test server. A visit goes through these steps:

1. Choosing an administration language (SetAL) creates a fresh session.
2. Choosing a test language and skill (SetTL) resets the attempt and opens a
   new pass.
3. Two optional pre-tests set their results in the session:
   - the Vocabulary Size Placement Test (ScoreVSPT) gives a z score, a
     Meara score and a CEFR level;
   - the self-assessment (ScoreSA) gives a preliminary proficiency estimate
     (PPE) and a level.
4. StartTest picks a booklet from the pre-test results and moves to the
   booklet's first basket.
5. Each SubmitBasket scores one basket of items and moves to the next
   basket. After the last basket it grades the whole test and may redirect
   the client with the results in the query string.

Everything is a pure function.
- The session record (`Models.Session`) is immutable.
- All reference data is one immutable record (`Catalog.Catalog`). It holds
  the tables the loaders of `data/data.go` build at start-up, plus the
  database lookups of `db/db.go` as partial maps.
- Each handler returns `Result<(Session, Reply)>`. The failure kinds are
  `BadRequest` (400), `ServerError` (500), `Panic` (a Go runtime panic, such
  as an index out of range) and `Fatal` (`log.Fatal`). The session store is
  written only on success, so a failure leaves the session as it was.
- Go map iteration order is unspecified. Decoded forms and JSON bodies are
  therefore given as a sequence of entries, in the order a `range` visits
  them. Maps built by a loop are either insertion-ordered lists of pairs or
  Dafny maps built by "last assignment wins" (`Assoc.LastWins`). Lemmas
  show where the order cannot matter (the SA raw score, the final raw score)
  and where it can (a sort whose comparator has ties).

Modules, in dependency order:
- `Outcomes` — Option/Result and the four failure kinds.
- `GoStrings` — the library functions the code relies on:
  `strings.Split`/`Join`/`Fields`/`HasPrefix`/`HasSuffix`/`ToLower`,
  `strconv.Atoi`/`Itoa` with the int64 range, `fmt`'s `%x` of a rune, and
  int64 wrap-around.
- `Assoc`, `Filtering`, `Sums` — the loop shapes: last-wins and grouping
  folds, filter-and-convert, and sums that are independent of order.
- `Sorting` — the insertion sort `slices.SortFunc` runs on short slices.
- `Catalog`, `Models` — the entities and the session record with
  `ResetPass`.
- `Forms` — `r.FormValue`, the `word:`/`statement:` body readers and the
  `-response` form-key parsers.
- `Scoring` — `scoring/scoring.go`.
- `Vspt` — `handlers/scorevspt.go`.
- `DataLoad` — the per-row logic of `data/data.go`.
- One module per handler: `SetAlHandler`, `SetTlHandler`, `ScoreSaHandler`,
  `StartTestHandler`, `SubmitBasketHandler`.
- `Lifecycle` — properties of sequences of requests.

The code is followed where it differs from the intended design:
- Finishing a test is not a terminal state. The current basket id stays set
  after the last basket, so the last basket can be submitted again, and it
  is graded again together with all earlier items
  (`Lifecycle.CompletedTestStaysOpen`,
  `Lifecycle.ResubmissionAddsToTheRawScore`).
- A basket id sent by the client is never compared with the session's
  (`SubmitBasketHandler.ClientBasketIdIgnored`).
- SetTL's reset also clears earlier pre-test results.
- Free-text normalisation is not idempotent
  (`Scoring.NormaliseNotIdempotent`).
- The loaders' assignment sort does not order thresholds that are less than
  1 apart (see Findings).
- `scoring/scoring.go` reads a `TestDifficulty` field, but the session
  record in `models/models.go` has no such field. `Scoring.CalculateBookletId`
  therefore takes the difficulty as a parameter, with `""` meaning unset.
  StartTest uses its own copy (`calculateBookletId` in
  `handlers/starttest.go`). That copy is the same function without the
  difficulty switch, and is modelled as `CalculateBookletId(c, s, "")`.

## Model

| member | source | states |
|---|---|---|
| Scoring.CefrLevel | scoring/scoring.go:16 | the CEFR table yields a non-empty level exactly for grades 1 to 6; any other grade reads as Go's zero value "" |
| Scoring.Estimate | scoring/scoring.go:54-65 | the estimate is Coe plus saPPE·Sa for a submitted self-assessment plus vsptZ·Vspt for a submitted VSPT, with the weight row of the session's key and submission flags, and all-zero coefficients when that row is missing |
| Scoring.CalculateBookletId | scoring/scoring.go:30-82 | a failure is always a panic; a set difficulty succeeds exactly when the list reaches assignment 0 ("easy"), 2 ("hard") or 1 (other) and gives its booklet; without a difficulty or pre-tests it succeeds exactly with two assignments and gives assignment 1; with a pre-test it always succeeds, giving the first assignment whose threshold is at least the estimate and 0 when none is |
| Scoring.BookletAt | scoring/scoring.go:37-48 | picking assignment `i` succeeds exactly when the list has more than `i` entries, and a shorter list is a runtime panic |
| Scoring.DifficultyOverridesPretests | scoring/scoring.go:34-43 | a set difficulty picks assignment 0 for "easy", 2 for "hard" and 1 otherwise, and two sessions with the same language and skill get the same booklet whatever their pre-test results |
| Scoring.NoPretestPicksMiddle | scoring/scoring.go:45-48 | with neither pre-test submitted, the booklet is that of assignment 1 |
| Scoring.UnsubmittedPretestContributesNothing | scoring/scoring.go:54-62 | a stale VSPT z score or SA PPE left in the session does not move the estimate while its pre-test is marked unsubmitted |
| Scoring.MissingWeightGivesZeroEstimate | scoring/scoring.go:63-65 | a missing weight row acts as all-zero coefficients, so the estimate is 0 |
| Scoring.EstimateWithBothPretests | scoring/scoring.go:54-65 | with both pre-tests submitted, the estimate is saPPE·Sa + vsptZ·Vspt + Coe for the row of that key |
| Scoring.FirstFit | scoring/scoring.go:72-80 | the chosen booklet is that of the first assignment, in list order, whose threshold is at least the estimate; 0 when no threshold qualifies |
| Scoring.FirstFitExample | scoring/scoring.go:72-80 | thresholds 0.2, 0.5, 1.0 and estimate 0.3 choose the second booklet |
| Scoring.FirstFitOnSortedIsLeastFit | scoring/scoring.go:72-80 | on a list ascending by threshold, first fit is the least qualifying threshold (on an unsorted list it need not be) |
| Scoring.SaRawScoreAnyOrder | scoring/scoring.go:87-101 | the SA raw score is the same whatever order the response map is visited in |
| Scoring.SaRawScore | scoring/scoring.go:87-101 | the raw score is 0 when the skill has no weight table, and 0 when no statement answered true has a weight for the skill |
| Scoring.FalseAnswerAddsNothing | scoring/scoring.go:93-98 | a statement answered false adds nothing to the raw score |
| Scoring.TrueAnswerAddsItsWeight | scoring/scoring.go:89-98 | a statement answered true adds its weight, and 0 when the skill has no weight for it |
| Scoring.SaRawScoreExample | scoring/scoring.go:87-101 | weights {s1: 3, s2: 5} with s1 true and s2 false give raw score 3 |
| Scoring.FirstGradeRow | scoring/scoring.go:106-110 | the index found is the first grading row with the skill and raw score, or -1 when there is none |
| Scoring.SaPpeAndLevel | scoring/scoring.go:103-113 | the result is an error exactly when no grading row matches the skill and raw score; otherwise it is the PPE and CEFR level of the first matching row |
| Scoring.SaPpeAndLevelByScore | scoring/scoring.go:103-106 | the SA grade depends on the responses only through their raw score |
| Scoring.ScoreIdResponse | scoring/scoring.go:118-142 | a missing item or a missing answer is an error; otherwise the item is correct exactly when the answer's flag is 1, and then it scores its weight, otherwise 0 |
| Scoring.AnswerOfAnotherItemStillScores | scoring/scoring.go:118-142 | an answer flagged correct scores for any existing item, because its own item id is never checked |
| Scoring.AnyAnswerMatches | scoring/scoring.go:154-160 | the scan succeeds exactly when some answer's normalised text equals the normalised response |
| Scoring.ScoreTextResponse | scoring/scoring.go:144-162 | only a missing item is an error; the response is correct exactly when it matches some answer registered for the item after normalisation, and then scores the item weight |
| Scoring.SumScoresPermutation | scoring/scoring.go:168-172 | the raw score of a test does not depend on the order of its items |
| Scoring.SumScoresAppend | scoring/scoring.go:168-172 | appending a basket's items adds their scores to the raw score |
| Scoring.GetItemGrade | scoring/scoring.go:164-189 | the raw score is the sum of item scores; the grade is the table row for that raw score with its CEFR level, and a missing table or row gives grade 0 and level "A1" |
| Scoring.SumScores | scoring/scoring.go:168-172 | when every item's score lies between 0 and the item's weight, the raw score lies between 0 and the total weight of the items |
| Scoring.GradeOutsideTableDefaults | scoring/scoring.go:183-188 | a raw score outside an existing grading table yields (raw, 0, "A1"), not an error |
| Scoring.Normalise | scoring/scoring.go:195-213 | an empty punctuation list leaves the text unchanged; otherwise the result is the whitespace-collapsed text with every character listed in the punctuation table removed, lower-cased: it is no longer than the input, has no upper-case ASCII letter and no whitespace other than ' ' (removing a listed character between two spaces can leave two of them side by side) |
| Scoring.RemovePunctuation | scoring/scoring.go:206-210 | the loop as written, which removes every occurrence of each listed character it meets, leaves exactly the unlisted characters of the collapsed text |
| Scoring.NormaliseJoinsWords | scoring/scoring.go:204-212 | a padded response of a word, listed punctuation, a word and listed punctuation normalises to the two words run together, in lower case |
| Scoring.NormaliseKeepsNormalWord | scoring/scoring.go:204-212 | a lower-case word with no space and no listed character is its own normal form |
| Scoring.NormaliseExample | scoring/scoring.go:195-213 | " Run-dog!! " normalises to "rundog" when '!' (21) and '-' (2d) are listed |
| Scoring.NormalisedExampleIsStable | scoring/scoring.go:195-213 | "rundog" normalises to itself under the same list |
| Scoring.NormaliseNotIdempotent | scoring/scoring.go:204-210 | removing '-' after collapsing whitespace turns "w1 - w2" into "w1  w2", and a second normalisation changes that to "w1 w2" |
| GoStrings.Split | handlers/submitbasket.go:282 | strings.Split always yields at least one piece, no piece holds the separator, and joining the pieces gives the input back |
| GoStrings.SplitJoin | data/data.go:332 | splitting a join of separator-free pieces gives the pieces back |
| GoStrings.CollapseSpaces | scoring/scoring.go:204 | joining the fields with ' ' leaves no space character but single ' ' characters between words |
| GoStrings.CollapseSpacesIdempotent | scoring/scoring.go:204 | collapsing whitespace twice is collapsing it once |
| GoStrings.CollapseDoubleSpace | scoring/scoring.go:204 | two spaces between two words collapse to one |
| GoStrings.FieldsKeepEveryWordCharacter | scoring/scoring.go:204 | strings.Fields keeps every non-space character, in order |
| GoStrings.AtoiItoa | handlers/submitbasket.go:95 | Atoi reads back what Itoa writes, for every 64-bit integer |
| GoStrings.AtoiOrZero | handlers/submitbasket.go:97-101 | a position assigned only when Atoi succeeds keeps its zero value after a failure, and is the parsed value otherwise |
| GoStrings.AtoiIgnoringError | data/data.go:74-75 | the value Atoi returns beside an ignored error: the parsed value, 0 after a syntax error, and the int64 bound of the numeral's sign after a range error; it always fits in int64 |
| GoStrings.AtoiClampsLargeNumerals | data/data.go:302-303 | a numeral above the int64 range loads as MaxInt64 and a negative one below it as MinInt64, not as 0 |
| GoStrings.AtoiStopsAtOverflow | data/data.go:336 | a field whose leading digits exceed the unsigned 64-bit range loads as MaxInt64 whatever follows, while junk after a numeral that fits makes the field 0 |
| GoStrings.HexInjective | scoring/scoring.go:207-208 | distinct code points print as distinct "%x" strings, so the punctuation test names single characters |
| GoStrings.ToLower | scoring/scoring.go:212 | lower-casing keeps the length and maps each character on its own |
| GoStrings.Wrap64 | handlers/submitbasket.go:76 | the position sum wraps into the int64 range and is unchanged when it already fits |
| Vspt.VsptResponses | handlers/scorevspt.go:27-33 | the response map answers exactly the ids after the colon of the "word:" keys, each with the reading (value is "valid") of one of that id's entries |
| Vspt.WordKeyExample | handlers/scorevspt.go:29-31 | "word:w17" records w17 as recognised exactly when the value is "valid" |
| Vspt.WordType | handlers/scorevspt.go:86-93 | a word is real (type 1) exactly when Valid is 1, otherwise fake (type 0) |
| Vspt.TallyWords | handlers/scorevspt.go:105-117 | the four counts add up to the number of words in the list |
| Vspt.TallyCountsEachWord | handlers/scorevspt.go:105-113 | each count is the number of words of that type with that answer, so every word is counted once |
| Vspt.RealAnsweredIsRealWordCount | handlers/scorevspt.go:115-117 | the numbers of real and of fake words tallied do not depend on the responses, since an absent response counts as "no" |
| Vspt.ZScore | handlers/scorevspt.go:120-130 | no hits give 0; with hits, the score is undefined (Go's NaN) exactly when the list has no fake word |
| Vspt.NoHitsScoresZero | handlers/scorevspt.go:125-127 | no hits score 0 however many fake words were ticked |
| Vspt.AllYesScoresMinusOne | handlers/scorevspt.go:140-142 | ticking every real and every fake word scores -1 |
| Vspt.DenominatorPositive | handlers/scorevspt.go:144 | outside the all-yes case the formula's denominator is positive, so the division is defined |
| Vspt.ZSign | handlers/scorevspt.go:144-145 | the formula's z is positive exactly when the hit rate exceeds the false-alarm rate, and 0 exactly when they are equal |
| Vspt.ZBounds | handlers/scorevspt.go:133-146 | z lies in [-1, 1]; it is 1 exactly when h = 1 and f = 0, and -1 exactly when f = 1 |
| Vspt.PerfectAnswersScoreOne | handlers/scorevspt.go:133-146 | ticking every real word and no fake word scores 1 |
| Vspt.ZScoreInRange | handlers/scorevspt.go:120-146 | whenever the z score is defined it lies in [-1, 1] |
| Vspt.SilenceScoresZero | handlers/scorevspt.go:105-146 | answering yes to no word scores z 0 and Meara 0, and the language places the visitor exactly when one of its bands contains 0 |
| Vspt.PerfectAnswersScoreFull | handlers/scorevspt.go:105-146 | answering yes to exactly the real words of a list with both kinds scores z 1 and Meara 1000, and places the visitor exactly when a band contains 1000 |
| Vspt.Meara | handlers/scorevspt.go:79-83 | the Meara score is 0 for z <= 0 and z·1000 otherwise, so it is never negative and at most 1000 for z <= 1 |
| Vspt.Round | handlers/scorevspt.go:66 | math.Round of a non-negative value is the integer within one half of it, halves rounding up |
| Vspt.FirstBand | handlers/scorevspt.go:63-68 | the band found is the first, in list order, whose inclusive [Low, High] holds the unrounded Meara score; none is a failure |
| Vspt.ScoreWords | handlers/scorevspt.go:55-71 | scoring succeeds exactly when the language has words and bands, the z score of the tally is defined and some band holds its Meara score; every failure ends the process; on success z is that z score (in [-1, 1]), the Meara score is its rounded scaling (in [0, 1000]) and the level is that of the first band holding the unrounded score |
| Vspt.ScoreVspt | handlers/scorevspt.go:20-47 | an undecodable body ends the process; a decoded body succeeds exactly when scoring its word responses does, and then the reply carries that score's z, Meara score and level, which are stored with VsptSubmitted set and nothing else changed |
| Vspt.EmptyBodyScoresZero | handlers/scorevspt.go:20-47 | an empty JSON object answers no word: the handler succeeds with z 0 and Meara 0, stores them and sets VsptSubmitted, whenever a band of the language contains 0 |
| Forms.FormValue | handlers/submitbasket.go:28 | a form value is the first value of the key, and "" when the key is absent |
| Forms.PrefixedResponses | handlers/scoresa.go:32-38 | every assignment the loop makes comes from a key with the prefix, and every such key makes one |
| Forms.PrefixedKeysRead | handlers/scoresa.go:32-38 | the statement ids in the map are exactly the ids of the "statement:" keys |
| Forms.SingleEntryReading | handlers/scoresa.go:36-37 | "stem:id" with value v reads as (id, v == yes) |
| Forms.UnprefixedIgnored | handlers/scoresa.go:33 | an entry whose key lacks the prefix changes nothing |
| Forms.IdResponsePairs | handlers/submitbasket.go:327-347 | the assignments made are exactly the "-response" entries whose item id and answer id both parse |
| Forms.TextResponsePairs | handlers/submitbasket.go:352-369 | the assignments made are exactly the "-response" entries whose item id parses, with the raw text |
| Forms.IdResponses | handlers/submitbasket.go:327-347 | the returned map has distinct item ids, holds only assignments the loop makes, has an entry for every item id assigned, and binds each id to the answer id assigned last |
| Forms.TextResponses | handlers/submitbasket.go:352-369 | the returned map has distinct item ids, holds only assignments the loop makes, has an entry for every item id assigned, and binds each id to the text assigned last |
| Forms.ResponseKeyRoundTrip | handlers/submitbasket.go:335 | the key written for a non-negative item id is a response key and reads back as that id |
| Forms.NegativeResponseKeySkipped | handlers/submitbasket.go:335 | a negative item id cannot be read back, since the text before its first '-' is empty |
| Forms.ResponsesIgnoreOtherKeys | handlers/submitbasket.go:332-334 | an entry whose key does not end in "-response" is not a response, wherever it stands in the form |
| Assoc.LastWins | data/data.go:160-165 | the map built by assigning each pair in turn holds every key that occurs, bound to its last value |
| Assoc.Collect | handlers/submitbasket.go:327-347 | the insertion-ordered map has distinct keys and the same contents as the last-wins map |
| Assoc.SameMapSameEntries | handlers/scoresa.go:32-38 | two visiting orders of the same Go map hold the same entries |
| Sums.SumPermutation | scoring/scoring.go:93-98 | a sum taken while ranging over a map does not depend on the order |
| Sorting.SortIsSortedPermutation | handlers/submitbasket.go:121 | with a comparator that is a true ordering, the sort returns a permutation of its input in ascending order |
| Sorting.InsertionSortAgree | data/data.go:274 | the sort consults the comparator only on pairs of the list's own elements, so two comparators that agree there sort the list identically |
| Models.ResetPass | models/models.go:43-62 | the reset clears every pre-test result, the booklet, the progress, the scored items and baskets and the final grade, and keeps the session id, pass id, result URL and test settings |
| Models.ResetPassIdempotent | models/models.go:43-62 | a second reset changes nothing |
| Models.ResetPassForgetsAttempt | models/models.go:43-62 | two sessions with the same identity reset to the same value, whatever attempts they carried |
| SetAlHandler.SetAl | handlers/setal.go:11-25 | an unparsable form or an empty "al" is a 400; success is a brand-new session whose only non-zero field is the administration language |
| SetAlHandler.SetAlDiscardsEverything | handlers/setal.go:23 | the outcome does not depend on the previous session: ids, results and progress are all gone |
| SetTlHandler.SetTl | handlers/settl.go:22-50 | an empty tl or skill is a 400 and a failed persistence a 500; success resets the attempt, sets tl and skill, assigns the new pass id, keeps an existing session id or assigns a new one, and replies with both ids |
| SetTlHandler.SetTlForgetsAttempt | handlers/settl.go:22 | the result does not depend on the attempt the session held |
| SetTlHandler.SetTlAssignsFreshPass | handlers/settl.go:32 | each accepted call hands out the pass id it is given |
| ScoreSaHandler.SaResponses | handlers/scoresa.go:32-38 | the statement map has distinct keys and holds what the loop assigns last for each "statement:" key |
| ScoreSaHandler.ScoreSa | handlers/scoresa.go:18-56 | an empty tl or skill, an undecodable body or no grading row is a 500; success stores the PPE and level of the first matching grade row and sets SaSubmitted, nothing else |
| ScoreSaHandler.ScoreSaDependsOnlyOnTheAnswers | handlers/scoresa.go:32-45 | two bodies that give the same statement map score the same, whatever order either map is visited in |
| ScoreSaHandler.ScoreSaKeepsVspt | handlers/scoresa.go:47-49 | a successful self-assessment leaves the VSPT results untouched |
| StartTestHandler.FirstBasket | handlers/starttest.go:37 | the first basket of the booklet, and a panic when the booklet has none |
| StartTestHandler.HandlerBookletId | handlers/starttest.go:84-126 | the handler's booklet choice fails only by panicking: without pre-test results it succeeds exactly with at least two assignments and gives the second one's booklet; with a pre-test it always succeeds, giving the first assignment whose threshold is at least the estimate and 0 when none is |
| StartTestHandler.StartTest | handlers/starttest.go:15-70 | the handler answers 500 exactly when tl or skill is empty or items are already scored; past those guards it succeeds exactly when the booklet choice succeeds and that booklet has a first basket, and otherwise panics; success sets the chosen booklet and its first basket, assigns a session id only when there is none, changes nothing else, and replies with the first basket and the booklet length |
| StartTestHandler.StartWithoutPretests | handlers/starttest.go:88-92 | without pre-test results the test starts exactly when there are at least two assignments and the second one's booklet has a basket, on that booklet and its first basket; otherwise the handler panics |
| StartTestHandler.StartTestLeavesLengthAndNumber | handlers/starttest.go:31-45 | the stored booklet length and basket number are not changed |
| SubmitBasketHandler.PositionOf | handlers/submitbasket.go:95-106 | a missing position is a 400; a non-numeric one is a 400 when strict and position 0 otherwise; a numeric one is its value |
| SubmitBasketHandler.NonNumericPosition | handlers/submitbasket.go:215-223 | a non-numeric position rejects a basket that checks the conversion (gapdrop) and reads as position 0 in one that ignores the error |
| SubmitBasketHandler.Place | handlers/submitbasket.go:108-113 | a placed item keeps its score, sits in the current basket at its position, is numScoredItems + position in the test, and carries the item's answers |
| SubmitBasketHandler.PlaceResponse | handlers/submitbasket.go:93-119 | a response that fails scoring is skipped; a scored one is placed, or rejects the basket when its position does |
| SubmitBasketHandler.Gather | handlers/submitbasket.go:92-120 | the loop fails exactly when some response fails, and otherwise keeps exactly the placed items |
| SubmitBasketHandler.PlaceAll | handlers/submitbasket.go:92-120 | a multi-item basket is rejected exactly when some scored item's position is, and otherwise keeps exactly the placed items, each in place |
| SubmitBasketHandler.SortByPosition | handlers/submitbasket.go:121 | the basket's items are a permutation of the scored items, ascending by position in basket |
| SubmitBasketHandler.MultiBasket | handlers/submitbasket.go:87-246 | a rejected position is a 400 and a basket where nothing is placed panics; otherwise the basket succeeds, its new items are filed and the basket record holds them sorted, with the skill of its first item |
| SubmitBasketHandler.McqBasket | handlers/submitbasket.go:52-85 | the basket succeeds exactly when the item id and answer id are numeric and name a scorable item; a non-numeric id is a 400 and, with both numeric, a 500 exactly when scoring fails; on success exactly one item is recorded, carrying the item, score, correctness and response text the scorer gave that answer id, first in its basket and right after the items scored before |
| SubmitBasketHandler.ScoreBasket | handlers/submitbasket.go:51-254 | an unknown basket type is a 400; an mcq basket succeeds exactly when both ids are numeric and name a scorable item (a 500 exactly when scoring fails); a multi-item basket succeeds exactly when every scored response is placed and at least one is, and panics exactly when none is; an accepted mcq basket is McqBasket's result on the form's ids and an accepted multi-item basket's items are exactly the placed responses in visiting order; every accepted basket is filed in the current basket with the skill of its first item |
| SubmitBasketHandler.Advance | handlers/submitbasket.go:256-324 | the items and basket are recorded; with a further basket the session moves to it, otherwise the test is graded over every item and the client is sent to the result URL when one is set |
| SubmitBasketHandler.SubmitBasket | handlers/submitbasket.go:18-324 | no test in progress is a 500 and an empty or unknown basket type a 400; a submission succeeds exactly when a test is in progress, its basket scores and the basket number can advance, and otherwise fails as the basket's scoring does; success keeps the setup, appends exactly the items and the basket that the basket's scoring produced, and advances or grades |
| SubmitBasketHandler.McqAddsOneItemAtTheEnd | handlers/submitbasket.go:68-79 | an mcq submission adds exactly one item, first in its basket and next in the test, with the item, score and correctness the scorer gave the submitted answer |
| SubmitBasketHandler.MultiItemRecordsPlacedItems | handlers/submitbasket.go:87-256 | a tabbed-pane or gap-drop submission appends to the session exactly the items placed from the form's id responses, in visiting order |
| SubmitBasketHandler.TextItemsRecordPlacedItems | handlers/submitbasket.go:128-256 | a short-answer or gap-text submission appends to the session exactly the items placed from the form's text responses, in visiting order |
| SubmitBasketHandler.McqSubmissionAccepted | handlers/submitbasket.go:52-85 | an mcq submission to a test in progress is accepted exactly when both ids are numeric and name a scorable item, and is a 500 exactly when they are numeric but scoring fails |
| SubmitBasketHandler.MissingPositionRejectsBasket | handlers/submitbasket.go:102-106 | one scored item without a position rejects the whole basket, so nothing is recorded |
| SubmitBasketHandler.EmptyBasketPanics | handlers/submitbasket.go:159-160 | a shortanswer basket in which no response scores panics |
| SubmitBasketHandler.RedirectWithoutQuery | handlers/submitbasket.go:281-301 | a result URL without a query gets "?" and the result parameters |
| SubmitBasketHandler.RedirectKeepsQuery | handlers/submitbasket.go:282-287 | a result URL with one query keeps it, and the results follow an '&' |
| SubmitBasketHandler.RedirectDropsDoubleQuery | handlers/submitbasket.go:282-290 | a result URL with two '?' loses everything after the first |
| SubmitBasketHandler.ResultParamsWithoutLevels | handlers/submitbasket.go:291-300 | empty levels are left out of the query |
| SubmitBasketHandler.UnreadEntryIgnored | handlers/submitbasket.go:28-369 | a form entry the handler never reads cannot change the outcome, wherever it stands in the form |
| SubmitBasketHandler.ClientBasketIdIgnored | handlers/submitbasket.go:40 | adding a client basket id anywhere in the form changes nothing, since only the session's basket id is used |
| Lifecycle.CompletedTestStaysOpen | handlers/submitbasket.go:263-279 | after the last basket the session still holds a test in progress on the same basket |
| Lifecycle.LastMcqAnswerReachesTheRawScore | handlers/submitbasket.go:52-274 | an mcq answer to the booklet's last basket makes the raw score the earlier items' scores plus the score the scorer gave that answer |
| Lifecycle.ResubmissionAddsToTheRawScore | handlers/submitbasket.go:256-274 | submitting after the last basket adds the new items' scores to the raw score and records the basket twice |
| Lifecycle.NoRestartAfterSubmit | handlers/starttest.go:25-29 | once a basket is scored the test cannot be started again in the same pass |
| Lifecycle.SetTlRequiresStart | handlers/settl.go:22-32 | after choosing a language no basket can be submitted until the test is started |
| Lifecycle.TwoBasketBooklet | handlers/submitbasket.go:258-324 | in a two-basket booklet the first submission moves to the second basket, and the second grades every item of the pass |
| DataLoad.DataRows | data/data.go:58-61 | the header row is always dropped, and reading the header of an empty file ends the process |
| DataLoad.HeaderIgnored | data/data.go:97-100 | the header's content never matters |
| DataLoad.ParseRows | data/data.go:65-84 | rows are parsed in file order, and the first failing row stops the load with its failure |
| DataLoad.FirstBadRowDecides | data/data.go:109-117 | the first failing row decides the failure of the whole load |
| DataLoad.GroupLoadByRow | data/data.go:58-84 | a grouping load succeeds exactly when the file has a header and every later row parses, and then every row's key is present with the row's value in its group |
| DataLoad.LastLoadByRow | data/data.go:216-232 | a last-wins load succeeds exactly when the file has a header and every later row parses; every row's key is then present and the file's last row holds its key |
| DataLoad.GroupLoadAppendsInFileOrder | data/data.go:78-83 | one more row appends its value to the end of its key's list and changes nothing else |
| DataLoad.LastLoadOverwrites | data/data.go:231 | a later row for the same key overwrites the earlier value |
| DataLoad.VsptWordRow | data/data.go:71-76 | a word row takes its five fields in order, each number being what Atoi returns beside its ignored error, and a short row panics |
| DataLoad.UnparsableValidIsFake | data/data.go:74-76 | an unparsable Valid column never loads as 1 (it is 0, or an int64 bound when out of range), so the word scores as fake |
| DataLoad.VsptBandRow | data/data.go:109-119 | an unparsable low or high ends the process, and a row too short for the field read next panics |
| DataLoad.SaWeightRow | data/data.go:153-158 | an unparsable weight ends the process |
| DataLoad.SaWeightsLastRowWins | data/data.go:160-165 | a later row for the same skill and statement overwrites the weight |
| DataLoad.NestLastWinsIsFlat | data/data.go:160-165 | the nested skill/statement map holds exactly what a flat last-wins map on (skill, statement) holds |
| DataLoad.LoadSaWeights | data/data.go:130-167 | an empty file ends the process; the load succeeds exactly when every data row has three fields and a numeric weight, and otherwise panics or ends the process; every row's skill and statement are then present |
| DataLoad.PreestWeightRow | data/data.go:225-229 | a weight row is the key and its three coefficients |
| DataLoad.AssignmentRow | data/data.go:259-263 | an assignment row is the key, the threshold and the booklet id |
| DataLoad.BookletLengthRow | data/data.go:302-304 | booklet id and length, each being what Atoi returns beside its ignored error |
| DataLoad.BasketList | data/data.go:332-338 | one basket id per comma-separated field, in order, each being what Atoi returns beside its ignored error |
| DataLoad.BasketListRoundTrip | data/data.go:332-338 | writing int64 ids as a comma list and loading it gives the ids back |
| DataLoad.BasketListOfJunk | data/data.go:332-338 | an empty field loads as basket [0], and "7,x" as [7, 0] |
| DataLoad.BookletBasketRow | data/data.go:331-340 | a basket row is the booklet id and its basket list |
| DataLoad.VsptWordRowRoundTrip | data/data.go:71-76 | a word row written from a word with decimal numbers loads back as that word under its locale, whatever follows the fifth field |
| DataLoad.PreestWeightRowRoundTrip | data/data.go:225-229 | an instance of the parser's contract rather than a round trip in substance, since float parsing is a parameter: a weight row whose texts parse to the coefficients loads back as them under its key |
| DataLoad.VsptBandRowRoundTrip | data/data.go:109-119 | a band row written with decimal low and high bounds loads back as that band under its locale, whatever follows the fourth field |
| DataLoad.AssignmentRowRoundTrip | data/data.go:258-263 | an assignment row whose threshold text parses to the threshold and whose booklet is a decimal loads back as that assignment |
| DataLoad.BookletLengthRowRoundTrip | data/data.go:302-304 | a length row written as two decimals loads back as the booklet and its length |
| DataLoad.BookletBasketRowRoundTrip | data/data.go:331-340 | a basket row written as a decimal booklet id and a comma list of decimal ids loads back as the booklet and its baskets |
| DataLoad.OverflowingBasketIdClamps | data/data.go:336 | a basket id too large for int64 loads as MaxInt64, not 0 |
| DataLoad.LoadVsptWords | data/data.go:48-85 | an empty file ends the process; the load succeeds exactly when every data row has five fields and otherwise panics; each row's word is then in its locale's list |
| DataLoad.LoadVsptBands | data/data.go:87-128 | an empty file ends the process; the load succeeds exactly when every data row has four fields with numeric low and high, and otherwise panics or ends the process; each row's band is then in its locale's list |
| DataLoad.LoadPreestWeights | data/data.go:202-233 | an empty file ends the process; the load succeeds exactly when every data row has four fields and otherwise panics; every key is then present and the last row's coefficients are its key's |
| DataLoad.LoadBookletLengths | data/data.go:279-306 | an empty file ends the process; the load succeeds exactly when every data row has two fields and otherwise panics; every booklet is then present and the last row's length is its booklet's |
| DataLoad.LoadBookletBaskets | data/data.go:308-342 | an empty file ends the process; the load succeeds exactly when every data row has two fields and otherwise panics; every booklet is then present and the last row's basket list is its booklet's |
| DataLoad.LoadedBookletsHaveABasket | data/data.go:331-340 | every loaded booklet has at least one basket, since even an empty field gives one id |
| DataLoad.Trunc | data/data.go:274 | int() of a float truncates toward zero |
| DataLoad.TruncatingComparatorTiesCloseThresholds | data/data.go:274 | thresholds less than 1 apart compare equal in both directions |
| DataLoad.AsWrittenSortLeavesThresholdsUnordered | data/data.go:273-276 | the sort as written keeps [0.6, 0.0] unordered, so first fit for -0.5 picks the booklet of 0.6 instead of that of 0.0 |
| DataLoad.SortAssignments | data/data.go:273-276 | the corrected sort returns a permutation of the list, ascending by threshold |
| DataLoad.LoadAssignments | data/data.go:236-276 | corrected loader: it succeeds exactly when the grouping does, keeps the same keys, and each group is its rows sorted ascending by threshold, a permutation of them |
| DataLoad.LoadAssignmentsAsWritten | data/data.go:236-276 | loader as written: it succeeds exactly when the grouping does, keeps the same keys, and each group is its rows, a permutation of them, in the order the truncating comparator's sort leaves |
| DataLoad.AsWrittenLoadKeepsFileOrder | data/data.go:236-276 | a file listing thresholds 0.6 then 0.0 for one key loads them in that order as written, while the corrected loader puts 0.0 first |
| DataLoad.SeparatedThresholdsSortAlike | data/data.go:273-276 | when a group's thresholds are equal or at least 1 apart, the loader as written sorts it exactly as the corrected one does |
| DataLoad.SortedAssignmentsGiveLeastFit | data/data.go:273-276 | after the corrected sort, first fit finds the least threshold at or above the estimate |

## Left out

- Reading files, the database, the session store, JSON and form decoding, and logging are left out. A decoded body or form is an argument, `None` when decoding fails. Each `datacapture` call is assumed to succeed, except SetTL's CreatePass and CreateSessionAndPass, whose outcome is the `persisted` argument.
- UUID generation is left out: the fresh ids are arguments of SetTl and StartTest.
- `Referrer` and `IPAddress`, which SetTL stores, are left out: they are not fields of the session record.
- The JSON loaders (`cacheItemAnswers`, `cacheAnswers`, `cacheItems`, `cachePunctuation`, `cacheItemGrades`) and `cacheSAGrades` are left out: they only decode files, and `cacheSAGrades` uses float parsing. Their tables are fields of the catalog.
- Float parsing (`strconv.ParseFloat(_, 32)`) is a parameter `parseFloat` of the weight and assignment loaders. Its errors are ignored by the code, as in the model.
- Floating point is modelled as `real`. Rounding error and float32 precision are not modelled. The NaN of a language without fake words is modelled by its effect: no band matches and the process ends.
- Vspt.Round: is math.Round on non-negative values only, because the Meara score it rounds is never negative.
- The weight key is `fmt.Sprintf("%s#%d#%d", …)` on booleans, which prints `%!d(bool=true)`. The model keys the weight table by a (tl, skill, vspt, sa) record instead. The loader's text keys are not connected to it.
- GoStrings.ToLower: lowers ASCII letters only, because the model has no Unicode case tables. `strings.ToLower` also lowers non-ASCII letters.
- `slices.SortFunc` is modelled as insertion sort, the algorithm Go uses for slices of at most 12 elements. Longer slices use pattern-defeating quicksort, which can order equal elements differently. The model's contracts (a sorted permutation) hold for both, except that DataLoad.LoadAssignmentsAsWritten states insertion sort's exact order, which describes groups of at most 12 assignments; its truncating comparator is not an ordering, so for larger groups the model does not say which order Go produces.
- SubmitBasketHandler.SortByPosition: assumes `a.PositionInBasket - b.PositionInBasket` does not overflow, because the comparator is modelled as an exact "less than" on positions. Positions near the int64 limits could compare wrongly in the code.
- The order of items with equal positions in a basket is not stated, because it depends on map iteration order.
- The basket-number increment (`CurrentBasketNumber + 1`) is not wrapped at the int64 limit. The model takes the negative case as a panic, which is what wrap-around would cause.
- Scoring.SumScores: adds with unbounded integers, because a raw score is a sum of item weights; Go's `int` addition would wrap at 64 bits, which needs a test of more than 2^63 points.
- Scoring.GetItemGrade: takes its raw score from `SumScores`, so the 64-bit wrap-around of that sum is not modelled either.
- Scoring.SaRawScore: adds the statement weights with unbounded integers, for the same reason; the loaded weights are int64 values, and only a sum past the int64 range would differ.
- Strings are sequences of Unicode scalar values. Text that is not valid UTF-8, which Go's `range` over a string reads as U+FFFD, cannot be written down, so its effect on normalisation and on `%x` codes is not modelled.
- `db/db.go` is reduced to partial lookups on the catalog. A missing item or answer is an error. A failed grade-table query is a missing key.
- The questionnaire handler, routing and the HTTP status codes beyond the four failure kinds are not part of this model.

## Findings

| source | as written | input that shows it | evidently intended | confidence | as-written member | corrected member |
|---|---|---|---|---|---|---|
| data/data.go:273-276 | the assignment comparator `int(pa1.Pe - pa2.Pe)` truncates the difference, so thresholds less than 1 apart compare equal and stay in file order | assignments [(0.6, booklet 1), (0.0, booklet 2)] and estimate -0.5: the list stays as it is and first fit picks booklet 1 | each list sorted ascending by threshold, so that first fit picks the least qualifying threshold (booklet 2) | not executed | DataLoad.AsWrittenLoadKeepsFileOrder | DataLoad.LoadAssignments |
