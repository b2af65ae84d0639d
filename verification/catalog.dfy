/** The reference catalog: read-only tables loaded once at start-up, as an
    immutable value handed to every scoring function instead of the
    package-level maps of `data` and the lazily filled caches of `db`.
 */
module Catalog {
  import opened Outcomes

  /** A test item: the fields of the shared item record the engine reads. */
  datatype Item = Item(id: int, itemType: string, skill: string, subSkill: string, text: string, weight: int)

  /** An answer option of an item; `correct` is the integer flag stored in the table. */
  datatype Answer = Answer(id: int, itemId: int, text: string, correct: int)

  /** A VSPT probe word; it is a real word when `valid` is 1. */
  datatype VsptWord = VsptWord(wordId: string, word: string, valid: int, weight: int)

  /** A VSPT score band for one test language: [low, high] -> CEFR level. */
  datatype VsptBand = VsptBand(locale: string, level: string, low: int, high: int)

  /** A self-assessment grading row: (skill, raw score) -> estimate and grade. */
  datatype SaGrade = SaGrade(skill: string, rsc: int, ppe: real, se: real, grade: int)

  /** Coefficients of the preliminary estimate. */
  datatype PreestWeight = PreestWeight(sa: real, vspt: real, coe: real)

  /** A threshold on the preliminary estimate and the booklet it selects. */
  datatype PreestAssignment = PreestAssignment(pe: real, bookletId: int)

  /** A final grading row of one (test language, skill, booklet). */
  datatype ItemGrade = ItemGrade(ppe: real, se: real, grade: int)

  /** Key of the preliminary-estimate weights: test language, skill and which
      pre-tests were submitted. */
  datatype WeightKey = WeightKey(tl: string, skill: string, vsptSubmitted: bool, saSubmitted: bool)

  /** Key of a final grading table. */
  datatype GradeKey = GradeKey(tl: string, skill: string, bookletId: int)

  datatype Catalog = Catalog(
    vsptWords: map<string, seq<VsptWord>>,               // by test language, file order
    vsptBands: map<string, seq<VsptBand>>,               // by test language, file order
    saWeights: map<string, map<string, int>>,            // skill -> statement id -> weight
    saGrades: seq<SaGrade>,                              // file order
    preestWeights: map<WeightKey, PreestWeight>,
    preestAssignments: map<string, seq<PreestAssignment>>, // "tl#skill" -> list as loaded
    bookletLengths: map<int, int>,
    bookletBaskets: map<int, seq<int>>,                  // booklet -> basket ids in order
    itemAnswers: map<int, seq<Answer>>,                  // answer snapshot per item (data files)
    items: map<int, Item>,                               // item table (database)
    answers: map<int, Answer>,                           // answer table (database)
    answersForItem: map<int, seq<Answer>>,               // answers of one item (database query)
    punctuation: seq<string>,                            // hex code points of punctuation
    itemGrades: map<GradeKey, map<int, ItemGrade>>)      // raw score -> grade, per key

  /** db.GetItem: a miss is an error. */
  function GetItem(c: Catalog, itemId: int): Option<Item> {
    if itemId in c.items then Some(c.items[itemId]) else None
  }

  /** db.GetAnswer: a miss is an error. */
  function GetAnswer(c: Catalog, answerId: int): Option<Answer> {
    if answerId in c.answers then Some(c.answers[answerId]) else None
  }

  /** db.GetAnswersForItem: an item without answers has an empty list. */
  function GetAnswersForItem(c: Catalog, itemId: int): seq<Answer> {
    if itemId in c.answersForItem then c.answersForItem[itemId] else []
  }

  /** db.GetItemGrades: `None` when the query fails (no table for the key). */
  function GetItemGrades(c: Catalog, key: GradeKey): Option<map<int, ItemGrade>> {
    if key in c.itemGrades then Some(c.itemGrades[key]) else None
  }

  /** data.ItemAnswers[itemId]: Go's zero value (an empty list) on a miss. */
  function ItemAnswers(c: Catalog, itemId: int): seq<Answer> {
    if itemId in c.itemAnswers then c.itemAnswers[itemId] else []
  }

  /** data.BookletBaskets[bookletId]: an empty list on a miss. */
  function BookletBaskets(c: Catalog, bookletId: int): seq<int> {
    if bookletId in c.bookletBaskets then c.bookletBaskets[bookletId] else []
  }

  /** data.BookletLengths[bookletId]: 0 on a miss. */
  function BookletLength(c: Catalog, bookletId: int): int {
    if bookletId in c.bookletLengths then c.bookletLengths[bookletId] else 0
  }

  /** data.PreestAssignments[key]: an empty list on a miss. */
  function Assignments(c: Catalog, key: string): seq<PreestAssignment> {
    if key in c.preestAssignments then c.preestAssignments[key] else []
  }
}
