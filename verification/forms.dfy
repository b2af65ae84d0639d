/** Request bodies after decoding: a form (url.Values) or a JSON object of
    strings, given as its entries in the order a Go `range` visits them.
    Keys are distinct, and each form key carries its first value.
 */
module Forms {
  import opened Outcomes
  import opened GoStrings
  import opened Assoc
  import opened Filtering

  type Entries = seq<(string, string)>

  /** r.FormValue(key): the value of `key`, "" when it is absent. */
  function FormValue(form: Entries, key: string): (v: string)
    ensures (forall i :: 0 <= i < |form| ==> form[i].0 != key) ==> v == ""
    ensures forall i :: 0 <= i < |form| && form[i].0 == key && (forall j :: 0 <= j < i ==> form[j].0 != key)
              ==> v == form[i].1
    decreases |form|
  {
    if |form| == 0 then ""
    else if form[0].0 == key then form[0].1
    else
      assert forall i :: 1 <= i < |form| ==> form[i] == form[1..][i - 1];
      FormValue(form[1..], key)
  }

  // ---------------------------------------------------------------------
  // "word:<id>" and "statement:<id>" keys (VSPT and SA bodies)

  /** strings.Split(key, ":")[1]: the text after the first ':' up to the next. */
  function IdAfterColon(key: string): string
    requires ':' in key
  {
    Split(key, ':')[1]
  }

  lemma PrefixHasColon(key: string, prefix: string)
    requires HasPrefix(key, prefix) && ':' in prefix
    ensures ':' in key
  {
    var i :| 0 <= i < |prefix| && prefix[i] == ':';
    assert key[..|prefix|][i] == key[i];
  }

  /** A kept entry: its key starts with `prefix`. */
  predicate Kept(entry: (string, string), prefix: string) {
    HasPrefix(entry.0, prefix)
  }

  /** What a kept entry becomes: (id, value == yes). */
  function Reading(entry: (string, string), prefix: string, yes: string): (string, bool)
    requires Kept(entry, prefix) && ':' in prefix
  {
    PrefixHasColon(entry.0, prefix);
    (IdAfterColon(entry.0), entry.1 == yes)
  }

  /** What one entry contributes: its reading when it is kept. */
  function ReadingOf(prefix: string, yes: string, e: (string, string)): (o: Option<(string, bool)>)
    ensures ':' in prefix ==> (o.Some? <==> Kept(e, prefix))
    ensures ':' in prefix && o.Some? ==> o.value == Reading(e, prefix, yes)
  {
    if ':' in prefix && Kept(e, prefix) then Some(Reading(e, prefix, yes)) else None
  }

  /** The loop `for k, v := range body { if HasPrefix(k, prefix) { m[id] = v == yes } }`
      as the sequence of assignments it makes, in visiting order. */
  function PrefixedResponses(body: Entries, prefix: string, yes: string): (r: seq<(string, bool)>)
    requires ':' in prefix
    ensures |r| <= |body|
    ensures forall i :: 0 <= i < |r| ==> exists j :: 0 <= j < |body| && Kept(body[j], prefix) && r[i] == Reading(body[j], prefix, yes)
    ensures forall j :: 0 <= j < |body| && Kept(body[j], prefix) ==> Reading(body[j], prefix, yes) in r
  {
    var f := e => ReadingOf(prefix, yes, e);
    var r := FilterMap(body, f);
    assert forall j :: 0 <= j < |body| ==> f(body[j]) == ReadingOf(prefix, yes, body[j]);
    r
  }

  /** Entry `e` has the prefix and its id is `id`. */
  predicate KeyReadsAs(e: (string, string), prefix: string, id: string)
    requires ':' in prefix
  {
    Kept(e, prefix) && Reading(e, prefix, "").0 == id
  }

  /** The id of a reading does not depend on the value compared against. */
  lemma ReadingId(e: (string, string), prefix: string, yes: string)
    requires ':' in prefix && Kept(e, prefix)
    ensures Reading(e, prefix, yes).0 == Reading(e, prefix, "").0
  {
  }

  /** The ids the map ends up with are exactly the ids of the kept keys. */
  lemma PrefixedKeysRead(body: Entries, prefix: string, yes: string, id: string)
    requires ':' in prefix
    ensures id in LastWins(PrefixedResponses(body, prefix, yes))
        <==> exists j :: 0 <= j < |body| && KeyReadsAs(body[j], prefix, id)
  {
    if id in LastWins(PrefixedResponses(body, prefix, yes)) {
      ReadIdHasKey(body, prefix, yes, id);
    }
    if exists j :: 0 <= j < |body| && KeyReadsAs(body[j], prefix, id) {
      var j :| 0 <= j < |body| && KeyReadsAs(body[j], prefix, id);
      KeyIsRead(body, prefix, yes, j);
    }
  }

  lemma ReadIdHasKey(body: Entries, prefix: string, yes: string, id: string)
    requires ':' in prefix
    requires id in LastWins(PrefixedResponses(body, prefix, yes))
    ensures exists j :: 0 <= j < |body| && KeyReadsAs(body[j], prefix, id)
  {
    var r := PrefixedResponses(body, prefix, yes);
    var i := KeyPosition(r, id);
    var j :| 0 <= j < |body| && Kept(body[j], prefix) && r[i] == Reading(body[j], prefix, yes);
    ReadingId(body[j], prefix, yes);
    assert KeyReadsAs(body[j], prefix, id);
  }

  /** The value an id ends up with is the reading of one entry with that id. */
  lemma ReadValueHasKey(body: Entries, prefix: string, yes: string, id: string)
    requires ':' in prefix
    requires id in LastWins(PrefixedResponses(body, prefix, yes))
    ensures exists j ::
      && 0 <= j < |body| && KeyReadsAs(body[j], prefix, id)
      && LastWins(PrefixedResponses(body, prefix, yes))[id] == (body[j].1 == yes)
  {
    var r := PrefixedResponses(body, prefix, yes);
    LastWinsValueFromPair(r, id);
    var i :| 0 <= i < |r| && r[i] == (id, LastWins(r)[id]);
    var j :| 0 <= j < |body| && Kept(body[j], prefix) && r[i] == Reading(body[j], prefix, yes);
    ReadingId(body[j], prefix, yes);
    assert KeyReadsAs(body[j], prefix, id);
  }

  /** A position of a key of the map built from the pairs. */
  lemma KeyPosition<K(!new), V>(pairs: seq<(K, V)>, k: K) returns (i: int)
    requires k in LastWins(pairs)
    ensures 0 <= i < |pairs| && pairs[i].0 == k
  {
    i :| 0 <= i < |pairs| && pairs[i].0 == k;
  }

  lemma KeyIsRead(body: Entries, prefix: string, yes: string, j: int)
    requires ':' in prefix && 0 <= j < |body| && Kept(body[j], prefix)
    ensures Reading(body[j], prefix, "").0 in LastWins(PrefixedResponses(body, prefix, yes))
  {
    var r := PrefixedResponses(body, prefix, yes);
    var p := Reading(body[j], prefix, yes);
    ReadingId(body[j], prefix, yes);
    assert p in r;
    var i :| 0 <= i < |r| && r[i] == p;
    assert r[i].0 in LastWins(r);
  }

  /** A body with the single entry stem:id reads as [(id, value == yes)]. */
  lemma SingleEntryReading(stem: string, id: string, value: string, yes: string)
    requires ':' !in stem && ':' !in id
    ensures ':' in stem + [':']
    ensures PrefixedResponses([(stem + [':'] + id, value)], stem + [':'], yes) == [(id, value == yes)]
  {
    var key := stem + [':'] + id;
    IdAfterColonRoundTrip(stem, id);
    assert key[..|stem + [':']|] == stem + [':'];
    FilterMapSnoc([], (key, value), e => ReadingOf(stem + [':'], yes, e));
    assert [] + [(key, value)] == [(key, value)];
  }

  /** A key built as stem + ':' + id, with no ':' in stem or id, reads back as id. */
  lemma IdAfterColonRoundTrip(stem: string, id: string)
    requires ':' !in stem && ':' !in id
    ensures ':' in stem + [':'] + id
    ensures IdAfterColon(stem + [':'] + id) == id
  {
    assert Join([stem, id], ':') == stem + [':'] + id;
    SplitJoin([stem, id], ':');
  }

  /** Entries whose key lacks the prefix are ignored. */
  lemma UnprefixedIgnored(body: Entries, prefix: string, yes: string, key: string, value: string)
    requires ':' in prefix && !HasPrefix(key, prefix)
    ensures PrefixedResponses(body + [(key, value)], prefix, yes) == PrefixedResponses(body, prefix, yes)
  {
    var f := e => ReadingOf(prefix, yes, e);
    assert f((key, value)).None?;
    FilterMapSnoc(body, (key, value), f);
  }

  // ---------------------------------------------------------------------
  // "<itemId>-response" keys (multi-item baskets)

  /** The item id of a "-response" key: Atoi of the text before the first '-'. */
  function ResponseItemId(key: string): Option<int> {
    Atoi(Split(key, '-')[0])
  }

  /** Form entry `e` reads as item `itemId` answered with answer `answerId`. */
  predicate IdEntry(e: (string, string), itemId: int, answerId: int) {
    HasSuffix(e.0, "-response") && ResponseItemId(e.0) == Some(itemId) && Atoi(e.1) == Some(answerId)
  }

  /** Form entry `e` reads as item `itemId` answered with `text`. */
  predicate TextEntry(e: (string, string), itemId: int, text: string) {
    HasSuffix(e.0, "-response") && ResponseItemId(e.0) == Some(itemId) && e.1 == text
  }

  /** What one entry contributes to getMultipleIdResponses. */
  function IdReading(e: (string, string)): (o: Option<(int, int)>)
    ensures o.Some? <==> HasSuffix(e.0, "-response") && ResponseItemId(e.0).Some? && Atoi(e.1).Some?
    ensures o.Some? ==> IdEntry(e, o.value.0, o.value.1)
  {
    if HasSuffix(e.0, "-response") && ResponseItemId(e.0).Some? && Atoi(e.1).Some?
    then Some((ResponseItemId(e.0).value, Atoi(e.1).value))
    else None
  }

  /** What one entry contributes to getMultipleTextualResponses. */
  function TextReading(e: (string, string)): (o: Option<(int, string)>)
    ensures o.Some? <==> HasSuffix(e.0, "-response") && ResponseItemId(e.0).Some?
    ensures o.Some? ==> TextEntry(e, o.value.0, o.value.1)
  {
    if HasSuffix(e.0, "-response") && ResponseItemId(e.0).Some?
    then Some((ResponseItemId(e.0).value, e.1))
    else None
  }

  /** getMultipleIdResponses as the assignments it makes, in visiting order:
      keys ending in "-response" whose item id and value both parse. */
  function IdResponsePairs(form: Entries): (r: seq<(int, int)>)
    ensures |r| <= |form|
    ensures forall i :: 0 <= i < |r| ==> exists j :: 0 <= j < |form| && IdEntry(form[j], r[i].0, r[i].1)
    ensures forall j, itemId, answerId :: 0 <= j < |form| && IdEntry(form[j], itemId, answerId) ==> (itemId, answerId) in r
  {
    var r := FilterMap(form, IdReading);
    IdPairsComplete(form, r);
    r
  }

  lemma IdReadingOfEntry(e: (string, string), itemId: int, answerId: int)
    requires IdEntry(e, itemId, answerId)
    ensures IdReading(e) == Some((itemId, answerId))
  {
  }

  lemma IdPairsComplete(form: Entries, r: seq<(int, int)>)
    requires r == FilterMap(form, IdReading)
    ensures forall i :: 0 <= i < |r| ==> exists j :: 0 <= j < |form| && IdEntry(form[j], r[i].0, r[i].1)
    ensures forall j, itemId, answerId :: 0 <= j < |form| && IdEntry(form[j], itemId, answerId) ==> (itemId, answerId) in r
  {
    forall j, itemId, answerId | 0 <= j < |form| && IdEntry(form[j], itemId, answerId)
      ensures (itemId, answerId) in r
    {
      IdReadingOfEntry(form[j], itemId, answerId);
    }
  }

  /** getMultipleTextualResponses as the assignments it makes: keys ending
      in "-response" whose item id parses, with the raw text. */
  function TextResponsePairs(form: Entries): (r: seq<(int, string)>)
    ensures |r| <= |form|
    ensures forall i :: 0 <= i < |r| ==> exists j :: 0 <= j < |form| && TextEntry(form[j], r[i].0, r[i].1)
    ensures forall j, itemId :: 0 <= j < |form| && TextEntry(form[j], itemId, form[j].1) ==> (itemId, form[j].1) in r
  {
    var r := FilterMap(form, TextReading);
    TextPairsComplete(form, r);
    r
  }

  lemma TextPairsComplete(form: Entries, r: seq<(int, string)>)
    requires r == FilterMap(form, TextReading)
    ensures forall i :: 0 <= i < |r| ==> exists j :: 0 <= j < |form| && TextEntry(form[j], r[i].0, r[i].1)
    ensures forall j, itemId :: 0 <= j < |form| && TextEntry(form[j], itemId, form[j].1) ==> (itemId, form[j].1) in r
  {
    forall j, itemId | 0 <= j < |form| && TextEntry(form[j], itemId, form[j].1)
      ensures (itemId, form[j].1) in r
    {
      assert TextReading(form[j]) == Some((itemId, form[j].1));
    }
  }

  /** The Go map getMultipleIdResponses returns, in insertion order. */
  function IdResponses(form: Entries): (al: seq<(int, int)>)
    ensures DistinctKeys(al)
    ensures forall i :: 0 <= i < |al| ==> al[i] in IdResponsePairs(form)
    ensures forall j :: 0 <= j < |IdResponsePairs(form)| ==> exists i :: 0 <= i < |al| && al[i].0 == IdResponsePairs(form)[j].0
    ensures LastWins(al) == LastWins(IdResponsePairs(form))
  {
    CollectFromPairs(IdResponsePairs(form));
    Collect(IdResponsePairs(form))
  }

  /** The Go map getMultipleTextualResponses returns, in insertion order. */
  function TextResponses(form: Entries): (al: seq<(int, string)>)
    ensures DistinctKeys(al)
    ensures forall i :: 0 <= i < |al| ==> al[i] in TextResponsePairs(form)
    ensures forall j :: 0 <= j < |TextResponsePairs(form)| ==> exists i :: 0 <= i < |al| && al[i].0 == TextResponsePairs(form)[j].0
    ensures LastWins(al) == LastWins(TextResponsePairs(form))
  {
    CollectFromPairs(TextResponsePairs(form));
    Collect(TextResponsePairs(form))
  }

  /** The key the client sends for a non-negative item id reads back as that id. */
  lemma ResponseKeyRoundTrip(itemId: int)
    requires 0 <= itemId <= MaxInt64
    ensures HasSuffix(Itoa(itemId) + "-response", "-response")
    ensures ResponseItemId(Itoa(itemId) + "-response") == Some(itemId)
  {
    var key := Itoa(itemId) + "-response";
    NatToStringHasNoDash(itemId);
    assert Itoa(itemId) == NatToString(itemId);
    assert "-response" == "" + ['-'] + "response";
    assert key == Itoa(itemId) + ['-'] + "response";
    assert Split(key, '-')[0] == Itoa(itemId) by {
      assert '-' in key;
      assert IndexOf(key, '-') == |Itoa(itemId)| by {
        assert key[|Itoa(itemId)|] == '-';
        assert key[..|Itoa(itemId)|] == Itoa(itemId);
      }
    }
    AtoiItoa(itemId);
    assert key[|key| - 9..] == "-response";
  }

  /** A negative item id cannot be sent: its key starts with '-', so the text
      before the first '-' is empty and the entry is skipped. */
  lemma NegativeResponseKeySkipped(itemId: int)
    requires itemId < 0
    ensures ResponseItemId(Itoa(itemId) + "-response").None?
  {
    var key := Itoa(itemId) + "-response";
    assert key[0] == '-';
    assert IndexOf(key, '-') == 0;
    assert Split(key, '-')[0] == "";
  }

  // ---------------------------------------------------------------------
  // Entries a reader does not look at

  /** An entry added anywhere among the others cannot change the value of
      any other key. */
  lemma {:induction false} FormValueIgnoresInsertedKey(form: Entries, i: nat, e: (string, string), key: string)
    requires i <= |form| && e.0 != key
    ensures FormValue(form[..i] + [e] + form[i..], key) == FormValue(form, key)
    decreases |form|
  {
    var g := form[..i] + [e] + form[i..];
    if i == 0 {
      assert g[1..] == form;
    } else if form[0].0 != key {
      assert g[1..] == form[1..][..i - 1] + [e] + form[1..][i - 1..];
      FormValueIgnoresInsertedKey(form[1..], i - 1, e, key);
    }
  }

  /** An entry whose key does not end in "-response" is not a response,
      wherever it stands in the form. */
  lemma ResponsesIgnoreOtherKeys(form: Entries, i: nat, e: (string, string))
    requires i <= |form| && !HasSuffix(e.0, "-response")
    ensures IdResponses(form[..i] + [e] + form[i..]) == IdResponses(form)
    ensures TextResponses(form[..i] + [e] + form[i..]) == TextResponses(form)
  {
    FilterMapSkipsRejected(form, i, e, IdReading);
    FilterMapSkipsRejected(form, i, e, TextReading);
  }
}
