/** The per-row logic of the start-up loaders of `data/data.go`: every CSV
    file starts with a header row that is dropped, each later row is turned
    into a key and a value, and the values are either grouped per key in
    file order or overwrite each other (the last row for a key wins).
    Records are given already split into fields; opening and reading the
    files is not modelled.
 */
module DataLoad {
  import opened Outcomes
  import opened GoStrings
  import opened Assoc
  import opened Catalog
  import opened Sorting
  import Scoring
  import Vspt

  type Row = seq<string>

  // ---------------------------------------------------------------------
  // Header and row iteration

  /** The rows after the header. Reading the header of an empty file fails,
      and the loader ends the process. */
  function DataRows(records: seq<Row>): (r: Result<seq<Row>>)
    ensures r.Ok? <==> |records| > 0
    ensures r.Err? ==> r.failure == Fatal
    ensures r.Ok? ==> [records[0]] + r.value == records
  {
    if |records| == 0 then Err(Fatal) else Ok(records[1..])
  }

  /** Row `i` is the first whose parse fails. */
  predicate FirstFailure<T>(rows: seq<Row>, parse: Row -> Result<T>, i: int) {
    0 <= i < |rows| && parse(rows[i]).Err? && forall j :: 0 <= j < i ==> parse(rows[j]).Ok?
  }

  /** The read loop: rows are parsed in file order and the first failing row
      stops the load with its failure. */
  function ParseRows<T>(rows: seq<Row>, parse: Row -> Result<T>): (r: Result<seq<T>>)
    ensures r.Ok? <==> forall i :: 0 <= i < |rows| ==> parse(rows[i]).Ok?
    ensures r.Ok? ==> |r.value| == |rows| && forall i :: 0 <= i < |rows| ==> parse(rows[i]) == Ok(r.value[i])
    ensures r.Err? ==> exists i :: FirstFailure(rows, parse, i) && parse(rows[i]).failure == r.failure
    decreases |rows|
  {
    if |rows| == 0 then Ok([])
    else
      match parse(rows[0])
      case Err(e) =>
        assert FirstFailure(rows, parse, 0);
        Err(e)
      case Ok(x) =>
        var rest := ParseRows(rows[1..], parse);
        assert forall i :: 1 <= i < |rows| ==> rows[i] == rows[1..][i - 1];
        match rest
        case Err(e) =>
          var i :| FirstFailure(rows[1..], parse, i) && parse(rows[1..][i]).failure == e;
          assert FirstFailure(rows, parse, i + 1);
          Err(e)
        case Ok(xs) =>
          assert forall i :: 0 <= i < |rows| ==> parse(rows[i]) == Ok(([x] + xs)[i]);
          Ok([x] + xs)
  }

  /** Reading one more row: it is parsed after all earlier rows succeed. */
  lemma {:induction false} ParseRowsSnoc<T>(rows: seq<Row>, row: Row, parse: Row -> Result<T>)
    ensures ParseRows(rows + [row], parse)
         == match ParseRows(rows, parse)
            case Err(e) => Err(e)
            case Ok(xs) => (match parse(row) case Err(e) => Err(e) case Ok(x) => Ok(xs + [x]))
    decreases |rows|
  {
    if |rows| == 0 {
      assert rows + [row] == [row];
      assert [row][1..] == [];
      if parse(row).Ok? {
        var x := parse(row).value;
        var none: seq<T> := [];
        assert [x] + none == none + [x] == [x];
      }
    } else {
      assert (rows + [row])[0] == rows[0];
      assert (rows + [row])[1..] == rows[1..] + [row];
      ParseRowsSnoc(rows[1..], row, parse);
      match parse(rows[0]) {
        case Err(e) =>
        case Ok(x) =>
          match ParseRows(rows[1..], parse) {
            case Err(e) =>
            case Ok(xs) =>
              if parse(row).Ok? {
                assert [x] + (xs + [parse(row).value]) == ([x] + xs) + [parse(row).value];
              }
          }
      }
    }
  }

  /** A loader whose rows sharing a key are appended in file order. */
  function GroupLoad<K(==, !new), V>(records: seq<Row>, parse: Row -> Result<(K, V)>): (r: Result<map<K, seq<V>>>)
    ensures |records| == 0 ==> r == Err(Fatal)
    ensures |records| > 0 ==> r.Ok? == ParseRows(records[1..], parse).Ok?
    ensures |records| > 0 && r.Err? ==> r.failure == ParseRows(records[1..], parse).failure
    ensures |records| > 0 && r.Ok? ==> var pairs := ParseRows(records[1..], parse).value;
      && (forall i :: 0 <= i < |pairs| ==> pairs[i].0 in r.value && pairs[i].1 in r.value[pairs[i].0])
      && (forall k :: k in r.value ==> r.value[k] == InOrder(pairs, k))
  {
    match DataRows(records)
    case Err(e) => Err(e)
    case Ok(rows) =>
      match ParseRows(rows, parse)
      case Err(e) => Err(e)
      case Ok(pairs) =>
        GroupInOrderHasEveryPair(pairs);
        Ok(GroupInOrder(pairs))
  }

  /** A loader in which a later row overwrites an earlier one with its key. */
  function LastLoad<K(==, !new), V>(records: seq<Row>, parse: Row -> Result<(K, V)>): (r: Result<map<K, V>>)
    ensures |records| == 0 ==> r == Err(Fatal)
    ensures |records| > 0 ==> r.Ok? == ParseRows(records[1..], parse).Ok?
    ensures |records| > 0 && r.Err? ==> r.failure == ParseRows(records[1..], parse).failure
    ensures |records| > 0 && r.Ok? ==> var pairs := ParseRows(records[1..], parse).value;
      && (forall i :: 0 <= i < |pairs| ==> pairs[i].0 in r.value)
      && (forall k :: k in r.value ==> exists i :: 0 <= i < |pairs| && pairs[i].0 == k)
      && (forall i :: 0 <= i < |pairs| && IsLastFor(pairs, i) ==> r.value[pairs[i].0] == pairs[i].1)
  {
    match DataRows(records)
    case Err(e) => Err(e)
    case Ok(rows) =>
      match ParseRows(rows, parse)
      case Err(e) => Err(e)
      case Ok(pairs) => Ok(LastWins(pairs))
  }

  /** The header row's content never matters. */
  lemma HeaderIgnored<K(!new), V>(h1: Row, h2: Row, rows: seq<Row>, parse: Row -> Result<(K, V)>)
    ensures GroupLoad([h1] + rows, parse) == GroupLoad([h2] + rows, parse)
    ensures LastLoad([h1] + rows, parse) == LastLoad([h2] + rows, parse)
  {
    assert ([h1] + rows)[1..] == rows;
    assert ([h2] + rows)[1..] == rows;
  }

  /** One more pair appends its value to its key's group. */
  lemma GroupInOrderSnoc<K(!new), V>(pairs: seq<(K, V)>, p: (K, V))
    ensures var g := GroupInOrder(pairs);
      GroupInOrder(pairs + [p]) == g[p.0 := (if p.0 in g then g[p.0] else []) + [p.1]]
  {
    var g, g' := GroupInOrder(pairs), GroupInOrder(pairs + [p]);
    var expected := g[p.0 := (if p.0 in g then g[p.0] else []) + [p.1]];
    forall k | k in g'
      ensures k in expected
    {
      var i :| 0 <= i < |pairs + [p]| && (pairs + [p])[i].0 == k;
      if i < |pairs| {
        assert pairs[i].0 == k;
      }
    }
    forall k | k in expected
      ensures k in g' && g'[k] == expected[k]
    {
      if k != p.0 {
        assert k in g;
        var i :| 0 <= i < |pairs| && pairs[i].0 == k;
        assert (pairs + [p])[i].0 == k;
      } else {
        assert (pairs + [p])[|pairs|].0 == k;
      }
      InOrderSnoc(pairs, p, k);
      if k !in g {
        InOrderEmpty(pairs, k);
      }
    }
    assert g' == expected;
  }

  /** Rows sharing a key are appended in file order: loading one more row adds
      its value at the end of its key's list and changes nothing else. */
  lemma GroupLoadAppendsInFileOrder<K(!new), V>(records: seq<Row>, row: Row, parse: Row -> Result<(K, V)>)
    requires |records| > 0
    ensures var before, after := GroupLoad(records, parse), GroupLoad(records + [row], parse);
      && (after.Ok? <==> before.Ok? && parse(row).Ok?)
      && (after.Ok? ==> var g, p := before.value, parse(row).value;
            after.value == g[p.0 := (if p.0 in g then g[p.0] else []) + [p.1]])
  {
    assert (records + [row])[1..] == records[1..] + [row];
    ParseRowsSnoc(records[1..], row, parse);
    var pr := ParseRows(records[1..], parse);
    if pr.Ok? && parse(row).Ok? {
      GroupInOrderSnoc(pr.value, parse(row).value);
    }
  }

  /** A later row for the same key overwrites the earlier value. */
  lemma LastLoadOverwrites<K(!new), V>(records: seq<Row>, row: Row, parse: Row -> Result<(K, V)>)
    requires |records| > 0
    ensures var before, after := LastLoad(records, parse), LastLoad(records + [row], parse);
      && (after.Ok? <==> before.Ok? && parse(row).Ok?)
      && (after.Ok? ==> after.value == before.value[parse(row).value.0 := parse(row).value.1])
  {
    assert (records + [row])[1..] == records[1..] + [row];
    ParseRowsSnoc(records[1..], row, parse);
    var pr := ParseRows(records[1..], parse);
    if pr.Ok? && parse(row).Ok? {
      var pairs := pr.value + [parse(row).value];
      assert pairs[..|pairs| - 1] == pr.value;
    }
  }

  /** The first failing row decides the failure of the whole load. */
  lemma FirstBadRowDecides<K(!new), V>(records: seq<Row>, parse: Row -> Result<(K, V)>)
    requires |records| > 0 && GroupLoad(records, parse).Err?
    ensures exists i :: FirstFailure(records[1..], parse, i) && parse(records[1..][i]).failure == GroupLoad(records, parse).failure
  {
  }

  /** A load read row by row: it succeeds exactly when the file has a header
      and every later row parses, and then each row's value is in its key's
      group. */
  lemma GroupLoadByRow<K(!new), V>(records: seq<Row>, parse: Row -> Result<(K, V)>)
    ensures GroupLoad(records, parse).Ok?
        <==> |records| > 0 && forall i :: 1 <= i < |records| ==> parse(records[i]).Ok?
    ensures GroupLoad(records, parse).Ok? ==> var m := GroupLoad(records, parse).value;
      forall i :: 1 <= i < |records| ==> var p := parse(records[i]).value; p.0 in m && p.1 in m[p.0]
  {
    if |records| > 0 {
      var rows := records[1..];
      assert forall i :: 1 <= i < |records| ==> records[i] == rows[i - 1];
    }
  }

  /** A last-wins load read row by row: it succeeds exactly when the file has
      a header and every later row parses, every row's key is then present,
      and the file's last row holds its key. */
  lemma LastLoadByRow<K(!new), V>(records: seq<Row>, parse: Row -> Result<(K, V)>)
    ensures LastLoad(records, parse).Ok?
        <==> |records| > 0 && forall i :: 1 <= i < |records| ==> parse(records[i]).Ok?
    ensures LastLoad(records, parse).Ok? ==>
      forall i :: 1 <= i < |records| ==> parse(records[i]).value.0 in LastLoad(records, parse).value
    ensures LastLoad(records, parse).Ok? && |records| > 1 ==> var last := parse(records[|records| - 1]).value;
      LastLoad(records, parse).value[last.0] == last.1
  {
    if |records| > 0 {
      var rows := records[1..];
      assert forall i :: 1 <= i < |records| ==> records[i] == rows[i - 1];
      if LastLoad(records, parse).Ok? && |records| > 1 {
        var pairs := ParseRows(rows, parse).value;
        assert IsLastFor(pairs, |pairs| - 1);
      }
    }
  }

  // ---------------------------------------------------------------------
  // Row parsers. A field read past the end of the row panics.

  /** cacheVSPTWords: locale, word id, word, valid, weight. Atoi errors are
      ignored, so a number field that is not a numeral is 0 and one out of
      range is the int64 bound of its sign. */
  function VsptWordRow(r: Row): (p: Result<(string, VsptWord)>)
    ensures p.Ok? <==> |r| >= 5
    ensures p.Err? ==> p.failure == Panic
    ensures p.Ok? ==> p.value.0 == r[0] && p.value.1.wordId == r[1] && p.value.1.word == r[2]
    ensures p.Ok? ==> p.value.1.valid == AtoiIgnoringError(r[3]) && p.value.1.weight == AtoiIgnoringError(r[4])
  {
    if |r| < 5 then Err(Panic)
    else Ok((r[0], VsptWord(r[1], r[2], AtoiIgnoringError(r[3]), AtoiIgnoringError(r[4]))))
  }

  /** An unparsable Valid column never loads as 1, so the word scores as
      fake: a field that is not a numeral loads as 0, one out of range as an
      int64 bound. */
  lemma UnparsableValidIsFake(r: Row)
    requires |r| >= 5 && Atoi(r[3]).None?
    ensures VsptWordRow(r).Ok?
    ensures var valid := VsptWordRow(r).value.1.valid;
      valid != 1 && (!AtoiRangeError(r[3]) ==> valid == 0)
    ensures Vspt.WordType(VsptWordRow(r).value.1) == 0
  {
  }

  /** cacheVSPTBands: low (field 2) and high (field 3) must parse, or the
      process ends; fields are read in the order 2, 3, then 0 and 1. */
  function VsptBandRow(r: Row): (p: Result<(string, VsptBand)>)
    ensures p.Ok? <==> |r| >= 4 && Atoi(r[2]).Some? && Atoi(r[3]).Some?
    ensures |r| < 3 ==> p == Err(Panic)
    ensures |r| >= 3 && Atoi(r[2]).None? ==> p == Err(Fatal)
    ensures |r| == 3 && Atoi(r[2]).Some? ==> p == Err(Panic)
    ensures |r| >= 4 && Atoi(r[2]).Some? && Atoi(r[3]).None? ==> p == Err(Fatal)
    ensures p.Ok? ==> p.value == (r[0], VsptBand(r[0], r[1], Atoi(r[2]).value, Atoi(r[3]).value))
  {
    if |r| < 3 then Err(Panic)
    else
      match Atoi(r[2])
      case None => Err(Fatal)
      case Some(low) =>
        if |r| < 4 then Err(Panic)
        else
          match Atoi(r[3])
          case None => Err(Fatal)
          case Some(high) => Ok((r[0], VsptBand(r[0], r[1], low, high)))
  }

  /** cacheSAWeights: skill, statement id, weight; an unparsable weight ends
      the process. */
  function SaWeightRow(r: Row): (p: Result<((string, string), int)>)
    ensures p.Ok? <==> |r| >= 3 && Atoi(r[2]).Some?
    ensures |r| < 3 ==> p == Err(Panic)
    ensures |r| >= 3 && Atoi(r[2]).None? ==> p == Err(Fatal)
    ensures p.Ok? ==> p.value == ((r[0], r[1]), Atoi(r[2]).value)
  {
    if |r| < 3 then Err(Panic)
    else
      match Atoi(r[2])
      case None => Err(Fatal)
      case Some(w) => Ok(((r[0], r[1]), w))
  }

  /** cachePreestWeights: key, then the three coefficients. Float parsing is
      the parameter `parseFloat` (its errors are ignored by the loader). */
  function PreestWeightRow(parseFloat: string -> real, r: Row): (p: Result<(string, PreestWeight)>)
    ensures p.Ok? <==> |r| >= 4
    ensures p.Err? ==> p.failure == Panic
    ensures p.Ok? ==> p.value == (r[0], PreestWeight(parseFloat(r[1]), parseFloat(r[2]), parseFloat(r[3])))
  {
    if |r| < 4 then Err(Panic)
    else Ok((r[0], PreestWeight(parseFloat(r[1]), parseFloat(r[2]), parseFloat(r[3]))))
  }

  /** cachePreestAssignments: key, threshold, booklet id. */
  function AssignmentRow(parseFloat: string -> real, r: Row): (p: Result<(string, PreestAssignment)>)
    ensures p.Ok? <==> |r| >= 3
    ensures p.Err? ==> p.failure == Panic
    ensures p.Ok? ==> p.value == (r[0], PreestAssignment(parseFloat(r[1]), AtoiIgnoringError(r[2])))
  {
    if |r| < 3 then Err(Panic)
    else Ok((r[0], PreestAssignment(parseFloat(r[1]), AtoiIgnoringError(r[2]))))
  }

  /** The assignment row parser for a given float parser. */
  function AssignmentParser(parseFloat: string -> real): Row -> Result<(string, PreestAssignment)> {
    (row: Row) => AssignmentRow(parseFloat, row)
  }

  /** cacheBookletLengths: booklet id, length, with Atoi errors ignored. */
  function BookletLengthRow(r: Row): (p: Result<(int, int)>)
    ensures p.Ok? <==> |r| >= 2
    ensures p.Err? ==> p.failure == Panic
    ensures p.Ok? ==> p.value == (AtoiIgnoringError(r[0]), AtoiIgnoringError(r[1]))
  {
    if |r| < 2 then Err(Panic) else Ok((AtoiIgnoringError(r[0]), AtoiIgnoringError(r[1])))
  }

  /** The basket field of a booklet: one id per comma-separated field, in
      order, with Atoi errors ignored: a field that is not a numeral (the
      empty one included) reads as 0, one out of range as an int64 bound. */
  function BasketList(field: string): (ids: seq<int>)
    ensures |ids| == |Split(field, ',')| && |ids| >= 1
    ensures forall i :: 0 <= i < |ids| ==> ids[i] == AtoiIgnoringError(Split(field, ',')[i])
  {
    var parts := Split(field, ',');
    seq(|parts|, i requires 0 <= i < |parts| => AtoiIgnoringError(parts[i]))
  }

  /** cacheBookletBaskets: booklet id, comma list of basket ids. */
  function BookletBasketRow(r: Row): (p: Result<(int, seq<int>)>)
    ensures p.Ok? <==> |r| >= 2
    ensures p.Err? ==> p.failure == Panic
    ensures p.Ok? ==> p.value == (AtoiIgnoringError(r[0]), BasketList(r[1]))
  {
    if |r| < 2 then Err(Panic) else Ok((AtoiIgnoringError(r[0]), BasketList(r[1])))
  }

  /** The decimal text of a list of ids. */
  function Decimals(ids: seq<int>): (parts: seq<string>)
    ensures |parts| == |ids|
  {
    seq(|ids|, i requires 0 <= i < |ids| => Itoa(ids[i]))
  }

  /** Writing int64 ids as a comma list and loading it gives the ids back. */
  lemma BasketListRoundTrip(ids: seq<int>)
    requires |ids| >= 1
    requires forall i :: 0 <= i < |ids| ==> InInt64(ids[i])
    ensures BasketList(Join(Decimals(ids), ',')) == ids
  {
    var parts := Decimals(ids);
    forall i | 0 <= i < |parts|
      ensures ',' !in parts[i]
    {
      ItoaHasNoComma(ids[i]);
    }
    SplitJoin(parts, ',');
    forall i | 0 <= i < |ids|
      ensures AtoiIgnoringError(parts[i]) == ids[i]
    {
      AtoiItoa(ids[i]);
    }
  }

  lemma ItoaHasNoComma(n: int)
    ensures ',' !in Itoa(n)
  {
    var m: nat := if n < 0 then -n else n;
    var digits := NatToString(m);
    assert forall i :: 0 <= i < |digits| ==> IsDigit(digits[i]);
    if n < 0 {
      assert Itoa(n) == "-" + digits;
    }
  }

  /** An empty basket field and a field of a non-number each give basket 0. */
  lemma BasketListOfJunk()
    ensures BasketList("") == [0]
    ensures BasketList("7,x") == [7, 0]
  {
    assert Split("", ',') == [""] by {
      SplitJoin([""], ',');
      assert Join([""], ',') == "";
    }
    assert Split("7,x", ',') == ["7", "x"] by {
      SplitJoin(["7", "x"], ',');
      assert Join(["7", "x"], ',') == "7,x";
    }
    assert Atoi("x").None?;
    assert Atoi("7") == Some(7) by {
      AtoiItoa(7);
      assert Itoa(7) == "7";
    }
  }

  /** A word row written from a word, with its numbers as decimals, loads
      back as that word under its locale; fields past the fifth are never
      read. */
  lemma VsptWordRowRoundTrip(locale: string, w: VsptWord, extra: Row)
    requires InInt64(w.valid) && InInt64(w.weight)
    ensures VsptWordRow([locale, w.wordId, w.word, Itoa(w.valid), Itoa(w.weight)] + extra) == Ok((locale, w))
  {
    AtoiItoa(w.valid);
    AtoiItoa(w.weight);
  }

  /** A band row written with decimal bounds loads back as that band under
      its locale; fields past the fourth are never read. */
  lemma VsptBandRowRoundTrip(b: VsptBand, extra: Row)
    requires InInt64(b.low) && InInt64(b.high)
    ensures VsptBandRow([b.locale, b.level, Itoa(b.low), Itoa(b.high)] + extra) == Ok((b.locale, b))
  {
    AtoiItoa(b.low);
    AtoiItoa(b.high);
  }

  /** A weight row whose three texts parse to the coefficients loads back as
      those coefficients under its key. */
  lemma PreestWeightRowRoundTrip(parseFloat: string -> real, key: string, texts: seq<string>, w: PreestWeight)
    requires |texts| == 3
    requires parseFloat(texts[0]) == w.sa && parseFloat(texts[1]) == w.vspt && parseFloat(texts[2]) == w.coe
    ensures PreestWeightRow(parseFloat, [key] + texts) == Ok((key, w))
  {
    assert ([key] + texts)[1..] == texts;
  }

  /** An assignment row whose threshold text parses to the threshold loads
      back as that assignment under its key. */
  lemma AssignmentRowRoundTrip(parseFloat: string -> real, key: string, peText: string, a: PreestAssignment)
    requires parseFloat(peText) == a.pe && InInt64(a.bookletId)
    ensures AssignmentRow(parseFloat, [key, peText, Itoa(a.bookletId)]) == Ok((key, a))
  {
    AtoiItoa(a.bookletId);
  }

  /** A length row written as decimals loads back as (booklet, length). */
  lemma BookletLengthRowRoundTrip(booklet: int, length: int)
    requires InInt64(booklet) && InInt64(length)
    ensures BookletLengthRow([Itoa(booklet), Itoa(length)]) == Ok((booklet, length))
  {
    AtoiItoa(booklet);
    AtoiItoa(length);
  }

  /** A basket row written as a decimal booklet id and a comma list of
      decimal basket ids loads back as the booklet and its baskets. */
  lemma BookletBasketRowRoundTrip(booklet: int, ids: seq<int>)
    requires InInt64(booklet) && |ids| >= 1
    requires forall i :: 0 <= i < |ids| ==> InInt64(ids[i])
    ensures BookletBasketRow([Itoa(booklet), Join(Decimals(ids), ',')]) == Ok((booklet, ids))
  {
    AtoiItoa(booklet);
    BasketListRoundTrip(ids);
  }

  /** A basket id too large for int64 loads as the largest int64, not 0. */
  lemma OverflowingBasketIdClamps(n: nat)
    requires n > MaxInt64
    ensures BasketList(NatToString(n)) == [MaxInt64]
  {
    var s := NatToString(n);
    assert forall i :: 0 <= i < |s| ==> IsDigit(s[i]);
    assert ',' !in s;
    SplitJoin([s], ',');
    assert Join([s], ',') == s;
    AtoiClampsLargeNumerals(n);
  }

  // ---------------------------------------------------------------------
  // The seven loaders

  /** cacheVSPTWords: the words of each locale in file order. A row of fewer
      than five fields panics. */
  function LoadVsptWords(records: seq<Row>): (r: Result<map<string, seq<VsptWord>>>)
    ensures |records| == 0 ==> r == Err(Fatal)
    ensures r.Ok? <==> |records| > 0 && forall i :: 1 <= i < |records| ==> |records[i]| >= 5
    ensures |records| > 0 && r.Err? ==> r.failure == Panic
    ensures r.Ok? ==> forall i :: 1 <= i < |records| ==>
      records[i][0] in r.value && VsptWordRow(records[i]).value.1 in r.value[records[i][0]]
  {
    GroupLoadByRow(records, VsptWordRow);
    GroupLoad(records, VsptWordRow)
  }

  /** cacheVSPTBands: the bands of each locale in file order. The load fails
      as the first bad row does: a short row panics, an unparsable bound ends
      the process. */
  function LoadVsptBands(records: seq<Row>): (r: Result<map<string, seq<VsptBand>>>)
    ensures |records| == 0 ==> r == Err(Fatal)
    ensures r.Ok? <==> |records| > 0 && forall i :: 1 <= i < |records| ==>
      |records[i]| >= 4 && Atoi(records[i][2]).Some? && Atoi(records[i][3]).Some?
    ensures |records| > 0 && r.Err? ==> r.failure == Panic || r.failure == Fatal
    ensures r.Ok? ==> forall i :: 1 <= i < |records| ==> var row := records[i];
      row[0] in r.value && VsptBand(row[0], row[1], Atoi(row[2]).value, Atoi(row[3]).value) in r.value[row[0]]
  {
    GroupLoadByRow(records, VsptBandRow);
    GroupLoad(records, VsptBandRow)
  }

  /** cachePreestWeights: one set of coefficients per key, the last row for
      a key winning. A row of fewer than four fields panics. */
  function LoadPreestWeights(parseFloat: string -> real, records: seq<Row>): (r: Result<map<string, PreestWeight>>)
    ensures |records| == 0 ==> r == Err(Fatal)
    ensures r.Ok? <==> |records| > 0 && forall i :: 1 <= i < |records| ==> |records[i]| >= 4
    ensures |records| > 0 && r.Err? ==> r.failure == Panic
    ensures r.Ok? ==> forall i :: 1 <= i < |records| ==> records[i][0] in r.value
    ensures r.Ok? && |records| > 1 ==> var last := records[|records| - 1];
      r.value[last[0]] == PreestWeight(parseFloat(last[1]), parseFloat(last[2]), parseFloat(last[3]))
  {
    LastLoadByRow(records, (row: Row) => PreestWeightRow(parseFloat, row));
    LastLoad(records, (row: Row) => PreestWeightRow(parseFloat, row))
  }

  /** cacheBookletLengths: one length per booklet, the last row for a
      booklet winning. A row of fewer than two fields panics. */
  function LoadBookletLengths(records: seq<Row>): (r: Result<map<int, int>>)
    ensures |records| == 0 ==> r == Err(Fatal)
    ensures r.Ok? <==> |records| > 0 && forall i :: 1 <= i < |records| ==> |records[i]| >= 2
    ensures |records| > 0 && r.Err? ==> r.failure == Panic
    ensures r.Ok? ==> forall i :: 1 <= i < |records| ==> AtoiIgnoringError(records[i][0]) in r.value
    ensures r.Ok? && |records| > 1 ==> var last := records[|records| - 1];
      r.value[AtoiIgnoringError(last[0])] == AtoiIgnoringError(last[1])
  {
    LastLoadByRow(records, BookletLengthRow);
    LastLoad(records, BookletLengthRow)
  }

  /** cacheBookletBaskets: one basket list per booklet, the last row for a
      booklet winning. A row of fewer than two fields panics. */
  function LoadBookletBaskets(records: seq<Row>): (r: Result<map<int, seq<int>>>)
    ensures |records| == 0 ==> r == Err(Fatal)
    ensures r.Ok? <==> |records| > 0 && forall i :: 1 <= i < |records| ==> |records[i]| >= 2
    ensures |records| > 0 && r.Err? ==> r.failure == Panic
    ensures r.Ok? ==> forall i :: 1 <= i < |records| ==> AtoiIgnoringError(records[i][0]) in r.value
    ensures r.Ok? && |records| > 1 ==> var last := records[|records| - 1];
      r.value[AtoiIgnoringError(last[0])] == BasketList(last[1])
  {
    LastLoadByRow(records, BookletBasketRow);
    LastLoad(records, BookletBasketRow)
  }

  /** Every booklet the basket loader knows has at least one basket, since
      even an empty field splits into one (zero) id. */
  lemma LoadedBookletsHaveABasket(records: seq<Row>, booklet: int)
    requires LoadBookletBaskets(records).Ok? && booklet in LoadBookletBaskets(records).value
    ensures |LoadBookletBaskets(records).value[booklet]| >= 1
  {
    var pairs := ParseRows(records[1..], BookletBasketRow).value;
    var i :| 0 <= i < |pairs| && pairs[i].0 == booklet;
    var j := LastIndexOf(pairs, i);
    assert BookletBasketRow(records[1..][j]) == Ok(pairs[j]);
  }

  /** One turn of cacheSAWeights' loop: create the inner map of a new skill,
      otherwise assign into it. */
  function NestInsert(m: map<string, map<string, int>>, p: ((string, string), int)): map<string, map<string, int>> {
    var skill, wid := p.0.0, p.0.1;
    if skill !in m then m[skill := map[wid := p.1]] else m[skill := m[skill][wid := p.1]]
  }

  /** cacheSAWeights' nested map, built by the loop over the rows. */
  function NestLastWins(pairs: seq<((string, string), int)>): map<string, map<string, int>>
    decreases |pairs|
  {
    if |pairs| == 0 then map[]
    else NestInsert(NestLastWins(pairs[..|pairs| - 1]), pairs[|pairs| - 1])
  }

  /** The nested map `n` and the flat map `f` agree on (skill, wid). */
  predicate NestAgrees(n: map<string, map<string, int>>, f: map<(string, string), int>, skill: string, wid: string) {
    && ((skill in n && wid in n[skill]) <==> (skill, wid) in f)
    && ((skill, wid) in f ==> n[skill][wid] == f[(skill, wid)])
  }

  lemma NestInsertAgrees(n: map<string, map<string, int>>, f: map<(string, string), int>, p: ((string, string), int), skill: string, wid: string)
    requires NestAgrees(n, f, skill, wid)
    ensures NestAgrees(NestInsert(n, p), f[p.0 := p.1], skill, wid)
  {
    var n2, f2 := NestInsert(n, p), f[p.0 := p.1];
    if p.0 == (skill, wid) {
      assert skill in n2 && n2[skill][wid] == p.1;
    } else if p.0.0 == skill {
      assert n2[skill] == (if skill in n then n[skill] else map[])[p.0.1 := p.1];
    } else {
      assert (skill in n2) == (skill in n);
      assert skill in n ==> n2[skill] == n[skill];
    }
  }

  /** The nested map holds exactly what a flat last-wins map on (skill,
      statement) pairs holds. */
  lemma {:induction false} NestLastWinsIsFlat(pairs: seq<((string, string), int)>, skill: string, wid: string)
    ensures var n, f := NestLastWins(pairs), LastWins(pairs);
      && ((skill in n && wid in n[skill]) <==> (skill, wid) in f)
      && ((skill, wid) in f ==> n[skill][wid] == f[(skill, wid)])
    decreases |pairs|
  {
    if |pairs| > 0 {
      var init, p := pairs[..|pairs| - 1], pairs[|pairs| - 1];
      NestLastWinsIsFlat(init, skill, wid);
      LastWinsLast(pairs);
      NestInsertAgrees(NestLastWins(init), LastWins(init), p, skill, wid);
    }
    assert NestAgrees(NestLastWins(pairs), LastWins(pairs), skill, wid);
  }

  /** Every (skill, statement) pair of the rows has a weight in the nested
      map. */
  lemma NestLastWinsHasEveryPair(pairs: seq<((string, string), int)>)
    ensures forall i :: 0 <= i < |pairs| ==>
      pairs[i].0.0 in NestLastWins(pairs) && pairs[i].0.1 in NestLastWins(pairs)[pairs[i].0.0]
  {
    forall i | 0 <= i < |pairs|
      ensures pairs[i].0.0 in NestLastWins(pairs) && pairs[i].0.1 in NestLastWins(pairs)[pairs[i].0.0]
    {
      NestLastWinsIsFlat(pairs, pairs[i].0.0, pairs[i].0.1);
    }
  }

  /** cacheSAWeights: a weight per skill and statement. The load fails as the
      first bad row does: a short row panics, an unparsable weight ends the
      process. */
  function LoadSaWeights(records: seq<Row>): (r: Result<map<string, map<string, int>>>)
    ensures |records| == 0 ==> r == Err(Fatal)
    ensures r.Ok? <==> |records| > 0 && forall i :: 1 <= i < |records| ==> |records[i]| >= 3 && Atoi(records[i][2]).Some?
    ensures |records| > 0 && r.Err? ==> r.failure == Panic || r.failure == Fatal
    ensures r.Ok? ==> forall i :: 1 <= i < |records| ==> records[i][0] in r.value && records[i][1] in r.value[records[i][0]]
  {
    match DataRows(records)
    case Err(e) => Err(e)
    case Ok(rows) =>
      assert forall i :: 1 <= i < |records| ==> records[i] == rows[i - 1];
      match ParseRows(rows, SaWeightRow)
      case Err(e) => Err(e)
      case Ok(pairs) =>
        NestLastWinsHasEveryPair(pairs);
        Ok(NestLastWins(pairs))
  }

  /** A later row for the same skill and statement overwrites the weight;
      the weights of other statements stay. */
  lemma SaWeightsLastRowWins(records: seq<Row>, skill: string, wid: string, w: int)
    requires |records| > 0
    requires LoadSaWeights(records + [[skill, wid, Itoa(w)]]).Ok?
    requires InInt64(w)
    ensures var m := LoadSaWeights(records + [[skill, wid, Itoa(w)]]).value;
      skill in m && wid in m[skill] && m[skill][wid] == w
  {
    var row: Row := [skill, wid, Itoa(w)];
    AtoiItoa(w);
    assert (records + [row])[1..] == records[1..] + [row];
    ParseRowsSnoc(records[1..], row, SaWeightRow);
    var pairs := ParseRows(records[1..] + [row], SaWeightRow).value;
    assert pairs[|pairs| - 1] == ((skill, wid), w);
    NestLastWinsIsFlat(pairs, skill, wid);
    assert IsLastFor(pairs, |pairs| - 1);
  }

  // ---------------------------------------------------------------------
  // Preliminary-estimate assignments and their sort

  /** Go's int(x) on a float: truncation toward zero. */
  function Trunc(x: real): (n: int)
    ensures x >= 0.0 ==> n as real <= x < n as real + 1.0
    ensures x < 0.0 ==> n as real - 1.0 < x <= n as real
  {
    if x >= 0.0 then x.Floor else -((-x).Floor)
  }

  /** The comparator as written, `int(pa1.Pe - pa2.Pe)`, as a "less" test. */
  predicate TruncLess(a: PreestAssignment, b: PreestAssignment) {
    Trunc(a.pe - b.pe) < 0
  }

  /** The evidently intended comparator: by threshold, exactly. */
  predicate ExactLess(a: PreestAssignment, b: PreestAssignment) {
    a.pe < b.pe
  }

  function Threshold(a: PreestAssignment): real {
    a.pe
  }

  /** Thresholds less than 1 apart compare equal under the truncating
      comparator, in both directions. */
  lemma TruncatingComparatorTiesCloseThresholds(a: PreestAssignment, b: PreestAssignment)
    requires -1.0 < a.pe - b.pe < 1.0
    ensures !TruncLess(a, b) && !TruncLess(b, a)
  {
  }

  /** As written: the short-list sort keeps [0.6, 0.0] as it is, so the
      first-fit scan for an estimate of -0.5 picks the booklet of 0.6
      where the least threshold at or above the estimate belongs to 0.0. */
  lemma AsWrittenSortLeavesThresholdsUnordered()
    ensures var list := [PreestAssignment(0.6, 1), PreestAssignment(0.0, 2)];
      && InsertionSort(list, TruncLess) == list
      && Scoring.FirstFit(InsertionSort(list, TruncLess), -0.5) == 1
      && Scoring.FirstFit(InsertionSort(list, ExactLess), -0.5) == 2
  {
    var a, b := PreestAssignment(0.6, 1), PreestAssignment(0.0, 2);
    var list := [a, b];
    assert list[..1] == [a];
    assert InsertionSort([a], TruncLess) == [a] by {
      assert [a][..0] == [];
    }
    assert InsertionSort([a], ExactLess) == [a] by {
      assert [a][..0] == [];
    }
    assert !TruncLess(b, a);
    assert ExactLess(b, a);
    assert InsertBack([a], b, ExactLess) == [b, a] by {
      assert [a][..0] == [];
    }
    assert Scoring.FirstFitAt([a, b], -0.5, 0);
    assert Scoring.FirstFitAt([b, a], -0.5, 0);
  }

  /** Corrected: each assignment list sorted ascending by threshold. */
  function SortAssignments(list: seq<PreestAssignment>): (r: seq<PreestAssignment>)
    ensures multiset(r) == multiset(list)
    ensures SortedBy(r, Threshold)
  {
    SortIsSortedPermutation(list, ExactLess, Threshold);
    InsertionSort(list, ExactLess)
  }

  /** cachePreestAssignments with the sort the loader intends: rows grouped
      per "tl#skill" key in file order, then each group sorted ascending. */
  function LoadAssignments(parseFloat: string -> real, records: seq<Row>): (r: Result<map<string, seq<PreestAssignment>>>)
    ensures |records| == 0 ==> r == Err(Fatal)
    ensures var g := GroupLoad(records, AssignmentParser(parseFloat));
      && (r.Ok? <==> g.Ok?)
      && (r.Ok? ==> r.value.Keys == g.value.Keys)
      && (r.Ok? ==> forall k :: k in r.value ==> multiset(r.value[k]) == multiset(g.value[k]) && SortedBy(r.value[k], Threshold))
      && (r.Ok? ==> forall k :: k in r.value ==> r.value[k] == SortAssignments(g.value[k]))
  {
    match GroupLoad(records, AssignmentParser(parseFloat))
    case Err(e) => Err(e)
    case Ok(g) => Ok(map k | k in g :: SortAssignments(g[k]))
  }

  /** cachePreestAssignments as written: rows grouped per "tl#skill" key in
      file order, then each group sorted with the truncating comparator.
      Every group keeps its assignments; only their order can differ from
      the corrected loader's. */
  function LoadAssignmentsAsWritten(parseFloat: string -> real, records: seq<Row>): (r: Result<map<string, seq<PreestAssignment>>>)
    ensures |records| == 0 ==> r == Err(Fatal)
    ensures var g := GroupLoad(records, AssignmentParser(parseFloat));
      && (r.Ok? <==> g.Ok?)
      && (r.Ok? ==> r.value.Keys == g.value.Keys)
      && (r.Ok? ==> forall k :: k in r.value ==> multiset(r.value[k]) == multiset(g.value[k]))
      && (r.Ok? ==> forall k :: k in r.value ==> r.value[k] == InsertionSort(g.value[k], TruncLess))
  {
    match GroupLoad(records, AssignmentParser(parseFloat))
    case Err(e) => Err(e)
    case Ok(g) => Ok(map k | k in g :: InsertionSort(g[k], TruncLess))
  }

  /** Two rows that parse load as their two values, in order. */
  lemma ParseTwoRows<T>(r1: Row, r2: Row, parse: Row -> Result<T>)
    requires parse(r1).Ok? && parse(r2).Ok?
    ensures ParseRows([r1, r2], parse) == Ok([parse(r1).value, parse(r2).value])
  {
    var rows := [r1, r2];
    assert rows[1..] == [r2] && [r2][1..] == [];
    var none: seq<T> := [];
    assert ParseRows([r2], parse) == Ok([parse(r2).value] + none);
    assert [parse(r2).value] + none == [parse(r2).value];
    assert [parse(r1).value] + [parse(r2).value] == [parse(r1).value, parse(r2).value];
  }

  /** Two values under one key form one group, in order. */
  lemma GroupTwo<K(!new), V>(k: K, a: V, b: V)
    ensures GroupInOrder([(k, a), (k, b)]) == map[k := [a, b]]
  {
    var none: seq<(K, V)> := [];
    var empty: map<K, seq<V>> := map[];
    assert GroupInOrder(none) == empty;
    GroupInOrderSnoc(none, (k, a));
    assert none + [(k, a)] == [(k, a)];
    var nil: seq<V> := [];
    assert nil + [a] == [a];
    assert GroupInOrder([(k, a)]) == map[k := [a]];
    GroupInOrderSnoc([(k, a)], (k, b));
    assert [(k, a)] + [(k, b)] == [(k, a), (k, b)];
    assert [a] + [b] == [a, b];
  }

  /** The two assignment rows of the example below group under one key. */
  lemma TwoAssignmentRowsGroup(parseFloat: string -> real, records: seq<Row>)
    requires parseFloat("0.6") == 0.6 && parseFloat("0.0") == 0.0
    requires records == [["key", "pe", "booklet"], ["eng#reading", "0.6", "1"], ["eng#reading", "0.0", "2"]]
    ensures GroupLoad(records, AssignmentParser(parseFloat))
         == Ok(map["eng#reading" := [PreestAssignment(0.6, 1), PreestAssignment(0.0, 2)]])
  {
    var parse := AssignmentParser(parseFloat);
    var a, b := PreestAssignment(0.6, 1), PreestAssignment(0.0, 2);
    AssignmentRowRoundTrip(parseFloat, "eng#reading", "0.6", a);
    AssignmentRowRoundTrip(parseFloat, "eng#reading", "0.0", b);
    assert Itoa(1) == "1" && Itoa(2) == "2";
    assert parse(records[1]) == Ok(("eng#reading", a));
    assert parse(records[2]) == Ok(("eng#reading", b));
    assert records[1..] == [records[1], records[2]];
    ParseTwoRows(records[1], records[2], parse);
    GroupTwo("eng#reading", a, b);
  }

  /** The two-element list [0.6, 0.0] sorted by threshold. */
  lemma SortTwoThresholds()
    ensures SortAssignments([PreestAssignment(0.6, 1), PreestAssignment(0.0, 2)])
         == [PreestAssignment(0.0, 2), PreestAssignment(0.6, 1)]
  {
    var a, b := PreestAssignment(0.6, 1), PreestAssignment(0.0, 2);
    var sorted := SortAssignments([a, b]);
    assert multiset(sorted) == multiset{a, b};
    assert sorted[0] in multiset(sorted) && sorted[1] in multiset(sorted);
    assert |sorted| == 2 && Threshold(sorted[0]) <= Threshold(sorted[1]);
  }

  /** As written, a file listing thresholds 0.6 then 0.0 for one key loads
      them in that order; the corrected loader puts 0.0 first. */
  lemma AsWrittenLoadKeepsFileOrder(parseFloat: string -> real, records: seq<Row>)
    requires parseFloat("0.6") == 0.6 && parseFloat("0.0") == 0.0
    requires records == [["key", "pe", "booklet"], ["eng#reading", "0.6", "1"], ["eng#reading", "0.0", "2"]]
    ensures var asWritten, corrected := LoadAssignmentsAsWritten(parseFloat, records), LoadAssignments(parseFloat, records);
      && asWritten.Ok? && asWritten.value.Keys == {"eng#reading"}
      && asWritten.value["eng#reading"] == [PreestAssignment(0.6, 1), PreestAssignment(0.0, 2)]
      && corrected.Ok? && corrected.value.Keys == {"eng#reading"}
      && corrected.value["eng#reading"] == [PreestAssignment(0.0, 2), PreestAssignment(0.6, 1)]
  {
    var a, b := PreestAssignment(0.6, 1), PreestAssignment(0.0, 2);
    TwoAssignmentRowsGroup(parseFloat, records);
    OneGroupLoads(parseFloat, records, "eng#reading", [a, b]);
    AsWrittenSortLeavesThresholdsUnordered();
    SortTwoThresholds();
  }

  /** A file whose rows all share one key loads as that key's group, sorted
      by each loader's own comparator. */
  lemma OneGroupLoads(parseFloat: string -> real, records: seq<Row>, k: string, list: seq<PreestAssignment>)
    requires GroupLoad(records, AssignmentParser(parseFloat)) == Ok(map[k := list])
    ensures var asWritten, corrected := LoadAssignmentsAsWritten(parseFloat, records), LoadAssignments(parseFloat, records);
      && asWritten.Ok? && asWritten.value.Keys == {k} && asWritten.value[k] == InsertionSort(list, TruncLess)
      && corrected.Ok? && corrected.value.Keys == {k} && corrected.value[k] == SortAssignments(list)
  {
  }

  /** When the thresholds of a group are equal or at least 1 apart, the
      truncating comparator orders them exactly, and the loader as written
      sorts the group as the corrected one does. */
  lemma SeparatedThresholdsSortAlike(list: seq<PreestAssignment>)
    requires forall a, b :: a in list && b in list ==> a.pe == b.pe || a.pe - b.pe >= 1.0 || b.pe - a.pe >= 1.0
    ensures InsertionSort(list, TruncLess) == SortAssignments(list)
  {
    forall a, b | a in list && b in list
      ensures TruncLess(a, b) <==> ExactLess(a, b)
    {
    }
    InsertionSortAgree(list, TruncLess, ExactLess);
  }

  /** After the corrected sort, the first-fit scan finds the least
      threshold at or above the estimate. */
  lemma SortedAssignmentsGiveLeastFit(list: seq<PreestAssignment>, pe: real, i: int)
    requires Scoring.FirstFitAt(SortAssignments(list), pe, i)
    ensures var sorted := SortAssignments(list);
      forall j :: 0 <= j < |sorted| && pe <= sorted[j].pe ==> sorted[i].pe <= sorted[j].pe
  {
    var sorted := SortAssignments(list);
    assert forall a, b :: 0 <= a < b < |sorted| ==> Threshold(sorted[a]) <= Threshold(sorted[b]);
    Scoring.FirstFitOnSortedIsLeastFit(sorted, pe, i);
  }
}
