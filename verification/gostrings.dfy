/** The parts of Go's `strings`, `strconv`, `unicode` and `fmt` packages that
    the engine relies on, restated over `string` = `seq<char>` (a `char` is a
    Unicode scalar value, i.e. a Go rune).
 */
module GoStrings {
  import opened Outcomes

  const MinInt64: int := -0x8000_0000_0000_0000
  const MaxInt64: int := 0x7FFF_FFFF_FFFF_FFFF

  /** The range of Go's 64-bit `int`. */
  predicate InInt64(n: int) {
    MinInt64 <= n <= MaxInt64
  }

  /** Two's-complement wrap-around of a sum computed in Go's 64-bit `int`. */
  function Wrap64(n: int): (r: int)
    ensures InInt64(r)
    ensures (r - n) % 0x1_0000_0000_0000_0000 == 0
    ensures InInt64(n) ==> r == n
  {
    (n - MinInt64) % 0x1_0000_0000_0000_0000 + MinInt64
  }

  // ---------------------------------------------------------------------
  // strings.HasPrefix / strings.HasSuffix

  predicate HasPrefix(s: string, prefix: string) {
    |prefix| <= |s| && s[..|prefix|] == prefix
  }

  predicate HasSuffix(s: string, suffix: string) {
    |suffix| <= |s| && s[|s| - |suffix|..] == suffix
  }

  // ---------------------------------------------------------------------
  // strings.Split / strings.Join with a one-character separator

  /** Index of the first occurrence of `c` in `s`. */
  function IndexOf(s: string, c: char): (i: nat)
    requires c in s
    ensures i < |s| && s[i] == c && c !in s[..i]
  {
    if s[0] == c then 0 else 1 + IndexOf(s[1..], c)
  }

  function Join(parts: seq<string>, sep: char): string
    decreases |parts|
  {
    if |parts| == 0 then ""
    else if |parts| == 1 then parts[0]
    else parts[0] + [sep] + Join(parts[1..], sep)
  }

  /** strings.Split(s, sep): the pieces between separators, always at least
      one (the empty string splits into one empty piece). */
  function Split(s: string, sep: char): (parts: seq<string>)
    ensures |parts| >= 1
    ensures sep in s ==> |parts| >= 2
    ensures forall i :: 0 <= i < |parts| ==> sep !in parts[i]
    ensures Join(parts, sep) == s
    decreases |s|
  {
    if sep !in s then [s]
    else
      var i := IndexOf(s, sep);
      var rest := Split(s[i + 1..], sep);
      assert s == s[..i] + [sep] + s[i + 1..];
      [s[..i]] + rest
  }

  /** Splitting a join of separator-free pieces gives the pieces back. */
  lemma {:induction false} SplitJoin(parts: seq<string>, sep: char)
    requires |parts| >= 1
    requires forall i :: 0 <= i < |parts| ==> sep !in parts[i]
    ensures Split(Join(parts, sep), sep) == parts
    decreases |parts|
  {
    if |parts| == 1 {
    } else {
      var s := Join(parts, sep);
      var rest := Join(parts[1..], sep);
      assert s == parts[0] + [sep] + rest;
      assert s[|parts[0]|] == sep;
      assert s[..|parts[0]|] == parts[0];
      assert sep in s;
      assert IndexOf(s, sep) == |parts[0]|;
      assert s[|parts[0]| + 1..] == rest;
      SplitJoin(parts[1..], sep);
    }
  }

  // ---------------------------------------------------------------------
  // unicode.IsSpace and strings.Fields

  /** unicode.IsSpace: the Latin-1 spaces and the other White_Space code points. */
  predicate IsSpace(c: char) {
    c == '\t' || c == '\n' || c == '\U{000B}' || c == '\U{000C}' || c == '\r' || c == ' '
    || c == '\U{0085}' || c == '\U{00A0}' || c == '\U{1680}'
    || ('\U{2000}' <= c <= '\U{200A}')
    || c == '\U{2028}' || c == '\U{2029}' || c == '\U{202F}' || c == '\U{205F}' || c == '\U{3000}'
  }

  predicate NoSpace(s: string) {
    forall i :: 0 <= i < |s| ==> !IsSpace(s[i])
  }

  /** Length of the run of non-space characters that starts `s`. */
  function WordLength(s: string): (n: nat)
    requires |s| > 0 && !IsSpace(s[0])
    ensures 1 <= n <= |s| && NoSpace(s[..n])
    ensures n < |s| ==> IsSpace(s[n])
  {
    if |s| == 1 || IsSpace(s[1]) then 1
    else
      var m := WordLength(s[1..]);
      assert s[..1 + m] == [s[0]] + s[1..][..m];
      1 + m
  }

  /** strings.Fields: the maximal runs of non-space characters, in order. */
  function Fields(s: string): (fields: seq<string>)
    ensures forall i :: 0 <= i < |fields| ==> |fields[i]| > 0 && NoSpace(fields[i])
    decreases |s|
  {
    if |s| == 0 then []
    else if IsSpace(s[0]) then Fields(s[1..])
    else
      var n := WordLength(s);
      [s[..n]] + Fields(s[n..])
  }

  /** `s` with every space character dropped: what Fields must keep. */
  function DropSpaces(s: string): string {
    if |s| == 0 then ""
    else if IsSpace(s[0]) then DropSpaces(s[1..])
    else [s[0]] + DropSpaces(s[1..])
  }

  function Concat(parts: seq<string>): string {
    if |parts| == 0 then "" else parts[0] + Concat(parts[1..])
  }

  lemma {:induction false} DropSpacesOfWord(s: string)
    requires NoSpace(s)
    ensures DropSpaces(s) == s
  {
    if |s| > 0 {
      DropSpacesOfWord(s[1..]);
    }
  }

  lemma {:induction false} DropSpacesAppend(a: string, b: string)
    ensures DropSpaces(a + b) == DropSpaces(a) + DropSpaces(b)
  {
    if |a| == 0 {
      assert a + b == b;
    } else {
      assert (a + b)[1..] == a[1..] + b;
      DropSpacesAppend(a[1..], b);
    }
  }

  /** Fields loses no non-space character and adds none: concatenating the
      fields gives the input with its spaces dropped. */
  lemma {:induction false} FieldsKeepEveryWordCharacter(s: string)
    ensures Concat(Fields(s)) == DropSpaces(s)
    decreases |s|
  {
    if |s| == 0 {
    } else if IsSpace(s[0]) {
      FieldsKeepEveryWordCharacter(s[1..]);
    } else {
      var n := WordLength(s);
      FieldsKeepEveryWordCharacter(s[n..]);
      assert s == s[..n] + s[n..];
      DropSpacesAppend(s[..n], s[n..]);
      DropSpacesOfWord(s[..n]);
      assert Fields(s) == [s[..n]] + Fields(s[n..]);
      assert ([s[..n]] + Fields(s[n..]))[1..] == Fields(s[n..]);
    }
  }

  /** A word followed by a space: the word is the whole first run. */
  lemma WordLengthBeforeSpace(w: string, t: string)
    requires |w| > 0 && NoSpace(w)
    requires |t| > 0 && IsSpace(t[0])
    ensures WordLength(w + t) == |w|
  {
    var s := w + t;
    var n := WordLength(s);
    assert forall k :: 0 <= k < |w| ==> s[k] == w[k];
    assert s[|w|] == t[0];
    assert n <= |w| ==> s[..n] == w[..n];
  }

  lemma FieldsOfWord(w: string)
    requires |w| > 0 && NoSpace(w)
    ensures Fields(w) == [w]
  {
    var n := WordLength(w);
    assert w[..n] == w;
    assert w[n..] == "";
  }

  /** A leading space starts no field. */
  lemma FieldsSkipSpace(t: string)
    requires |t| > 0 && IsSpace(t[0])
    ensures Fields(t) == Fields(t[1..])
  {
  }

  /** A word followed by a space is the first field. */
  lemma FieldsAfterWord(w: string, t: string)
    requires |w| > 0 && NoSpace(w)
    requires |t| > 0 && IsSpace(t[0])
    ensures Fields(w + t) == [w] + Fields(t[1..])
  {
    var s := w + t;
    WordLengthBeforeSpace(w, t);
    assert s[0] == w[0];
    assert s[..|w|] == w;
    assert s[|w|..] == t;
    FieldsSkipSpace(t);
  }

  /** Splitting words joined by single spaces gives the words back. */
  lemma {:induction false} FieldsJoin(words: seq<string>)
    requires forall i :: 0 <= i < |words| ==> |words[i]| > 0 && NoSpace(words[i])
    ensures Fields(Join(words, ' ')) == words
    decreases |words|
  {
    if |words| == 1 {
      FieldsOfWord(words[0]);
    } else if |words| >= 2 {
      var w := words[0];
      var rest := Join(words[1..], ' ');
      assert Join(words, ' ') == w + ([' '] + rest);
      FieldsAfterWord(w, [' '] + rest);
      assert ([' '] + rest)[1..] == rest;
      FieldsJoin(words[1..]);
      assert words == [w] + words[1..];
    }
  }

  /** Collapsing whitespace twice is collapsing it once. */
  lemma CollapseSpacesIdempotent(s: string)
    ensures CollapseSpaces(CollapseSpaces(s)) == CollapseSpaces(s)
  {
    FieldsJoin(Fields(s));
  }

  /** Text whose words are already joined by single spaces is left as it is. */
  lemma CollapseOfJoined(words: seq<string>)
    requires forall i :: 0 <= i < |words| ==> |words[i]| > 0 && NoSpace(words[i])
    ensures CollapseSpaces(Join(words, ' ')) == Join(words, ' ')
  {
    FieldsJoin(words);
  }

  /** Two spaces between two words collapse to one. */
  lemma CollapseDoubleSpace(w1: string, w2: string)
    requires |w1| > 0 && NoSpace(w1) && |w2| > 0 && NoSpace(w2)
    ensures CollapseSpaces(w1 + "  " + w2) == w1 + " " + w2
  {
    var t := "  " + w2;
    assert w1 + "  " + w2 == w1 + t;
    FieldsAfterWord(w1, t);
    assert t[1..] == " " + w2 && t[1..][1..] == w2;
    FieldsSkipSpace(t[1..]);
    FieldsOfWord(w2);
    assert Fields(w1 + t) == [w1, w2];
    assert [w1, w2][1..] == [w2];
    assert Join([w1, w2], ' ') == w1 + [' '] + w2;
  }

  /** The only space character in `t` is ' '. */
  predicate PlainSpacesOnly(t: string) {
    forall i :: 0 <= i < |t| ==> IsSpace(t[i]) ==> t[i] == ' '
  }

  /** A string in which the only space character is ' ', used singly and
      never at either end: the shape strings.Join(strings.Fields(s), " ") has. */
  predicate Collapsed(t: string) {
    && PlainSpacesOnly(t)
    && (|t| > 0 ==> t[0] != ' ' && t[|t| - 1] != ' ')
    && (forall i :: 0 <= i < |t| - 1 ==> !(t[i] == ' ' && t[i + 1] == ' '))
  }

  /** Whitespace collapse: trim, and replace every run of spaces by one ' '. */
  function CollapseSpaces(s: string): (t: string)
    ensures Collapsed(t)
  {
    var fields := Fields(s);
    JoinedWordsCollapsed(fields);
    Join(fields, ' ')
  }

  lemma {:induction false} JoinedWordsCollapsed(words: seq<string>)
    requires forall i :: 0 <= i < |words| ==> |words[i]| > 0 && NoSpace(words[i])
    ensures Collapsed(Join(words, ' '))
    decreases |words|
  {
    if |words| >= 2 {
      JoinedWordsCollapsed(words[1..]);
      var w := words[0];
      var rest := Join(words[1..], ' ');
      var t := Join(words, ' ');
      assert t == w + [' '] + rest;
      assert |rest| > 0 by {
        if |words| == 2 { } else { assert |Join(words[1..], ' ')| >= |words[1]|; }
      }
      assert rest[0] != ' ' by {
        if |words| == 2 { assert rest == words[1]; } else { assert rest[0] == words[1][0]; }
      }
      forall i | 0 <= i < |t|
        ensures IsSpace(t[i]) ==> t[i] == ' '
      {
        if i < |w| { assert t[i] == w[i]; }
        else if i > |w| { assert t[i] == rest[i - |w| - 1]; }
      }
      forall i | 0 <= i < |t| - 1
        ensures !(t[i] == ' ' && t[i + 1] == ' ')
      {
        if i < |w| - 1 { assert t[i] == w[i]; }
        else if i == |w| - 1 { assert t[i] == w[i]; assert !IsSpace(w[i]); }
        else if i == |w| { assert t[i + 1] == rest[0]; }
        else { assert t[i] == rest[i - |w| - 1] && t[i + 1] == rest[i - |w|]; }
      }
      assert t[0] == w[0];
      assert t[|t| - 1] == rest[|rest| - 1];
    } else if |words| == 1 {
      var w := words[0];
      assert Join(words, ' ') == w;
      assert forall i :: 0 <= i < |w| ==> !IsSpace(w[i]);
    }
  }

  // ---------------------------------------------------------------------
  // strconv.Atoi / strconv.Itoa

  predicate IsDigit(c: char) {
    '0' <= c <= '9'
  }

  predicate AllDigits(s: string) {
    forall i :: 0 <= i < |s| ==> IsDigit(s[i])
  }

  function DigitValue(c: char): nat
    requires IsDigit(c)
  {
    c as int - '0' as int
  }

  function DigitChar(d: nat): (c: char)
    requires d < 10
    ensures IsDigit(c) && DigitValue(c) == d
  {
    ('0' as int + d) as char
  }

  /** The value of a numeral, read left to right as the Go parser does. */
  function DigitsValue(ds: string): nat
    requires AllDigits(ds)
    decreases |ds|
  {
    if |ds| == 0 then 0
    else DigitsValue(ds[..|ds| - 1]) * 10 + DigitValue(ds[|ds| - 1])
  }

  /** The decimal numeral of `n`, without leading zeros. */
  function NatToString(n: nat): (s: string)
    ensures |s| > 0 && AllDigits(s)
  {
    if n < 10 then [DigitChar(n)]
    else NatToString(n / 10) + [DigitChar(n % 10)]
  }

  /** The syntax strconv.Atoi accepts in base 10: an optional sign, then one
      or more ASCII digits; the value is not yet range-checked. */
  function ParseDecimal(s: string): Option<int> {
    if |s| > 0 && (s[0] == '+' || s[0] == '-') then
      var ds := s[1..];
      if |ds| > 0 && AllDigits(ds) then
        var magnitude: int := DigitsValue(ds);
        Some(if s[0] == '-' then -magnitude else magnitude)
      else None
    else if |s| > 0 && AllDigits(s) then Some(DigitsValue(s))
    else None
  }

  /** strconv.Atoi: `None` where Go reports an error (bad syntax or a value
      outside the 64-bit range). */
  function Atoi(s: string): (r: Option<int>)
    ensures r.Some? ==> InInt64(r.value)
    ensures r.Some? ==> ParseDecimal(s) == r
  {
    match ParseDecimal(s)
    case None => None
    case Some(v) => if InInt64(v) then Some(v) else None
  }

  /** The integer a caller keeps when it assigns Atoi's result only on
      success, into a variable that starts at 0. */
  function AtoiOrZero(s: string): (n: int)
    ensures Atoi(s).None? ==> n == 0
    ensures Atoi(s).Some? ==> n == Atoi(s).value
  {
    match Atoi(s)
    case None => 0
    case Some(v) => v
  }

  const MaxUint64: int := 0xFFFF_FFFF_FFFF_FFFF

  /** The longest run of ASCII digits at the start of `s`. */
  function LeadingDigits(s: string): (d: string)
    ensures AllDigits(d) && |d| <= |s| && d == s[..|d|]
    ensures |d| < |s| ==> !IsDigit(s[|d|])
    decreases |s|
  {
    if |s| == 0 || !IsDigit(s[0]) then "" else [s[0]] + LeadingDigits(s[1..])
  }

  /** The text after an optional leading sign. */
  function Unsigned(s: string): string {
    if |s| > 0 && (s[0] == '+' || s[0] == '-') then s[1..] else s
  }

  /** strconv.Atoi reports a range error rather than a syntax error: the
      numeral is well formed but outside the 64-bit range, or its leading
      digits already exceed the unsigned 64-bit range, where the parser
      stops without looking at the rest of the text. */
  predicate AtoiRangeError(s: string) {
    || (ParseDecimal(s).Some? && !InInt64(ParseDecimal(s).value))
    || DigitsValue(LeadingDigits(Unsigned(s))) > MaxUint64
  }

  /** The integer strconv.Atoi returns together with its error, for a
      caller that ignores the error: 0 after a syntax error, and the 64-bit
      bound of the numeral's sign after a range error. */
  function AtoiIgnoringError(s: string): (n: int)
    ensures InInt64(n)
    ensures Atoi(s).Some? ==> n == Atoi(s).value
    ensures Atoi(s).None? && !AtoiRangeError(s) ==> n == 0
    ensures Atoi(s).None? && AtoiRangeError(s) ==> n == (if |s| > 0 && s[0] == '-' then MinInt64 else MaxInt64)
  {
    match Atoi(s)
    case Some(v) => v
    case None =>
      if !AtoiRangeError(s) then 0
      else if |s| > 0 && s[0] == '-' then MinInt64 else MaxInt64
  }

  lemma {:induction false} LeadingDigitsOfNumeral(d: string, t: string)
    requires AllDigits(d)
    ensures LeadingDigits(d + t) == d + LeadingDigits(t)
    decreases |d|
  {
    if |d| > 0 {
      assert (d + t)[1..] == d[1..] + t;
      LeadingDigitsOfNumeral(d[1..], t);
    } else {
      assert d + t == t;
    }
  }

  /** A numeral too large for int64 reads as the largest int64, and a
      negative one too small reads as the smallest. */
  lemma AtoiClampsLargeNumerals(n: nat)
    ensures n > MaxInt64 ==> AtoiIgnoringError(NatToString(n)) == MaxInt64
    ensures n >= -MinInt64 ==> AtoiIgnoringError("-" + NatToString(n)) == MinInt64
  {
    DigitsValueOfNatToString(n);
    assert ("-" + NatToString(n))[1..] == NatToString(n);
  }

  /** Text after a numeral whose digits already overflow 64 bits is never
      examined: the field still reads as the largest int64. Junk after a
      numeral that fits makes the field a syntax error, read as 0. */
  lemma AtoiStopsAtOverflow(n: nat, tail: string)
    requires |tail| > 0 && !IsDigit(tail[0])
    ensures n > MaxUint64 ==> AtoiIgnoringError(NatToString(n) + tail) == MaxInt64
    ensures n <= MaxUint64 ==> AtoiIgnoringError(NatToString(n) + tail) == 0
  {
    var s := NatToString(n) + tail;
    DigitsValueOfNatToString(n);
    assert s[0] == NatToString(n)[0];
    assert !AllDigits(s) by {
      assert s[|NatToString(n)|] == tail[0];
    }
    assert ParseDecimal(s).None?;
    LeadingDigitsOfNumeral(NatToString(n), tail);
    assert LeadingDigits(tail) == "";
    assert LeadingDigits(Unsigned(s)) == NatToString(n);
  }

  /** strconv.Itoa. */
  function Itoa(n: int): string {
    if n < 0 then "-" + NatToString(-n) else NatToString(n)
  }

  lemma {:induction false} DigitsValueOfNatToString(n: nat)
    ensures DigitsValue(NatToString(n)) == n
  {
    var s := NatToString(n);
    if n >= 10 {
      DigitsValueOfNatToString(n / 10);
      assert s[..|s| - 1] == NatToString(n / 10);
    }
  }

  /** Atoi reads back what Itoa writes, for every 64-bit integer. */
  lemma AtoiItoa(n: int)
    requires InInt64(n)
    ensures Atoi(Itoa(n)) == Some(n)
  {
    if n < 0 {
      DigitsValueOfNatToString(-n);
      assert Itoa(n)[1..] == NatToString(-n);
    } else {
      DigitsValueOfNatToString(n);
    }
  }

  /** Itoa never writes a '-' after the first character, so the id part of a
      form key built from it survives strings.Split(k, "-")[0]. */
  lemma NatToStringHasNoDash(n: nat)
    ensures '-' !in NatToString(n)
  {
    var s := NatToString(n);
    forall i | 0 <= i < |s|
      ensures s[i] != '-'
    {
      assert IsDigit(s[i]);
    }
  }

  // ---------------------------------------------------------------------
  // fmt.Sprintf("%x", r) for a rune r

  function HexDigit(d: nat): (c: char)
    requires d < 16
  {
    if d < 10 then ('0' as int + d) as char else ('a' as int + d - 10) as char
  }

  predicate IsHexDigit(c: char) {
    ('0' <= c <= '9') || ('a' <= c <= 'f')
  }

  function HexDigitValue(c: char): (d: nat)
    requires IsHexDigit(c)
    ensures d < 16 && HexDigit(d) == c
  {
    if '0' <= c <= '9' then c as int - '0' as int else c as int - 'a' as int + 10
  }

  /** Lower-case hexadecimal, no leading zeros: what "%x" prints for a rune. */
  function Hex(n: nat): (s: string)
    ensures |s| > 0 && forall i :: 0 <= i < |s| ==> IsHexDigit(s[i])
  {
    if n < 16 then [HexDigit(n)] else Hex(n / 16) + [HexDigit(n % 16)]
  }

  function HexValue(s: string): nat
    requires forall i :: 0 <= i < |s| ==> IsHexDigit(s[i])
    decreases |s|
  {
    if |s| == 0 then 0 else HexValue(s[..|s| - 1]) * 16 + HexDigitValue(s[|s| - 1])
  }

  lemma {:induction false} HexValueOfHex(n: nat)
    ensures HexValue(Hex(n)) == n
  {
    var s := Hex(n);
    if n >= 16 {
      HexValueOfHex(n / 16);
      assert s[..|s| - 1] == Hex(n / 16);
      assert HexDigitValue(HexDigit(n % 16)) == n % 16;
    } else {
      assert HexDigitValue(HexDigit(n)) == n;
    }
  }

  /** Distinct code points print as distinct "%x" strings, so a punctuation
      list of hex codes selects characters exactly. */
  lemma HexInjective(a: nat, b: nat)
    requires Hex(a) == Hex(b)
    ensures a == b
  {
    HexValueOfHex(a);
    HexValueOfHex(b);
  }

  function CharHex(c: char): string {
    Hex(c as int)
  }

  // ---------------------------------------------------------------------
  // strings.ToLower (ASCII letters only; see README)

  function LowerChar(c: char): (d: char)
    ensures !('A' <= d <= 'Z')
    ensures !('A' <= c <= 'Z') ==> d == c
  {
    if 'A' <= c <= 'Z' then (c as int - 'A' as int + 'a' as int) as char else c
  }

  function ToLower(s: string): (t: string)
    ensures |t| == |s|
    ensures forall i :: 0 <= i < |s| ==> t[i] == LowerChar(s[i])
  {
    seq(|s|, i requires 0 <= i < |s| => LowerChar(s[i]))
  }
}
