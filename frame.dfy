/**
 * The data frame the viewer works on, after the first sheet of the workbook
 * has been read: a header of column names and rows of cells, one cell per
 * column in header order. Renaming a column changes the header only; a
 * column name may occur twice, and a lookup by name then reads the first.
 */
module Frame {
  import opened Wrappers

  /** A cell as read from the sheet: text, a whole number, or a blank (NaN). */
  datatype Cell = Text(text: string) | Num(number: int) | Missing

  /** One cell per column, in the order of the header. */
  type Row = seq<Cell>

  datatype Table = Table(columns: seq<string>, rows: seq<Row>)

  /** Every row has exactly one cell per column, as in a data frame. */
  ghost predicate WellFormed(t: Table)
  {
    forall row :: row in t.rows ==> |row| == |t.columns|
  }

  /** Position of the first column called `name`, or |columns| when there is none. */
  function IndexOf(columns: seq<string>, name: string): (i: nat)
    ensures i <= |columns|
    ensures i < |columns| <==> name in columns
    ensures i < |columns| ==> columns[i] == name
    ensures forall j :: 0 <= j < i ==> columns[j] != name
  {
    if columns == [] then 0
    else if columns[0] == name then 0
    else 1 + IndexOf(columns[1..], name)
  }

  /** The cell of `row` under the column `name`; a blank when there is no such cell. */
  function Get(columns: seq<string>, row: Row, name: string): (c: Cell)
    ensures name !in columns ==> c == Missing
    ensures name in columns && |row| == |columns| ==> c in row && c == row[IndexOf(columns, name)]
  {
    var i := IndexOf(columns, name);
    if i < |columns| && i < |row| then assert row[i] in row; row[i] else Missing
  }

  /** The number in a cell; text and blanks have none and fail every comparison. */
  function NumberOf(c: Cell): (r: Option<int>)
    ensures r.Some? <==> c.Num?
    ensures r.Some? ==> r.value == c.number
  {
    match c
    case Num(n) => Some(n)
    case _ => None
  }

  function DigitChar(d: nat): char
    requires d < 10
  {
    ('0' as int + d) as char
  }

  function Digits(n: nat): (s: string)
    ensures |s| >= 1
    ensures forall i :: 0 <= i < |s| ==> '0' <= s[i] <= '9'
    decreases n
  {
    if n < 10 then [DigitChar(n)] else Digits(n / 10) + [DigitChar(n % 10)]
  }

  /** The number a string of decimal digits denotes, read left to right. */
  function Val(s: string): nat
    requires forall i :: 0 <= i < |s| ==> '0' <= s[i] <= '9'
  {
    if s == [] then 0 else Val(s[..|s| - 1]) * 10 + (s[|s| - 1] as int - '0' as int)
  }

  /** Reading back the digits of `n` gives `n`, and only zero starts with '0'. */
  lemma {:induction false} DigitsRoundTrip(n: nat)
    ensures Val(Digits(n)) == n
    ensures Digits(n)[0] == '0' ==> n == 0
    decreases n
  {
    if n >= 10 {
      var d := Digits(n / 10);
      DigitsRoundTrip(n / 10);
      assert (d + [DigitChar(n % 10)])[..|d|] == d;
    }
  }

  /** The decimal text of a whole number, with a leading '-' when it is negative. */
  function Decimal(n: int): string
  {
    if n < 0 then "-" + Digits(-n) else Digits(n)
  }

  /** The text of a cell as `astype(str)` gives it: a blank reads "nan". */
  function AsText(c: Cell): (s: string)
    ensures c.Text? ==> s == c.text
    ensures c.Missing? ==> s == "nan"
    ensures c.Num? ==> s != [] && (s[0] == '-' <==> c.number < 0)
    ensures c.Num? ==> forall i :: (if c.number < 0 then 1 else 0) <= i < |s| ==> '0' <= s[i] <= '9'
  {
    match c
    case Text(s) => s
    case Num(n) => Decimal(n)
    case Missing => "nan"
  }

  /**
   * The text of a number reads back as that number: after the optional '-',
   * the digits denote its magnitude, and they start with '0' only for zero.
   */
  lemma AsTextReadsBack(n: int)
    ensures var s, k := AsText(Num(n)), if n < 0 then 1 else 0;
      && k < |s|
      && Val(s[k..]) == (if n < 0 then -n else n)
      && (s[k] == '0' ==> n == 0)
  {
    var m := if n < 0 then -n else n;
    DigitsRoundTrip(m);
    assert n < 0 ==> Decimal(n)[1..] == Digits(m);
  }

  /** Lower case for the letters A to Z; every other character is kept. */
  function Lower(ch: char): char
  {
    if 'A' <= ch <= 'Z' then (ch as int + 32) as char else ch
  }

  function Fold(s: string): (r: string)
    ensures |r| == |s|
    ensures forall i :: 0 <= i < |s| ==> r[i] == Lower(s[i])
  {
    seq(|s|, i requires 0 <= i < |s| => Lower(s[i]))
  }

  predicate OccursAt(text: string, word: string, i: int)
  {
    0 <= i && i + |word| <= |text| && text[i..i + |word|] == word
  }

  /** `keyword` occurs in `text` when letter case is ignored. */
  predicate ContainsIgnoringCase(text: string, keyword: string)
    ensures keyword == "" ==> ContainsIgnoringCase(text, keyword)
    ensures ContainsIgnoringCase(text, keyword) ==> |keyword| <= |text|
  {
    var t, k := Fold(text), Fold(keyword);
    assert keyword == "" ==> OccursAt(t, k, 0);
    exists i :: 0 <= i <= |t| - |k| && OccursAt(t, k, i)
  }

  /** Folding is idempotent, so the keyword's own case never matters. */
  lemma {:induction false} ContainsIgnoresKeywordCase(text: string, keyword: string)
    ensures ContainsIgnoringCase(text, Fold(keyword)) == ContainsIgnoringCase(text, keyword)
    ensures ContainsIgnoringCase(Fold(text), keyword) == ContainsIgnoringCase(text, keyword)
  {
    assert Fold(Fold(keyword)) == Fold(keyword);
    assert Fold(Fold(text)) == Fold(text);
  }
}
