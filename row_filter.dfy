/**
 * The row filter of `main` (app.py:70-94): up to three steps, each run only
 * when its column exists, each keeping the rows its boolean mask selects.
 * The keyword and the bounds come from the sidebar widgets and are inputs.
 */
module RowFilter {
  import opened Wrappers
  import opened Frame
  import opened Subsequence
  import opened PresentColumns

  const SearchColumns: seq<string> := ["商品番号", "SKU", "商品名"]
  const RankColumn: string := "ランキング"
  const SalesColumn: string := "売上個数"

  function Abs(x: int): nat
  {
    if x < 0 then -x else x
  }

  /** The text of the cell under column `c` contains the keyword, case ignored. */
  predicate Hit(columns: seq<string>, row: Row, c: string, keyword: string)
  {
    ContainsIgnoringCase(AsText(Get(columns, row, c)), keyword)
  }

  /** The keyword mask OR-ed over the search columns, as the loop at app.py:80-82 builds it. */
  predicate AnyHit(searchCols: seq<string>, columns: seq<string>, row: Row, keyword: string)
    decreases |searchCols|
  {
    searchCols != [] &&
    (AnyHit(searchCols[..|searchCols| - 1], columns, row, keyword)
     || Hit(columns, row, searchCols[|searchCols| - 1], keyword))
  }

  /** The rank cell is a number within the inclusive range; a blank compares false. */
  predicate InRank(columns: seq<string>, row: Row, lo: int, hi: int)
    ensures InRank(columns, row, lo, hi) ==> lo <= hi && NumberOf(Get(columns, row, RankColumn)).Some?
    ensures RankColumn !in columns ==> !InRank(columns, row, lo, hi)
  {
    match NumberOf(Get(columns, row, RankColumn))
    case Some(v) => lo <= v <= hi
    case None => false
  }

  /** The sales cell is a number whose absolute value reaches the threshold; a blank compares false. */
  predicate MeetsSales(columns: seq<string>, row: Row, minSales: int)
    ensures MeetsSales(columns, row, minSales) ==> NumberOf(Get(columns, row, SalesColumn)).Some?
    ensures minSales <= 0 ==> (MeetsSales(columns, row, minSales) <==> NumberOf(Get(columns, row, SalesColumn)).Some?)
  {
    match NumberOf(Get(columns, row, SalesColumn))
    case Some(v) => Abs(v) >= minSales
    case None => false
  }

  /** One filtering step of app.py:73-94. */
  datatype Step =
    | Keyword(searchCols: seq<string>, keyword: string)
    | RankWithin(lo: int, hi: int)
    | SalesAtLeast(minSales: int)

  predicate Keeps(s: Step, columns: seq<string>, row: Row)
  {
    match s
    case Keyword(searchCols, keyword) => AnyHit(searchCols, columns, row, keyword)
    case RankWithin(lo, hi) => InRank(columns, row, lo, hi)
    case SalesAtLeast(m) => MeetsSales(columns, row, m)
  }

  predicate KeepsAll(steps: seq<Step>, columns: seq<string>, row: Row)
  {
    forall i :: 0 <= i < |steps| ==> Keeps(steps[i], columns, row)
  }

  /** The rows every step keeps, in their original order. */
  function FilterAll(steps: seq<Step>, columns: seq<string>, rows: seq<Row>): seq<Row>
    decreases |rows|
  {
    if rows == [] then []
    else
      var last := rows[|rows| - 1];
      FilterAll(steps, columns, rows[..|rows| - 1]) + (if KeepsAll(steps, columns, last) then [last] else [])
  }

  /** The steps that run: the keyword step only for a non-empty keyword and some search column present. */
  function Steps(columns: seq<string>, keyword: string, rankRange: Option<(int, int)>, minSales: nat): seq<Step>
  {
    var cols := Present(SearchColumns, columns);
    (if keyword != "" && cols != [] then [Keyword(cols, keyword)] else [])
    + (if rankRange.Some? && RankColumn in columns then [RankWithin(rankRange.value.0, rankRange.value.1)] else [])
    + (if SalesColumn in columns then [SalesAtLeast(minSales)] else [])
  }

  /** One step: keep the header and the rows the step keeps. */
  function Apply(s: Step, t: Table): (r: Table)
    ensures r.columns == t.columns
    ensures IsSubseq(r.rows, t.rows)
  {
    FilterAllSubseq([s], t.columns, t.rows);
    Table(t.columns, FilterAll([s], t.columns, t.rows))
  }

  /**
   * The table after the filter of app.py:70-94: each step, when it runs,
   * narrows the result of the previous one.
   */
  function Filtered(t: Table, keyword: string, rankRange: Option<(int, int)>, minSales: nat): (r: Table)
    ensures r.columns == t.columns
    ensures IsSubseq(r.rows, t.rows)
    ensures |r.rows| <= |t.rows|
    ensures forall row :: row in r.rows ==> row in t.rows
    ensures WellFormed(t) ==> WellFormed(r)
  {
    var cols := Present(SearchColumns, t.columns);
    var byKeyword := if keyword != "" && cols != [] then Apply(Keyword(cols, keyword), t) else t;
    var byRank :=
      if rankRange.Some? && RankColumn in byKeyword.columns
      then Apply(RankWithin(rankRange.value.0, rankRange.value.1), byKeyword)
      else byKeyword;
    var result := if SalesColumn in byRank.columns then Apply(SalesAtLeast(minSales), byRank) else byRank;
    SubseqRefl(t.rows);
    SubseqRefl(byKeyword.rows);
    SubseqRefl(byRank.rows);
    SubseqTrans(byRank.rows, byKeyword.rows, t.rows);
    SubseqTrans(result.rows, byRank.rows, t.rows);
    SubseqLength(result.rows, t.rows);
    assert forall row :: row in result.rows ==> row in t.rows by {
      forall row | row in result.rows {
        SubseqMembers(result.rows, t.rows, row);
      }
    }
    result
  }

  /**
   * When a row survives, stated per step in the terms of app.py: a skipped
   * step keeps everything.
   */
  predicate Admits(columns: seq<string>, keyword: string, rankRange: Option<(int, int)>, minSales: nat, row: Row)
    ensures (forall c :: c in SearchColumns ==> c !in columns) && RankColumn !in columns && SalesColumn !in columns
            ==> Admits(columns, keyword, rankRange, minSales, row)
    ensures Admits(columns, keyword, rankRange, minSales, row) && SalesColumn in columns
            ==> NumberOf(Get(columns, row, SalesColumn)).Some?
  {
    PresentNone(SearchColumns, columns);

    && (keyword == "" || Present(SearchColumns, columns) == []
        || exists c :: c in SearchColumns && c in columns && Hit(columns, row, c, keyword))
    && (rankRange.None? || RankColumn !in columns || InRank(columns, row, rankRange.value.0, rankRange.value.1))
    && (SalesColumn !in columns || MeetsSales(columns, row, minSales))
  }

  // ---------------------------------------------------------------------------
  // Masks and mask selection, as pandas evaluates them.

  function ContainsMask(t: Table, c: string, keyword: string): (mask: seq<bool>)
    ensures |mask| == |t.rows|
  {
    seq(|t.rows|, i requires 0 <= i < |t.rows| => Hit(t.columns, t.rows[i], c, keyword))
  }

  function OrMask(a: seq<bool>, b: seq<bool>): (mask: seq<bool>)
    requires |a| == |b|
    ensures |mask| == |a|
  {
    seq(|a|, i requires 0 <= i < |a| => a[i] || b[i])
  }

  /** The mask of a comparison step (app.py:87-90, 94). */
  function StepMask(s: Step, t: Table): (mask: seq<bool>)
    ensures |mask| == |t.rows|
  {
    seq(|t.rows|, i requires 0 <= i < |t.rows| => Keeps(s, t.columns, t.rows[i]))
  }

  /** `rows[mask]`: the rows whose mask entry is true, in order. */
  function Select(rows: seq<Row>, mask: seq<bool>): (r: seq<Row>)
    requires |mask| == |rows|
    ensures |r| <= |rows|
    ensures forall x :: x in r ==> x in rows
    ensures (forall i :: 0 <= i < |mask| ==> mask[i]) ==> r == rows
    ensures (forall i :: 0 <= i < |mask| ==> !mask[i]) ==> r == []
    decreases |rows|
  {
    if rows == [] then []
    else
      var n := |rows| - 1;
      Select(rows[..n], mask[..n]) + (if mask[n] then [rows[n]] else [])
  }

  // ---------------------------------------------------------------------------
  // Lemmas.

  /** The OR over the search columns holds exactly when one of them matches. */
  lemma {:induction false} AnyHitIff(searchCols: seq<string>, columns: seq<string>, row: Row, keyword: string)
    ensures AnyHit(searchCols, columns, row, keyword) <==> exists c :: c in searchCols && Hit(columns, row, c, keyword)
    decreases |searchCols|
  {
    if searchCols != [] {
      var front, last := searchCols[..|searchCols| - 1], searchCols[|searchCols| - 1];
      AnyHitIff(front, columns, row, keyword);
      assert searchCols == front + [last];
      if AnyHit(searchCols, columns, row, keyword) {
        if Hit(columns, row, last, keyword) {
          assert last in searchCols;
        } else {
          var c :| c in front && Hit(columns, row, c, keyword);
          assert c in searchCols;
        }
      }
      if exists c :: c in searchCols && Hit(columns, row, c, keyword) {
        var c :| c in searchCols && Hit(columns, row, c, keyword);
        assert c in front || c == last;
      }
    }
  }

  lemma KeepsAllConcat(a: seq<Step>, b: seq<Step>, columns: seq<string>, row: Row)
    ensures KeepsAll(a + b, columns, row) <==> KeepsAll(a, columns, row) && KeepsAll(b, columns, row)
  {
    if KeepsAll(a, columns, row) && KeepsAll(b, columns, row) {
      forall i | 0 <= i < |a + b| ensures Keeps((a + b)[i], columns, row) {
        if i >= |a| {
          assert (a + b)[i] == b[i - |a|];
        }
      }
    }
    if KeepsAll(a + b, columns, row) {
      forall i | 0 <= i < |a| ensures Keeps(a[i], columns, row) {
        assert (a + b)[i] == a[i];
      }
      forall i | 0 <= i < |b| ensures Keeps(b[i], columns, row) {
        assert (a + b)[|a| + i] == b[i];
      }
    }
  }

  /** A list of one step keeps what that step keeps. */
  lemma KeepsOne(s: Step, columns: seq<string>)
    ensures forall row :: KeepsAll([s], columns, row) == Keeps(s, columns, row)
  {
    forall row ensures KeepsAll([s], columns, row) == Keeps(s, columns, row) {
      assert [s][0] == s;
    }
  }

  /** Selecting by a mask that agrees with the steps is filtering by the steps. */
  lemma {:induction false} SelectByMask(steps: seq<Step>, columns: seq<string>, rows: seq<Row>, mask: seq<bool>)
    requires |mask| == |rows|
    requires forall i :: 0 <= i < |rows| ==> mask[i] == KeepsAll(steps, columns, rows[i])
    ensures Select(rows, mask) == FilterAll(steps, columns, rows)
    decreases |rows|
  {
    if rows != [] {
      var n := |rows| - 1;
      SelectByMask(steps, columns, rows[..n], mask[..n]);
    }
  }

  /** Filtering by `a` and then by `b` is filtering once by both. */
  lemma {:induction false} FilterAllFuse(a: seq<Step>, b: seq<Step>, columns: seq<string>, rows: seq<Row>)
    ensures FilterAll(b, columns, FilterAll(a, columns, rows)) == FilterAll(a + b, columns, rows)
    decreases |rows|
  {
    if rows != [] {
      var front := rows[..|rows| - 1];
      var last := rows[|rows| - 1];
      FilterAllFuse(a, b, columns, front);
      KeepsAllConcat(a, b, columns, last);
      var f := FilterAll(a, columns, front);
      if KeepsAll(a, columns, last) {
        assert FilterAll(a, columns, rows) == f + [last];
        assert (f + [last])[..|f|] == f;
        assert FilterAll(b, columns, f + [last])
               == FilterAll(b, columns, f) + (if KeepsAll(b, columns, last) then [last] else []);
      } else {
        assert FilterAll(a, columns, rows) == f;
      }
    }
  }

  /** With no step, every row stays. */
  lemma {:induction false} FilterNoSteps(columns: seq<string>, rows: seq<Row>)
    ensures FilterAll([], columns, rows) == rows
    decreases |rows|
  {
    if rows != [] {
      FilterNoSteps(columns, rows[..|rows| - 1]);
      assert rows == rows[..|rows| - 1] + [rows[|rows| - 1]];
    }
  }

  /** When the steps keep every row, filtering changes nothing. */
  lemma {:induction false} FilterKeepsEveryRow(steps: seq<Step>, columns: seq<string>, rows: seq<Row>)
    requires forall i :: 0 <= i < |rows| ==> KeepsAll(steps, columns, rows[i])
    ensures FilterAll(steps, columns, rows) == rows
    decreases |rows|
  {
    if rows != [] {
      FilterKeepsEveryRow(steps, columns, rows[..|rows| - 1]);
      assert rows == rows[..|rows| - 1] + [rows[|rows| - 1]];
    }
  }

  /**
   * The empty keyword matches every row, so the `if keyword` guard of
   * app.py:73 only skips work: without it the step would keep every row.
   */
  lemma EmptyKeywordKeepsAll(cols: seq<string>, t: Table)
    requires cols != []
    ensures Apply(Keyword(cols, ""), t) == t
  {
    var s := Keyword(cols, "");
    KeepsOne(s, t.columns);
    forall i | 0 <= i < |t.rows| ensures KeepsAll([s], t.columns, t.rows[i]) {
      AnyHitIff(cols, t.columns, t.rows[i], "");
      assert Hit(t.columns, t.rows[i], cols[0], "");
    }
    FilterKeepsEveryRow([s], t.columns, t.rows);
  }

  /** Filtering keeps a subsequence: rows are removed, never added, altered or reordered. */
  lemma {:induction false} FilterAllSubseq(steps: seq<Step>, columns: seq<string>, rows: seq<Row>)
    ensures IsSubseq(FilterAll(steps, columns, rows), rows)
    decreases |rows|
  {
    if rows != [] {
      var front := rows[..|rows| - 1];
      var last := rows[|rows| - 1];
      FilterAllSubseq(steps, columns, front);
      assert rows == front + [last];
      if KeepsAll(steps, columns, last) {
        SubseqSnoc(FilterAll(steps, columns, front), front, last);
      } else {
        assert FilterAll(steps, columns, rows) == FilterAll(steps, columns, front);
        SubseqExtend(FilterAll(steps, columns, front), front, last);
      }
    }
  }

  /** Each row occurs as often as in the input when the steps keep it, and not at all otherwise. */
  lemma {:induction false} FilterAllCount(steps: seq<Step>, columns: seq<string>, rows: seq<Row>, r: Row)
    ensures multiset(FilterAll(steps, columns, rows))[r] == if KeepsAll(steps, columns, r) then multiset(rows)[r] else 0
    decreases |rows|
  {
    if rows != [] {
      var front := rows[..|rows| - 1];
      var last := rows[|rows| - 1];
      FilterAllCount(steps, columns, front, r);
      assert rows == front + [last];
    }
  }

  /** The steps that run keep a row exactly when Admits says so. */
  lemma StepsAdmit(columns: seq<string>, keyword: string, rankRange: Option<(int, int)>, minSales: nat, row: Row)
    ensures KeepsAll(Steps(columns, keyword, rankRange, minSales), columns, row) <==> Admits(columns, keyword, rankRange, minSales, row)
  {
    var cols := Present(SearchColumns, columns);
    var ks := if keyword != "" && cols != [] then [Keyword(cols, keyword)] else [];
    var rs := if rankRange.Some? && RankColumn in columns then [RankWithin(rankRange.value.0, rankRange.value.1)] else [];
    var ss := if SalesColumn in columns then [SalesAtLeast(minSales)] else [];
    assert Steps(columns, keyword, rankRange, minSales) == ks + rs + ss;
    KeepsAllConcat(ks + rs, ss, columns, row);
    KeepsAllConcat(ks, rs, columns, row);
    if ks != [] { KeepsOne(ks[0], columns); }
    if rs != [] { KeepsOne(rs[0], columns); }
    if ss != [] { KeepsOne(ss[0], columns); }
    AnyHitIff(cols, columns, row, keyword);
    forall c ensures c in cols <==> c in SearchColumns && c in columns {
      PresentMembers(SearchColumns, columns, c);
    }
  }

  /**
   * The whole filter: the header is unchanged, the rows are a subsequence of
   * the input, and a row is kept, as often as it occurs, exactly when it
   * passes every step that runs.
   */
  lemma FilteredRows(t: Table, keyword: string, rankRange: Option<(int, int)>, minSales: nat)
    ensures Filtered(t, keyword, rankRange, minSales).columns == t.columns
    ensures IsSubseq(Filtered(t, keyword, rankRange, minSales).rows, t.rows)
    ensures forall r :: multiset(Filtered(t, keyword, rankRange, minSales).rows)[r]
                        == if Admits(t.columns, keyword, rankRange, minSales, r) then multiset(t.rows)[r] else 0
  {
    var steps := Steps(t.columns, keyword, rankRange, minSales);
    FilteredIsOneFilter(t, keyword, rankRange, minSales);
    FilterAllSubseq(steps, t.columns, t.rows);
    forall r ensures multiset(Filtered(t, keyword, rankRange, minSales).rows)[r]
                     == if Admits(t.columns, keyword, rankRange, minSales, r) then multiset(t.rows)[r] else 0
    {
      FilterAllCount(steps, t.columns, t.rows, r);
      StepsAdmit(t.columns, keyword, rankRange, minSales, r);
    }
  }

  /** A row is kept exactly when it is a row of the input that passes every step that runs. */
  lemma KeptRow(t: Table, keyword: string, rankRange: Option<(int, int)>, minSales: nat, row: Row)
    ensures row in Filtered(t, keyword, rankRange, minSales).rows
            <==> row in t.rows && Admits(t.columns, keyword, rankRange, minSales, row)
  {
    FilteredRows(t, keyword, rankRange, minSales);
    assert row in Filtered(t, keyword, rankRange, minSales).rows
           <==> multiset(Filtered(t, keyword, rankRange, minSales).rows)[row] > 0;
    assert row in t.rows <==> multiset(t.rows)[row] > 0;
  }

  /** Both bounds of the rank range are inclusive (app.py:86-90). */
  lemma RankRangeInclusive(t: Table, keyword: string, lo: int, hi: int, minSales: nat, row: Row)
    requires RankColumn in t.columns
    requires row in Filtered(t, keyword, Some((lo, hi)), minSales).rows
    ensures NumberOf(Get(t.columns, row, RankColumn)).Some?
    ensures lo <= NumberOf(Get(t.columns, row, RankColumn)).value <= hi
  {
    KeptRow(t, keyword, Some((lo, hi)), minSales, row);
  }

  /** A kept row's sales figure reaches the threshold in absolute value (app.py:93-94). */
  lemma SalesThreshold(t: Table, keyword: string, rankRange: Option<(int, int)>, minSales: nat, row: Row)
    requires SalesColumn in t.columns
    requires row in Filtered(t, keyword, rankRange, minSales).rows
    ensures NumberOf(Get(t.columns, row, SalesColumn)).Some?
    ensures Abs(NumberOf(Get(t.columns, row, SalesColumn)).value) >= minSales
  {
    KeptRow(t, keyword, rankRange, minSales, row);
  }

  /** A blank sales cell drops the row even at threshold 0, since NaN compares false. */
  lemma BlankSalesDropped(t: Table, keyword: string, rankRange: Option<(int, int)>, row: Row)
    requires SalesColumn in t.columns
    requires Get(t.columns, row, SalesColumn) == Missing
    ensures row !in Filtered(t, keyword, rankRange, 0).rows
  {
    if row in Filtered(t, keyword, rankRange, 0).rows {
      KeptRow(t, keyword, rankRange, 0, row);
    }
  }

  /**
   * A non-empty keyword with some search column present keeps, of the rows
   * the other steps keep, exactly those in which the keyword occurs, case
   * ignored, in one of those columns (app.py:73-83).
   */
  lemma KeywordMatch(t: Table, keyword: string, rankRange: Option<(int, int)>, minSales: nat, row: Row)
    requires keyword != ""
    requires exists c :: c in SearchColumns && c in t.columns
    ensures row in Filtered(t, keyword, rankRange, minSales).rows
            <==> row in Filtered(t, "", rankRange, minSales).rows
                 && exists c :: c in SearchColumns && c in t.columns && Hit(t.columns, row, c, keyword)
  {
    var c :| c in SearchColumns && c in t.columns;
    PresentMembers(SearchColumns, t.columns, c);
    KeptRow(t, keyword, rankRange, minSales, row);
    KeptRow(t, "", rankRange, minSales, row);
  }

  /** The keyword step is skipped for an empty keyword or when no search column exists (app.py:73, 79). */
  lemma {:induction false} KeywordSkipped(t: Table, keyword: string, rankRange: Option<(int, int)>, minSales: nat)
    requires keyword == "" || forall c :: c in SearchColumns ==> c !in t.columns
    ensures Filtered(t, keyword, rankRange, minSales) == Filtered(t, "", rankRange, minSales)
  {
    if keyword != "" {
      PresentNone(SearchColumns, t.columns);
    }
  }

  /** A table with none of the filtered columns passes through unchanged. */
  lemma NothingToFilter(t: Table, keyword: string, rankRange: Option<(int, int)>, minSales: nat)
    requires forall c :: c in SearchColumns ==> c !in t.columns
    requires RankColumn !in t.columns && SalesColumn !in t.columns
    ensures Filtered(t, keyword, rankRange, minSales) == t
  {
    PresentNone(SearchColumns, t.columns);
  }

  /** Selecting by a step's mask is applying the step. */
  lemma SelectIsApply(s: Step, t: Table, mask: seq<bool>)
    requires |mask| == |t.rows|
    requires forall i :: 0 <= i < |mask| ==> mask[i] == Keeps(s, t.columns, t.rows[i])
    ensures Table(t.columns, Select(t.rows, mask)) == Apply(s, t)
  {
    KeepsOne(s, t.columns);
    SelectByMask([s], t.columns, t.rows, mask);
  }

  /** Applying `s` after filtering by `done` is filtering by `done` and then `s`. */
  lemma ApplyAfter(done: seq<Step>, s: Step, t: Table)
    ensures Apply(s, Table(t.columns, FilterAll(done, t.columns, t.rows)))
            == Table(t.columns, FilterAll(done + [s], t.columns, t.rows))
  {
    FilterAllFuse(done, [s], t.columns, t.rows);
  }

  /** The three successive steps filter once, by all the steps that run. */
  lemma FilteredIsOneFilter(t: Table, keyword: string, rankRange: Option<(int, int)>, minSales: nat)
    ensures Filtered(t, keyword, rankRange, minSales)
            == Table(t.columns, FilterAll(Steps(t.columns, keyword, rankRange, minSales), t.columns, t.rows))
  {
    var cols := Present(SearchColumns, t.columns);
    var ks := if keyword != "" && cols != [] then [Keyword(cols, keyword)] else [];
    var rs := if rankRange.Some? && RankColumn in t.columns then [RankWithin(rankRange.value.0, rankRange.value.1)] else [];
    var ss := if SalesColumn in t.columns then [SalesAtLeast(minSales)] else [];
    FilterNoSteps(t.columns, t.rows);
    var t1 := Table(t.columns, FilterAll(ks, t.columns, t.rows));
    if ks != [] {
      ApplyAfter([], ks[0], t);
    }
    var t2 := Table(t.columns, FilterAll(ks + rs, t.columns, t.rows));
    if rs != [] {
      ApplyAfter(ks, rs[0], t);
    } else {
      assert ks + rs == ks;
    }
    if ss != [] {
      ApplyAfter(ks + rs, ss[0], t);
    } else {
      assert ks + rs + ss == ks + rs;
    }
    assert Steps(t.columns, keyword, rankRange, minSales) == ks + rs + ss;
  }

  // ---------------------------------------------------------------------------
  // The filter as `main` runs it.

  /** app.py:80-82: start from False and OR in the match mask of each search column. */
  method KeywordMask(t: Table, cols: seq<string>, keyword: string) returns (cond: seq<bool>)
    ensures |cond| == |t.rows|
    ensures forall i :: 0 <= i < |t.rows| ==> cond[i] == AnyHit(cols, t.columns, t.rows[i], keyword)
  {
    cond := seq(|t.rows|, _ => false);
    for k := 0 to |cols|
      invariant |cond| == |t.rows|
      invariant forall i :: 0 <= i < |cond| ==> cond[i] == AnyHit(cols[..k], t.columns, t.rows[i], keyword)
    {
      assert cols[..k + 1][..k] == cols[..k];
      cond := OrMask(cond, ContainsMask(t, cols[k], keyword));
    }
    assert cols[..|cols|] == cols;
  }

  /**
   * app.py:70-94: copy the table, then narrow it step by step, each step
   * only when its column exists.
   */
  method ApplyFilters(t: Table, keyword: string, rankRange: Option<(int, int)>, minSales: nat)
    returns (filtered: Table)
    ensures filtered == Filtered(t, keyword, rankRange, minSales)
  {
    filtered := t;

    if keyword != "" {
      var cols := PickPresent(SearchColumns, filtered.columns);
      if cols != [] {
        var cond := KeywordMask(filtered, cols, keyword);
        SelectIsApply(Keyword(cols, keyword), filtered, cond);
        filtered := Table(filtered.columns, Select(filtered.rows, cond));
      }
    }

    if rankRange.Some? && RankColumn in filtered.columns {
      var step := RankWithin(rankRange.value.0, rankRange.value.1);
      var mask := StepMask(step, filtered);
      SelectIsApply(step, filtered, mask);
      filtered := Table(filtered.columns, Select(filtered.rows, mask));
    }

    if SalesColumn in filtered.columns {
      var step := SalesAtLeast(minSales);
      var mask := StepMask(step, filtered);
      SelectIsApply(step, filtered, mask);
      filtered := Table(filtered.columns, Select(filtered.rows, mask));
    }
  }
}
