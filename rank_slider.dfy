/**
 * The rank slider of the sidebar (app.py:51-60): its bounds are the least
 * and the greatest rank in the table, and its initial selection covers at
 * most fifty ranks from the top. The range the user then picks is an input
 * of the row filter.
 */
module RankSlider {
  import opened Wrappers
  import opened Frame
  import opened RowFilter

  /** The numbers in the rank column, in row order; blanks are skipped, as pandas' min and max skip NaN. */
  function RankNumbers(columns: seq<string>, rows: seq<Row>): (ns: seq<int>)
    ensures |ns| <= |rows|
    ensures RankColumn !in columns ==> ns == []
    decreases |rows|
  {
    if rows == [] then []
    else
      var last := rows[|rows| - 1];
      RankNumbers(columns, rows[..|rows| - 1])
      + (match NumberOf(Get(columns, last, RankColumn)) case Some(v) => [v] case None => [])
  }

  function MinOf(xs: seq<int>): (m: int)
    requires xs != []
    ensures m in xs
    ensures forall x :: x in xs ==> m <= x
  {
    if |xs| == 1 then xs[0]
    else
      var m := MinOf(xs[..|xs| - 1]);
      assert forall x :: x in xs ==> x in xs[..|xs| - 1] || x == xs[|xs| - 1];
      if xs[|xs| - 1] < m then xs[|xs| - 1] else m
  }

  function MaxOf(xs: seq<int>): (m: int)
    requires xs != []
    ensures m in xs
    ensures forall x :: x in xs ==> x <= m
  {
    if |xs| == 1 then xs[0]
    else
      var m := MaxOf(xs[..|xs| - 1]);
      assert forall x :: x in xs ==> x in xs[..|xs| - 1] || x == xs[|xs| - 1];
      if xs[|xs| - 1] > m then xs[|xs| - 1] else m
  }

  /**
   * The initial selection `(min_rank, min(min_rank + 49, max_rank))`: it
   * starts at the least rank and ends at the greatest rank or 49 ranks
   * further, whichever comes first.
   */
  function DefaultRange(minRank: int, maxRank: int): (r: (int, int))
    ensures r.0 == minRank
    ensures r.1 <= minRank + 49 && r.1 <= maxRank
    ensures r.1 == minRank + 49 || r.1 == maxRank
  {
    (minRank, if minRank + 49 < maxRank then minRank + 49 else maxRank)
  }

  /** The slider as set up: none without a rank column; an error when the column holds no number. */
  datatype Setup =
    | NoRankColumn
    | NoRankNumber
    | Slider(minRank: int, maxRank: int, initial: (int, int))

  /**
   * app.py:51-60. `int(df[...].min())` fails on a column with no number;
   * that failure is NoRankNumber.
   */
  function SetUpSlider(t: Table): (s: Setup)
    ensures s.NoRankColumn? <==> RankColumn !in t.columns
    ensures s.NoRankNumber? <==> RankColumn in t.columns && RankNumbers(t.columns, t.rows) == []
    ensures s.Slider? ==>
      && s.minRank in RankNumbers(t.columns, t.rows)
      && s.maxRank in RankNumbers(t.columns, t.rows)
      && (forall v :: v in RankNumbers(t.columns, t.rows) ==> s.minRank <= v <= s.maxRank)
      && s.minRank <= s.initial.0 <= s.initial.1 <= s.maxRank
      && s.initial.1 - s.initial.0 <= 49
    ensures s.Slider? ==> s.initial == DefaultRange(s.minRank, s.maxRank)
  {
    if RankColumn !in t.columns then NoRankColumn
    else
      var ns := RankNumbers(t.columns, t.rows);
      if ns == [] then NoRankNumber
      else
        var lo, hi := MinOf(ns), MaxOf(ns);
        Slider(lo, hi, DefaultRange(lo, hi))
  }

  /** A rank is among RankNumbers exactly when some row has it in its rank cell. */
  lemma {:induction false} RankNumbersOfRows(columns: seq<string>, rows: seq<Row>, v: int)
    ensures v in RankNumbers(columns, rows) <==> exists r :: r in rows && NumberOf(Get(columns, r, RankColumn)) == Some(v)
    decreases |rows|
  {
    if rows != [] {
      var front := rows[..|rows| - 1];
      RankNumbersOfRows(columns, front, v);
      assert rows == front + [rows[|rows| - 1]];
    }
  }

  /**
   * With the initial selection, the rank filter keeps exactly the rows whose
   * rank lies within the first fifty ranks counted from the least one.
   */
  lemma InitialSelectionKeeps(t: Table, row: Row)
    requires SetUpSlider(t).Slider?
    requires row in t.rows
    ensures var s := SetUpSlider(t);
            InRank(t.columns, row, s.initial.0, s.initial.1)
            <==> NumberOf(Get(t.columns, row, RankColumn)).Some?
                 && NumberOf(Get(t.columns, row, RankColumn)).value <= s.minRank + 49
  {
    var s := SetUpSlider(t);
    match NumberOf(Get(t.columns, row, RankColumn))
    case Some(v) =>
      RankNumbersOfRows(t.columns, t.rows, v);
    case None =>
  }
}
