/**
 * The table shown (app.py:99-109): the main columns the table has, in a
 * fixed order, then the image column when there is one.
 */
module Display {
  import opened Wrappers
  import opened Frame
  import opened Subsequence
  import opened PresentColumns
  import opened RowFilter

  const DisplayOrder: seq<string> := ["ランキング", "商品番号", "SKU", "商品名", "属性1名", "属性2名", "現在庫", "売上個数"]
  const ImageColumn: string := "画像URL"

  /** The columns shown for a table with the given header. */
  function DisplayColumns(columns: seq<string>): (shown: seq<string>)
    ensures forall x :: x in shown ==> x in columns
    ensures ImageColumn in columns ==> shown != [] && shown[|shown| - 1] == ImageColumn
    ensures ImageColumn !in columns ==> ImageColumn !in shown
  {
    PickAppendMembers(DisplayOrder, ImageColumn, columns);
    PickAppend(DisplayOrder, ImageColumn, columns)
  }

  /** `df[cols]`: the given columns of every row, in the given order. */
  function Project(t: Table, cols: seq<string>): (r: Table)
    ensures r.columns == cols && |r.rows| == |t.rows|
    ensures forall i :: 0 <= i < |t.rows| ==> |r.rows[i]| == |cols|
    ensures WellFormed(r)
  {
    Table(cols, seq(|t.rows|, i requires 0 <= i < |t.rows| =>
                     seq(|cols|, j requires 0 <= j < |cols| => Get(t.columns, t.rows[i], cols[j]))))
  }

  /** The fixed list names eight different columns, none of them the image column. */
  lemma DisplayOrderDistinct()
    ensures NoDuplicates(DisplayOrder + [ImageColumn])
  {
  }

  /** The list followed by one more name: the list has no repeats and lacks that name. */
  lemma SplitDistinct(order: seq<string>, extra: string)
    requires NoDuplicates(order + [extra])
    ensures extra !in order && NoDuplicates(order)
  {
    var all := order + [extra];
    forall i | 0 <= i < |order| ensures order[i] != extra {
      assert all[i] == order[i] && all[|order|] == extra;
    }
    forall i, j | 0 <= i < j < |order| ensures order[i] != order[j] {
      assert all[i] == order[i] && all[j] == order[j];
    }
  }

  /** The names shown after picking from `order` and appending `extra` when present. */
  function PickAppend(order: seq<string>, extra: string, columns: seq<string>): seq<string>
  {
    Present(order, columns) + (if extra in columns then [extra] else [])
  }

  lemma PickAppendMembers(order: seq<string>, extra: string, columns: seq<string>)
    ensures forall x :: x in PickAppend(order, extra, columns) <==> x in columns && x in order + [extra]
  {
    forall x ensures x in Present(order, columns) <==> x in order && x in columns {
      PresentMembers(order, columns, x);
    }
  }

  lemma PickAppendNoDuplicates(order: seq<string>, extra: string, columns: seq<string>)
    requires NoDuplicates(order + [extra])
    ensures NoDuplicates(PickAppend(order, extra, columns))
  {
    SplitDistinct(order, extra);
    PresentNoDuplicates(order, columns);
    PresentMembers(order, columns, extra);
  }

  lemma PickAppendOrder(order: seq<string>, extra: string, columns: seq<string>)
    requires extra !in order
    ensures IsSubseq(PickAppend(order, extra, columns), order + [extra])
    ensures extra in columns <==> (PickAppend(order, extra, columns) != []
                                   && PickAppend(order, extra, columns)[|PickAppend(order, extra, columns)| - 1] == extra)
  {
    var p := Present(order, columns);
    PresentKeepsOrder(order, columns);
    if extra in columns {
      SubseqSnoc(p, order, extra);
    } else {
      SubseqExtend(p, order, extra);
      assert PickAppend(order, extra, columns) == p;
      if p != [] {
        PresentMembers(order, columns, p[|p| - 1]);
      }
    }
  }

  /**
   * The shown columns are those of the fixed list and the image column that
   * the table has, without repeats, in list order, the image column last
   * exactly when the table has it.
   */
  lemma DisplayColumnsSpec(columns: seq<string>)
    ensures forall x :: x in DisplayColumns(columns) <==> x in columns && x in DisplayOrder + [ImageColumn]
    ensures NoDuplicates(DisplayColumns(columns))
    ensures IsSubseq(DisplayColumns(columns), DisplayOrder + [ImageColumn])
    ensures ImageColumn in columns <==> (DisplayColumns(columns) != [] && DisplayColumns(columns)[|DisplayColumns(columns)| - 1] == ImageColumn)
  {
    DisplayOrderDistinct();
    SplitDistinct(DisplayOrder, ImageColumn);
    PickAppendMembers(DisplayOrder, ImageColumn, columns);
    PickAppendNoDuplicates(DisplayOrder, ImageColumn, columns);
    PickAppendOrder(DisplayOrder, ImageColumn, columns);
  }

  /** Every shown cell is the cell of the same row under the same column name. */
  lemma ProjectKeepsCells(t: Table, cols: seq<string>, i: int, c: string)
    requires 0 <= i < |t.rows|
    requires c in cols
    ensures Get(cols, Project(t, cols).rows[i], c) == Get(t.columns, t.rows[i], c)
  {
  }

  /** app.py:100-107. */
  method ChooseDisplayColumns(columns: seq<string>) returns (shown: seq<string>)
    ensures shown == DisplayColumns(columns)
  {
    shown := PickPresent(DisplayOrder, columns);
    if ImageColumn in columns {
      shown := shown + [ImageColumn];
    }
  }

  /**
   * The table `main` hands to `st.dataframe` (app.py:70-109): the filtered
   * rows, restricted to the display columns.
   */
  method ShowTable(t: Table, keyword: string, rankRange: Option<(int, int)>, minSales: nat)
    returns (shown: Table)
    ensures shown == Project(Filtered(t, keyword, rankRange, minSales), DisplayColumns(t.columns))
  {
    var filtered := ApplyFilters(t, keyword, rankRange, minSales);
    var cols := ChooseDisplayColumns(filtered.columns);
    shown := Project(filtered, cols);
  }
}
