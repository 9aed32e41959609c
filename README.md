# Inventory-movement viewer: table logic

This project models, in Dafny, the table logic of the inventory-movement
viewer `app.py` (the Streamlit page 在庫変動データビューア). It proves
properties of that logic. The page does five things with the data:

1. **Choose the workbook** (`load_data`). Among the files named
   `在庫変動データ*.xlsm`, it takes the last name in sorted order. It fails
   when no file matches.
2. **Rename columns** (`load_data`). `商品番号.1` becomes `SKU` and
   `Unnamed: 9` becomes `画像URL`, but only where those columns exist.
3. **Set up the rank slider**. Its bounds are the least and the greatest
   rank. Its initial selection is `(min_rank, min(min_rank + 49, max_rank))`.
4. **Filter rows** (`main`). Up to three steps run one after another, each
   only when its column exists:
   - a case-insensitive keyword search, OR-ed over whichever of 商品番号 /
     SKU / 商品名 exist;
   - an inclusive ランキング range;
   - a lower bound on the absolute value of 売上個数.
5. **Choose the display columns**. These are the present members of
   ランキング, 商品番号, SKU, 商品名, 属性1名, 属性2名, 現在庫, 売上個数, in that
   order, followed by 画像URL when it exists.

A table is a header (a sequence of column names) and rows. A data frame has
one cell per column in every row, in header order; the model states this as
`Frame.WellFormed`, which the renaming, the filters and the projection
preserve or establish. So renaming changes the header only, as
pandas does. A cell is text, a whole number, or a blank (pandas' NaN). A
blank compares false with every bound. So when ランキング or 売上個数 exists, a
row whose cell there is blank is dropped, even at a sales threshold of 0.
The keyword search reads each cell's text as `astype(str)` gives it, so a
blank reads `nan`.

Modules:
- `Wrappers`: Option and Result.
- `Frame`: cells, rows and tables; lookup by column name; cell text;
  case-insensitive containment.
- `Subsequence`: the subsequence relation and its lemmas.
- `LoadData`: file choice, renaming, `load_data`.
- `PresentColumns`: picking the present columns from a fixed list (the two
  `for c in [...]: if c in columns` loops).
- `RowFilter`: the three filter steps, `main`'s successive filtering as a
  method, and what it keeps.
- `RankSlider`: slider bounds and the initial selection.
- `Display`: the display columns, the projection, and the whole table as
  shown.

## Model

| member | source | states |
|---|---|---|
| LoadData.LatestFile | app.py:9-13 | Fails with NoMatchingFile exactly when the file list is empty. Otherwise it returns one of the files, and every file sorts at or before it. |
| LoadData.LatestIsLastOfSorted | app.py:9-13 | For any ascending ordering of the same files, the chosen name is its last element, as `sorted(files)[-1]` is. |
| LoadData.MaxName | app.py:13 | The result is one of the names, and every name is at or before it in str ordering. |
| LoadData.LexLe | app.py:9 | Python's str ordering: a prefix sorts first, and otherwise the first differing characters decide. |
| LoadData.PresentRenames | app.py:25 | The comprehension has a key iff it is an old name of the rename map and a column. Each key maps to its new name. |
| LoadData.RenameColumns | app.py:21-25 | Rows are untouched and the header keeps its length. Each column is renamed exactly as the full rename map says: the restricted comprehension renames the same columns. A well-formed table stays well-formed. |
| LoadData.RenameKeepsOtherColumns | app.py:21-25 | A column whose name is neither an old nor a new name of the map keeps its name and its position. |
| LoadData.RenameHeaders | app.py:21-25 | After renaming, SKU is present iff SKU or 商品番号.1 was present. 画像URL is present iff 画像URL or Unnamed: 9 was present. The old names are gone. |
| LoadData.RenameIdempotent | app.py:21-25 | Renaming a renamed table changes nothing. |
| LoadData.Load | app.py:7-27 | Fails iff no file matches. On success it uses the greatest file name, that file's first sheet name, and the sheet's table with its columns renamed. A well-formed sheet gives a well-formed table. |
| Frame.IndexOf | app.py:82 | Finds the first column with the given name, or reports its absence. |
| Frame.Get | app.py:82 | `filtered[c]` for one row: an absent column reads as a blank (a convention of the model; `app.py` reads only present columns). On a well-formed row it is the cell under the first column of that name. |
| Frame.AsText | app.py:82 | `astype(str)`: text stays as it is and a blank reads `nan`. A number has a leading '-' iff it is negative, and only decimal digits after it. |
| Frame.DigitsRoundTrip | app.py:82 | The decimal digits of a whole number read back, left to right, as that number, and start with '0' only for zero. |
| Frame.AsTextReadsBack | app.py:82 | The text of a number is its decimal form: the digits after the optional '-' denote its magnitude, with no leading zero. |
| Frame.ContainsIgnoringCase | app.py:82 | `str.contains(keyword, case=False)`: the empty keyword matches every text, and a match needs a keyword no longer than the text. |
| Frame.NumberOf | app.py:86-94 | Only number cells have a number. Text and blanks fail every comparison. |
| Frame.ContainsIgnoresKeywordCase | app.py:82 | Case-insensitive containment is unchanged when the keyword or the text is lower-cased first. |
| PresentColumns.PickPresent | app.py:74-77 | The loop returns exactly the candidates that are columns, in candidate order. |
| PresentColumns.PresentMembers | app.py:74-77 | A name is picked iff it is a candidate and a column. |
| PresentColumns.PresentKeepsOrder | app.py:74-77 | The picked names are a subsequence of the candidate list. |
| PresentColumns.PresentNoDuplicates | app.py:100-103 | A candidate list without repeats gives a pick without repeats. |
| PresentColumns.PresentNone | app.py:79 | With no candidate present, the pick is empty. |
| RowFilter.InRank | app.py:87-90 | A row passes the rank comparison only with a number in ランキング and a non-empty range. Without the column, nothing passes. |
| RowFilter.MeetsSales | app.py:94 | A row passes the sales comparison only with a number in 売上個数. At threshold 0, exactly the rows with a number pass. |
| RowFilter.Select | app.py:83 | `filtered[cond]`: no longer than the input and only input rows. An all-true mask keeps every row, an all-false mask none. |
| RowFilter.Filtered | app.py:70-94 | The successive reassignments of `filtered` keep the header. The result is a subsequence of the input rows, no longer, and holds only input rows. A well-formed table stays well-formed. |
| RowFilter.Admits | app.py:73-94 | A row with none of the filtered columns is admitted. When 売上個数 exists, an admitted row has a number there. |
| RowFilter.AnyHitIff | app.py:80-82 | The OR-ed keyword mask holds for a row iff the keyword occurs, case ignored, in one of the search columns. |
| RowFilter.KeywordMask | app.py:80-82 | The loop from `cond = False` gives, for each row, the OR over the present search columns. |
| RowFilter.SelectByMask | app.py:83 | Selecting rows by a mask that agrees with the steps is filtering by those steps. |
| RowFilter.SelectIsApply | app.py:87-94 | Selecting by a comparison step's mask keeps the header and the rows that step keeps. |
| RowFilter.FilterAllFuse | app.py:70-94 | Filtering by some steps and then by more equals filtering once by all of them. |
| RowFilter.EmptyKeywordKeepsAll | app.py:73-83 | The empty keyword matches every row, so the `if keyword` guard changes no result and only skips work. |
| RowFilter.FilterKeepsEveryRow | app.py:83-94 | When every row passes, the filter returns the rows unchanged. |
| RowFilter.FilterNoSteps | app.py:70 | With no step, the copy keeps every row. |
| RowFilter.FilterAllSubseq | app.py:70-94 | The kept rows are a subsequence of the input: only removed, never added, altered or reordered. |
| RowFilter.FilterAllCount | app.py:70-94 | A row occurs as often as in the input when the steps keep it, and not at all otherwise. |
| RowFilter.FilteredIsOneFilter | app.py:70-94 | The three successive reassignments of `filtered` equal one filter by the steps that run. |
| RowFilter.StepsAdmit | app.py:73-94 | The steps that run keep a row iff it passes each step whose column (and keyword) is present. |
| RowFilter.FilteredRows | app.py:70-94 | The filtered table keeps the header. Its rows are a subsequence of the input, and each row keeps its multiplicity iff admitted, otherwise it disappears. |
| RowFilter.KeptRow | app.py:70-94 | A row is in the result iff it is an input row that every running step admits. |
| RowFilter.RankRangeInclusive | app.py:86-90 | When ランキング exists, every kept row has a number there with lo <= rank <= hi, both bounds inclusive. |
| RowFilter.SalesThreshold | app.py:93-94 | When 売上個数 exists, every kept row has a number there whose absolute value is at least the threshold. |
| RowFilter.BlankSalesDropped | app.py:63-67 | When 売上個数 exists, a row with a blank there is dropped even at threshold 0. |
| RowFilter.KeywordMatch | app.py:73-83 | With a non-empty keyword and a search column present, the kept rows are those kept without the keyword in which the keyword occurs in a present search column. |
| RowFilter.KeywordSkipped | app.py:73-79 | An empty keyword, or no search column present, filters exactly as no keyword. |
| RowFilter.NothingToFilter | app.py:70-94 | A table with none of the filtered columns passes through unchanged. |
| RowFilter.ApplyFilters | app.py:70-94 | The step-by-step method computes exactly the successive filter. |
| RankSlider.RankNumbers | app.py:53-54 | The ranks `min` and `max` see skip blanks: at most one per row, and none without a ランキング column. |
| RankSlider.MinOf | app.py:53 | The result is an element and no element is smaller. |
| RankSlider.MaxOf | app.py:54 | The result is an element and no element is larger. |
| RankSlider.RankNumbersOfRows | app.py:53-54 | A number is among the ranks iff some row has it in its rank cell. |
| RankSlider.DefaultRange | app.py:59 | The selection starts at min_rank. It ends at the smaller of min_rank + 49 and max_rank: it is at most both and equal to one of them. |
| RankSlider.SetUpSlider | app.py:51-60 | No slider iff ランキング is absent. An error iff the column holds no number. Otherwise the bounds are the least and greatest rank, and the initial selection is exactly `(min_rank, min(min_rank + 49, max_rank))`: min <= lo <= hi <= max with hi - lo <= 49. |
| RankSlider.InitialSelectionKeeps | app.py:51-90 | With the initial selection, the rank step keeps a row iff its rank is a number at most min_rank + 49. |
| Display.DisplayColumns | app.py:100-107 | Only columns of the table are shown. 画像URL is shown last when present and is not shown when absent. |
| Display.DisplayOrderDistinct | app.py:101-107 | The eight main columns and 画像URL are nine distinct names. |
| Display.SplitDistinct | app.py:101-107 | A repeat-free list with one name appended is repeat-free and lacks that name. |
| Display.PickAppendMembers | app.py:100-107 | A name is shown iff it is a column and in the fixed list or is 画像URL. |
| Display.PickAppendNoDuplicates | app.py:100-107 | The shown names have no repeats. |
| Display.PickAppendOrder | app.py:100-107 | The shown names keep list order, and the appended name is last iff it is present. |
| Display.DisplayColumnsSpec | app.py:100-107 | The display columns are the present members of the fixed list in order, then 画像URL iff present. There are no repeats and nothing absent. |
| Display.ChooseDisplayColumns | app.py:100-107 | The loop and the append compute the display columns. |
| Display.Project | app.py:109 | The projected table has the given header, the same number of rows, and one cell per shown column, so it is well-formed. |
| Display.ProjectKeepsCells | app.py:109 | Every shown cell is the cell of the same row under the same column name. |
| Display.ShowTable | app.py:70-109 | The table handed to `st.dataframe` is the filtered table projected on the display columns. |

## Left out

- Streamlit: page config, title, captions, sidebar widgets, `st.dataframe`,
  the image column config, error display and `st.stop`. These are
  presentation. The keyword, the chosen rank range and the sales threshold
  are inputs. The threshold is a `nat`, as `number_input(min_value=0)`
  makes it.
- Only the table logic of `app.py` is modelled.
- `glob`, `pd.read_excel` and picking the first sheet are I/O. The file
  names and a reader that gives a file's first sheet (name and table) are
  inputs. The `@st.cache_data` memoisation is not modelled. Because
  `load_data` takes no arguments, the cached result is reused until the
  cache is cleared, so a workbook added later is not picked up and the
  file choice can be stale.
- `str.contains` treats the keyword as a regular expression. The model
  matches it as a literal substring.
- Case is folded for the letters A to Z only, not by Unicode case folding.
- Cell text: numbers read in decimal integer form. pandas prints
  float-typed columns as `12.0`; floating-point cells are not modelled.
- A text cell in ランキング or 売上個数 is treated like a blank. pandas would
  raise a TypeError on comparing it with a number.
- If renaming creates two columns with the same name, a lookup by that name
  reads the first of them. pandas would return a two-column frame.
- `int(df["ランキング"].min())` on a column with no number raises in pandas.
  The model reports it as `NoRankNumber` rather than requiring a non-empty
  column.
- Streamlit's own checks of the slider's arguments are not modelled; the
  slider is taken to accept the bounds and initial selection computed here.
