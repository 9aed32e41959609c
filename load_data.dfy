/**
 * `load_data` (app.py:7-27): pick the newest workbook among the files that
 * match the name pattern, read its first sheet and rename two columns.
 * Finding the files and reading the workbook are I/O: the file names and a
 * reader that yields the first sheet of a named file are inputs.
 */
module LoadData {
  import opened Wrappers
  import opened Frame

  datatype LoadError = NoMatchingFile

  /** The first sheet of a workbook: its name and its table. */
  datatype Sheet = Sheet(name: string, table: Table)

  /** What `load_data` returns: the renamed table, the file it came from and the sheet name. */
  datatype Loaded = Loaded(table: Table, file: string, sheetName: string)

  // ---------------------------------------------------------------------------
  // Python's ordering of str: code point by code point, a proper prefix first.

  predicate LexLe(a: string, b: string)
    ensures a <= b ==> LexLe(a, b)
    ensures a != [] && b != [] && a[0] != b[0] ==> (LexLe(a, b) <==> a[0] < b[0])
  {
    if a == [] then true
    else if b == [] then false
    else if a[0] != b[0] then a[0] < b[0]
    else LexLe(a[1..], b[1..])
  }

  lemma LexRefl(a: string)
    ensures LexLe(a, a)
  {
  }

  lemma {:induction false} LexTotal(a: string, b: string)
    ensures LexLe(a, b) || LexLe(b, a)
  {
    if a != [] && b != [] && a[0] == b[0] {
      LexTotal(a[1..], b[1..]);
    }
  }

  lemma {:induction false} LexAntisym(a: string, b: string)
    requires LexLe(a, b) && LexLe(b, a)
    ensures a == b
  {
    if a != [] && b != [] {
      LexAntisym(a[1..], b[1..]);
      assert a == [a[0]] + a[1..];
      assert b == [b[0]] + b[1..];
    }
  }

  lemma {:induction false} LexTrans(a: string, b: string, c: string)
    requires LexLe(a, b) && LexLe(b, c)
    ensures LexLe(a, c)
  {
    if a != [] && b != [] && c != [] && a[0] == b[0] && b[0] == c[0] {
      LexTrans(a[1..], b[1..], c[1..]);
    }
  }

  /** A sequence of names in ascending order, as `sorted` returns it. */
  ghost predicate SortedLex(s: seq<string>)
  {
    forall i, j :: 0 <= i < j < |s| ==> LexLe(s[i], s[j])
  }

  // ---------------------------------------------------------------------------
  // Choosing the file (app.py:9-13).

  /** The greatest name in the list. */
  function MaxName(files: seq<string>): (r: string)
    requires |files| > 0
    ensures r in files
    ensures forall f :: f in files ==> LexLe(f, r)
  {
    if |files| == 1 then
      LexRefl(files[0]);
      files[0]
    else
      var m := MaxName(files[..|files| - 1]);
      var last := files[|files| - 1];
      assert files == files[..|files| - 1] + [last];
      if LexLe(m, last) then
        assert forall f :: f in files[..|files| - 1] ==> LexLe(f, last) by {
          forall f | f in files[..|files| - 1] {
            LexTrans(f, m, last);
          }
        }
        LexRefl(last);
        last
      else
        LexTotal(m, last);
        LexRefl(m);
        m
  }

  /**
   * The newest file: the last of the sorted names, or an error when no file
   * matches.
   */
  function LatestFile(files: seq<string>): (r: Result<string, LoadError>)
    ensures r.Failure? <==> files == []
    ensures r.Failure? ==> r.error == NoMatchingFile
    ensures r.Success? ==> r.value in files && forall f :: f in files ==> LexLe(f, r.value)
  {
    if files == [] then Failure(NoMatchingFile) else Success(MaxName(files))
  }

  /**
   * Whatever order the files are found in, the name chosen is the last
   * element of the sorted list, as `sorted(files)[-1]` is.
   */
  lemma LatestIsLastOfSorted(files: seq<string>, sorted: seq<string>)
    requires multiset(sorted) == multiset(files)
    requires SortedLex(sorted)
    requires files != []
    ensures sorted != []
    ensures LatestFile(files) == Success(sorted[|sorted| - 1])
  {
    assert |sorted| == |multiset(sorted)| == |multiset(files)| == |files|;
    var last := sorted[|sorted| - 1];
    var m := MaxName(files);
    assert m in multiset(files);
    assert m in sorted;
    var k :| 0 <= k < |sorted| && sorted[k] == m;
    if k < |sorted| - 1 {
      assert LexLe(m, last);
    } else {
      LexRefl(m);
    }
    assert last in multiset(sorted);
    assert last in files;
    LexAntisym(m, last);
  }

  // ---------------------------------------------------------------------------
  // Renaming (app.py:21-25).

  const RenameMap: map<string, string> := map["商品番号.1" := "SKU", "Unnamed: 9" := "画像URL"]

  /** The new name of a column under a renaming; names it does not mention stay. */
  function RenamedUnder(m: map<string, string>, c: string): string
  {
    if c in m then m[c] else c
  }

  /** The entries of RenameMap whose old name is a column of the table. */
  function PresentRenames(columns: seq<string>): (m: map<string, string>)
    ensures forall k :: k in m <==> k in RenameMap && k in columns
    ensures forall k :: k in m ==> m[k] == RenameMap[k]
  {
    map k | k in RenameMap && k in columns :: RenameMap[k]
  }

  /** Rename the columns found in RenameMap; the rows are untouched. */
  function RenameColumns(t: Table): (r: Table)
    ensures r.rows == t.rows
    ensures |r.columns| == |t.columns|
    ensures forall i :: 0 <= i < |t.columns| ==> r.columns[i] == RenamedUnder(RenameMap, t.columns[i])
    ensures WellFormed(t) ==> WellFormed(r)
  {
    var m := PresentRenames(t.columns);
    Table(seq(|t.columns|, i requires 0 <= i < |t.columns| => RenamedUnder(m, t.columns[i])), t.rows)
  }

  /** A column not named in RenameMap, old or new, keeps its name and its place. */
  lemma RenameKeepsOtherColumns(t: Table, name: string, i: int)
    requires name !in RenameMap.Keys && name !in RenameMap.Values
    requires 0 <= i < |t.columns|
    ensures RenameColumns(t).columns[i] == name <==> t.columns[i] == name
  {
  }

  /** After renaming, SKU and 画像URL are present exactly when they or their old names were. */
  lemma RenameHeaders(t: Table)
    ensures "SKU" in RenameColumns(t).columns <==> ("SKU" in t.columns || "商品番号.1" in t.columns)
    ensures "画像URL" in RenameColumns(t).columns <==> ("画像URL" in t.columns || "Unnamed: 9" in t.columns)
    ensures "商品番号.1" !in RenameColumns(t).columns && "Unnamed: 9" !in RenameColumns(t).columns
  {
  }

  /** Renaming twice renames nothing more: the new names are not old names. */
  lemma RenameIdempotent(t: Table)
    ensures RenameColumns(RenameColumns(t)) == RenameColumns(t)
  {
  }

  /**
   * `load_data`: fail when no file matches; otherwise the first sheet of the
   * newest file, with its columns renamed.
   */
  function Load(files: seq<string>, firstSheet: string -> Sheet): (r: Result<Loaded, LoadError>)
    ensures r.Failure? <==> files == []
    ensures r.Success? ==>
      && r.value.file in files
      && (forall f :: f in files ==> LexLe(f, r.value.file))
      && r.value.sheetName == firstSheet(r.value.file).name
      && r.value.table == RenameColumns(firstSheet(r.value.file).table)
    ensures r.Success? && WellFormed(firstSheet(r.value.file).table) ==> WellFormed(r.value.table)
  {
    match LatestFile(files)
    case Failure(e) => Failure(e)
    case Success(file) =>
      var sheet := firstSheet(file);
      Success(Loaded(RenameColumns(sheet.table), file, sheet.name))
  }
}
