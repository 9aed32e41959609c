/**
 * Picking, from a fixed list of wanted column names, those the table has,
 * in the order of the list: the loops that build `cols` (app.py:74-77) and
 * `display_cols` (app.py:100-103).
 */
module PresentColumns {
  import opened Subsequence

  /** The candidates that are columns, in candidate order. */
  function Present(candidates: seq<string>, columns: seq<string>): seq<string>
    decreases |candidates|
  {
    if candidates == [] then []
    else
      var last := candidates[|candidates| - 1];
      Present(candidates[..|candidates| - 1], columns) + (if last in columns then [last] else [])
  }

  ghost predicate NoDuplicates<T>(s: seq<T>)
  {
    forall i, j :: 0 <= i < j < |s| ==> s[i] != s[j]
  }

  /** A name is picked exactly when it is wanted and the table has it. */
  lemma {:induction false} PresentMembers(candidates: seq<string>, columns: seq<string>, x: string)
    ensures x in Present(candidates, columns) <==> x in candidates && x in columns
    decreases |candidates|
  {
    if candidates != [] {
      var front := candidates[..|candidates| - 1];
      PresentMembers(front, columns, x);
      assert candidates == front + [candidates[|candidates| - 1]];
    }
  }

  /** When the table has none of the candidates, nothing is picked. */
  lemma {:induction false} PresentNone(candidates: seq<string>, columns: seq<string>)
    ensures (forall c :: c in candidates ==> c !in columns) ==> Present(candidates, columns) == []
    decreases |candidates|
  {
    if candidates != [] {
      PresentNone(candidates[..|candidates| - 1], columns);
    }
  }

  /** The picked names keep the order of the candidate list. */
  lemma {:induction false} PresentKeepsOrder(candidates: seq<string>, columns: seq<string>)
    ensures IsSubseq(Present(candidates, columns), candidates)
    decreases |candidates|
  {
    if candidates != [] {
      var front := candidates[..|candidates| - 1];
      var last := candidates[|candidates| - 1];
      PresentKeepsOrder(front, columns);
      assert candidates == front + [last];
      if last in columns {
        SubseqSnoc(Present(front, columns), front, last);
      } else {
        assert Present(candidates, columns) == Present(front, columns);
        SubseqExtend(Present(front, columns), front, last);
      }
    }
  }

  /** A list without repeats yields a pick without repeats. */
  lemma {:induction false} PresentNoDuplicates(candidates: seq<string>, columns: seq<string>)
    requires NoDuplicates(candidates)
    ensures NoDuplicates(Present(candidates, columns))
    decreases |candidates|
  {
    if candidates != [] {
      var front := candidates[..|candidates| - 1];
      var last := candidates[|candidates| - 1];
      PresentNoDuplicates(front, columns);
      if last in columns {
        PresentMembers(front, columns, last);
        assert last !in front;
      }
    }
  }

  /** The loop of app.py:74-77 and app.py:100-103. */
  method PickPresent(candidates: seq<string>, columns: seq<string>) returns (picked: seq<string>)
    ensures picked == Present(candidates, columns)
  {
    picked := [];
    for k := 0 to |candidates|
      invariant picked == Present(candidates[..k], columns)
    {
      assert candidates[..k + 1][..k] == candidates[..k];
      if candidates[k] in columns {
        picked := picked + [candidates[k]];
      }
    }
    assert candidates[..|candidates|] == candidates;
  }
}
