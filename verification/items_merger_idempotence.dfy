/**
 * The merger is idempotent: merging its own output changes nothing. Its
 * output is again sorted by (y, x), it falls into the same exact-y rows,
 * and every row of it is settled (no neighbours left to merge).
 */
module MergerIdempotence {
  import opened TextItems
  import opened Sorting
  import opened ItemsMerger

  /** The first output item lies on the first input item's baseline. */
  lemma MergePageFirst(s: seq<SimpleTextItem>)
    requires |s| > 0
    ensures |MergePage(s)| > 0 && MergePage(s)[0].y == s[0].y
  {
    MergePageUnfold(s);
  }

  /** Grouping and folding the output of MergePage again gives it back. */
  lemma {:induction false} MergePageFixpoint(s: seq<SimpleTextItem>)
    ensures MergePage(MergePage(s)) == MergePage(s)
    decreases |s|
  {
    if |s| > 0 {
      var k := YRunLength(s, s[0].y);
      var rest := s[k..];
      MergePageUnfold(s);
      var row := MergeRow(s[0], s[1..k]);
      var tail := MergePage(rest);
      var out := row + tail;
      MergeRowSameY(s[0], s[1..k]);
      MergeRowSettled(s[0], s[1..k]);
      if |rest| > 0 {
        MergePageFirst(rest);
      } else {
        assert tail == [];
      }
      assert out[0] == row[0];
      assert |tail| > 0 ==> out[|row|] == tail[0];
      YRunLengthExact(out, s[0].y, |row|);
      MergePageUnfold(out);
      assert out[..|row|] == row && out[|row|..] == tail;
      MergeRowOfSettled(row);
      MergePageFixpoint(rest);
    }
  }

  /** When the page is in (y, x) order, so is the merger's output. */
  lemma {:induction false} MergePageSorted(s: seq<SimpleTextItem>)
    requires Sorted(BaselineOrder, s)
    ensures Chained(BaselineOrder, MergePage(s))
    decreases |s|
  {
    if |s| > 0 {
      var k := YRunLength(s, s[0].y);
      var rest := s[k..];
      MergePageUnfold(s);
      SortedSlice(BaselineOrder, s, k, |s|);
      MergePageSorted(rest);
      FirstRowChained(s, k);
      if |rest| > 0 {
        MergePageFirst(rest);
        assert Before(BaselineOrder, s[0], s[k]);
        MergeRowSameY(s[0], s[1..k]);
      }
      ChainedAppend(BaselineOrder, MergeRow(s[0], s[1..k]), MergePage(rest));
    }
  }

  /** The fold of the first exact-y run of a sorted page is in (y, x) order. */
  lemma FirstRowChained(s: seq<SimpleTextItem>, k: nat)
    requires Sorted(BaselineOrder, s) && |s| > 0 && k == YRunLength(s, s[0].y)
    ensures Chained(BaselineOrder, MergeRow(s[0], s[1..k]))
  {
    var xs := s[1..k];
    forall j | 0 <= j < |xs| ensures xs[j].y == s[0].y && s[0].x <= xs[j].x {
      assert xs[j] == s[j + 1];
      assert Before(BaselineOrder, s[0], s[j + 1]);
    }
    forall j | 0 <= j < |xs| - 1 ensures xs[j].x <= xs[j + 1].x {
      assert xs[j] == s[j + 1] && xs[j + 1] == s[j + 2];
      assert Before(BaselineOrder, s[j + 1], s[j + 2]);
    }
    MergeRowSameY(s[0], xs);
    MergeRowAscendingX(s[0], xs);
  }

  /** Merging the merger's output again leaves it unchanged: no two
      same-baseline, same-height, unprotected neighbours within tolerance
      are left unmerged. */
  lemma MergeCloseIdempotent(items: seq<SimpleTextItem>)
    ensures MergeCloseSimpleTextItems(MergeCloseSimpleTextItems(items)) == MergeCloseSimpleTextItems(items)
  {
    var sorted := Sort(BaselineOrder, items);
    var out := MergePage(sorted);
    MergePageSorted(sorted);
    ChainSorted(BaselineOrder, out);
    SortSorted(BaselineOrder, out);
    MergePageFixpoint(sorted);
  }
}
