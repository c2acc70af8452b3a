/**
 * The merger conserves text. A merge step prepends the candidate's value to
 * the accumulator's, so reading a row's values from its last item to its
 * first gives the same string before and after the fold: no fragment is
 * dropped, duplicated or moved. Over the whole page the merger's output
 * carries exactly the characters of its input.
 */
module MergerText {
  import opened TextItems
  import opened Seqs
  import opened Sorting
  import opened ItemsMerger

  /** The values of s read from its last item back to its first, each value
      itself kept as it is. */
  function RightToLeftText(s: seq<SimpleTextItem>): (t: string) {
    if |s| == 0 then [] else RightToLeftText(s[1..]) + s[0].value
  }

  /** Reading a concatenation right to left reads the right part first. */
  lemma {:induction false} RightToLeftAppend(a: seq<SimpleTextItem>, b: seq<SimpleTextItem>)
    ensures RightToLeftText(a + b) == RightToLeftText(b) + RightToLeftText(a)
  {
    if |a| > 0 {
      assert (a + b)[1..] == a[1..] + b;
      RightToLeftAppend(a[1..], b);
    } else {
      assert a + b == b;
    }
  }

  /** The fold over a row keeps the row's text: the candidate of every merge
      is prepended, never dropped, and every flushed item keeps its own. */
  lemma {:induction false} MergeRowText(acc: SimpleTextItem, rest: seq<SimpleTextItem>)
    ensures RightToLeftText(MergeRow(acc, rest)) == RightToLeftText(rest) + acc.value
    decreases |rest|
  {
    if |rest| == 0 {
      assert MergeRow(acc, rest) == [acc];
      assert RightToLeftText([acc]) == RightToLeftText([]) + acc.value;
    } else if ShouldBeMerged(acc, rest[0]) {
      MergeRowText(Join(acc, rest[0]), rest[1..]);
    } else {
      var tail := MergeRow(rest[0], rest[1..]);
      MergeRowText(rest[0], rest[1..]);
      RightToLeftAppend([acc], tail);
      assert RightToLeftText([acc]) == RightToLeftText([]) + acc.value;
    }
  }

  /** Folding every row keeps the text of the rows taken together. */
  lemma {:induction false} MergeRowsText(rows: seq<seq<SimpleTextItem>>)
    ensures RightToLeftText(MergeRows(rows)) == RightToLeftText(Flatten(rows))
  {
    if |rows| > 0 {
      var head := if |rows[0]| == 0 then [] else MergeRow(rows[0][0], rows[0][1..]);
      MergeRowsText(rows[1..]);
      RightToLeftAppend(head, MergeRows(rows[1..]));
      RightToLeftAppend(rows[0], Flatten(rows[1..]));
      if |rows[0]| > 0 {
        MergeRowText(rows[0][0], rows[0][1..]);
        assert rows[0] == [rows[0][0]] + rows[0][1..];
        RightToLeftAppend([rows[0][0]], rows[0][1..]);
        assert RightToLeftText([rows[0][0]]) == RightToLeftText([]) + rows[0][0].value;
      }
    }
  }

  /** Grouping and folding a page keeps its text. */
  lemma MergePageText(s: seq<SimpleTextItem>)
    ensures RightToLeftText(MergePage(s)) == RightToLeftText(s)
  {
    MergeRowsText(SortedRows(s));
  }

  /** A permutation of the items permutes nothing but whole values, so the
      characters are the same. */
  lemma {:induction false} RightToLeftPermutation(a: seq<SimpleTextItem>, b: seq<SimpleTextItem>)
    requires multiset(a) == multiset(b)
    ensures multiset(RightToLeftText(a)) == multiset(RightToLeftText(b))
    decreases |a|
  {
    if |a| == 0 {
      assert |b| == |multiset(b)| == 0;
    } else {
      assert a[0] in multiset(b);
      var j :| 0 <= j < |b| && b[j] == a[0];
      var b' := b[..j] + b[j + 1..];
      assert b == b[..j] + [b[j]] + b[j + 1..];
      assert a == [a[0]] + a[1..];
      assert multiset(b) == multiset(b[..j]) + multiset{b[j]} + multiset(b[j + 1..]);
      assert multiset(a) == multiset{a[0]} + multiset(a[1..]);
      assert multiset(b') == multiset(b[..j]) + multiset(b[j + 1..]);
      assert multiset(a[1..]) == multiset(a) - multiset{a[0]};
      assert multiset(b') == multiset(b) - multiset{b[j]};
      RightToLeftPermutation(a[1..], b');
      RightToLeftAppend(b[..j] + [b[j]], b[j + 1..]);
      RightToLeftAppend(b[..j], [b[j]]);
      RightToLeftAppend(b[..j], b[j + 1..]);
      assert RightToLeftText([b[j]]) == RightToLeftText([]) + b[j].value;
    }
  }

  /** The merger's output, read right to left, is exactly the (y, x)-sorted
      page read right to left; so it holds every character of the input, as
      often as the input does, and the total text length is unchanged. */
  lemma MergeCloseText(items: seq<SimpleTextItem>)
    ensures RightToLeftText(MergeCloseSimpleTextItems(items)) == RightToLeftText(Sort(BaselineOrder, items))
    ensures multiset(RightToLeftText(MergeCloseSimpleTextItems(items))) == multiset(RightToLeftText(items))
    ensures |RightToLeftText(MergeCloseSimpleTextItems(items))| == |RightToLeftText(items)|
  {
    var sorted := Sort(BaselineOrder, items);
    MergePageText(sorted);
    RightToLeftPermutation(sorted, items);
    assert |multiset(RightToLeftText(sorted))| == |RightToLeftText(sorted)|;
    assert |multiset(RightToLeftText(items))| == |RightToLeftText(items)|;
  }
}
