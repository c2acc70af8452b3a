/**
 * The merger: re-joins the fragments the layout engine split out of one
 * logical token. Items are grouped by exactly equal baseline y (the
 * `SortedPage` / `SortedRow` views over the page sorted by y, then x), and
 * each group is folded left to right, growing an accumulator while the next
 * item should be merged into it.
 */
module ItemsMerger {
  import opened TextItems
  import opened Text
  import opened Seqs
  import opened Sorting

  /** `isItemProtected`: the value is exactly five ASCII digits (a student ID). */
  predicate IsItemProtected(item: SimpleTextItem) {
    |item.value| == 5 && AllDigits(item.value)
  }

  /** `shouldBeMerged(a, b)`, a being the accumulator on the left and b the
      candidate on its right. */
  predicate ShouldBeMerged(a: SimpleTextItem, b: SimpleTextItem) {
    if a.height != b.height then false
    else if IsItemProtected(a) || IsItemProtected(b) then false
    else b.x <= a.x + a.width + a.height / 10.0
  }

  /** The three rules of `shouldBeMerged`: a height mismatch or a protected
      side forbids the merge; otherwise the candidate must start within a
      tenth of the accumulator's height past its right edge. */
  lemma ShouldBeMergedRules(a: SimpleTextItem, b: SimpleTextItem)
    ensures a.height != b.height ==> !ShouldBeMerged(a, b)
    ensures IsItemProtected(a) || IsItemProtected(b) ==> !ShouldBeMerged(a, b)
    ensures a.height == b.height && !IsItemProtected(a) && !IsItemProtected(b) ==>
              (ShouldBeMerged(a, b) <==> b.x - RightEdge(a) <= a.height / 10.0)
  {
  }

  /** One merge step: the candidate's text is prepended (reconstructing the
      reading order of right-to-left runs), the Arabic flag is or-ed, and the
      accumulator is stretched to the candidate's right edge while keeping
      its anchor (x, y) and height. */
  function Join(acc: SimpleTextItem, next: SimpleTextItem): (r: SimpleTextItem)
    ensures r.x == acc.x && r.y == acc.y && r.height == acc.height
    ensures RightEdge(r) == RightEdge(next)
    ensures r.value == next.value + acc.value
    ensures r.arabic <==> acc.arabic || next.arabic
  {
    acc.(value := next.value + acc.value,
         arabic := acc.arabic || next.arabic,
         width := next.x + next.width - acc.x)
  }

  /** The fold over one row, from accumulator acc with the items still to
      visit: each item is merged into the accumulator or flushes it. */
  function MergeRow(acc: SimpleTextItem, rest: seq<SimpleTextItem>): (r: seq<SimpleTextItem>)
    ensures 1 <= |r| <= |rest| + 1
    ensures r[0].x == acc.x && r[0].y == acc.y && r[0].height == acc.height
    ensures IsItemProtected(acc) ==> r[0] == acc
    decreases |rest|
  {
    if |rest| == 0 then [acc]
    else if ShouldBeMerged(acc, rest[0]) then MergeRow(Join(acc, rest[0]), rest[1..])
    else [acc] + MergeRow(rest[0], rest[1..])
  }

  /** A protected item is emitted verbatim: it never absorbs a neighbour and
      is never absorbed into one. */
  lemma {:induction false} MergeRowKeepsProtected(acc: SimpleTextItem, rest: seq<SimpleTextItem>, j: int)
    requires 0 <= j < |rest| && IsItemProtected(rest[j])
    ensures rest[j] in MergeRow(acc, rest)
    decreases |rest|
  {
    if ShouldBeMerged(acc, rest[0]) {
      assert j > 0;
      MergeRowKeepsProtected(Join(acc, rest[0]), rest[1..], j - 1);
    } else if j > 0 {
      MergeRowKeepsProtected(rest[0], rest[1..], j - 1);
    } else {
      assert MergeRow(rest[0], rest[1..])[0] == rest[0];
    }
  }

  /** No two neighbours in a row's output should be merged any more. */
  predicate Settled(s: seq<SimpleTextItem>) {
    forall i :: 0 <= i < |s| - 1 ==> !ShouldBeMerged(s[i], s[i + 1])
  }

  lemma {:induction false} MergeRowSettled(acc: SimpleTextItem, rest: seq<SimpleTextItem>)
    ensures Settled(MergeRow(acc, rest))
    decreases |rest|
  {
    if |rest| > 0 {
      if ShouldBeMerged(acc, rest[0]) {
        MergeRowSettled(Join(acc, rest[0]), rest[1..]);
      } else {
        var tail := MergeRow(rest[0], rest[1..]);
        MergeRowSettled(rest[0], rest[1..]);
        assert !ShouldBeMerged(acc, tail[0]);
        var r := [acc] + tail;
        forall i | 0 <= i < |r| - 1 ensures !ShouldBeMerged(r[i], r[i + 1]) {
          if i > 0 {
            assert r[i] == tail[i - 1] && r[i + 1] == tail[i];
          }
        }
      }
    }
  }

  /** Folding a row that is already settled gives it back unchanged. */
  lemma {:induction false} MergeRowOfSettled(s: seq<SimpleTextItem>)
    requires |s| > 0 && Settled(s)
    ensures MergeRow(s[0], s[1..]) == s
  {
    if |s| > 1 {
      assert !ShouldBeMerged(s[0], s[1]);
      assert Settled(s[1..]) by {
        forall i | 0 <= i < |s[1..]| - 1 ensures !ShouldBeMerged(s[1..][i], s[1..][i + 1]) {
          assert s[1..][i] == s[i + 1] && s[1..][i + 1] == s[i + 2];
        }
      }
      MergeRowOfSettled(s[1..]);
      assert s[1..][1..] == s[2..];
      assert [s[0]] + s[1..] == s;
    }
  }

  /** Every item of a row's output lies on the row's baseline. */
  lemma {:induction false} MergeRowSameY(acc: SimpleTextItem, rest: seq<SimpleTextItem>)
    requires forall j :: 0 <= j < |rest| ==> rest[j].y == acc.y
    ensures forall i :: 0 <= i < |MergeRow(acc, rest)| ==> MergeRow(acc, rest)[i].y == acc.y
    decreases |rest|
  {
    if |rest| > 0 {
      if ShouldBeMerged(acc, rest[0]) {
        MergeRowSameY(Join(acc, rest[0]), rest[1..]);
      } else {
        MergeRowSameY(rest[0], rest[1..]);
      }
    }
  }

  /** If the row is visited by ascending x, its output is in ascending x too. */
  lemma {:induction false} MergeRowAscendingX(acc: SimpleTextItem, rest: seq<SimpleTextItem>)
    requires |rest| > 0 ==> acc.x <= rest[0].x
    requires forall j :: 0 <= j < |rest| - 1 ==> rest[j].x <= rest[j + 1].x
    ensures forall i :: 0 <= i < |MergeRow(acc, rest)| - 1 ==> MergeRow(acc, rest)[i].x <= MergeRow(acc, rest)[i + 1].x
    decreases |rest|
  {
    if |rest| > 0 {
      if ShouldBeMerged(acc, rest[0]) {
        MergeRowAscendingX(Join(acc, rest[0]), rest[1..]);
      } else {
        MergeRowAscendingX(rest[0], rest[1..]);
      }
    }
  }

  /** Length of the prefix of s whose items all have baseline y. */
  function YRunLength(s: seq<SimpleTextItem>, y: real): (k: nat)
    ensures k <= |s|
    ensures forall i :: 0 <= i < k ==> s[i].y == y
    ensures k < |s| ==> s[k].y != y
  {
    if |s| > 0 && s[0].y == y then 1 + YRunLength(s[1..], y) else 0
  }

  /** The run ends exactly at the first item off the baseline. */
  lemma {:induction false} YRunLengthExact(s: seq<SimpleTextItem>, y: real, m: nat)
    requires m <= |s|
    requires forall i :: 0 <= i < m ==> s[i].y == y
    requires m < |s| ==> s[m].y != y
    ensures YRunLength(s, y) == m
  {
    if m > 0 {
      var t := s[1..];
      forall i | 0 <= i < m - 1 ensures t[i].y == y {
        assert t[i] == s[i + 1];
      }
      if m < |s| {
        assert t[m - 1] == s[m];
      }
      YRunLengthExact(t, y, m - 1);
    }
  }

  /** The `SortedPage` view: the page cut into maximal runs that share
      exactly the same y. */
  function SortedRows(s: seq<SimpleTextItem>): (rows: seq<seq<SimpleTextItem>>)
    ensures Flatten(rows) == s
    ensures forall i :: 0 <= i < |rows| ==> |rows[i]| > 0
    ensures forall i, j :: 0 <= i < |rows| && 0 <= j < |rows[i]| ==> rows[i][j].y == rows[i][0].y
    ensures forall i :: 0 <= i < |rows| - 1 ==> rows[i][0].y != rows[i + 1][0].y
    decreases |s|
  {
    if |s| == 0 then []
    else
      var k := YRunLength(s, s[0].y);
      var tail := SortedRows(s[k..]);
      RunsCons(s, k, tail);
      [s[..k]] + tail
  }

  /** Cutting off the first run keeps the three run properties. */
  lemma RunsCons(s: seq<SimpleTextItem>, k: nat, tail: seq<seq<SimpleTextItem>>)
    requires 0 < k <= |s|
    requires forall i :: 0 <= i < k ==> s[i].y == s[0].y
    requires k < |s| ==> s[k].y != s[0].y
    requires Flatten(tail) == s[k..]
    requires forall i :: 0 <= i < |tail| ==> |tail[i]| > 0
    requires forall i, j :: 0 <= i < |tail| && 0 <= j < |tail[i]| ==> tail[i][j].y == tail[i][0].y
    requires forall i :: 0 <= i < |tail| - 1 ==> tail[i][0].y != tail[i + 1][0].y
    ensures var rows := [s[..k]] + tail;
            && Flatten(rows) == s
            && (forall i :: 0 <= i < |rows| ==> |rows[i]| > 0)
            && (forall i, j :: 0 <= i < |rows| && 0 <= j < |rows[i]| ==> rows[i][j].y == rows[i][0].y)
            && (forall i :: 0 <= i < |rows| - 1 ==> rows[i][0].y != rows[i + 1][0].y)
  {
    var rows := [s[..k]] + tail;
    assert rows[1..] == tail;
    assert s[..k] + s[k..] == s;
    forall i | 1 <= i < |rows| ensures rows[i] == tail[i - 1] { }
    if |tail| > 0 {
      assert tail[0][0] == Flatten(tail)[0] == s[k];
    }
  }

  /** Folds every row and concatenates the results, row after row. */
  function MergeRows(rows: seq<seq<SimpleTextItem>>): (r: seq<SimpleTextItem>) {
    if |rows| == 0 then []
    else (if |rows[0]| == 0 then [] else MergeRow(rows[0][0], rows[0][1..])) + MergeRows(rows[1..])
  }

  /** `mergeCloseSimpleTextItems`: sort a copy of the page by (y, x), then
      group and fold it. */
  function MergeCloseSimpleTextItems(items: seq<SimpleTextItem>): (r: seq<SimpleTextItem>) {
    MergePage(Sort(BaselineOrder, items))
  }

  /** Grouping then folding a page that is already in page order. */
  function MergePage(s: seq<SimpleTextItem>): (r: seq<SimpleTextItem>) {
    MergeRows(SortedRows(s))
  }

  /** MergePage handles the first exact-y run, then the rest of the page. */
  lemma MergePageUnfold(s: seq<SimpleTextItem>)
    requires |s| > 0
    ensures var k := YRunLength(s, s[0].y);
            1 <= k && MergePage(s) == MergeRow(s[0], s[1..k]) + MergePage(s[k..])
  {
    var k := YRunLength(s, s[0].y);
    var rows := SortedRows(s);
    assert rows == [s[..k]] + SortedRows(s[k..]);
    assert rows[1..] == SortedRows(s[k..]);
    assert rows[0][1..] == s[1..k];
  }

  lemma {:induction false} MergeRowsLength(rows: seq<seq<SimpleTextItem>>)
    requires forall i :: 0 <= i < |rows| ==> |rows[i]| > 0
    ensures |MergeRows(rows)| <= |Flatten(rows)|
    ensures |MergeRows(rows)| == 0 <==> |rows| == 0
  {
    if |rows| > 0 {
      MergeRowsLength(rows[1..]);
    }
  }

  lemma {:induction false} MergeRowsMember(rows: seq<seq<SimpleTextItem>>, i: int, x: SimpleTextItem)
    requires 0 <= i < |rows| && |rows[i]| > 0 && x in MergeRow(rows[i][0], rows[i][1..])
    ensures x in MergeRows(rows)
  {
    if i > 0 {
      MergeRowsMember(rows[1..], i - 1, x);
    }
  }

  lemma {:induction false} MergeRowsY(rows: seq<seq<SimpleTextItem>>, x: SimpleTextItem)
    requires forall i, j :: 0 <= i < |rows| && 0 <= j < |rows[i]| ==> rows[i][j].y == rows[i][0].y
    requires x in MergeRows(rows)
    ensures exists i :: 0 <= i < |rows| && |rows[i]| > 0 && x.y == rows[i][0].y
  {
    if |rows[0]| > 0 && x in MergeRow(rows[0][0], rows[0][1..]) {
      MergeRowSameY(rows[0][0], rows[0][1..]);
    } else {
      MergeRowsY(rows[1..], x);
      var i :| 0 <= i < |rows[1..]| && |rows[1..][i]| > 0 && x.y == rows[1..][i][0].y;
      assert rows[i + 1] == rows[1..][i];
    }
  }

  /** The merger's output: no longer than its input, empty exactly when the
      input is, and every output item lies on the baseline of an input item. */
  lemma MergeCloseShape(items: seq<SimpleTextItem>)
    ensures |MergeCloseSimpleTextItems(items)| <= |items|
    ensures |MergeCloseSimpleTextItems(items)| == 0 <==> |items| == 0
    ensures forall o :: o in MergeCloseSimpleTextItems(items) ==> exists i :: i in items && i.y == o.y
  {
    var sorted := Sort(BaselineOrder, items);
    var rows := SortedRows(sorted);
    MergeRowsLength(rows);
    FlattenLength(rows);
    forall o | o in MergeCloseSimpleTextItems(items) ensures exists i :: i in items && i.y == o.y {
      MergeRowsY(rows, o);
      var k :| 0 <= k < |rows| && |rows[k]| > 0 && o.y == rows[k][0].y;
      MemberFlatten(rows, k, rows[k][0]);
      assert rows[k][0] in multiset(sorted);
    }
  }

  /** A protected input item (a 5-digit ID) appears verbatim in the output. */
  lemma MergeCloseKeepsProtected(items: seq<SimpleTextItem>, p: SimpleTextItem)
    requires p in items && IsItemProtected(p)
    ensures p in MergeCloseSimpleTextItems(items)
  {
    var sorted := Sort(BaselineOrder, items);
    var rows := SortedRows(sorted);
    assert p in multiset(sorted);
    FlattenMember(rows, p);
    var i :| 0 <= i < |rows| && p in rows[i];
    var row := rows[i];
    if row[0] == p {
      assert MergeRow(row[0], row[1..])[0] == p;
    } else {
      var j :| 0 <= j < |row| && row[j] == p;
      MergeRowKeepsProtected(row[0], row[1..], j - 1);
    }
    MergeRowsMember(rows, i, p);
  }
}
