/**
 * The earlier single-file copy of the pipeline. Its helpers
 * (`simplifyTextItem`, `isItemProtected`, `shouldBeMerged`,
 * `doYProjectionsIntersect`) are the same text as in the per-stage files and
 * share their definitions here; its four stages are modelled as the loops
 * they are, each proved to compute what the per-stage function computes.
 */
module Utils {
  import opened Wrappers
  import opened Text
  import opened TextItems
  import opened MarkRecords
  import opened Sorting
  import ItemsSimplifier
  import ItemsMerger
  import ItemsShaper
  import MarksExtractor
  import Seqs

  /** `simplifyTextItems`: the filter-then-map as a loop. */
  method SimplifyTextItems(items: seq<TextItem>) returns (simplified: seq<SimpleTextItem>)
    ensures simplified == ItemsSimplifier.FilterAndSimplifyTextItems(items)
  {
    simplified := [];
    var i := 0;
    while i < |items|
      invariant 0 <= i <= |items|
      invariant simplified == ItemsSimplifier.FilterAndSimplifyTextItems(items[..i])
    {
      var item := items[i];
      SimplifyStep(items, i);
      if ItemsSimplifier.IsKept(item) {
        simplified := simplified + [ItemsSimplifier.SimplifyTextItem(item)];
      }
      i := i + 1;
    }
    assert items[..i] == items;
  }

  /** One more raw item extends the normaliser's output by its image, if kept. */
  lemma SimplifyStep(items: seq<TextItem>, i: nat)
    requires i < |items|
    ensures ItemsSimplifier.FilterAndSimplifyTextItems(items[..i + 1])
            == ItemsSimplifier.FilterAndSimplifyTextItems(items[..i])
               + (if ItemsSimplifier.IsKept(items[i]) then [ItemsSimplifier.SimplifyTextItem(items[i])] else [])
  {
    ItemsSimplifier.FilterAndSimplifyAppend(items[..i], [items[i]]);
    ItemsSimplifier.FilterAndSimplifySingle(items[i]);
    assert items[..i + 1] == items[..i] + [items[i]];
  }

  /** `mergeCloseSimpleTextItems`: the `SortedPage` iterator and, for each
      of its rows, the fold with a mutable accumulator. */
  method MergeCloseSimpleTextItems(items: seq<SimpleTextItem>) returns (mergedItems: seq<SimpleTextItem>)
    ensures mergedItems == ItemsMerger.MergeCloseSimpleTextItems(items)
  {
    var page := Sort(BaselineOrder, items);
    mergedItems := [];
    var fromIndex := 0;
    while fromIndex < |page|
      invariant 0 <= fromIndex <= |page|
      invariant mergedItems + ItemsMerger.MergePage(page[fromIndex..]) == ItemsMerger.MergePage(page)
    {
      var toIndex := NextSortedRow(page, fromIndex);
      var rowItems := MergeSortedRow(page, fromIndex, toIndex);
      SortedRowStep(page, fromIndex, toIndex);
      Seqs.AppendAssoc(mergedItems, rowItems, ItemsMerger.MergePage(page[toIndex + 1..]));
      mergedItems := mergedItems + rowItems;
      fromIndex := toIndex + 1;
    }
  }

  /** The group-and-fold of the rest of the page is the fold of its first
      exact-y run followed by the group-and-fold of what remains. */
  lemma SortedRowStep(page: seq<SimpleTextItem>, fromIndex: nat, toIndex: nat)
    requires fromIndex <= toIndex < |page|
    requires toIndex + 1 - fromIndex == ItemsMerger.YRunLength(page[fromIndex..], page[fromIndex].y)
    ensures ItemsMerger.MergePage(page[fromIndex..])
            == ItemsMerger.MergeRow(page[fromIndex], page[fromIndex + 1..toIndex + 1])
               + ItemsMerger.MergePage(page[toIndex + 1..])
  {
    var rest := page[fromIndex..];
    ItemsMerger.MergePageUnfold(rest);
    assert rest[toIndex + 1 - fromIndex..] == page[toIndex + 1..];
    assert rest[1..toIndex + 1 - fromIndex] == page[fromIndex + 1..toIndex + 1];
  }

  /** The `SortedPage` iterator's step: the last index of the run of items
      sharing the y of the item at fromIndex. */
  method NextSortedRow(page: seq<SimpleTextItem>, fromIndex: nat) returns (toIndex: nat)
    requires fromIndex < |page|
    ensures fromIndex <= toIndex < |page|
    ensures toIndex + 1 - fromIndex == ItemsMerger.YRunLength(page[fromIndex..], page[fromIndex].y)
  {
    var rowY := page[fromIndex].y;
    toIndex := fromIndex;
    while toIndex < |page| - 1 && page[toIndex + 1].y == rowY
      invariant fromIndex <= toIndex < |page|
      invariant forall i :: fromIndex <= i <= toIndex ==> page[i].y == rowY
    {
      toIndex := toIndex + 1;
    }
    var rest := page[fromIndex..];
    forall i | 0 <= i < toIndex + 1 - fromIndex ensures rest[i].y == rowY {
      assert rest[i] == page[fromIndex + i];
    }
    if toIndex + 1 < |page| {
      assert rest[toIndex + 1 - fromIndex] == page[toIndex + 1];
    }
    ItemsMerger.YRunLengthExact(rest, rowY, toIndex + 1 - fromIndex);
  }

  /** The fold over one `SortedRow` (page[fromIndex..toIndex]): the items it
      pushes onto the output. */
  method MergeSortedRow(page: seq<SimpleTextItem>, fromIndex: nat, toIndex: nat) returns (pushed: seq<SimpleTextItem>)
    requires fromIndex <= toIndex < |page|
    ensures pushed == ItemsMerger.MergeRow(page[fromIndex], page[fromIndex + 1..toIndex + 1])
  {
    pushed := [];
    var mergedItem := page[fromIndex];
    var j := fromIndex + 1;
    while j <= toIndex
      invariant fromIndex + 1 <= j <= toIndex + 1
      invariant pushed + ItemsMerger.MergeRow(mergedItem, page[j..toIndex + 1])
                == ItemsMerger.MergeRow(page[fromIndex], page[fromIndex + 1..toIndex + 1])
    {
      var item := page[j];
      assert page[j..toIndex + 1][0] == item && page[j..toIndex + 1][1..] == page[j + 1..toIndex + 1];
      if ItemsMerger.ShouldBeMerged(mergedItem, item) {
        mergedItem := ItemsMerger.Join(mergedItem, item);
      } else {
        pushed := pushed + [mergedItem];
        mergedItem := item;
      }
      j := j + 1;
    }
    pushed := pushed + [mergedItem];
  }

  /** `groupIntoRows`: the `TablePage` iterator over the page in the order
      `TablePage` sorted it into; each row is sorted right to left. */
  method GroupIntoRows(page: seq<SimpleTextItem>) returns (rows: seq<seq<SimpleTextItem>>)
    ensures rows == ItemsShaper.GroupIntoRows(page)
  {
    rows := [];
    var fromIndex := 0;
    while fromIndex < |page|
      invariant 0 <= fromIndex <= |page|
      invariant rows + ItemsShaper.GroupIntoRows(page[fromIndex..]) == ItemsShaper.GroupIntoRows(page)
    {
      var toIndex := NextTableRow(page, fromIndex);
      var row := Sort(RightToLeft, page[fromIndex..toIndex + 1]);
      TableRowStep(page, fromIndex, toIndex);
      Seqs.AppendAssoc(rows, [row], ItemsShaper.GroupIntoRows(page[toIndex + 1..]));
      rows := rows + [row];
      fromIndex := toIndex + 1;
    }
  }

  /** The rows of the rest of the page are its first chained cluster, put
      right to left, followed by the rows of what remains. */
  lemma TableRowStep(page: seq<SimpleTextItem>, fromIndex: nat, toIndex: nat)
    requires fromIndex <= toIndex < |page|
    requires toIndex + 1 - fromIndex == ItemsShaper.ChainLength(page[fromIndex..])
    ensures ItemsShaper.GroupIntoRows(page[fromIndex..])
            == [Sort(RightToLeft, page[fromIndex..toIndex + 1])] + ItemsShaper.GroupIntoRows(page[toIndex + 1..])
  {
    var rest := page[fromIndex..];
    var k := toIndex + 1 - fromIndex;
    ItemsShaper.GroupIntoRowsUnfold(rest, k);
    Seqs.SliceOfSuffix(page, fromIndex, k);
  }

  /** The `TablePage` iterator's step: extend the row while the next item
      overlaps the last one added. */
  method NextTableRow(page: seq<SimpleTextItem>, fromIndex: nat) returns (toIndex: nat)
    requires fromIndex < |page|
    ensures fromIndex <= toIndex < |page|
    ensures toIndex + 1 - fromIndex == ItemsShaper.ChainLength(page[fromIndex..])
  {
    toIndex := fromIndex;
    var lastItem := page[toIndex];
    while toIndex < |page| - 1 && ItemsShaper.DoYProjectionsIntersect(lastItem, page[toIndex + 1])
      invariant fromIndex <= toIndex < |page| && lastItem == page[toIndex]
      invariant forall i :: fromIndex <= i < toIndex ==> ItemsShaper.DoYProjectionsIntersect(page[i], page[i + 1])
    {
      toIndex := toIndex + 1;
      lastItem := page[toIndex];
    }
    var rest := page[fromIndex..];
    var k := toIndex + 1 - fromIndex;
    forall i | 0 <= i < k - 1 ensures ItemsShaper.DoYProjectionsIntersect(rest[i], rest[i + 1]) {
      assert rest[i] == page[fromIndex + i] && rest[i + 1] == page[fromIndex + i + 1];
    }
    if k < |rest| {
      assert rest[k - 1] == page[toIndex] && rest[k] == page[toIndex + 1];
    }
    ItemsShaper.ChainLengthExact(rest, k);
  }

  /** `extractMarks`: the table loop; rows failing the ID gate are skipped. */
  method ExtractMarks(itemsTable: seq<seq<SimpleTextItem>>) returns (markRecords: seq<MarkRecord>)
    ensures markRecords == MarksExtractor.ExtractMarksFromItemsTable(itemsTable)
  {
    markRecords := [];
    var t := 0;
    while t < |itemsTable|
      invariant 0 <= t <= |itemsTable|
      invariant markRecords == MarksExtractor.ExtractMarksFromItemsTable(itemsTable[..t])
    {
      var itemsRow := itemsTable[t];
      ExtractMarksPerRow(itemsTable[..t], itemsRow);
      assert itemsTable[..t + 1] == itemsTable[..t] + [itemsRow];
      if |itemsRow| > 0 && !itemsRow[0].arabic && MarksExtractor.IsStudentIdText(itemsRow[0].value) {
        var record := ExtractRecord(itemsRow);
        markRecords := markRecords + [record];
      }
      t := t + 1;
    }
    assert itemsTable[..t] == itemsTable;
  }

  /** The body of `extractMarks` for a row that passed the ID gate: the
      scan, then the mark resolution. */
  method ExtractRecord(itemsRow: seq<SimpleTextItem>) returns (record: MarkRecord)
    requires MarksExtractor.HasStudentId(itemsRow)
    ensures MarksExtractor.ExtractMarksFromItemsRow(itemsRow) == Some(record)
  {
    var studentName, studentFatherName, marks := ScanRow(itemsRow);
    var practicalMark: Option<nat> := None;
    var theoreticalMark: Option<nat> := None;
    var examMark: Option<nat> := None;
    if |marks| == 1 {
      examMark := Some(marks[0]);
    } else if |marks| == 3 {
      practicalMark, theoreticalMark, examMark := Some(marks[0]), Some(marks[1]), Some(marks[2]);
    }
    record := MarkRecord(DecimalValue(itemsRow[0].value), studentName, studentFatherName,
                         practicalMark, theoreticalMark, examMark);
  }

  /** The item loop of `extractMarks`: every item but the ID item (index 0). */
  method ScanRow(itemsRow: seq<SimpleTextItem>)
    returns (studentName: Option<string>, studentFatherName: Option<string>, marks: seq<nat>)
    requires |itemsRow| > 0
    ensures MarksExtractor.Scan(studentName, studentFatherName, marks) == MarksExtractor.ScanItems(itemsRow[1..])
  {
    studentName, studentFatherName, marks := None, None, [];
    var j := 0;
    while j < |itemsRow|
      invariant 0 <= j <= |itemsRow|
      invariant MarksExtractor.Scan(studentName, studentFatherName, marks)
                == MarksExtractor.ScanItems(itemsRow[1..if j == 0 then 1 else j])
    {
      if j > 0 {
        ScanPrefixStep(itemsRow, j);
        studentName, studentFatherName, marks := ScanItem(studentName, studentFatherName, marks, itemsRow[j]);
      }
      j := j + 1;
    }
    assert itemsRow[1..j] == itemsRow[1..];
  }

  /** Scanning one more item of the row is one more scan step. */
  lemma ScanPrefixStep(itemsRow: seq<SimpleTextItem>, j: nat)
    requires 0 < j < |itemsRow|
    ensures MarksExtractor.ScanItems(itemsRow[1..j + 1])
            == MarksExtractor.ScanItem(MarksExtractor.ScanItems(itemsRow[1..j]), itemsRow[j])
  {
    assert itemsRow[1..j + 1][..j - 1] == itemsRow[1..j] && itemsRow[1..j + 1][j - 1] == itemsRow[j];
  }

  /** One pass of the item loop over an item other than the ID item. */
  method ScanItem(name: Option<string>, fatherName: Option<string>, marks: seq<nat>, item: SimpleTextItem)
    returns (studentName: Option<string>, studentFatherName: Option<string>, marks': seq<nat>)
    ensures MarksExtractor.Scan(studentName, studentFatherName, marks')
            == MarksExtractor.ScanItem(MarksExtractor.Scan(name, fatherName, marks), item)
  {
    studentName, studentFatherName, marks' := name, fatherName, marks;
    if |item.value| <= MarksExtractor.MaxItemLength {
      var isMark := !item.arabic && MarksExtractor.IsMarkText(item.value);
      var isArabic := item.arabic;
      if isArabic && |marks| == 0 {
        if studentName.None? {
          studentName := Some(Trim(item.value));
        } else if studentFatherName.None? {
          studentFatherName := Some(Trim(item.value));
        }
      }
      if isMark && |marks| < 3 {
        marks' := marks' + [DecimalValue(item.value)];
      }
    }
  }

  /** The prototype's `extractMarks` is the per-row extractor mapped over the
      table with the nulls dropped: a row contributes exactly its per-row
      record, and nothing when that is null. */
  lemma ExtractMarksPerRow(table: seq<seq<SimpleTextItem>>, row: seq<SimpleTextItem>)
    ensures MarksExtractor.ExtractMarksFromItemsTable(table + [row]) ==
            MarksExtractor.ExtractMarksFromItemsTable(table) +
            (match MarksExtractor.ExtractMarksFromItemsRow(row)
             case Some(rec) => [rec]
             case None => [])
  {
    MarksExtractor.ExtractTableAppend(table, [row]);
    assert [row][1..] == [];
  }
}
