/**
 * `extractMarksFromPage` once the page's raw items are in hand: normalise,
 * merge, shape into rows, extract records.
 */
module Pipeline {
  import opened TextItems
  import opened MarkRecords
  import ItemsSimplifier
  import ItemsMerger
  import ItemsShaper
  import MarksExtractor

  /** The merged items of a page, before they are arranged into a table. */
  function MergedItems(raw: seq<TextItem>): (r: seq<SimpleTextItem>) {
    ItemsMerger.MergeCloseSimpleTextItems(ItemsSimplifier.FilterAndSimplifyTextItems(raw))
  }

  /** The page pipeline. tableOrder is the order `TablePage` sorts the merged
      items into; only its being a permutation of them is assumed. */
  function ExtractMarksFromPage(raw: seq<TextItem>, tableOrder: seq<SimpleTextItem>): (records: seq<MarkRecord>)
    requires multiset(tableOrder) == multiset(MergedItems(raw))
    ensures |records| <= |raw|
    ensures forall rec :: rec in records ==> 10000 <= rec.studentId <= 59999
  {
    var simplified := ItemsSimplifier.FilterAndSimplifyTextItems(raw);
    ItemsMerger.MergeCloseShape(simplified);
    assert |tableOrder| == |multiset(tableOrder)|;
    ItemsShaper.GroupIntoRowsPermutation(tableOrder);
    MarksExtractor.ExtractTableRecords(ItemsShaper.GroupIntoRows(tableOrder));
    MarksExtractor.ExtractMarksFromItemsTable(ItemsShaper.GroupIntoRows(tableOrder))
  }
}
