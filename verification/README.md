# OurMarks page pipeline — a Dafny model

OurMarks reads the student mark sheets of a university's PDF transcripts. A
page's positioned text fragments pass through four pure stages, each
modelled here as functions over immutable sequences:

1. the **normaliser** (`filterAndSimplifyTextItems`) keeps the horizontal,
   non-empty, visible fragments and projects them to `SimpleTextItem`s;
2. the **merger** (`mergeCloseSimpleTextItems`) sorts the page by (y, x),
   groups items of exactly equal baseline y, and folds every group left to
   right, joining a neighbour into the accumulator when both have the same
   height, neither is a protected five-digit ID, and the neighbour starts
   within a tenth of the height past the accumulator's right edge;
3. the **row shaper** (`groupIntoRows`) cuts the page into table rows by
   chained vertical overlap and puts every row right to left;
4. the **record extractor** (`extractMarksFromItemsTable`) applies the row
   grammar: an ID gate on the first item, up to two Arabic name slots before
   the first mark, and up to three 1–3 digit marks resolved by their count.

`src/lib/utils.ts` is the earlier single-file copy of the same stages. It is
modelled by the `Utils` module as the loops it is written as. Each loop is
proved to compute exactly what the per-stage function computes.

Layout, one module per source file:

- `text_items.dfy` (`TextItems`) holds the raw and simplified text items.
- `mark_record.dfy` (`MarkRecords`) and `wrappers.dfy` (`Option` for the
  nullable fields) hold the output records.
- The four stages are `items_simplifier.dfy`, `items_merger.dfy` (with
  `items_merger_idempotence.dfy` and `items_merger_text.dfy`),
  `items_shaper.dfy` and
  `marks_extractor.dfy`.
- `pipeline.dfy` composes them as `extractMarksFromPage` does.
- `utils.dfy` is the prototype copy.

Shared helpers:

- `text.dfy` holds the ASCII digit class `\d`, the value `parseInt` gives a
  digit string, and `String.prototype.trim`.
- `seqs.dfy` holds positional access, prefixes and flattening.
- `sorting.dfy` holds a stable insertion sort for the two comparators
  modelled (the `TablePage` comparator is left out).

Coordinates and sizes are `real`s, so every comparison is exact. The
`arabic` field, a `'true' | 'false'` string in the source, is a `bool`.

## Model

| member | source | states |
|---|---|---|
| ItemsSimplifier.FilterAndSimplifyTextItems | src/items-simplifier.ts:27-35 | the output is no longer than the input; every output item has a non-empty value and non-zero x and y, and is the projection of an input item that passes the filter; every input item that passes the filter has its projection in the output |
| ItemsSimplifier.IsKept | src/items-simplifier.ts:29-33 | the filter's five tests; `FilterAndSimplifySingle` shows an item is kept iff it passes them, `DropsRejected` that failing any one drops it, `ScaleIgnored` that the scale terms play no part |
| ItemsSimplifier.SimplifyTextItem | src/items-simplifier.ts:10-19 | the projection is Arabic iff the direction is rtl, and the projection of an item that passes the filter has a non-empty value and non-zero x and y; `FilterAndSimplifySingle` states the field-by-field mapping |
| ItemsSimplifier.FilterAndSimplifySingle | src/items-simplifier.ts:10-19 | a single item is kept exactly when the filter accepts it, and becomes value = str, arabic iff dir is rtl (ltr gives false), x = transform[4], y = transform[5], width and height copied |
| ItemsSimplifier.FilterAndSimplifyAppend | src/items-simplifier.ts:28-34 | the normaliser distributes over concatenation, so its output is the order-preserving image of the kept subsequence |
| ItemsSimplifier.ScaleIgnored | src/items-simplifier.ts:31 | the scale terms transform[0] and transform[3] affect neither the filter nor the projection; only the off-diagonal terms are examined |
| ItemsSimplifier.DropsRejected | src/items-simplifier.ts:29-33 | an item that is ttb, skewed, empty, or has a zero translation component is dropped and its neighbours' images are unaffected |
| ItemsMerger.ShouldBeMergedRules | src/items-merger.ts:103-110 | a height mismatch forbids a merge; a protected (five-digit) side forbids a merge; otherwise the merge happens iff the candidate's x is at most a tenth of the height past the accumulator's right edge |
| ItemsMerger.IsItemProtected | src/items-merger.ts:91-94 | exactly five ASCII digits; its effect is stated by `ShouldBeMergedRules` (a protected side never merges), `MergeRowKeepsProtected` and `MergeCloseKeepsProtected` (protected items pass through verbatim), and `MarksExtractor.StudentIdIsProtected` (every ID-gate value is protected) |
| ItemsMerger.ShouldBeMerged | src/items-merger.ts:103-110 | the merge rule, whose three cases are stated by `ShouldBeMergedRules` |
| ItemsMerger.Join | src/items-merger.ts:128-131 | a merge step keeps the accumulator's x, y and height, moves its right edge to the candidate's right edge, prepends the candidate's text, and or-s the Arabic flags |
| ItemsMerger.MergeRow | src/items-merger.ts:126-138 | the fold of a row emits between one item and one per visited item; the first emitted item keeps the first item's anchor and height, and is that item unchanged when it is protected; `MergerText.MergeRowText` states that the fold keeps the row's text |
| ItemsMerger.MergeRowKeepsProtected | src/items-merger.ts:126-135 | a protected item of a row appears verbatim in the fold's output: it is never absorbed and absorbs nothing |
| ItemsMerger.MergeRowSettled | src/items-merger.ts:128-135 | no two neighbours of a row's output satisfy the merge rule any more |
| ItemsMerger.MergeRowOfSettled | src/items-merger.ts:126-138 | folding a row in which no neighbours satisfy the merge rule gives the row back |
| ItemsMerger.MergeRowSameY | src/items-merger.ts:126-138 | every item a row's fold emits lies on the row's baseline |
| ItemsMerger.MergeRowAscendingX | src/items-merger.ts:126-138 | a row visited by ascending x is emitted in ascending x |
| ItemsMerger.YRunLength | src/items-merger.ts:74-75 | the run of items sharing the first baseline is maximal: all its items have that y and the next item does not |
| ItemsMerger.YRunLengthExact | src/items-merger.ts:74-75 | any prefix with those two properties has exactly the run's length |
| ItemsMerger.SortedRows | src/items-merger.ts:58-81 | the `SortedPage` rows partition the page: their concatenation is the page, every row is non-empty, all items of a row share its y, and consecutive rows differ in y |
| ItemsMerger.MergeRowsLength | src/items-merger.ts:123-139 | folding non-empty rows emits no more items than the rows hold, and nothing exactly when there are no rows |
| ItemsMerger.MergeCloseShape | src/items-merger.ts:119-142 | the merger's output is no longer than its input, is empty iff the input is, and every output item's y is the y of some input item |
| ItemsMerger.MergeCloseKeepsProtected | src/items-merger.ts:119-142 | every protected input item appears verbatim in the merger's output |
| ItemsMerger.MergeCloseSimpleTextItems | src/items-merger.ts:119-142 | sort by (y, x), then group by exact y and fold; its properties are stated by `MergeCloseShape`, `MergeCloseKeepsProtected`, `MergerText.MergeCloseText` and `MergerIdempotence.MergeCloseIdempotent`, and `Utils.MergeCloseSimpleTextItems` proves the source's loop computes it |
| MergerIdempotence.MergePageFixpoint | src/items-merger.ts:58-81 | grouping and folding the output of a group-and-fold gives that output back |
| MergerIdempotence.MergePageSorted | src/items-merger.ts:49-52 | when the page is in (y, x) order, so is the output of the group-and-fold |
| MergerIdempotence.MergeCloseIdempotent | src/items-merger.ts:119-142 | running the merger on its own output changes nothing |
| MergerText.MergeRowText | src/items-merger.ts:126-138 | reading the fold's output from its last item to its first gives the row's values read the same way: every merged candidate's text is prepended to the accumulator's, none is dropped, duplicated or reordered |
| MergerText.MergeRowsText | src/items-merger.ts:123-139 | folding every row keeps the right-to-left text of the rows taken together |
| MergerText.MergePageText | src/items-merger.ts:58-81 | grouping a page into exact-y rows and folding them keeps the page's right-to-left text |
| MergerText.RightToLeftPermutation | src/items-merger.ts:51 | re-ordering the items (as the sort does) keeps the characters of their text, with multiplicity |
| MergerText.MergeCloseText | src/items-merger.ts:119-142 | the merger's output read right to left is the (y, x)-sorted input read right to left, so it carries every input character as often as the input does and the total text length is unchanged |
| Sorting.Sort | src/items-merger.ts:51 | the sort's result is ordered by the comparator (pairwise) and is a permutation of its input |
| Sorting.SortSorted | src/items-merger.ts:51 | a sequence that is already in comparator order is left unchanged |
| ItemsShaper.IntersectSymmetric | src/items-shaper.ts:53-57 | the overlap test is symmetric, and reflexive for items of non-negative height |
| ItemsShaper.IntersectIffCommonPoint | src/items-shaper.ts:53-57 | for non-negative heights, two items pass the overlap test iff their closed vertical extents [y, y + height] share a point |
| ItemsShaper.DoYProjectionsIntersect | src/items-shaper.ts:53-57 | the overlap test; `IntersectSymmetric` and `IntersectIffCommonPoint` state it is symmetric and is exactly "the closed vertical extents share a point" |
| ItemsShaper.ChainLength | src/items-shaper.ts:30-36 | the iterator's row extends while each next item overlaps the last one added, and stops at the first that does not |
| ItemsShaper.Clusters | src/items-shaper.ts:15-44 | the iterator's rows in page order, characterised by `ClustersCut` (they form a row cut of the page) and `RowCutUnique` (no other cut has those properties) |
| ItemsShaper.ClustersCut | src/items-shaper.ts:15-44 | the iterator's rows cut the page: they concatenate to the page, each is non-empty with chained overlap, and each row's first item does not overlap the previous row's last item |
| ItemsShaper.RowCutUnique | src/items-shaper.ts:15-44 | a cut with those three properties is unique: it is the iterator's |
| ItemsShaper.GroupIntoRowsRows | src/items-shaper.ts:40 | there are as many rows as clusters, and row i is sorted by descending x and is a permutation of cluster i |
| ItemsShaper.RowsNonEmpty | src/items-shaper.ts:20-41 | no emitted row is empty |
| ItemsShaper.GroupIntoRowsPermutation | src/items-shaper.ts:69-71 | the rows together are a permutation of the page, so no item is lost or duplicated; there are at most as many rows as items, and none iff the page is empty |
| ItemsShaper.GroupIntoRows | src/items-shaper.ts:69-71 | the clusters, each put right to left; stated by `GroupIntoRowsRows`, `RowsNonEmpty` and `GroupIntoRowsPermutation`, and `Utils.GroupIntoRows` proves the source's loop computes it |
| MarksExtractor.StudentIdRange | src/marks-extractor.ts:15-19 | a value that passes the ID gate parses to a number in [10000, 59999] |
| MarksExtractor.MarkRange | src/marks-extractor.ts:35-43 | a value that passes the mark test parses to a number in [0, 999] |
| Text.DecimalValue | src/marks-extractor.ts:19 | `parseInt` of a digit string; `Text.DecimalValueBound` bounds it below 10^n for n digits and `Text.DecimalValueRange` places it between d·10^(n-1) and (d+1)·10^(n-1) for leading digit d, from which `StudentIdRange` and `MarkRange` follow |
| Text.DecimalValueBound | src/marks-extractor.ts:43 | a string of n digits parses to a number below 10^n |
| Text.DecimalValueRange | src/marks-extractor.ts:15-19 | a digit string with leading digit d and n digits parses to a number in [d·10^(n-1), (d+1)·10^(n-1)) |
| MarksExtractor.StudentIdIsProtected | src/items-merger.ts:91-94 | a value that passes the ID gate is protected from merging, so an ID that arrives as a single fragment reaches the extractor intact; joined unprotected fragments can still form a value the gate accepts |
| Text.Trim | src/marks-extractor.ts:39-40 | trim returns the slice left after removing every leading and trailing ECMAScript whitespace code point; a non-empty result neither starts nor ends with whitespace |
| Text.TrimIdempotent | src/marks-extractor.ts:39-40 | trimming a trimmed name changes nothing |
| MarksExtractor.ScanItems | src/marks-extractor.ts:29-44 | the scan collects at most three marks, each at most 999, and fills the father's name only after the student's name |
| MarksExtractor.ScanItem | src/marks-extractor.ts:30-43 | one pass of the item loop; `ScanItemMarks` states that a mark item is appended while fewer than three marks are held, `ScanItemNames` that a name item fills the next free name slot while no mark has been collected; over-long items change nothing |
| MarksExtractor.ScanItemMarks | src/marks-extractor.ts:35-43 | one step appends a non-Arabic 1–3 digit item's value exactly when fewer than three marks are held |
| MarksExtractor.ScanItemNames | src/marks-extractor.ts:33-41 | one step fills the name slot, else the father's slot, with the trimmed text of an Arabic item of length at most 255, only while no mark is held; otherwise both slots are unchanged |
| MarksExtractor.ScanItemsMarks | src/marks-extractor.ts:35-43 | the collected marks are the first three values of non-Arabic 1–3 digit items, in row order |
| MarksExtractor.ScanItemsNames | src/marks-extractor.ts:38-41 | the two name slots hold the first two trimmed texts of Arabic items of length at most 255 that come before the first mark item |
| MarksExtractor.ResolveMarks | src/marks-extractor.ts:46-49 | one mark sets the exam mark alone; three marks set practical, theoretical and exam to the first, second and third; any other count sets none: practical is set iff there are three marks, together with theoretical, and exam is set iff there are one or three, and is then the last |
| MarksExtractor.ExtractMarksFromItemsRow | src/marks-extractor.ts:10-52 | the row yields null iff it is empty, its first item is Arabic, or that item's value is not `[1-5]` plus four digits; a record's ID is in [10000, 59999]; practical and theoretical are set together; a father's name implies a name |
| MarksExtractor.ExtractRowFields | src/marks-extractor.ts:18-49 | an accepted row's record has its ID item's value as ID and the first two name texts before the first mark as names, and the ID item contributes nothing; against the list of all mark values of the row: one value is the exam mark alone, three or more give practical, theoretical and exam in row order (later ones are ignored), none or two set no mark |
| MarksExtractor.ExtractMarksFromItemsTable | src/marks-extractor.ts:60-69 | there are never more records than rows |
| MarksExtractor.ExtractTableRecords | src/marks-extractor.ts:60-69 | every record comes from a table row and has its ID in [10000, 59999]; every row that passes the ID gate contributes its record |
| MarksExtractor.ExtractTableAppend | src/marks-extractor.ts:63-66 | the table extractor distributes over concatenation, so records come out in row order |
| Pipeline.ExtractMarksFromPage | src/index.ts:22-30 | for any table order that permutes the merged items, the page yields no more records than raw items, each with an ID in [10000, 59999] |
| Utils.SimplifyTextItems | src/lib/utils.ts:30-38 | the prototype's normaliser loop computes the normaliser's output |
| Utils.MergeCloseSimpleTextItems | src/lib/utils.ts:149-172 | the prototype's merge loop computes the merger's output |
| Utils.NextSortedRow | src/lib/utils.ts:105-112 | the `SortedPage` step ends the row at the last item of the current baseline's run |
| Utils.MergeSortedRow | src/lib/utils.ts:154-168 | the accumulator fold over one row pushes exactly the row's fold |
| Utils.GroupIntoRows | src/lib/utils.ts:183-224 | the prototype's `TablePage` iteration computes the shaper's rows |
| Utils.NextTableRow | src/lib/utils.ts:193-206 | the `TablePage` step ends the row at the maximal chained prefix |
| Utils.ExtractMarks | src/lib/utils.ts:238-286 | the prototype's table loop computes the per-stage table extractor's records |
| Utils.ExtractRecord | src/lib/utils.ts:249-282 | for a row that passes the gate, the inlined record equals the per-row extractor's record |
| Utils.ScanRow | src/lib/utils.ts:258-275 | the inlined item loop, skipping the ID item, computes the per-row scan |
| Utils.ScanItem | src/lib/utils.ts:262-274 | one inlined loop pass is one step of the per-row scan |
| Utils.ExtractMarksPerRow | src/lib/utils.ts:241-283 | `extractMarks` maps the per-row extractor over the table and drops the nulls: one more row adds exactly its per-row record |

## Left out

- PDF acquisition (`getTextItems`, `parseTextItems`) and the async page and document loops of `src/index.ts` are left out. The raw items are an input sequence, and `Pipeline.ExtractMarksFromPage` composes the four stages for one page.
- The sort inside `TablePage` (src/items-shaper.ts:10-12 and src/lib/utils.ts:178-180) is left out. Its comparator is not transitive, so its result depends on the engine's sort algorithm. The shaper takes the page order as a parameter; the pipeline assumes only that it is a permutation of the merged items.
- Floating-point rounding in `height / 10` and in the width arithmetic is not modelled; coordinates are exact reals. NaN and infinite coordinates are not modelled either.
- Text length is counted in Unicode code points, not UTF-16 code units. The 255-character cut-off therefore differs from the source for names outside the Basic Multilingual Plane.
- `item === studentIdItem` compares object identity. The model skips index 0 instead. This is the same thing unless a row holds the same object twice, which the shaper's slices and the merger's copies never produce.
- `src/lib/utils.ts` calls `Number.parseInt` without a radix. On the digit strings it is applied to, the result equals the radix-10 parse the model uses.
- That the inputs are not mutated (the sorts work on copies; the fold copies items with `{...item}`) holds trivially: every value in the model is immutable.
- ItemsMerger.MergeRow: the contracts fix the fold's text in order (`MergerText.MergeRowText`) but not which contiguous run of the row each output item's value is built from; that segmentation is fixed only by the fold's definition and the merge rule.
- Sorting.Sort: stability is modelled by the insertion order but not stated as a separate property beyond `Sorting.SortSorted`.
- Scripts, CSV and drawing glue (`src/prototype.ts`, `src/extract_marks.ts`, `scripts/visualize.ts`, `prototype/*`), the snapshot tests and the Jest configuration are left out.
