/**
 * The row shaper: clusters the page's items into table rows by chained
 * vertical overlap, walking the page in the order `TablePage` sorted it
 * into, and outputs every row right to left.
 */
module ItemsShaper {
  import opened TextItems
  import opened Seqs
  import opened Sorting

  /** `TablePage.doYProjectionsIntersect`: one item's baseline lies inside
      the other's vertical extent [y, y + height]. */
  predicate DoYProjectionsIntersect(a: SimpleTextItem, b: SimpleTextItem) {
    || (a.y >= b.y && a.y <= b.y + b.height)
    || (b.y >= a.y && b.y <= a.y + a.height)
  }

  /** The test is symmetric, and reflexive for items of non-negative height. */
  lemma IntersectSymmetric(a: SimpleTextItem, b: SimpleTextItem)
    ensures DoYProjectionsIntersect(a, b) == DoYProjectionsIntersect(b, a)
    ensures a.height >= 0.0 ==> DoYProjectionsIntersect(a, a)
  {
  }

  /** t lies in both vertical extents. */
  predicate SharedHeight(a: SimpleTextItem, b: SimpleTextItem, t: real) {
    a.y <= t <= a.y + a.height && b.y <= t <= b.y + b.height
  }

  /** For items of non-negative height the test holds exactly when the two
      closed intervals [y, y + height] share a point. */
  lemma IntersectIffCommonPoint(a: SimpleTextItem, b: SimpleTextItem)
    requires a.height >= 0.0 && b.height >= 0.0
    ensures DoYProjectionsIntersect(a, b) <==> exists t: real :: SharedHeight(a, b, t)
  {
    if DoYProjectionsIntersect(a, b) {
      var t := if a.y >= b.y then a.y else b.y;
      assert SharedHeight(a, b, t);
    }
  }

  /** Length of the maximal chained prefix of s: each item overlaps the one
      just before it, and the next item (if any) does not. */
  function ChainLength(s: seq<SimpleTextItem>): (k: nat)
    requires |s| > 0
    ensures 1 <= k <= |s|
    ensures forall i :: 0 <= i < k - 1 ==> DoYProjectionsIntersect(s[i], s[i + 1])
    ensures k < |s| ==> !DoYProjectionsIntersect(s[k - 1], s[k])
  {
    if |s| >= 2 && DoYProjectionsIntersect(s[0], s[1]) then 1 + ChainLength(s[1..]) else 1
  }

  /** Consecutive members of a part overlap each other. */
  predicate ChainedByOverlap(c: seq<SimpleTextItem>) {
    forall i :: 0 <= i < |c| - 1 ==> DoYProjectionsIntersect(c[i], c[i + 1])
  }

  /** A cut of the page into rows as the iterator of `TablePage` makes it:
      non-empty parts, chained inside, and broken exactly where the next
      item does not overlap the previous part's last item. */
  predicate IsRowCut(page: seq<SimpleTextItem>, parts: seq<seq<SimpleTextItem>>) {
    && Flatten(parts) == page
    && (forall i :: 0 <= i < |parts| ==> |parts[i]| > 0 && ChainedByOverlap(parts[i]))
    && (forall i :: 0 <= i < |parts| - 1 ==>
          !DoYProjectionsIntersect(parts[i][|parts[i]| - 1], parts[i + 1][0]))
  }

  /** The iterator of `TablePage` over the page in its given order: rows in
      page order, each in page order. */
  function Clusters(page: seq<SimpleTextItem>): (r: seq<seq<SimpleTextItem>>)
    decreases |page|
  {
    if |page| == 0 then []
    else
      var k := ChainLength(page);
      [page[..k]] + Clusters(page[k..])
  }

  /** The iterator's rows form a row cut of the page. */
  lemma {:induction false} ClustersCut(page: seq<SimpleTextItem>)
    ensures IsRowCut(page, Clusters(page))
    decreases |page|
  {
    if |page| > 0 {
      var k := ChainLength(page);
      var first := page[..k];
      var tail := Clusters(page[k..]);
      ClustersCut(page[k..]);
      var parts := Clusters(page);
      assert parts == [first] + tail;
      assert parts[1..] == tail;
      assert Flatten(parts) == page by {
        assert first + page[k..] == page;
      }
      assert ChainedByOverlap(first) by {
        forall i | 0 <= i < |first| - 1 ensures DoYProjectionsIntersect(first[i], first[i + 1]) {
          assert first[i] == page[i] && first[i + 1] == page[i + 1];
        }
      }
      forall i | 0 <= i < |parts| - 1
        ensures !DoYProjectionsIntersect(parts[i][|parts[i]| - 1], parts[i + 1][0])
      {
        if i == 0 {
          assert parts[0][k - 1] == page[k - 1] && parts[1][0] == page[k];
        } else {
          assert parts[i] == tail[i - 1] && parts[i + 1] == tail[i];
        }
      }
      forall i | 0 <= i < |parts| ensures |parts[i]| > 0 && ChainedByOverlap(parts[i]) {
        if i > 0 {
          assert parts[i] == tail[i - 1];
        }
      }
    }
  }

  /** The cut is unique: any cut with the three properties is the iterator's. */
  lemma {:induction false} RowCutUnique(page: seq<SimpleTextItem>, parts: seq<seq<SimpleTextItem>>)
    requires IsRowCut(page, parts)
    ensures parts == Clusters(page)
    decreases |page|
  {
    if |parts| > 0 {
      var first := parts[0];
      var tail := parts[1..];
      assert page == first + Flatten(tail);
      ChainLengthOfCut(first, Flatten(tail), tail);
      var k := ChainLength(page);
      assert page[..k] == first && page[k..] == Flatten(tail);
      assert IsRowCut(page[k..], tail) by {
        forall i | 0 <= i < |tail| - 1
          ensures !DoYProjectionsIntersect(tail[i][|tail[i]| - 1], tail[i + 1][0])
        {
          assert tail[i] == parts[i + 1] && tail[i + 1] == parts[i + 2];
        }
      }
      RowCutUnique(page[k..], tail);
    } else {
      assert page == [];
    }
  }

  /** The chained prefix of a cut page is its first part. */
  lemma ChainLengthOfCut(first: seq<SimpleTextItem>, rest: seq<SimpleTextItem>, tail: seq<seq<SimpleTextItem>>)
    requires |first| > 0 && ChainedByOverlap(first)
    requires Flatten(tail) == rest
    requires |tail| > 0 ==> |tail[0]| > 0 && !DoYProjectionsIntersect(first[|first| - 1], tail[0][0])
    ensures ChainLength(first + rest) == |first|
  {
    var page := first + rest;
    forall i | 0 <= i < |first| - 1 ensures DoYProjectionsIntersect(page[i], page[i + 1]) {
      assert page[i] == first[i] && page[i + 1] == first[i + 1];
    }
    if |rest| > 0 {
      assert tail[0][0] == rest[0];
      assert page[|first| - 1] == first[|first| - 1] && page[|first|] == rest[0];
    }
    ChainLengthExact(page, |first|);
  }

  /** The maximal chained prefix ends where the chain first breaks. */
  lemma ChainLengthExact(s: seq<SimpleTextItem>, m: nat)
    requires 1 <= m <= |s|
    requires forall i :: 0 <= i < m - 1 ==> DoYProjectionsIntersect(s[i], s[i + 1])
    requires m < |s| ==> !DoYProjectionsIntersect(s[m - 1], s[m])
    ensures ChainLength(s) == m
  {
    ChainLengthAtLeast(s, m);
  }

  /** A chained prefix of length m is part of the maximal one. */
  lemma {:induction false} ChainLengthAtLeast(s: seq<SimpleTextItem>, m: nat)
    requires 1 <= m <= |s|
    requires forall i :: 0 <= i < m - 1 ==> DoYProjectionsIntersect(s[i], s[i + 1])
    ensures ChainLength(s) >= m
  {
    if m > 1 {
      var t := s[1..];
      forall i | 0 <= i < m - 2 ensures DoYProjectionsIntersect(t[i], t[i + 1]) {
        assert t[i] == s[i + 1] && t[i + 1] == s[i + 2];
      }
      ChainLengthAtLeast(t, m - 1);
    }
  }

  /** `groupIntoRows` over the page in the order `TablePage` sorted it into:
      the iterator's clusters in page order, each sorted right to left by
      descending x. */
  function GroupIntoRows(page: seq<SimpleTextItem>): (r: seq<seq<SimpleTextItem>>)
    decreases |page|
  {
    if |page| == 0 then []
    else
      var k := ChainLength(page);
      [Sort(RightToLeft, page[..k])] + GroupIntoRows(page[k..])
  }

  /** The rows of a non-empty page: its first cluster, then the rest. */
  lemma GroupIntoRowsUnfold(page: seq<SimpleTextItem>, k: nat)
    requires |page| > 0 && k == ChainLength(page)
    ensures GroupIntoRows(page) == [Sort(RightToLeft, page[..k])] + GroupIntoRows(page[k..])
  {
  }

  /** Row i is cluster i of the page, put in right-to-left order. */
  lemma {:induction false} GroupIntoRowsRows(page: seq<SimpleTextItem>)
    ensures |GroupIntoRows(page)| == |Clusters(page)|
    ensures forall i :: 0 <= i < |GroupIntoRows(page)| ==>
              && Sorted(RightToLeft, GroupIntoRows(page)[i])
              && multiset(GroupIntoRows(page)[i]) == multiset(Clusters(page)[i])
    decreases |page|
  {
    if |page| > 0 {
      var k := ChainLength(page);
      GroupIntoRowsRows(page[k..]);
      var rows, parts := GroupIntoRows(page), Clusters(page);
      var rows', parts' := GroupIntoRows(page[k..]), Clusters(page[k..]);
      var row := Sort(RightToLeft, page[..k]);
      assert rows == [row] + rows';
      assert parts == [page[..k]] + parts';
      forall i | 0 <= i < |rows|
        ensures Sorted(RightToLeft, rows[i]) && multiset(rows[i]) == multiset(parts[i])
      {
        if i == 0 {
          assert rows[0] == row && parts[0] == page[..k];
        } else {
          assert rows[i] == rows'[i - 1] && parts[i] == parts'[i - 1];
        }
      }
    }
  }

  /** Every row is non-empty. */
  lemma RowsNonEmpty(page: seq<SimpleTextItem>)
    ensures forall i :: 0 <= i < |GroupIntoRows(page)| ==> |GroupIntoRows(page)[i]| > 0
  {
    ClustersCut(page);
    GroupIntoRowsRows(page);
    forall i | 0 <= i < |GroupIntoRows(page)| ensures |GroupIntoRows(page)[i]| > 0 {
      assert |multiset(GroupIntoRows(page)[i])| == |Clusters(page)[i]|;
    }
  }

  lemma {:induction false} FlattenPermutation(parts: seq<seq<SimpleTextItem>>, rows: seq<seq<SimpleTextItem>>)
    requires |rows| == |parts|
    requires forall i :: 0 <= i < |rows| ==> multiset(rows[i]) == multiset(parts[i])
    ensures multiset(Flatten(rows)) == multiset(Flatten(parts))
  {
    if |rows| > 0 {
      FlattenPermutation(parts[1..], rows[1..]);
    }
  }

  /** No item is lost or duplicated: the rows together are a permutation of
      the page, and there are at most as many rows as items. */
  lemma GroupIntoRowsPermutation(page: seq<SimpleTextItem>)
    ensures multiset(Flatten(GroupIntoRows(page))) == multiset(page)
    ensures |GroupIntoRows(page)| <= |page|
    ensures |GroupIntoRows(page)| == 0 <==> |page| == 0
  {
    var parts := Clusters(page);
    ClustersCut(page);
    GroupIntoRowsRows(page);
    FlattenPermutation(parts, GroupIntoRows(page));
    FlattenLength(parts);
  }
}
