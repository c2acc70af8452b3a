/**
 * The two item orders modelled (the `TablePage` comparator is left out), and
 * a stable insertion sort that realises `Array.prototype.sort` for them (JavaScript's sort is stable, and
 * both comparators are consistent total preorders).
 */
module Sorting {
  import opened TextItems

  datatype Order =
    | BaselineOrder  // comparator (a.y - b.y) || (a.x - b.x): by y, then by x, ascending
    | RightToLeft    // comparator b.x - a.x: by x, descending

  /** a may be placed before b: the comparator does not return a positive value. */
  predicate Before(o: Order, a: SimpleTextItem, b: SimpleTextItem) {
    match o
    case BaselineOrder => a.y < b.y || (a.y == b.y && a.x <= b.x)
    case RightToLeft => a.x >= b.x
  }

  lemma BeforeTotal(o: Order, a: SimpleTextItem, b: SimpleTextItem)
    ensures Before(o, a, b) || Before(o, b, a)
  {
  }

  lemma BeforeTransitive(o: Order, a: SimpleTextItem, b: SimpleTextItem, c: SimpleTextItem)
    requires Before(o, a, b) && Before(o, b, c)
    ensures Before(o, a, c)
  {
  }

  predicate Sorted(o: Order, s: seq<SimpleTextItem>) {
    forall i, j :: 0 <= i < j < |s| ==> Before(o, s[i], s[j])
  }

  /** Inserts e after the last element that may precede it (keeps equal
      elements in arrival order). */
  function Insert(o: Order, s: seq<SimpleTextItem>, e: SimpleTextItem): (r: seq<SimpleTextItem>)
    ensures multiset(r) == multiset(s) + multiset{e}
    ensures |r| == |s| + 1
  {
    if |s| == 0 then [e]
    else if Before(o, s[|s| - 1], e) then s + [e]
    else
      assert s == s[..|s| - 1] + [s[|s| - 1]];
      Insert(o, s[..|s| - 1], e) + [s[|s| - 1]]
  }

  /** Every slice of a sorted sequence is sorted. */
  lemma SortedSlice(o: Order, s: seq<SimpleTextItem>, lo: nat, hi: nat)
    requires Sorted(o, s) && lo <= hi <= |s|
    ensures Sorted(o, s[lo..hi])
  {
    var p := s[lo..hi];
    forall i, j | 0 <= i < j < |p| ensures Before(o, p[i], p[j]) {
      assert p[i] == s[lo + i] && p[j] == s[lo + j];
    }
  }

  /** An element every member may precede extends a sorted sequence. */
  lemma SortedSnoc(o: Order, s: seq<SimpleTextItem>, x: SimpleTextItem)
    requires Sorted(o, s)
    requires forall k :: 0 <= k < |s| ==> Before(o, s[k], x)
    ensures Sorted(o, s + [x])
  {
    var r := s + [x];
    forall i, j | 0 <= i < j < |r| ensures Before(o, r[i], r[j]) {
      assert r[i] == s[i];
      if j < |s| {
        assert r[j] == s[j];
      }
    }
  }

  /** Inserting into a sorted sequence keeps it sorted. */
  lemma {:induction false} InsertSorted(o: Order, s: seq<SimpleTextItem>, e: SimpleTextItem)
    requires Sorted(o, s)
    ensures Sorted(o, Insert(o, s, e))
  {
    if |s| > 0 && !Before(o, s[|s| - 1], e) {
      var init, last := s[..|s| - 1], s[|s| - 1];
      SortedSlice(o, s, 0, |s| - 1);
      InsertSorted(o, init, e);
      var ins := Insert(o, init, e);
      forall k | 0 <= k < |ins| ensures Before(o, ins[k], last) {
        InsertBelow(o, s, e, ins[k]);
      }
      SortedSnoc(o, ins, last);
    } else if |s| > 0 {
      forall k | 0 <= k < |s| ensures Before(o, s[k], e) {
        BeforeTransitive(o, s[k], s[|s| - 1], e);
      }
      SortedSnoc(o, s, e);
    }
  }

  /** Every element inserted before the last of s may precede it. */
  lemma InsertBelow(o: Order, s: seq<SimpleTextItem>, e: SimpleTextItem, x: SimpleTextItem)
    requires Sorted(o, s) && |s| > 0 && !Before(o, s[|s| - 1], e)
    requires x in multiset(Insert(o, s[..|s| - 1], e))
    ensures Before(o, x, s[|s| - 1])
  {
    var init := s[..|s| - 1];
    if x == e {
      BeforeTotal(o, s[|s| - 1], e);
    } else {
      assert x in multiset(init);
      var i :| 0 <= i < |init| && init[i] == x;
      assert s[i] == x;
    }
  }

  /** Stable insertion sort: inserts the input's elements one by one, in order. */
  function Sort(o: Order, s: seq<SimpleTextItem>): (r: seq<SimpleTextItem>)
    ensures Sorted(o, r)
    ensures multiset(r) == multiset(s)
    ensures |r| == |s|
  {
    if |s| == 0 then []
    else
      assert s == s[..|s| - 1] + [s[|s| - 1]];
      var sorted := Sort(o, s[..|s| - 1]);
      InsertSorted(o, sorted, s[|s| - 1]);
      Insert(o, sorted, s[|s| - 1])
  }

  /** Sorting a sequence that is already sorted leaves it unchanged. */
  lemma {:induction false} SortSorted(o: Order, s: seq<SimpleTextItem>)
    requires Sorted(o, s)
    ensures Sort(o, s) == s
  {
    if |s| > 0 {
      var init := s[..|s| - 1];
      SortedSlice(o, s, 0, |s| - 1);
      SortSorted(o, init);
      InsertLast(o, s);
    }
  }

  /** The last element of a sorted sequence is inserted at the end. */
  lemma InsertLast(o: Order, s: seq<SimpleTextItem>)
    requires Sorted(o, s) && |s| > 0
    ensures Insert(o, s[..|s| - 1], s[|s| - 1]) == s
  {
    var init, last := s[..|s| - 1], s[|s| - 1];
    if |init| > 0 {
      assert Before(o, init[|init| - 1], last) by {
        assert init[|init| - 1] == s[|s| - 2];
      }
    }
    assert init + [last] == s;
  }

  /** Every element may precede its right-hand neighbour. */
  predicate Chained(o: Order, s: seq<SimpleTextItem>) {
    forall i :: 0 <= i < |s| - 1 ==> Before(o, s[i], s[i + 1])
  }

  lemma ChainedAppend(o: Order, a: seq<SimpleTextItem>, b: seq<SimpleTextItem>)
    requires Chained(o, a) && Chained(o, b)
    requires |a| > 0 && |b| > 0 ==> Before(o, a[|a| - 1], b[0])
    ensures Chained(o, a + b)
  {
    var r := a + b;
    forall i | 0 <= i < |r| - 1 ensures Before(o, r[i], r[i + 1]) {
      if i < |a| - 1 {
        assert r[i] == a[i] && r[i + 1] == a[i + 1];
      } else if i == |a| - 1 {
        assert r[i] == a[i] && r[i + 1] == b[0];
      } else {
        assert r[i] == b[i - |a|] && r[i + 1] == b[i - |a| + 1];
      }
    }
  }

  /** A sequence whose neighbours are in order is sorted. */
  lemma {:induction false} ChainSorted(o: Order, s: seq<SimpleTextItem>)
    requires Chained(o, s)
    ensures Sorted(o, s)
  {
    if |s| > 1 {
      var tail := s[1..];
      forall i | 0 <= i < |tail| - 1 ensures Before(o, tail[i], tail[i + 1]) {
        assert tail[i] == s[i + 1] && tail[i + 1] == s[i + 2];
      }
      ChainSorted(o, tail);
      forall i, j | 0 <= i < j < |s| ensures Before(o, s[i], s[j]) {
        if i > 0 {
          assert s[i] == tail[i - 1] && s[j] == tail[j - 1];
        } else if j > 1 {
          assert s[1] == tail[0] && s[j] == tail[j - 1];
          BeforeTransitive(o, s[0], s[1], s[j]);
        }
      }
    }
  }
}
