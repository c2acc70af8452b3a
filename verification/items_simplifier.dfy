/**
 * The normaliser: keeps the raw items that are horizontal, non-empty and
 * visible, and projects each survivor to a SimpleTextItem.
 */
module ItemsSimplifier {
  import opened TextItems

  /** The filter of `filterAndSimplifyTextItems`: not top-to-bottom, no
      skew or rotation (only the off-diagonal terms b and c are examined),
      non-empty text, and a translation with both components non-zero. */
  predicate IsKept(item: TextItem) {
    && item.dir != Ttb
    && item.transform.b == 0.0 && item.transform.c == 0.0
    && item.str != ""
    && item.transform.e != 0.0 && item.transform.f != 0.0
  }

  /** `simplifyTextItem`: the position is the transform's translation. */
  function SimplifyTextItem(item: TextItem): (r: SimpleTextItem)
    ensures r.arabic <==> item.dir == Rtl
    ensures IsKept(item) ==> WellFormed(r)
  {
    SimpleTextItem(item.str, item.dir == Rtl, item.transform.e, item.transform.f, item.width, item.height)
  }

  /** A simplified item is well formed: non-empty text, on the page. */
  predicate WellFormed(s: SimpleTextItem) {
    s.value != "" && s.x != 0.0 && s.y != 0.0
  }

  /** `filterAndSimplifyTextItems`: filter, then map, in input order. */
  function FilterAndSimplifyTextItems(items: seq<TextItem>): (r: seq<SimpleTextItem>)
    ensures |r| <= |items|
    ensures forall o :: o in r ==> WellFormed(o)
    ensures forall o :: o in r ==> exists t :: t in items && IsKept(t) && SimplifyTextItem(t) == o
    ensures forall t :: t in items && IsKept(t) ==> SimplifyTextItem(t) in r
  {
    if |items| == 0 then []
    else
      var rest := FilterAndSimplifyTextItems(items[1..]);
      assert forall t :: t in items[1..] ==> t in items;
      if IsKept(items[0]) then [SimplifyTextItem(items[0])] + rest else rest
  }

  /** The normaliser commutes with concatenation: it is the order-preserving
      image of the kept subsequence, item by item. */
  lemma {:induction false} FilterAndSimplifyAppend(a: seq<TextItem>, b: seq<TextItem>)
    ensures FilterAndSimplifyTextItems(a + b) == FilterAndSimplifyTextItems(a) + FilterAndSimplifyTextItems(b)
  {
    if |a| == 0 {
      assert a + b == b;
    } else {
      assert (a + b)[0] == a[0];
      assert (a + b)[1..] == a[1..] + b;
      FilterAndSimplifyAppend(a[1..], b);
    }
  }

  /** A single item is kept exactly when the filter accepts it, and is then
      mapped to its simplification: arabic iff its direction is rtl,
      position from the translation, text and size copied. */
  lemma FilterAndSimplifySingle(t: TextItem)
    ensures IsKept(t) ==> FilterAndSimplifyTextItems([t]) == [SimpleTextItem(t.str, t.dir == Rtl, t.transform.e, t.transform.f, t.width, t.height)]
    ensures !IsKept(t) ==> FilterAndSimplifyTextItems([t]) == []
  {
    assert [t][1..] == [];
  }

  /** The diagonal (scale) terms of the transform play no part in the filter. */
  lemma ScaleIgnored(t: TextItem, a: real, d: real)
    ensures IsKept(t) == IsKept(t.(transform := t.transform.(a := a, d := d)))
    ensures SimplifyTextItem(t) == SimplifyTextItem(t.(transform := t.transform.(a := a, d := d)))
  {
  }

  /** An item that fails any one test of the filter is dropped without
      disturbing its neighbours. */
  lemma DropsRejected(items: seq<TextItem>, i: int)
    requires 0 <= i < |items|
    requires items[i].dir == Ttb || items[i].transform.b != 0.0 || items[i].transform.c != 0.0
          || items[i].str == "" || items[i].transform.e == 0.0 || items[i].transform.f == 0.0
    ensures FilterAndSimplifyTextItems(items) == FilterAndSimplifyTextItems(items[..i]) + FilterAndSimplifyTextItems(items[i + 1..])
  {
    assert items == items[..i] + ([items[i]] + items[i + 1..]);
    FilterAndSimplifyAppend(items[..i], [items[i]] + items[i + 1..]);
    FilterAndSimplifyAppend([items[i]], items[i + 1..]);
    FilterAndSimplifySingle(items[i]);
  }
}
