/**
 * The record extractor: applies the fixed row grammar (student ID, up to
 * two Arabic name slots before the first mark, up to three marks) to each
 * table row, right to left.
 */
module MarksExtractor {
  import opened Wrappers
  import opened Text
  import opened TextItems
  import opened MarkRecords
  import ItemsMerger
  import opened Seqs

  /** Items longer than this are malformed and ignored. */
  const MaxItemLength := 255

  /** `^[1-5]\d{4}$`. */
  predicate IsStudentIdText(v: string) {
    |v| == 5 && AllDigits(v) && '1' <= v[0] <= '5'
  }

  /** `^\d{1,3}$`. */
  predicate IsMarkText(v: string) {
    1 <= |v| <= 3 && AllDigits(v)
  }

  /** The ID gate: the row's first (rightmost) item is a non-Arabic student ID. */
  predicate HasStudentId(row: seq<SimpleTextItem>) {
    |row| > 0 && !row[0].arabic && IsStudentIdText(row[0].value)
  }

  /** A student ID denotes a number in [10000, 59999]. */
  lemma StudentIdRange(v: string)
    requires IsStudentIdText(v)
    ensures 10000 <= DecimalValue(v) <= 59999
  {
    DecimalValueRange(v);
    assert Pow10(4) == 10000;
  }

  /** A mark denotes a number in [0, 999]. */
  lemma MarkRange(v: string)
    requires IsMarkText(v)
    ensures DecimalValue(v) <= 999
  {
    DecimalValueBound(v);
    assert Pow10(3) == 1000;
    assert Pow10(|v|) <= Pow10(3);
  }

  lemma MarkItemRange(item: SimpleTextItem)
    ensures IsMarkItem(item) ==> DecimalValue(item.value) <= 999
  {
    if IsMarkItem(item) {
      MarkRange(item.value);
    }
  }

  /** Every value the ID gate accepts is one the merger protects, so an ID
      that arrives as a single fragment reaches the extractor unchanged.
      Joining unprotected fragments (say "345" and "12") can still build a
      value the gate accepts. */
  lemma StudentIdIsProtected(item: SimpleTextItem)
    requires IsStudentIdText(item.value)
    ensures ItemsMerger.IsItemProtected(item)
  {
  }

  /** An item that contributes a mark: non-Arabic, one to three digits. */
  predicate IsMarkItem(item: SimpleTextItem) {
    !item.arabic && IsMarkText(item.value)
  }

  /** An item that may fill a name slot: Arabic and not over-long. */
  predicate IsNameItem(item: SimpleTextItem) {
    item.arabic && |item.value| <= MaxItemLength
  }

  /** What the scan of a row has collected so far. */
  datatype Scan = Scan(name: Option<string>, fatherName: Option<string>, marks: seq<nat>)

  /** One iteration of the scan loop. */
  function ScanItem(st: Scan, item: SimpleTextItem): (r: Scan) {
    if |item.value| > MaxItemLength then st
    else
      var named :=
        if item.arabic && |st.marks| == 0 then
          if st.name.None? then st.(name := Some(Trim(item.value)))
          else if st.fatherName.None? then st.(fatherName := Some(Trim(item.value)))
          else st
        else st;
      if IsMarkItem(item) && |st.marks| < 3 then named.(marks := named.marks + [DecimalValue(item.value)])
      else named
  }

  /** The scan over items (the row after its ID item), left to right. */
  function ScanItems(items: seq<SimpleTextItem>): (st: Scan)
    ensures |st.marks| <= 3
    ensures forall m :: m in st.marks ==> m <= 999
    ensures st.fatherName.Some? ==> st.name.Some?
  {
    if |items| == 0 then Scan(None, None, [])
    else
      var item := items[|items| - 1];
      var st := ScanItems(items[..|items| - 1]);
      MarkItemRange(item);
      ScanItem(st, item)
  }

  /** The value of every mark item, in row order. */
  function MarkValues(items: seq<SimpleTextItem>): (ms: seq<nat>)
    ensures |ms| <= |items|
  {
    if |items| == 0 then []
    else
      var item := items[|items| - 1];
      MarkValues(items[..|items| - 1]) + (if IsMarkItem(item) then [DecimalValue(item.value)] else [])
  }

  /** The index of the first mark item, or |items| when there is none. */
  function FirstMarkIndex(items: seq<SimpleTextItem>): (k: nat)
    ensures k <= |items|
    ensures forall i :: 0 <= i < k ==> !IsMarkItem(items[i])
    ensures k < |items| ==> IsMarkItem(items[k])
  {
    if |items| == 0 then 0
    else
      var k := FirstMarkIndex(items[..|items| - 1]);
      if k < |items| - 1 || IsMarkItem(items[|items| - 1]) then k else |items|
  }

  /** The trimmed text of every name item, in row order. */
  function NameTexts(items: seq<SimpleTextItem>): (ns: seq<string>)
    ensures |ns| <= |items|
  {
    if |items| == 0 then []
    else
      var item := items[|items| - 1];
      NameTexts(items[..|items| - 1]) + (if IsNameItem(item) then [Trim(item.value)] else [])
  }

  /** One scan step on the marks: a mark item is appended while fewer
      than three are held. */
  lemma ScanItemMarks(st: Scan, item: SimpleTextItem)
    ensures ScanItem(st, item).marks ==
            st.marks + (if IsMarkItem(item) && |st.marks| < 3 then [DecimalValue(item.value)] else [])
  {
  }

  /** One scan step on the names: a name item fills the next free slot while
      no mark has been collected. */
  lemma ScanItemNames(st: Scan, item: SimpleTextItem)
    ensures var st' := ScanItem(st, item);
            if IsNameItem(item) && |st.marks| == 0 then
              if st.name.None? then st'.name == Some(Trim(item.value)) && st'.fatherName == st.fatherName
              else if st.fatherName.None? then st'.name == st.name && st'.fatherName == Some(Trim(item.value))
              else st'.name == st.name && st'.fatherName == st.fatherName
            else st'.name == st.name && st'.fatherName == st.fatherName
  {
  }

  /** The scan collects the first three mark values of the row, in order. */
  lemma {:induction false} ScanItemsMarks(items: seq<SimpleTextItem>)
    ensures ScanItems(items).marks == Take(MarkValues(items), 3)
  {
    if |items| > 0 {
      var init, item := items[..|items| - 1], items[|items| - 1];
      ScanItemsMarks(init);
      ScanItemMarks(ScanItems(init), item);
    }
  }

  /** The scan fills the two name slots with the first two name items that
      precede the first mark item, trimmed. */
  lemma {:induction false} ScanItemsNames(items: seq<SimpleTextItem>)
    ensures ScanItems(items).name == Nth(NameTexts(items[..FirstMarkIndex(items)]), 0)
    ensures ScanItems(items).fatherName == Nth(NameTexts(items[..FirstMarkIndex(items)]), 1)
  {
    if |items| > 0 {
      var init := items[..|items| - 1];
      ScanItemsNames(init);
      ScanItemsMarks(init);
      ScanNamesStep(items);
    }
  }

  /** The induction step of `ScanItemsNames`, given the claim for the row
      without its last item. */
  lemma ScanNamesStep(items: seq<SimpleTextItem>)
    requires |items| > 0
    requires var init := items[..|items| - 1];
             && ScanItems(init).marks == Take(MarkValues(init), 3)
             && ScanItems(init).name == Nth(NameTexts(init[..FirstMarkIndex(init)]), 0)
             && ScanItems(init).fatherName == Nth(NameTexts(init[..FirstMarkIndex(init)]), 1)
    ensures ScanItems(items).name == Nth(NameTexts(items[..FirstMarkIndex(items)]), 0)
    ensures ScanItems(items).fatherName == Nth(NameTexts(items[..FirstMarkIndex(items)]), 1)
  {
    var init, item := items[..|items| - 1], items[|items| - 1];
    var st := ScanItems(init);
    assert ScanItems(items) == ScanItem(st, item);
    ScanItemNames(st, item);
    var k := FirstMarkIndex(init);
    if k < |init| {
      MarkValuesNonEmpty(init, k);
      assert FirstMarkIndex(items) == k;
      assert items[..k] == init[..k];
    } else {
      assert init[..k] == init;
      MarkValuesNone(init);
      assert st.marks == [];
      if IsMarkItem(item) {
        assert FirstMarkIndex(items) == k;
        assert items[..k] == init;
      } else {
        assert FirstMarkIndex(items) == |items|;
        assert items[..|items|] == items;
        NameTextsSnoc(items);
        NameSlots(NameTexts(init), item);
      }
    }
  }

  /** A name item after the names collected so far fills the next free slot. */
  lemma NameSlots(ns: seq<string>, item: SimpleTextItem)
    ensures var ns' := ns + (if IsNameItem(item) then [Trim(item.value)] else []);
            if IsNameItem(item) then
              if Nth(ns, 0).None? then Nth(ns', 0) == Some(Trim(item.value)) && Nth(ns', 1) == Nth(ns, 1)
              else if Nth(ns, 1).None? then Nth(ns', 0) == Nth(ns, 0) && Nth(ns', 1) == Some(Trim(item.value))
              else Nth(ns', 0) == Nth(ns, 0) && Nth(ns', 1) == Nth(ns, 1)
            else Nth(ns', 0) == Nth(ns, 0) && Nth(ns', 1) == Nth(ns, 1)
  {
  }

  /** The name texts of a row end with its last item's, if that is a name item. */
  lemma NameTextsSnoc(items: seq<SimpleTextItem>)
    requires |items| > 0
    ensures var item := items[|items| - 1];
            NameTexts(items) == NameTexts(items[..|items| - 1]) + (if IsNameItem(item) then [Trim(item.value)] else [])
  {
  }

  /** A row with a mark item at k has collected at least one mark value. */
  lemma {:induction false} MarkValuesNonEmpty(items: seq<SimpleTextItem>, k: nat)
    requires k < |items| && IsMarkItem(items[k])
    ensures |MarkValues(items)| > 0
  {
    if k < |items| - 1 {
      MarkValuesNonEmpty(items[..|items| - 1], k);
    }
  }

  /** A row without mark items has no mark values. */
  lemma {:induction false} MarkValuesNone(items: seq<SimpleTextItem>)
    requires forall i :: 0 <= i < |items| ==> !IsMarkItem(items[i])
    ensures MarkValues(items) == []
  {
    if |items| > 0 {
      MarkValuesNone(items[..|items| - 1]);
    }
  }

  /** Mark resolution: one mark is the exam mark; three marks are practical,
      theoretical and exam in that order; any other count sets none. */
  function ResolveMarks(marks: seq<nat>): (r: (Option<nat>, Option<nat>, Option<nat>))
    ensures r.0.None? <==> r.1.None?
    ensures r.0.Some? <==> |marks| == 3
    ensures r.0.Some? ==> r.0.value == marks[0] && r.1.value == marks[1]
    ensures r.2.Some? <==> |marks| == 1 || |marks| == 3
    ensures r.2.Some? ==> r.2.value == marks[|marks| - 1]
  {
    if |marks| == 1 then (None, None, Some(marks[0]))
    else if |marks| == 3 then (Some(marks[0]), Some(marks[1]), Some(marks[2]))
    else (None, None, None)
  }

  /** `extractMarksFromItemsRow`: null (None) unless the row passes the ID
      gate; the ID item itself (index 0) is skipped by the scan. */
  function ExtractMarksFromItemsRow(row: seq<SimpleTextItem>): (r: Option<MarkRecord>)
    ensures r.None? <==> !HasStudentId(row)
    ensures r.Some? ==> 10000 <= r.value.studentId <= 59999
    ensures r.Some? ==> (r.value.practicalMark.None? <==> r.value.theoreticalMark.None?)
    ensures r.Some? ==> r.value.studentFatherName.Some? ==> r.value.studentName.Some?
  {
    if !HasStudentId(row) then None
    else
      StudentIdRange(row[0].value);
      var st := ScanItems(row[1..]);
      var (practical, theoretical, exam) := ResolveMarks(st.marks);
      Some(MarkRecord(DecimalValue(row[0].value), st.name, st.fatherName, practical, theoretical, exam))
  }

  /** The fields of an accepted row's record, against the reference
      definitions: the ID's value, the first two name items before the first
      mark (trimmed), and the marks by their count: one mark is the exam mark
      alone; three or more give practical, theoretical and exam in row order
      (any fourth and later mark is ignored); none or two set no mark. */
  lemma ExtractRowFields(row: seq<SimpleTextItem>)
    requires HasStudentId(row)
    ensures var r := ExtractMarksFromItemsRow(row).value;
            var items := row[1..];
            var names := NameTexts(items[..FirstMarkIndex(items)]);
            var ms := MarkValues(items);
            && r.studentId == DecimalValue(row[0].value)
            && r.studentName == Nth(names, 0)
            && r.studentFatherName == Nth(names, 1)
            && (|ms| == 1 ==> r.practicalMark == None && r.theoreticalMark == None && r.examMark == Some(ms[0]))
            && (|ms| >= 3 ==> r.practicalMark == Some(ms[0]) && r.theoreticalMark == Some(ms[1])
                              && r.examMark == Some(ms[2]))
            && (|ms| == 0 || |ms| == 2 ==> r.practicalMark == None && r.theoreticalMark == None && r.examMark == None)
  {
    var ms := MarkValues(row[1..]);
    ScanItemsMarks(row[1..]);
    ScanItemsNames(row[1..]);
    if |ms| >= 3 {
      assert Take(ms, 3) == [ms[0], ms[1], ms[2]];
    }
  }

  /** `extractMarksFromItemsTable`: the non-null per-row results, in row order. */
  function ExtractMarksFromItemsTable(table: seq<seq<SimpleTextItem>>): (records: seq<MarkRecord>)
    ensures |records| <= |table|
  {
    if |table| == 0 then []
    else
      var rest := ExtractMarksFromItemsTable(table[1..]);
      match ExtractMarksFromItemsRow(table[0])
      case Some(rec) => [rec] + rest
      case None => rest
  }

  /** Every record comes from a row of the table, carries an ID in range,
      and every row that passes the ID gate contributes its record. */
  lemma {:induction false} ExtractTableRecords(table: seq<seq<SimpleTextItem>>)
    ensures var records := ExtractMarksFromItemsTable(table);
            && (forall rec :: rec in records ==> 10000 <= rec.studentId <= 59999)
            && (forall rec :: rec in records ==> exists row :: row in table && ExtractMarksFromItemsRow(row) == Some(rec))
            && (forall row :: row in table && HasStudentId(row) ==> ExtractMarksFromItemsRow(row).value in records)
  {
    if |table| > 0 {
      ExtractTableRecords(table[1..]);
      assert forall row :: row in table[1..] ==> row in table;
      assert forall row :: row in table ==> row == table[0] || row in table[1..];
    }
  }

  /** The table extractor commutes with concatenation of tables, so it keeps
      row order. */
  lemma {:induction false} ExtractTableAppend(a: seq<seq<SimpleTextItem>>, b: seq<seq<SimpleTextItem>>)
    ensures ExtractMarksFromItemsTable(a + b) == ExtractMarksFromItemsTable(a) + ExtractMarksFromItemsTable(b)
  {
    if |a| == 0 {
      assert a + b == b;
    } else {
      assert (a + b)[0] == a[0];
      assert (a + b)[1..] == a[1..] + b;
      ExtractTableAppend(a[1..], b);
    }
  }
}
