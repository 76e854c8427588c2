/** The pure part of the table component (Table.tsx): the field catalog, the
    filling of missing fields, the matching of record keys against the
    allow-list, the column descriptors and cell texts of `showMUITable`, and
    the row transformations behind `hideColumn` and `showColumn`. */
module Projection {
  import opened Wrappers
  import opened Text
  import opened Numbers
  import opened Records
  import opened Labels

  // ---------------------------------------------------------------------
  // componentDidMount: catalog and filling (Table.tsx:160-170)
  // ---------------------------------------------------------------------

  /** `[...new Set(...data.map((e) => Object.keys(e)))]`. Spreading the key
      lists into the `Set` constructor hands it only the first list, so the
      catalog is the first record's keys and an empty data set gives none. */
  function Catalog(data: seq<Record>): (unique: seq<string>)
    ensures Distinct(unique)
    ensures data == [] ==> unique == []
    ensures data != [] ==> forall k :: k in unique <==> k in Keys(data[0])
  {
    if data == [] then [] else Dedup(Keys(data[0]))
  }

  /** The catalog of well-formed data is exactly the first record's key list;
      keys that only later records have are not in it. */
  lemma CatalogIsFirstKeys(data: seq<Record>)
    requires data != [] && WellFormed(data[0])
    ensures Catalog(data) == Keys(data[0])
  {
    DedupDistinct(Keys(data[0]));
  }

  /** `unique.filter((p) => !keys.includes(p))` */
  function Absent(unique: seq<string>, keys: seq<string>): (props: seq<string>)
    ensures forall p :: p in props <==> p in unique && p !in keys
    ensures Distinct(unique) ==> Distinct(props)
  {
    if unique == [] then []
    else
      var init := unique[..|unique| - 1];
      var last := unique[|unique| - 1];
      assert unique == init + [last];
      assert Distinct(unique) ==> Distinct(init) && last !in init by {
        if Distinct(unique) {
          assert forall i :: 0 <= i < |init| ==> init[i] == unique[i];
        }
      }
      Absent(init, keys) + (if last in keys then [] else [last])
  }

  /** `props.map((p) => { element[p] = ""; })`, one assignment after another. */
  function SetBlank(element: Record, props: seq<string>): Record
  {
    if props == [] then element
    else Set(SetBlank(element, props[..|props| - 1]), props[|props| - 1], Str(""))
  }

  /** The filled record of one data element. */
  function Fill(element: Record, unique: seq<string>): Record
  {
    SetBlank(element, Absent(unique, Keys(element)))
  }

  function Blanks(props: seq<string>): (r: Record)
    ensures Keys(r) == props
  {
    seq(|props|, i requires 0 <= i < |props| => (props[i], Str("")))
  }

  lemma {:induction false} SetAppends(r: Record, k: string, v: Value)
    requires k !in Keys(r)
    ensures Set(r, k, v) == r + [(k, v)]
  {
    if r != [] {
      assert Keys(r) == [r[0].0] + Keys(r[1..]);
      SetAppends(r[1..], k, v);
      assert [r[0]] + (r[1..] + [(k, v)]) == r + [(k, v)];
    }
  }

  lemma {:induction false} SetBlankAppends(element: Record, props: seq<string>)
    requires Distinct(props)
    requires forall p :: p in props ==> p !in Keys(element)
    ensures SetBlank(element, props) == element + Blanks(props)
  {
    if props != [] {
      var init := props[..|props| - 1];
      var last := props[|props| - 1];
      assert props == init + [last];
      assert Distinct(init) && last !in init by {
        assert forall i :: 0 <= i < |init| ==> init[i] == props[i];
      }
      assert forall p :: p in init ==> p in props;
      assert SetBlank(element, props) == Set(SetBlank(element, init), last, Str(""));
      SetBlankAppends(element, init);
      SetBlankAppendsStep(element, init, last);
    }
  }

  /** Blanking one more absent key appends it after the blanks so far. */
  lemma SetBlankAppendsStep(element: Record, init: seq<string>, last: string)
    requires last !in Keys(element) && last !in init
    ensures Set(element + Blanks(init), last, Str("")) == element + Blanks(init + [last])
  {
    var before := element + Blanks(init);
    KeysAppend(element, Blanks(init));
    assert last !in Keys(before);
    SetAppends(before, last, Str(""));
    BlanksSnoc(init, last);
    assert before + [(last, Str(""))] == element + (Blanks(init) + [(last, Str(""))]);
  }


  /** Blanking keys the record lacks adds each of them and keeps the
      record's own fields. */
  lemma {:induction false} SetBlankKeeps(element: Record, props: seq<string>, k: string)
    requires forall p :: p in props ==> p !in Keys(element)
    ensures k in props ==> k in Keys(SetBlank(element, props))
    ensures k in Keys(element) ==> k in Keys(SetBlank(element, props)) && Get(SetBlank(element, props), k) == Get(element, k)
  {
    if props != [] {
      var init := props[..|props| - 1];
      var last := props[|props| - 1];
      assert props == init + [last];
      SetBlankKeeps(element, init, k);
      SetGet(SetBlank(element, init), last, Str(""), k);
      assert last !in Keys(element);
    }
  }

  /** Whatever the catalog, filling makes every catalog key present and
      keeps the record's own values. */
  lemma FillKeeps(element: Record, unique: seq<string>, k: string)
    ensures k in unique ==> k in Keys(Fill(element, unique))
    ensures k in Keys(element) ==> Get(Fill(element, unique), k) == Get(element, k)
  {
    var props := Absent(unique, Keys(element));
    SetBlankKeeps(element, props, k);
    if k in unique && k !in props {
      SetBlankKeeps(element, props, k);
    }
  }

  lemma KeysAppend(a: Record, b: Record)
    ensures Keys(a + b) == Keys(a) + Keys(b)
  {
  }

  lemma BlanksSnoc(props: seq<string>, p: string)
    ensures Blanks(props + [p]) == Blanks(props) + [(p, Str(""))]
  {
  }

  lemma {:induction false} GetAppend(a: Record, b: Record, k: string)
    ensures Get(a + b, k) == if k in Keys(a) then Get(a, k) else Get(b, k)
  {
    if a != [] {
      assert (a + b)[1..] == a[1..] + b;
      assert Keys(a) == [a[0].0] + Keys(a[1..]);
      GetAppend(a[1..], b, k);
    } else {
      assert a + b == b;
    }
  }

  lemma {:induction false} GetBlanks(props: seq<string>, k: string)
    ensures Get(Blanks(props), k) == if k in props then Str("") else Undefined
  {
    if props != [] {
      assert Blanks(props)[1..] == Blanks(props[1..]);
      GetBlanks(props[1..], k);
    }
  }

  /** Filling appends, after the record's own fields and in catalog order, an
      empty string under every catalog key the record lacks: the record's
      own fields stay as they were and every catalog key is then present. */
  lemma FillSpec(element: Record, unique: seq<string>)
    requires Distinct(unique)
    ensures Fill(element, unique) == element + Blanks(Absent(unique, Keys(element)))
    ensures Keys(Fill(element, unique)) == Keys(element) + Absent(unique, Keys(element))
    ensures forall k :: k in unique ==> k in Keys(Fill(element, unique))
    ensures forall k :: Get(Fill(element, unique), k) ==
                        if k in Keys(element) then Get(element, k) else if k in unique then Str("") else Undefined
    ensures WellFormed(element) ==> WellFormed(Fill(element, unique))
  {
    var props := Absent(unique, Keys(element));
    SetBlankAppends(element, props);
    KeysAppend(element, Blanks(props));
    forall k ensures Get(Fill(element, unique), k) ==
      if k in Keys(element) then Get(element, k) else if k in unique then Str("") else Undefined
    {
      GetAppend(element, Blanks(props), k);
      GetBlanks(props, k);
    }
    if WellFormed(element) {
      var ks := Keys(element) + props;
      forall i, j | 0 <= i < j < |ks| ensures ks[i] != ks[j] {
        if j >= |Keys(element)| && i < |Keys(element)| {
          assert ks[j] in props;
          assert ks[i] in Keys(element);
        } else if i >= |Keys(element)| {
          assert ks[i] == props[i - |Keys(element)|];
          assert ks[j] == props[j - |Keys(element)|];
        }
      }
    }
  }

  // ---------------------------------------------------------------------
  // getColumnNamesForDisplay (Table.tsx:181-194)
  // ---------------------------------------------------------------------

  /** `keys.map((item) => item.toLowerCase().replace(/\s/g, '').replace(/_/g, ''))` */
  function NormalizedKeys(keys: seq<string>): (cKeys: seq<string>)
    ensures |cKeys| == |keys|
    ensures forall i :: 0 <= i < |keys| ==> cKeys[i] == NormalizeName(keys[i])
  {
    seq(|keys|, i requires 0 <= i < |keys| => NormalizeName(keys[i]))
  }

  /** A name matches some key exactly when it is the normal form of one of
      them; every normalised key is in normal form, so normalising the list
      again changes nothing. */
  lemma NormalizedKeysSpec(keys: seq<string>, v: string)
    ensures v in NormalizedKeys(keys) <==> exists k :: k in keys && NormalizeName(k) == v
    ensures v in NormalizedKeys(keys) ==> IsNormalized(v)
    ensures NormalizedKeys(NormalizedKeys(keys)) == NormalizedKeys(keys)
  {
    var c := NormalizedKeys(keys);
    if v in c {
      var i :| 0 <= i < |c| && c[i] == v;
      assert keys[i] in keys;
    }
    if exists k :: k in keys && NormalizeName(k) == v {
      var k :| k in keys && NormalizeName(k) == v;
      var i :| 0 <= i < |keys| && keys[i] == k;
      assert c[i] == v;
    }
    forall i | 0 <= i < |c| ensures NormalizedKeys(c)[i] == c[i] {
      NormalizeNameIdempotent(keys[i]);
    }
  }

  /** `xs.findIndex((x) => x == v)`: the first position of v, or -1. */
  function FindIndex(xs: seq<string>, v: string): (i: int)
    ensures -1 <= i < |xs|
    ensures i == -1 <==> v !in xs
    ensures 0 <= i ==> xs[i] == v && forall j :: 0 <= j < i ==> xs[j] != v
  {
    if xs == [] then -1
    else if xs[0] == v then 0
    else
      var i := FindIndex(xs[1..], v);
      assert forall x :: x in xs <==> x == xs[0] || x in xs[1..] by {
        assert xs == [xs[0]] + xs[1..];
      }
      if i == -1 then -1 else i + 1
  }

  /** k is one of the keys, and no key before it has its normal form. */
  predicate FirstOfItsNormalForm(keys: seq<string>, k: string)
  {
    exists j :: && 0 <= j < |keys| && keys[j] == k
                && forall j' :: 0 <= j' < j ==> NormalizeName(keys[j']) != NormalizeName(k)
  }

  /** `keys[cKeys.findIndex((v) => v == value)]` for a value some normalised
      key equals: the first key with that normal form. */
  function FirstKeyWithNormalForm(keys: seq<string>, value: string): (k: string)
    requires value in NormalizedKeys(keys)
    ensures k in keys && NormalizeName(k) == value
    ensures FirstOfItsNormalForm(keys, k)
  {
    var cKeys := NormalizedKeys(keys);
    var ind := FindIndex(cKeys, value);
    assert forall j' :: 0 <= j' < ind ==> NormalizeName(keys[j']) == cKeys[j'];
    keys[ind]
  }

  /** `getColumnNamesForDisplay(keys)`: the allow-list entries that some
      normalised key equals, kept in allow-list order, each replaced by the
      first key with that normalised form. */
  function ColumnNamesForDisplay(keys: seq<string>, colsFromFile: seq<string>): (cols: seq<string>)
    ensures colsFromFile == [] ==> cols == []
    ensures NormalizedKeys(cols) == Present(colsFromFile, NormalizedKeys(keys))
    ensures forall i :: 0 <= i < |cols| ==> cols[i] in keys && FirstOfItsNormalForm(keys, cols[i])
  {
    var matched := Present(colsFromFile, NormalizedKeys(keys));
    var cols := FirstKeys(keys, matched);
    assert forall i :: 0 <= i < |cols| ==> NormalizedKeys(cols)[i] == matched[i];
    cols
  }

  /** `indices.map((ind) => keys[ind])` after the `findIndex` of each value:
      for each value, the first key with that normal form. */
  function FirstKeys(keys: seq<string>, values: seq<string>): (ks: seq<string>)
    requires forall v :: v in values ==> v in NormalizedKeys(keys)
    ensures |ks| == |values|
    ensures forall i :: 0 <= i < |values| ==>
      && ks[i] in keys && NormalizeName(ks[i]) == values[i] && FirstOfItsNormalForm(keys, ks[i])
  {
    assert forall i :: 0 <= i < |values| ==> values[i] in values;
    var ks := seq(|values|, i requires 0 <= i < |values| => FirstKeyWithNormalForm(keys, values[i]));
    assert forall i :: 0 <= i < |values| ==> ks[i] == FirstKeyWithNormalForm(keys, values[i]);
    ks
  }

  // ---------------------------------------------------------------------
  // componentDidMount: re-keying (Table.tsx:171-174)
  // ---------------------------------------------------------------------

  /** `cols.forEach((key) => { orderedElement[key] = element[key]; })` on a
      fresh object. */
  function Reorder(element: Record, cols: seq<string>): (ordered: Record)
    ensures Keys(ordered) == Dedup(cols)
  {
    if cols == [] then []
    else
      var init := cols[..|cols| - 1];
      var last := cols[|cols| - 1];
      assert cols == init + [last];
      DedupSnoc(init, last);
      Set(Reorder(element, init), last, Get(element, last))
  }

  /** The re-keyed record holds the value of the element under each listed key. */
  lemma {:induction false} ReorderGet(element: Record, cols: seq<string>, k: string)
    ensures Get(Reorder(element, cols), k) == if k in cols then Get(element, k) else Undefined
  {
    if cols != [] {
      var init := cols[..|cols| - 1];
      var last := cols[|cols| - 1];
      assert cols == init + [last];
      ReorderGet(element, init, k);
      SetGet(Reorder(element, init), last, Get(element, last), k);
    }
  }

  /** One row of `state.elements` after mounting. */
  /** The re-keyed copy is determined by its keys and values: any object
      whose keys are the listed keys once each, in first-listed order, and
      which reads the element's value under each of them, is that copy. */
  lemma ReorderUnique(element: Record, cols: seq<string>, r: Record)
    requires Keys(r) == Dedup(cols)
    requires forall k :: k in cols ==> Get(r, k) == Get(element, k)
    ensures r == Reorder(element, cols)
  {
    var o := Reorder(element, cols);
    forall k ensures Get(r, k) == Get(o, k) {
      ReorderGet(element, cols, k);
    }
    RecordExtensionality(r, o);
  }

  function MountedRow(element: Record, unique: seq<string>, displayColumns: seq<string>): Record
  {
    var filled := Fill(element, unique);
    Reorder(filled, ColumnNamesForDisplay(Keys(filled), displayColumns))
  }

  /** A mounted row has, once each, exactly the keys the allow-list selects
      from the filled record, and the filled record's values under them. */
  lemma MountedRowSpec(element: Record, unique: seq<string>, displayColumns: seq<string>, k: string)
    requires Distinct(unique)
    ensures var filled := Fill(element, unique);
      var cols := ColumnNamesForDisplay(Keys(filled), displayColumns);
      && Keys(MountedRow(element, unique, displayColumns)) == Dedup(cols)
      && WellFormed(MountedRow(element, unique, displayColumns))
      && Get(MountedRow(element, unique, displayColumns), k) == if k in cols then Get(filled, k) else Undefined
  {
    var filled := Fill(element, unique);
    ReorderGet(filled, ColumnNamesForDisplay(Keys(filled), displayColumns), k);
  }

  // ---------------------------------------------------------------------
  // showMUITable: column descriptors (Table.tsx:92-115)
  // ---------------------------------------------------------------------

  /** A column descriptor: its label, `options.display`, and whether
      `options.customBodyRender` is set. */
  datatype Column = Column(name: string, display: bool, customBodyRender: bool)

  /** Keys whose columns are created hidden. */
  const HiddenKeys: seq<string> := ["geometry", "geometryStream", "bBoxHigh", "bBoxLow"]

  /** The one key whose column gets the custom cell renderer. */
  const CustomRenderedKey: string := "mANUFACTURER_ADDRESS"

  function ColumnFor(item: string): Column
  {
    var col := Column(Label(ToUpper(item)), item !in HiddenKeys, false);
    if item == CustomRenderedKey then col.(customBodyRender := true) else col
  }

  /** `Object.keys(elements[0]).map(...)` */
  function Columns(first: Record): (columns: seq<Column>)
    ensures |columns| == |first|
  {
    seq(|first|, i requires 0 <= i < |first| => ColumnFor(Keys(first)[i]))
  }

  /** One descriptor per key of the first row, in key order; its label is the
      title case of the upper-cased key; it is hidden exactly for the four
      geometry keys; only the manufacturer-address key gets the renderer, and
      that column stays visible. */
  lemma ColumnsSpec(first: Record, i: nat)
    requires i < |first|
    ensures Columns(first)[i].name == TitleCase(ToUpper(first[i].0))
    ensures !Columns(first)[i].display <==>
      first[i].0 in {"geometry", "geometryStream", "bBoxHigh", "bBoxLow"}
    ensures Columns(first)[i].customBodyRender <==> first[i].0 == "mANUFACTURER_ADDRESS"
    ensures Columns(first)[i].customBodyRender ==> Columns(first)[i].display
  {
    ColumnLabelIsTitleCase(first[i].0);
  }

  lemma ColumnExample()
    ensures ColumnFor("bBoxHigh") == Column("Bboxhigh", false, false)
  {
    LabelExampleUpperCased();
  }

  // ---------------------------------------------------------------------
  // showMUITable: cell texts (Table.tsx:116-125)
  // ---------------------------------------------------------------------

  /** `String(v)` for a value inside a nested object. A nested object inside
      it prints as `[object Object]`. */
  function ItemText(v: Value): string
  {
    match v
    case Str(s) => s
    case Num(d) => NumberToString(d)
    case Bool(b) => if b then "true" else "false"
    case Null => "null"
    case Undefined => "undefined"
    case Nested(_) => "[object Object]"
  }

  /** `s.replace(/,/g, ' ')` */
  function ReplaceCommas(s: string): (r: string)
    ensures |r| == |s|
    ensures ',' !in r
    ensures forall i :: 0 <= i < |s| ==> r[i] == if s[i] == ',' then ' ' else s[i]
  {
    seq(|s|, i requires 0 <= i < |s| => if s[i] == ',' then ' ' else s[i])
  }

  /** The texts of a nested object's values, commas replaced by spaces. */
  function ItemTexts(items: seq<Value>): (texts: seq<string>)
    ensures |texts| == |items|
    ensures forall t :: t in texts ==> ',' !in t
  {
    seq(|items|, i requires 0 <= i < |items| => ReplaceCommas(ItemText(items[i])))
  }

  /** The text of one cell. */
  function CellText(v: Value): string
  {
    match v
    case Nested(items) => JoinWith(ItemTexts(items), ',')
    case Num(d) => NumberToString(TruncateDecimalsExact(d.Value(), 2))
    case _ => ItemText(v)
  }

  /** A number cell shows the value cut to two decimals and never holds a
      comma; null and undefined print as words. */
  lemma NumberCell(d: Decimal)
    ensures var t := TruncateDecimalsExact(d.Value(), 2);
      && t.Value() == TruncateDecimals(d.Value(), 2)
      && t.exponent == -2
      && CellText(Num(d)) == NumberToString(t)
      && ',' !in CellText(Num(d))
  {
  }

  lemma ScalarCells()
    ensures CellText(Null) == "null"
    ensures CellText(Undefined) == "undefined"
    ensures forall s :: CellText(Str(s)) == s
    ensures CellText(Bool(true)) == "true"
  {
  }

  /** A nested cell is the comma-joined item texts, and splitting it at its
      commas gives those texts back: one field per item. */
  lemma NestedCellFields(items: seq<Value>)
    requires items != []
    ensures SplitOn(CellText(Nested(items)), ',') == ItemTexts(items)
  {
    SplitJoin(ItemTexts(items), ',');
  }

  /** `Object.values(item).map(...)` */
  function RowCells(row: Record): (cells: seq<string>)
    ensures |cells| == |row|
    ensures forall j :: 0 <= j < |row| ==> cells[j] == CellText(row[j].1)
  {
    seq(|row|, j requires 0 <= j < |row| => CellText(row[j].1))
  }

  /** The cells of a row: a comma can only come from a nested value or from a
      string value that holds one, and the cell of a non-empty nested value
      splits at its commas into one field per item. */
  lemma RowCellsSpec(row: Record, j: nat)
    requires j < |row|
    ensures var cell := RowCells(row)[j];
      && (',' in cell ==> row[j].1.Nested? || (row[j].1.Str? && ',' in row[j].1.s))
      && (row[j].1.Nested? && row[j].1.items != [] ==> SplitOn(cell, ',') == ItemTexts(row[j].1.items))
  {
    match row[j].1
    case Num(d) => NumberCell(d);
    case Nested(items) => if items != [] { NestedCellFields(items); }
    case _ =>
  }

  /** What `showMUITable` produces: nothing while `state.elements` is unset,
      an exception when the rows are empty or one is `undefined`, else the
      table. */
  datatype TableView =
    | NoTable
    | Throws
    | Rendered(columns: seq<Column>, rows: seq<seq<string>>)

  predicate AllDefined(rows: seq<Option<Record>>)
  {
    forall i :: 0 <= i < |rows| ==> rows[i].Some?
  }

  function ShowMUITable(elements: Option<seq<Option<Record>>>): (view: TableView)
    ensures elements.None? <==> view == NoTable
    ensures view == Throws <==> elements.Some? && (elements.value == [] || !AllDefined(elements.value))
    ensures view.Rendered? ==> |view.rows| == |elements.value| && |view.columns| == |elements.value[0].value|
    ensures view.Rendered? ==> view.columns == Columns(elements.value[0].value)
    ensures view.Rendered? ==> forall i :: 0 <= i < |view.rows| ==>
      view.rows[i] == RowCells(elements.value[i].value)
  {
    match elements
    case None => NoTable
    case Some(rows) =>
      if rows == [] || !AllDefined(rows) then Throws
      else
        Rendered(Columns(rows[0].value),
                 seq(|rows|, i requires 0 <= i < |rows| && rows[i].Some? => RowCells(rows[i].value)))
  }

  // ---------------------------------------------------------------------
  // hideColumn (Table.tsx:215-233)
  // ---------------------------------------------------------------------

  /** `Object.keys(element).filter((value) => value != col)` */
  function KeysOtherThan(keys: seq<string>, col: string): (props: seq<string>)
    ensures forall k :: k in props <==> k in keys && k != col
  {
    if keys == [] then []
    else
      var init := keys[..|keys| - 1];
      var last := keys[|keys| - 1];
      assert keys == init + [last];
      KeysOtherThan(init, col) + (if last == col then [] else [last])
  }

  /** The inner `cols.map` of `hideColumn`: for each selected column, pick
      from the row so far the original element's keys other than that one. */
  function HideRow(element: Record, cols: seq<string>): Record
  {
    if cols == [] then element
    else Pick(HideRow(element, cols[..|cols| - 1]), KeysOtherThan(Keys(element), cols[|cols| - 1]))
  }

  /** Reference definition: the entries of r whose key is not in cols, in
      their original order. */
  function Without(r: Record, cols: seq<string>): (w: Record)
    ensures |w| <= |r|
    ensures forall k :: k in Keys(w) ==> k in Keys(r) && k !in cols
  {
    if r == [] then []
    else
      var init := r[..|r| - 1];
      var last := r[|r| - 1];
      assert r == init + [last];
      assert forall k :: k in Keys(init) ==> k in Keys(r) by {
        assert forall i :: 0 <= i < |init| ==> Keys(init)[i] == Keys(r)[i];
      }
      var w := Without(init, cols) + (if last.0 in cols then [] else [last]);
      assert forall k :: k in Keys(w) ==> k in Keys(Without(init, cols)) || (k == last.0 && k !in cols) by {
        KeysAppend(Without(init, cols), if last.0 in cols then [] else [last]);
      }
      w
  }

  /** A well-formed row without cols keeps exactly its unselected keys, each
      with its value, and reads `undefined` under every selected one. */
  lemma {:induction false} WithoutSpec(r: Record, cols: seq<string>, k: string)
    requires WellFormed(r)
    ensures k in Keys(Without(r, cols)) <==> k in Keys(r) && k !in cols
    ensures Get(Without(r, cols), k) == if k in cols then Undefined else Get(r, k)
  {
    if r != [] {
      var init := r[..|r| - 1];
      var x, v := r[|r| - 1].0, r[|r| - 1].1;
      assert r == init + [(x, v)];
      WellFormedInit(r);
      WithoutSpec(init, cols, k);
      WithoutSnoc(init, x, v, cols);
      KeysSnoc(init, x, v);
      GetSnoc(init, x, v, k);
      var w := Without(init, cols);
      if x !in cols {
        KeysSnoc(w, x, v);
        GetSnoc(w, x, v, k);
      } else {
        assert w + [] == w;
      }
    }
  }

  lemma WithoutSnoc(r: Record, x: string, v: Value, cols: seq<string>)
    ensures Without(r + [(x, v)], cols) == Without(r, cols) + (if x in cols then [] else [(x, v)])
  {
    assert (r + [(x, v)])[..|r|] == r;
  }

  lemma KeysOtherThanSnoc(keys: seq<string>, x: string, col: string)
    ensures KeysOtherThan(keys + [x], col) == KeysOtherThan(keys, col) + (if x == col then [] else [x])
  {
    assert (keys + [x])[..|keys|] == keys;
  }

  lemma WellFormedInit(r: Record)
    requires WellFormed(r) && r != []
    ensures WellFormed(r[..|r| - 1])
    ensures r[|r| - 1].0 !in Keys(r[..|r| - 1])
  {
    var init := r[..|r| - 1];
    assert forall i :: 0 <= i < |init| ==> Keys(init)[i] == Keys(r)[i];
  }

  /** Picking paths that do not name the last entry ignores that entry. */
  lemma {:induction false} PickIgnoresExtra(f: Record, ps: seq<string>, x: string, v: Value)
    requires x !in ps
    ensures Pick(f + [(x, v)], ps) == Pick(f, ps)
  {
    if ps != [] {
      var init := ps[..|ps| - 1];
      var last := ps[|ps| - 1];
      assert ps == init + [last];
      PickIgnoresExtra(f, init, x, v);
      KeysSnoc(f, x, v);
      GetSnoc(f, x, v, last);
    }
  }

  lemma PickMissingPath(f: Record, ps: seq<string>, x: string)
    requires x !in Keys(f)
    ensures Pick(f, ps + [x]) == Pick(f, ps)
  {
    assert (ps + [x])[..|ps|] == ps;
  }

  lemma PickNewPath(f: Record, ps: seq<string>, x: string)
    requires x in Keys(f)
    ensures Pick(f, ps + [x]) == Set(Pick(f, ps), x, Get(f, x))
  {
    assert (ps + [x])[..|ps|] == ps;
  }

  /** One step of `hideColumn` on a row that is already a filtered copy of
      the element: picking the element's keys other than c removes c. */
  lemma {:induction false} PickOtherThan(e: Record, cols: seq<string>, c: string)
    requires WellFormed(e)
    ensures Pick(Without(e, cols), KeysOtherThan(Keys(e), c)) == Without(Without(e, cols), [c])
  {
    if e == [] {
      assert KeysOtherThan(Keys(e), c) == [];
    } else {
      var e' := e[..|e| - 1];
      var x, v := e[|e| - 1].0, e[|e| - 1].1;
      assert e == e' + [(x, v)];
      WellFormedInit(e);
      PickOtherThan(e', cols, c);
      var f' := Without(e', cols);
      var ps' := KeysOtherThan(Keys(e'), c);
      KeysSnoc(e', x, v);
      KeysOtherThanSnoc(Keys(e'), x, c);
      WithoutSnoc(e', x, v, cols);
      PickStep(f', ps', x, v, c, x in cols);
    }
  }

  lemma PickStep(f: Record, ps: seq<string>, x: string, v: Value, c: string, dropped: bool)
    requires Pick(f, ps) == Without(f, [c])
    requires x !in ps && x !in Keys(f)
    ensures var f2 := f + (if dropped then [] else [(x, v)]);
      Pick(f2, ps + (if x == c then [] else [x])) == Without(f2, [c])
  {
    var w := Without(f, [c]);
    assert x !in Keys(w);
    if dropped {
      assert f + [] == f;
      if x != c {
        PickMissingPath(f, ps, x);
      } else {
        assert ps + [] == ps;
      }
    } else {
      WithoutSnoc(f, x, v, [c]);
      PickIgnoresExtra(f, ps, x, v);
      if x != c {
        KeysSnoc(f, x, v);
        PickNewPath(f + [(x, v)], ps, x);
        GetSnoc(f, x, v, x);
        SetAppends(w, x, v);
      } else {
        assert ps + [] == ps;
        assert w + [] == w;
      }
    }
  }

  lemma {:induction false} WithoutWithout(r: Record, cols: seq<string>, c: string)
    ensures Without(Without(r, cols), [c]) == Without(r, cols + [c])
  {
    if r != [] {
      var init := r[..|r| - 1];
      var x, v := r[|r| - 1].0, r[|r| - 1].1;
      assert r == init + [(x, v)];
      WithoutWithout(init, cols, c);
      WithoutSnoc(init, x, v, cols);
      WithoutSnoc(init, x, v, cols + [c]);
      assert (x in cols + [c]) == (x in cols || x == c);
      if x !in cols {
        WithoutSnoc(Without(init, cols), x, v, [c]);
      } else {
        assert Without(init, cols) + [] == Without(init, cols);
        assert Without(init, cols + [c]) + [] == Without(init, cols + [c]);
      }
    }
  }

  lemma {:induction false} WithoutNothing(r: Record)
    ensures Without(r, []) == r
  {
    if r != [] {
      var init := r[..|r| - 1];
      WithoutNothing(init);
      assert r == init + [r[|r| - 1]];
    }
  }

  /** `hideColumn` as written (a chain of `_.pick` calls) removes exactly the
      selected keys from a row and keeps the others in their order. */
  lemma {:induction false} HideRowIsWithout(e: Record, cols: seq<string>)
    requires WellFormed(e)
    ensures HideRow(e, cols) == Without(e, cols)
  {
    if cols == [] {
      WithoutNothing(e);
    } else {
      var init := cols[..|cols| - 1];
      var c := cols[|cols| - 1];
      assert cols == init + [c];
      HideRowIsWithout(e, init);
      PickOtherThan(e, init, c);
      WithoutWithout(e, init, c);
    }
  }

  lemma {:induction false} WithoutWellFormed(r: Record, cols: seq<string>)
    requires WellFormed(r)
    ensures WellFormed(Without(r, cols))
  {
    if r != [] {
      var init := r[..|r| - 1];
      var last := r[|r| - 1];
      assert r == init + [(last.0, last.1)];
      WellFormedInit(r);
      WithoutWellFormed(init, cols);
      WithoutSnoc(init, last.0, last.1, cols);
      var w := Without(init, cols);
      if last.0 !in cols {
        KeysSnoc(w, last.0, last.1);
        assert last.0 !in Keys(w);
        var ks := Keys(w) + [last.0];
        forall i, j | 0 <= i < j < |ks| ensures ks[i] != ks[j] {
          if j == |ks| - 1 {
            assert ks[i] in Keys(w);
          } else {
            assert ks[i] == Keys(w)[i] && ks[j] == Keys(w)[j];
          }
        }
      }
    }
  }

  lemma {:induction false} WithoutIdempotent(r: Record, cols: seq<string>)
    ensures Without(Without(r, cols), cols) == Without(r, cols)
  {
    if r != [] {
      var init := r[..|r| - 1];
      var x, v := r[|r| - 1].0, r[|r| - 1].1;
      assert r == init + [(x, v)];
      WithoutIdempotent(init, cols);
      WithoutSnoc(init, x, v, cols);
      if x !in cols {
        WithoutSnoc(Without(init, cols), x, v, cols);
      } else {
        assert Without(init, cols) + [] == Without(init, cols);
      }
    }
  }

  /** Hiding the same columns twice removes nothing more. */
  lemma HideRowIdempotent(e: Record, cols: seq<string>)
    requires WellFormed(e)
    ensures HideRow(HideRow(e, cols), cols) == HideRow(e, cols)
  {
    HideRowIsWithout(e, cols);
    WithoutWellFormed(e, cols);
    HideRowIsWithout(Without(e, cols), cols);
    WithoutIdempotent(e, cols);
  }

  /** The rows `hideColumn` stores, or `None` when it throws: with a
      non-empty selection, `Object.keys(undefined)` throws on an undefined
      row. With an empty selection every row is pushed unchanged. */
  function HideRows(elements: seq<Option<Record>>, cols: seq<string>): (r: Option<seq<Option<Record>>>)
    ensures r.None? <==> cols != [] && !AllDefined(elements)
    ensures r.Some? ==> |r.value| == |elements|
  {
    if cols != [] && !AllDefined(elements) then None
    else Some(seq(|elements|, i requires 0 <= i < |elements| => HiddenRow(elements[i], cols)))
  }

  /** One stored row after `hideColumn`; an undefined row stays undefined. */
  function HiddenRow(row: Option<Record>, cols: seq<string>): Option<Record>
  {
    if row.Some? then Some(HideRow(row.value, cols)) else None
  }

  predicate RowsWellFormed(elements: seq<Option<Record>>)
  {
    forall i :: 0 <= i < |elements| && elements[i].Some? ==> WellFormed(elements[i].value)
  }

  /** Each stored row is the prior row minus every selected key, the rest in
      their original order. */
  lemma HideRowsSpec(elements: seq<Option<Record>>, cols: seq<string>, i: nat)
    requires RowsWellFormed(elements)
    requires HideRows(elements, cols).Some? && i < |elements|
    ensures HideRows(elements, cols).value[i] ==
      if elements[i].Some? then Some(Without(elements[i].value, cols)) else None
    ensures RowsWellFormed(HideRows(elements, cols).value)
  {
    if elements[i].Some? {
      HideRowIsWithout(elements[i].value, cols);
    }
    var rows := HideRows(elements, cols).value;
    forall j | 0 <= j < |rows| && rows[j].Some? ensures WellFormed(rows[j].value) {
      HideRowIsWithout(elements[j].value, cols);
      WithoutWellFormed(elements[j].value, cols);
    }
  }

  /** Hiding the same selection twice equals hiding it once. */
  lemma HideRowsIdempotent(elements: seq<Option<Record>>, cols: seq<string>)
    requires RowsWellFormed(elements)
    requires HideRows(elements, cols).Some?
    ensures HideRows(HideRows(elements, cols).value, cols) == HideRows(elements, cols)
  {
    var once := HideRows(elements, cols).value;
    assert AllDefined(once) || cols == [] by {
      if cols != [] {
        assert AllDefined(elements);
        assert forall i :: 0 <= i < |once| ==> once[i].Some? == elements[i].Some?;
      }
    }
    var twice := HideRows(once, cols).value;
    assert |twice| == |once|;
    forall i | 0 <= i < |once| ensures twice[i] == once[i] {
      if elements[i].Some? {
        HideRowIdempotent(elements[i].value, cols);
      }
    }
    assert twice == once;
  }

  // ---------------------------------------------------------------------
  // showColumn (Table.tsx:273-292)
  // ---------------------------------------------------------------------

  /** `Object.keys(element).filter((value) => value == col)` */
  function KeysEqualTo(keys: seq<string>, col: string): (props: seq<string>)
    ensures forall k :: k in props <==> k in keys && k == col
  {
    if keys == [] then []
    else
      var init := keys[..|keys| - 1];
      var last := keys[|keys| - 1];
      assert keys == init + [last];
      KeysEqualTo(init, col) + (if last == col then [last] else [])
  }

  /** `stateElements[index]`, `undefined` past the end. */
  function StateRowAt(stateElements: seq<Option<Record>>, index: nat): Option<Record>
  {
    if index < |stateElements| then stateElements[index] else None
  }

  /** The row `showColumn` pushes for one data element: of the objects built
      for every selected column, only `filteredElement[0]` is kept, so an
      empty selection gives `undefined`. */
  function ShowRow(element: Record, stateRow: Option<Record>, cols: seq<string>): Option<Record>
  {
    var filteredElement := Candidates(element, stateRow, cols);
    if |filteredElement| == 0 then None else Some(filteredElement[0])
  }

  /** `Object.assign(_.pick(element, properties), stateRow)` for one selected
      column, where `properties` are the element's keys equal to it. */
  function Candidate(element: Record, stateRow: Option<Record>, col: string): Record
  {
    Assign(Pick(element, KeysEqualTo(Keys(element), col)), stateRow)
  }

  /** The candidates pushed for every selected column, in selection order. */
  function Candidates(element: Record, stateRow: Option<Record>, cols: seq<string>): (filteredElement: seq<Record>)
    ensures |filteredElement| == |cols|
  {
    if cols == [] then []
    else Candidates(element, stateRow, cols[..|cols| - 1]) + [Candidate(element, stateRow, cols[|cols| - 1])]
  }

  lemma CandidatesSnoc(element: Record, stateRow: Option<Record>, cols: seq<string>, col: string)
    ensures Candidates(element, stateRow, cols + [col]) ==
      Candidates(element, stateRow, cols) + [Candidate(element, stateRow, col)]
  {
    assert (cols + [col])[..|cols|] == cols;
  }

  /** Only the first selected column matters. */
  lemma {:induction false} CandidatesHead(element: Record, stateRow: Option<Record>, cols: seq<string>)
    requires cols != []
    ensures Candidates(element, stateRow, cols)[0] == Candidate(element, stateRow, cols[0])
  {
    if |cols| > 1 {
      CandidatesHead(element, stateRow, cols[..|cols| - 1]);
    }
  }

  /** The rows `showColumn` stores: one per data record, by index. */
  function ShowRows(data: seq<Record>, stateElements: seq<Option<Record>>, cols: seq<string>): (rows: seq<Option<Record>>)
    ensures |rows| == |data|
    ensures forall i :: 0 <= i < |data| ==> rows[i] == ShowRow(data[i], StateRowAt(stateElements, i), cols)
  {
    seq(|data|, i requires 0 <= i < |data| => ShowRow(data[i], StateRowAt(stateElements, i), cols))
  }

  /** Row i of `showColumn`: undefined for an empty selection; otherwise it
      keeps every key of the current row i with its value, and gains the
      first selected column c, with the record's value, exactly when the
      i-th data record has c and the current row does not. Its keys are c
      (when the record has it) followed by the current row's keys, once
      each. */
  lemma ShowRowsSpec(data: seq<Record>, stateElements: seq<Option<Record>>, cols: seq<string>, i: nat, k: string)
    requires i < |data|
    requires WellFormed(Contents(StateRowAt(stateElements, i)))
    ensures cols == [] ==> ShowRows(data, stateElements, cols)[i].None?
    ensures cols != [] ==>
      var row := ShowRows(data, stateElements, cols)[i];
      var current := Contents(StateRowAt(stateElements, i));
      var c := cols[0];
      && row.Some?
      && (k in Keys(row.value) <==> k in Keys(current) || (k == c && c in Keys(data[i])))
      && Get(row.value, k) == (
           if k in Keys(current) then Get(current, k)
           else if k == c && c in Keys(data[i]) then Get(data[i], c)
           else Undefined)
      && Keys(row.value) == Dedup((if c in Keys(data[i]) then [c] else []) + Keys(current))
  {
    var stateRow := StateRowAt(stateElements, i);
    ShowRowFirstColumnOnly(data[i], stateRow, cols);
    if cols != [] {
      ShowRowFirstColumnOnly(data[i], stateRow, [cols[0]]);
      ShowRowSpec(data[i], stateRow, cols[0], k);
    }
  }

  /** Every row `showColumn` stores is a well-formed object. */
  lemma ShowRowsWellFormed(data: seq<Record>, stateElements: seq<Option<Record>>, cols: seq<string>)
    ensures RowsWellFormed(ShowRows(data, stateElements, cols))
  {
    var rows := ShowRows(data, stateElements, cols);
    forall i | 0 <= i < |rows| && rows[i].Some? ensures WellFormed(rows[i].value) {
      var stateRow := StateRowAt(stateElements, i);
      ShowRowFirstColumnOnly(data[i], stateRow, cols);
      PickWellFormed(data[i], KeysEqualTo(Keys(data[i]), cols[0]));
    }
  }

  /** An empty selection yields an undefined row; otherwise every column
      after the first is ignored. */
  lemma ShowRowFirstColumnOnly(element: Record, stateRow: Option<Record>, cols: seq<string>)
    ensures cols == [] ==> ShowRow(element, stateRow, cols).None?
    ensures cols != [] ==> ShowRow(element, stateRow, cols) == Some(Candidate(element, stateRow, cols[0]))
  {
    if cols != [] {
      CandidatesHead(element, stateRow, cols);
    }
  }

  function Contents(stateRow: Option<Record>): Record
  {
    if stateRow.Some? then stateRow.value else []
  }

  lemma DedupHead(xs: seq<string>)
    requires xs != []
    ensures Dedup(xs) != [] && Dedup(xs)[0] == xs[0]
    decreases |xs|
  {
    if |xs| > 1 {
      DedupHead(xs[..|xs| - 1]);
      assert xs[..|xs| - 1][0] == xs[0];
    } else {
      assert xs[..0] == [];
    }
  }

  /** The `Set` of a non-empty list holding only col is {col}. */
  lemma {:induction false} DedupConstant(xs: seq<string>, col: string)
    requires xs != []
    requires forall x :: x in xs ==> x == col
    ensures Dedup(xs) == [col]
  {
    var init := xs[..|xs| - 1];
    assert xs[|xs| - 1] in xs;
    if init != [] {
      assert forall x :: x in init ==> x in xs;
      DedupConstant(init, col);
    }
  }

  lemma {:induction false} PresentSingle(keys: seq<string>, col: string)
    requires col in keys
    ensures Dedup(Present(KeysEqualTo(keys, col), keys)) == [col]
  {
    var ps := KeysEqualTo(keys, col);
    var pr := Present(ps, keys);
    assert forall x :: x in pr <==> x == col;
    var d := Dedup(pr);
    assert forall x :: x in d <==> x == col;
    assert col in d;
    DedupConstant(pr, col);
  }

  /** The row shown for column c: the current row's values win on every key
      it has, c carries the data value when the current row lacks it, and c
      is the first key when the data record has it, followed by the current
      row's keys in their order. */
  lemma ShowRowSpec(element: Record, stateRow: Option<Record>, c: string, k: string)
    requires WellFormed(Contents(stateRow))
    ensures var row := ShowRow(element, stateRow, [c]).value;
      && (k in Keys(row) <==> k in Keys(Contents(stateRow)) || (k == c && c in Keys(element)))
      && Get(row, k) == (
           if k in Keys(Contents(stateRow)) then Get(Contents(stateRow), k)
           else if k == c && c in Keys(element) then Get(element, c)
           else Undefined)
      && (c in Keys(element) ==> Keys(row)[0] == c)
      && Keys(row) == Dedup((if c in Keys(element) then [c] else []) + Keys(Contents(stateRow)))
  {
    var st := Contents(stateRow);
    var p := Pick(element, KeysEqualTo(Keys(element), c));
    var row := ShowRow(element, stateRow, [c]).value;
    assert row == AssignAll(p, st);
    PickWellFormed(element, KeysEqualTo(Keys(element), c));
    AssignAllKeys(p, st);
    AssignAllGet(p, st, k);
    PickGet(element, KeysEqualTo(Keys(element), c), k);
    if c in Keys(element) {
      PresentSingle(Keys(element), c);
      assert Keys(p) == [c];
      DedupHead([c] + Keys(st));
    } else {
      assert Present(KeysEqualTo(Keys(element), c), Keys(element)) == [];
      assert Keys(p) == [];
    }
  }

  function ExampleRow(): Record { [("a", Str("1")), ("b", Str("2"))] }

  function ExampleHidden(): Record { [("a", Str("1"))] }

  function ExampleShown(): Record { [("b", Str("2")), ("a", Str("1"))] }

  lemma WithoutExample()
    ensures Without(ExampleRow(), ["b"]) == ExampleHidden()
  {
    assert ExampleRow() == ExampleHidden() + [("b", Str("2"))];
    WithoutSnoc(ExampleHidden(), "b", Str("2"), ["b"]);
    assert ExampleHidden() == [] + [("a", Str("1"))];
    WithoutSnoc([], "a", Str("1"), ["b"]);
  }

  lemma HideRowExample()
    ensures HideRow(ExampleRow(), ["b"]) == ExampleHidden()
  {
    assert WellFormed(ExampleRow()) by {
      assert Keys(ExampleRow()) == ["a", "b"];
    }
    HideRowIsWithout(ExampleRow(), ["b"]);
    WithoutExample();
  }

  lemma HideExample()
    ensures HideRows([Some(ExampleRow())], ["b"]) == Some([Some(ExampleHidden())])
  {
    var rows := [Some(ExampleRow())];
    assert AllDefined(rows);
    var r := HideRows(rows, ["b"]);
    assert r.Some? && |r.value| == 1;
    assert r.value[0] == Some(HideRow(ExampleRow(), ["b"]));
    HideRowExample();
    assert r.value == [Some(ExampleHidden())];
  }

  lemma PickExample()
    ensures Pick(ExampleRow(), KeysEqualTo(Keys(ExampleRow()), "b")) == [("b", Str("2"))]
  {
    var ks := Keys(ExampleRow());
    assert ks == ["a", "b"];
    assert ks[..1] == ["a"];
    assert KeysEqualTo(ks, "b") == ["b"];
  }

  lemma AssignExample()
    ensures AssignAll([("b", Str("2"))], ExampleHidden()) == ExampleShown()
  {
    assert ExampleHidden()[..0] == [];
  }

  /** `showColumn` does not undo `hideColumn`: hiding b and showing it again
      moves b in front of a. */
  lemma ShowIsNotInverseOfHide()
    ensures HideRows([Some(ExampleRow())], ["b"]) == Some([Some(ExampleHidden())])
    ensures ShowRows([ExampleRow()], [Some(ExampleHidden())], ["b"]) == [Some(ExampleShown())]
    ensures ExampleShown() != ExampleRow()
  {
    HideExample();
    ShowExample();
    assert ExampleShown()[0] != ExampleRow()[0];
  }

  lemma ShowExample()
    ensures ShowRows([ExampleRow()], [Some(ExampleHidden())], ["b"]) == [Some(ExampleShown())]
  {
    ShowSingle(ExampleRow(), ExampleHidden(), "b");
    CandidateExample();
  }

  /** One record, one current row and one selected column give one row. */
  lemma ShowSingle(element: Record, stateRow: Record, c: string)
    ensures ShowRows([element], [Some(stateRow)], [c]) == [Some(Candidate(element, Some(stateRow), c))]
  {
    var rows := ShowRows([element], [Some(stateRow)], [c]);
    assert rows[0] == ShowRow(element, StateRowAt([Some(stateRow)], 0), [c]);
    ShowRowFirstColumnOnly(element, Some(stateRow), [c]);
  }

  lemma CandidateExample()
    ensures Candidate(ExampleRow(), Some(ExampleHidden()), "b") == ExampleShown()
  {
    PickExample();
    AssignExample();
  }


  // ---------------------------------------------------------------------
  // onColumnChange (Table.tsx:259-271)
  // ---------------------------------------------------------------------

  /** An `<option>` of the column selector. */
  datatype SelectOption = SelectOption(value: string, selected: bool)

  /** The values of the selected options, in option order. */
  function SelectedValues(options: seq<SelectOption>): (values: seq<string>)
    ensures |values| <= |options|
    ensures forall v :: v in values <==> exists i :: 0 <= i < |options| && options[i].selected && options[i].value == v
  {
    if options == [] then []
    else
      var init := options[..|options| - 1];
      var last := options[|options| - 1];
      assert forall i :: 0 <= i < |init| ==> init[i] == options[i];
      SelectedValues(init) + (if last.selected then [last.value] else [])
  }
}
