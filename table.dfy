/** The table component (Table.tsx) as an object: `props.data`, whose records
    `componentDidMount` fills in place, the allow-list `props.displayColumns`,
    and the two state entries `elements` and `selectedColumns`. `setState` is
    modelled as an immediate assignment of the field. */
module TableComponent {
  import opened Wrappers
  import opened Records
  import opened Projection

  class Table {
    /** `props.data` */
    var data: seq<Record>
    /** `props.displayColumns`: the allow-list of normalised names. */
    const displayColumns: seq<string>
    /** `state.elements`; `None` while the state is unset. A row is `None`
        where `showColumn` stored `undefined`. */
    var elements: Option<seq<Option<Record>>>
    /** `state.selectedColumns`; `None` while unset. */
    var selectedColumns: Option<seq<string>>

    /** Every record and every defined row is a JavaScript object: no key
        occurs twice in it. */
    predicate Valid()
      reads this
    {
      && (forall i :: 0 <= i < |data| ==> WellFormed(data[i]))
      && (elements.Some? ==> RowsWellFormed(elements.value))
    }

    /** The constructor leaves the state undefined. */
    constructor(data: seq<Record>, displayColumns: seq<string>)
      requires forall i :: 0 <= i < |data| ==> WellFormed(data[i])
      ensures Valid()
      ensures this.data == data && this.displayColumns == displayColumns
      ensures elements.None? && selectedColumns.None?
    {
      this.data := data;
      this.displayColumns := displayColumns;
      elements := None;
      selectedColumns := None;
    }

    /** What `render` shows for the current state. */
    function View(): TableView
      reads this
    {
      ShowMUITable(elements)
    }

    /** `componentDidMount`: fills every record of `props.data` in place with
        the catalog keys it lacks, then stores, per record, the re-keyed copy
        holding the allow-listed fields. */
    method ComponentDidMount()
      requires Valid()
      modifies this
      ensures Valid()
      ensures |data| == |old(data)|
      ensures forall i :: 0 <= i < |data| ==> data[i] == Fill(old(data)[i], Catalog(old(data)))
      ensures elements.Some? && |elements.value| == |data|
      ensures forall i :: 0 <= i < |data| ==>
        elements.value[i] == Some(MountedRow(old(data)[i], Catalog(old(data)), displayColumns))
      ensures selectedColumns == old(selectedColumns)
      ensures View().Rendered? <==> |data| > 0
      ensures |data| == 0 ==> View() == Throws
    {
      var filledData, elems := MountElements(data, displayColumns);
      data := filledData;
      elements := Some(elems);
      MountedWellFormed(old(data), displayColumns);
      assert AllDefined(elems);
    }

    /** `hideColumn`. When the state is set it drops every selected key from
        every row; `threw` reports the `TypeError` of `Object.keys(undefined)`
        on an undefined row, after which the state is as it was. */
    method HideColumn() returns (threw: bool)
      requires Valid()
      modifies this
      ensures Valid()
      ensures data == old(data) && selectedColumns == old(selectedColumns)
      ensures old(elements).None? || old(selectedColumns).None? ==> !threw && elements == old(elements)
      ensures old(elements).Some? && old(selectedColumns).Some? ==>
        && (threw <==> HideRows(old(elements).value, old(selectedColumns).value).None?)
        && elements == (if threw then old(elements) else HideRows(old(elements).value, old(selectedColumns).value))
        && (!threw ==> forall i :: 0 <= i < |elements.value| ==>
              elements.value[i] == if old(elements).value[i].Some?
                then Some(Without(old(elements).value[i].value, old(selectedColumns).value))
                else None)
    {
      threw := false;
      if elements.None? || selectedColumns.None? {
        return;
      }
      var elems := HideElements(elements.value, selectedColumns.value);
      if elems.None? {
        threw := true;
      } else {
        forall i | 0 <= i < |elems.value|
          ensures elems.value[i] == if elements.value[i].Some?
            then Some(Without(elements.value[i].value, selectedColumns.value))
            else None
          ensures RowsWellFormed(elems.value)
        {
          HideRowsSpec(elements.value, selectedColumns.value, i);
        }
        elements := elems;
      }
    }

    /** `showColumn`. When the state is set it rebuilds one row per record of
        `props.data`, from that record's selected key merged with the current
        row at the same index. */
    method ShowColumn()
      requires Valid()
      modifies this
      ensures Valid()
      ensures data == old(data) && selectedColumns == old(selectedColumns)
      ensures old(elements).None? || old(selectedColumns).None? ==> elements == old(elements)
      ensures old(elements).Some? && old(selectedColumns).Some? ==>
        elements == Some(ShowRows(data, old(elements).value, old(selectedColumns).value))
      ensures old(elements).Some? && old(selectedColumns) == Some([]) ==> View() == Throws
    {
      if elements.None? || selectedColumns.None? {
        return;
      }
      var elems := ShowElements(data, elements.value, selectedColumns.value);
      ShowRowsWellFormed(data, elements.value, selectedColumns.value);
      elements := Some(elems);
    }

    /** `onColumnChange`: stores the values of the selected options. */
    method OnColumnChange(options: seq<SelectOption>)
      requires Valid()
      modifies this
      ensures Valid()
      ensures selectedColumns == Some(SelectedValues(options))
      ensures data == old(data) && elements == old(elements)
    {
      var selectedItems := SelectedItems(options);
      selectedColumns := Some(selectedItems);
    }
  }

  /** Filling well-formed records keeps them well-formed, and every mounted
      row is well-formed. */
  lemma MountedWellFormed(data: seq<Record>, displayColumns: seq<string>)
    requires forall i :: 0 <= i < |data| ==> WellFormed(data[i])
    ensures forall i :: 0 <= i < |data| ==> WellFormed(Fill(data[i], Catalog(data)))
    ensures forall i :: 0 <= i < |data| ==> WellFormed(MountedRow(data[i], Catalog(data), displayColumns))
  {
    forall i | 0 <= i < |data|
      ensures WellFormed(Fill(data[i], Catalog(data)))
      ensures WellFormed(MountedRow(data[i], Catalog(data), displayColumns))
    {
      FillSpec(data[i], Catalog(data));
      MountedRowSpec(data[i], Catalog(data), displayColumns, "");
    }
  }

  /** The loop of `componentDidMount` (Table.tsx:164-176): the records with
      their missing catalog keys blanked, and the rows built from them. */
  method MountElements(data: seq<Record>, displayColumns: seq<string>) returns (filledData: seq<Record>, elems: seq<Option<Record>>)
    ensures |filledData| == |data| && |elems| == |data|
    ensures forall i :: 0 <= i < |data| ==> filledData[i] == Fill(data[i], Catalog(data))
    ensures forall i :: 0 <= i < |data| ==> elems[i] == Some(MountedRow(data[i], Catalog(data), displayColumns))
  {
    var unique := Catalog(data);
    filledData := data;
    elems := [];
    var i := 0;
    while i < |data|
      invariant 0 <= i <= |data| && |filledData| == |data| && |elems| == i
      invariant forall j :: 0 <= j < i ==>
        filledData[j] == Fill(data[j], unique) && elems[j] == Some(MountedRow(data[j], unique, displayColumns))
    {
      var element, orderedElement := MountRow(data[i], unique, displayColumns);
      filledData := filledData[i := element];
      elems := elems + [Some(orderedElement)];
      i := i + 1;
    }
  }

  /** One pass of the loop of `componentDidMount` (Table.tsx:165-175): the
      record filled in, and the row built from it. */
  method MountRow(record: Record, unique: seq<string>, displayColumns: seq<string>) returns (element: Record, orderedElement: Record)
    ensures element == Fill(record, unique)
    ensures orderedElement == MountedRow(record, unique, displayColumns)
  {
    element := FillMissing(record, unique);
    orderedElement := OrderElement(element, ColumnNamesForDisplay(Keys(element), displayColumns));
  }

  /** The loop of `hideColumn` (Table.tsx:220-229); `None` when it throws. */
  method HideElements(rows: seq<Option<Record>>, cols: seq<string>) returns (elems: Option<seq<Option<Record>>>)
    ensures elems == HideRows(rows, cols)
    ensures elems.None? <==> cols != [] && exists i :: 0 <= i < |rows| && rows[i].None?
  {
    var acc: seq<Option<Record>> := [];
    var i := 0;
    while i < |rows|
      invariant 0 <= i <= |rows| && |acc| == i
      invariant cols != [] ==> forall j :: 0 <= j < i ==> rows[j].Some?
      invariant forall j :: 0 <= j < i ==> acc[j] == HiddenRow(rows[j], cols)
    {
      var element := rows[i];
      if element.None? && cols != [] {
        // `Object.keys(undefined)` throws on the first selected column.
        assert !AllDefined(rows);
        return None;
      }
      assert cols != [] ==> forall j :: 0 <= j < i + 1 ==> rows[j].Some?;
      var filteredElement := element;
      if element.Some? {
        var filtered := HideElement(element.value, cols);
        filteredElement := Some(filtered);
      }
      acc := acc + [filteredElement];
      i := i + 1;
    }
    assert cols != [] ==> AllDefined(rows);
    ghost var hidden := HideRows(rows, cols).value;
    assert hidden == seq(|rows|, j requires 0 <= j < |rows| => HiddenRow(rows[j], cols));
    assert forall j :: 0 <= j < |rows| ==> acc[j] == hidden[j];
    assert acc == hidden;
    elems := Some(acc);
  }

  /** The loop of `showColumn` (Table.tsx:279-288). */
  method ShowElements(data: seq<Record>, stateElements: seq<Option<Record>>, cols: seq<string>) returns (elems: seq<Option<Record>>)
    ensures elems == ShowRows(data, stateElements, cols)
    ensures cols == [] ==> forall i :: 0 <= i < |elems| ==> elems[i].None?
  {
    elems := [];
    var index := 0;
    while index < |data|
      invariant 0 <= index <= |data| && |elems| == index
      invariant forall j :: 0 <= j < index ==> elems[j] == ShowRow(data[j], StateRowAt(stateElements, j), cols)
    {
      var element := data[index];
      var stateRow := if index < |stateElements| then stateElements[index] else None;
      var filteredElement := ShowCandidates(element, stateRow, cols);
      elems := elems + [if |filteredElement| == 0 then None else Some(filteredElement[0])];
      index := index + 1;
    }
  }

  /** The inner loop of `showColumn` (Table.tsx:282-286). */
  method ShowCandidates(element: Record, stateRow: Option<Record>, cols: seq<string>) returns (filteredElement: seq<Record>)
    ensures filteredElement == Candidates(element, stateRow, cols)
    ensures |filteredElement| == |cols|
  {
    filteredElement := [];
    var c := 0;
    while c < |cols|
      invariant 0 <= c <= |cols|
      invariant filteredElement == Candidates(element, stateRow, cols[..c])
    {
      var properties := KeysEqualTo(Keys(element), cols[c]);
      filteredElement := filteredElement + [Assign(Pick(element, properties), stateRow)];
      assert cols[..c + 1][..c] == cols[..c];
      c := c + 1;
    }
    assert cols[..|cols|] == cols;
  }

  /** The loop of `onColumnChange` (Table.tsx:262-268). */
  method SelectedItems(options: seq<SelectOption>) returns (selectedItems: seq<string>)
    ensures selectedItems == SelectedValues(options)
    ensures forall v :: v in selectedItems ==> exists i :: 0 <= i < |options| && options[i].selected && options[i].value == v
  {
    selectedItems := [];
    var i := 0;
    while i < |options|
      invariant 0 <= i <= |options|
      invariant selectedItems == SelectedValues(options[..i])
    {
      assert options[..i + 1][..i] == options[..i];
      if options[i].selected {
        selectedItems := selectedItems + [options[i].value];
      }
      i := i + 1;
    }
    assert options[..|options|] == options;
  }

  /** `properties.map((prop) => { element[prop] = ""; })` after computing
      `properties` as the catalog keys the record lacks. */
  method FillMissing(element: Record, unique: seq<string>) returns (filled: Record)
    ensures filled == Fill(element, unique)
    ensures forall k :: k in unique ==> k in Keys(filled)
    ensures forall k :: k in Keys(element) ==> Get(filled, k) == Get(element, k)
  {
    var properties := Absent(unique, Keys(element));
    filled := element;
    var p := 0;
    while p < |properties|
      invariant 0 <= p <= |properties|
      invariant filled == SetBlank(element, properties[..p])
    {
      assert properties[..p + 1][..p] == properties[..p];
      filled := Set(filled, properties[p], Str(""));
      p := p + 1;
    }
    assert properties[..|properties|] == properties;
    forall k ensures (k in unique ==> k in Keys(filled)) && (k in Keys(element) ==> Get(filled, k) == Get(element, k)) {
      FillKeeps(element, unique, k);
    }
  }

  /** The callback `hideColumn` runs on a defined row: for each selected
      column in turn, `_.pick` the running result down to the row's keys
      other than that column. */
  method HideElement(element: Record, cols: seq<string>) returns (filteredElement: Record)
    ensures filteredElement == HideRow(element, cols)
    ensures WellFormed(element) ==> filteredElement == Without(element, cols)
  {
    filteredElement := element;
    var c := 0;
    while c < |cols|
      invariant 0 <= c <= |cols|
      invariant filteredElement == HideRow(element, cols[..c])
    {
      var properties := KeysOtherThan(Keys(element), cols[c]);
      filteredElement := Pick(filteredElement, properties);
      assert cols[..c + 1][..c] == cols[..c];
      c := c + 1;
    }
    assert cols[..|cols|] == cols;
    if WellFormed(element) {
      HideRowIsWithout(element, cols);
    }
  }

  /** `cols.forEach((key) => { orderedElement[key] = element[key]; })` */
  method OrderElement(element: Record, cols: seq<string>) returns (orderedElement: Record)
    ensures orderedElement == Reorder(element, cols)
    ensures Keys(orderedElement) == Dedup(cols)
    ensures forall k :: Get(orderedElement, k) == if k in cols then Get(element, k) else Undefined
  {
    orderedElement := [];
    var c := 0;
    while c < |cols|
      invariant 0 <= c <= |cols|
      invariant orderedElement == Reorder(element, cols[..c])
    {
      assert cols[..c + 1][..c] == cols[..c];
      orderedElement := Set(orderedElement, cols[c], Get(element, cols[c]));
      c := c + 1;
    }
    assert cols[..|cols|] == cols;
    forall k ensures Get(orderedElement, k) == if k in cols then Get(element, k) else Undefined {
      ReorderGet(element, cols, k);
    }
  }
}
