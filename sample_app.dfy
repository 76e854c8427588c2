/** The allow-list of the sample application (App.tsx:58-63 of
    openplant-extensibility-sample): the configured display properties whose
    status is not "Hide", each reduced to the normal form of its name. */
module SampleApp {
  import opened Text
  import opened Records
  import opened Projection

  /** One entry of `properties.DisplayProperties` in the configuration. */
  datatype DisplayProperty = DisplayProperty(propertyName: string, displayStatus: string)

  predicate Hidden(p: DisplayProperty)
  {
    p.displayStatus == "Hide"
  }

  /** `filter((v) => v.DisplayStatus != "Hide")` */
  function Shown(props: seq<DisplayProperty>): (shown: seq<DisplayProperty>)
    ensures |shown| <= |props|
    ensures forall p :: p in shown <==> p in props && !Hidden(p)
  {
    if props == [] then []
    else
      var init := props[..|props| - 1];
      var last := props[|props| - 1];
      assert props == init + [last];
      Shown(init) + (if Hidden(last) then [] else [last])
  }

  /** The `displayColumns` the application hands to the table. */
  function DisplayColumns(props: seq<DisplayProperty>): (cols: seq<string>)
    ensures |cols| == |Shown(props)|
    ensures forall i :: 0 <= i < |cols| ==> cols[i] == NormalizeName(Shown(props)[i].propertyName)
    ensures forall c :: c in cols ==> IsNormalized(c)
  {
    var shown := Shown(props);
    seq(|shown|, i requires 0 <= i < |shown| => NormalizeName(shown[i].propertyName))
  }

  lemma ShownSnoc(props: seq<DisplayProperty>, p: DisplayProperty)
    ensures Shown(props + [p]) == Shown(props) + (if Hidden(p) then [] else [p])
  {
    assert (props + [p])[..|props|] == props;
  }

  /** Filtering distributes over concatenation, so entries that survive keep
      their relative order. */
  lemma {:induction false} ShownAppend(xs: seq<DisplayProperty>, ys: seq<DisplayProperty>)
    ensures Shown(xs + ys) == Shown(xs) + Shown(ys)
    decreases |ys|
  {
    if ys == [] {
      assert xs + ys == xs;
      assert Shown(xs) + [] == Shown(xs);
    } else {
      var init := ys[..|ys| - 1];
      var last := ys[|ys| - 1];
      var tail := if Hidden(last) then [] else [last];
      assert ys == init + [last];
      assert xs + ys == (xs + init) + [last];
      calc {
        Shown(xs + ys);
        == { ShownSnoc(xs + init, last); }
        Shown(xs + init) + tail;
        == { ShownAppend(xs, init); }
        (Shown(xs) + Shown(init)) + tail;
        ==
        Shown(xs) + (Shown(init) + tail);
        == { ShownSnoc(init, last); }
        Shown(xs) + Shown(ys);
      }
    }
  }

  /** Nothing is dropped exactly when no entry is hidden; otherwise the list
      gets strictly shorter. */
  lemma {:induction false} ShownLength(props: seq<DisplayProperty>)
    ensures |Shown(props)| == |props| <==> forall i :: 0 <= i < |props| ==> !Hidden(props[i])
    ensures (forall i :: 0 <= i < |props| ==> !Hidden(props[i])) ==> Shown(props) == props
  {
    if props != [] {
      var init := props[..|props| - 1];
      var last := props[|props| - 1];
      assert props == init + [last];
      ShownLength(init);
      assert forall i :: 0 <= i < |init| ==> init[i] == props[i];
    }
  }

  /** The entries kept, in order: the i-th column comes from the i-th kept
      entry, and every visible entry contributes its column. */
  lemma DisplayColumnsCover(props: seq<DisplayProperty>, i: nat)
    requires i < |props| && !Hidden(props[i])
    ensures NormalizeName(props[i].propertyName) in DisplayColumns(props)
  {
    var shown := Shown(props);
    assert props[i] in shown;
    var j :| 0 <= j < |shown| && shown[j] == props[i];
    assert DisplayColumns(props)[j] == NormalizeName(props[i].propertyName);
  }

  /** A hidden entry contributes nothing: with it removed from the end the
      allow-list is the same. */
  lemma HiddenContributesNothing(props: seq<DisplayProperty>, p: DisplayProperty)
    requires Hidden(p)
    ensures DisplayColumns(props + [p]) == DisplayColumns(props)
  {
    ShownAppend(props, [p]);
    assert [p][..0] == [];
    assert Shown(props) + [] == Shown(props);
  }

  /** The allow-list is already in normal form: normalising it again, as the
      table does to record keys, changes nothing. */
  lemma DisplayColumnsFixed(props: seq<DisplayProperty>)
    ensures forall c :: c in DisplayColumns(props) ==> NormalizeName(c) == c
  {
    forall c | c in DisplayColumns(props) ensures NormalizeName(c) == c {
      NormalizedIsFixed(c);
    }
  }

  /** The application and the table normalise with the same chain: a record
      key whose normal form equals a visible entry's normal form is chosen by
      the table, under the first key of that normal form. */
  lemma TableSelectsConfiguredKey(props: seq<DisplayProperty>, i: nat, keys: seq<string>, k: string)
    requires i < |props| && !Hidden(props[i])
    requires k in keys && NormalizeName(k) == NormalizeName(props[i].propertyName)
    ensures exists c :: c in ColumnNamesForDisplay(keys, DisplayColumns(props)) && NormalizeName(c) == NormalizeName(k)
  {
    var colsFromFile := DisplayColumns(props);
    var n := NormalizeName(k);
    DisplayColumnsCover(props, i);
    var j :| 0 <= j < |keys| && keys[j] == k;
    assert NormalizedKeys(keys)[j] == n;
    assert n in Present(colsFromFile, NormalizedKeys(keys));
    var cols := ColumnNamesForDisplay(keys, colsFromFile);
    var m :| 0 <= m < |NormalizedKeys(cols)| && NormalizedKeys(cols)[m] == n;
    assert cols[m] in cols && NormalizeName(cols[m]) == n;
  }
}
