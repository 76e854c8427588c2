/** The choice of views in the viewer application (App.tsx of
    openplant-viewer, `getViewDefinitionId` and `viewSort`). The module-level
    variables `views3D`, `views2D`, `viewMap`, `initialDrawingName`,
    `initialView` and `currentView` are the fields of one object; the view
    query is a parameter. */
module ViewDefinitions {
  import opened Wrappers
  import opened Text

  /** The parts of a view definition's properties the choice reads. */
  datatype ViewSpec = ViewSpec(id: string, classFullName: string, code: string)

  const OrthographicClass: string := "BisCore:OrthographicViewDefinition"
  const DrawingClass: string := "BisCore:DrawingViewDefinition"

  predicate Is3D(v: ViewSpec) { v.classFullName == OrthographicClass }

  predicate Is2D(v: ViewSpec) { v.classFullName == DrawingClass }

  /** `-1 !== acceptedViewClasses.indexOf(spec.classFullName)` */
  predicate IsAccepted(v: ViewSpec) { Is3D(v) || Is2D(v) }

  /** The specs of an accepted class, in query order. */
  function AcceptedSpecs(specs: seq<ViewSpec>): (accepted: seq<ViewSpec>)
    ensures forall v :: v in accepted <==> v in specs && IsAccepted(v)
  {
    if specs == [] then []
    else
      var init := specs[..|specs| - 1];
      var last := specs[|specs| - 1];
      assert specs == init + [last];
      AcceptedSpecs(init) + (if IsAccepted(last) then [last] else [])
  }

  /** How `getViewDefinitionId` fails: the error it throws when no view is
      accepted, or the `TypeError` of reading through `undefined`. */
  datatype ViewError = NoValidViews | TypeError

  // ---------------------------------------------------------------------
  // viewSort (App.tsx:416-420)
  // ---------------------------------------------------------------------

  /** `a.localeCompare(b) <= 0`, as plain lexicographic order on code points. */
  function CodeLeq(a: string, b: string): bool
  {
    if a == [] then true
    else if b == [] then false
    else if a[0] != b[0] then a[0] < b[0]
    else CodeLeq(a[1..], b[1..])
  }

  lemma {:induction false} CodeLeqTotal(a: string, b: string)
    ensures CodeLeq(a, b) || CodeLeq(b, a)
  {
    if a != [] && b != [] && a[0] == b[0] {
      CodeLeqTotal(a[1..], b[1..]);
    }
  }

  lemma {:induction false} CodeLeqTransitive(a: string, b: string, c: string)
    requires CodeLeq(a, b) && CodeLeq(b, c)
    ensures CodeLeq(a, c)
  {
    if a != [] && b != [] && c != [] && a[0] == b[0] && b[0] == c[0] {
      CodeLeqTransitive(a[1..], b[1..], c[1..]);
    }
  }

  predicate SortedByCode(s: seq<ViewSpec>)
  {
    forall i, j :: 0 <= i < j < |s| ==> CodeLeq(s[i].code, s[j].code)
  }

  /** Inserts x after every element whose code is not greater than its own,
      so equal codes keep their order. */
  function InsertByCode(s: seq<ViewSpec>, x: ViewSpec): (r: seq<ViewSpec>)
    ensures multiset(r) == multiset(s) + multiset{x}
    ensures |r| == |s| + 1
  {
    if s == [] then [x]
    else
      var init := s[..|s| - 1];
      var last := s[|s| - 1];
      assert s == init + [last];
      if CodeLeq(last.code, x.code) then s + [x] else InsertByCode(init, x) + [last]
  }

  /** `views.sort(viewSort)`: a stable sort by code. */
  function SortByCode(xs: seq<ViewSpec>): (s: seq<ViewSpec>)
    ensures multiset(s) == multiset(xs)
    ensures |s| == |xs|
  {
    if xs == [] then []
    else
      var init := xs[..|xs| - 1];
      assert xs == init + [xs[|xs| - 1]];
      InsertByCode(SortByCode(init), xs[|xs| - 1])
  }

  lemma {:induction false} InsertSorted(s: seq<ViewSpec>, x: ViewSpec)
    requires SortedByCode(s)
    ensures SortedByCode(InsertByCode(s, x))
  {
    if s != [] {
      var init := s[..|s| - 1];
      var last := s[|s| - 1];
      assert s == init + [last];
      if CodeLeq(last.code, x.code) {
        var r := s + [x];
        forall i, j | 0 <= i < j < |r| ensures CodeLeq(r[i].code, r[j].code) {
          if j == |s| && i < |s| - 1 {
            CodeLeqTransitive(r[i].code, last.code, x.code);
          }
        }
      } else {
        CodeLeqTotal(last.code, x.code);
        assert SortedByCode(init);
        InsertSorted(init, x);
        var mid := InsertByCode(init, x);
        var r := mid + [last];
        forall i, j | 0 <= i < j < |r| ensures CodeLeq(r[i].code, r[j].code) {
          if j == |mid| {
            assert r[i] in multiset(mid);
            assert r[i] in init || r[i] == x;
          }
        }
      }
    }
  }

  /** The sorted views are ordered by code and are the same views. */
  lemma {:induction false} SortByCodeSorted(xs: seq<ViewSpec>)
    ensures SortedByCode(SortByCode(xs))
  {
    if xs != [] {
      SortByCodeSorted(xs[..|xs| - 1]);
      InsertSorted(SortByCode(xs[..|xs| - 1]), xs[|xs| - 1]);
    }
  }

  // ---------------------------------------------------------------------
  // getViewDefinitionId: the loading loop (App.tsx:380-397)
  // ---------------------------------------------------------------------

  /** The 3D views in query order. */
  function Views3DOf(accepted: seq<ViewSpec>): (vs: seq<ViewSpec>)
    ensures forall v :: v in vs <==> v in accepted && Is3D(v)
  {
    if accepted == [] then []
    else
      var init := accepted[..|accepted| - 1];
      var last := accepted[|accepted| - 1];
      assert accepted == init + [last];
      Views3DOf(init) + (if Is3D(last) then [last] else [])
  }

  /** The 2D views in query order. */
  function Views2DOf(accepted: seq<ViewSpec>): (vs: seq<ViewSpec>)
    ensures forall v :: v in vs <==> v in accepted && Is2D(v)
  {
    if accepted == [] then []
    else
      var init := accepted[..|accepted| - 1];
      var last := accepted[|accepted| - 1];
      assert accepted == init + [last];
      Views2DOf(init) + (if !Is3D(last) && Is2D(last) then [last] else [])
  }

  /** `viewMap` after the loop: each 3D or 2D view under its id, a later view
      replacing an earlier one with the same id. */
  function ViewMapOf(accepted: seq<ViewSpec>): map<string, ViewSpec>
  {
    if accepted == [] then map[]
    else
      var init := accepted[..|accepted| - 1];
      var last := accepted[|accepted| - 1];
      if IsAccepted(last) then ViewMapOf(init)[last.id := last] else ViewMapOf(init)
  }

  /** A 2D view whose code matches the drawing name, ignoring case. */
  predicate MatchesDrawing(v: ViewSpec, lowerName: string)
  {
    !Is3D(v) && Is2D(v) && ToLower(v.code) == lowerName
  }

  predicate NoDrawingMatch(accepted: seq<ViewSpec>, lowerName: string)
  {
    forall i :: 0 <= i < |accepted| ==> !MatchesDrawing(accepted[i], lowerName)
  }

  /** `initialView` after the loop: the last matching 2D view, or the value it
      had before. */
  function InitialAfter(accepted: seq<ViewSpec>, lowerName: string, prior: Option<ViewSpec>): Option<ViewSpec>
  {
    if accepted == [] then prior
    else
      var init := accepted[..|accepted| - 1];
      var last := accepted[|accepted| - 1];
      if MatchesDrawing(last, lowerName) then Some(last) else InitialAfter(init, lowerName, prior)
  }

  /** `initialView` after `if (!initialView) initialView = views2D[0]`. */
  function ChooseInitial(accepted: seq<ViewSpec>, lowerName: string, prior: Option<ViewSpec>): Option<ViewSpec>
  {
    var found := InitialAfter(accepted, lowerName, prior);
    var sorted2D := SortByCode(Views2DOf(accepted));
    if found.Some? then found else if sorted2D == [] then None else Some(sorted2D[0])
  }

  /** Every accepted view lands in exactly one of the two lists, and nothing
      else lands in either. */
  lemma {:induction false} ViewsPartition(specs: seq<ViewSpec>)
    ensures multiset(Views3DOf(specs)) + multiset(Views2DOf(specs)) == multiset(AcceptedSpecs(specs))
  {
    if specs != [] {
      var init := specs[..|specs| - 1];
      var last := specs[|specs| - 1];
      assert specs == init + [last];
      ViewsPartition(init);
    }
  }

  /** The map holds exactly the ids of the accepted views, each under a view
      that carries that id. */
  lemma {:induction false} ViewMapSpec(accepted: seq<ViewSpec>, k: string)
    ensures k in ViewMapOf(accepted) <==> exists v :: v in accepted && IsAccepted(v) && v.id == k
    ensures k in ViewMapOf(accepted) ==> ViewMapOf(accepted)[k].id == k && ViewMapOf(accepted)[k] in accepted
  {
    if accepted != [] {
      var init := accepted[..|accepted| - 1];
      var last := accepted[|accepted| - 1];
      assert accepted == init + [last];
      assert forall v :: v in accepted <==> v in init || v == last;
      ViewMapSpec(init, k);
    }
  }

  /** Without a match the previous `initialView` survives the loop. */
  lemma {:induction false} InitialAfterNoMatch(accepted: seq<ViewSpec>, lowerName: string, prior: Option<ViewSpec>)
    requires NoDrawingMatch(accepted, lowerName)
    ensures InitialAfter(accepted, lowerName, prior) == prior
  {
    if accepted != [] {
      InitialAfterNoMatch(accepted[..|accepted| - 1], lowerName, prior);
    }
  }

  /** With a match the last matching view wins. */
  lemma {:induction false} InitialAfterLastMatch(accepted: seq<ViewSpec>, lowerName: string, prior: Option<ViewSpec>, i: nat)
    requires i < |accepted| && MatchesDrawing(accepted[i], lowerName)
    requires forall j :: i < j < |accepted| ==> !MatchesDrawing(accepted[j], lowerName)
    ensures InitialAfter(accepted, lowerName, prior) == Some(accepted[i])
  {
    if i < |accepted| - 1 {
      InitialAfterLastMatch(accepted[..|accepted| - 1], lowerName, prior, i);
    }
  }

  /** Without a match and with no earlier initial view, the chosen view is a
      2D view whose code is the least of all 2D codes. */
  lemma ChooseInitialFirstSorted(accepted: seq<ViewSpec>, lowerName: string)
    requires NoDrawingMatch(accepted, lowerName)
    ensures var chosen := ChooseInitial(accepted, lowerName, None);
      && (chosen.None? <==> Views2DOf(accepted) == [])
      && (chosen.Some? ==> chosen.value in Views2DOf(accepted))
      && (chosen.Some? ==> forall v :: v in Views2DOf(accepted) ==> CodeLeq(chosen.value.code, v.code))
  {
    InitialAfterNoMatch(accepted, lowerName, None);
    var sorted2D := SortByCode(Views2DOf(accepted));
    SortByCodeSorted(Views2DOf(accepted));
    if sorted2D != [] {
      assert sorted2D[0] in multiset(Views2DOf(accepted));
      forall v | v in Views2DOf(accepted) ensures CodeLeq(sorted2D[0].code, v.code) {
        assert v in multiset(sorted2D);
        var j :| 0 <= j < |sorted2D| && sorted2D[j] == v;
        if j == 0 {
          CodeLeqTotal(v.code, v.code);
        }
      }
    } else {
      assert |Views2DOf(accepted)| == 0;
    }
  }

  /** `viewMap.get(viewId)`: `undefined` for an unknown id. */
  function Lookup(m: map<string, ViewSpec>, viewId: string): (v: Option<ViewSpec>)
    ensures v.Some? <==> viewId in m
    ensures v.Some? ==> v.value == m[viewId]
  {
    if viewId in m then Some(m[viewId]) else None
  }

  /** The view at position j is the last accepted definition carrying viewId. */
  predicate LastAcceptedWithId(accepted: seq<ViewSpec>, viewId: string, j: int)
  {
    && 0 <= j < |accepted| && IsAccepted(accepted[j]) && accepted[j].id == viewId
    && forall j' :: j < j' < |accepted| ==> !(IsAccepted(accepted[j']) && accepted[j'].id == viewId)
  }

  /** The map keeps, under each of its ids, the last accepted definition
      carrying it: a later `viewMap.set` overwrites an earlier one. */
  lemma {:induction false} ViewMapLast(accepted: seq<ViewSpec>, viewId: string)
    requires viewId in ViewMapOf(accepted)
    ensures exists j :: LastAcceptedWithId(accepted, viewId, j) && accepted[j] == ViewMapOf(accepted)[viewId]
  {
    var init := accepted[..|accepted| - 1];
    var last := accepted[|accepted| - 1];
    var n := |accepted| - 1;
    if IsAccepted(last) && last.id == viewId {
      assert ViewMapOf(accepted)[viewId] == last;
      assert LastAcceptedWithId(accepted, viewId, n);
    } else {
      assert ViewMapOf(accepted) == ViewMapOf(init) || ViewMapOf(accepted) == ViewMapOf(init)[last.id := last];
      assert viewId in ViewMapOf(init) && ViewMapOf(accepted)[viewId] == ViewMapOf(init)[viewId];
      ViewMapLast(init, viewId);
      var j :| LastAcceptedWithId(init, viewId, j) && init[j] == ViewMapOf(init)[viewId];
      assert LastAcceptedWithId(accepted, viewId, j);
    }
  }

  /** `viewMap.get(viewId)` after loading: a view exactly when some accepted
      definition carries that id, and then the last such definition in query
      order. */
  lemma LookupLoaded(accepted: seq<ViewSpec>, viewId: string)
    ensures Lookup(ViewMapOf(accepted), viewId).Some? <==> exists v :: v in accepted && IsAccepted(v) && v.id == viewId
    ensures Lookup(ViewMapOf(accepted), viewId).Some? ==>
      exists j :: LastAcceptedWithId(accepted, viewId, j) && accepted[j] == Lookup(ViewMapOf(accepted), viewId).value
  {
    ViewMapSpec(accepted, viewId);
    if viewId in ViewMapOf(accepted) {
      ViewMapLast(accepted, viewId);
    }
  }

  /** The loading loop: the unsorted lists, the map and `initialView`. */
  method LoadViews(acceptedViewSpecs: seq<ViewSpec>, lowerName: string, prior: Option<ViewSpec>)
    returns (views3D: seq<ViewSpec>, views2D: seq<ViewSpec>, viewMap: map<string, ViewSpec>, initialView: Option<ViewSpec>)
    ensures views3D == Views3DOf(acceptedViewSpecs) && views2D == Views2DOf(acceptedViewSpecs)
    ensures viewMap == ViewMapOf(acceptedViewSpecs)
    ensures initialView == InitialAfter(acceptedViewSpecs, lowerName, prior)
  {
    views3D, views2D, viewMap, initialView := [], [], map[], prior;
    var i := 0;
    while i < |acceptedViewSpecs|
      invariant 0 <= i <= |acceptedViewSpecs|
      invariant views3D == Views3DOf(acceptedViewSpecs[..i]) && views2D == Views2DOf(acceptedViewSpecs[..i])
      invariant viewMap == ViewMapOf(acceptedViewSpecs[..i])
      invariant initialView == InitialAfter(acceptedViewSpecs[..i], lowerName, prior)
    {
      var elem := acceptedViewSpecs[i];
      assert acceptedViewSpecs[..i + 1][..i] == acceptedViewSpecs[..i];
      assert acceptedViewSpecs[..i + 1][i] == elem;
      if elem.classFullName == OrthographicClass {
        views3D := views3D + [elem];
        viewMap := viewMap[elem.id := elem];
      } else if elem.classFullName == DrawingClass {
        views2D := views2D + [elem];
        viewMap := viewMap[elem.id := elem];
        if ToLower(elem.code) == lowerName {
          initialView := Some(elem);
        }
      }
      i := i + 1;
    }
    assert acceptedViewSpecs[..|acceptedViewSpecs|] == acceptedViewSpecs;
  }

  /** The view variables after a load. */
  datatype Views = Views(views3D: seq<ViewSpec>, views2D: seq<ViewSpec>, viewMap: map<string, ViewSpec>, initialView: Option<ViewSpec>)

  /** What loading the accepted views leaves behind: both lists sorted, the
      map of all of them, and the chosen initial view. */
  function Loaded(accepted: seq<ViewSpec>, lowerName: string, prior: Option<ViewSpec>): Views
  {
    Views(SortByCode(Views3DOf(accepted)), SortByCode(Views2DOf(accepted)), ViewMapOf(accepted),
          ChooseInitial(accepted, lowerName, prior))
  }

  /** App.tsx:380-404: the loop, the two sorts and the fallback to the first
      sorted 2D view. */
  method LoadAll(acceptedViewSpecs: seq<ViewSpec>, lowerName: string, prior: Option<ViewSpec>) returns (loaded: Views)
    ensures loaded == Loaded(acceptedViewSpecs, lowerName, prior)
  {
    var views3D, views2D, viewMap, initialView := LoadViews(acceptedViewSpecs, lowerName, prior);
    views3D := SortByCode(views3D);
    views2D := SortByCode(views2D);
    if initialView.None? {
      initialView := if |views2D| > 0 then Some(views2D[0]) else None;
    }
    loaded := Views(views3D, views2D, viewMap, initialView);
  }

  /** After a load both lists are sorted by code and together hold every
      accepted view once; the initial view is the last matching drawing, else
      the earlier initial view, else a 2D view of least code. */
  lemma LoadedSpec(accepted: seq<ViewSpec>, lowerName: string, prior: Option<ViewSpec>)
    ensures var loaded := Loaded(accepted, lowerName, prior);
      && SortedByCode(loaded.views3D) && SortedByCode(loaded.views2D)
      && multiset(loaded.views3D) + multiset(loaded.views2D) == multiset(AcceptedSpecs(accepted))
      && (loaded.initialView.None? <==> prior.None? && Views2DOf(accepted) == [] && NoDrawingMatch(accepted, lowerName))
  {
    SortByCodeSorted(Views3DOf(accepted));
    SortByCodeSorted(Views2DOf(accepted));
    ViewsPartition(accepted);
    if NoDrawingMatch(accepted, lowerName) {
      InitialAfterNoMatch(accepted, lowerName, prior);
    } else {
      var i :| 0 <= i < |accepted| && MatchesDrawing(accepted[i], lowerName);
      InitialAfterSome(accepted, lowerName, prior, i);
    }
  }

  lemma {:induction false} InitialAfterSome(accepted: seq<ViewSpec>, lowerName: string, prior: Option<ViewSpec>, i: nat)
    requires i < |accepted| && MatchesDrawing(accepted[i], lowerName)
    ensures InitialAfter(accepted, lowerName, prior).Some?
  {
    if i < |accepted| - 1 && !MatchesDrawing(accepted[|accepted| - 1], lowerName) {
      InitialAfterSome(accepted[..|accepted| - 1], lowerName, prior, i);
    }
  }

  class ViewState {
    var views3D: seq<ViewSpec>
    var views2D: seq<ViewSpec>
    /** `viewMap`; `None` until the views are first loaded. */
    var viewMap: Option<map<string, ViewSpec>>
    var initialDrawingName: string
    var initialView: Option<ViewSpec>
    var currentView: Option<ViewSpec>

    /** The module variables before any call: no views, no map, no drawing
        name. */
    constructor()
      ensures views3D == [] && views2D == [] && viewMap.None?
      ensures initialDrawingName == "" && initialView.None? && currentView.None?
    {
      views3D, views2D, viewMap := [], [], None;
      initialDrawingName, initialView, currentView := "", None, None;
    }

    /** `if (configObject.drawing_name) initialDrawingName = ...` */
    method ReadDrawingName(drawingName: string)
      modifies this
      ensures initialDrawingName == if drawingName != "" then drawingName else old(initialDrawingName)
      ensures views3D == old(views3D) && views2D == old(views2D) && viewMap == old(viewMap)
      ensures initialView == old(initialView) && currentView == old(currentView)
    {
      if drawingName != "" {
        initialDrawingName := drawingName;
      }
    }

    /** The branch of `getViewDefinitionId` without a view id (App.tsx:380-405):
        the views are loaded and the initial view becomes the current one. */
    method Load(acceptedViewSpecs: seq<ViewSpec>)
      modifies this
      ensures initialDrawingName == old(initialDrawingName)
      ensures viewMap.Some?
      ensures Views(views3D, views2D, viewMap.value, initialView) ==
        Loaded(acceptedViewSpecs, ToLower(old(initialDrawingName)), old(initialView))
      ensures currentView == initialView
    {
      var loaded := LoadAll(acceptedViewSpecs, ToLower(initialDrawingName), initialView);
      Store(loaded);
    }

    /** The assignments that end the load: the loaded views, and the initial
        view as the current one. */
    method Store(loaded: Views)
      modifies this
      ensures initialDrawingName == old(initialDrawingName)
      ensures viewMap.Some? && Views(views3D, views2D, viewMap.value, initialView) == loaded
      ensures currentView == initialView
    {
      views3D, views2D, viewMap, initialView, currentView :=
        loaded.views3D, loaded.views2D, Some(loaded.viewMap), loaded.initialView, loaded.initialView;
    }

    /** `getViewDefinitionId(imodel, viewId)` on the views the query returns. */
    method GetViewDefinitionId(viewSpecs: seq<ViewSpec>, viewId: Option<string>) returns (r: Result<string, ViewError>)
      modifies this
      ensures initialDrawingName == old(initialDrawingName)
      ensures AcceptedSpecs(viewSpecs) == [] ==>
        r == Err(NoValidViews) && views3D == old(views3D) && views2D == old(views2D) && viewMap == old(viewMap)
        && initialView == old(initialView) && currentView == old(currentView)
      ensures AcceptedSpecs(viewSpecs) != [] && viewId.Some? && viewId.value != "" ==>
        && views3D == old(views3D) && views2D == old(views2D) && viewMap == old(viewMap)
        && initialView == old(initialView)
        && (old(viewMap).None? ==> r == Err(TypeError) && currentView == old(currentView))
        && (old(viewMap).Some? ==> r == Ok(viewId.value))
        && (old(viewMap).Some? ==> currentView == Lookup(old(viewMap).value, viewId.value))
      ensures AcceptedSpecs(viewSpecs) != [] && (viewId.None? || viewId.value == "") ==>
        && viewMap.Some?
        && Views(views3D, views2D, viewMap.value, initialView) ==
             Loaded(AcceptedSpecs(viewSpecs), ToLower(old(initialDrawingName)), old(initialView))
        && currentView == initialView
        && r == (if initialView.None? then Err(TypeError) else Ok(initialView.value.id))
    {
      var acceptedViewSpecs := AcceptedSpecs(viewSpecs);
      if |acceptedViewSpecs| == 0 {
        return Err(NoValidViews);
      }
      if viewId.Some? && viewId.value != "" {
        if viewMap.None? {
          // `viewMap.get` on the still undefined map
          return Err(TypeError);
        }
        currentView := Lookup(viewMap.value, viewId.value);
        return Ok(viewId.value);
      }
      Load(acceptedViewSpecs);
      if initialView.None? {
        // `initialView.id` on `undefined`
        return Err(TypeError);
      }
      return Ok(initialView.value.id);
    }
  }
}
