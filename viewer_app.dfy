/** The layout state of the viewer application (App.tsx of openplant-viewer):
    which of the 2D and 3D viewports is collapsed, the chosen layout, and the
    class names, titles and properties buttons `IModelComponents.render`
    derives from them. */
module ViewerApp {

  /** The flags `expandCollapseViewport(is3D)` sets: from a state where
      neither viewport is collapsed the clicked one collapses; from any other
      state both are restored. */
  function CollapseStep(is2DCollapsed: bool, is3DCollapsed: bool, is3D: bool): (r: (bool, bool))
  {
    (!is2DCollapsed && !is3DCollapsed && !is3D, !is2DCollapsed && !is3DCollapsed && is3D)
  }

  /** Never both collapsed; from the expanded state exactly the selected flag
      becomes true; from a collapsed state both become false. */
  lemma CollapseStepSpec(is2DCollapsed: bool, is3DCollapsed: bool, is3D: bool)
    ensures var r := CollapseStep(is2DCollapsed, is3DCollapsed, is3D);
      && !(r.0 && r.1)
      && (!is2DCollapsed && !is3DCollapsed ==> r == (!is3D, is3D))
      && (is2DCollapsed || is3DCollapsed ==> r == (false, false))
  {
  }

  /** A second click, on either viewport, undoes the first. */
  lemma CollapseStepRoundTrip(is3D: bool, again: bool)
    ensures var r := CollapseStep(false, false, is3D);
      CollapseStep(r.0, r.1, again) == (false, false)
  {
  }

  const DefaultLayoutID: string := "left-2d-right-3d"

  /** The application's viewport state. `setState` is an immediate update. */
  class App {
    var is2DCollapsed: bool
    var is3DCollapsed: bool
    var layoutID: string

    /** At most one viewport is collapsed. */
    predicate Valid()
      reads this
    {
      !(is2DCollapsed && is3DCollapsed)
    }

    /** The initial state: nothing collapsed, the default layout. */
    constructor()
      ensures Valid()
      ensures !is2DCollapsed && !is3DCollapsed && layoutID == DefaultLayoutID
    {
      is2DCollapsed := false;
      is3DCollapsed := false;
      layoutID := DefaultLayoutID;
    }

    /** `expandCollapseViewport(is3D)` */
    method ExpandCollapseViewport(is3D: bool)
      modifies this
      ensures (is2DCollapsed, is3DCollapsed) == CollapseStep(old(is2DCollapsed), old(is3DCollapsed), is3D)
      ensures Valid()
      ensures layoutID == old(layoutID)
    {
      var both := !is2DCollapsed && !is3DCollapsed;
      is2DCollapsed := both && !is3D;
      is3DCollapsed := both && is3D;
      CollapseStepSpec(old(is2DCollapsed), old(is3DCollapsed), is3D);
    }

    /** `updateLayout(layoutId)` */
    method UpdateLayout(layoutId: string)
      modifies this
      ensures layoutID == layoutId
      ensures is2DCollapsed == old(is2DCollapsed) && is3DCollapsed == old(is3DCollapsed)
    {
      layoutID := layoutId;
    }
  }

  predicate KnownLayout(layoutID: string)
  {
    || layoutID == "left-2d-right-3d" || layoutID == "left-3d-right-2d"
    || layoutID == "top-2d-bottom-3d" || layoutID == "top-3d-bottom-2d"
  }

  /** The placements `(layout2D, layout3D)` of a layout id. */
  function LayoutFor(layoutID: string): (r: (string, string))
  {
    if layoutID == "left-2d-right-3d" then ("viewport-left", "viewport-right")
    else if layoutID == "left-3d-right-2d" then ("viewport-right", "viewport-left")
    else if layoutID == "top-2d-bottom-3d" then ("viewport-top", "viewport-bottom")
    else if layoutID == "top-3d-bottom-2d" then ("viewport-bottom", "viewport-top")
    else ("", "")
  }

  /** The placement across the split from p. */
  function Opposite(p: string): string
  {
    if p == "viewport-left" then "viewport-right"
    else if p == "viewport-right" then "viewport-left"
    else if p == "viewport-top" then "viewport-bottom"
    else if p == "viewport-bottom" then "viewport-top"
    else ""
  }

  /** Reads a layout id back from the 2D placement. */
  function LayoutIDOf(layout2D: string): string
  {
    if layout2D == "viewport-left" then "left-2d-right-3d"
    else if layout2D == "viewport-right" then "left-3d-right-2d"
    else if layout2D == "viewport-top" then "top-2d-bottom-3d"
    else if layout2D == "viewport-bottom" then "top-3d-bottom-2d"
    else ""
  }

  /** A known layout puts the two viewports on opposite sides and is
      recovered from the 2D placement; any other id places neither. */
  lemma LayoutForSpec(layoutID: string)
    ensures KnownLayout(layoutID) ==>
      && LayoutFor(layoutID).0 != ""
      && LayoutFor(layoutID).1 == Opposite(LayoutFor(layoutID).0)
      && LayoutIDOf(LayoutFor(layoutID).0) == layoutID
    ensures !KnownLayout(layoutID) ==> LayoutFor(layoutID) == ("", "")
  {
  }

  /** The class of the 2D viewport (App.tsx:784 with the menu opened, 811
      with it closed). */
  function ViewportClass2D(menuOpened: bool, is2DCollapsed: bool, is3DCollapsed: bool, layout2D: string): string
  {
    if is2DCollapsed then "viewport-collapsed"
    else if is3DCollapsed then (if menuOpened then "viewport-expanded" else "viewport-expanded-extended")
    else if menuOpened then layout2D else layout2D + "-extended"
  }

  /** The class of the 3D viewport (App.tsx:791 and 818). */
  function ViewportClass3D(menuOpened: bool, is2DCollapsed: bool, is3DCollapsed: bool, layout3D: string): string
  {
    if is3DCollapsed then "viewport-collapsed"
    else if is2DCollapsed then (if menuOpened then "viewport-expanded" else "viewport-expanded-extended")
    else if menuOpened then layout3D else layout3D + "-extended"
  }

  function ExpandedClass(menuOpened: bool): string
  {
    if menuOpened then "viewport-expanded" else "viewport-expanded-extended"
  }

  /** The two viewports are treated alike, and in a valid state at most one
      is collapsed while the other fills the space. */
  lemma ViewportClassSpec(menuOpened: bool, is2DCollapsed: bool, is3DCollapsed: bool, layout: string)
    requires !(is2DCollapsed && is3DCollapsed)
    ensures ViewportClass3D(menuOpened, is2DCollapsed, is3DCollapsed, layout) ==
            ViewportClass2D(menuOpened, is3DCollapsed, is2DCollapsed, layout)
    ensures is2DCollapsed ==>
      ViewportClass2D(menuOpened, is2DCollapsed, is3DCollapsed, layout) == "viewport-collapsed"
    ensures !is2DCollapsed && !is3DCollapsed ==>
      ViewportClass2D(menuOpened, is2DCollapsed, is3DCollapsed, layout) ==
        (if menuOpened then layout else layout + "-extended")
    ensures is3DCollapsed ==>
      ViewportClass2D(menuOpened, is2DCollapsed, is3DCollapsed, layout) == ExpandedClass(menuOpened)
    ensures is2DCollapsed ==>
      ViewportClass3D(menuOpened, is2DCollapsed, is3DCollapsed, layout) == ExpandedClass(menuOpened)
  {
  }

  /** `cond ? displayProperties : false` for the 2D viewport: when the 3D one
      is collapsed, or the 2D one sits right or on top. */
  function ShowPropertiesButton2D(is3DCollapsed: bool, layout2D: string, displayProperties: bool): bool
  {
    if is3DCollapsed || layout2D == "viewport-right" || layout2D == "viewport-top" then displayProperties else false
  }

  function ShowPropertiesButton3D(is2DCollapsed: bool, layout3D: string, displayProperties: bool): bool
  {
    if is2DCollapsed || layout3D == "viewport-right" || layout3D == "viewport-top" then displayProperties else false
  }

  /** With a known layout and nothing collapsed, exactly one viewport (the
      one on the right or on top) carries the properties button; with an
      unknown layout neither does. */
  lemma PropertiesButtonOnOneSide(layoutID: string)
    ensures var (l2, l3) := LayoutFor(layoutID);
      && (KnownLayout(layoutID) ==>
            ShowPropertiesButton2D(false, l2, true) != ShowPropertiesButton3D(false, l3, true))
      && (!KnownLayout(layoutID) ==>
            !ShowPropertiesButton2D(false, l2, true) && !ShowPropertiesButton3D(false, l3, true))
  {
  }

  /** The title of the 2D viewport. */
  function Title2D(is2DCollapsed: bool, is3DCollapsed: bool): string
  {
    if is2DCollapsed then "(collapsed)" else if is3DCollapsed then "Show 3D View" else "Collapse 2D View"
  }

  /** The title of the 3D viewport. */
  function Title3D(is2DCollapsed: bool, is3DCollapsed: bool): string
  {
    if is3DCollapsed then "(collapsed)" else if is2DCollapsed then "Show 2D View" else "Collapse 3D View"
  }

  /** Each viewport passes its own `is3D` to its button, and the title names
      what a click on it does: "Collapse" collapses that viewport, "Show"
      restores the other one. */
  lemma TitleNamesClick(is2DCollapsed: bool, is3DCollapsed: bool)
    requires !(is2DCollapsed && is3DCollapsed)
    ensures Title2D(is2DCollapsed, is3DCollapsed) == "Collapse 2D View" ==>
      CollapseStep(is2DCollapsed, is3DCollapsed, false) == (true, false)
    ensures Title2D(is2DCollapsed, is3DCollapsed) == "Show 3D View" ==>
      is3DCollapsed && CollapseStep(is2DCollapsed, is3DCollapsed, false) == (false, false)
    ensures Title3D(is2DCollapsed, is3DCollapsed) == "Collapse 3D View" ==>
      CollapseStep(is2DCollapsed, is3DCollapsed, true) == (false, true)
    ensures Title3D(is2DCollapsed, is3DCollapsed) == "Show 2D View" ==>
      is2DCollapsed && CollapseStep(is2DCollapsed, is3DCollapsed, true) == (false, false)
  {
  }
}
