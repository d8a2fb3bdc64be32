/**
 * The layout settings of a feature model diagram: three switches, the legend's
 * position and the number of the selected layout algorithm, with the defaults a
 * new diagram gets and a copy operation.
 */
module ModelLayout {

  /** Java's `int`. */
  newtype int32 = x: int | -0x8000_0000 <= x < 0x8000_0000

  /** A point of the diagram, by its two coordinates. */
  datatype FMPoint = FMPoint(x: int32, y: int32)

  /** The five settings of one layout, as a value. */
  datatype Settings = Settings(
    autoLayoutLegend: bool,
    showHiddenFeatures: bool,
    hasVerticalLayout: bool,
    legendPos: FMPoint,
    selectedLayoutAlgorithm: int32)

  /**
   * The settings of a new layout: the legend placed automatically, hidden
   * features shown, the tree drawn vertically, the legend at the origin and
   * layout algorithm 1.
   */
  function Defaults(): Settings
  {
    Settings(true, true, true, FMPoint(0, 0), 1)
  }

  /** Layout algorithm 0 turns automatic feature layout off; every other number turns it on. */
  predicate AutoLayoutAlgorithm(algorithm: int32) {
    algorithm != 0
  }

  class FeatureModelLayout {
    var autoLayoutLegend: bool
    var showHiddenFeatures: bool
    var hasVerticalLayout: bool
    var legendPos: FMPoint
    var selectedLayoutAlgorithm: int32

    /** The five fields as one value. */
    function State(): Settings
      reads this
    {
      Settings(autoLayoutLegend, showHiddenFeatures, hasVerticalLayout, legendPos, selectedLayoutAlgorithm)
    }

    /** A layout with the default settings, which lays the features out automatically. */
    constructor ()
      ensures State() == Defaults()
      ensures HasLegendAutoLayout() && ShowsHiddenFeatures() && VerticalLayout()
      ensures GetLegendPos().x == 0 && GetLegendPos().y == 0
      ensures GetLayoutAlgorithm() == 1 && HasFeaturesAutoLayout()
    {
      autoLayoutLegend := true;
      showHiddenFeatures := true;
      hasVerticalLayout := true;
      legendPos := FMPoint(0, 0);
      selectedLayoutAlgorithm := 1;
    }

    /** A new layout with the settings of `other`, which is left as it was. */
    constructor Copy(other: FeatureModelLayout)
      ensures State() == other.State()
      ensures unchanged(other)
    {
      autoLayoutLegend := other.autoLayoutLegend;
      showHiddenFeatures := other.showHiddenFeatures;
      hasVerticalLayout := other.hasVerticalLayout;
      legendPos := FMPoint(other.legendPos.x, other.legendPos.y);
      selectedLayoutAlgorithm := other.selectedLayoutAlgorithm;
    }

    predicate HasLegendAutoLayout()
      reads this
    {
      autoLayoutLegend
    }

    method SetLegendAutoLayout(b: bool)
      modifies this
      ensures HasLegendAutoLayout() == b
      ensures State() == old(State()).(autoLayoutLegend := b)
    {
      autoLayoutLegend := b;
    }

    predicate ShowsHiddenFeatures()
      reads this
    {
      showHiddenFeatures
    }

    method SetShowHiddenFeatures(b: bool)
      modifies this
      ensures ShowsHiddenFeatures() == b
      ensures State() == old(State()).(showHiddenFeatures := b)
    {
      showHiddenFeatures := b;
    }

    predicate VerticalLayout()
      reads this
    {
      hasVerticalLayout
    }

    method SetVerticalLayout(b: bool)
      modifies this
      ensures VerticalLayout() == b
      ensures State() == old(State()).(hasVerticalLayout := b)
    {
      hasVerticalLayout := b;
    }

    function GetLegendPos(): FMPoint
      reads this
    {
      legendPos
    }

    /** Moves the legend to `(x, y)`. */
    method SetLegendPos(x: int32, y: int32)
      modifies this
      ensures GetLegendPos().x == x && GetLegendPos().y == y
      ensures State() == old(State()).(legendPos := FMPoint(x, y))
    {
      legendPos := FMPoint(x, y);
    }

    function GetLayoutAlgorithm(): int32
      reads this
    {
      selectedLayoutAlgorithm
    }

    /** Selects layout algorithm `newLayoutAlgorithm`; only 0 turns automatic layout off. */
    method SetLayout(newLayoutAlgorithm: int32)
      modifies this
      ensures GetLayoutAlgorithm() == newLayoutAlgorithm
      ensures HasFeaturesAutoLayout() <==> newLayoutAlgorithm != 0
      ensures State() == old(State()).(selectedLayoutAlgorithm := newLayoutAlgorithm)
    {
      selectedLayoutAlgorithm := newLayoutAlgorithm;
    }

    predicate HasFeaturesAutoLayout()
      reads this
    {
      AutoLayoutAlgorithm(selectedLayoutAlgorithm)
    }

    /** A distinct layout with the same five settings. */
    method Clone() returns (c: FeatureModelLayout)
      ensures fresh(c)
      ensures c.State() == State()
    {
      c := new FeatureModelLayout.Copy(this);
    }
  }

  /**
   * Changing a clone leaves the original as it was: clones `layout`, then turns
   * the clone's legend auto-layout to `b`.
   */
  method ChangeClone(layout: FeatureModelLayout, b: bool) returns (c: FeatureModelLayout)
    ensures fresh(c)
    ensures c.State() == layout.State().(autoLayoutLegend := b)
    ensures layout.State() == old(layout.State())
  {
    c := layout.Clone();
    c.SetLegendAutoLayout(b);
  }

  /**
   * Changing the original leaves a clone as it was: clones `layout`, then gives
   * the original layout algorithm `a` and moves its legend to `(x, y)`.
   */
  method ChangeOriginal(layout: FeatureModelLayout, a: int32, x: int32, y: int32) returns (c: FeatureModelLayout)
    modifies layout
    ensures fresh(c)
    ensures c.State() == old(layout.State())
    ensures layout.State() == old(layout.State()).(selectedLayoutAlgorithm := a, legendPos := FMPoint(x, y))
  {
    c := layout.Clone();
    layout.SetLayout(a);
    layout.SetLegendPos(x, y);
  }
}
