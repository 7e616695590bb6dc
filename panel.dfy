/** The sliding panel's two rest positions and the decision taken at the end of a drag. */
module Panel {

  /** The only two states the panel may rest in. */
  datatype Detent = Collapsed | Expanded

  /** The drag offset (upwards is negative) beyond which a released drag expands the panel. */
  const ExpandBelow: real := -120.0

  /** The vertical positions the panel animates to in each state. */
  const ExpandedY: int := -350
  const CollapsedY: int := 0

  /**
   * `handlePanelDragEnd`: decided by the drag's vertical offset alone. There
   * is no velocity rule and no return to the detent the drag started from.
   */
  function DragEndDetent(offsetY: real): (d: Detent)
    ensures d == Expanded <==> offsetY < ExpandBelow
    ensures d == Collapsed <==> offsetY >= ExpandBelow
  {
    if offsetY < ExpandBelow then Expanded else Collapsed
  }

  /** The rest position of a detent (`animate={{ y: ... }}`). */
  function RestY(d: Detent): (y: int)
    ensures d == Expanded ==> y == ExpandedY
    ensures d == Collapsed ==> y == CollapsedY
  {
    match d
    case Expanded => ExpandedY
    case Collapsed => CollapsedY
  }

  /**
   * `DragEndDetent`'s contract with the threshold written as the number
   * -120 rather than through `ExpandBelow`; the point of the lemma is the
   * boundary case: an offset of exactly -120 collapses.
   */
  lemma DragEndDecision(offsetY: real)
    ensures DragEndDetent(offsetY) == Expanded <==> offsetY < -120.0
    ensures DragEndDetent(offsetY) == Collapsed <==> offsetY >= -120.0
    ensures DragEndDetent(-120.0) == Collapsed
  {
  }

  /** Dragging further up never turns an expanding release into a collapsing one. */
  lemma DragEndMonotone(higher: real, lower: real)
    requires higher <= lower
    ensures DragEndDetent(lower) == Expanded ==> DragEndDetent(higher) == Expanded
    ensures DragEndDetent(higher) == Collapsed ==> DragEndDetent(lower) == Collapsed
  {
  }

  /** After a release the panel rests at one of its two bounds, never in between. */
  lemma RestsAtABound(offsetY: real)
    ensures RestY(DragEndDetent(offsetY)) == ExpandedY || RestY(DragEndDetent(offsetY)) == CollapsedY
    ensures RestY(DragEndDetent(offsetY)) == ExpandedY <==> offsetY < ExpandBelow
  {
  }
}
