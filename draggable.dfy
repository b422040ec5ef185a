/**
 * `useDraggable`: what an item bound to a target-assignment identity reads
 * from the coordinator's drag state. The element's box metrics
 * (`offsetLeft`, `offsetTop`, `offsetWidth`, `offsetHeight`) are passed in,
 * `None` standing for a reference not yet attached; the translation is
 * exact real arithmetic rather than the CSS text built from it.
 */
module Draggable {
  import opened Wrappers
  import opened Ids

  datatype Box = Box(offsetLeft: int, offsetTop: int, offsetWidth: int, offsetHeight: int)

  datatype PointerEvents = PointerNone | PointerAuto

  datatype ZIndex = ZAuto | ZLevel(level: int)

  datatype Style = Style(translateX: real, translateY: real, pointerEvents: PointerEvents, zIndex: ZIndex)

  /** The stacking level of the item being dragged. */
  const ActiveZIndex := 9999

  /** The mouse button that starts a drag: the main (left) button. */
  const LeftButton := 0

  /** `dropTargetId === activeDraggableId`; the active id may be null. */
  function IsActive(dropTargetId: Id, activeDraggableId: Option<Id>): (r: bool)
    ensures r <==> activeDraggableId == Some(dropTargetId)
  {
    match activeDraggableId
    case None => false
    case Some(a) => a == dropTargetId
  }

  /**
   * The item's translation: zero unless it is active, coordinates have been
   * published and its reference is attached; then the element's centre is
   * moved onto the pointer.
   */
  function Translation(isActive: bool, coors: Option<Coors>, box: Option<Box>): (r: (real, real))
    ensures !(isActive && coors.Some? && box.Some?) ==> r == (0.0, 0.0)
    ensures isActive && coors.Some? && box.Some? ==>
      && box.value.offsetLeft as real + r.0 + box.value.offsetWidth as real / 2.0 == coors.value.0 as real
      && box.value.offsetTop as real + r.1 + box.value.offsetHeight as real / 2.0 == coors.value.1 as real
  {
    if isActive && coors.Some? && box.Some? then
      var (cx, cy) := coors.value;
      (cx as real - box.value.offsetLeft as real - box.value.offsetWidth as real / 2.0,
       cy as real - box.value.offsetTop as real - box.value.offsetHeight as real / 2.0)
    else
      (0.0, 0.0)
  }

  /** The style object an item returns. */
  function StyleOf(dropTargetId: Id, activeDraggableId: Option<Id>,
                   activeDraggableCoors: Option<Coors>, box: Option<Box>): (s: Style)
    ensures s.pointerEvents == PointerNone <==> activeDraggableId == Some(dropTargetId)
    ensures s.zIndex == ZLevel(ActiveZIndex) <==> activeDraggableId == Some(dropTargetId)
    ensures s.zIndex != ZLevel(ActiveZIndex) ==> s.zIndex == ZAuto
    ensures (s.translateX, s.translateY)
      == Translation(activeDraggableId == Some(dropTargetId), activeDraggableCoors, box)
  {
    var isActive := IsActive(dropTargetId, activeDraggableId);
    var (x, y) := Translation(isActive, activeDraggableCoors, box);
    Style(x, y,
          if isActive then PointerNone else PointerAuto,
          if isActive then ZLevel(ActiveZIndex) else ZAuto)
  }

  /** An inactive item is drawn in place and takes pointer events. */
  lemma InactiveItemAtRest(dropTargetId: Id, active: Option<Id>, coors: Option<Coors>, box: Option<Box>)
    requires active != Some(dropTargetId)
    ensures StyleOf(dropTargetId, active, coors, box) == Style(0.0, 0.0, PointerAuto, ZAuto)
  {
  }

  /**
   * `onMouseDown`: the drag start it asks for, if any; only the left button
   * asks, and it asks for this item's identity.
   */
  function MouseDownStart(button: int, dropTargetId: Id): (r: Option<Id>)
    ensures r.Some? <==> button == LeftButton
    ensures r.Some? ==> r.value == dropTargetId
  {
    if button == LeftButton then Some(dropTargetId) else None
  }
}
