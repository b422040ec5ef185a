/**
 * A client of the coordinator: two items assigned to targets "00" and "01"
 * by the map `{0: "00", 1: "01"}`, each item's `onDrop` being the map
 * setter bound to its own slot. What it asserts follows from the contracts
 * alone.
 */
module Scenario {
  import opened Wrappers
  import opened Ids
  import opened Scheduler
  import opened DropTarget
  import opened DropMap
  import opened Draggable
  import opened AreaSpec
  import opened Coordinator

  /** The items rendered from the first two slots of the map. */
  function ItemsOf(m: Assignment): seq<Item>
    requires Lookup(m, IntId(0)).Some? && Lookup(m, IntId(1)).Some?
  {
    [Item(Lookup(m, IntId(0)).value), Item(Lookup(m, IntId(1)).value)]
  }

  method OwnerMap() returns (dropMap: Assignment, items: seq<Item>)
    ensures dropMap == map["0" := StrId("00"), "1" := StrId("01")]
    ensures items == [Item(StrId("00")), Item(StrId("01"))]
  {
    dropMap := Initial(Some(map["0" := StrId("00"), "1" := StrId("01")]));
    assert PropertyKey(IntId(0)) == "0" && PropertyKey(IntId(1)) == "1";
    items := ItemsOf(dropMap);
  }

  /** A left-button press on item "00" makes it active on the first frame. */
  method PickUp(items: seq<Item>) returns (area: DraggableArea)
    ensures fresh(area) && fresh(area.coorsCell) && fresh(area.handleCell) && fresh(area.frames)
    ensures area.Valid()
    ensures area.State()
         == Area(items, Some(StrId("00")), Some((30, 30)), (30, 30), Some(1),
                 Frames(2, map[1 := StrId("00")], []), [])
  {
    area := new DraggableArea(items);

    // The right button does not start a drag.
    area.ItemMouseDown(2, StrId("00"), 30, 30);
    assert area.State() == Mounted(items);

    // The left button does, but the item becomes active only on the first frame.
    area.ItemMouseDown(LeftButton, StrId("00"), 30, 30);
    assert area.activeDraggableId == None;
    area.FrameTick(0);
  }

  method DragOntoEmptyTarget()
  {
    var dropMap, items := OwnerMap();
    var area := PickUp(items);

    // A move is published by the next frame; the item centres on the pointer.
    area.DragMove(80, 60);
    area.FrameTick(1);
    assert area.activeDraggableCoors == Some((80, 60));
    var style := area.ItemStyle(StrId("00"), Some(Box(10, 10, 50, 50)));
    assert style == Style(45.0, 25.0, PointerNone, ZLevel(ActiveZIndex));

    Release(items, area);
  }

  /** Releasing over the empty target 5 calls item 0's `onDrop(5)` and ends the drag. */
  method Release(items: seq<Item>, area: DraggableArea)
    requires items == [Item(StrId("00")), Item(StrId("01"))]
    requires area.Valid() && area.items == items && area.activeDraggableId == Some(StrId("00"))
    requires area.drops == []
    modifies area, area.coorsCell, area.handleCell, area.frames
  {
    assert FindItem(items, StrId("00")) == Some(0);
    assert !Occupied(items, IntId(5));
    area.TargetMouseUp(IntId(5), false);
    assert area.drops == [DropCall(0, IntId(5))];
    assert area.activeDraggableId == None && area.handleCell.Get() == None;
  }

  /** Item 0's `onDrop(5)` moves it: target 5 renders it and "00" is empty. */
  method OwnerMovesItem()
  {
    var dropMap, items := OwnerMap();
    dropMap := SetValue(dropMap, IntId(0), IntId(5));
    assert PropertyKey(IntId(0)) == "0" && PropertyKey(IntId(1)) == "1";
    var moved := ItemsOf(dropMap);
    assert moved == [Item(IntId(5)), Item(StrId("01"))];
    assert Rendered(moved, IntId(5)) == Some(Item(IntId(5)));
    assert Rendered(moved, StrId("00")) == None;
    assert moved[1].dropTarget == StrId("01");
    assert !Accepts(moved, StrId("01"), false);
  }
}
