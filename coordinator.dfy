/**
 * `DraggableArea`: the drag/drop coordinator as an object. Its two state
 * slots and the item list are fields; the coordinate cell and the
 * animation-handle cell are two `InstanceVar` objects it owns; `frames` is
 * the host's scheduler. Every handler is proved to leave the state that
 * the matching function of `AreaSpec` describes, and to keep `Inv`.
 */
module Coordinator {
  import opened Wrappers
  import opened Ids
  import opened Hooks
  import opened Scheduler
  import opened DropTarget
  import opened Draggable
  import opened AreaSpec

  class DraggableArea {
    var items: seq<Item>
    var activeDraggableId: Option<Id>
    var activeDraggableCoors: Option<Coors>
    const coorsCell: InstanceVar<Coors>
    const handleCell: InstanceVar<Option<nat>>
    const frames: FrameScheduler
    var drops: seq<DropCall>

    function State(): Area
      reads this, coorsCell, handleCell, frames
    {
      Area(items, activeDraggableId, activeDraggableCoors, coorsCell.Get(), handleCell.Get(),
           frames.Model(), drops)
    }

    /** The two cells and the scheduler are three distinct objects. */
    predicate Separate()
    {
      && (coorsCell as object) != (handleCell as object)
      && (coorsCell as object) != (frames as object)
      && (handleCell as object) != (frames as object)
    }

    /** The owned objects are separate, and the state keeps `Inv`. */
    ghost predicate Valid()
      reads this, coorsCell, handleCell, frames
    {
      Separate() && Inv(State())
    }

    /** First render: both cells fresh and independent, nothing scheduled. */
    constructor (items: seq<Item>)
      ensures Valid() && State() == Mounted(items)
      ensures fresh(coorsCell) && fresh(handleCell) && fresh(frames)
    {
      this.items := items;
      activeDraggableId, activeDraggableCoors, drops := None, None, [];
      handleCell := new InstanceVar<Option<nat>>(None);
      coorsCell := new InstanceVar<Coors>((0, 0));
      frames := new FrameScheduler();
      new;
      MountedInv(items);
    }

    method DragStart(id: Id, clientX: int, clientY: int)
      requires Valid()
      modifies coorsCell, frames
      ensures Valid() && State() == Start(old(State()), id, clientX, clientY)
    {
      InvKept(State(), MouseDown(LeftButton, id, clientX, clientY));
      if activeDraggableId == None {
        var _ := coorsCell.Set((clientX, clientY));
        var _ := frames.Request(id);
      }
    }

    /** The body of the frame callback scheduled for `id`. */
    method UpdateActiveItem(id: Id)
      requires Separate()
      modifies this, handleCell, frames
      ensures State() == AreaSpec.UpdateActiveItem(old(State()), id)
    {
      var handle := frames.Request(id);
      var _ := handleCell.Set(Some(handle));
      var coors := coorsCell.Get();
      activeDraggableId := Some(id);
      activeDraggableCoors := Some(coors);
    }

    /** The host runs frame callback `h` if it is still pending. */
    method FrameTick(h: nat)
      requires Valid()
      modifies this, handleCell, frames
      ensures Valid() && State() == Tick(old(State()), h)
    {
      InvKept(State(), Event.FrameTick(h));
      var callback := frames.Fire(h);
      if callback.Some? {
        UpdateActiveItem(callback.value);
      }
    }

    method DragMove(clientX: int, clientY: int)
      requires Valid()
      modifies coorsCell
      ensures Valid() && State() == Move(old(State()), clientX, clientY)
    {
      if activeDraggableId != None {
        var _ := coorsCell.Set((clientX, clientY));
      }
    }

    /** Cancels and clears the recorded handle, if any. */
    method CancelRecordedHandle()
      requires Separate()
      modifies handleCell, frames
      ensures State() == CancelRecorded(old(State()))
    {
      var handle := handleCell.Get();
      if handle != None {
        frames.Cancel(handle.value);
        var _ := handleCell.Set(None);
      }
    }

    method DragStop()
      requires Valid()
      modifies this, coorsCell, handleCell, frames
      ensures Valid() && State() == Stop(old(State()))
    {
      InvKept(State(), AreaMouseUp);
      var _ := coorsCell.Set((0, 0));
      activeDraggableId := None;
      CancelRecordedHandle();
    }

    method Drop(dropTargetId: Id)
      requires Valid()
      modifies this
      ensures Valid() && State() == AreaSpec.Drop(old(State()), dropTargetId)
    {
      if activeDraggableId != None {
        var k := FindItem(items, activeDraggableId.value);
        if k.Some? {
          drops := drops + [DropCall(k.value, dropTargetId)];
        }
      }
    }

    /** The effect's cleanup, run when the area is removed. */
    method Unmount()
      requires Valid()
      modifies handleCell, frames
      ensures Valid() && State() == AreaSpec.Unmount(old(State()))
    {
      InvKept(State(), Teardown);
      CancelRecordedHandle();
    }

    /** An item's `onMouseDown`: only the left button starts a drag. */
    method ItemMouseDown(button: int, dropTargetId: Id, clientX: int, clientY: int)
      requires Valid()
      modifies coorsCell, frames
      ensures Valid() && State() == AreaSpec.ItemMouseDown(old(State()), button, dropTargetId, clientX, clientY)
    {
      var start := MouseDownStart(button, dropTargetId);
      if start.Some? {
        DragStart(start.value, clientX, clientY);
      }
    }

    /** A mouse-up over a drop target, which then bubbles to the area. */
    method TargetMouseUp(uid: Id, disabled: bool)
      requires Valid()
      modifies this, coorsCell, handleCell, frames
      ensures Valid() && State() == AreaSpec.TargetMouseUp(old(State()), uid, disabled)
    {
      if Accepts(items, uid, disabled) {
        Drop(uid);
      }
      DragStop();
    }

    /** The owner re-renders the area with a new item list. */
    method Rerender(newItems: seq<Item>)
      requires Valid()
      modifies this
      ensures Valid() && State() == AreaSpec.Rerender(old(State()), newItems)
    {
      items := newItems;
    }

    /** What the item bound to `dropTargetId` renders with, given its box. */
    function ItemStyle(dropTargetId: Id, box: Option<Box>): (s: Style)
      reads this
      ensures s.pointerEvents == PointerNone <==> activeDraggableId == Some(dropTargetId)
      ensures s.zIndex == ZLevel(ActiveZIndex) <==> activeDraggableId == Some(dropTargetId)
      ensures (s.translateX, s.translateY)
        == Translation(activeDraggableId == Some(dropTargetId), activeDraggableCoors, box)
    {
      StyleOf(dropTargetId, activeDraggableId, activeDraggableCoors, box)
    }
  }
}
