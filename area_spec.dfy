/**
 * The state of `DraggableArea` as a value, and one function per event that
 * says what the event's handler leaves behind. `React` state updates
 * (`activeId`, `activeCoors`) are treated as applied when the handler
 * returns; `coors` and `handle` are the two instance-variable cells;
 * `frames` is the host's frame scheduler; `drops` logs every `onDrop` call
 * as the index of the item whose callback ran and the target it was given.
 */
module AreaSpec {
  import opened Wrappers
  import opened Ids
  import opened Scheduler
  import opened DropTarget
  import opened Draggable

  datatype DropCall = DropCall(item: nat, target: Id)

  datatype Area = Area(
    items: seq<Item>,
    activeId: Option<Id>,
    activeCoors: Option<Coors>,
    coors: Coors,
    handle: Option<nat>,
    frames: Frames,
    drops: seq<DropCall>)

  /** The coordinator as first rendered with `items`. */
  function Mounted(items: seq<Item>): Area
  {
    Area(items, None, None, (0, 0), None, NoFrames(), [])
  }

  /**
   * `handleDragStart`: ignored unless `activeId` is null; otherwise writes
   * the pointer into the coordinate cell and requests one frame, whose
   * handle it does not keep.
   */
  function Start(s: Area, id: Id, clientX: int, clientY: int): Area
  {
    if s.activeId.Some? then s
    else s.(coors := (clientX, clientY), frames := Requested(s.frames, id))
  }

  /**
   * `updateActiveItem` for the drag of `id`: request the next frame and
   * record its handle, then publish `id` and the coordinate cell.
   */
  function UpdateActiveItem(s: Area, id: Id): Area
  {
    s.(frames := Requested(s.frames, id), handle := Some(s.frames.next),
       activeId := Some(id), activeCoors := Some(s.coors))
  }

  /** The host runs frame callback `h`, if it is still pending. */
  function Tick(s: Area, h: nat): Area
  {
    if h in s.frames.pending then UpdateActiveItem(s.(frames := Fired(s.frames, h)), s.frames.pending[h])
    else s
  }

  /** `handleDragMove`: updates the coordinate cell only while an id is active. */
  function Move(s: Area, clientX: int, clientY: int): Area
  {
    if s.activeId.Some? then s.(coors := (clientX, clientY)) else s
  }

  /** Cancels and clears the recorded animation handle, if there is one. */
  function CancelRecorded(s: Area): Area
  {
    match s.handle
    case None => s
    case Some(h) => s.(frames := Cancelled(s.frames, h), handle := None)
  }

  /**
   * `handleDragStop`: coordinate cell to `(0, 0)`, `activeId` to null, and
   * the recorded handle cancelled; `activeCoors` is left as it was.
   */
  function Stop(s: Area): Area
  {
    CancelRecorded(s.(coors := (0, 0), activeId := None))
  }

  /**
   * `handleDrop`: while an id is active, calls `onDrop(target)` of the first
   * item assigned to it, if any.
   */
  function Drop(s: Area, target: Id): Area
  {
    match s.activeId
    case None => s
    case Some(a) =>
      match FindItem(s.items, a)
      case None => s
      case Some(k) => s.(drops := s.drops + [DropCall(k, target)])
  }

  /** The unmount cleanup: cancels and clears the recorded handle. */
  function Unmount(s: Area): Area
  {
    CancelRecorded(s)
  }

  /** A mouse-down on the item bound to `id`, with `button` pressed. */
  function ItemMouseDown(s: Area, button: int, id: Id, clientX: int, clientY: int): Area
  {
    match MouseDownStart(button, id)
    case Some(i) => Start(s, i, clientX, clientY)
    case None => s
  }

  /**
   * A mouse-up over drop target `uid`: its drop handler runs if it is
   * attached, then the event reaches the area, which stops the drag.
   */
  function TargetMouseUp(s: Area, uid: Id, disabled: bool): Area
  {
    Stop(if Accepts(s.items, uid, disabled) then Drop(s, uid) else s)
  }

  /** A re-render of the owner supplies a new item list. */
  function Rerender(s: Area, items: seq<Item>): Area
  {
    s.(items := items)
  }

  datatype Event =
    | MouseDown(button: int, id: Id, x: int, y: int)
    | FrameTick(h: nat)
    | MouseMove(x: int, y: int)
    | AreaMouseUp
    | TargetUp(uid: Id, disabled: bool)
    | NewItems(items: seq<Item>)
    | Teardown

  function Apply(s: Area, e: Event): Area
  {
    match e
    case MouseDown(b, id, x, y) => ItemMouseDown(s, b, id, x, y)
    case FrameTick(h) => Tick(s, h)
    case MouseMove(x, y) => Move(s, x, y)
    case AreaMouseUp => Stop(s)
    case TargetUp(uid, d) => TargetMouseUp(s, uid, d)
    case NewItems(items) => Rerender(s, items)
    case Teardown => Unmount(s)
  }

  function Run(s: Area, es: seq<Event>): Area
    decreases |es|
  {
    if es == [] then s else Run(Apply(s, es[0]), es[1..])
  }

  /**
   * What the code keeps true: the scheduler's own invariant, a recorded
   * handle is one whose callback is still pending, no handle is recorded
   * while no id is active, and an active id always comes with published
   * coordinates.
   */
  ghost predicate Inv(s: Area)
  {
    && FramesInv(s.frames)
    && (s.handle.Some? ==> s.handle.value in s.frames.pending)
    && (s.activeId.None? ==> s.handle.None?)
    && (s.activeId.Some? ==> s.activeCoors.Some?)
  }

  /** While an id is active a frame-loop handle is recorded. */
  ghost predicate Looping(s: Area)
  {
    s.activeId.Some? ==> s.handle.Some?
  }

  lemma MountedInv(items: seq<Item>)
    ensures Inv(Mounted(items)) && Looping(Mounted(items))
  {
  }

  // ---- Start ----

  /** A start while an id is active writes nothing and schedules nothing. */
  lemma StartIgnoredWhileActive(s: Area, id: Id, x: int, y: int)
    requires s.activeId.Some?
    ensures Start(s, id, x, y) == s
  {
  }

  /**
   * A start from idle writes the pointer into the coordinate cell, adds
   * exactly one pending callback (for `id`, under a fresh handle), and
   * changes neither `activeId`, `activeCoors` nor the handle cell.
   */
  lemma StartFromIdle(s: Area, id: Id, x: int, y: int)
    requires Inv(s) && s.activeId.None?
    ensures var r := Start(s, id, x, y);
      && r.coors == (x, y)
      && r.frames.pending == s.frames.pending[s.frames.next := id]
      && r.frames.pending.Keys == s.frames.pending.Keys + {s.frames.next}
      && s.frames.next !in s.frames.pending
      && |r.frames.pending| == |s.frames.pending| + 1
      && r.frames.pending[s.frames.next] == id
      && r.frames.cancelled == s.frames.cancelled && r.frames.next == s.frames.next + 1
      && r.activeId == None && r.activeCoors == s.activeCoors && r.handle == s.handle
      && r.items == s.items && r.drops == s.drops
  {
    RequestFresh(s.frames, id);
  }

  /** Only the left button starts a drag. */
  lemma MouseDownOtherButton(s: Area, button: int, id: Id, x: int, y: int)
    requires button != LeftButton
    ensures ItemMouseDown(s, button, id, x, y) == s
  {
  }

  // ---- Tick ----

  /**
   * A tick of pending callback `h` consumes it, schedules the next frame
   * under a fresh handle, records that handle, sets `activeId` to the
   * callback's id and snapshots the coordinate cell into `activeCoors`.
   */
  lemma TickPending(s: Area, h: nat)
    requires Inv(s) && h in s.frames.pending
    ensures var r := Tick(s, h);
      && r.handle == Some(s.frames.next)
      && s.frames.next !in s.frames.pending
      && r.frames.pending == (s.frames.pending - {h})[s.frames.next := s.frames.pending[h]]
      && r.activeId == Some(s.frames.pending[h])
      && r.activeCoors == Some(s.coors)
      && r.coors == s.coors && r.frames.cancelled == s.frames.cancelled
      && r.items == s.items && r.drops == s.drops
  {
  }

  /** A callback that was cancelled never runs. */
  lemma CancelledNeverFires(s: Area, i: nat)
    requires Inv(s) && i < |s.frames.cancelled|
    ensures Tick(s, s.frames.cancelled[i]) == s
  {
  }

  /** The next frame after a move publishes the moved coordinates. */
  lemma MoveThenTickPublishes(s: Area, x: int, y: int, h: nat)
    requires Inv(s) && s.activeId.Some? && h in s.frames.pending
    ensures Tick(Move(s, x, y), h).activeCoors == Some((x, y))
  {
  }

  // ---- Move ----

  lemma MoveWhileIdle(s: Area, x: int, y: int)
    requires s.activeId.None?
    ensures Move(s, x, y) == s
  {
  }

  lemma MoveWhileActive(s: Area, x: int, y: int)
    requires s.activeId.Some?
    ensures Move(s, x, y) == s.(coors := (x, y))
  {
  }

  // ---- Stop and unmount ----

  /**
   * From any state, stop ends with the coordinate cell at `(0, 0)`, no
   * active id and no recorded handle; a recorded handle is cancelled (and
   * so no longer pending), and nothing else is cancelled.
   */
  lemma StopResets(s: Area)
    ensures var r := Stop(s);
      && r.coors == (0, 0) && r.activeId == None && r.handle == None
      && r.activeCoors == s.activeCoors && r.items == s.items && r.drops == s.drops
      && r.frames.cancelled == s.frames.cancelled + (if s.handle.Some? then [s.handle.value] else [])
      && (s.handle.Some? ==> s.handle.value !in r.frames.pending)
      && r.frames.pending == (if s.handle.Some? then s.frames.pending - {s.handle.value} else s.frames.pending)
      && r.frames.next == s.frames.next
  {
  }

  lemma StopIdempotent(s: Area)
    ensures Stop(Stop(s)) == Stop(s)
  {
  }

  /** Unmount cancels and clears the recorded handle and changes nothing else. */
  lemma UnmountCancels(s: Area)
    requires Inv(s)
    ensures var r := Unmount(s);
      && r.handle == None
      && (s.handle.Some? ==> s.handle.value !in r.frames.pending)
      && r.frames.pending == (if s.handle.Some? then s.frames.pending - {s.handle.value} else s.frames.pending)
      && r.frames.cancelled == s.frames.cancelled + (if s.handle.Some? then [s.handle.value] else [])
      && r.frames.next == s.frames.next
      && r == s.(handle := None, frames := r.frames)
  {
  }

  // ---- Drop ----

  lemma DropWhileIdle(s: Area, target: Id)
    requires s.activeId.None?
    ensures Drop(s, target) == s
  {
  }

  /**
   * A drop while `a` is active calls `onDrop(target)` exactly once, on the
   * first item assigned to `a`; with no such item it calls nothing.
   */
  lemma DropWhileActive(s: Area, a: Id, target: Id)
    requires s.activeId == Some(a)
    ensures var r := Drop(s, target);
      && r == s.(drops := r.drops)
      && (!Occupied(s.items, a) ==> r.drops == s.drops)
      && (Occupied(s.items, a) ==>
            exists k :: 0 <= k < |s.items| && r.drops == s.drops + [DropCall(k, target)]
              && s.items[k].dropTarget == a
              && (forall j :: 0 <= j < k ==> s.items[j].dropTarget != a))
  {
    var f := FindItem(s.items, a);
    if f.Some? {
      assert Drop(s, target).drops == s.drops + [DropCall(f.value, target)];
    }
  }

  /** A mouse-up over an occupied or disabled target calls no `onDrop`, but still stops. */
  lemma TargetUpRefused(s: Area, uid: Id, disabled: bool)
    requires disabled || Occupied(s.items, uid)
    ensures TargetMouseUp(s, uid, disabled) == Stop(s)
  {
  }

  /** Every mouse-up over a target ends the drag. */
  lemma TargetUpEndsDrag(s: Area, uid: Id, disabled: bool)
    ensures TargetMouseUp(s, uid, disabled).activeId == None
    ensures TargetMouseUp(s, uid, disabled).handle == None
  {
  }

  // ---- What the code does not guarantee ----

  /**
   * Two starts before the first frame each schedule a loop: the guard reads
   * only `activeId`, which no tick has set yet.
   */
  lemma DoubleStartSchedulesTwoLoops(s: Area, a: Id, b: Id, x: int, y: int, x': int, y': int)
    requires Inv(s) && s.activeId.None?
    ensures var r := Start(Start(s, a, x, y), b, x', y');
      && r.frames.pending.Keys == s.frames.pending.Keys + {s.frames.next, s.frames.next + 1}
      && |r.frames.pending| == |s.frames.pending| + 2
  {
    RequestFresh(s.frames, a);
    RequestFresh(Requested(s.frames, a), b);
  }

  /**
   * A stop (or unmount) before the first frame cannot cancel the first
   * callback, whose handle was discarded: it stays pending, and when it runs
   * it makes `id` active again and restarts the loop.
   */
  lemma StopBeforeFirstTickLeaks(s: Area, id: Id, x: int, y: int)
    requires Inv(s) && s.activeId.None?
    ensures var t := Stop(Start(s, id, x, y));
      && s.frames.next in t.frames.pending
      && t.frames.cancelled == s.frames.cancelled
      && t.activeId == None
      && Tick(t, s.frames.next).activeId == Some(id)
      && Tick(t, s.frames.next).handle.Some?
    ensures s.frames.next in Unmount(Start(s, id, x, y)).frames.pending
  {
  }

  // ---- Invariants over runs ----

  lemma InvKept(s: Area, e: Event)
    requires Inv(s)
    ensures Inv(Apply(s, e))
  {
    match e
    case MouseDown(b, id, x, y) =>
      if b == LeftButton && s.activeId.None? { RequestFresh(s.frames, id); }
    case FrameTick(h) =>
      if h in s.frames.pending {
        FireKeepsInv(s.frames, h);
        RequestFresh(Fired(s.frames, h), s.frames.pending[h]);
      }
    case MouseMove(x, y) =>
    case AreaMouseUp =>
      if s.handle.Some? { CancelKeepsInv(s.frames, s.handle.value); }
    case TargetUp(uid, d) =>
      if s.handle.Some? { CancelKeepsInv(s.frames, s.handle.value); }
    case NewItems(items) =>
    case Teardown =>
      if s.handle.Some? { CancelKeepsInv(s.frames, s.handle.value); }
  }

  /** Every event but unmount keeps a loop handle recorded while an id is active. */
  lemma LoopingKept(s: Area, e: Event)
    requires Looping(s) && !e.Teardown?
    ensures Looping(Apply(s, e))
  {
  }

  lemma {:induction false} RunKeepsInv(s: Area, es: seq<Event>)
    requires Inv(s)
    ensures Inv(Run(s, es))
    decreases |es|
  {
    if es != [] {
      InvKept(s, es[0]);
      RunKeepsInv(Apply(s, es[0]), es[1..]);
    }
  }

  /** Without an unmount, an active id always has its loop handle recorded and pending. */
  lemma {:induction false} RunKeepsLooping(s: Area, es: seq<Event>)
    requires Inv(s) && Looping(s)
    requires forall i :: 0 <= i < |es| ==> !es[i].Teardown?
    ensures Looping(Run(s, es))
    ensures var r := Run(s, es); r.activeId.Some? ==> r.handle.Some? && r.handle.value in r.frames.pending
    decreases |es|
  {
    if es == [] {
    } else {
      InvKept(s, es[0]);
      LoopingKept(s, es[0]);
      RunKeepsLooping(Apply(s, es[0]), es[1..]);
      RunKeepsInv(s, es);
    }
  }
}
