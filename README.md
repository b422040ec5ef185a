# react-scrabble-dnd drag/drop coordinator, modelled in Dafny

This project models the core of a small drag-and-drop library for React:

- `DraggableArea`, the coordinator that tracks which item is being dragged and where the pointer is;
- `DropTarget`, which renders the item assigned to it and accepts drops;
- `useDropMap`, the assignment map from target identity to item identity;
- `useDraggable`, which computes an item's active flag and style and gates mouse-down;
- `useInstanceVar`, the mutable cell the coordinator keeps its coordinates and its animation handle in.

Files and modules:

- `ids.dfy` (`Ids`): an identity is an integer or a string. It also holds the property-key conversion a plain JavaScript object applies to its keys. A number becomes its decimal text, so `0` and `"0"` are one key. This conversion has an inverse and a round-trip lemma.
- `hooks.dfy` (`Hooks`): `InstanceVar`, a class with one field, a `Get` function and a `Set` method.
- `scheduler.dfy` (`Scheduler`): the host's `requestAnimationFrame`/`cancelAnimationFrame`. It is an abstract scheduler with a counter for fresh handles, a map of pending callbacks and a log of cancelled handles. `Frames` is its value and `FrameScheduler` its object; the invariant `FramesInv` says handles are fresh, a cancelled callback is never pending, and no handle is cancelled twice. A pending callback is recorded by the item identity whose frame loop it belongs to.
- `drop_target.dfy`, `drop_map.dfy`, `draggable.dfy`: the pure parts, as functions with contracts.
- `area_spec.dfy` (`AreaSpec`): the coordinator's state as the value `Area`. There is one function per event handler, plus lemmas saying what each event does, what it leaves alone and what it does not guarantee. The invariant `Inv` is proved to hold over any run of events.
- `coordinator.dfy` (`Coordinator`): `DraggableArea` as a class. It owns two `InstanceVar` cells and a `FrameScheduler`. Each handler method is proved to leave `State() == F(old(State()))` for its `AreaSpec` function `F`, and to keep `Valid()`.
- `scenario.dfy` (`Scenario`): a client. Two items are assigned by `{0: "00", 1: "01"}`. A right-button press does nothing. A left-button press, two frames and a move follow. The drag is released over the empty target 5, and the owner's map update re-renders item 0 at target 5.

## Behaviour of the code worth knowing


- `activeDraggableId` is set only inside the frame callback, never by the start handler itself.
- The handle returned by the first `requestAnimationFrame` is discarded. A stop or unmount before the first frame therefore cancels nothing. The first callback stays pending, and when it runs it makes the item active again and restarts the loop (`AreaSpec.StopBeforeFirstTickLeaks`).
- The re-entrancy guard reads only `activeDraggableId`. Two presses before the first frame schedule two loops (`AreaSpec.DoubleStartSchedulesTwoLoops`). So "exactly one outstanding handle" is not an invariant. What holds is `Inv`: a recorded handle is always pending, and none is recorded while no id is active. Outside unmount, `Looping` also holds: an active id always has a recorded handle.
- Stop resets the coordinate cell and `activeDraggableId`, but not `activeDraggableCoors`.
- Unmount cleanup cancels the recorded handle but leaves `activeDraggableId` as it was.

## Model

| member | source | states |
|---|---|---|
| Ids.NatDecimal | src/index.tsx:171 | the decimal text of a natural is non-empty, all digits, and has no leading zero |
| Ids.DecimalRoundTrip | src/index.tsx:171 | reading back the decimal text of `n` gives `n` |
| Ids.NumberKey | src/index.tsx:171 | a number's property key is non-empty and starts with `-` exactly when the number is negative |
| Ids.NumberKeyRoundTrip | src/index.tsx:171 | parsing a number's property key gives the number back |
| Ids.NumberKeyInjective | src/index.tsx:171 | two numbers share a property key exactly when they are equal |
| Ids.PropertyKey | src/index.tsx:171 | a string key is itself; a number key parses back to the number |
| Hooks.InstanceVar.constructor | src/utils/hooks.tsx:3-4 | a fresh cell's `Get` returns the initial value |
| Hooks.InstanceVar.Set | src/utils/hooks.tsx:11-14 | after `Set(v)`, `Get` returns `v`, and `Set` evaluates to `v` |
| Scheduler.NoFramesInv | src/index.tsx:36 | the scheduler starts with its invariant |
| Scheduler.RequestFresh | src/index.tsx:67 | a request adds exactly one pending callback, under a handle never pending or cancelled before, and keeps the invariant |
| Scheduler.CancelKeepsInv | src/index.tsx:98-101 | cancelling a pending callback removes it and keeps the invariant (never pending again, never cancelled twice) |
| Scheduler.FireKeepsInv | src/index.tsx:66-67 | running a callback keeps the invariant |
| Scheduler.FrameScheduler.constructor | src/index.tsx:36 | a new scheduler has nothing pending or cancelled |
| Scheduler.FrameScheduler.Request | src/index.tsx:67 | returns the next handle and records the callback under it |
| Scheduler.FrameScheduler.Cancel | src/index.tsx:99 | removes the callback and logs the cancellation |
| Scheduler.FrameScheduler.Fire | src/index.tsx:66-67 | yields the pending callback for `h`, if any, and consumes it |
| DropTarget.FindItem | src/index.tsx:149 | returns the first index whose item is assigned to the identity, or none exactly when no item is |
| DropTarget.Rendered | src/index.tsx:149-161 | a target renders an item exactly when it is occupied, and that item is assigned to it |
| DropTarget.Accepts | src/index.tsx:151-153 | the drop handler is attached exactly when the target is enabled and unoccupied |
| DropTarget.OccupiedRefusesDrop | src/index.tsx:151-153 | a target some item is assigned to refuses drops whatever its disabled flag |
| DropMap.Initial | src/index.tsx:167 | the map starts as the supplied default, or empty |
| DropMap.SetValue | src/index.tsx:169-173 | after the setter, `prop` maps to `id`, every key with a different property key is unchanged, and the key set grows by `prop`'s key only |
| DropMap.LastWriteWins | src/index.tsx:169-173 | setting the same key twice keeps only the last value |
| DropMap.DistinctKeysCommute | src/index.tsx:169-173 | writes under different keys commute |
| DropMap.DistinctNumbersIndependent | src/index.tsx:169-173 | writing number slot `a` leaves number slot `b != a` unchanged |
| DropMap.NumberAndTextShareSlot | src/index.tsx:171 | the number `n` and its decimal string are the same slot |
| Draggable.IsActive | src/index.tsx:182 | an item is active exactly when the active id is present and equals its identity |
| Draggable.Translation | src/index.tsx:183-189 | zero unless active with coordinates and an attached element; otherwise it puts the element's centre on the pointer |
| Draggable.StyleOf | src/index.tsx:191-195 | `pointerEvents` is none and `zIndex` is 9999 exactly when active, `zIndex` is otherwise auto, and the translation is as above |
| Draggable.InactiveItemAtRest | src/index.tsx:182-195 | an inactive item has zero translation, pointer events and default stacking |
| Draggable.MouseDownStart | src/index.tsx:197-202 | a drag start is requested exactly for button 0, and for the item's own identity |
| Hooks.InstanceVar.Get | src/utils/hooks.tsx:6-9 | reads the slot; what it returns is stated by the constructor and `Set` |
| DropMap.Lookup | example/index.tsx:61-67 | `state[prop]` through the property key; `SetValue`'s contract is stated in terms of it |
| AreaSpec.Start | src/index.tsx:59-79 | the start handler; its properties are `StartIgnoredWhileActive`, `StartFromIdle` and `DoubleStartSchedulesTwoLoops` |
| AreaSpec.UpdateActiveItem | src/index.tsx:66-73 | the frame callback's body; its effects are stated in `TickPending` |
| AreaSpec.Tick | src/index.tsx:66-73 | the host running callback `h`; stated in `TickPending`, `CancelledNeverFires` and `MoveThenTickPublishes` |
| AreaSpec.Move | src/index.tsx:81-88 | the move handler; stated in `MoveWhileIdle` and `MoveWhileActive` |
| AreaSpec.CancelRecorded | src/index.tsx:96-101 | the cancel-and-clear step shared by stop and unmount; stated in `StopResets` and `UnmountCancels` |
| AreaSpec.Stop | src/index.tsx:90-102 | the stop handler; stated in `StopResets` and `StopIdempotent` |
| AreaSpec.Drop | src/index.tsx:104-114 | the drop handler; stated in `DropWhileIdle` and `DropWhileActive` |
| AreaSpec.Unmount | src/index.tsx:44-53 | the effect cleanup; stated in `UnmountCancels` |
| AreaSpec.ItemMouseDown | src/index.tsx:197-202 | an item's mouse-down; stated in `MouseDownOtherButton` and, through `Start`, `StartFromIdle` |
| AreaSpec.TargetMouseUp | src/index.tsx:135-153 | a mouse-up over a target, then the area's stop; stated in `TargetUpRefused` and `TargetUpEndsDrag` |
| AreaSpec.Rerender | src/index.tsx:8-12 | a new `items` prop; only the item list changes |
| AreaSpec.Inv | src/index.tsx:36-114 | the invariant the handlers keep (`InvKept`, `RunKeepsInv`) |
| AreaSpec.Looping | src/index.tsx:63-102 | an active id has a recorded handle; kept by every event except unmount (`LoopingKept`, `RunKeepsLooping`) |
| AreaSpec.MountedInv | src/index.tsx:36-42 | the first render satisfies `Inv` and `Looping` |
| AreaSpec.StartIgnoredWhileActive | src/index.tsx:63 | a start while an id is active changes nothing |
| AreaSpec.StartFromIdle | src/index.tsx:63-75 | a start from idle writes the pointer into the coordinate cell, adds exactly one fresh pending callback for the id (earlier callbacks keep theirs), and leaves the active id, published coordinates and handle cell unchanged |
| AreaSpec.MouseDownOtherButton | src/index.tsx:197-202 | a mouse-down with any button but 0 changes nothing |
| AreaSpec.TickPending | src/index.tsx:66-73 | a frame consumes its callback, schedules and records a fresh handle, sets the active id and snapshots the coordinate cell |
| AreaSpec.CancelledNeverFires | src/index.tsx:96-101 | a cancelled callback never runs again |
| AreaSpec.MoveThenTickPublishes | src/index.tsx:66-88 | the frame after a move publishes the moved coordinates |
| AreaSpec.MoveWhileIdle | src/index.tsx:81-88 | a move with no active id changes nothing |
| AreaSpec.MoveWhileActive | src/index.tsx:81-88 | a move with an active id changes only the coordinate cell |
| AreaSpec.StopResets | src/index.tsx:90-102 | from any state, stop leaves the cell at `(0,0)`, no active id and no handle; it cancels exactly the recorded handle, leaves every other pending callback and the handle counter alone, and keeps the published coordinates |
| AreaSpec.StopIdempotent | src/index.tsx:90-102 | stopping twice is stopping once |
| AreaSpec.UnmountCancels | src/index.tsx:44-53 | unmount cancels and clears the recorded handle, if any; every other pending callback, the handle counter and the rest of the state are unchanged |
| AreaSpec.DropWhileIdle | src/index.tsx:104-114 | a drop with no active id calls no `onDrop` |
| AreaSpec.DropWhileActive | src/index.tsx:104-114 | a drop while active calls `onDrop(target)` once, on the first item assigned to the active id, or none when no item is |
| AreaSpec.TargetUpRefused | src/index.tsx:135-153 | a mouse-up over a disabled or occupied target calls no `onDrop` and only stops |
| AreaSpec.TargetUpEndsDrag | src/index.tsx:135-139 | every mouse-up over a target ends with no active id and no handle |
| AreaSpec.DoubleStartSchedulesTwoLoops | src/index.tsx:63-75 | two starts before the first frame schedule two callbacks |
| AreaSpec.StopBeforeFirstTickLeaks | src/index.tsx:59-102 | a stop before the first frame cancels nothing and leaves the first callback pending (an unmount too); when it runs, the item becomes active again |
| AreaSpec.InvKept | src/index.tsx:44-114 | every event keeps `Inv` |
| AreaSpec.LoopingKept | src/index.tsx:59-114 | every event except unmount keeps `Looping` |
| AreaSpec.RunKeepsInv | src/index.tsx:44-114 | any run of events keeps `Inv` |
| AreaSpec.RunKeepsLooping | src/index.tsx:59-114 | in any run without unmount, an active id has a recorded, pending loop handle |
| Coordinator.DraggableArea.constructor | src/index.tsx:35-42 | the first render: two fresh, independent cells, a fresh scheduler, the `Mounted` state |
| Coordinator.DraggableArea.DragStart | src/index.tsx:59-79 | leaves the `Start` state and keeps `Valid` |
| Coordinator.DraggableArea.UpdateActiveItem | src/index.tsx:66-73 | leaves the `UpdateActiveItem` state |
| Coordinator.DraggableArea.FrameTick | src/index.tsx:66-73 | leaves the `Tick` state and keeps `Valid` |
| Coordinator.DraggableArea.DragMove | src/index.tsx:81-88 | leaves the `Move` state and keeps `Valid` |
| Coordinator.DraggableArea.CancelRecordedHandle | src/index.tsx:96-101 | leaves the `CancelRecorded` state |
| Coordinator.DraggableArea.DragStop | src/index.tsx:90-102 | leaves the `Stop` state and keeps `Valid` |
| Coordinator.DraggableArea.Drop | src/index.tsx:104-114 | leaves the `Drop` state and keeps `Valid` |
| Coordinator.DraggableArea.Unmount | src/index.tsx:44-53 | leaves the `Unmount` state and keeps `Valid` |
| Coordinator.DraggableArea.ItemMouseDown | src/index.tsx:197-202 | leaves the `ItemMouseDown` state and keeps `Valid` |
| Coordinator.DraggableArea.TargetMouseUp | src/index.tsx:135-153 | leaves the `TargetMouseUp` state (drop if accepted, then stop) and keeps `Valid` |
| Coordinator.DraggableArea.Rerender | src/index.tsx:8-12 | replaces only the item list and keeps `Valid` |
| Coordinator.DraggableArea.ItemStyle | src/index.tsx:178-195 | an item's style from the coordinator's published state: pointer events off and stacking 9999 exactly when active, translation as `Translation` |
| Scenario.OwnerMap | example/index.tsx:50-58 | the demo's map `{0: "00", 1: "01"}` yields items assigned to "00" and "01" |
| Scenario.PickUp | src/index.tsx:59-79 | a right-button press does nothing; a left-button press plus one frame makes "00" active, with handle 1 recorded |

## Left out

- JSX rendering, the two context providers and `useContext`: the shared state is passed explicitly. `useMemo`/`useCallback` memoisation is not modelled, nor the stability of the cell accessors across renders.
- Behaviour outside a `DraggableArea`: there the context is empty, and `handleDragStart?.` and `draggableItems?.` do nothing.
- React state updates are applied when each handler returns. Stale closures over an older `activeDraggableId` are not modelled.
- Timing of animation frames: the host runs a pending callback when `FrameTick` is called with its handle.
- `e.preventDefault()` and the event objects: handlers take `clientX`, `clientY`, `button` and the target's `uid`/`disabled` as parameters.
- DOM reads of `offsetLeft/Top/Width/Height`: they are a `Box` parameter, and `None` stands for a detached reference. The `translate3d(...)` CSS text is not built; the translation is exact `real` arithmetic on integer coordinates.
- Floating point: identities, coordinates and metrics are integers. `NumberKey` renders only integral numbers, not JavaScript's text for fractions, `-0` or exponent forms.
- `onDrop` callbacks are logged as `(item index, target)`. The owner's reaction (the map setter, then a re-render) is shown in `Scenario`, not performed by the coordinator.
- AreaSpec.Drop: an item without an `onDrop` prop makes `handleDrop` throw a TypeError (`draggableItem?.` guards only a missing item); the model assumes every item has one and logs the call.
- An item's props other than `dropTarget`, the area's and target's passthrough props and children, and the spread order that lets the coordinator's `onMouseMove`/`onMouseUp` replace the caller's.
- The demo wiring in example/index.tsx (the 15×15 grid, `ReactDOM.render`, the item-level `disabled` flag); only its initial map is used, in `Scenario`.
- Events after unmount are not ruled out; `Looping` is proved only for runs without unmount.
