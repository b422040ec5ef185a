/**
 * `DropTarget` and the identity lookup shared with the coordinator's drop
 * handler: both search the registered items, in order, for the first one
 * whose assigned target (`dropTarget`) is `===` to a given identity.
 */
module DropTarget {
  import opened Wrappers
  import opened Ids

  /** A registered draggable item, seen through its `dropTarget` prop. */
  datatype Item = Item(dropTarget: Id)

  /** Some item is assigned to target `uid`. */
  predicate Occupied(items: seq<Item>, uid: Id)
  {
    exists j :: 0 <= j < |items| && items[j].dropTarget == uid
  }

  /** `items.find(item => item.props.dropTarget === target)`, as an index. */
  function FindItem(items: seq<Item>, target: Id): (r: Option<nat>)
    ensures r.Some? ==> r.value < |items| && items[r.value].dropTarget == target
    ensures r.Some? ==> forall j :: 0 <= j < r.value ==> items[j].dropTarget != target
    ensures r.None? <==> !Occupied(items, target)
  {
    if items == [] then None
    else if items[0].dropTarget == target then Some(0)
    else match FindItem(items[1..], target)
      case None => None
      case Some(k) => Some(k + 1)
  }

  /** The item a target renders: the first one assigned to it, if any. */
  function Rendered(items: seq<Item>, uid: Id): (r: Option<Item>)
    ensures r.Some? <==> Occupied(items, uid)
    ensures r.Some? ==> r.value.dropTarget == uid
    ensures r.Some? ==> exists k :: 0 <= k < |items| && items[k] == r.value
  {
    match FindItem(items, uid)
    case Some(k) => Some(items[k])
    case None => None
  }

  /**
   * Whether the target attaches its mouse-up drop handler: only when it is
   * enabled (`disabled` is false or absent) and renders no item.
   */
  function Accepts(items: seq<Item>, uid: Id, disabled: bool): (r: bool)
    ensures r <==> !disabled && !Occupied(items, uid)
  {
    !disabled && Rendered(items, uid).None?
  }

  /** An occupied target accepts no drop, whether or not it is disabled. */
  lemma OccupiedRefusesDrop(items: seq<Item>, k: nat, disabled: bool)
    requires k < |items|
    ensures !Accepts(items, items[k].dropTarget, disabled)
  {
  }
}
