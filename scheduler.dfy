/**
 * An abstract stand-in for the host's `requestAnimationFrame` and
 * `cancelAnimationFrame`: it hands out fresh handles, keeps the callbacks
 * still to run, and logs every cancellation. A callback is the frame-loop
 * step of the drag started for some item identity, so a pending callback
 * is recorded as that identity. There is no timing: the host runs a
 * pending callback whenever it likes (`Fire`).
 */
module Scheduler {
  import opened Wrappers
  import opened Ids

  datatype Frames = Frames(next: nat, pending: map<nat, Id>, cancelled: seq<nat>)

  /** No frames scheduled, none cancelled. */
  function NoFrames(): Frames
  {
    Frames(0, map[], [])
  }

  /** `requestAnimationFrame`: the handle is `f.next`. */
  function Requested(f: Frames, id: Id): Frames
  {
    Frames(f.next + 1, f.pending[f.next := id], f.cancelled)
  }

  /** `cancelAnimationFrame(h)`: the callback no longer runs; the call is logged. */
  function Cancelled(f: Frames, h: nat): Frames
  {
    Frames(f.next, f.pending - {h}, f.cancelled + [h])
  }

  /** The host runs callback `h` once: it leaves the pending set. */
  function Fired(f: Frames, h: nat): Frames
  {
    f.(pending := f.pending - {h})
  }

  /**
   * Every handle ever handed out is below `next` and a cancelled callback is
   * never pending again, which the host guarantees; no handle is cancelled
   * twice, which holds as long as only pending handles are cancelled (see
   * `CancelKeepsInv`), as the coordinator does.
   */
  ghost predicate FramesInv(f: Frames)
  {
    && (forall h :: h in f.pending ==> h < f.next)
    && (forall i :: 0 <= i < |f.cancelled| ==> f.cancelled[i] < f.next)
    && (forall i :: 0 <= i < |f.cancelled| ==> f.cancelled[i] !in f.pending)
    && (forall i, j :: 0 <= i < j < |f.cancelled| ==> f.cancelled[i] != f.cancelled[j])
  }

  lemma NoFramesInv()
    ensures FramesInv(NoFrames())
  {
  }

  /** A request adds exactly one callback, under a handle never seen before. */
  lemma RequestFresh(f: Frames, id: Id)
    requires FramesInv(f)
    ensures f.next !in f.pending && f.next !in f.cancelled
    ensures Requested(f, id).pending.Keys == f.pending.Keys + {f.next}
    ensures |Requested(f, id).pending| == |f.pending| + 1
    ensures Requested(f, id).pending[f.next] == id
    ensures FramesInv(Requested(f, id))
  {
  }

  /** Cancelling a pending callback keeps the invariant. */
  lemma CancelKeepsInv(f: Frames, h: nat)
    requires FramesInv(f) && h in f.pending
    ensures FramesInv(Cancelled(f, h))
    ensures h !in Cancelled(f, h).pending
  {
    var g := Cancelled(f, h);
    forall i, j | 0 <= i < j < |g.cancelled|
      ensures g.cancelled[i] != g.cancelled[j]
    {
      if j == |f.cancelled| {
        assert g.cancelled[i] == f.cancelled[i] && f.cancelled[i] !in f.pending;
      }
    }
  }

  lemma FireKeepsInv(f: Frames, h: nat)
    requires FramesInv(f)
    ensures FramesInv(Fired(f, h))
  {
  }

  class FrameScheduler {
    var next: nat
    var pending: map<nat, Id>
    var cancelled: seq<nat>

    function Model(): Frames
      reads this
    {
      Frames(next, pending, cancelled)
    }

    constructor ()
      ensures Model() == NoFrames()
    {
      next, pending, cancelled := 0, map[], [];
    }

    method Request(id: Id) returns (h: nat)
      modifies this
      ensures h == old(next)
      ensures Model() == Requested(old(Model()), id)
    {
      h := next;
      pending := pending[h := id];
      next := next + 1;
    }

    method Cancel(h: nat)
      modifies this
      ensures Model() == Cancelled(old(Model()), h)
    {
      pending := pending - {h};
      cancelled := cancelled + [h];
    }

    /** The host runs callback `h`, if it is still pending. */
    method Fire(h: nat) returns (callback: Option<Id>)
      modifies this
      ensures callback == if h in old(pending) then Some(old(pending)[h]) else None
      ensures Model() == Fired(old(Model()), h)
    {
      callback := if h in pending then Some(pending[h]) else None;
      pending := pending - {h};
    }
  }
}
