/**
 * `useInstanceVar`: a one-slot mutable store that survives re-renders.
 * Each call creates its own cell; `Get` reads the slot and `Set` overwrites
 * it in place, evaluating (as an assignment expression) to the value written.
 */
module Hooks {

  class InstanceVar<T> {
    var current: T

    /** A fresh cell holds the initial value. */
    constructor (initialValue: T)
      ensures Get() == initialValue
    {
      current := initialValue;
    }

    function Get(): T
      reads this
    {
      current
    }

    /** Overwrites the slot; the next `Get` sees `value`, which is also returned. */
    method Set(value: T) returns (r: T)
      modifies this
      ensures Get() == value
      ensures r == value
    {
      current := value;
      r := value;
    }
  }
}
