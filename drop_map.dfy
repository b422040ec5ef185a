/**
 * `useDropMap`: the assignment map from target identity to item identity,
 * held as a plain object. Its setter merges `{ ...prevState, [prop]: id }`,
 * so the key written is the property key of `prop`: the number 0 and the
 * string "0" name the same slot.
 */
module DropMap {
  import opened Wrappers
  import opened Ids

  type Assignment = map<string, Id>

  /** The initial state: the supplied map, or `{}` when none is given. */
  function Initial(defaultValue: Option<Assignment>): (m: Assignment)
    ensures defaultValue.None? ==> m == map[]
    ensures defaultValue.Some? ==> m == defaultValue.value
  {
    defaultValue.GetOr(map[])
  }

  /** `state[prop]`, absent when the key is missing. */
  function Lookup(m: Assignment, prop: Id): Option<Id>
  {
    var k := PropertyKey(prop);
    if k in m then Some(m[k]) else None
  }

  /** The setter's update: `prop` now maps to `id`, every other key is kept. */
  function SetValue(m: Assignment, prop: Id, id: Id): (r: Assignment)
    ensures Lookup(r, prop) == Some(id)
    ensures forall q :: PropertyKey(q) != PropertyKey(prop) ==> Lookup(r, q) == Lookup(m, q)
    ensures r.Keys == m.Keys + {PropertyKey(prop)}
  {
    m[PropertyKey(prop) := id]
  }

  /** Setting the same key twice keeps only the last value. */
  lemma LastWriteWins(m: Assignment, prop: Id, a: Id, b: Id)
    ensures SetValue(SetValue(m, prop, a), prop, b) == SetValue(m, prop, b)
  {
  }

  /** Writes to different keys commute. */
  lemma DistinctKeysCommute(m: Assignment, p: Id, q: Id, a: Id, b: Id)
    requires PropertyKey(p) != PropertyKey(q)
    ensures SetValue(SetValue(m, p, a), q, b) == SetValue(SetValue(m, q, b), p, a)
  {
  }

  /** Writing number slot `a` leaves every other number slot as it was. */
  lemma DistinctNumbersIndependent(m: Assignment, a: int, b: int, id: Id)
    requires a != b
    ensures Lookup(SetValue(m, IntId(a), id), IntId(b)) == Lookup(m, IntId(b))
  {
    NumberKeyInjective(a, b);
  }

  /** A number and its decimal string are the same slot. */
  lemma NumberAndTextShareSlot(m: Assignment, n: int, a: Id, b: Id)
    ensures SetValue(SetValue(m, IntId(n), a), StrId(NumberKey(n)), b) == SetValue(m, IntId(n), b)
  {
  }
}
