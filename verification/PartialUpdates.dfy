/** Partial updates: a dictionary of changed fields, applied to a row one field after the other. */
module PartialUpdates {

  /** The items of a dictionary: no key occurs twice. */
  predicate DistinctKeys<C>(changes: seq<C>, sameKey: (C, C) -> bool) {
    forall i, j | 0 <= i < j < |changes| :: !sameKey(changes[i], changes[j])
  }

  predicate Any<C>(changes: seq<C>, holds: C -> bool) {
    exists i :: 0 <= i < |changes| && holds(changes[i])
  }

  function ApplyAll<R, C>(apply: (R, C) -> R, row: R, changes: seq<C>): R {
    if changes == [] then row
    else apply(ApplyAll(apply, row, changes[..|changes| - 1]), changes[|changes| - 1])
  }

  lemma AnyAppend<C>(changes: seq<C>, change: C, holds: C -> bool)
    ensures Any(changes + [change], holds) <==> Any(changes, holds) || holds(change)
  {
    if Any(changes, holds) {
      var i :| 0 <= i < |changes| && holds(changes[i]);
      assert holds((changes + [change])[i]);
    }
    if holds(change) {
      assert holds((changes + [change])[|changes|]);
    }
  }

  /** The attribute loop of a service: each given field in turn; a null that cannot be stored is noticed. */
  method SetAttributes<R, C>(apply: (R, C) -> R, isNull: C -> bool, row: R, changes: seq<C>)
    returns (updated: R, storable: bool)
    ensures updated == ApplyAll(apply, row, changes)
    ensures storable <==> !Any(changes, isNull)
  {
    updated, storable := row, true;
    for i := 0 to |changes|
      invariant updated == ApplyAll(apply, row, changes[..i])
      invariant storable <==> !Any(changes[..i], isNull)
    {
      assert changes[..i + 1] == changes[..i] + [changes[i]];
      AnyAppend(changes[..i], changes[i], isNull);
      updated := apply(updated, changes[i]);
      storable := storable && !isNull(changes[i]);
    }
    assert changes[..|changes|] == changes;
  }

  /** A field that only changes of one kind touch stays as it was unless there is such a change. */
  lemma {:induction false} KeepsField<R(!new), C(!new), F>(apply: (R, C) -> R, row: R, changes: seq<C>,
                                                          field: R -> F, names: C -> bool)
    requires forall r, c | !names(c) :: field(apply(r, c)) == field(r)
    ensures field(ApplyAll(apply, row, changes)) == field(row) || Any(changes, names)
  {
    if changes == [] {
    } else {
      var rest, last := changes[..|changes| - 1], changes[|changes| - 1];
      KeepsField(apply, row, rest, field, names);
      assert changes == rest + [last];
      AnyAppend(rest, last, names);
    }
  }

  /** Each given field ends up with its given value. */
  lemma {:induction false} SetsGivenFields<R(!new), C(!new)>(apply: (R, C) -> R, row: R, changes: seq<C>,
                                                            has: (R, C) -> bool, sameKey: (C, C) -> bool)
    requires DistinctKeys(changes, sameKey)
    requires forall r, i | 0 <= i < |changes| :: has(apply(r, changes[i]), changes[i])
    requires forall r, c, d | !sameKey(c, d) && has(r, c) :: has(apply(r, d), c)
    ensures forall i | 0 <= i < |changes| :: has(ApplyAll(apply, row, changes), changes[i])
  {
    if changes == [] {
    } else {
      var rest, last := changes[..|changes| - 1], |changes| - 1;
      assert forall i | 0 <= i < last :: rest[i] == changes[i];
      SetsGivenFields(apply, row, rest, has, sameKey);
      assert forall i | 0 <= i < last :: !sameKey(changes[i], changes[last]);
    }
  }
}
