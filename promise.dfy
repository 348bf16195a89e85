/**
 * The part of a JavaScript `Promise` the barrier relies on: it starts pending,
 * it is settled by the first call of its `resolve` function, and every later
 * call of `resolve` leaves it as it is. No rejection is modelled, because the
 * barrier never rejects.
 *
 * In `makeBarrier` only the returned closure holds `resolve`; correspondingly,
 * only `Barrier.Invoke` calls `Resolve`. A caller that resolved a barrier's
 * promise itself would break that barrier's invariant `Valid()`.
 */
module Promises {
  import opened Wrappers

  class Promise<T> {
    /** `None` while pending; `Some(v)` once resolved with `v`. */
    var outcome: Option<T>

    /** `new Promise(executor)` whose executor only captures `resolve`. */
    constructor Pending()
      ensures outcome == None
    {
      outcome := None;
    }

    /** `resolve(v)`: settles a pending promise; a settled one keeps its value. */
    method Resolve(v: T)
      modifies this
      ensures old(outcome).None? ==> outcome == Some(v)
      ensures old(outcome).Some? ==> outcome == old(outcome)
    {
      if outcome.None? {
        outcome := Some(v);
      }
    }
  }
}
