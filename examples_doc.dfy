/**
 * Uses of the barrier written against the contracts of `Barrier` alone,
 * following the usage examples in the documentation of `makeBarrier`.
 */
module BarrierUsage {
  import opened Wrappers
  import opened Promises
  import opened Barriers

  /** `makeBarrier()`; the waiter's `await barrier()` comes first, the timer's
      `barrier()` second: the second invocation releases, with no values. */
  method WaitForTimeout() returns (first: Option<seq<int>>, second: Option<seq<int>>, same: bool)
    ensures first == None && second == Some([]) && same
  {
    var b := new Barrier<int>.MakeBarrier();
    var p := b.Invoke(None);
    first := p.outcome;
    var q := b.Invoke(None);
    second := q.outcome;
    same := p == q;
  }

  /** `makeBarrier<number>()`; the waiter invokes with no value, the timer
      later with 42: the releasing invocation's value is the snapshot. */
  method WaitForAnswer() returns (answer: Option<seq<int>>)
    ensures answer == Some([42])
  {
    var b := new Barrier<int>.MakeBarrier();
    var _ := b.Invoke(None);
    var p := b.Invoke(Some(42));
    assert b.values == [] + [42] == [42];
    answer := p.outcome;
  }

  /** Once released, further invocations change neither the snapshot nor
      the promise's outcome. */
  method SnapshotFrozen() returns (before: Option<seq<string>>, after: Option<seq<string>>)
    ensures before == Some(["one"]) && after == Some(["one"])
  {
    var b := new Barrier<string>.MakeBarrier();
    var _ := b.Invoke(None);
    var p := b.Invoke(Some("one"));
    assert b.values == [] + ["one"] == ["one"];
    before := p.outcome;
    p := b.Invoke(Some("second"));
    after := p.outcome;
  }

  /** `makeBarrier(2)`: the waiter plus two contexts passing 1 and 2; the
      third invocation releases with both values in invocation order. */
  method TwoContexts() returns (pending: Option<seq<int>>, released: Option<seq<int>>)
    ensures pending == None && released == Some([1, 2])
  {
    var b := new Barrier<int>.MakeBarrier(2);
    var _ := b.Invoke(None);
    var p := b.Invoke(Some(1));
    assert b.values == [] + [1] == [1];
    pending := p.outcome;
    p := b.Invoke(Some(2));
    assert b.values == [1] + [2] == [1, 2];
    released := p.outcome;
  }

  /** `makeBarrier(0)`: no validation, so the very first invocation releases. */
  method ZeroCount() returns (released: Option<seq<int>>)
    ensures released == Some([7])
  {
    var b := new Barrier<int>.MakeBarrier(0);
    var p := b.Invoke(Some(7));
    assert b.values == [] + [7] == [7];
    released := p.outcome;
  }
}
