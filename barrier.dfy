/**
 * `makeBarrier(count = 1)` and the `barrier(value?)` function it returns.
 *
 * The closure's captured variables `calls`, `values` and `resolved` become the
 * fields of class `Barrier`, the shared promise a `Promise` object it holds.
 * JavaScript runs each invocation of `barrier` to completion on one thread,
 * so each call of `Invoke` is one atomic step.
 *
 * The pure functions below describe the state after any sequence of
 * invocations, given the arguments passed so far (`None` for `undefined`);
 * `Barrier.Valid()` ties the fields to them, and the lemmas state what the
 * barrier promises about them.
 */
module Barriers {
  import opened Wrappers
  import opened Promises

  /** The number of the invocation that resolves the promise: the first
      invocation (counting from 1) at which `calls > count` holds. */
  function ReleaseIndex(count: int): (r: nat)
    ensures 1 <= r && count < r
    ensures r == 1 || r - 1 <= count
  {
    if count < 1 then 1 else count + 1
  }

  /** The values among `args` that are not `undefined`, in order. */
  function Defined<T>(args: seq<Option<T>>): (r: seq<T>)
    ensures |r| <= |args|
  {
    if args == [] then []
    else DefinedOne(args[0]) + Defined(args[1..])
  }

  function Min(a: int, b: int): int
  {
    if a < b then a else b
  }

  /** The contents of `values` after the invocations `args`: the defined
      values passed by the first `ReleaseIndex(count)` invocations. */
  function Collected<T>(count: int, args: seq<Option<T>>): (r: seq<T>)
    ensures |r| <= ReleaseIndex(count) && |r| <= |args|
  {
    Defined(args[..Min(|args|, ReleaseIndex(count))])
  }

  /** The settled value of the shared promise after the invocations `args`:
      pending exactly until the invocation at which `calls` first exceeds
      `count`, then the collected values. */
  function Outcome<T>(count: int, args: seq<Option<T>>): (r: Option<seq<T>>)
    ensures r.Some? <==> |args| >= 1 && |args| > count
    ensures r.Some? ==> r.value == Collected(count, args)
  {
    if |args| >= ReleaseIndex(count) then Some(Collected(count, args)) else None
  }

  /** The values contributed by one invocation. */
  function DefinedOne<T>(v: Option<T>): seq<T>
  {
    if v.Some? then [v.value] else []
  }

  lemma {:induction false} DefinedAppend<T>(a: seq<Option<T>>, b: seq<Option<T>>)
    ensures Defined(a + b) == Defined(a) + Defined(b)
  {
    if a == [] {
      assert a + b == b;
    } else {
      var ab := a + b;
      assert ab[0] == a[0];
      assert ab[1..] == a[1..] + b;
      DefinedAppend(a[1..], b);
      assert Defined(ab) == DefinedOne(a[0]) + (Defined(a[1..]) + Defined(b));
      assert Defined(a) == DefinedOne(a[0]) + Defined(a[1..]);
    }
  }

  /** `Defined` keeps exactly the values that were passed. */
  lemma {:induction false} DefinedMembers<T>(args: seq<Option<T>>, x: T)
    ensures x in Defined(args) <==> exists i :: 0 <= i < |args| && args[i] == Some(x)
  {
    if args != [] {
      DefinedMembers(args[1..], x);
      if x in Defined(args[1..]) {
        var i :| 0 <= i < |args[1..]| && args[1..][i] == Some(x);
        assert args[i + 1] == Some(x);
      }
      if exists i :: 0 <= i < |args| && args[i] == Some(x) {
        var i :| 0 <= i < |args| && args[i] == Some(x);
        if i > 0 {
          assert args[1..][i - 1] == Some(x);
        }
      }
    }
  }

  /** When every invocation passes a value, all of them are kept, in order. */
  lemma {:induction false} DefinedAllSome<T>(args: seq<Option<T>>)
    requires forall i :: 0 <= i < |args| ==> args[i].Some?
    ensures |Defined(args)| == |args|
    ensures forall i :: 0 <= i < |args| ==> Defined(args)[i] == args[i].value
  {
    if args != [] {
      DefinedAllSome(args[1..]);
    }
  }

  /** One invocation's effect on `values`: its value is appended exactly when
      the barrier has not yet released before it and the value is defined. */
  lemma CollectedStep<T>(count: int, args: seq<Option<T>>, v: Option<T>)
    ensures Collected(count, args + [v]) ==
      if |args| < ReleaseIndex(count) && v.Some? then Collected(count, args) + [v.value]
      else Collected(count, args)
  {
    var r := ReleaseIndex(count);
    if |args| < r {
      assert (args + [v])[..Min(|args| + 1, r)] == args + [v];
      assert args[..Min(|args|, r)] == args;
      DefinedAppend(args, [v]);
      assert Defined([v]) == DefinedOne(v) by {
        assert [v][1..] == [];
      }
    } else {
      assert (args + [v])[..Min(|args| + 1, r)] == args[..Min(|args|, r)];
    }
  }

  /** Once settled, the outcome never changes, whatever further invocations pass. */
  lemma SettledOnce<T>(count: int, args: seq<Option<T>>, more: seq<Option<T>>)
    requires Outcome(count, args).Some?
    ensures Outcome(count, args + more) == Outcome(count, args)
  {
    var r := ReleaseIndex(count);
    assert (args + more)[..Min(|args + more|, r)] == args[..Min(|args|, r)];
  }

  /** The value passed on the releasing invocation is part of the snapshot. */
  lemma ReleasingValueIncluded<T>(count: int, args: seq<Option<T>>, v: Option<T>)
    requires |args| + 1 == ReleaseIndex(count)
    ensures Outcome(count, args + [v]) == Some(Collected(count, args) + DefinedOne(v))
  {
    CollectedStep(count, args, v);
    assert Collected(count, args) + [] == Collected(count, args);
  }

  /** The snapshot holds a value exactly when one of the first
      `ReleaseIndex(count)` invocations passed it. */
  lemma CollectedMembers<T>(count: int, args: seq<Option<T>>, x: T)
    ensures x in Collected(count, args) <==>
      exists i :: 0 <= i < |args| && i < ReleaseIndex(count) && args[i] == Some(x)
  {
    var pre := args[..Min(|args|, ReleaseIndex(count))];
    DefinedMembers(pre, x);
    if exists i :: 0 <= i < |pre| && pre[i] == Some(x) {
      var i :| 0 <= i < |pre| && pre[i] == Some(x);
      assert args[i] == Some(x);
    }
    if exists i :: 0 <= i < |args| && i < ReleaseIndex(count) && args[i] == Some(x) {
      var i :| 0 <= i < |args| && i < ReleaseIndex(count) && args[i] == Some(x);
      assert pre[i] == Some(x);
    }
  }

  /** `count` is not validated: with `count <= 0` the first invocation
      releases, with its own value as the whole snapshot. */
  lemma NonPositiveCountReleasesFirst<T>(count: int, v: Option<T>)
    requires count <= 0
    ensures Outcome(count, [v]) == Some(DefinedOne(v))
  {
    var none: seq<Option<T>> := [];
    ReleasingValueIncluded(count, none, v);
    assert none + [v] == [v];
    assert Collected(count, none) + DefinedOne(v) == DefinedOne(v);
  }

  class Barrier<T> {
    /** `count`, the parameter of `makeBarrier`; never reassigned. */
    const count: int
    var calls: nat
    var values: seq<T>
    var resolved: bool
    /** The one promise every invocation returns. */
    const promise: Promise<seq<T>>
    /** The arguments of all invocations so far. */
    ghost var args: seq<Option<T>>

    /** The object invariant: the fields are what the invocations `args`
        make of them. */
    ghost predicate Valid()
      reads this, promise
      ensures Valid() ==> |values| <= ReleaseIndex(count)
      ensures Valid() ==> (resolved <==> calls >= 1 && calls > count)
      ensures Valid() ==> promise.outcome == if resolved then Some(values) else None
    {
      && calls == |args|
      && values == Collected(count, args)
      && resolved == (calls >= ReleaseIndex(count))
      && promise.outcome == Outcome(count, args)
    }

    /** `makeBarrier(count = 1)`. */
    constructor MakeBarrier(count: int := 1)
      ensures Valid() && fresh(promise)
      ensures this.count == count && args == []
      ensures calls == 0 && values == [] && !resolved && promise.outcome == None
    {
      this.count := count;
      calls := 0;
      values := [];
      resolved := false;
      args := [];
      promise := new Promise<seq<T>>.Pending();
    }

    /** `barrier(value?)`: count the call, collect the value while unresolved,
        resolve once `calls > count`, and return the shared promise. */
    method Invoke(value: Option<T>) returns (p: Promise<seq<T>>)
      requires Valid()
      modifies this, promise
      ensures Valid()
      ensures p == promise
      ensures args == old(args) + [value]
      ensures calls == old(calls) + 1
      ensures values == if !old(resolved) && value.Some? then old(values) + [value.value] else old(values)
      ensures resolved == (old(resolved) || calls > count)
      ensures promise.outcome ==
        if old(promise.outcome).None? && calls > count then Some(values) else old(promise.outcome)
    {
      CollectedStep(count, args, value);
      if resolved {
        SettledOnce(count, args, [value]);
      }
      calls := calls + 1;
      args := args + [value];
      if !resolved && value.Some? {
        values := values + [value.value];
      }
      if calls > count {
        resolved := true;
        promise.Resolve(values);
      }
      p := promise;
    }
  }
}
