# barrier — a verified model of `makeBarrier`

`makeBarrier(count = 1)` in `src/barrier.ts` returns a function `barrier(value?)`.
Each call is one arrival at a rendezvous point, and every call returns the same
`Promise<T[]>`. The closure keeps three mutable state variables. `calls` counts the
invocations. `values` collects the defined arguments. `resolved` is a one-shot
flag. Each invocation does three things in order:

1. It increments `calls`.
2. It appends `value` when the barrier is unresolved and the value is not `undefined`.
3. It resolves the promise with `values` once `calls > count`.

The model has four files:

- `wrappers.dfy` (module `Wrappers`): `Option`, with `None` standing for `undefined`.
- `promise.dfy` (module `Promises`): class `Promise`. It is settled by its first
  `Resolve`; later calls of `Resolve` leave it unchanged. Only `Barrier.Invoke`
  calls `Resolve`, as only the closure holds `resolve` in the source.
- `barrier.dfy` (module `Barriers`): class `Barrier`. Its fields are `count`,
  `calls`, `values`, `resolved` and the shared `promise`, and `Invoke` is one call
  of `barrier(value?)`. The class also keeps a ghost history `args` of every
  argument passed so far. `Valid()` ties the fields to pure functions of
  `(count, args)`: `ReleaseIndex`, `Defined`, `Collected` and `Outcome`. The
  lemmas state the barrier's guarantees about those functions.
- `examples_doc.dfy` (module `BarrierUsage`): the documentation's usage examples,
  written as client code against the contracts alone.

Behaviours of `src/barrier.ts` worth noting:

- The promise resolves on invocation `count + 1`: the waiter's own `barrier()`
  call counts as one of the invocations (`ReleaseIndex`).
- `count` is not validated. With `count <= 0`, the first invocation releases
  (`NonPositiveCountReleasesFirst`).
- There is no failure path. `_reject` is never called.
- The releasing invocation's value is part of the snapshot, because the push
  comes before `resolved = true` (`ReleasingValueIncluded`).

## Model

| member | source | states |
|---|---|---|
| Barriers.ReleaseIndex | src/barrier.ts:89-91 | The releasing invocation number is the least `n >= 1` with `n > count`: it exceeds `count`, and the invocation before it (if any) does not. |
| Barriers.Defined | src/barrier.ts:85-87 | The defined values of a run of invocations number at most the invocations. |
| Barriers.Collected | src/barrier.ts:83-91 | At most `ReleaseIndex(count)` values are ever collected (at most `count + 1` for `count >= 0`), and no more than there were invocations. |
| Barriers.DefinedAppend | src/barrier.ts:85-87 | Collecting is compositional in invocation order: the values of `a + b` are those of `a` followed by those of `b`. |
| Barriers.DefinedMembers | src/barrier.ts:85-87 | A value is collected if and only if some invocation passed it (both directions). |
| Barriers.DefinedAllSome | src/barrier.ts:85-87 | When every invocation passes a value, all of them are kept, each at its own invocation's position. |
| Barriers.CollectedStep | src/barrier.ts:85-87 | One invocation appends exactly its value to the end of `values` when the barrier has not yet released and the value is defined. Otherwise `values` is unchanged. |
| Barriers.Outcome | src/barrier.ts:89-91 | The promise is settled after a run of invocations if and only if there was at least one and `calls > count`. Once settled, its value is `Collected(count, args)`. |
| Barriers.SettledOnce | src/barrier.ts:85-94 | Once the outcome is settled, no further invocations change it, whatever they pass: the snapshot is frozen. |
| Barriers.ReleasingValueIncluded | src/barrier.ts:85-91 | On the releasing invocation, the outcome is the values collected before it followed by that invocation's own value (if defined). |
| Barriers.CollectedMembers | src/barrier.ts:83-91 | A value is in the snapshot if and only if one of the first `ReleaseIndex(count)` invocations passed it. |
| Barriers.NonPositiveCountReleasesFirst | src/barrier.ts:71-91 | With `count <= 0`, the first invocation settles the promise, with its own value (if any) as the whole snapshot. |
| Barriers.Barrier.Valid | src/barrier.ts:73-91 | The invariant tying `calls`, `values`, `resolved` and the promise to the invocations so far. Under it, at most `ReleaseIndex(count)` values are held, `resolved` holds exactly when `calls >= 1` and `calls > count`, and the promise is settled with `values` exactly when `resolved`. |
| Barriers.Barrier.MakeBarrier | src/barrier.ts:71-80 | Creates the barrier with `count` (default 1), `calls = 0`, empty `values`, `resolved = false` and a fresh pending promise. |
| Barriers.Barrier.Invoke | src/barrier.ts:82-95 | Increments `calls` by one. Appends the value only when unresolved and defined. Sets `resolved` once `calls > count` and never clears it. Settles the promise with `values` only if still pending. Returns the same promise every time. Keeps `Valid()`. |
| Promises.Promise.Pending | src/barrier.ts:78-80 | A new promise is pending. |
| Promises.Promise.Resolve | src/barrier.ts:91 | `resolve(v)` settles a pending promise with `v` and leaves a settled one unchanged. |
| BarrierUsage.WaitForTimeout | src/barrier.ts:17-23 | With the default count, the first invocation leaves the promise pending and the second settles it with `[]`. Both return the same promise. |
| BarrierUsage.WaitForAnswer | src/barrier.ts:45-51 | The waiter's `barrier()` and then the timer's `barrier(42)` settle the promise with `[42]`. |
| BarrierUsage.SnapshotFrozen | src/barrier.ts:85-94 | A value passed after release does not enter the snapshot (`["one"]` stays `["one"]`). |
| BarrierUsage.TwoContexts | src/barrier.ts:83-91 | With `count = 2`, the promise stays pending after two invocations and settles on the third with `[1, 2]`, in invocation order. |
| BarrierUsage.ZeroCount | src/barrier.ts:71-91 | With `count = 0`, the first invocation settles the promise with its value. |

## Left out

- Promise scheduling and the event loop (`new Promise`, `await`, `then`, `setTimeout` in the documentation). Settlement is the `outcome` field of `Promise`. Callbacks and microtask ordering are not modelled.
- The promise's reject function is captured but never called. No rejection or failure transition exists, so none is modelled.
- Array aliasing: `resolve(values)` hands over the live array. No push happens after `resolved` is set, so a `seq` snapshot gives the same observable contents, and reference identity is not modelled.
- `count` is a JavaScript number, and the model takes an unbounded integer. A fractional `count` releases like its floor, so the integer model covers it. With `count` equal to `NaN` or `+Infinity`, `calls > count` is never true, so that barrier never releases; the model cannot express this. `calls` is an unbounded natural, so the loss of floating-point precision past 2^53 is not modelled.
- `value !== undefined` is modelled as `Some`. `null` and other JavaScript values are ordinary `Some` values.
- Who calls the barrier, and when, is left to the caller. Each invocation is one atomic step, as on JavaScript's single thread.
- `test/test-barrier.ts` is not part of this model. It uses a class-based API (`new Barrier()`, `.pass()`) that `src/barrier.ts` does not define.
- `typedoc.js` is not part of this model. It is documentation-generator configuration.
