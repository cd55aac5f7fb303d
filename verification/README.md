# AtomicArena: a Dafny model of a fixed-capacity bump allocator

`AtomicArena[T]` is a lock-free arena of fixed capacity. It is built with
`maxElems` pointer slots, all nil, and a counter of slots handed out.
`Alloc(obj)` claims the next index with a compare-and-swap on the counter. It
then stores a pointer to a copy of `obj` in that slot, or it fails with an
"arena full" error once the counter has reached the capacity. `Reset` nils
every slot and sets the counter back to 0.

The model treats the arena as an immutable state and each call as a pure
transition, seen one call at a time:

- `arena.dfy`, module `AtomicArena`, holds the state, the operations
  `New`, `Alloc` and `Reset`, and their per-call properties.
  - The state is `Arena(maxElems, count, buff)`, with `buff: seq<Option<T>>`.
  - Capacity and counter have a `uintptr` newtype, a 64-bit unsigned integer.
  - A nil slot is `None`.
- `arena_traces.dfy`, module `ArenaTraces`, holds properties of sequences of
  calls.
  - `AllocTrace` runs successive `Alloc`s.
  - `Run` runs any mix of `Alloc` and `Reset`.

In this model:

- The compare-and-swap retry loop is one indivisible step: check the
  capacity, then claim index `count`.
- A returned pointer is a `Ref(index, value)`. It names the slot that stores
  the pointer and the value it points at. `Deref` reads the value back.
- Failure is `ArenaFull(maxElems)`. The formatted error message is not
  modelled.

Three behaviours of the code are worth stating explicitly:

- `NewAtomicArena` has no positivity check. `uintptr` rules out negative
  capacities, and capacity 0 is accepted; every `Alloc` on such an arena
  fails.
- The capacity test in `Alloc` (arena.go:36) comes before the
  compare-and-swap (arena.go:39). A failing call therefore never writes the
  counter and needs no rollback.
- `Reset` clears all `maxElems` slots (arena.go:54-56), not only those below
  `count`. For valid states the result is the same either way.

`Deref` is a helper with no row of its own. It reads the value behind a
returned pointer (arena.go:41-46), and `AllocRoundTrip` states what it returns.
`Run` applies a sequence of `Alloc` and `Reset` calls in order, and
`RunKeepsValid` states what those calls preserve.

## Model

| member | source | states |
|---|---|---|
| AtomicArena.New | arena.go:22-29 | A new arena has the requested capacity, count 0, exactly `maxElems` slots, all nil, and satisfies the arena invariant. No positivity check, so capacity 0 is accepted. |
| AtomicArena.Alloc | arena.go:32-49 | Succeeds iff `count < maxElems`. On failure it returns `ArenaFull` and leaves the whole arena unchanged. On success it returns index `old = count`, slot `old` holds `obj`, count becomes `old+1`, and every other slot keeps its contents. It preserves the invariant `count <= maxElems` and "slot i filled iff i < count". |
| AtomicArena.ClearFrom | arena.go:54-56 | The clearing loop from index `i` on: same length, slots before `i` untouched, every slot from `i` on nil. |
| AtomicArena.Reset | arena.go:52-59 | From any state with `maxElems` slots, the result equals the freshly built arena of the same capacity: every slot nil and count 0. |
| AtomicArena.AllocRoundTrip | arena.go:39-46 | After a successful `Alloc(obj)`, the returned pointer dereferences to `obj`. The slot it names is in range and stores that same pointer. |
| AtomicArena.FailedAllocChangesNothing | arena.go:35-38 | When `count >= maxElems`, `Alloc` returns `ArenaFull(maxElems)` and the arena after the call is the arena before it. |
| AtomicArena.ResetIdempotent | arena.go:52-59 | Resetting twice gives the same state as resetting once, and the reset state satisfies the invariant. |
| ArenaTraces.AllocTrace | arena.go:32-49 | Successive `Alloc` calls keep the capacity and the slot count, and yield one result per call. |
| ArenaTraces.AllocTraceOutcome | arena.go:32-49 | From any valid state, the i-th of successive `Alloc`s succeeds iff `count + i < maxElems`. A success returns index `count + i` holding `objs[i]`, and a failure returns `ArenaFull`. The final count is `min(count + n, maxElems)`. Slots below the starting count are untouched, and the newly claimed slots hold the allocated values in order. |
| ArenaTraces.IndicesStrictlyIncrease | arena.go:35-46 | Between resets, the indices of successful `Alloc`s increase strictly with call order, so they are pairwise distinct. |
| ArenaTraces.ExactlyCapacitySucceed | arena.go:35-46 | On a fresh arena of capacity `n`, the first `n` calls succeed at indices `0..n-1` with their values, call `n+1` fails with `ArenaFull`, and the count ends at `n`. |
| ArenaTraces.ZeroCapacityAlwaysFull | arena.go:22-38 | With capacity 0, every `Alloc` fails with `ArenaFull(0)` and the arena stays equal to the freshly built one. |
| ArenaTraces.ResetReplaysFreshRound | arena.go:52-59 | After `Reset`, any round of allocations yields the same results and final state as on a freshly built arena of the same capacity. |
| ArenaTraces.FiveSlotScenario | arena.go:32-59 | Capacity 5: allocating 0, 10, 20, 30, 40 fills slots 0-4 with those values. Allocating 50 then fails and the count stays 5. After `Reset`, allocating 99 gets slot 0, which then holds 99. |
| ArenaTraces.Run | arena.go:31-59 | A sequence of `Alloc` and `Reset` calls, applied in order, keeps the buffer at exactly `maxElems` slots. |
| ArenaTraces.RunKeepsValid | arena.go:31-59 | Any sequence of `Alloc` and `Reset` calls from a valid state leads to a valid state with the same capacity. |
| ArenaTraces.ReachableFilledSlots | arena.go:13-59 | In every state reachable from `NewAtomicArena(n)`, the non-nil slots are exactly the indices below `count`, and `count <= n`. |

## Left out

- Atomics and memory ordering are not modelled: `atomic.Uintptr`, `atomic.Pointer`, release/acquire publication, and the retry of a lost compare-and-swap. Each `Alloc` is one indivisible step. What the concurrency guarantees is kept as the uniqueness and strict increase of the claimed indices.
- `elemSize` (`unsafe.Sizeof`) is not modelled. It is computed at construction but never used.
- The text of the "arena full" error message is not modelled. Failure is only the `ArenaFull` variant, carrying the capacity.
- Pointer identity and garbage collection are not modelled. A returned pointer is its slot index plus the value it points at. Writes made by callers through returned pointers are not modelled.
- Bulk allocation, a slot accessor and a ring wrap-around mode are not modelled. `arena.go` defines none of them. `AppendSlice`, called at examples/entity/main.go:38, and `PtrAt`, used by arenas_test.go, do not exist in `arena.go`.
- The failure of `make` for a huge capacity is not modelled. `make` panics ("len out of range") for capacities beyond the platform's allocation limit, and may run out of memory below that limit. `New` accepts every `uintptr` capacity.
