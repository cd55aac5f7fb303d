/** Properties of sequences of calls on one arena, as one thread sees them:
    successive `Alloc`s hand out the indices count, count+1, ... until the
    capacity is reached, and every later call fails. */
module ArenaTraces {
  import opened AtomicArena

  function Min(x: int, y: int): int
  {
    if x <= y then x else y
  }

  /** `Alloc(objs[0])`, `Alloc(objs[1])`, ... one after the other: the final
      arena and the result of every call, in order. */
  function AllocTrace<T>(a: Arena<T>, objs: seq<T>): (r: (Arena<T>, seq<Result<Ref<T>, AllocError>>))
    requires Shaped(a)
    ensures Shaped(r.0) && r.0.maxElems == a.maxElems
    ensures |r.1| == |objs|
    decreases |objs|
  {
    if |objs| == 0 then (a, [])
    else
      var s := Alloc(a, objs[0]);
      var rest := AllocTrace(s.next, objs[1..]);
      (rest.0, [s.result] + rest.1)
  }

  /** The outcome of successive `Alloc`s from any valid state: call `i` succeeds
      exactly when `count + i < maxElems`, then at index `count + i` holding
      `objs[i]`; slots below the starting count are untouched, the claimed ones
      hold the allocated values in order, and the invariant still holds. */
  lemma {:induction false} AllocTraceOutcome<T>(a: Arena<T>, objs: seq<T>)
    requires Valid(a)
    ensures Valid(AllocTrace(a, objs).0)
    ensures AllocTrace(a, objs).0.count as int == Min(a.count as int + |objs|, a.maxElems as int)
    ensures forall i :: 0 <= i < |objs| ==>
              (AllocTrace(a, objs).1[i].Success? <==> a.count as int + i < a.maxElems as int)
    ensures forall i :: 0 <= i < |objs| && AllocTrace(a, objs).1[i].Success? ==>
              AllocTrace(a, objs).1[i].value == Ref(a.count as int + i, objs[i])
    ensures forall i :: 0 <= i < |objs| && AllocTrace(a, objs).1[i].Failure? ==>
              AllocTrace(a, objs).1[i].error == ArenaFull(a.maxElems)
    ensures forall j :: 0 <= j < a.count as int ==> AllocTrace(a, objs).0.buff[j] == a.buff[j]
    ensures forall j :: a.count as int <= j < AllocTrace(a, objs).0.count as int ==>
              AllocTrace(a, objs).0.buff[j] == Some(objs[j - a.count as int])
    decreases |objs|
  {
    if |objs| == 0 {
    } else {
      var s := Alloc(a, objs[0]);
      var rest := AllocTrace(s.next, objs[1..]);
      AllocTraceOutcome(s.next, objs[1..]);
      var r := AllocTrace(a, objs);
      assert r.0 == rest.0;
      assert r.1 == [s.result] + rest.1;
      forall i | 1 <= i < |objs|
        ensures r.1[i] == rest.1[i - 1]
        ensures objs[1..][i - 1] == objs[i]
      {
      }
      if s.result.Failure? {
        assert s.next == a;
      } else {
        assert s.next.count as int == a.count as int + 1;
        forall j | a.count as int <= j < r.0.count as int
          ensures r.0.buff[j] == Some(objs[j - a.count as int])
        {
          if j > a.count as int {
            assert objs[1..][j - s.next.count as int] == objs[j - a.count as int];
          }
        }
      }
    }
  }

  /** Indices handed out between resets increase strictly with call order,
      so no two successful calls share a slot. */
  lemma IndicesStrictlyIncrease<T>(a: Arena<T>, objs: seq<T>)
    requires Valid(a)
    ensures var rs := AllocTrace(a, objs).1;
            forall i, j :: 0 <= i < j < |rs| && rs[i].Success? && rs[j].Success? ==>
              rs[i].value.index < rs[j].value.index
  {
    AllocTraceOutcome(a, objs);
  }

  /** From a fresh arena of capacity `n`, exactly `n` calls succeed, taking the
      indices 0, 1, ..., n-1, and the next one fails with `ArenaFull`. */
  lemma ExactlyCapacitySucceed<T>(n: uintptr, objs: seq<T>)
    requires |objs| == n as int + 1
    ensures var r := AllocTrace(New<T>(n), objs);
            && (forall i :: 0 <= i < n as int ==> r.1[i] == Success(Ref(i, objs[i])))
            && r.1[n] == Failure(ArenaFull(n))
            && r.0.count == n
  {
    AllocTraceOutcome(New<T>(n), objs);
  }

  /** With capacity 0 every `Alloc` fails and the arena stays as built. */
  lemma ZeroCapacityAlwaysFull<T>(objs: seq<T>)
    ensures var r := AllocTrace(New<T>(0), objs);
            && r.0 == New<T>(0)
            && forall i :: 0 <= i < |objs| ==> r.1[i] == Failure(ArenaFull(0))
  {
    AllocTraceOutcome(New<T>(0), objs);
  }

  /** After `Reset`, a round of allocations behaves exactly as on a fresh arena
      of the same capacity. */
  lemma ResetReplaysFreshRound<T>(a: Arena<T>, objs: seq<T>)
    requires Shaped(a)
    ensures AllocTrace(Reset(a), objs) == AllocTrace(New<T>(a.maxElems), objs)
  {
  }

  /** Capacity 5: allocating 0, 10, 20, 30, 40 fills slots 0-4 with those
      values, allocating 50 then fails and leaves the count at 5, and after
      `Reset` allocating 99 takes slot 0, which then holds 99. */
  lemma FiveSlotScenario()
    ensures var r := AllocTrace(New<int>(5), [0, 10, 20, 30, 40, 50]);
            && (forall i :: 0 <= i < 5 ==> r.1[i] == Success(Ref(i, 10 * i)))
            && (forall i :: 0 <= i < 5 ==> r.0.buff[i] == Some(10 * i))
            && r.1[5] == Failure(ArenaFull(5))
            && r.0.count == 5
            && Alloc(Reset(r.0), 99).result == Success(Ref(0, 99))
            && Alloc(Reset(r.0), 99).next.buff[0] == Some(99)
  {
    var objs := [0, 10, 20, 30, 40, 50];
    AllocTraceOutcome(New<int>(5), objs);
    assert forall i :: 0 <= i < 6 ==> objs[i] == 10 * i;
  }

  /** A call a thread may make on the arena. */
  datatype Op<+T> = AllocOp(obj: T) | ResetOp

  /** The arena after a sequence of `Alloc` and `Reset` calls, in order. */
  function Run<T>(a: Arena<T>, ops: seq<Op<T>>): (r: Arena<T>)
    requires Shaped(a)
    ensures Shaped(r)
    decreases |ops|
  {
    if |ops| == 0 then a
    else
      var next := match ops[0]
        case AllocOp(obj) => Alloc(a, obj).next
        case ResetOp => Reset(a);
      Run(next, ops[1..])
  }

  /** Every state reachable from a freshly built arena satisfies the invariant,
      and the capacity never changes. */
  lemma {:induction false} RunKeepsValid<T>(a: Arena<T>, ops: seq<Op<T>>)
    requires Valid(a)
    ensures Valid(Run(a, ops))
    ensures Run(a, ops).maxElems == a.maxElems
    decreases |ops|
  {
    if |ops| > 0 {
      var next := match ops[0]
        case AllocOp(obj) => Alloc(a, obj).next
        case ResetOp => Reset(a);
      assert Valid(next) && next.maxElems == a.maxElems;
      RunKeepsValid(next, ops[1..]);
    }
  }

  /** The indices of the non-nil slots. */
  function Filled<T>(a: Arena<T>): set<int>
  {
    set i | 0 <= i < |a.buff| && a.buff[i].Some?
  }

  /** The filled slots of a reachable arena are exactly the indices handed out
      since the last reset, and the counter never passes the capacity. */
  lemma ReachableFilledSlots<T>(n: uintptr, ops: seq<Op<T>>)
    ensures var a := Run(New<T>(n), ops);
            && (forall i :: i in Filled(a) <==> 0 <= i < a.count as int)
            && a.count <= n
  {
    RunKeepsValid(New<T>(n), ops);
  }
}
