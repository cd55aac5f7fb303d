/** A model of the fixed-capacity bump allocator `AtomicArena[T]`.

    The arena is seen one operation at a time: the compare-and-swap loop of
    `Alloc` is one indivisible "check capacity, then claim index `count`"
    step, and every operation maps an arena state to the next one.
 */
module AtomicArena {

  /** Go's `uintptr` on a 64-bit target: capacity and counter have this type. */
  newtype uintptr = x: int | 0 <= x < 0x1_0000_0000_0000_0000

  /** A pointer slot: `None` is a nil `atomic.Pointer`, `Some(v)` points at a cell holding `v`. */
  datatype Option<+T> = None | Some(value: T)

  datatype Result<+R, +E> = Success(value: R) | Failure(error: E)

  /** The only error `Alloc` reports; it carries the capacity its message mentions. */
  datatype AllocError = ArenaFull(maxElems: uintptr)

  /** The pointer `Alloc` returns, identified by the slot that stores it and
      carrying the value it points at. */
  datatype Ref<+T> = Ref(index: nat, value: T)

  /** The arena state: capacity, number of slots handed out, and the slots. */
  datatype Arena<+T> = Arena(maxElems: uintptr, count: uintptr, buff: seq<Option<T>>)

  /** One `Alloc` call: the arena after the call and what the call returned. */
  datatype Step<+T> = Step(next: Arena<T>, result: Result<Ref<T>, AllocError>)

  /** The buffer has exactly `maxElems` slots; it is made that long and never replaced. */
  predicate Shaped<T>(a: Arena<T>)
  {
    |a.buff| == a.maxElems as int
  }

  /** The invariant of every reachable state: the counter never passes the
      capacity, and a slot is filled exactly when its index was handed out. */
  predicate Valid<T>(a: Arena<T>)
  {
    && Shaped(a)
    && a.count <= a.maxElems
    && forall i :: 0 <= i < |a.buff| ==> (a.buff[i].Some? <==> i < a.count as int)
  }

  /** The freshly built arena of a given capacity (`NewAtomicArena`).
      There is no positivity check: capacity 0 gives an arena with no slots. */
  function New<T>(maxElems: uintptr): (r: Arena<T>)
    ensures Valid(r)
    ensures r.maxElems == maxElems && r.count == 0
    ensures forall i :: 0 <= i < |r.buff| ==> r.buff[i] == None
  {
    Arena(maxElems, 0, seq(maxElems as int, _ => None))
  }

  /** `Alloc(obj)`: fail with `ArenaFull` when `count >= maxElems`, otherwise
      store a pointer to a copy of `obj` at slot `count` and bump `count`. */
  function Alloc<T>(a: Arena<T>, obj: T): (s: Step<T>)
    requires Shaped(a)
    ensures Shaped(s.next) && s.next.maxElems == a.maxElems
    ensures s.result.Success? <==> a.count < a.maxElems
    ensures s.result.Failure? ==> s.next == a && s.result.error == ArenaFull(a.maxElems)
    ensures s.result.Success? ==>
              && s.result.value.index == a.count as int
              && s.next.count as int == a.count as int + 1
              && s.next.buff[a.count] == Some(obj)
              && forall i :: 0 <= i < |a.buff| && i != a.count as int ==> s.next.buff[i] == a.buff[i]
    ensures Valid(a) ==> Valid(s.next)
  {
    var old_ := a.count;
    if old_ >= a.maxElems then
      Step(a, Failure(ArenaFull(a.maxElems)))
    else
      var ptr := Ref(old_ as nat, obj);
      Step(Arena(a.maxElems, old_ + 1, a.buff[old_ := Some(ptr.value)]), Success(ptr))
  }

  /** Reading through a returned pointer. */
  function Deref<T>(r: Ref<T>): T
  {
    r.value
  }

  /** The clearing loop of `Reset`, from slot `i` onwards: every slot at or
      after `i` becomes nil, the ones before `i` are left alone. */
  function ClearFrom<T>(buff: seq<Option<T>>, i: nat): (r: seq<Option<T>>)
    requires i <= |buff|
    ensures |r| == |buff|
    ensures forall j :: 0 <= j < i ==> r[j] == buff[j]
    ensures forall j :: i <= j < |r| ==> r[j] == None
    decreases |buff| - i
  {
    if i == |buff| then buff
    else ClearFrom(buff[i := None], i + 1)
  }

  /** `Reset`: nil every slot, then set the counter back to 0. The result is
      the freshly built arena of the same capacity, whatever state it started in. */
  function Reset<T>(a: Arena<T>): (r: Arena<T>)
    requires Shaped(a)
    ensures r == New(a.maxElems)
  {
    var cleared := ClearFrom(a.buff, 0);
    assert cleared == New<T>(a.maxElems).buff;
    Arena(a.maxElems, 0, cleared)
  }

  /** Round trip: after a successful `Alloc(obj)` the returned pointer
      dereferences to `obj`, and the slot it names stores that same pointer. */
  lemma AllocRoundTrip<T>(a: Arena<T>, obj: T)
    requires Shaped(a)
    ensures var s := Alloc(a, obj);
            s.result.Success? ==>
              && Deref(s.result.value) == obj
              && s.result.value.index < |s.next.buff|
              && s.next.buff[s.result.value.index] == Some(Deref(s.result.value))
  {
  }

  /** A failed `Alloc` leaves the arena exactly as it was. */
  lemma FailedAllocChangesNothing<T>(a: Arena<T>, obj: T)
    requires Shaped(a)
    requires a.count >= a.maxElems
    ensures Alloc(a, obj) == Step(a, Failure(ArenaFull(a.maxElems)))
  {
  }

  /** Calling `Reset` twice gives the same state as calling it once. */
  lemma ResetIdempotent<T>(a: Arena<T>)
    requires Shaped(a)
    ensures Reset(Reset(a)) == Reset(a)
    ensures Valid(Reset(a))
  {
  }
}
