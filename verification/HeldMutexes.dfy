/** The stack of AML mutexes an execution context holds, and the Acquire and Release
    operators (`external/uacpi/source/interpreter.c`, `dynamic_array.h`). */
module HeldMutexes {
  import opened Machine

  type Id = nat

  const INLINE_CAPACITY: nat := 8
  const MAX_DEPTH: nat := 0xFFFF

  function Min(a: nat, b: nat): nat { if a < b then a else b }

  function Without<T>(s: seq<T>, i: nat): seq<T>
    requires i < |s|
  {
    s[..i] + s[i + 1..]
  }

  /** Element `k` of an inline and a dynamic part. */
  ghost function Elem(first: seq<Id>, rest: seq<Id>, k: nat): Id
    requires |first| == INLINE_CAPACITY && k < INLINE_CAPACITY + |rest|
  {
    if k < INLINE_CAPACITY then first[k] else rest[k - INLINE_CAPACITY]
  }

  /** Once every element from `i` on is what its successor was, element `i` is gone. */
  lemma OneGone(first: seq<Id>, rest: seq<Id>, first': seq<Id>, rest': seq<Id>, was: seq<Id>, now: seq<Id>, i: nat)
    requires |first| == |first'| == INLINE_CAPACITY && |rest'| == |rest| && i < |was| <= INLINE_CAPACITY + |rest|
    requires |now| == |was| - 1
    requires forall k :: 0 <= k < |was| ==> was[k] == Elem(first, rest, k)
    requires forall k :: 0 <= k < |now| ==> now[k] == Elem(first', rest', k)
    requires forall k :: 0 <= k < |now| ==>
      Elem(first', rest', k) == Elem(first, rest, if k < i then k else k + 1)
    ensures now == Without(was, i)
  {
    hide Elem;
    WithoutAt(was, i);
    hide Without;
    assert forall k :: 0 <= k < |now| ==> now[k] == Without(was, i)[k];
  }

  /** An array with eight elements in place and the rest in separate storage. */
  class HeldArray {
    const inlineStorage: array<Id>
    var dynamicStorage: array<Id>
    var size: nat

    ghost predicate Valid()
      reads this
    {
      && inlineStorage.Length == INLINE_CAPACITY && inlineStorage != dynamicStorage
      && size <= INLINE_CAPACITY + dynamicStorage.Length
    }

    /** The elements, whichever storage they are in. */
    ghost function Items(): (s: seq<Id>)
      reads this, inlineStorage, dynamicStorage
      requires Valid()
      ensures |s| == size
    {
      inlineStorage[..Min(size, INLINE_CAPACITY)]
      + dynamicStorage[..if size > INLINE_CAPACITY then size - INLINE_CAPACITY else 0]
    }

    /** Which storage an element is in. */
    lemma ItemAt(k: nat)
      requires Valid() && k < size
      ensures Items()[k] == if k < INLINE_CAPACITY then inlineStorage[k] else dynamicStorage[k - INLINE_CAPACITY]
    {}

    constructor ()
      ensures Valid() && Items() == [] && fresh(inlineStorage) && fresh(dynamicStorage)
    {
      inlineStorage := new Id[INLINE_CAPACITY];
      dynamicStorage := new Id[0];
      size := 0;
    }

    /** `held_mutexes_array_at`. */
    method At(idx: nat) returns (r: Option<Id>)
      requires Valid()
      ensures r == if idx < size then Some(Items()[idx]) else None
    {
      if idx >= size {
        return None;
      }
      if idx < INLINE_CAPACITY {
        return Some(inlineStorage[idx]);
      }
      return Some(dynamicStorage[idx - INLINE_CAPACITY]);
    }

    /** `held_mutexes_array_last`: with size 0 the index wraps and nothing is there. */
    method Last() returns (r: Option<Id>)
      requires Valid()
      ensures r == if size > 0 then Some(Items()[size - 1]) else None
    {
      if size == 0 {
        return None;
      }
      r := At(size - 1);
    }

    method Pop()
      requires Valid()
      modifies this`size
      ensures Valid()
      ensures Items() == if old(size) > 0 then old(Items())[..old(size) - 1] else old(Items())
    {
      if size == 0 {
        return;
      }
      size := size - 1;
    }

    /** `held_mutexes_array_push`: `memory` says whether growing would succeed. */
    method Push(m: Id, memory: bool) returns (ok: bool)
      requires Valid()
      modifies this, inlineStorage, dynamicStorage
      ensures Valid() && (dynamicStorage == old(dynamicStorage) || fresh(dynamicStorage))
      ensures Items() == if ok then old(Items()) + [m] else old(Items())
      ensures memory ==> ok
    {
      ghost var was := Items();
      if size >= INLINE_CAPACITY {
        var dynamicSize := size - INLINE_CAPACITY;
        if dynamicSize == dynamicStorage.Length {
          if !memory {
            return false;
          }
          Grow(dynamicSize);
        }
        dynamicStorage[dynamicSize] := m;
        size := size + 1;
        assert Items()[..|was|] == was;
        return true;
      }
      inlineStorage[size] := m;
      size := size + 1;
      assert Items()[..|was|] == was;
      return true;
    }

    /** The reallocation inside `held_mutexes_array_alloc`: eight slots, then half as
        many again, at least one more. */
    method Grow(dynamicSize: nat)
      requires Valid() && size >= INLINE_CAPACITY
      requires dynamicSize == size - INLINE_CAPACITY == dynamicStorage.Length
      modifies this`dynamicStorage
      ensures Valid() && fresh(dynamicStorage) && Items() == old(Items())
      ensures dynamicStorage.Length > dynamicSize
    {
      var capacity := dynamicStorage.Length;
      var newCapacity := INLINE_CAPACITY;
      if capacity != 0 {
        var half := capacity / 2;
        newCapacity := capacity + (if half == 0 then 1 else half);
      }
      var buffer := new Id[newCapacity];
      var source := dynamicStorage;
      for i := 0 to dynamicSize
        invariant buffer[..i] == source[..i] && dynamicStorage == source
      {
        buffer[i] := source[i];
      }
      dynamicStorage := buffer;
    }

    /** `uacpi_memmove(&a[to], &a[to + 1], count)`, which copies forwards here. */
    static method ShiftDown(a: array<Id>, to: nat, count: nat)
      requires to + 1 + count <= a.Length
      modifies a
      ensures forall j :: 0 <= j < a.Length ==>
        a[j] == if to <= j < to + count then old(a[j + 1]) else old(a[j])
    {
      for k := 0 to count
        invariant forall j :: 0 <= j < a.Length ==>
          a[j] == if to <= j < to + k then old(a[j + 1]) else old(a[j])
      {
        a[to + k] := a[to + k + 1];
      }
    }

    /** `held_mutexes_array_remove_idx`: across both storages, deleting one element of
        the sequence. */
    method RemoveIdx(index: nat)
      requires Valid() && index < size
      modifies this`size, inlineStorage, dynamicStorage
      ensures Valid() && Items() == Without(old(Items()), index)
    {
      var n := INLINE_CAPACITY;
      if index >= n {
        RemoveDynamic(index - n);
        return;
      }
      RemoveInline(index);
    }

    /** Only the dynamic part is affected. */
    method RemoveDynamic(i: nat)
      requires Valid() && INLINE_CAPACITY + i < size
      modifies this`size, dynamicStorage
      ensures Valid() && Items() == Without(old(Items()), INLINE_CAPACITY + i)
    {
      ghost var was, first, rest := Items(), inlineStorage[..], dynamicStorage[..];
      ItemsElem();
      CloseDynamicGap(i);
      Pop();
      ItemsElem();
      hide Items;
      OneGone(first, rest, first, dynamicStorage[..], was, Items(), INLINE_CAPACITY + i);
    }

    /** The first dynamic element moves up to the end of the inline part. */
    method RemoveInline(i: nat)
      requires Valid() && i < size && i < INLINE_CAPACITY
      modifies this`size, inlineStorage, dynamicStorage
      ensures Valid() && Items() == Without(old(Items()), i)
    {
      ghost var was, first, rest := Items(), inlineStorage[..], dynamicStorage[..];
      ItemsElem();
      CloseGap(i);
      Pop();
      ItemsElem();
      hide Items;
      OneGone(first, rest, inlineStorage[..], dynamicStorage[..], was, Items(), i);
    }

    lemma ItemsElem()
      requires Valid()
      ensures forall k :: 0 <= k < size ==> Items()[k] == Elem(inlineStorage[..], dynamicStorage[..], k)
    {
      forall k | 0 <= k < size
        ensures Items()[k] == Elem(inlineStorage[..], dynamicStorage[..], k)
      {
        ItemAt(k);
      }
    }

    /** Every dynamic element behind `i` moves down by one. */
    method CloseDynamicGap(i: nat)
      requires Valid() && INLINE_CAPACITY + i < size
      modifies dynamicStorage
      ensures forall k :: 0 <= k < size - 1 ==>
        Elem(inlineStorage[..], dynamicStorage[..], k) ==
          Elem(inlineStorage[..], old(dynamicStorage[..]), if k < INLINE_CAPACITY + i then k else k + 1)
    {
      ghost var rest := dynamicStorage[..];
      ShiftDown(dynamicStorage, i, size - INLINE_CAPACITY - (i + 1));
      forall k | 0 <= k < size - 1
        ensures Elem(inlineStorage[..], dynamicStorage[..], k) ==
          Elem(inlineStorage[..], rest, if k < INLINE_CAPACITY + i then k else k + 1)
      {
        if k >= INLINE_CAPACITY {
          var at := k - INLINE_CAPACITY;
          assert dynamicStorage[..][at] == dynamicStorage[at] == rest[if at < i then at else at + 1];
        }
      }
    }

    /** Every element behind `i` moves down by one, the first dynamic one into the inline part. */
    method CloseGap(i: nat)
      requires Valid() && i < size && i < INLINE_CAPACITY
      modifies inlineStorage, dynamicStorage
      ensures forall k :: 0 <= k < size - 1 ==>
        Elem(inlineStorage[..], dynamicStorage[..], k) ==
          Elem(old(inlineStorage[..]), old(dynamicStorage[..]), if k < i then k else k + 1)
    {
      var n := INLINE_CAPACITY;
      var inlineSize := Min(n, size);
      ShiftDown(inlineStorage, i, inlineSize - (i + 1));
      if size > n {
        inlineStorage[n - 1] := dynamicStorage[0];
        ShiftDown(dynamicStorage, 0, size - (n + 1));
      }
    }
  }

  // ----- Acquire and Release -----

  /** One AML mutex as seen by the running thread. */
  datatype Mutex = Mutex(syncLevel: nat, mine: bool, depth: nat)

  datatype Status = Ok | OutOfMemory

  /** What an execution context knows: the held mutexes, oldest first, the mutexes
      themselves and `ctx->sync_level`. */
  datatype Holding = Holding(items: seq<Id>, mutexes: map<Id, Mutex>, syncLevel: nat)

  ghost predicate Known(mutexes: map<Id, Mutex>, items: seq<Id>) {
    forall k :: 0 <= k < |items| ==> items[k] in mutexes
  }

  /** Held mutexes belong to this thread, none twice. */
  ghost predicate Owned(mutexes: map<Id, Mutex>, items: seq<Id>)
    requires Known(mutexes, items)
  {
    && (forall k :: 0 <= k < |items| ==> mutexes[items[k]].mine && mutexes[items[k]].depth > 0)
    && (forall i, j :: 0 <= i < j < |items| ==> items[i] != items[j])
  }

  /** Levels never go down along the array. */
  ghost predicate Sorted(mutexes: map<Id, Mutex>, items: seq<Id>)
    requires Known(mutexes, items)
  {
    forall i, j :: 0 <= i < j < |items| ==> mutexes[items[i]].syncLevel <= mutexes[items[j]].syncLevel
  }

  function TopLevel(mutexes: map<Id, Mutex>, items: seq<Id>): nat
    requires Known(mutexes, items)
  {
    if items == [] then 0 else mutexes[items[|items| - 1]].syncLevel
  }

  /** What every Acquire and Release keeps about the held mutexes. */
  ghost predicate Ordered(h: Holding) {
    && Known(h.mutexes, h.items) && Owned(h.mutexes, h.items) && Sorted(h.mutexes, h.items)
    && h.syncLevel == TopLevel(h.mutexes, h.items)
  }

  /** Where a mutex was last pushed. */
  function LastIndex(items: seq<Id>, m: Id): (r: Option<nat>)
    ensures r.Some? ==> r.value < |items| && items[r.value] == m
    ensures r.Some? ==> forall k :: r.value < k < |items| ==> items[k] != m
    ensures r.None? ==> forall k :: 0 <= k < |items| ==> items[k] != m
  {
    if items == [] then None
    else if items[|items| - 1] == m then Some(|items| - 1)
    else LastIndex(items[..|items| - 1], m)
  }

  /** `AcquireOp`: `granted` is the outcome of the native acquire and `memory` that of
      growing the array. */
  function Acquired(h: Holding, m: Id, granted: bool, memory: bool): Holding
    requires m in h.mutexes
  {
    var mutex := h.mutexes[m];
    if h.syncLevel > mutex.syncLevel then h
    else if mutex.mine then
      if mutex.depth == MAX_DEPTH then h
      else h.(mutexes := h.mutexes[m := mutex.(depth := mutex.depth + 1)])
    else if !granted then h
    else if !memory then h.(mutexes := h.mutexes[m := mutex.(mine := false, depth := 0)])
    else Holding(h.items + [m], h.mutexes[m := mutex.(mine := true, depth := 1)], mutex.syncLevel)
  }

  /** Giving a mutex up: only at the current level and one acquisition at a time, unless
      forced; the last release takes it out of the array wherever it is. */
  function GivenUp(h: Holding, m: Id, force: bool): Holding
    requires m in h.mutexes && Known(h.mutexes, h.items)
  {
    var mutex := h.mutexes[m];
    if h.items == [] || (mutex.syncLevel != TopLevel(h.mutexes, h.items) && !force) then h
    else if mutex.depth > 1 && !force then h.(mutexes := h.mutexes[m := mutex.(depth := mutex.depth - 1)])
    else match LastIndex(h.items, m)
      case None => h
      case Some(i) =>
        var rest := Without(h.items, i);
        var given := h.mutexes[m := mutex.(mine := false, depth := 0)];
        KnownWithout(h.mutexes, h.items, i, given);
        Holding(rest, given, TopLevel(given, rest))
  }

  /** `ReleaseOp`. */
  function Released(h: Holding, m: Id): Holding
    requires m in h.mutexes && Known(h.mutexes, h.items)
  {
    if !h.mutexes[m].mine then h else GivenUp(h, m, false)
  }

  lemma KnownWithout(mutexes: map<Id, Mutex>, items: seq<Id>, i: nat, given: map<Id, Mutex>)
    requires Known(mutexes, items) && i < |items| && mutexes.Keys <= given.Keys
    ensures Known(given, Without(items, i))
  {
    WithoutAt(items, i);
  }

  lemma WithoutAt(items: seq<Id>, i: nat)
    requires i < |items|
    ensures |Without(items, i)| == |items| - 1
    ensures forall k :: 0 <= k < |items| - 1 ==> Without(items, i)[k] == items[if k < i then k else k + 1]
  {}

  lemma AcquireKeepsOrder(h: Holding, m: Id, granted: bool, memory: bool)
    requires Ordered(h) && m in h.mutexes
    ensures Ordered(Acquired(h, m, granted, memory))
  {
    var mutex, next := h.mutexes[m], Acquired(h, m, granted, memory);
    if next.items == h.items {
      assert forall k :: 0 <= k < |h.items| && h.items[k] == m ==> mutex.mine;
    } else {
      assert next.items == h.items + [m] && h.syncLevel <= mutex.syncLevel && !mutex.mine;
    }
  }

  /** Giving up a mutex that is not the last one held still leaves the rest in order. */
  lemma ReleaseKeepsOrder(h: Holding, m: Id)
    requires Ordered(h) && m in h.mutexes
    ensures Ordered(GivenUp(h, m, true)) && Ordered(Released(h, m))
  {
    hide LastIndex;
    if h.items != [] {
      match LastIndex(h.items, m)
      case None =>
      case Some(i) =>
        var given := h.mutexes[m := h.mutexes[m].(mine := false, depth := 0)];
        KnownWithout(h.mutexes, h.items, i, given);
        WithoutOrdered(h.mutexes, h.items, i, given);
    }
  }

  lemma WithoutOrdered(mutexes: map<Id, Mutex>, items: seq<Id>, i: nat, given: map<Id, Mutex>)
    requires Known(mutexes, items) && Owned(mutexes, items) && Sorted(mutexes, items) && i < |items|
    requires given == mutexes[items[i] := mutexes[items[i]].(mine := false, depth := 0)]
    requires Known(given, Without(items, i))
    ensures Owned(given, Without(items, i)) && Sorted(given, Without(items, i))
  {
    WithoutAt(items, i);
  }

  /** What is left to give up after some rounds of a forced release. */
  ghost predicate Reduced(items: seq<Id>, was: map<Id, Mutex>, h: Holding) {
    && |h.items| <= |items| && h.items == items[..|h.items|] && h.mutexes.Keys == was.Keys
    && forall m :: m in was ==>
         if m in items && m !in h.items then !h.mutexes[m].mine && h.mutexes[m].depth == 0
         else h.mutexes[m] == was[m]
  }

  lemma ReducedFirst(h: Holding)
    requires Ordered(h)
    ensures Reduced(h.items, h.mutexes, h)
  {}

  lemma ReducedLast(items: seq<Id>, was: map<Id, Mutex>, h: Holding)
    requires Reduced(items, was, h) && h.items == []
    ensures h.mutexes.Keys == was.Keys
    ensures forall m :: m in h.mutexes && m in items ==> !h.mutexes[m].mine && h.mutexes[m].depth == 0
    ensures forall m :: m in h.mutexes && m !in items ==> h.mutexes[m] == was[m]
  {}

  /** One round takes the last mutex out. */
  lemma GiveUpLast(items: seq<Id>, was: map<Id, Mutex>, h: Holding)
    requires Ordered(h) && Reduced(items, was, h) && h.items != []
    ensures var m := h.items[|h.items| - 1];
      && m in h.mutexes && Known(h.mutexes, h.items)
      && Reduced(items, was, GivenUp(h, m, true)) && |GivenUp(h, m, true).items| == |h.items| - 1
  {
    var n := |h.items| - 1;
    var m := h.items[n];
    assert Without(h.items, n) == items[..n];
    assert h.items == items[..n] + [m];
    assert m !in items[..n];
  }

  lemma SameUpToLevel(h: Holding, g: Holding, m: Id)
    requires h.items == g.items && h.mutexes == g.mutexes && m in h.mutexes && Known(h.mutexes, h.items)
    ensures GivenUp(h, m, true).items == GivenUp(g, m, true).items
    ensures GivenUp(h, m, true).mutexes == GivenUp(g, m, true).mutexes
  {}

  datatype Op =
    | Acquire(m: Id, granted: bool, memory: bool)
    | Release(m: Id)

  /** A run of the two operators on existing mutexes. */
  ghost predicate Run(h: Holding, ops: seq<Op>, end: Holding)
    decreases |ops|
  {
    if ops == [] then end == h
    else
      && ops[0].m in h.mutexes && Known(h.mutexes, h.items)
      && Run(match ops[0]
             case Acquire(m, granted, memory) => Acquired(h, m, granted, memory)
             case Release(m) => Released(h, m), ops[1..], end)
  }

  /** Every run from a context that holds nothing leaves the held mutexes sorted by
      level, with `ctx->sync_level` the last one's or 0, so each mutex gained had a
      level no lower than every mutex held. */
  lemma {:induction false} RunsKeepOrder(h: Holding, ops: seq<Op>, end: Holding)
    requires Ordered(h) && Run(h, ops, end)
    ensures Ordered(end)
    decreases |ops|
  {
    if ops != [] {
      match ops[0]
      case Acquire(m, granted, memory) =>
        AcquireKeepsOrder(h, m, granted, memory);
        RunsKeepOrder(Acquired(h, m, granted, memory), ops[1..], end);
      case Release(m) =>
        ReleaseKeepsOrder(h, m);
        RunsKeepOrder(Released(h, m), ops[1..], end);
    }
  }

  /** Releasing right after a first acquire gives back the context there was. */
  lemma ReleaseUndoesAcquire(h: Holding, m: Id)
    requires Ordered(h) && m in h.mutexes && !h.mutexes[m].mine && h.mutexes[m].depth == 0
    requires h.syncLevel <= h.mutexes[m].syncLevel
    ensures var taken := Acquired(h, m, true, true);
      taken != h && Known(taken.mutexes, taken.items) && Released(taken, m) == h
  {
    var taken := Acquired(h, m, true, true);
    AcquireKeepsOrder(h, m, true, true);
    assert Without(taken.items, |h.items|) == h.items;
    var given := taken.mutexes[m := taken.mutexes[m].(mine := false, depth := 0)];
    assert given == h.mutexes;
  }

  /** With the native acquire and the memory granted, an Acquire is without effect exactly
      when a mutex of a higher level is held, or 65535 acquisitions are open. */
  lemma AcquireRefusedExactly(h: Holding, m: Id)
    requires Ordered(h) && m in h.mutexes
    ensures Acquired(h, m, true, true) == h <==>
      || (exists k :: 0 <= k < |h.items| && h.mutexes[h.items[k]].syncLevel > h.mutexes[m].syncLevel)
      || (h.mutexes[m].mine && h.mutexes[m].depth == 65535)
  {
    var mutex, next := h.mutexes[m], Acquired(h, m, true, true);
    if h.syncLevel > mutex.syncLevel {
      assert h.mutexes[h.items[|h.items| - 1]].syncLevel > mutex.syncLevel;
    } else if !mutex.mine {
      assert |next.items| == |h.items| + 1;
    } else if mutex.depth != 65535 {
      assert next.mutexes[m].depth == mutex.depth + 1;
    }
  }

  /** A Release of a held mutex is without effect exactly while one of a higher level is
      held. */
  lemma ReleaseRefusedExactly(h: Holding, m: Id)
    requires Ordered(h) && m in h.items
    ensures Released(h, m) == h <==>
      exists k :: 0 <= k < |h.items| && h.mutexes[h.items[k]].syncLevel > h.mutexes[m].syncLevel
  {
    var top := |h.items| - 1;
    var i :| 0 <= i <= top && h.items[i] == m;
    if h.mutexes[h.items[top]].syncLevel == h.mutexes[m].syncLevel {
      assert Released(h, m).mutexes[m] != h.mutexes[m];
    } else {
      assert h.mutexes[h.items[top]].syncLevel > h.mutexes[m].syncLevel;
    }
  }

  function Acquires(m: Id, n: nat): seq<Op> { seq(n, _ => Acquire(m, true, true)) }

  function Releases(m: Id, n: nat): seq<Op> { seq(n, _ => Release(m)) }

  /** The context with `m` on top of the mutexes of `h`, acquired `depth` times. */
  function OnTop(h: Holding, m: Id, depth: nat): Holding
    requires m in h.mutexes
  {
    var mutex := h.mutexes[m];
    Holding(h.items + [m], h.mutexes[m := mutex.(mine := true, depth := depth)], mutex.syncLevel)
  }

  /** `m` can be taken, and is free. */
  ghost predicate Takeable(h: Holding, m: Id) {
    && Ordered(h) && m in h.mutexes && !h.mutexes[m].mine && h.mutexes[m].depth == 0
    && h.syncLevel <= h.mutexes[m].syncLevel
  }

  lemma TopStep(h: Holding, m: Id, depth: nat)
    requires Takeable(h, m) && 0 < depth <= 65535
    ensures var top := OnTop(h, m, depth);
      && m in top.mutexes && Known(top.mutexes, top.items)
      && Acquired(top, m, true, true) == OnTop(h, m, if depth < 65535 then depth + 1 else depth)
      && Released(top, m) == if depth > 1 then OnTop(h, m, depth - 1) else h
  {
    var top := OnTop(h, m, depth);
    assert Without(top.items, |h.items|) == h.items;
    assert top.mutexes[m := h.mutexes[m]] == h.mutexes;
    assert h.mutexes[m] == h.mutexes[m].(mine := false, depth := 0);
    if depth < 65535 {
      assert Acquired(top, m, true, true).mutexes == OnTop(h, m, depth + 1).mutexes;
    }
    if depth > 1 {
      assert Released(top, m).mutexes == OnTop(h, m, depth - 1).mutexes;
    }
  }

  lemma FirstTake(h: Holding, m: Id)
    requires Takeable(h, m)
    ensures Acquired(h, m, true, true) == OnTop(h, m, 1) && Released(h, m) == h
  {}

  /** Acquiring a free mutex `n` times and releasing it `k` times: 65535 acquisitions count
      and the others are refused, each release takes one back, the last one restores the
      context, and what is released beyond that changes nothing. */
  lemma {:induction false} NestedUse(h: Holding, m: Id, n: nat, k: nat, end: Holding)
    requires Takeable(h, m) && Run(h, Acquires(m, n) + Releases(m, k), end)
    ensures var open := if n < 65535 then n else 65535;
      end == if k < open then OnTop(h, m, open - k) else h
  {
    hide Takeable, Acquired, Released, OnTop;
    if n == 0 {
      assert Acquires(m, 0) + Releases(m, k) == Releases(m, k);
      BeyondTheLast(h, m, k, end);
    } else {
      assert (Acquires(m, n) + Releases(m, k))[1..] == Acquires(m, n - 1) + Releases(m, k);
      FirstTake(h, m);
      FromDepth(h, m, 1, n - 1, k, end);
    }
  }

  lemma {:induction false} FromDepth(h: Holding, m: Id, depth: nat, n: nat, k: nat, end: Holding)
    requires Takeable(h, m) && 0 < depth <= 65535
    requires Run(OnTop(h, m, depth), Acquires(m, n) + Releases(m, k), end)
    ensures var open := if depth + n < 65535 then depth + n else 65535;
      end == if k < open then OnTop(h, m, open - k) else h
    decreases n + k
  {
    hide Takeable, Acquired, Released, OnTop;
    TopStep(h, m, depth);
    var ops := Acquires(m, n) + Releases(m, k);
    if n > 0 {
      assert ops[1..] == Acquires(m, n - 1) + Releases(m, k);
      FromDepth(h, m, if depth < 65535 then depth + 1 else depth, n - 1, k, end);
    } else if k > 0 {
      assert ops[0] == Release(m);
      if depth > 1 {
        assert ops[1..] == Acquires(m, 0) + Releases(m, k - 1);
        FromDepth(h, m, depth - 1, 0, k - 1, end);
      } else {
        assert ops[1..] == Releases(m, k - 1);
        BeyondTheLast(h, m, k - 1, end);
      }
    }
  }

  lemma {:induction false} BeyondTheLast(h: Holding, m: Id, k: nat, end: Holding)
    requires Takeable(h, m) && Run(h, Releases(m, k), end)
    ensures end == h
  {
    hide Takeable, Acquired, Released;
    if k > 0 {
      assert Releases(m, k)[1..] == Releases(m, k - 1);
      FirstTake(h, m);
      BeyondTheLast(h, m, k - 1, end);
    }
  }

  class Context {
    const held: HeldArray
    var mutexes: map<Id, Mutex>
    var syncLevel: nat

    ghost predicate Valid()
      reads this, held, held.inlineStorage, held.dynamicStorage
    {
      held.Valid() && Ordered(Contents())
    }

    ghost function Contents(): Holding
      reads this, held, held.inlineStorage, held.dynamicStorage
      requires held.Valid()
    {
      Holding(held.Items(), mutexes, syncLevel)
    }

    constructor (mutexes: map<Id, Mutex>)
      ensures Valid() && Contents() == Holding([], mutexes, 0)
      ensures fresh(held) && fresh(held.inlineStorage) && fresh(held.dynamicStorage)
    {
      held := new HeldArray();
      this.mutexes := mutexes;
      syncLevel := 0;
    }

    /** `AcquireOp`; `acquired` is the operator's zero result. */
    method Acquire(m: Id, granted: bool, memory: bool) returns (status: Status, acquired: bool)
      requires Valid() && m in mutexes
      modifies this, held, held.inlineStorage, held.dynamicStorage
      ensures Valid() && (held.dynamicStorage == old(held.dynamicStorage) || fresh(held.dynamicStorage))
      ensures memory ==> status == Ok
      ensures Contents() == Acquired(old(Contents()), m, granted, status == Ok)
      ensures acquired <==>
        && mutexes[m].mine
        && mutexes[m].depth == (if old(mutexes)[m].mine then old(mutexes)[m].depth else 0) + 1
    {
      hide Ordered;
      ghost var h := Contents();
      AcquireKeepsOrder(h, m, granted, true);
      AcquireKeepsOrder(h, m, granted, false);
      var mutex := mutexes[m];
      if syncLevel > mutex.syncLevel {
        assert Contents() == Acquired(h, m, granted, true);
        return Ok, false;
      }
      if mutex.mine {
        // uacpi_acquire_aml_mutex, recursive case
        if mutex.depth == MAX_DEPTH {
          assert Contents() == Acquired(h, m, granted, true);
          return Ok, false;
        }
        mutexes := mutexes[m := mutex.(depth := mutex.depth + 1)];
        assert Contents() == Acquired(h, m, granted, true);
        return Ok, true;
      }
      if !granted {
        assert Contents() == Acquired(h, m, granted, true);
        return Ok, false;
      }
      acquired := TakeNew(m, memory);
      assert Contents() == Acquired(h, m, granted, acquired);
      status := if acquired then Ok else OutOfMemory;
    }

    /** A mutex just granted goes on top, or is given back when the array cannot grow. */
    method TakeNew(m: Id, memory: bool) returns (ok: bool)
      requires held.Valid() && m in mutexes && syncLevel <= mutexes[m].syncLevel && !mutexes[m].mine
      modifies this, held, held.inlineStorage, held.dynamicStorage
      ensures held.Valid() && (held.dynamicStorage == old(held.dynamicStorage) || fresh(held.dynamicStorage))
      ensures memory ==> ok
      ensures Contents() == Acquired(old(Contents()), m, true, ok)
    {
      var mutex := mutexes[m];
      ok := held.Push(m, memory);
      if !ok {
        mutexes := mutexes[m := mutex.(mine := false, depth := 0)];
        return;
      }
      mutexes := mutexes[m := mutex.(mine := true, depth := 1)];
      syncLevel := mutex.syncLevel;
    }

    /** `ReleaseOp`. */
    method Release(m: Id)
      requires Valid() && m in mutexes
      modifies this, held, held.inlineStorage, held.dynamicStorage
      ensures Valid() && held.dynamicStorage == old(held.dynamicStorage)
      ensures Contents() == Released(old(Contents()), m)
    {
      hide Owned, Sorted, held.Items, LastIndex, Without;
      ReleaseKeepsOrder(Contents(), m);
      if !mutexes[m].mine {
        return;
      }
      var ok := RemoveAndRelease(m, false);
      if ok {
        RefreshLevel();
      }
    }

    /** `held_mutexes_array_remove_and_release`; a release at the wrong level is ignored
        and still a success. */
    method RemoveAndRelease(m: Id, force: bool) returns (ok: bool)
      requires held.Valid() && Known(mutexes, held.Items()) && m in mutexes
      modifies this`mutexes, held, held.inlineStorage, held.dynamicStorage
      ensures held.Valid() && held.dynamicStorage == old(held.dynamicStorage)
      ensures held.Items() == GivenUp(old(Contents()), m, force).items
      ensures mutexes == GivenUp(old(Contents()), m, force).mutexes
      ensures !ok ==> GivenUp(old(Contents()), m, force) == old(Contents())
    {
      hide LastIndex, Without;
      var mutex := mutexes[m];
      var last := held.Last();
      if last == None {
        return false;
      }
      var item := last.value;
      if mutexes[item].syncLevel != mutex.syncLevel && !force {
        return true;
      }
      if mutex.depth > 1 && !force {
        mutexes := mutexes[m := mutex.(depth := mutex.depth - 1)];
        return true;
      }
      ok := TakeOut(m, item);
      if ok {
        mutexes := mutexes[m := mutex.(mine := false, depth := 0)];
      }
    }

    /** The release loop of `execution_context_release`: every mutex still held is given up,
        however often it was acquired, and no other mutex changes. */
    method ReleaseAll()
      requires Valid()
      modifies this`mutexes, held, held.inlineStorage, held.dynamicStorage
      ensures held.Valid() && held.Items() == [] && mutexes.Keys == old(mutexes).Keys
      ensures forall m :: m in mutexes && m in old(held.Items()) ==> !mutexes[m].mine && mutexes[m].depth == 0
      ensures forall m :: m in mutexes && m !in old(held.Items()) ==> mutexes[m] == old(mutexes)[m]
    {
      hide Ordered, GivenUp, Reduced, held.Items;
      ghost var items, was := held.Items(), mutexes;
      ghost var h := Contents();
      ReducedFirst(h);
      while held.size != 0
        invariant held.Valid() && held.dynamicStorage == old(held.dynamicStorage)
        invariant h.items == held.Items() && h.mutexes == mutexes && Ordered(h) && Reduced(items, was, h)
        decreases held.size
      {
        var last := held.Last();
        GiveUpLast(items, was, h);
        ReleaseKeepsOrder(h, last.value);
        ghost var before := Contents();
        var ok := RemoveAndRelease(last.value, true);
        SameUpToLevel(h, before, last.value);
        h := GivenUp(h, last.value, true);
      }
      ReducedLast(items, was, h);
    }

    /** The last mutex is popped; another is searched for and removed. */
    method TakeOut(m: Id, item: Id) returns (found: bool)
      requires held.Valid() && held.size > 0 && item == held.Items()[held.size - 1]
      modifies held`size, held.inlineStorage, held.dynamicStorage
      ensures held.Valid()
      ensures var items := old(held.Items());
        match LastIndex(items, m)
        case None => !found && held.Items() == items
        case Some(i) => found && held.Items() == Without(items, i)
    {
      ghost var items := held.Items();
      if item == m {
        held.Pop();
        assert held.Items() == Without(items, |items| - 1);
        return true;
      }
      var at := FindHeld(m);
      if at.None? {
        return false;
      }
      held.RemoveIdx(at.value);
      return true;
    }

    /** The backwards search for a mutex that is not the last one. */
    method FindHeld(m: Id) returns (r: Option<nat>)
      requires held.Valid() && held.size > 0
      ensures r == LastIndex(held.Items(), m)
      ensures r.Some? ==> r.value < held.size && held.Items()[r.value] == m
      ensures forall k :: (if r.Some? then r.value + 1 else 0) <= k < held.size ==> held.Items()[k] != m
    {
      ghost var items := held.Items();
      var i := held.size;
      assert items[..i] == items;
      while true
        invariant 0 < i <= held.size == |items|
        invariant LastIndex(items, m) == LastIndex(items[..i], m)
        decreases i
      {
        i := i - 1;
        var item := held.At(i);
        assert items[..i + 1][..i] == items[..i];
        if item == Some(m) {
          return Some(i);
        }
        if i == 0 {
          return None;
        }
      }
    }

    /** `ctx->sync_level` follows the last held mutex. */
    method RefreshLevel()
      requires held.Valid() && Known(mutexes, held.Items())
      modifies this`syncLevel
      ensures syncLevel == TopLevel(mutexes, held.Items())
    {
      var last := held.Last();
      if last == None {
        syncLevel := 0;
        return;
      }
      syncLevel := mutexes[last.value].syncLevel;
    }
  }
}
