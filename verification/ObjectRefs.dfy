/** Reference counts of uACPI objects (`external/uacpi/source/types.c` and
    `shareable.c`).  A count is weighted: taking one handle on an object adds one to
    every object on its reference chain. */
module ObjectRefs {
  import opened Machine

  const BUGGED_REFCOUNT: nat := 0xFFFF_FFFF

  /** An object: `inner` matters only for objects of type REFERENCE. */
  datatype Obj = Obj(isRef: bool, inner: Option<nat>, count: nat, live: bool) {
    function Next(): Option<nat> { if isRef then inner else None }
  }

  // ----- chains -----

  /** No reference cycle: every step along a chain lowers the rank. */
  ghost predicate Ranked(objs: seq<Obj>, rank: seq<nat>) {
    && |rank| == |objs|
    && forall i :: 0 <= i < |objs| && objs[i].Next().Some? ==>
         objs[i].Next().value < |objs| && rank[objs[i].Next().value] < rank[i]
  }

  ghost function Depth(rank: seq<nat>, o: Option<nat>): nat
    requires o.Some? ==> o.value < |rank|
  {
    if o.Some? then rank[o.value] + 1 else 0
  }

  /** The objects from `o` down to the end of its chain. */
  function Chain(objs: seq<Obj>, ghost rank: seq<nat>, o: Option<nat>): seq<nat>
    requires Ranked(objs, rank) && (o.Some? ==> o.value < |objs|)
    decreases Depth(rank, o)
  {
    if o.None? then [] else [o.value] + Chain(objs, rank, objs[o.value].Next())
  }

  lemma {:induction false} ChainBelow(objs: seq<Obj>, rank: seq<nat>, o: Option<nat>, x: nat)
    requires Ranked(objs, rank) && (o.Some? ==> o.value < |objs|)
    ensures x in Chain(objs, rank, o) ==> o.Some? && x < |objs| && rank[x] <= rank[o.value]
    decreases Depth(rank, o)
  {
    if o.Some? {
      ChainBelow(objs, rank, objs[o.value].Next(), x);
    }
  }

  /** A chain depends on nothing but the links of its own members. */
  lemma {:induction false} ChainByLinks(objs: seq<Obj>, rank: seq<nat>, objs': seq<Obj>, rank': seq<nat>,
                                         o: Option<nat>)
    requires Ranked(objs, rank) && Ranked(objs', rank') && |objs| <= |objs'| && (o.Some? ==> o.value < |objs|)
    requires forall i :: i in Chain(objs, rank, o) ==> i < |objs| && objs'[i].Next() == objs[i].Next()
    ensures Chain(objs', rank', o) == Chain(objs, rank, o)
    decreases Depth(rank, o)
  {
    if o.Some? {
      assert forall i :: i in Chain(objs, rank, objs[o.value].Next()) ==> i in Chain(objs, rank, o);
      ChainByLinks(objs, rank, objs', rank', objs[o.value].Next());
    }
  }

  lemma {:induction false} ChainInRange(objs: seq<Obj>, rank: seq<nat>, o: Option<nat>)
    requires Ranked(objs, rank) && (o.Some? ==> o.value < |objs|)
    ensures forall i :: i in Chain(objs, rank, o) ==> i < |objs|
    decreases Depth(rank, o)
  {
    if o.Some? {
      ChainInRange(objs, rank, objs[o.value].Next());
    }
  }

  // ----- handles -----

  /** `d` more handles on object `i`. */
  ghost function Shift(h: seq<int>, i: nat, d: int): (s: seq<int>)
    requires i < |h|
    ensures |s| == |h| && s[i] == h[i] + d
    ensures forall j :: 0 <= j < |h| && j != i ==> s[j] == h[j]
  {
    h[i := h[i] + d]
  }

  lemma ShiftTwice(h: seq<int>, i: nat, d: int, e: int)
    requires i < |h|
    ensures Shift(Shift(h, i, d), i, e) == Shift(h, i, d + e)
    ensures Shift(h, i, 0) == h
  {}

  // ----- inflow -----

  /** What one object adds to the count of `t`. */
  function Contribution(o: Obj, t: nat): nat {
    if o.live && o.Next() == Some(t) then o.count else 0
  }

  /** The counts of all live references, among the first `n` objects, that point at `t`. */
  function Inflow(objs: seq<Obj>, t: nat, n: nat): nat
    requires n <= |objs|
  {
    if n == 0 then 0 else Inflow(objs, t, n - 1) + Contribution(objs[n - 1], t)
  }

  lemma {:induction false} InflowUpdate(objs: seq<Obj>, j: nat, o: Obj, t: nat, n: nat)
    requires j < |objs| && n <= |objs|
    ensures Inflow(objs[j := o], t, n) == Inflow(objs, t, n)
      + (if j < n then Contribution(o, t) - Contribution(objs[j], t) else 0)
  {
    if n > 0 {
      InflowUpdate(objs, j, o, t, n - 1);
    }
  }

  lemma {:induction false} InflowAtLeast(objs: seq<Obj>, j: nat, t: nat, n: nat)
    requires j < n <= |objs|
    ensures Inflow(objs, t, n) >= Contribution(objs[j], t)
  {
    if j < n - 1 {
      InflowAtLeast(objs, j, t, n - 1);
    }
  }

  lemma {:induction false} InflowPrefix(objs: seq<Obj>, o: Obj, t: nat, n: nat)
    requires n <= |objs|
    ensures Inflow(objs + [o], t, n) == Inflow(objs, t, n)
  {
    if n > 0 {
      InflowPrefix(objs, o, t, n - 1);
    }
  }

  /** One weighted equation: `owed` is the object whose count is `debt` short of it. */
  ghost predicate Balanced(objs: seq<Obj>, handles: seq<int>, owed: Option<nat>, debt: int) {
    && |handles| == |objs|
    && forall i :: 0 <= i < |objs| && objs[i].live ==>
         objs[i].count + (if owed == Some(i) then debt else 0) == handles[i] + Inflow(objs, i, |objs|)
  }

  /** Adding `d` to the count of the owed object moves the debt one step down its chain. */
  lemma MoveDebt(objs: seq<Obj>, rank: seq<nat>, handles: seq<int>, x: nat, d: int)
    requires Ranked(objs, rank) && x < |objs| && objs[x].live && objs[x].count + d >= 0
    requires Balanced(objs, handles, Some(x), d)
    ensures
      var objs' := objs[x := objs[x].(count := objs[x].count + d)];
      Ranked(objs', rank) && Balanced(objs', handles, objs[x].Next(), d)
  {
    var o' := objs[x].(count := objs[x].count + d);
    var objs' := objs[x := o'];
    forall i | 0 <= i < |objs'| && objs'[i].live
      ensures objs'[i].count + (if objs[x].Next() == Some(i) then d else 0) == handles[i] + Inflow(objs', i, |objs'|)
    {
      InflowUpdate(objs, x, o', i, |objs|);
    }
  }

  /** Counts never shrink along a chain of a balanced store. */
  lemma {:induction false} CountsGrow(objs: seq<Obj>, rank: seq<nat>, handles: seq<int>, o: nat, x: nat)
    requires Ranked(objs, rank) && Balanced(objs, handles, None, 0) && o < |objs|
    requires forall i :: 0 <= i < |objs| && objs[i].live ==> handles[i] >= 0
    requires forall i :: 0 <= i < |objs| && objs[i].live && objs[i].Next().Some? ==> objs[objs[i].Next().value].live
    requires objs[o].live && x in Chain(objs, rank, Some(o))
    ensures x < |objs| && objs[x].live && objs[o].count <= objs[x].count
    decreases rank[o]
  {
    if x != o {
      var t := objs[o].Next().value;
      InflowAtLeast(objs, o, t, |objs|);
      CountsGrow(objs, rank, handles, t, x);
    }
  }

  /** A live reference points at a live object. */
  ghost predicate LinksLive(objs: seq<Obj>) {
    forall i :: 0 <= i < |objs| && objs[i].live && objs[i].Next().Some? ==>
      objs[i].Next().value < |objs| && objs[objs[i].Next().value].live
  }

  lemma {:induction false} ChainLive(objs: seq<Obj>, rank: seq<nat>, o: Option<nat>, x: nat)
    requires Ranked(objs, rank) && LinksLive(objs) && (o.Some? ==> o.value < |objs| && objs[o.value].live)
    requires x in Chain(objs, rank, o)
    ensures x < |objs| && objs[x].live
    decreases Depth(rank, o)
  {
    if o != Some(x) {
      ChainLive(objs, rank, objs[o.value].Next(), x);
    }
  }

  /** Counts moved by `d` on the objects of `chain` that are not also in `rest`. */
  ghost predicate Moved(was: seq<Obj>, now: seq<Obj>, chain: seq<nat>, rest: seq<nat>, d: int) {
    && |now| == |was|
    && forall i :: 0 <= i < |was| ==>
         && now[i].isRef == was[i].isRef && now[i].inner == was[i].inner && now[i].live == was[i].live
         && now[i].count == was[i].count + (if i in chain && i !in rest then d else 0)
  }

  lemma MoveStep(was: seq<Obj>, now: seq<Obj>, now': seq<Obj>, rank: seq<nat>, chain: seq<nat>, x: nat, d: int)
    requires Ranked(was, rank) && Ranked(now, rank) && |was| == |now| && x < |was| && x in chain
    requires Moved(was, now, chain, Chain(was, rank, Some(x)), d)
    requires now[x].count + d >= 0 && now' == now[x := now[x].(count := now[x].count + d)]
    ensures Moved(was, now', chain, Chain(was, rank, was[x].Next()), d)
  {
    forall i | 0 <= i < |was|
      ensures i in Chain(was, rank, Some(x)) <==> i == x || i in Chain(was, rank, was[x].Next())
      ensures x !in Chain(was, rank, was[x].Next())
    {
      ChainBelow(was, rank, was[x].Next(), x);
    }
  }

  lemma MovedCounts(was: seq<Obj>, now: seq<Obj>, chain: seq<nat>, rest: seq<nat>, d: int)
    requires Moved(was, now, chain, rest, d)
    ensures |now| == |was|
    ensures forall i :: 0 <= i < |was| ==>
      && now[i].Next() == was[i].Next() && now[i].live == was[i].live
      && now[i].count == was[i].count + (if i in chain && i !in rest then d else 0)
  {}

  /** Half-way down a chain: the counts above `at` have moved by `d`, the rest are due,
      and the one equation that fails is the one of `at`. */
  ghost predicate Walking(was: seq<Obj>, now: seq<Obj>, rank: seq<nat>, handles: seq<int>,
                          o: Option<nat>, at: Option<nat>, d: int)
  {
    && Ranked(was, rank) && Ranked(now, rank) && LinksLive(now) && Balanced(now, handles, at, d)
    && |now| == |was| && (o.Some? ==> o.value < |was|)
    && (at.Some? ==> at.value < |now| && now[at.value].live && at.value in Chain(was, rank, o))
    && Moved(was, now, Chain(was, rank, o), Chain(was, rank, at), d)
  }

  /** Taking or dropping a handle on `o` leaves a debt at `o`. */
  lemma WalkStart(objs: seq<Obj>, rank: seq<nat>, handles: seq<int>, o: Option<nat>, d: int)
    requires Ranked(objs, rank) && LinksLive(objs) && Balanced(objs, handles, None, 0)
    requires o.Some? ==> o.value < |objs| && objs[o.value].live
    ensures Walking(objs, objs, rank, if o.Some? then Shift(handles, o.value, d) else handles, o, o, d)
  {}

  lemma WalkStep(was: seq<Obj>, now: seq<Obj>, rank: seq<nat>, handles: seq<int>, o: Option<nat>, x: nat, d: int)
    requires Walking(was, now, rank, handles, o, Some(x), d) && was[x].count + d >= 0
    ensures now[x] == was[x]
    ensures Walking(was, now[x := now[x].(count := now[x].count + d)], rank, handles, o, was[x].Next(), d)
  {
    assert x in Chain(was, rank, Some(x));
    MoveDebt(now, rank, handles, x, d);
    MoveStep(was, now, now[x := now[x].(count := now[x].count + d)], rank, Chain(was, rank, o), x, d);
    ChainClosed(was, rank, o, x);
  }

  lemma {:induction false} ChainClosed(objs: seq<Obj>, rank: seq<nat>, o: Option<nat>, x: nat)
    requires Ranked(objs, rank) && (o.Some? ==> o.value < |objs|) && x < |objs| && x in Chain(objs, rank, o)
    ensures objs[x].Next().Some? ==> objs[x].Next().value in Chain(objs, rank, o)
    decreases Depth(rank, o)
  {
    if x == o.value {
      assert objs[x].Next().Some? ==> objs[x].Next().value in Chain(objs, rank, objs[x].Next());
    } else {
      ChainClosed(objs, rank, objs[o.value].Next(), x);
    }
  }

  lemma WalkAt(was: seq<Obj>, now: seq<Obj>, rank: seq<nat>, handles: seq<int>, o: Option<nat>, x: nat, d: int)
    requires Walking(was, now, rank, handles, o, Some(x), d)
    ensures x < |now| == |was| && now[x] == was[x] && now[x].live && x in Chain(was, rank, o)
  {
    assert x in Chain(was, rank, Some(x));
  }

  lemma WalkEnd(was: seq<Obj>, now: seq<Obj>, rank: seq<nat>, handles: seq<int>, o: Option<nat>, d: int)
    requires Walking(was, now, rank, handles, o, None, d)
    ensures Ranked(now, rank) && LinksLive(now) && Balanced(now, handles, None, 0)
    ensures Moved(was, now, Chain(was, rank, o), [], d)
  {}

  ghost predicate SoundCounts(objs: seq<Obj>) {
    forall i :: 0 <= i < |objs| && objs[i].live ==> 0 < objs[i].count < BUGGED_REFCOUNT
  }

  lemma StillSound(objs: seq<Obj>, parent: nat, child: nat)
    requires SoundCounts(objs) && parent < |objs|
    ensures SoundCounts(objs[parent := objs[parent].(inner := Some(child))])
  {}

  class Store {
    var objs: seq<Obj>
    /** Handles held outside the store, per object. */
    ghost var handles: seq<int>
    ghost var rank: seq<nat>

    /** The part that holds even between the single counts of `attach_child`. */
    ghost predicate Wired()
      reads this
    {
      && Ranked(objs, rank) && LinksLive(objs) && Balanced(objs, handles, None, 0)
      && SoundCounts(objs)
    }

    ghost predicate Valid()
      reads this
    {
      Wired() && forall i :: 0 <= i < |objs| && objs[i].live ==> handles[i] >= 0
    }

    ghost predicate Alive(o: Option<nat>)
      reads this
    {
      o.Some? ==> o.value < |objs| && objs[o.value].live
    }

    constructor ()
      ensures Valid() && objs == []
    {
      objs := [];
      handles := [];
      rank := [];
    }

    // ----- shareable.c -----

    method SetCount(o: nat, count: nat)
      requires o < |objs|
      modifies this`objs
      ensures objs == old(objs)[o := old(objs)[o].(count := count)]
    {
      objs := objs[o := objs[o].(count := count)];
    }

    /** `uacpi_bugged_shareable`: a zero count is turned into the bugged marker. */
    method BuggedShareable(o: nat) returns (bugged: bool)
      requires o < |objs|
      modifies this`objs
      ensures bugged <==> old(objs)[o].count == 0 || old(objs)[o].count == 0xFFFF_FFFF
      ensures objs == if old(objs)[o].count == 0
                      then old(objs)[o := old(objs)[o].(count := 0xFFFF_FFFF)] else old(objs)
    {
      if objs[o].count == 0 {
        SetCount(o, BUGGED_REFCOUNT);
      }
      bugged := objs[o].count == BUGGED_REFCOUNT;
    }

    /** `uacpi_shareable_ref`: the count before, or the marker when it is not a sound one. */
    method ShareableRef(o: nat) returns (previous: nat)
      requires o < |objs|
      modifies this`objs
      ensures previous == if old(objs)[o].count !in {0, 0xFFFF_FFFF} then old(objs)[o].count else 0xFFFF_FFFF
      ensures objs == old(objs)[o := old(objs)[o].(count :=
        if old(objs)[o].count !in {0, 0xFFFF_FFFF} then old(objs)[o].count + 1 else 0xFFFF_FFFF)]
    {
      var bugged := BuggedShareable(o);
      if bugged {
        return BUGGED_REFCOUNT;
      }
      SetCount(o, objs[o].count + 1);
      previous := objs[o].count - 1;
    }

    /** `uacpi_shareable_unref`, likewise. */
    method ShareableUnref(o: nat) returns (previous: nat)
      requires o < |objs|
      modifies this`objs
      ensures previous == if old(objs)[o].count !in {0, 0xFFFF_FFFF} then old(objs)[o].count else 0xFFFF_FFFF
      ensures objs == old(objs)[o := old(objs)[o].(count :=
        if old(objs)[o].count !in {0, 0xFFFF_FFFF} then old(objs)[o].count - 1 else 0xFFFF_FFFF)]
    {
      var bugged := BuggedShareable(o);
      if bugged {
        return BUGGED_REFCOUNT;
      }
      SetCount(o, objs[o].count - 1);
      previous := objs[o].count + 1;
    }

    // ----- types.c -----

    /** `uacpi_object_ref`: one more handle on `o`, one more count on its whole chain. */
    method ObjectRef(o: Option<nat>)
      requires Wired() && Alive(o)
      requires forall x :: x in Chain(objs, rank, o) ==> x < |objs| && objs[x].count + 1 < BUGGED_REFCOUNT
      modifies this`objs, this`handles
      ensures Wired() && (old(Valid()) ==> Valid())
      ensures handles == if o.Some? then Shift(old(handles), o.value, 1) else old(handles)
      ensures Moved(old(objs), objs, old(Chain(objs, rank, o)), [], 1)
    {
      hide Walking, Balanced, Moved, LinksLive, Shift;
      ghost var was := objs;
      BalancedLength(objs, handles);
      WalkStart(objs, rank, handles, o, 1);
      if o.Some? {
        handles := Shift(handles, o.value, 1);
      }
      ghost var owned := handles;
      var obj: Option<nat> := o;
      while obj.Some?
        invariant handles == owned && Walking(was, objs, rank, owned, o, obj, 1)
        invariant obj.Some? ==> obj.value < |rank|
        decreases Depth(rank, obj)
      {
        var x := obj.value;
        WalkAt(was, objs, rank, handles, o, x, 1);
        WalkStep(was, objs, rank, handles, o, x, 1);
        var previous := ShareableRef(x);
        obj := objs[x].Next();
      }
      WalkEnd(was, objs, rank, handles, o, 1);
      MovedCounts(was, objs, Chain(was, rank, o), [], 1);
    }

    /** `free_chain`: frees the objects of the chain whose count is zero. */
    method FreeChain(o: Option<nat>)
      requires Ranked(objs, rank) && LinksLive(objs) && Balanced(objs, handles, None, 0) && Alive(o)
      requires forall i :: 0 <= i < |objs| && objs[i].live ==> handles[i] >= 0
      requires forall i :: 0 <= i < |objs| && objs[i].live && objs[i].count == 0 ==> i in Chain(objs, rank, o)
      modifies this`objs
      ensures Ranked(objs, rank) && LinksLive(objs) && Balanced(objs, handles, None, 0)
      ensures |objs| == |old(objs)|
      ensures forall i :: 0 <= i < |objs| ==>
        objs[i] == old(objs)[i].(live := old(objs)[i].live && old(objs)[i].count > 0)
    {
      hide Balanced;
      ghost var was := objs;
      var obj := o;
      while obj.Some?
        invariant Ranked(objs, rank) && LinksLive(objs) && Balanced(objs, handles, None, 0)
        invariant Alive(obj) && |objs| == |was|
        invariant forall i :: 0 <= i < |objs| ==>
          objs[i] == was[i].(live := objs[i].live) && (was[i].live ==> objs[i].live || was[i].count == 0)
          && (objs[i].live ==> was[i].live)
        invariant forall i :: 0 <= i < |objs| && objs[i].live && objs[i].count == 0 ==> i in Chain(was, rank, obj)
        decreases Depth(rank, obj)
      {
        var x, next := obj.value, objs[obj.value].Next();
        if objs[x].count == 0 {
          FreeOne(was, objs, rank, handles, x);
          objs := objs[x := objs[x].(live := false)];
        }
        obj := next;
      }
    }

    /** The counting loop of `uacpi_object_unref`. */
    method DropCounts(o: Option<nat>)
      requires Valid() && o.Some? && Alive(o) && handles[o.value] > 0
      modifies this`objs, this`handles
      ensures Ranked(objs, rank) && LinksLive(objs) && Balanced(objs, handles, None, 0)
      ensures handles == Shift(old(handles), o.value, -1)
      ensures Moved(old(objs), objs, old(Chain(objs, rank, o)), [], -1)
    {
      hide Walking, Balanced;
      ghost var was := objs;
      WalkStart(objs, rank, handles, o, -1);
      assert |handles| == |objs| by {
        BalancedLength(objs, handles);
      }
      handles := Shift(handles, o.value, -1);
      ghost var owned := handles;
      var obj: Option<nat> := o;
      while obj.Some?
        invariant handles == owned && Walking(was, objs, rank, owned, o, obj, -1)
        invariant obj.Some? ==> obj.value < |rank|
        decreases Depth(rank, obj)
      {
        var x := obj.value;
        WalkAt(was, objs, rank, handles, o, x, -1);
        ChainLive(was, rank, o, x);
        WalkStep(was, objs, rank, handles, o, x, -1);
        var bugged := BuggedShareable(x);
        if bugged {
          assert false;
          return;
        }
        var previous := ShareableUnref(x);
        obj := objs[x].Next();
      }
      WalkEnd(was, objs, rank, handles, o, -1);
    }

    /** `uacpi_object_unref` on an object the caller holds a handle on: one count less
        on the whole chain, and exactly the objects whose last count went are freed. */
    method ObjectUnref(o: Option<nat>)
      requires Valid() && Alive(o) && (o.Some? ==> handles[o.value] > 0)
      modifies this`objs, this`handles
      ensures Valid()
      ensures handles == if o.Some? then Shift(old(handles), o.value, -1) else old(handles)
      ensures o.None? ==> objs == old(objs)
      ensures ReleasedBy(old(objs), objs, old(Chain(objs, rank, o)), 1)
      ensures exists k :: FreedFirst(objs, old(Chain(objs, rank, o)), k)
    {
      if o.None? {
        assert FreedFirst(objs, [], 0);
        return;
      }
      ghost var was, chain, h0 := objs, Chain(objs, rank, o), handles;
      DropCounts(o);
      hide Balanced, Moved, Ranked, LinksLive, Chain, ReleasedBy, FreedFirst, Shift, SoundCounts;
      ZerosOnChain(was, objs, rank, handles, o);
      ghost var mid := objs;
      if objs[o.value].count == 0 {
        FreeChain(o);
      }
      BalancedLength(objs, handles);
      Sweep(was, mid, objs, chain);
      FreedIsPrefix(was, objs, rank, h0, o, 1);
    }

    /** `uacpi_create_object`: one object, one handle; `memory` says whether the allocation
        succeeds. */
    method CreateObject(isRef: bool, memory: bool) returns (r: Option<nat>)
      requires Valid()
      modifies this
      ensures Valid()
      ensures r == if memory then Some(|old(objs)|) else None
      ensures r.None? ==> objs == old(objs) && handles == old(handles) && rank == old(rank)
      ensures r.Some? ==> objs == old(objs) + [Obj(isRef, None, 1, true)]
      ensures r.Some? ==> handles == old(handles) + [1] && rank == old(rank) + [0]
    {
      if !memory {
        return None;
      }
      r := Some(|objs|);
      Appended(objs, rank, handles, Obj(isRef, None, 1, true));
      objs := objs + [Obj(isRef, None, 1, true)];
      handles := handles + [1];
      rank := rank + [0];
    }

    /** `uacpi_object_attach_child`: the child's chain gains the parent's whole count. */
    method AttachChild(parent: nat, child: nat)
      requires Valid() && Alive(Some(parent)) && Alive(Some(child))
      requires objs[parent].isRef && objs[parent].inner.None? && parent !in Chain(objs, rank, Some(child))
      requires forall x :: x in Chain(objs, rank, Some(child)) ==>
        x < |objs| && objs[x].count + objs[parent].count < BUGGED_REFCOUNT
      modifies this
      ensures Valid() && handles == old(handles)
      ensures Moved(old(objs)[parent := old(objs)[parent].(inner := Some(child))], objs,
                    old(Chain(objs, rank, Some(child))), [], old(objs)[parent].count)
    {
      BalancedLength(objs, handles);
      hide Balanced, Moved, Ranked, LinksLive, Chain, Reranked, Shift;
      ghost var h0, chain := handles, Chain(objs, rank, Some(child));
      LinkChild(parent, child);
      ghost var was := objs;
      ShiftTwice(h0, child, 0 - objs[parent].count, objs[parent].count);
      RefMany(child, objs[parent].count, h0);
      StillValid(was, objs, chain, was[parent].count, handles);
    }

    /** `parent->inner_object = child;` the child's handles are short until the counts follow. */
    method LinkChild(parent: nat, child: nat)
      requires Valid() && Alive(Some(parent)) && Alive(Some(child))
      requires objs[parent].isRef && objs[parent].inner.None? && parent !in Chain(objs, rank, Some(child))
      modifies this
      ensures Wired() && child < |old(handles)|
      ensures handles == Shift(old(handles), child, 0 - old(objs)[parent].count)
      ensures objs == old(objs)[parent := old(objs)[parent].(inner := Some(child))]
      ensures Chain(objs, rank, Some(child)) == old(Chain(objs, rank, Some(child)))
    {
      hide Balanced, Ranked, LinksLive, Chain, Reranked, Shift, SoundCounts;
      BalancedLength(objs, handles);
      Link(objs, rank, handles, parent, child);
      StillSound(objs, parent, child);
      handles := Shift(handles, child, 0 - objs[parent].count);
      rank := Reranked(objs, rank, parent, child);
      objs := objs[parent := objs[parent].(inner := Some(child))];
    }

    /** The loop of `uacpi_object_attach_child`. */
    method RefMany(child: nat, count: nat, ghost settled: seq<int>)
      requires Wired() && Alive(Some(child))
      requires child < |handles| && settled == Shift(handles, child, count)
      requires forall x :: x in Chain(objs, rank, Some(child)) ==> x < |objs| && objs[x].count + count < BUGGED_REFCOUNT
      modifies this`objs, this`handles
      ensures Wired() && handles == settled
      ensures Moved(old(objs), objs, old(Chain(objs, rank, Some(child))), [], count)
    {
      hide Balanced, Moved, Ranked, LinksLive, Chain, Shift;
      BalancedLength(objs, handles);
      ghost var was, chain, h0 := objs, Chain(objs, rank, Some(child)), handles;
      MoveNone(was, chain);
      ShiftTwice(h0, child, 0, 0);
      var refsToAdd := count;
      while refsToAdd != 0
        invariant 0 <= refsToAdd <= count && |objs| == |was|
        invariant Wired() && Alive(Some(child)) && Chain(objs, rank, Some(child)) == chain
        invariant child < |h0| && handles == Shift(h0, child, count - refsToAdd)
        invariant Moved(was, objs, chain, [], count - refsToAdd)
      {
        refsToAdd := refsToAdd - 1;
        ghost var now := objs;
        MovedCounts(was, objs, chain, [], count - refsToAdd - 1);
        ObjectRef(Some(child));
        ShiftTwice(h0, child, count - refsToAdd - 1, 1);
        MovedCounts(now, objs, chain, [], 1);
        ChainInRange(now, rank, Some(child));
        ChainByLinks(now, rank, objs, rank, Some(child));
        MoveTwice(was, now, objs, chain, count - refsToAdd - 1, 1);
      }
    }

    /** `uacpi_create_internal_reference`; `memory` says whether the allocation succeeds. */
    method CreateInternalReference(child: nat, memory: bool) returns (r: Option<nat>)
      requires Valid() && Alive(Some(child))
      requires forall x :: x in Chain(objs, rank, Some(child)) ==> x < |objs| && objs[x].count + 1 < BUGGED_REFCOUNT
      modifies this
      ensures Valid()
      ensures r.Some? <==> memory
      ensures r.None? ==> objs == old(objs) && handles == old(handles)
      ensures r.Some? ==>
        && r.value == |old(objs)| && handles == old(handles) + [1]
        && Moved(old(objs) + [Obj(true, Some(child), 1, true)], objs, old(Chain(objs, rank, Some(child))), [], 1)
    {
      ghost var was, rank0, chain := objs, rank, Chain(objs, rank, Some(child));
      ChainInRange(objs, rank, Some(child));
      var made := CreateObject(true, memory);
      if made.None? {
        return None;
      }
      ChainByLinks(was, rank0, objs, rank, Some(child));
      AttachChild(made.value, child);
      return made;
    }

    /** `uacpi_object_detach_child`: the child's chain loses the parent's whole count, and
        what had no more than that is freed. */
    method DetachChild(parent: nat)
      requires Valid() && Alive(Some(parent)) && objs[parent].isRef
      modifies this
      ensures Valid() && handles == old(handles)
      ensures ReleasedBy(old(objs)[parent := old(objs)[parent].(inner := None)], objs,
                         old(Chain(objs, rank, objs[parent].Next())), old(objs)[parent].count)
      ensures exists k :: FreedFirst(objs, old(Chain(objs, rank, objs[parent].Next())), k)
    {
      var child := objs[parent].inner;
      var k: int := objs[parent].count;
      ghost var h0 := handles;
      Unlink(objs, rank, handles, parent);
      if child.Some? {
        ShiftTwice(handles, child.value, k, -k);
        handles := Shift(handles, child.value, k);
      }
      objs := objs[parent := objs[parent].(inner := None)];
      UnrefMany(child, k, h0);
    }

    /** The loop of `uacpi_object_detach_child`. */
    method UnrefMany(child: Option<nat>, count: nat, ghost settled: seq<int>)
      requires Valid() && Alive(child) && (child.None? ==> settled == handles)
      requires child.Some? ==>
        handles[child.value] >= count && settled == Shift(handles, child.value, 0 - count)
      modifies this`objs, this`handles
      ensures Valid() && handles == settled
      ensures ReleasedBy(old(objs), objs, old(Chain(objs, rank, child)), count)
      ensures exists k :: FreedFirst(objs, old(Chain(objs, rank, child)), k)
    {
      if child.None? {
        // every call with NULL returns at once
        ReleaseNone(objs, []);
        ReleasedNothing(objs, objs, count);
        assert FreedFirst(objs, [], 0);
        return;
      }
      hide Balanced, Ranked, LinksLive, Chain, ReleasedBy, Shift, FreedFirst;
      ghost var was, chain, h0 := objs, Chain(objs, rank, child), handles;
      ReleaseNone(was, chain);
      CountCoversHandles(objs, handles, child.value);
      ShiftTwice(h0, child.value, 0, 0);
      var refsToRemove := count;
      while refsToRemove != 0
        invariant 0 <= refsToRemove <= count
        invariant Unreffing(was, chain, h0, child.value, count - refsToRemove, refsToRemove > 0)
      {
        refsToRemove := refsToRemove - 1;
        UnrefOnce(child.value, was, chain, h0, count - refsToRemove - 1, refsToRemove > 0);
      }
      FreedIsPrefix(was, objs, rank, h0, child, count);
    }

    /** After `done` rounds of the loop of `uacpi_object_detach_child`. */
    ghost predicate Unreffing(was: seq<Obj>, chain: seq<nat>, h0: seq<int>, child: nat, done: nat, more: bool)
      reads this
    {
      && |objs| == |was| && child < |h0| && child < |was|
      && Valid() && (more ==> objs[child].live)
      && Chain(objs, rank, Some(child)) == chain
      && handles == Shift(h0, child, 0 - done)
      && ReleasedBy(was, objs, chain, done)
    }

    method UnrefOnce(child: nat, ghost was: seq<Obj>, ghost chain: seq<nat>, ghost h0: seq<int>,
                     ghost done: nat, ghost more: bool)
      requires Unreffing(was, chain, h0, child, done, true) && h0[child] > done
      requires was[child].live && (more ==> was[child].count > done + 1)
      modifies this`objs, this`handles
      ensures Unreffing(was, chain, h0, child, done + 1, more)
    {
      hide Balanced, Ranked, LinksLive, Chain, ReleasedBy, Shift;
      ghost var now := objs;
      ObjectUnref(Some(child));
      ShiftTwice(h0, child, 0 - done, -1);
      ReleasedLinks(now, objs, chain, 1);
      ChainInRange(now, rank, Some(child));
      ChainByLinks(now, rank, objs, rank, Some(child));
      ReleaseTwice(was, now, objs, chain, done);
      if more {
        ReleasedLive(was, objs, chain, done + 1, child);
      }
    }
  }

  lemma ReleaseNone(objs: seq<Obj>, chain: seq<nat>)
    requires forall i :: 0 <= i < |objs| && objs[i].live ==> objs[i].count > 0
    ensures ReleasedBy(objs, objs, chain, 0)
  {}

  lemma ReleasedNothing(was: seq<Obj>, now: seq<Obj>, d: nat)
    requires was == now
    ensures ReleasedBy(was, now, [], d)
  {}

  lemma ReleasedLinks(was: seq<Obj>, now: seq<Obj>, chain: seq<nat>, d: nat)
    requires ReleasedBy(was, now, chain, d)
    ensures |now| == |was| && forall i :: 0 <= i < |was| ==> now[i].Next() == was[i].Next()
  {}

  lemma ReleasedLive(was: seq<Obj>, now: seq<Obj>, chain: seq<nat>, d: nat, i: nat)
    requires ReleasedBy(was, now, chain, d) && i < |was| && was[i].live && was[i].count > d
    ensures i < |now| && now[i].live
  {}

  lemma ReleaseTwice(a: seq<Obj>, b: seq<Obj>, c: seq<Obj>, chain: seq<nat>, d: nat)
    requires ReleasedBy(a, b, chain, d) && ReleasedBy(b, c, chain, 1)
    ensures ReleasedBy(a, c, chain, d + 1)
  {}

  lemma CountCoversHandles(objs: seq<Obj>, handles: seq<int>, i: nat)
    requires Balanced(objs, handles, None, 0) && i < |objs| && objs[i].live
    ensures i < |handles| && handles[i] <= objs[i].count
  {}

  /** Unlinking turns the parent's weight on its child into handles on the child. */
  lemma Unlink(objs: seq<Obj>, rank: seq<nat>, handles: seq<int>, parent: nat)
    requires Ranked(objs, rank) && LinksLive(objs) && Balanced(objs, handles, None, 0)
    requires parent < |objs| && objs[parent].live && objs[parent].isRef
    ensures
      var objs' := objs[parent := objs[parent].(inner := None)];
      && Ranked(objs', rank) && LinksLive(objs')
      && match objs[parent].inner
         case None => objs' == objs
         case Some(child) =>
           && child < |objs| == |handles| && objs[child].live
           && Balanced(objs', Shift(handles, child, objs[parent].count), None, 0)
           && Chain(objs', rank, Some(child)) == Chain(objs, rank, Some(child))
  {
    var objs' := objs[parent := objs[parent].(inner := None)];
    if objs[parent].inner.Some? {
      var child := objs[parent].inner.value;
      forall i | 0 <= i < |objs'| && objs'[i].live
        ensures objs'[i].count == Shift(handles, child, objs[parent].count)[i] + Inflow(objs', i, |objs'|)
      {
        InflowUpdate(objs, parent, objs'[parent], i, |objs|);
      }
      ChainInRange(objs, rank, Some(child));
      ChainBelow(objs, rank, Some(child), parent);
      ChainByLinks(objs, rank, objs', rank, Some(child));
    }
  }

  /** The objects of a chain with at most `d` counts come first. */
  lemma {:induction false} LowCountsFirst(objs: seq<Obj>, rank: seq<nat>, handles: seq<int>, o: Option<nat>, d: nat)
    returns (k: nat)
    requires Ranked(objs, rank) && LinksLive(objs) && Balanced(objs, handles, None, 0)
    requires o.Some? ==> o.value < |objs| && objs[o.value].live
    requires forall i :: 0 <= i < |objs| && objs[i].live ==> handles[i] >= 0
    ensures var chain := Chain(objs, rank, o);
      k <= |chain| && forall j :: 0 <= j < |chain| ==> chain[j] < |objs| && (objs[chain[j]].count <= d <==> j < k)
    decreases Depth(rank, o)
  {
    ChainInRange(objs, rank, o);
    var chain := Chain(objs, rank, o);
    if o.None? {
      k := 0;
    } else if objs[o.value].count > d {
      assert forall j :: 0 <= j < |chain| ==> chain[j] in chain;
      forall j | 0 <= j < |chain|
        ensures objs[chain[j]].count > d
      {
        CountsGrow(objs, rank, handles, o.value, chain[j]);
      }
      k := 0;
    } else {
      assert chain == [o.value] + Chain(objs, rank, objs[o.value].Next());
      var rest := LowCountsFirst(objs, rank, handles, objs[o.value].Next(), d);
      k := rest + 1;
    }
  }

  /** Along the chain, the first `k` objects are freed and the others live. */
  ghost predicate FreedFirst(now: seq<Obj>, chain: seq<nat>, k: nat) {
    k <= |chain| && forall j :: 0 <= j < |chain| ==> chain[j] < |now| && (now[chain[j]].live <==> k <= j)
  }

  /** What a release of `d` counts frees is a prefix of the chain. */
  lemma FreedIsPrefix(was: seq<Obj>, now: seq<Obj>, rank: seq<nat>, handles: seq<int>, o: Option<nat>, d: nat)
    requires Ranked(was, rank) && LinksLive(was) && Balanced(was, handles, None, 0)
    requires o.Some? ==> o.value < |was| && was[o.value].live
    requires forall i :: 0 <= i < |was| && was[i].live ==> handles[i] >= 0
    requires ReleasedBy(was, now, Chain(was, rank, o), d)
    ensures exists k :: FreedFirst(now, Chain(was, rank, o), k)
  {
    hide Balanced, LinksLive, Ranked;
    var chain := Chain(was, rank, o);
    BalancedLength(was, handles);
    var k := LowCountsFirst(was, rank, handles, o, d);
    forall j | 0 <= j < |chain|
      ensures now[chain[j]].live <==> k <= j
    {
      assert chain[j] in chain;
      ChainLive(was, rank, o, chain[j]);
    }
    assert FreedFirst(now, chain, k);
  }

  /** `d` counts less along the chain; what had no more is freed; the rest is as it was. */
  ghost predicate ReleasedBy(was: seq<Obj>, now: seq<Obj>, chain: seq<nat>, d: nat) {
    && |now| == |was|
    && forall i :: 0 <= i < |was| ==>
         if i in chain then now[i] == was[i].(count := now[i].count, live := was[i].live && was[i].count > d)
                            && now[i].count == was[i].count - d
         else now[i] == was[i]
  }

  lemma StillValid(was: seq<Obj>, now: seq<Obj>, chain: seq<nat>, d: int, handles: seq<int>)
    requires Moved(was, now, chain, [], d) && |handles| == |was|
    requires forall i :: 0 <= i < |was| && was[i].live ==> handles[i] >= 0
    ensures |now| == |was| && forall i :: 0 <= i < |now| && now[i].live ==> handles[i] >= 0
  {}

  lemma MoveNone(objs: seq<Obj>, chain: seq<nat>)
    ensures Moved(objs, objs, chain, [], 0)
  {}

  /** Ranks once `parent` points at `child`: what leads to `parent` is lifted above the
      child's chain. */
  ghost function Reranked(objs: seq<Obj>, rank: seq<nat>, parent: nat, child: nat): (r: seq<nat>)
    requires Ranked(objs, rank) && child < |objs|
  {
    seq(|rank|, x requires 0 <= x < |rank| =>
      if parent in Chain(objs, rank, Some(x)) then rank[x] + rank[child] + 1 else rank[x])
  }

  lemma LinkRanked(objs: seq<Obj>, rank: seq<nat>, parent: nat, child: nat)
    requires Ranked(objs, rank) && parent < |objs| && child < |objs| && parent !in Chain(objs, rank, Some(child))
    ensures Ranked(objs[parent := objs[parent].(inner := Some(child))], Reranked(objs, rank, parent, child))
  {
    var objs' := objs[parent := objs[parent].(inner := Some(child))];
    var rank' := Reranked(objs, rank, parent, child);
    forall x | 0 <= x < |objs'| && objs'[x].Next().Some?
      ensures objs'[x].Next().value < |objs'| && rank'[objs'[x].Next().value] < rank'[x]
    {
      if x != parent {
        assert parent in Chain(objs, rank, Some(x)) <==> parent in Chain(objs, rank, objs[x].Next());
      }
    }
  }

  /** Linking keeps the wiring, with the child's handles short by the parent's count. */
  lemma Link(objs: seq<Obj>, rank: seq<nat>, handles: seq<int>, parent: nat, child: nat)
    requires Ranked(objs, rank) && LinksLive(objs) && Balanced(objs, handles, None, 0)
    requires parent < |objs| && objs[parent].live && objs[parent].isRef && objs[parent].inner.None?
    requires child < |objs| && objs[child].live && parent !in Chain(objs, rank, Some(child))
    ensures
      var objs' := objs[parent := objs[parent].(inner := Some(child))];
      var rank' := Reranked(objs, rank, parent, child);
      && Ranked(objs', rank') && LinksLive(objs')
      && Balanced(objs', Shift(handles, child, 0 - objs[parent].count), None, 0)
      && Chain(objs', rank', Some(child)) == Chain(objs, rank, Some(child))
  {
    var objs' := objs[parent := objs[parent].(inner := Some(child))];
    var rank' := Reranked(objs, rank, parent, child);
    LinkRanked(objs, rank, parent, child);
    hide Ranked, Chain, Reranked;
    forall i | 0 <= i < |objs'| && objs'[i].live
      ensures objs'[i].count == Shift(handles, child, 0 - objs[parent].count)[i] + Inflow(objs', i, |objs'|)
    {
      InflowUpdate(objs, parent, objs'[parent], i, |objs|);
    }
    ChainInRange(objs, rank, Some(child));
    ChainByLinks(objs, rank, objs', rank', Some(child));
  }

  lemma MoveTwice(a: seq<Obj>, b: seq<Obj>, c: seq<Obj>, chain: seq<nat>, d: int, e: int)
    requires Moved(a, b, chain, [], d) && Moved(b, c, chain, [], e)
    ensures Moved(a, c, chain, [], d + e)
  {}

  /** A fresh object disturbs nothing. */
  lemma Appended(objs: seq<Obj>, rank: seq<nat>, handles: seq<int>, o: Obj)
    requires Ranked(objs, rank) && LinksLive(objs) && Balanced(objs, handles, None, 0)
    requires o.Next().None? && o.count == 1 && o.live
    ensures Ranked(objs + [o], rank + [0]) && LinksLive(objs + [o])
    ensures Balanced(objs + [o], handles + [1], None, 0)
  {
    var n := |objs|;
    forall i | 0 <= i < n + 1 && (objs + [o])[i].live
      ensures (objs + [o])[i].count == (handles + [1])[i] + Inflow(objs + [o], i, n + 1)
    {
      InflowPrefix(objs, o, i, n);
      if i == n {
        NoInflow(objs, rank, n, n);
      }
    }
  }

  lemma {:induction false} NoInflow(objs: seq<Obj>, rank: seq<nat>, t: nat, n: nat)
    requires Ranked(objs, rank) && n <= |objs| <= t
    ensures Inflow(objs, t, n) == 0
  {
    if n > 0 {
      NoInflow(objs, rank, t, n - 1);
    }
  }

  lemma Sweep(was: seq<Obj>, mid: seq<Obj>, now: seq<Obj>, chain: seq<nat>)
    requires Moved(was, mid, chain, [], -1) && |now| == |mid|
    requires SoundCounts(was)
    requires forall i :: 0 <= i < |mid| ==> now[i] == mid[i].(live := mid[i].live && mid[i].count > 0)
    ensures ReleasedBy(was, now, chain, 1)
    ensures SoundCounts(now) && forall i :: 0 <= i < |now| && now[i].live ==> was[i].live
  {
    MovedCounts(was, mid, chain, [], -1);
    forall i | 0 <= i < |was|
      ensures now[i].live ==> was[i].live && 0 < now[i].count < BUGGED_REFCOUNT
      ensures if i in chain then now[i] == was[i].(count := now[i].count, live := was[i].live && was[i].count > 1)
                                 && now[i].count == was[i].count - 1
              else now[i] == was[i]
    {
      assert mid[i] == was[i].(count := mid[i].count);
    }
  }

  /** After the counting loop a zero count can only be on the chain, and only if the
      first object has one. */
  lemma ZerosOnChain(was: seq<Obj>, now: seq<Obj>, rank: seq<nat>, handles: seq<int>, o: Option<nat>)
    requires Ranked(was, rank) && Ranked(now, rank) && LinksLive(now) && Balanced(now, handles, None, 0)
    requires o.Some? && o.value < |was| && was[o.value].live
    requires SoundCounts(was) && forall i :: 0 <= i < |was| && was[i].live ==> i < |handles| && handles[i] >= 0
    requires Moved(was, now, Chain(was, rank, o), [], -1)
    ensures |now| == |was| && Chain(now, rank, o) == Chain(was, rank, o)
    ensures forall i :: 0 <= i < |now| && now[i].live && now[i].count == 0 ==> i in Chain(now, rank, o)
    ensures now[o.value].count > 0 ==> forall i :: 0 <= i < |now| && now[i].live ==> now[i].count > 0
  {
    ChainInRange(was, rank, o);
    ChainByLinks(was, rank, now, rank, o);
    if now[o.value].count > 0 {
      forall i | 0 <= i < |now| && now[i].live
        ensures now[i].count > 0
      {
        if i in Chain(now, rank, o) {
          CountsGrow(now, rank, handles, o.value, i);
        }
      }
    }
  }

  lemma BalancedLength(objs: seq<Obj>, handles: seq<int>)
    requires Balanced(objs, handles, None, 0)
    ensures |handles| == |objs|
  {}

  lemma Unreferenced(was: seq<Obj>, objs: seq<Obj>, rank: seq<nat>, handles: seq<int>, x: nat, y: nat)
    requires Ranked(was, rank) && Ranked(objs, rank) && |was| == |objs|
    requires Balanced(objs, handles, None, 0) && x < |objs| && objs[x].live && objs[x].count == 0 && handles[x] >= 0
    requires forall i :: 0 <= i < |objs| && objs[i].live && objs[i].count == 0 ==> i in Chain(was, rank, Some(x))
    requires y < |objs|
    ensures !(objs[y].live && objs[y].Next() == Some(x))
  {
    InflowAtLeast(objs, y, x, |objs|);
    ChainBelow(was, rank, Some(x), y);
  }

  /** A dead weight can go: nothing live points at it but what went before. */
  lemma FreeOne(was: seq<Obj>, objs: seq<Obj>, rank: seq<nat>, handles: seq<int>, x: nat)
    requires Ranked(was, rank) && Ranked(objs, rank) && |was| == |objs| && LinksLive(objs)
    requires Balanced(objs, handles, None, 0) && x < |objs| && objs[x].live && objs[x].count == 0
    requires forall i :: 0 <= i < |objs| && objs[i].live ==> handles[i] >= 0
    requires forall i :: 0 <= i < |objs| && objs[i].live && objs[i].count == 0 ==> i in Chain(was, rank, Some(x))
    ensures
      var objs' := objs[x := objs[x].(live := false)];
      Ranked(objs', rank) && LinksLive(objs') && Balanced(objs', handles, None, 0)
  {
    var objs' := objs[x := objs[x].(live := false)];
    forall y | 0 <= y < |objs|
      ensures !(objs[y].live && objs[y].Next() == Some(x))
    {
      Unreferenced(was, objs, rank, handles, x, y);
    }
    forall i | 0 <= i < |objs'| && objs'[i].live
      ensures objs'[i].count == handles[i] + Inflow(objs', i, |objs'|)
    {
      InflowUpdate(objs, x, objs'[x], i, |objs|);
    }
  }

  // ----- runs -----

  /** Something lives on a positive count, so with no handle on it some live reference
      points at it. */
  lemma {:induction false} Pointer(objs: seq<Obj>, t: nat, n: nat) returns (j: nat)
    requires n <= |objs| && Inflow(objs, t, n) > 0
    ensures j < n && objs[j].live && objs[j].Next() == Some(t)
  {
    if Contribution(objs[n - 1], t) > 0 {
      j := n - 1;
    } else {
      j := Pointer(objs, t, n - 1);
    }
  }

  function Highest(rank: seq<nat>): (m: nat)
    ensures forall i :: 0 <= i < |rank| ==> rank[i] <= m
  {
    if rank == [] then 0
    else
      var m := Highest(rank[..|rank| - 1]);
      if rank[|rank| - 1] > m then rank[|rank| - 1] else m
  }

  /** No leak: once no handle is held on a live object, no object is live. */
  lemma {:induction false} NoLeak(objs: seq<Obj>, rank: seq<nat>, handles: seq<int>, i: nat)
    requires Ranked(objs, rank) && Balanced(objs, handles, None, 0) && SoundCounts(objs)
    requires forall k :: 0 <= k < |objs| && objs[k].live ==> handles[k] == 0
    ensures i < |objs| ==> !objs[i].live
    decreases Highest(rank) - (if i < |rank| then rank[i] else 0)
  {
    if i < |objs| && objs[i].live {
      var j := Pointer(objs, i, |objs|);
      NoLeak(objs, rank, handles, j);
      assert false;
    }
  }

  datatype Op =
    | Create(isRef: bool, memory: bool)
    | Ref(o: nat)
    | Unref(o: nat)
    | Attach(parent: nat, child: nat)
    | Detach(parent: nat)

  /** The owners of the handles, who count what they hold. */
  class Holder {
    const store: Store
    var held: seq<int>

    ghost predicate Valid()
      reads this, store
    {
      store.Valid() && held == store.handles
    }

    constructor ()
      ensures Valid() && held == [] && store.objs == [] && fresh(store)
    {
      store := new Store();
      held := [];
    }

    predicate Live(o: nat)
      reads store
    {
      o < |store.objs| && store.objs[o].live
    }

    /** The counts along a chain leave room for `d` more. */
    predicate Room(o: nat, d: nat)
      requires store.Wired() && Live(o)
      reads store
    {
      forall x :: x in Chain(store.objs, store.rank, Some(o)) ==>
        x < |store.objs| && store.objs[x].count + d < BUGGED_REFCOUNT
    }

    /** One operation, when its arguments make sense: on live objects, giving up only what
        is held, and closing no cycle. */
    method Do(op: Op)
      requires Valid()
      modifies this, store
      ensures Valid()
    {
      hide Ranked, LinksLive, Balanced, SoundCounts, Chain, Moved, ReleasedBy, FreedFirst;
      BalancedLength(store.objs, store.handles);
      match op
      case Create(isRef, memory) =>
        var r := store.CreateObject(isRef, memory);
        if r.Some? {
          held := held + [1];
        }
      case Ref(o) =>
        if Live(o) && Room(o, 1) {
          store.ObjectRef(Some(o));
          held := held[o := held[o] + 1];
        }
      case Unref(o) =>
        if Live(o) && held[o] > 0 {
          store.ObjectUnref(Some(o));
          held := held[o := held[o] - 1];
        }
      case Attach(parent, child) =>
        if && Live(parent) && Live(child) && store.objs[parent].isRef && store.objs[parent].inner.None?
           && parent !in Chain(store.objs, store.rank, Some(child)) && Room(child, store.objs[parent].count)
        {
          store.AttachChild(parent, child);
        }
      case Detach(parent) =>
        if Live(parent) && store.objs[parent].isRef {
          store.DetachChild(parent);
        }
    }

    /** The books balance, and what nobody holds is gone. */
    ghost predicate Settled()
      reads this, store
    {
      && Balanced(store.objs, held, None, 0)
      && ((forall i :: 0 <= i < |store.objs| && i < |held| && store.objs[i].live ==> held[i] == 0) ==>
            forall i :: 0 <= i < |store.objs| ==> !store.objs[i].live)
    }

    lemma AlwaysSettled()
      requires Valid()
      ensures Settled()
    {
      if forall i :: 0 <= i < |store.objs| && i < |held| && store.objs[i].live ==> held[i] == 0 {
        forall i | 0 <= i < |store.objs|
          ensures !store.objs[i].live
        {
          NoLeak(store.objs, store.rank, held, i);
        }
      }
    }
  }

  /** Any run of creating, taking and giving up handles, attaching and detaching: each live
      object's count is its handles plus the counts of the references to it, and once all
      handles are given up nothing is live. */
  method Run(ops: seq<Op>) returns (h: Holder)
    ensures h.Valid() && h.Settled()
  {
    hide Holder.Valid, Holder.Settled;
    h := new Holder();
    for n := 0 to |ops|
      invariant h.Valid() && fresh(h) && fresh(h.store)
    {
      h.Do(ops[n]);
    }
    h.AlwaysSettled();
  }
}
