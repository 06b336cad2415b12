/** The iterative namespace walk (`uacpi_namespace_do_for_each_child`) against a
    recursive one. */
module NamespaceWalk {
  import opened Machine
  import opened Namespace

  datatype Decision = Continue | Break | NextPeer | Invalid

  /** One call of a callback. */
  datatype Visit = Down(id: Id, depth: nat) | Up(id: Id, depth: nat)

  /** A callback sees which calls were made before, so it may keep state of its own;
      it does not change the tree. */
  type Callback = (seq<Visit>, Id, nat) -> Decision

  datatype Status = Ok | InvalidArgument

  /** The arguments that stay the same during a walk. */
  datatype Walk = Walk(
    nodes: Nodes, descending: Option<Callback>, ascending: Option<Callback>,
    mask: set<nat>, maxDepth: nat, permanentOnly: bool)

  /** `matches` outlives a visit: it is not written for a node without an object. */
  datatype Progress = Progress(trace: seq<Visit>, matches: bool, stop: Option<Status>)

  // ----- one visit -----

  function Flag(w: Walk, id: Id, before: bool): bool
    requires id in w.nodes
  {
    var kind := w.nodes[id].kind;
    if kind.None? then before else kind.value in w.mask
  }

  /** One turn of the loop up to `do_next`: the decision, and what was called. */
  function Turn(w: Walk, id: Id, up: bool, depth: nat, p: Progress): (r: (Progress, Decision))
    requires id in w.nodes
  {
    var q := p.(matches := Flag(w, id, p.matches));
    var callback := if up then w.ascending else w.descending;
    if !q.matches then (q, Continue)
    else if w.permanentOnly && w.nodes[id].temporary then (q, NextPeer)
    else if callback.None? then (q, Continue)
    else
      var decision := callback.value(p.trace, id, depth);
      var called := q.(trace := p.trace + [if up then Up(id, depth) else Down(id, depth)]);
      (if decision == Break then called.(stop := Some(Ok)) else called, decision)
  }

  // ----- the recursive walk -----

  ghost predicate Inside(nodes: Nodes, f: Forest) {
    match f
    case Leaf => true
    case Tree(id, kids, peers) => id in nodes && Inside(nodes, kids) && Inside(nodes, peers)
  }

  /** Children between the two visits of a node, then its peers. */
  ghost function Recursive(w: Walk, f: Forest, depth: nat, p: Progress): Progress
    requires Inside(w.nodes, f)
    decreases f, 1
  {
    if p.stop.Some? || f.Leaf? then p
    else
      var (down, decision) := Turn(w, f.id, false, depth, p);
      if down.stop.Some? then down
      else if decision == Invalid then down.(stop := Some(InvalidArgument))
      else
        var below := if decision == Continue && depth != w.maxDepth
                     then Recursive(w, f.kids, depth + 1, down) else down;
        Finish(w, f, depth, below)
  }

  /** The second half: the ascending visit of the first tree, then its peers. */
  ghost function Finish(w: Walk, f: Forest, depth: nat, p: Progress): Progress
    requires f.Tree? && Inside(w.nodes, f)
    decreases f, 0
  {
    if p.stop.Some? then p
    else
      var up := Turn(w, f.id, true, depth, p).0;
      if up.stop.Some? then up else Recursive(w, f.peers, depth, up)
  }

  // ----- what the answers do, for any callback -----

  function CallbackOf(w: Walk, v: Visit): Option<Callback> { if v.Down? then w.descending else w.ascending }

  /** What the callback answered to call `i`, having seen the calls before it. */
  function Answer(w: Walk, t: seq<Visit>, i: nat): Decision
    requires i < |t| && CallbackOf(w, t[i]).Some?
  {
    CallbackOf(w, t[i]).value(t[..i], t[i].id, t[i].depth)
  }

  /** Break ends the walk, and so does an answer out of range on the way down. */
  predicate Ending(v: Visit, answer: Decision) { answer == Break || (v.Down? && answer == Invalid) }

  /** Only the last call can have been answered with an end of the walk, and the status
      says which: an error for an answer out of range, none for Break. */
  ghost predicate StopsWhenTold(w: Walk, t: seq<Visit>, status: Status) {
    && (forall i :: 0 <= i < |t| ==> CallbackOf(w, t[i]).Some?)
    && (forall i :: 0 <= i < |t| - 1 ==> !Ending(t[i], Answer(w, t, i)))
    && (status == InvalidArgument <==> t != [] && t[|t| - 1].Down? && Answer(w, t, |t| - 1) == Invalid)
  }

  /** The same for a walk under way. */
  ghost predicate Obeys(w: Walk, p: Progress) {
    && (forall i :: 0 <= i < |p.trace| ==> CallbackOf(w, p.trace[i]).Some?)
    && (forall i :: 0 <= i < |p.trace| - 1 ==> !Ending(p.trace[i], Answer(w, p.trace, i)))
    && (p.trace == [] ==> p.stop.None?)
    && (p.trace != [] ==>
          var last := p.trace[|p.trace| - 1];
          var answer := Answer(w, p.trace, |p.trace| - 1);
          p.stop == if !Ending(last, answer) then None else if answer == Break then Some(Ok) else Some(InvalidArgument))
  }

  /** One call more. */
  lemma CallObeys(w: Walk, p: Progress, v: Visit, q: Progress)
    requires Obeys(w, p) && p.stop.None? && CallbackOf(w, v).Some? && q.trace == p.trace + [v]
    requires var answer := CallbackOf(w, v).value(p.trace, v.id, v.depth);
      q.stop == if !Ending(v, answer) then None else if answer == Break then Some(Ok) else Some(InvalidArgument)
    ensures Obeys(w, q)
  {
    var n := |p.trace|;
    assert q.trace[..n] == p.trace && q.trace[n] == v;
    forall i | 0 <= i < n
      ensures CallbackOf(w, q.trace[i]).Some? && !Ending(q.trace[i], Answer(w, q.trace, i))
    {
      assert q.trace[i] == p.trace[i] && q.trace[..i] == p.trace[..i];
    }
  }

  lemma TurnObeys(w: Walk, id: Id, up: bool, depth: nat, p: Progress)
    requires id in w.nodes && Obeys(w, p) && p.stop.None?
    ensures var (q, decision) := Turn(w, id, up, depth, p);
      && (q.stop.Some? ==> decision == Break)
      && Obeys(w, if !up && decision == Invalid then q.(stop := Some(InvalidArgument)) else q)
  {
    var (q, decision) := Turn(w, id, up, depth, p);
    if q.trace != p.trace {
      var v := if up then Up(id, depth) else Down(id, depth);
      CallObeys(w, p, v, if !up && decision == Invalid then q.(stop := Some(InvalidArgument)) else q);
    } else {
      hide Answer;
    }
  }

  lemma {:induction false} RecursiveObeys(w: Walk, f: Forest, depth: nat, p: Progress)
    requires Inside(w.nodes, f) && Obeys(w, p)
    ensures Obeys(w, Recursive(w, f, depth, p))
    decreases f, 1
  {
    hide Obeys, Turn;
    if p.stop.None? && f.Tree? {
      TurnObeys(w, f.id, false, depth, p);
      var (down, decision) := Turn(w, f.id, false, depth, p);
      if down.stop.None? && decision != Invalid {
        if decision == Continue && depth != w.maxDepth {
          RecursiveObeys(w, f.kids, depth + 1, down);
          FinishObeys(w, f, depth, Recursive(w, f.kids, depth + 1, down));
        } else {
          FinishObeys(w, f, depth, down);
        }
      }
    }
  }

  lemma {:induction false} FinishObeys(w: Walk, f: Forest, depth: nat, p: Progress)
    requires f.Tree? && Inside(w.nodes, f) && Obeys(w, p)
    ensures Obeys(w, Finish(w, f, depth, p))
    decreases f, 0
  {
    hide Obeys, Turn;
    if p.stop.None? {
      TurnObeys(w, f.id, true, depth, p);
      var up := Turn(w, f.id, true, depth, p).0;
      if up.stop.None? {
        RecursiveObeys(w, f.peers, depth, up);
      }
    }
  }

  /** Whatever the callbacks answer, the walk ends when told to, and with that status. */
  lemma WalkStopsWhenTold(w: Walk, f: Forest, depth: nat)
    requires Inside(w.nodes, f)
    ensures var (status, trace) := Outcome(Recursive(w, f, depth, Progress([], false, None)));
      StopsWhenTold(w, trace, status)
  {
    RecursiveObeys(w, f, depth, Progress([], false, None));
  }

  // ----- the iterative walk -----

  /** The trees whose children are being walked, innermost first. */
  datatype Stack = Bottom | Push(tree: Forest, below: Stack)

  ghost predicate Stacked(w: Walk, start: Id, stack: Stack) {
    match stack
    case Bottom => true
    case Push(tree, below) =>
      tree.Tree? && Inside(w.nodes, tree) && Linked(w.nodes, Some(tree.id), Top(start, below), tree)
      && Stacked(w, start, below)
  }

  ghost function Top(start: Id, stack: Stack): Id {
    if stack.Push? && stack.tree.Tree? then stack.tree.id else start
  }

  ghost function Height(stack: Stack): nat { if stack.Bottom? then 0 else 1 + Height(stack.below) }

  /** What is left to do once the children on top of the stack are done. */
  ghost function Unwind(w: Walk, start: Id, stack: Stack, p: Progress): Progress
    requires Stacked(w, start, stack)
  {
    match stack
    case Bottom => p
    case Push(tree, below) => Unwind(w, start, below, Finish(w, tree, Height(stack), p))
  }

  ghost function Work(stack: Stack): nat {
    match stack
    case Bottom => 0
    case Push(tree, below) => 1 + (if tree.Tree? then 2 * Size(tree.peers) else 0) + Work(below)
  }

  lemma {:induction false} LinkedInside(nodes: Nodes, first: Option<Id>, parent: Id, f: Forest)
    requires Linked(nodes, first, parent, f)
    ensures Inside(nodes, f)
    decreases f
  {
    if f.Tree? {
      LinkedInside(nodes, nodes[f.id].child, f.id, f.kids);
      LinkedInside(nodes, nodes[f.id].next, parent, f.peers);
    }
  }

  lemma {:induction false} UnwindStopped(w: Walk, start: Id, stack: Stack, p: Progress)
    requires Stacked(w, start, stack) && p.stop.Some?
    ensures Unwind(w, start, stack, p) == p
  {
    if stack.Push? {
      UnwindStopped(w, start, stack.below, p);
    }
  }

  ghost function Outcome(p: Progress): (Status, seq<Visit>) {
    (if p.stop.Some? then p.stop.value else Ok, p.trace)
  }

  /** The loop body up to `do_next`. */
  method VisitNode(w: Walk, node: Id, walkingUp: bool, depth: nat, matchesBefore: bool, traceBefore: seq<Visit>)
    returns (matches: bool, decision: Decision, trace: seq<Visit>)
    requires node in w.nodes
    ensures var (p, d) := Turn(w, node, walkingUp, depth, Progress(traceBefore, matchesBefore, None));
      && decision == d && p == Progress(trace, matches, if d == Break then Some(Ok) else None)
  {
    matches, decision, trace := matchesBefore, Continue, traceBefore;
    // uacpi_namespace_node_is_one_of_unlocked leaves `matches` alone without an object
    if w.nodes[node].kind.Some? {
      matches := w.nodes[node].kind.value in w.mask;
    }
    if !matches {
      return;
    }
    if w.permanentOnly && w.nodes[node].temporary {
      decision := NextPeer;
      return;
    }
    var callback := if walkingUp then w.ascending else w.descending;
    if callback.Some? {
      decision := callback.value(trace, node, depth);
      trace := trace + [if walkingUp then Up(node, depth) else Down(node, depth)];
    }
  }

  /** The walk with its cursor, depth counter and direction flag.  It makes exactly the
      calls of the recursive walk, in the same order, and returns the same status. */
  method ForEachChild(w: Walk, start: Option<Id>, ghost f: Forest) returns (status: Status, trace: seq<Visit>)
    requires start.Some? ==> start.value in w.nodes
    requires start.Some? ==> Linked(w.nodes, w.nodes[start.value].child, start.value, f)
    ensures
      if start.None? || w.maxDepth == 0 || (w.descending.None? && w.ascending.None?)
      then status == InvalidArgument && trace == []
      else Inside(w.nodes, f) && (status, trace) == Outcome(Recursive(w, f, 1, Progress([], false, None)))
    ensures start.Some? && w.maxDepth != 0 && (w.descending.Some? || w.ascending.Some?) ==>
      StopsWhenTold(w, trace, status)
  {
    trace := [];
    if w.descending.None? && w.ascending.None? {
      return InvalidArgument, [];
    }
    if start.None? || w.maxDepth == 0 {
      return InvalidArgument, [];
    }
    LinkedInside(w.nodes, w.nodes[start.value].child, start.value, f);
    WalkStopsWhenTold(w, f, 1);
    ghost var goal := Recursive(w, f, 1, Progress([], false, None));
    if w.nodes[start.value].child == None {
      return Ok, [];
    }
    var node := w.nodes[start.value].child.value;
    var depth := 1;
    var matches, walkingUp := false, false;
    ghost var here, stack := f, Bottom;
    while depth != 0
      invariant depth == 0 ==> stack == Bottom && Progress(trace, matches, None) == goal
      invariant depth != 0 ==>
        && depth == Height(stack) + 1 && Stacked(w, start.value, stack)
        && here.Tree? && here.id == node && Inside(w.nodes, here)
        && Linked(w.nodes, Some(node), Top(start.value, stack), here)
        && goal == Unwind(w, start.value, stack,
                     if walkingUp then Finish(w, here, depth, Progress(trace, matches, None))
                     else Recursive(w, here, depth, Progress(trace, matches, None)))
      decreases if depth == 0 then 0
                else 1 + (if walkingUp then 1 + 2 * Size(here.peers) else 2 * Size(here)) + Work(stack)
    {
      ghost var before := Progress(trace, matches, None);
      ghost var turn := Turn(w, node, walkingUp, depth, before);
      var decision;
      matches, decision, trace := VisitNode(w, node, walkingUp, depth, matches, trace);
      if turn.0.stop.Some? {
        UnwindStopped(w, start.value, stack, turn.0);
      }
      if decision == Break {
        return Ok, trace;
      }
      if walkingUp {
        if w.nodes[node].next.Some? {
          node := w.nodes[node].next.value;
          walkingUp := false;
          here := here.peers;
          continue;
        }
        depth := depth - 1;
        node := w.nodes[node].parent.value;
        if stack.Push? {
          here, stack := stack.tree, stack.below;
        }
        continue;
      }
      if decision == Invalid {
        UnwindStopped(w, start.value, stack, turn.0.(stop := Some(InvalidArgument)));
        return InvalidArgument, trace;
      }
      if decision == Continue && depth != w.maxDepth && w.nodes[node].child != None {
        node := w.nodes[node].child.value;
        depth := depth + 1;
        here, stack := here.kids, Push(here, stack);
        continue;
      }
      walkingUp := true;
    }
    status := Ok;
  }

  // ----- what the order of calls is -----

  /** Callbacks that never stop the walk and answer from the node alone. */
  ghost predicate Steady(w: Walk) {
    && (w.descending.Some? ==> forall t: seq<Visit>, id: Id, depth: nat ::
          w.descending.value(t, id, depth) == w.descending.value([], id, depth) != Break
          && w.descending.value(t, id, depth) != Invalid)
    && (w.ascending.Some? ==> forall t: seq<Visit>, id: Id, depth: nat :: w.ascending.value(t, id, depth) != Break)
  }

  /** Every node has an object, so the type test always answers. */
  ghost predicate Typed(nodes: Nodes, f: Forest) {
    match f
    case Leaf => true
    case Tree(id, kids, peers) =>
      id in nodes && nodes[id].kind.Some? && Typed(nodes, kids) && Typed(nodes, peers)
  }

  predicate Matching(w: Walk, id: Id)
    requires id in w.nodes
  {
    w.nodes[id].kind.Some? && w.nodes[id].kind.value in w.mask
  }

  predicate Pruned(w: Walk, id: Id)
    requires id in w.nodes
  {
    Matching(w, id) && w.permanentOnly && w.nodes[id].temporary
  }

  predicate Called(w: Walk, id: Id, up: bool)
    requires id in w.nodes
  {
    Matching(w, id) && !Pruned(w, id) && (if up then w.ascending else w.descending).Some?
  }

  predicate Descends(w: Walk, id: Id, depth: nat)
    requires id in w.nodes
  {
    && depth != w.maxDepth && !Pruned(w, id)
    && (Called(w, id, false) ==> w.descending.value([], id, depth) == Continue)
  }

  function Calls(w: Walk, id: Id, up: bool, depth: nat): seq<Visit>
    requires id in w.nodes
  {
    if Called(w, id, up) then [if up then Up(id, depth) else Down(id, depth)] else []
  }

  /** The calls of a depth-first tour: down, the children, up, the peers. */
  ghost function Tour(w: Walk, f: Forest, depth: nat): seq<Visit>
    requires Inside(w.nodes, f)
    decreases f
  {
    match f
    case Leaf => []
    case Tree(id, kids, peers) =>
      Calls(w, id, false, depth)
      + ((if Descends(w, id, depth) then Tour(w, kids, depth + 1) else [])
         + (Calls(w, id, true, depth) + Tour(w, peers, depth)))
  }

  lemma Append<T>(p: seq<T>, a: seq<T>, b: seq<T>, c: seq<T>, d: seq<T>)
    ensures p + a + b + c + d == p + (a + (b + (c + d)))
  {}

  function Downs(t: seq<Visit>): seq<Id> {
    if t == [] then [] else (if t[0].Down? then [t[0].id] else []) + Downs(t[1..])
  }

  function Ups(t: seq<Visit>): seq<Id> {
    if t == [] then [] else (if t[0].Up? then [t[0].id] else []) + Ups(t[1..])
  }

  lemma {:induction false} DownsConcat(a: seq<Visit>, b: seq<Visit>)
    ensures Downs(a + b) == Downs(a) + Downs(b)
  {
    if a == [] {
      assert a + b == b && Downs(a) == [];
    } else {
      DownsConcat(a[1..], b);
      assert (a + b)[1..] == a[1..] + b && (a + b)[0] == a[0];
      Associative(if a[0].Down? then [a[0].id] else [], Downs(a[1..]), Downs(b));
    }
  }

  lemma {:induction false} UpsConcat(a: seq<Visit>, b: seq<Visit>)
    ensures Ups(a + b) == Ups(a) + Ups(b)
  {
    if a == [] {
      assert a + b == b && Ups(a) == [];
    } else {
      UpsConcat(a[1..], b);
      assert (a + b)[1..] == a[1..] + b && (a + b)[0] == a[0];
      Associative(if a[0].Up? then [a[0].id] else [], Ups(a[1..]), Ups(b));
    }
  }

  /** The reached nodes, parents before children. */
  ghost function PreOrder(w: Walk, f: Forest, depth: nat): seq<Id>
    requires Inside(w.nodes, f)
  {
    match f
    case Leaf => []
    case Tree(id, kids, peers) =>
      (if Called(w, id, false) then [id] else [])
      + ((if Descends(w, id, depth) then PreOrder(w, kids, depth + 1) else []) + PreOrder(w, peers, depth))
  }

  /** The reached nodes, children before parents. */
  ghost function PostOrder(w: Walk, f: Forest, depth: nat): seq<Id>
    requires Inside(w.nodes, f)
  {
    match f
    case Leaf => []
    case Tree(id, kids, peers) =>
      (if Descends(w, id, depth) then PostOrder(w, kids, depth + 1) else [])
      + ((if Called(w, id, true) then [id] else []) + PostOrder(w, peers, depth))
  }

  /** Descending calls come in pre-order, ascending calls in post-order. */
  lemma {:induction false} TourOrders(w: Walk, f: Forest, depth: nat)
    requires Inside(w.nodes, f)
    ensures Downs(Tour(w, f, depth)) == PreOrder(w, f, depth)
    ensures Ups(Tour(w, f, depth)) == PostOrder(w, f, depth)
    decreases f
  {
    if f.Tree? {
      var a, c := Calls(w, f.id, false, depth), Calls(w, f.id, true, depth);
      var b := if Descends(w, f.id, depth) then Tour(w, f.kids, depth + 1) else [];
      var d := Tour(w, f.peers, depth);
      TourOrders(w, f.kids, depth + 1);
      TourOrders(w, f.peers, depth);
      OneCall(w, f.id, false, depth);
      OneCall(w, f.id, true, depth);
      hide Descends, Called, Downs, Ups, Calls;
      DownsOfFour(a, b, c, d);
      UpsOfFour(a, b, c, d);
    }
  }

  lemma DownsOfFour(a: seq<Visit>, b: seq<Visit>, c: seq<Visit>, d: seq<Visit>)
    ensures Downs(a + (b + (c + d))) == Downs(a) + (Downs(b) + (Downs(c) + Downs(d)))
  {
    DownsConcat(a, b + (c + d));
    DownsConcat(b, c + d);
    DownsConcat(c, d);
  }

  lemma UpsOfFour(a: seq<Visit>, b: seq<Visit>, c: seq<Visit>, d: seq<Visit>)
    ensures Ups(a + (b + (c + d))) == Ups(a) + (Ups(b) + (Ups(c) + Ups(d)))
  {
    UpsConcat(a, b + (c + d));
    UpsConcat(b, c + d);
    UpsConcat(c, d);
  }

  lemma OneCall(w: Walk, id: Id, up: bool, depth: nat)
    requires id in w.nodes
    ensures Downs(Calls(w, id, up, depth)) == (if Called(w, id, up) && !up then [id] else [])
    ensures Ups(Calls(w, id, up, depth)) == (if Called(w, id, up) && up then [id] else [])
    ensures Downs([]) == [] && Ups([]) == []
  {}

  /** The walk stays in the subtree and within the depth limit, and calls only for
      matching nodes that are not pruned. */
  lemma {:induction false} TourStaysInside(w: Walk, f: Forest, depth: nat, v: Visit)
    requires Inside(w.nodes, f) && v in Tour(w, f, depth) && depth <= w.maxDepth
    ensures v.id in Ids(f) && depth <= v.depth <= w.maxDepth && v.id in w.nodes && Called(w, v.id, v.Up?)
    decreases f
  {
    var kids, peers := Ids(f.kids), Ids(f.peers);
    assert forall x :: x in kids || x in peers ==> x in Ids(f);
    if v in Calls(w, f.id, false, depth) || v in Calls(w, f.id, true, depth) {
    } else if v in Tour(w, f.peers, depth) {
      hide Calls, Called;
      TourStaysInside(w, f.peers, depth, v);
    } else {
      hide Calls, Called;
      TourStaysInside(w, f.kids, depth + 1, v);
    }
  }

  /** No node is called twice in the same direction. */
  ghost predicate Distinct(s: seq<Id>) { forall i, j :: 0 <= i < j < |s| ==> s[i] != s[j] }

  lemma {:induction false} EachOnce(w: Walk, f: Forest, depth: nat)
    requires Inside(w.nodes, f) && Distinct(Ids(f))
    ensures Distinct(PreOrder(w, f, depth)) && Distinct(PostOrder(w, f, depth))
    ensures forall x :: x in PreOrder(w, f, depth) || x in PostOrder(w, f, depth) ==> x in Ids(f)
    decreases f
  {
    if f.Tree? {
      var kids, peers := Ids(f.kids), Ids(f.peers);
      DistinctParts([f.id], kids, peers);
      EachOnce(w, f.kids, depth + 1);
      EachOnce(w, f.peers, depth);
      var k1 := if Descends(w, f.id, depth) then PreOrder(w, f.kids, depth + 1) else [];
      var k2 := if Descends(w, f.id, depth) then PostOrder(w, f.kids, depth + 1) else [];
      var a1 := if Called(w, f.id, false) then [f.id] else [];
      var a2 := if Called(w, f.id, true) then [f.id] else [];
      hide Called, Descends;
      DistinctJoin(a1, k1, PreOrder(w, f.peers, depth));
      DistinctJoin(k2, a2, PostOrder(w, f.peers, depth));
    }
  }

  lemma DistinctParts(a: seq<Id>, b: seq<Id>, c: seq<Id>)
    requires Distinct(a + b + c)
    ensures Distinct(b) && Distinct(c)
    ensures forall x :: x in a ==> x !in b && x !in c
    ensures forall x :: x in b ==> x !in c
  {
    var s := a + b + c;
    assert forall i :: 0 <= i < |a| ==> s[i] == a[i];
    assert forall i :: 0 <= i < |b| ==> s[|a| + i] == b[i];
    assert forall i :: 0 <= i < |c| ==> s[|a| + |b| + i] == c[i];
  }

  lemma DistinctJoin(a: seq<Id>, b: seq<Id>, c: seq<Id>)
    requires Distinct(a) && Distinct(b) && Distinct(c)
    requires forall x :: x in a ==> x !in b && x !in c
    requires forall x :: x in b ==> x !in c
    ensures Distinct(a + (b + c))
  {
    DistinctPair(b, c);
    DistinctPair(a, b + c);
  }

  lemma DistinctPair(a: seq<Id>, b: seq<Id>)
    requires Distinct(a) && Distinct(b) && forall x :: x in a ==> x !in b
    ensures Distinct(a + b)
  {
    var s := a + b;
    forall i, j | 0 <= i < j < |s|
      ensures s[i] != s[j]
    {
      if i < |a| <= j {
        assert s[i] in a && s[j] == b[j - |a|];
      }
    }
  }

  /** All nodes, children before parents. */
  function PostIds(f: Forest): seq<Id> {
    match f
    case Leaf => []
    case Tree(id, kids, peers) => PostIds(kids) + ([id] + PostIds(peers))
  }

  /** With everything matching, nothing pruned and no limit, each node of the subtree
      is reached exactly once in each direction there is a callback for. */
  lemma {:induction false} FullWalk(w: Walk, f: Forest, depth: nat)
    requires Inside(w.nodes, f) && Unhindered(w, f, depth)
    ensures PreOrder(w, f, depth) == if w.descending.Some? then Ids(f) else []
    ensures PostOrder(w, f, depth) == if w.ascending.Some? then PostIds(f) else []
    decreases f
  {
    hide Called, Descends, Inside, Unhindered;
    if f.Tree? {
      UnhinderedParts(w, f, depth);
      FullWalk(w, f.kids, depth + 1);
      FullWalk(w, f.peers, depth);
      Associative([f.id], Ids(f.kids), Ids(f.peers));
    }
  }

  /** Everything in `f` matches, nothing is pruned, and the depth limit is out of reach. */
  ghost predicate Unhindered(w: Walk, f: Forest, depth: nat) {
    && (forall id :: id in Ids(f) ==> id in w.nodes && Matching(w, id) && !Pruned(w, id))
    && (w.descending.Some? ==> forall id: Id, d: nat :: w.descending.value([], id, d) == Continue)
    && depth + Size(f) <= w.maxDepth
  }

  lemma UnhinderedParts(w: Walk, f: Forest, depth: nat)
    requires Inside(w.nodes, f) && Unhindered(w, f, depth) && f.Tree?
    ensures f.id in w.nodes && Inside(w.nodes, f.kids) && Inside(w.nodes, f.peers)
    ensures Unhindered(w, f.kids, depth + 1) && Unhindered(w, f.peers, depth)
    ensures Called(w, f.id, false) == w.descending.Some? && Called(w, f.id, true) == w.ascending.Some?
    ensures Descends(w, f.id, depth)
  {
    assert f.id in Ids(f);
    assert forall x :: x in Ids(f.kids) || x in Ids(f.peers) ==> x in Ids(f);
  }

  // ----- nodes without an object -----

  /** A node without an object is treated as the last typed node was: it is called for
      exactly when that one matched. */
  lemma StaleFlag(w: Walk, id: Id, up: bool, depth: nat, p: Progress)
    requires id in w.nodes && w.nodes[id].kind.None?
    ensures
      var callback := if up then w.ascending else w.descending;
      |Turn(w, id, up, depth, p).0.trace| > |p.trace| <==>
        p.matches && callback.Some? && !(w.permanentOnly && w.nodes[id].temporary)
  {}

  /** Whether some node without an object is called for, and the flag afterwards: the
      flag is threaded through the tree, nothing is called. */
  ghost function StaleCalls(w: Walk, f: Forest, depth: nat, matches: bool): (bool, bool)
    requires Inside(w.nodes, f)
    decreases f
  {
    match f
    case Leaf => (false, matches)
    case Tree(id, kids, peers) =>
      var bare := w.nodes[id].kind.None? && !(w.permanentOnly && w.nodes[id].temporary);
      var m1 := Flag(w, id, matches);
      var (inKids, m2) := if FlagDescends(w, id, depth, m1) then StaleCalls(w, kids, depth + 1, m1) else (false, m1);
      var m3 := Flag(w, id, m2);
      var (inPeers, m4) := StaleCalls(w, peers, depth, m3);
      ((bare && m1 && w.descending.Some?) || inKids || (bare && m3 && w.ascending.Some?) || inPeers, m4)
  }

  ghost predicate FlagDescends(w: Walk, id: Id, depth: nat, matches: bool)
    requires id in w.nodes
  {
    && depth != w.maxDepth
    && (matches ==> !(w.permanentOnly && w.nodes[id].temporary)
                    && (w.descending.Some? ==> w.descending.value([], id, depth) == Continue))
  }

  ghost predicate AllMatch(w: Walk, t: seq<Visit>) {
    forall v :: v in t ==> v.id in w.nodes && Matching(w, v.id)
  }

  lemma TurnMatches(w: Walk, id: Id, up: bool, depth: nat, p: Progress)
    requires id in w.nodes && Steady(w) && p.stop.None?
    ensures var (q, decision) := Turn(w, id, up, depth, p);
      && q.stop.None? && q.matches == Flag(w, id, p.matches)
      && (!up ==> decision != Invalid
                  && (decision == Continue && depth != w.maxDepth <==> FlagDescends(w, id, depth, q.matches)))
      && (AllMatch(w, q.trace) <==>
            AllMatch(w, p.trace)
            && !(w.nodes[id].kind.None? && !(w.permanentOnly && w.nodes[id].temporary)
                 && q.matches && (if up then w.ascending else w.descending).Some?))
  {
    var (q, decision) := Turn(w, id, up, depth, p);
    if q.trace != p.trace {
      var v := q.trace[|p.trace|];
      assert v in q.trace && forall u :: u in q.trace <==> u in p.trace || u == v;
    }
  }

  /** Every call of a steady walk is for a node whose own object matches if and only if
      no node without an object is reached with the flag of a matching one. */
  lemma {:induction false} CallsMatchExactly(w: Walk, f: Forest, depth: nat, p: Progress)
    requires Inside(w.nodes, f) && Steady(w) && p.stop.None?
    ensures var q := Recursive(w, f, depth, p);
      && q.stop.None? && q.matches == StaleCalls(w, f, depth, p.matches).1
      && (AllMatch(w, q.trace) <==> AllMatch(w, p.trace) && !StaleCalls(w, f, depth, p.matches).0)
    decreases f
  {
    if f.Tree? {
      hide Turn, Steady, AllMatch, FlagDescends, Flag;
      TurnMatches(w, f.id, false, depth, p);
      var down := Turn(w, f.id, false, depth, p).0;
      var below := down;
      if FlagDescends(w, f.id, depth, down.matches) {
        CallsMatchExactly(w, f.kids, depth + 1, down);
        below := Recursive(w, f.kids, depth + 1, down);
      }
      TurnMatches(w, f.id, true, depth, below);
      CallsMatchExactly(w, f.peers, depth, Turn(w, f.id, true, depth, below).0);
    }
  }

  // ----- when the walk is the tour -----

  predicate Bare(w: Walk, id: Id)
    requires id in w.nodes
  {
    w.nodes[id].kind.None?
  }

  /** The guard that prunes temporary nodes, when the walk gets to it. */
  predicate Guarded(w: Walk, id: Id)
    requires id in w.nodes
  {
    w.permanentOnly && w.nodes[id].temporary
  }

  /** A node the tour comes by, called for or not; `lit` says that the typed node met last
      matched. */
  datatype Stop = Stop(id: Id, up: bool, depth: nat, kids: Forest, lit: bool)

  /** Whether the typed node met last matches, once the tour has been through a forest.
      The children of a temporary node without an object count only when it is not lit. */
  ghost function Lit(w: Walk, f: Forest, depth: nat, lit: bool): bool
    requires Inside(w.nodes, f)
    decreases f, 0
  {
    match f
    case Leaf => lit
    case Tree(id, kids, peers) => Lit(w, peers, depth, Flag(w, id, LitKids(w, id, kids, depth, Flag(w, id, lit))))
  }

  ghost function LitKids(w: Walk, id: Id, kids: Forest, depth: nat, lit: bool): bool
    requires id in w.nodes && Inside(w.nodes, kids)
    decreases kids, 1
  {
    if !Descends(w, id, depth) || (Bare(w, id) && Guarded(w, id) && lit) then lit else Lit(w, kids, depth + 1, lit)
  }

  /** All the stops of a tour, in its order. */
  ghost function Stops(w: Walk, f: Forest, depth: nat, lit: bool): seq<Stop>
    requires Inside(w.nodes, f)
    decreases f, 0
  {
    match f
    case Leaf => []
    case Tree(id, kids, peers) =>
      var m1 := Flag(w, id, lit);
      var m2 := LitKids(w, id, kids, depth, m1);
      [Stop(id, false, depth, kids, lit)]
      + (StopsBelow(w, id, kids, depth, m1)
         + ([Stop(id, true, depth, kids, m2)] + Stops(w, peers, depth, Flag(w, id, m2))))
  }

  ghost function StopsBelow(w: Walk, id: Id, kids: Forest, depth: nat, lit: bool): seq<Stop>
    requires id in w.nodes && Inside(w.nodes, kids)
    decreases kids, 1
  {
    if !Descends(w, id, depth) || (Bare(w, id) && Guarded(w, id) && lit) then []
    else Stops(w, kids, depth + 1, lit)
  }

  /** A lit stop at a node without an object goes wrong: a callback is there to be called,
      or the node is taken for a temporary match while there are calls to make below. */
  ghost predicate Trips(w: Walk, s: Stop)
    requires s.id in w.nodes && Inside(w.nodes, s.kids)
  {
    && Bare(w, s.id) && s.lit
    && if Guarded(w, s.id) then !s.up && s.depth != w.maxDepth && Tour(w, s.kids, s.depth + 1) != []
       else (if s.up then w.ascending else w.descending).Some?
  }

  ghost predicate Smooth(w: Walk, stops: seq<Stop>) {
    forall s :: s in stops ==> s.id in w.nodes && Inside(w.nodes, s.kids) && !Trips(w, s)
  }

  /** Calls made that are all for matching nodes are no more than the tour's. */
  ghost predicate Fits(w: Walk, made: seq<Visit>, tour: seq<Visit>) {
    AllMatch(w, made) ==> |made| <= |tour|
  }

  ghost predicate Same(w: Walk, made: seq<Visit>, tour: seq<Visit>) {
    AllMatch(w, made) && |made| == |tour|
  }

  lemma FitsJoin(w: Walk, a: seq<Visit>, b: seq<Visit>, s: seq<Visit>, t: seq<Visit>)
    requires Fits(w, a, s) && Fits(w, b, t)
    ensures Fits(w, a + b, s + t)
    ensures Same(w, a + b, s + t) <==> Same(w, a, s) && Same(w, b, t)
  {
    assert AllMatch(w, a + b) <==> AllMatch(w, a) && AllMatch(w, b) by {
      assert forall v :: v in a + b <==> v in a || v in b;
    }
  }

  /** One turn at a stop: what it adds to the trace. */
  lemma TurnAtStop(w: Walk, id: Id, up: bool, depth: nat, p: Progress, kids: Forest) returns (made: seq<Visit>)
    requires id in w.nodes && Inside(w.nodes, kids) && Steady(w) && p.stop.None?
    ensures var (q, decision) := Turn(w, id, up, depth, p);
      && q.stop.None? && q.trace == p.trace + made && q.matches == Flag(w, id, p.matches)
      && (!up ==> decision != Invalid)
    ensures Fits(w, made, Calls(w, id, up, depth))
    ensures var s := Stop(id, up, depth, kids, p.matches);
      Same(w, made, Calls(w, id, up, depth)) <==> !(Trips(w, s) && !Guarded(w, id))
    ensures Same(w, made, Calls(w, id, up, depth)) ==> made == Calls(w, id, up, depth)
    ensures Same(w, made, Calls(w, id, up, depth)) && !up ==>
      var (q, decision) := Turn(w, id, up, depth, p);
      (decision == Continue && depth != w.maxDepth <==>
        Descends(w, id, depth) && !(Bare(w, id) && Guarded(w, id) && p.matches))
    ensures Bare(w, id) && Guarded(w, id) && p.matches && !up ==> Turn(w, id, up, depth, p).1 == NextPeer
  {
    var q := Turn(w, id, up, depth, p).0;
    made := q.trace[|p.trace|..];
  }

  lemma {:induction false} TourMatches(w: Walk, f: Forest, depth: nat)
    requires Inside(w.nodes, f)
    ensures AllMatch(w, Tour(w, f, depth))
    decreases f
  {
    if f.Tree? {
      TourMatches(w, f.kids, depth + 1);
      TourMatches(w, f.peers, depth);
    }
  }

  ghost function TourBelow(w: Walk, id: Id, kids: Forest, depth: nat): seq<Visit>
    requires id in w.nodes && Inside(w.nodes, kids)
  {
    if Descends(w, id, depth) then Tour(w, kids, depth + 1) else []
  }

  /** Calls that fit a tour: the same exactly when no stop trips, and then the same flag. */
  ghost predicate Settled(w: Walk, made: seq<Visit>, tour: seq<Visit>, smooth: bool, matches: bool, lit: bool) {
    && Fits(w, made, tour) && (Same(w, made, tour) <==> smooth)
    && (smooth ==> made == tour && matches == lit)
  }

  lemma Nothing(w: Walk, lit: bool)
    ensures Settled(w, [], [], true, lit, lit) && Smooth(w, [])
    ensures forall t: seq<Visit> :: Fits(w, [], t) && (Same(w, [], t) <==> t == [])
  {}

  /** The guard trips at a lit node without an object that has calls below it. */
  ghost predicate GuardTrips(w: Walk, id: Id, kids: Forest, depth: nat, lit: bool)
    requires id in w.nodes && Inside(w.nodes, kids)
  {
    Bare(w, id) && Guarded(w, id) && lit && depth != w.maxDepth && Tour(w, kids, depth + 1) != []
  }

  lemma SmoothJoin(w: Walk, a: seq<Stop>, b: seq<Stop>)
    ensures Smooth(w, a + b) <==> Smooth(w, a) && Smooth(w, b)
  {
    assert forall s :: s in a + b <==> s in a || s in b;
  }

  lemma TripsParts(w: Walk, id: Id, kids: Forest, depth: nat, lit: bool, litUp: bool)
    requires id in w.nodes && Inside(w.nodes, kids)
    ensures var s := Stop(id, false, depth, kids, lit);
      Smooth(w, [s]) <==> !(Trips(w, s) && !Guarded(w, id)) && !GuardTrips(w, id, kids, depth, Flag(w, id, lit))
    ensures var s := Stop(id, true, depth, kids, litUp);
      Smooth(w, [s]) <==> !(Trips(w, s) && !Guarded(w, id))
  {}

  /** The four parts of a tour at one node: down, the children, up, the peers. */
  lemma JoinParts(w: Walk, f: Forest, depth: nat, lit: bool, lit2: bool, end: bool,
                  a: seq<Visit>, b: seq<Visit>, c: seq<Visit>, d: seq<Visit>)
    requires f.Tree? && Inside(w.nodes, f)
    requires Fits(w, a, Calls(w, f.id, false, depth)) && Fits(w, b, TourBelow(w, f.id, f.kids, depth))
    requires Fits(w, c, Calls(w, f.id, true, depth))
    requires var s := Stop(f.id, false, depth, f.kids, lit);
      Same(w, a, Calls(w, f.id, false, depth)) <==> !(Trips(w, s) && !Guarded(w, f.id))
    requires Same(w, a, Calls(w, f.id, false, depth)) ==>
      && a == Calls(w, f.id, false, depth)
      && Settled(w, b, TourBelow(w, f.id, f.kids, depth),
                 Smooth(w, StopsBelow(w, f.id, f.kids, depth, Flag(w, f.id, lit)))
                 && !GuardTrips(w, f.id, f.kids, depth, Flag(w, f.id, lit)),
                 lit2, LitKids(w, f.id, f.kids, depth, Flag(w, f.id, lit)))
    requires var s := Stop(f.id, true, depth, f.kids, lit2);
      Same(w, c, Calls(w, f.id, true, depth)) <==> !(Trips(w, s) && !Guarded(w, f.id))
    requires Same(w, c, Calls(w, f.id, true, depth)) ==> c == Calls(w, f.id, true, depth)
    requires Settled(w, d, Tour(w, f.peers, depth), Smooth(w, Stops(w, f.peers, depth, Flag(w, f.id, lit2))),
                     end, Lit(w, f.peers, depth, Flag(w, f.id, lit2)))
    ensures Settled(w, a + (b + (c + d)), Tour(w, f, depth), Smooth(w, Stops(w, f, depth, lit)),
                    end, Lit(w, f, depth, lit))
  {
    hide Fits, Same, Smooth, Trips, Calls, Descends, GuardTrips, Flag, StopsBelow, LitKids, Guarded;
    var m1 := Flag(w, f.id, lit);
    var m2 := LitKids(w, f.id, f.kids, depth, m1);
    var below, peers := StopsBelow(w, f.id, f.kids, depth, m1), Stops(w, f.peers, depth, Flag(w, f.id, m2));
    var down, up := [Stop(f.id, false, depth, f.kids, lit)], [Stop(f.id, true, depth, f.kids, m2)];
    TripsParts(w, f.id, f.kids, depth, lit, m2);
    SmoothJoin(w, down, below + (up + peers));
    SmoothJoin(w, below, up + peers);
    SmoothJoin(w, up, peers);
    FitsJoin(w, c, d, Calls(w, f.id, true, depth), Tour(w, f.peers, depth));
    FitsJoin(w, b, c + d, TourBelow(w, f.id, f.kids, depth), Calls(w, f.id, true, depth) + Tour(w, f.peers, depth));
    FitsJoin(w, a, b + (c + d), Calls(w, f.id, false, depth),
      TourBelow(w, f.id, f.kids, depth) + (Calls(w, f.id, true, depth) + Tour(w, f.peers, depth)));
  }

  lemma {:induction false} Refined(w: Walk, f: Forest, depth: nat, p: Progress) returns (made: seq<Visit>)
    requires Inside(w.nodes, f) && Steady(w) && p.stop.None?
    ensures var q := Recursive(w, f, depth, p);
      && q.stop.None? && q.trace == p.trace + made
      && Settled(w, made, Tour(w, f, depth), Smooth(w, Stops(w, f, depth, p.matches)),
                 q.matches, Lit(w, f, depth, p.matches))
    decreases f, 1
  {
    made := [];
    if f.Leaf? {
      Nothing(w, p.matches);
    } else {
      hide Turn, Steady, Fits, Same, Smooth, Trips, Calls, Descends, AllMatch, GuardTrips;
      var a := TurnAtStop(w, f.id, false, depth, p, f.kids);
      var (down, decision) := Turn(w, f.id, false, depth, p);
      var below, b := RefinedBelow(w, f, depth, down, decision == Continue && depth != w.maxDepth,
                                   Same(w, a, Calls(w, f.id, false, depth)));
      var c := TurnAtStop(w, f.id, true, depth, below, f.kids);
      var up := Turn(w, f.id, true, depth, below).0;
      var d := Refined(w, f.peers, depth, up);
      made := a + (b + (c + d));
      assert Recursive(w, f, depth, p) == Recursive(w, f.peers, depth, up);
      JoinParts(w, f, depth, p.matches, below.matches, Recursive(w, f, depth, p).matches, a, b, c, d);
      Append(p.trace, a, b, c, d);
    }
  }

  lemma {:induction false} RefinedBelow(w: Walk, f: Forest, depth: nat, down: Progress, visit: bool, same: bool)
    returns (below: Progress, made: seq<Visit>)
    requires f.Tree? && Inside(w.nodes, f) && Steady(w) && down.stop.None?
    requires visit ==> Descends(w, f.id, depth)
    requires same ==> (visit <==> Descends(w, f.id, depth) && !(Bare(w, f.id) && Guarded(w, f.id) && down.matches))
    ensures below == if visit then Recursive(w, f.kids, depth + 1, down) else down
    ensures below.stop.None? && below.trace == down.trace + made
    ensures Fits(w, made, TourBelow(w, f.id, f.kids, depth))
    ensures same ==>
      Settled(w, made, TourBelow(w, f.id, f.kids, depth),
              Smooth(w, StopsBelow(w, f.id, f.kids, depth, down.matches))
              && !GuardTrips(w, f.id, f.kids, depth, down.matches),
              below.matches, LitKids(w, f.id, f.kids, depth, down.matches))
    decreases f, 0
  {
    hide Steady, Smooth, Fits, Same, Trips;
    Nothing(w, down.matches);
    below, made := down, [];
    if visit {
      below := Recursive(w, f.kids, depth + 1, down);
      made := Refined(w, f.kids, depth + 1, down);
    }
  }

  /** A walk of steady callbacks is the tour, with no call missed and none too many, if and
      only if no stop trips. */
  lemma WalkIsTourExactly(w: Walk, f: Forest, depth: nat, p: Progress)
    requires Inside(w.nodes, f) && Steady(w) && p.stop.None?
    ensures Recursive(w, f, depth, p).trace == p.trace + Tour(w, f, depth)
       <==> Smooth(w, Stops(w, f, depth, p.matches))
  {
    hide Recursive, Tour, Steady, Smooth, Stops, AllMatch;
    var made := Refined(w, f, depth, p);
    TourMatches(w, f, depth);
    var q := Recursive(w, f, depth, p);
    if q.trace == p.trace + Tour(w, f, depth) {
      assert q.trace[|p.trace|..] == made && q.trace[|p.trace|..] == Tour(w, f, depth);
    }
  }

  lemma {:induction false} TypedSmooth(w: Walk, f: Forest, depth: nat, lit: bool)
    requires Inside(w.nodes, f) && Typed(w.nodes, f)
    ensures Smooth(w, Stops(w, f, depth, lit))
    decreases f
  {
    if f.Tree? {
      var m1 := Flag(w, f.id, lit);
      var m3 := Flag(w, f.id, LitKids(w, f.id, f.kids, depth, m1));
      TypedSmooth(w, f.kids, depth + 1, m1);
      TypedSmooth(w, f.peers, depth, m3);
      hide Stops, Lit, Tour;
    }
  }

  /** In particular, with an object on every node the walk is exactly the tour. */
  lemma WalkIsTour(w: Walk, f: Forest, depth: nat, p: Progress)
    requires Inside(w.nodes, f) && Typed(w.nodes, f) && Steady(w) && p.stop.None?
    ensures var q := Recursive(w, f, depth, p);
      q.stop.None? && q.trace == p.trace + Tour(w, f, depth)
  {
    hide Recursive, Tour, Steady, Smooth, Stops, Typed;
    TypedSmooth(w, f, depth, p.matches);
    var made := Refined(w, f, depth, p);
  }

  /** The flag of a stop is the match of the stop before it, or its flag when that one has
      no object. */
  ghost predicate Handed(w: Walk, stops: seq<Stop>, first: bool, last: bool) {
    && (forall i :: 0 <= i < |stops| ==> stops[i].id in w.nodes)
    && (if stops == [] then last == first
        else stops[0].lit == first && last == Flag(w, stops[|stops| - 1].id, stops[|stops| - 1].lit))
    && forall i :: 0 < i < |stops| ==> stops[i].lit == Flag(w, stops[i - 1].id, stops[i - 1].lit)
  }

  lemma HandedJoin(w: Walk, a: seq<Stop>, b: seq<Stop>, first: bool, mid: bool, last: bool)
    requires Handed(w, a, first, mid) && Handed(w, b, mid, last)
    ensures Handed(w, a + b, first, last)
  {
    var s := a + b;
    forall i | 0 < i < |s|
      ensures s[i].lit == Flag(w, s[i - 1].id, s[i - 1].lit)
    {
      if i < |a| {
        assert s[i] == a[i] && s[i - 1] == a[i - 1];
      } else if i > |a| {
        assert s[i] == b[i - |a|] && s[i - 1] == b[i - |a| - 1];
      }
    }
  }

  lemma {:induction false} StopsHanded(w: Walk, f: Forest, depth: nat, lit: bool)
    requires Inside(w.nodes, f)
    ensures Handed(w, Stops(w, f, depth, lit), lit, Lit(w, f, depth, lit))
    decreases f
  {
    if f.Tree? {
      var m1 := Flag(w, f.id, lit);
      var m2 := LitKids(w, f.id, f.kids, depth, m1);
      var m3 := Flag(w, f.id, m2);
      var below, peers := StopsBelow(w, f.id, f.kids, depth, m1), Stops(w, f.peers, depth, m3);
      StopsHanded(w, f.kids, depth + 1, m1);
      StopsHanded(w, f.peers, depth, m3);
      HandedJoin(w, [Stop(f.id, true, depth, f.kids, m2)], peers, m2, m3, Lit(w, f.peers, depth, m3));
      HandedJoin(w, below, [Stop(f.id, true, depth, f.kids, m2)] + peers, m1, m2, Lit(w, f.peers, depth, m3));
      HandedJoin(w, [Stop(f.id, false, depth, f.kids, lit)], below + ([Stop(f.id, true, depth, f.kids, m2)] + peers),
                 lit, m1, Lit(w, f.peers, depth, m3));
    }
  }

  ghost predicate BareBetween(w: Walk, stops: seq<Stop>, j: nat, i: nat)
    requires j < i <= |stops| && forall s :: s in stops ==> s.id in w.nodes
  {
    forall k :: j < k < i ==> Bare(w, stops[k].id)
  }

  /** So a stop of a fresh walk is lit exactly when a matching node comes before it with
      only nodes without an object in between. */
  lemma {:induction false} LitFromMatch(w: Walk, f: Forest, depth: nat, i: nat)
    requires Inside(w.nodes, f) && i < |Stops(w, f, depth, false)|
    ensures var stops := Stops(w, f, depth, false);
      && (forall s :: s in stops ==> s.id in w.nodes)
      && (stops[i].lit <==>
            exists j :: 0 <= j < i && Matching(w, stops[j].id) && BareBetween(w, stops, j, i))
  {
    var stops := Stops(w, f, depth, false);
    StopsHanded(w, f, depth, false);
    LitInList(w, stops, Lit(w, f, depth, false), i);
  }

  lemma {:induction false} LitInList(w: Walk, stops: seq<Stop>, last: bool, i: nat)
    requires Handed(w, stops, false, last) && i < |stops|
    ensures forall s :: s in stops ==> s.id in w.nodes
    ensures stops[i].lit <==>
      exists j :: 0 <= j < i && Matching(w, stops[j].id) && BareBetween(w, stops, j, i)
  {
    if i > 0 {
      LitInList(w, stops, last, i - 1);
      if stops[i].lit {
        if Bare(w, stops[i - 1].id) {
          var j :| 0 <= j < i - 1 && Matching(w, stops[j].id) && BareBetween(w, stops, j, i - 1);
          assert BareBetween(w, stops, j, i);
        } else {
          assert BareBetween(w, stops, i - 1, i);
        }
      }
    }
  }

  /** So the walk calls for a node that does not match: two peers, the first of type 5
      and the second without an object, walked for type 5. */
  lemma StaleVisit(down: Callback)
    requires forall t: seq<Visit>, id: Id, d: nat :: down(t, id, d) == Continue
    ensures
      var nodes: Nodes := map[
        1 := Node([], Some(0), None, Some(2), Some(5), false),
        2 := Node([], Some(0), None, None, None, false)];
      var w := Walk(nodes, Some(down), None, {5}, 1, false);
      var f := Tree(1, Leaf, Tree(2, Leaf, Leaf));
      && Linked(nodes, Some(1), 0, f) && !Matching(w, 2)
      && Recursive(w, f, 1, Progress([], false, None)).trace == [Down(1, 1), Down(2, 1)]
  {
    var nodes: Nodes := map[
      1 := Node([], Some(0), None, Some(2), Some(5), false),
      2 := Node([], Some(0), None, None, None, false)];
    var w := Walk(nodes, Some(down), None, {5}, 1, false);
    var second := Tree(2, Leaf, Leaf);
    var f := Tree(1, Leaf, second);
    var p0 := Progress([], false, None);
    var p1 := Turn(w, 1, false, 1, p0).0;
    assert p1 == Progress([Down(1, 1)], true, None);
    assert Recursive(w, f, 1, p0) == Finish(w, f, 1, p1);
    assert Turn(w, 1, true, 1, p1).0 == p1;
    var p2 := Turn(w, 2, false, 1, p1).0;
    assert p2 == Progress([Down(1, 1), Down(2, 1)], true, None);
    assert Recursive(w, second, 1, p1) == Finish(w, second, 1, p2);
    assert Turn(w, 2, true, 1, p2).0 == p2;
    assert Recursive(w, Leaf, 1, p2) == p2;
  }

  /** And it misses a node that matches: beside a match, a temporary node without an object
      is taken for a temporary match, and the permanent match below it is never visited. */
  lemma MissedVisit(down: Callback)
    requires forall t: seq<Visit>, id: Id, d: nat :: down(t, id, d) == Continue
    ensures
      var nodes: Nodes := map[
        1 := Node([], Some(0), None, Some(2), Some(5), false),
        2 := Node([], Some(0), Some(3), None, None, true),
        3 := Node([], Some(2), None, None, Some(5), false)];
      var w := Walk(nodes, Some(down), None, {5}, 9, true);
      var f := Tree(1, Leaf, Tree(2, Tree(3, Leaf, Leaf), Leaf));
      && Linked(nodes, Some(1), 0, f) && Tour(w, f, 1) == [Down(1, 1), Down(3, 2)]
      && Recursive(w, f, 1, Progress([], false, None)).trace == [Down(1, 1)]
  {
    var nodes: Nodes := map[
      1 := Node([], Some(0), None, Some(2), Some(5), false),
      2 := Node([], Some(0), Some(3), None, None, true),
      3 := Node([], Some(2), None, None, Some(5), false)];
    var w := Walk(nodes, Some(down), None, {5}, 9, true);
    var third := Tree(3, Leaf, Leaf);
    var second := Tree(2, third, Leaf);
    var f := Tree(1, Leaf, second);
    assert Linked(nodes, Some(3), 2, third) && Linked(nodes, Some(2), 0, second);
    assert Tour(w, third, 2) == [Down(3, 2)] && Tour(w, second, 1) == [Down(3, 2)];
    var p0 := Progress([], false, None);
    var p1 := Turn(w, 1, false, 1, p0).0;
    assert p1 == Progress([Down(1, 1)], true, None) && Turn(w, 1, true, 1, p1).0 == p1;
    assert Recursive(w, f, 1, p0) == Finish(w, f, 1, p1);
    assert Turn(w, 2, false, 1, p1) == (p1, NextPeer) && Turn(w, 2, true, 1, p1).0 == p1;
    assert Recursive(w, second, 1, p1) == Finish(w, second, 1, p1);
  }
}
