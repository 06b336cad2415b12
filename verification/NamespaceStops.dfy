/** Walks that callbacks end (`external/uacpi/source/namespace.c`): the calls are the tour up
    to the first answer that ends it, whatever the callbacks answer. */
module NamespaceStops {
  import opened Machine
  import opened Namespace
  import opened NamespaceWalk

  /** Callbacks that answer from the node and the depth alone, also by ending the walk. */
  ghost predicate Stateless(w: Walk) {
    && (w.descending.Some? ==> forall t: seq<Visit>, id: Id, depth: nat ::
          w.descending.value(t, id, depth) == w.descending.value([], id, depth))
    && (w.ascending.Some? ==> forall t: seq<Visit>, id: Id, depth: nat ::
          w.ascending.value(t, id, depth) == w.ascending.value([], id, depth))
  }

  /** What a callback answers to a call when it looks at nothing else. */
  function Reply(w: Walk, v: Visit): Decision {
    match CallbackOf(w, v)
    case None => Continue
    case Some(callback) => callback([], v.id, v.depth)
  }

  /** The calls up to and with the first one whose answer ends the walk. */
  function UpTo(w: Walk, t: seq<Visit>): (r: seq<Visit>)
  {
    if t == [] then []
    else if Ending(t[0], Reply(w, t[0])) then [t[0]]
    else [t[0]] + UpTo(w, t[1..])
  }

  ghost predicate NoEnd(w: Walk, t: seq<Visit>) {
    forall i :: 0 <= i < |t| ==> !Ending(t[i], Reply(w, t[i]))
  }

  /** What that means by place: none of the calls before the last one ends the walk, and
      only such an end cuts anything off. */
  lemma {:induction false} UpToMeans(w: Walk, t: seq<Visit>)
    ensures var r := UpTo(w, t);
      && r <= t && NoEnd(w, r[..if r == [] then 0 else |r| - 1])
      && (r == t || (r != [] && Ending(r[|r| - 1], Reply(w, r[|r| - 1]))))
      && (NoEnd(w, t) ==> r == t)
  {
    if t != [] && !Ending(t[0], Reply(w, t[0])) {
      UpToMeans(w, t[1..]);
      var r, rest := UpTo(w, t), UpTo(w, t[1..]);
      assert t == [t[0]] + t[1..] && r == [t[0]] + rest;
      assert forall i :: 0 < i < |r| ==> r[i] == rest[i - 1];
      assert rest != [] ==> r[..|r| - 1] == [t[0]] + rest[..|rest| - 1];
      if NoEnd(w, t) {
        assert forall i :: 0 <= i < |t| - 1 ==> t[1..][i] == t[i + 1];
      }
    }
  }

  lemma {:induction false} UpToConcat(w: Walk, a: seq<Visit>, b: seq<Visit>)
    ensures UpTo(w, a + b) == if NoEnd(w, a) then a + UpTo(w, b) else UpTo(w, a)
    ensures NoEnd(w, a + b) <==> NoEnd(w, a) && NoEnd(w, b)
  {
    assert NoEnd(w, a + b) <==> NoEnd(w, a) && NoEnd(w, b) by {
      assert forall i :: 0 <= i < |a| ==> (a + b)[i] == a[i];
      assert forall i :: 0 <= i < |b| ==> (a + b)[|a| + i] == b[i];
    }
    if a == [] {
      assert a + b == b;
    } else {
      UpToConcat(w, a[1..], b);
      assert (a + b)[0] == a[0] && (a + b)[1..] == a[1..] + b;
      assert a == [a[0]] + a[1..];
      assert NoEnd(w, a) <==> !Ending(a[0], Reply(w, a[0])) && NoEnd(w, a[1..]) by {
        assert forall i :: 0 <= i < |a| - 1 ==> a[1..][i] == a[i + 1];
        assert forall i :: 1 <= i < |a| ==> a[i] == a[1..][i - 1];
      }
      Associative([a[0]], a[1..], UpTo(w, b));
    }
  }

  // ----- the same walk, never ended -----

  function Calm(up: bool, answer: Decision): Decision {
    if answer == Break || (!up && answer == Invalid) then NextPeer else answer
  }

  function CalmCallback(up: bool, callback: Option<Callback>): Option<Callback> {
    match callback
    case None => None
    case Some(c) => Some((t: seq<Visit>, id: Id, depth: nat) => Calm(up, c(t, id, depth)))
  }

  /** The walk with its ending answers taken for "next peer". */
  function Unended(w: Walk): Walk {
    w.(descending := CalmCallback(false, w.descending), ascending := CalmCallback(true, w.ascending))
  }

  lemma UnendedIsSteady(w: Walk)
    requires Stateless(w)
    ensures Steady(Unended(w))
  {}

  /** A turn of the two walks. */
  lemma SameTurn(w: Walk, id: Id, up: bool, depth: nat, p: Progress) returns (made: seq<Visit>)
    requires id in w.nodes && Stateless(w) && p.stop.None?
    ensures id in Unended(w).nodes
    ensures var (q, d), (q', d') := Turn(w, id, up, depth, p), Turn(Unended(w), id, up, depth, p);
      && q'.stop.None? && q'.trace == p.trace + made && q.trace == q'.trace
      && d' == Calm(up, d) && (q.stop.Some? <==> d == Break)
      && (q.stop.None? ==> q == q')
      && UpTo(w, made) == made && (NoEnd(w, made) <==> d != Break && (up || d != Invalid))
  {
    var v := if up then Up(id, depth) else Down(id, depth);
    var (q, d) := Turn(w, id, up, depth, p);
    if |q.trace| > |p.trace| {
      made := [v];
      assert d == Reply(w, v);
      assert made[0] == v;
    } else {
      made := [];
      assert p.trace + made == p.trace;
    }
  }

  /** What `q` is to the unended `q'` once `made` was called after `p`. */
  ghost predicate CutOf(w: Walk, p: Progress, made: seq<Visit>, q: Progress, q': Progress) {
    && q'.stop.None? && q'.trace == p.trace + made && q.trace == p.trace + UpTo(w, made)
    && (q.stop.None? <==> NoEnd(w, made)) && (NoEnd(w, made) ==> q == q')
  }

  lemma CutTwice(w: Walk, p: Progress, a: seq<Visit>, m: Progress, m': Progress, b: seq<Visit>, q: Progress,
                 q': Progress)
    requires CutOf(w, p, a, m, m')
    requires if NoEnd(w, a) then CutOf(w, m', b, q, q') else q == m && q'.stop.None? && q'.trace == m'.trace + b
    ensures CutOf(w, p, a + b, q, q')
  {
    UpToConcat(w, a, b);
    Associative(p.trace, a, b);
    Associative(p.trace, a, UpTo(w, b));
  }

  lemma CutNothing(w: Walk, p: Progress)
    requires p.stop.None?
    ensures CutOf(w, p, [], p, p)
  {
    assert p.trace + [] == p.trace;
  }

  /** Ended or not, the walks make the same calls up to the end. */
  lemma {:induction false} Cut(w: Walk, f: Forest, depth: nat, p: Progress) returns (made: seq<Visit>)
    requires Inside(w.nodes, f) && Stateless(w) && p.stop.None?
    ensures CutOf(w, p, made, Recursive(w, f, depth, p), Recursive(Unended(w), f, depth, p))
    decreases f, 1
  {
    hide Turn, Stateless, CutOf, NoEnd;
    var u := Unended(w);
    if f.Leaf? {
      made := [];
      CutNothing(w, p);
    } else {
      var a := SameTurn(w, f.id, false, depth, p);
      var (down, d) := Turn(w, f.id, false, depth, p);
      var (down', d') := Turn(u, f.id, false, depth, p);
      var m := if !down.stop.Some? && d == Invalid then down.(stop := Some(InvalidArgument)) else down;
      TurnCut(w, p, a, m, down');
      var b, below' := [], down';
      if d' == Continue && depth != w.maxDepth {
        b := Cut(w, f.kids, depth + 1, down');
        below' := Recursive(u, f.kids, depth + 1, down');
      } else {
        CutNothing(w, down');
      }
      var below := if m.stop.Some? then m else if d' == Continue && depth != w.maxDepth
        then Recursive(w, f.kids, depth + 1, down) else down;
      CutFacts(w, down', b, if d' == Continue && depth != w.maxDepth
        then Recursive(w, f.kids, depth + 1, down') else down', below');
      CutTwice(w, p, a, m, down', b, below, below');
      made := CutRest(w, f, depth, p, a + b, below, below');
    }
  }

  lemma TurnCut(w: Walk, p: Progress, a: seq<Visit>, m: Progress, m': Progress)
    requires m'.stop.None? && m'.trace == p.trace + a && m.trace == m'.trace && UpTo(w, a) == a
    requires (m.stop.None? <==> NoEnd(w, a)) && (m.stop.None? ==> m == m')
    ensures CutOf(w, p, a, m, m')
  {}

  lemma CutFacts(w: Walk, p: Progress, made: seq<Visit>, q: Progress, q': Progress)
    requires CutOf(w, p, made, q, q')
    ensures q'.stop.None? && q'.trace == p.trace + made && (q.stop.None? <==> NoEnd(w, made))
    ensures q.stop.None? ==> q == q'
  {}

  /** The ascending visit and the peers. */
  lemma {:induction false} CutRest(w: Walk, f: Forest, depth: nat, p: Progress, before: seq<Visit>,
                                   m: Progress, m': Progress) returns (made: seq<Visit>)
    requires f.Tree? && Inside(w.nodes, f) && Stateless(w) && CutOf(w, p, before, m, m')
    ensures CutOf(w, p, made, Finish(w, f, depth, m), Finish(Unended(w), f, depth, m'))
    decreases f, 0
  {
    hide Turn, Stateless, CutOf, NoEnd;
    var u := Unended(w);
    CutFacts(w, p, before, m, m');
    var c := SameTurn(w, f.id, true, depth, m');
    var up, up' := Turn(w, f.id, true, depth, m').0, Turn(u, f.id, true, depth, m').0;
    TurnCut(w, m', c, up, up');
    var e := Cut(w, f.peers, depth, up');
    CutFacts(w, up', e, Recursive(w, f.peers, depth, up'), Recursive(u, f.peers, depth, up'));
    var last := if up.stop.Some? then up else Recursive(w, f.peers, depth, up);
    CutTwice(w, m', c, up, up', e, last, Recursive(u, f.peers, depth, up'));
    CutFacts(w, m', c + e, last, Recursive(u, f.peers, depth, up'));
    made := before + (c + e);
    CutTwice(w, p, before, m, m', c + e, if m.stop.Some? then m else last, Recursive(u, f.peers, depth, up'));
  }

  lemma {:induction false} SameTour(w: Walk, f: Forest, depth: nat)
    requires Inside(w.nodes, f)
    ensures Inside(Unended(w).nodes, f) && Tour(Unended(w), f, depth) == Tour(w, f, depth)
    decreases f
  {
    if f.Tree? {
      SameTour(w, f.kids, depth + 1);
      SameTour(w, f.peers, depth);
    }
  }

  /** Wherever the walk that is never ended is the tour, which is decided by the tree, the
      calls are the tour up to the first one whose answer ends the walk. */
  lemma EndedWalk(w: Walk, f: Forest, depth: nat, p: Progress)
    requires Inside(w.nodes, f) && Stateless(w) && p.stop.None?
    requires Inside(Unended(w).nodes, f) && Smooth(Unended(w), NamespaceWalk.Stops(Unended(w), f, depth, p.matches))
    ensures var q := Recursive(w, f, depth, p);
      && q.trace == p.trace + UpTo(w, Tour(w, f, depth))
      && (q.stop.None? <==> NoEnd(w, Tour(w, f, depth)))
  {
    hide Recursive, Tour, Steady, Smooth, NamespaceWalk.Stops, Stateless, UpTo, NoEnd;
    var made := Cut(w, f, depth, p);
    UnendedIsSteady(w);
    WalkIsTourExactly(Unended(w), f, depth, p);
    SameTour(w, f, depth);
    var q' := Recursive(Unended(w), f, depth, p);
    assert q'.trace[|p.trace|..] == made && q'.trace[|p.trace|..] == Tour(w, f, depth);
  }

  /** So on every tree whose nodes all have objects. */
  lemma EndedTour(w: Walk, f: Forest, depth: nat, p: Progress)
    requires Inside(w.nodes, f) && Typed(w.nodes, f) && Stateless(w) && p.stop.None?
    ensures var q := Recursive(w, f, depth, p);
      && q.trace == p.trace + UpTo(w, Tour(w, f, depth))
      && (q.stop.None? <==> NoEnd(w, Tour(w, f, depth)))
  {
    TypedSmooth(Unended(w), f, depth, p.matches);
    EndedWalk(w, f, depth, p);
  }

  // ----- callbacks with a memory -----

  function Place(t: seq<Visit>, v: Visit): (i: nat)
    ensures i <= |t| && (i < |t| ==> t[i] == v) && forall j :: 0 <= j < i ==> t[j] != v
  {
    if t == [] then 0 else if t[0] == v then 0 else 1 + Place(t[1..], v)
  }

  /** What was answered to a call in the walk that made the calls `t`. */
  function Recall(w: Walk, t: seq<Visit>, v: Visit): Decision {
    var i := Place(t, v);
    if i < |t| && CallbackOf(w, v).Some? then Answer(w, t, i) else Continue
  }

  /** The walk by what was answered in it. */
  function Recorded(w: Walk, t: seq<Visit>): Walk {
    w.(descending := if w.descending.None? then None
                     else Some((_, id: Id, depth: nat) => Recall(w, t, Down(id, depth))),
       ascending := if w.ascending.None? then None
                    else Some((_, id: Id, depth: nat) => Recall(w, t, Up(id, depth))))
  }

  ghost predicate Once(t: seq<Visit>) { forall i, j :: 0 <= i < j < |t| ==> t[i] != t[j] }

  lemma SameAnswer(w: Walk, t: seq<Visit>, id: Id, up: bool, depth: nat, p: Progress)
    requires id in w.nodes && Once(t) && Turn(w, id, up, depth, p).0.trace <= t
    ensures Turn(Recorded(w, t), id, up, depth, p) == Turn(w, id, up, depth, p)
  {
    var q := Turn(w, id, up, depth, p).0;
    if |q.trace| > |p.trace| {
      var v := if up then Up(id, depth) else Down(id, depth);
      assert q.trace == p.trace + [v] && q.trace[|p.trace|] == v;
      assert t[|p.trace|] == v && t[..|p.trace|] == p.trace;
      assert Place(t, v) == |p.trace|;
    }
  }

  lemma {:induction false} Grows(w: Walk, f: Forest, depth: nat, p: Progress)
    requires Inside(w.nodes, f)
    ensures p.trace <= Recursive(w, f, depth, p).trace
    decreases f, 1
  {
    if p.stop.None? && f.Tree? {
      var (down, decision) := Turn(w, f.id, false, depth, p);
      if down.stop.None? && decision != Invalid {
        Grows(w, f.kids, depth + 1, down);
        FinishGrows(w, f, depth,
          if decision == Continue && depth != w.maxDepth then Recursive(w, f.kids, depth + 1, down) else down);
      }
    }
  }

  lemma {:induction false} FinishGrows(w: Walk, f: Forest, depth: nat, p: Progress)
    requires f.Tree? && Inside(w.nodes, f)
    ensures p.trace <= Finish(w, f, depth, p).trace
    decreases f, 0
  {
    if p.stop.None? {
      Grows(w, f.peers, depth, Turn(w, f.id, true, depth, p).0);
    }
  }

  lemma {:induction false} SameWalk(w: Walk, t: seq<Visit>, f: Forest, depth: nat, p: Progress)
    requires Inside(w.nodes, f) && Once(t) && Recursive(w, f, depth, p).trace <= t
    ensures Inside(Recorded(w, t).nodes, f) && Recursive(Recorded(w, t), f, depth, p) == Recursive(w, f, depth, p)
    decreases f, 1
  {
    hide Turn, Once, Recall;
    if p.stop.None? && f.Tree? {
      var (down, decision) := Turn(w, f.id, false, depth, p);
      var below := if decision == Continue && depth != w.maxDepth then Recursive(w, f.kids, depth + 1, down) else down;
      Grows(w, f.kids, depth + 1, down);
      FinishGrows(w, f, depth, below);
      SameAnswer(w, t, f.id, false, depth, p);
      if down.stop.None? && decision != Invalid {
        if decision == Continue && depth != w.maxDepth {
          SameWalk(w, t, f.kids, depth + 1, down);
        }
        SameFinish(w, t, f, depth, below);
      }
    }
  }

  lemma {:induction false} SameFinish(w: Walk, t: seq<Visit>, f: Forest, depth: nat, p: Progress)
    requires f.Tree? && Inside(w.nodes, f) && Once(t) && Finish(w, f, depth, p).trace <= t
    ensures Inside(Recorded(w, t).nodes, f) && Finish(Recorded(w, t), f, depth, p) == Finish(w, f, depth, p)
    decreases f, 0
  {
    hide Turn, Once, Recall;
    if p.stop.None? {
      var up := Turn(w, f.id, true, depth, p).0;
      Grows(w, f.peers, depth, up);
      SameAnswer(w, t, f.id, true, depth, p);
      if up.stop.None? {
        SameWalk(w, t, f.peers, depth, up);
      }
    }
  }

  // ----- no call is made twice -----

  /** The calls after `p`: each once, for nodes of `f`. */
  ghost predicate OnceIn(p: seq<Visit>, q: seq<Visit>, ids: seq<Id>) {
    p <= q && Once(q[|p|..]) && forall v :: v in q[|p|..] ==> v.id in ids
  }

  lemma OnceJoin(p: seq<Visit>, m: seq<Visit>, q: seq<Visit>, a: seq<Id>, b: seq<Id>)
    requires OnceIn(p, m, a) && OnceIn(m, q, b)
    requires forall v, u :: v in m[|p|..] && u in q[|m|..] ==> v != u
    ensures OnceIn(p, q, a + b)
  {
    var s, s1, s2 := q[|p|..], m[|p|..], q[|m|..];
    assert s == s1 + s2;
    OnceBoth(s1, s2);
  }

  lemma OnceBoth(a: seq<Visit>, b: seq<Visit>)
    requires Once(a) && Once(b) && forall v, u :: v in a && u in b ==> v != u
    ensures Once(a + b)
  {
    forall i, j | 0 <= i < j < |a + b|
      ensures (a + b)[i] != (a + b)[j]
    {
      if i < |a| <= j {
        assert a[i] in a && b[j - |a|] in b;
      } else if |a| <= i {
        assert b[i - |a|] != b[j - |a|];
      }
    }
  }

  lemma OnceTurn(w: Walk, id: Id, up: bool, depth: nat, p: Progress)
    requires id in w.nodes
    ensures var q := Turn(w, id, up, depth, p).0;
      OnceIn(p.trace, q.trace, [id]) && forall v :: v in q.trace[|p.trace|..] ==> v.id == id && v.Up? == up
  {
    var q := Turn(w, id, up, depth, p).0;
    assert q.trace[|p.trace|..] == [] || q.trace[|p.trace|..] == [if up then Up(id, depth) else Down(id, depth)];
  }

  lemma OnceNothing(p: seq<Visit>, ids: seq<Id>)
    ensures OnceIn(p, p, ids)
  {
    assert p[|p|..] == [];
  }

  lemma OnceWider(p: seq<Visit>, q: seq<Visit>, a: seq<Id>, b: seq<Id>)
    requires OnceIn(p, q, a) && forall x :: x in a ==> x in b
    ensures OnceIn(p, q, b)
  {}

  lemma {:induction false} OnceWalk(w: Walk, f: Forest, depth: nat, p: Progress)
    requires Inside(w.nodes, f) && Distinct(Ids(f))
    ensures OnceIn(p.trace, Recursive(w, f, depth, p).trace, Ids(f))
    decreases f, 1
  {
    var out := Recursive(w, f, depth, p);
    OnceNothing(p.trace, Ids(f));
    if p.stop.None? && f.Tree? {
      var kids, peers := Ids(f.kids), Ids(f.peers);
      DistinctParts([f.id], kids, peers);
      var (down, decision) := Turn(w, f.id, false, depth, p);
      OnceTurn(w, f.id, false, depth, p);
      hide Turn, OnceIn, Distinct;
      OnceWider(p.trace, down.trace, [f.id], Ids(f));
      if down.stop.None? && decision != Invalid {
        var visit := decision == Continue && depth != w.maxDepth;
        var below := if visit then Recursive(w, f.kids, depth + 1, down) else down;
        if visit {
          OnceWalk(w, f.kids, depth + 1, down);
        } else {
          OnceNothing(down.trace, kids);
        }
        OnceFinish(w, f, depth, below);
        OnceFour(p.trace, down.trace, below.trace, out.trace, f.id, kids, peers);
      }
    }
  }

  lemma OnceFour(p: seq<Visit>, d: seq<Visit>, b: seq<Visit>, q: seq<Visit>, id: Id, kids: seq<Id>, peers: seq<Id>)
    requires OnceIn(p, d, [id]) && (forall v :: v in d[|p|..] ==> v.Down?)
    requires OnceIn(d, b, kids) && OnceIn(b, q, [id] + peers)
    requires forall v :: v in q[|b|..] && v.id == id ==> v.Up?
    requires id !in kids && id !in peers && forall x :: x in kids ==> x !in peers
    ensures OnceIn(p, q, [id] + kids + peers)
  {
    OnceJoin(p, d, b, [id], kids);
    assert b[|p|..] == d[|p|..] + b[|d|..];
    forall v, u | v in b[|p|..] && u in q[|b|..]
      ensures v != u
    {
      if v in d[|p|..] {
        assert v.id in [id];
      }
    }
    OnceJoin(p, b, q, [id] + kids, [id] + peers);
    OnceWider(p, q, [id] + kids + ([id] + peers), [id] + kids + peers);
  }

  lemma {:induction false} OnceFinish(w: Walk, f: Forest, depth: nat, p: Progress)
    requires f.Tree? && Inside(w.nodes, f) && Distinct(Ids(f))
    ensures OnceIn(p.trace, Finish(w, f, depth, p).trace, [f.id] + Ids(f.peers))
    ensures forall v :: v in Finish(w, f, depth, p).trace[|p.trace|..] && v.id == f.id ==> v.Up?
    decreases f, 0
  {
    var kids, peers := Ids(f.kids), Ids(f.peers);
    DistinctParts([f.id], kids, peers);
    OnceNothing(p.trace, [f.id] + peers);
    if p.stop.None? {
      var up := Turn(w, f.id, true, depth, p).0;
      OnceTurn(w, f.id, true, depth, p);
      OnceWider(p.trace, up.trace, [f.id], [f.id] + peers);
      if up.stop.None? {
        var q := Recursive(w, f.peers, depth, up);
        OnceWalk(w, f.peers, depth, up);
        hide Turn, Distinct;
        OnceJoin(p.trace, up.trace, q.trace, [f.id], peers);
        assert q.trace[|p.trace|..] == up.trace[|p.trace|..] + q.trace[|up.trace|..];
      }
    }
  }

  /** The walk of any callbacks whatever is that of callbacks that answer as they did, and so
      the tour by those answers, up to the one that ends it. */
  lemma AnyWalk(w: Walk, f: Forest, depth: nat)
    requires Inside(w.nodes, f) && Typed(w.nodes, f) && Distinct(Ids(f))
    ensures var p := Progress([], false, None);
      var q := Recursive(w, f, depth, p);
      var r := Recorded(w, q.trace);
      && Inside(r.nodes, f) && q == Recursive(r, f, depth, p)
      && q.trace == UpTo(r, Tour(r, f, depth)) && (q.stop.None? <==> NoEnd(r, Tour(r, f, depth)))
      && forall i :: 0 <= i < |q.trace| && CallbackOf(w, q.trace[i]).Some? ==>
           Reply(r, q.trace[i]) == Answer(w, q.trace, i)
  {
    hide Recursive, Tour, UpTo, NoEnd, Stateless, Recall, Typed, Distinct, Place, Answer, Reply, Recorded;
    var p := Progress([], false, None);
    var q := Recursive(w, f, depth, p);
    OnceWalk(w, f, depth, p);
    assert q.trace[|p.trace|..] == q.trace;
    SameWalk(w, q.trace, f, depth, p);
    RecordedStateless(w, q.trace);
    var r := Recorded(w, q.trace);
    EndedTour(r, f, depth, p);
    assert [] + UpTo(r, Tour(r, f, depth)) == UpTo(r, Tour(r, f, depth));
    forall i | 0 <= i < |q.trace| && CallbackOf(w, q.trace[i]).Some?
      ensures Reply(r, q.trace[i]) == Answer(w, q.trace, i)
    {
      RecordedReply(w, q.trace, i);
    }
  }

  lemma RecordedStateless(w: Walk, t: seq<Visit>)
    ensures Stateless(Recorded(w, t)) && Recorded(w, t).nodes == w.nodes
  {
    hide Recall;
  }

  lemma RecordedReply(w: Walk, t: seq<Visit>, i: nat)
    requires Once(t) && i < |t| && CallbackOf(w, t[i]).Some?
    ensures Reply(Recorded(w, t), t[i]) == Answer(w, t, i)
  {
    assert Place(t, t[i]) == i;
  }
}
