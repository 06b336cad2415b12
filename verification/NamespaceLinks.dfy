/** Installing and uninstalling namespace nodes (`external/uacpi/source/namespace.c`):
    the relinking that keeps the namespace a tree in which every node has its own path. */
module NamespaceLinks {
  import opened Machine
  import opened Namespace
  import opened NamespacePath
  import NamespaceWalk

  // ----- shapes without sharing -----

  /** No node occurs twice. */
  ghost predicate Tidy(f: Forest) {
    match f
    case Leaf => true
    case Tree(x, kids, peers) =>
      && x !in Ids(kids) && x !in Ids(peers) && (forall y :: y in Ids(kids) ==> y !in Ids(peers))
      && Tidy(kids) && Tidy(peers)
  }

  /** The nodes of the outermost list. */
  function Tops(f: Forest): seq<Id> {
    match f
    case Leaf => []
    case Tree(x, _, peers) => [x] + Tops(peers)
  }

  lemma {:induction false} TopsInside(f: Forest)
    ensures forall x :: x in Tops(f) ==> x in Ids(f)
  {
    if f.Tree? {
      TopsInside(f.peers);
    }
  }

  lemma {:induction false} SearchInside(f: Forest, id: Id)
    ensures forall x :: x in Ids(Search(f, id)) ==> x in Ids(f)
    ensures Tidy(f) ==> Tidy(Search(f, id)) && id !in Ids(Search(f, id))
  {
    if f.Tree? {
      SearchInside(f.kids, id);
      SearchInside(f.peers, id);
    }
  }

  // ----- replacing one child list -----

  /** The shape with the children of `parent` replaced. */
  function WithKids(f: Forest, parent: Id, k: Forest): Forest {
    match f
    case Leaf => Leaf
    case Tree(x, kids, peers) =>
      if x == parent then Tree(x, k, peers)
      else Tree(x, WithKids(kids, parent, k), WithKids(peers, parent, k))
  }

  function Reshaped(f: Forest, root: Id, parent: Id, k: Forest): Forest {
    if parent == root then k else WithKids(f, parent, k)
  }

  /** The same links at `x`. */
  ghost predicate SameLinks(a: Nodes, b: Nodes, x: Id) {
    x in a && x in b && b[x].parent == a[x].parent && b[x].child == a[x].child && b[x].next == a[x].next
  }

  lemma {:induction false} LinkedFrame(a: Nodes, b: Nodes, first: Option<Id>, parent: Id, f: Forest)
    requires Linked(a, first, parent, f) && forall x :: x in Ids(f) ==> SameLinks(a, b, x)
    ensures Linked(b, first, parent, f)
    decreases f
  {
    if f.Tree? {
      assert f.id in Ids(f);
      LinkedFrame(a, b, a[f.id].child, f.id, f.kids);
      LinkedFrame(a, b, a[f.id].next, parent, f.peers);
    }
  }

  lemma {:induction false} LinkedIds(a: Nodes, first: Option<Id>, parent: Id, f: Forest)
    requires Linked(a, first, parent, f)
    ensures forall x :: x in Ids(f) ==> x in a
    decreases f
  {
    if f.Tree? {
      LinkedIds(a, a[f.id].child, f.id, f.kids);
      LinkedIds(a, a[f.id].next, parent, f.peers);
    }
  }

  lemma {:induction false} WithKidsNone(f: Forest, parent: Id, k: Forest)
    requires parent !in Ids(f)
    ensures WithKids(f, parent, k) == f && Search(f, parent) == Leaf
    decreases f
  {
    if f.Tree? {
      WithKidsNone(f.kids, parent, k);
      WithKidsNone(f.peers, parent, k);
    }
  }

  /** Relinking one child list relinks the whole tree. */
  lemma {:induction false} WithKidsLinked(a: Nodes, b: Nodes, first: Option<Id>, above: Id, f: Forest, parent: Id,
                                           k: Forest)
    requires Linked(a, first, above, f) && Tidy(f) && parent in Ids(f)
    requires parent in b && Linked(b, b[parent].child, parent, k)
    requires parent in a && b[parent].parent == a[parent].parent && b[parent].next == a[parent].next
    requires forall x :: x in Ids(f) && x != parent && x !in Ids(Search(f, parent)) ==> SameLinks(a, b, x)
    ensures Linked(b, first, above, WithKids(f, parent, k))
    decreases f
  {
    SearchInside(f.kids, parent);
    SearchInside(f.peers, parent);
    assert f.id in Ids(f);
    if f.id == parent {
      LinkedFrame(a, b, a[f.id].next, above, f.peers);
      WithKidsNone(f.peers, parent, k);
    } else if parent in Ids(f.kids) {
      assert SameLinks(a, b, f.id);
      WithKidsLinked(a, b, a[f.id].child, f.id, f.kids, parent, k);
      WithKidsNone(f.peers, parent, k);
      LinkedFrame(a, b, a[f.id].next, above, f.peers);
    } else {
      assert SameLinks(a, b, f.id);
      WithKidsNone(f.kids, parent, k);
      LinkedFrame(a, b, a[f.id].child, f.id, f.kids);
      WithKidsLinked(a, b, a[f.id].next, above, f.peers, parent, k);
    }
  }

  /** Which nodes the new shape holds, and that it is still free of sharing. */
  lemma {:induction false} WithKidsTidy(f: Forest, parent: Id, k: Forest)
    requires Tidy(f) && Tidy(k) && parent in Ids(f)
    requires forall x :: x in Ids(k) ==> x in Ids(Search(f, parent)) || x !in Ids(f)
    ensures Tidy(WithKids(f, parent, k))
    ensures forall x :: x in Ids(WithKids(f, parent, k)) <==>
      (x in Ids(f) && x !in Ids(Search(f, parent))) || x in Ids(k)
    decreases f
  {
    SearchInside(f.kids, parent);
    SearchInside(f.peers, parent);
    if f.id == parent {
    } else if parent in Ids(f.kids) {
      WithKidsTidy(f.kids, parent, k);
      WithKidsNone(f.peers, parent, k);
    } else {
      WithKidsNone(f.kids, parent, k);
      WithKidsTidy(f.peers, parent, k);
    }
  }

  // ----- appending and dropping a peer -----

  function Appended(f: Forest, id: Id): Forest {
    match f
    case Leaf => Tree(id, Leaf, Leaf)
    case Tree(x, kids, peers) => Tree(x, kids, Appended(peers, id))
  }

  function LastPeer(f: Forest): Option<Id> {
    match f
    case Leaf => None
    case Tree(x, _, peers) => if peers.Leaf? then Some(x) else LastPeer(peers)
  }

  lemma {:induction false} LastPeerInside(f: Forest)
    ensures f.Tree? ==> LastPeer(f).Some? && LastPeer(f).value in Ids(f)
  {
    if f.Tree? {
      LastPeerInside(f.peers);
    }
  }

  /** The same links at `x` but for the next peer, which is `next`. */
  ghost predicate NextSet(a: Nodes, b: Nodes, x: Id, next: Option<Id>) {
    x in a && x in b && b[x].parent == a[x].parent && b[x].child == a[x].child && b[x].next == next
  }

  lemma {:induction false} AppendLinked(a: Nodes, b: Nodes, first: Option<Id>, parent: Id, f: Forest, id: Id)
    requires Linked(a, first, parent, f) && Tidy(f) && id !in Ids(f)
    requires Linked(b, Some(id), parent, Tree(id, Leaf, Leaf))
    requires forall x :: x in Ids(f) && LastPeer(f) != Some(x) ==> SameLinks(a, b, x)
    requires f.Tree? && LastPeer(f).Some? ==> NextSet(a, b, LastPeer(f).value, Some(id))
    ensures Linked(b, if f.Leaf? then Some(id) else first, parent, Appended(f, id))
    decreases f
  {
    if f.Tree? {
      assert f.id in Ids(f);
      LastPeerInside(f.peers);
      LinkedFrame(a, b, a[f.id].child, f.id, f.kids);
      if f.peers.Tree? {
        assert SameLinks(a, b, f.id);
        AppendLinked(a, b, a[f.id].next, parent, f.peers, id);
      }
    }
  }

  lemma {:induction false} AppendTidy(f: Forest, id: Id)
    requires Tidy(f) && id !in Ids(f)
    ensures Tidy(Appended(f, id))
    ensures forall x :: x in Ids(Appended(f, id)) <==> x in Ids(f) || x == id
  {
    if f.Tree? {
      AppendTidy(f.peers, id);
    }
  }

  /** The outermost list without `id`. */
  function Dropped(f: Forest, id: Id): Forest {
    match f
    case Leaf => Leaf
    case Tree(x, kids, peers) => if x == id then peers else Tree(x, kids, Dropped(peers, id))
  }

  lemma {:induction false} NextIsLater(a: Nodes, first: Option<Id>, parent: Id, f: Forest, y: Id)
    requires Linked(a, first, parent, f) && Tidy(f) && y in Tops(f)
    ensures y in a && (a[y].next.Some? ==> a[y].next.value in Tops(f) && a[y].next != first)
    decreases f
  {
    TopsInside(f.peers);
    if f.id == y {
      if f.peers.Tree? {
        assert f.peers.id in Tops(f.peers);
      }
    } else {
      NextIsLater(a, a[f.id].next, parent, f.peers, y);
    }
  }

  /** Unlinking a peer: from the head of the list, or from the peer before it. */
  lemma {:induction false} DropLinked(a: Nodes, b: Nodes, first: Option<Id>, parent: Id, f: Forest, id: Id,
                                       prev: Option<Id>)
    requires Linked(a, first, parent, f) && Tidy(f) && id in Tops(f) && id in a
    requires prev == None <==> first == Some(id)
    requires prev.Some? ==> prev.value in Tops(f) && prev.value in a && a[prev.value].next == Some(id)
    requires prev.Some? ==> NextSet(a, b, prev.value, a[id].next)
    requires forall x :: x in Ids(f) && x != id && prev != Some(x) ==> SameLinks(a, b, x)
    ensures Linked(b, if prev == None then a[id].next else first, parent, Dropped(f, id))
    decreases f
  {
    TopsInside(f);
    TopsInside(f.peers);
    if f.id == id {
      LinkedFrame(a, b, a[id].next, parent, f.peers);
    } else {
      assert f.id in Ids(f);
      LinkedFrame(a, b, a[f.id].child, f.id, f.kids);
      if prev == Some(f.id) {
        DropLinked(a, b, a[f.id].next, parent, f.peers, id, None);
      } else {
        NextIsLater(a, a[f.id].next, parent, f.peers, prev.value);
        DropLinked(a, b, a[f.id].next, parent, f.peers, id, prev);
      }
    }
  }

  lemma {:induction false} DropTidy(f: Forest, id: Id)
    requires Tidy(f) && id in Tops(f)
    ensures Tidy(Dropped(f, id))
    ensures forall x :: x in Ids(Dropped(f, id)) ==> x in Ids(f) && x != id
    ensures Search(f, id).Leaf? ==> forall x :: x in Ids(f) && x != id ==> x in Ids(Dropped(f, id))
  {
    TopsInside(f.peers);
    if f.id != id {
      DropTidy(f.peers, id);
    }
  }

  /** A node of the tree is in the child list of its parent. */
  lemma {:induction false} AmongKids(nodes: Nodes, first: Option<Id>, above: Id, f: Forest, id: Id) returns (q: Id)
    requires Linked(nodes, first, above, f) && Tidy(f) && id in Ids(f)
    ensures id in nodes && nodes[id].parent == Some(q)
    ensures (q == above && id in Tops(f)) || (q in Ids(f) && id in Tops(Search(f, q)))
    decreases f
  {
    if f.id == id {
      q := above;
    } else if id in Ids(f.kids) {
      q := AmongKids(nodes, nodes[f.id].child, f.id, f.kids, id);
    } else {
      q := AmongKids(nodes, nodes[f.id].next, above, f.peers, id);
    }
  }

  // ----- installing and uninstalling -----

  datatype LinkStatus = Ok | Dangling | Denied | InternalError

  /** Everything about `x` but its links. */
  ghost predicate SameNode(a: Nodes, b: Nodes, x: Id) {
    x in a && x in b && b[x].name == a[x].name && b[x].kind == a[x].kind && b[x].temporary == a[x].temporary
  }

  /** The tree with a child list replaced, as one statement about links and shape. */
  lemma Relinked(a: Nodes, b: Nodes, root: Id, f: Forest, parent: Id, k: Forest)
    requires Rooted(a, root, f) && Tidy(f) && root !in Ids(f) && Member(f, root, parent)
    requires parent in b && Linked(b, b[parent].child, parent, k) && Tidy(k) && root !in Ids(k)
    requires parent in a && b[parent].parent == a[parent].parent && b[parent].next == a[parent].next
    requires forall x :: Member(f, root, x) && x != parent && x !in Ids(KidsOf(f, root, parent)) ==> SameLinks(a, b, x)
    requires forall x :: x in Ids(k) ==> x in Ids(KidsOf(f, root, parent)) || x !in Ids(f)
    ensures var g := Reshaped(f, root, parent, k);
      && Rooted(b, root, g) && Tidy(g) && root !in Ids(g)
      && forall x :: x in Ids(g) <==> (x in Ids(f) && x !in Ids(KidsOf(f, root, parent))) || x in Ids(k)
  {
    if parent != root {
      SearchInside(f, parent);
      assert SameLinks(a, b, root);
      WithKidsLinked(a, b, a[root].child, root, f, parent, k);
      WithKidsTidy(f, parent, k);
    }
  }

  /** Nodes outside the tree, other than `id`, are left alone. */
  ghost predicate Undisturbed(a: Nodes, b: Nodes, f: Forest, root: Id, id: Id) {
    forall x :: x in a && x in b && x != id && !Member(f, root, x) ==> b[x] == a[x]
  }

  /** A node with a parent and a name, and no other link. */
  predicate Waiting(nodes: Nodes, x: Id) {
    && x in nodes && nodes[x].child == None && nodes[x].next == None
    && nodes[x].parent.Some? && nodes[x].parent.value in nodes && ValidName(nodes[x].name)
  }

  lemma OutsideKept(a: Nodes, b: Nodes, f: Forest, root: Id, id: Id, pending: set<Id>)
    requires Undisturbed(a, b, f, root, id) && a.Keys == b.Keys && id !in pending
    requires forall x :: x in pending ==> Waiting(a, x) && !Member(f, root, x)
    ensures forall x :: x in pending ==> Waiting(b, x) && b[x] == a[x]
  {}

  lemma Unmoved(a: Nodes, b: Nodes, f: Forest, root: Id, parent: Id, id: Id, kids: Forest)
    requires a.Keys == b.Keys && (forall x :: Member(f, root, x) ==> x in a) && !Member(f, root, id)
    requires forall x :: x in b && x != id && x != parent && x !in Ids(kids) ==> b[x] == a[x]
    ensures forall x :: Member(f, root, x) && x != parent && x !in Ids(kids) ==> SameLinks(a, b, x)
  {}

  class NamespaceTree {
    const root: Id
    var nodes: Nodes
    /** The nodes flagged as uninstalled. */
    var dangling: set<Id>
    /** The nodes that operators under evaluation hold: allocated, not installed yet. */
    var pending: set<Id>
    ghost var shape: Forest

    ghost predicate Valid()
      reads this
    {
      && Rooted(nodes, root, shape) && Tidy(shape) && root !in Ids(shape)
      && forall x :: x in dangling ==> x in nodes && !Member(shape, root, x)
    }

    /** Every node is in the tree, was uninstalled, or waits outside for its installation. */
    ghost predicate Settled()
      reads this
    {
      && (forall x :: x in nodes ==> x in dangling || x in pending || Member(shape, root, x))
      && forall x :: x in pending ==>
           && Waiting(nodes, x) && x !in dangling && !Member(shape, root, x)
           && nodes[x].parent.value !in pending
    }

    constructor (root: Id)
      ensures Valid() && Settled() && this.root == root && shape == Leaf && dangling == {} == pending
      ensures nodes.Keys == {root}
    {
      this.root := root;
      nodes := map[root := Node(['\\', '_', '_', '_'], None, None, None, None, false)];
      dangling := {};
      pending := {};
      shape := Leaf;
    }

    /** `uacpi_namespace_node_install`: at the end of the parent's child list. */
    method Install(parentOrRoot: Option<Id>, id: Id) returns (status: LinkStatus)
      requires Valid() && id in nodes
      requires parentOrRoot.Some? ==> Member(shape, root, parentOrRoot.value)
      // a node not flagged dangling was just allocated
      requires id !in dangling ==> !Member(shape, root, id) && nodes[id].child == None && nodes[id].next == None
      modifies this`nodes, this`shape
      ensures Valid() && nodes.Keys == old(nodes).Keys
      ensures Undisturbed(old(nodes), nodes, old(shape), root, id)
      ensures forall x :: x in nodes ==> SameNode(old(nodes), nodes, x)
      ensures status == if id in dangling then Dangling else Ok
      ensures status != Ok ==> nodes == old(nodes) && shape == old(shape)
      ensures status == Ok ==>
        var p := if parentOrRoot.Some? then parentOrRoot.value else root;
        && shape == Reshaped(old(shape), root, p, Appended(KidsOf(old(shape), root, p), id))
        && forall x :: x in Ids(shape) <==> x in Ids(old(shape)) || x == id
    {
      var parent := if parentOrRoot.Some? then parentOrRoot.value else root;
      if id in dangling {
        return Dangling;
      }
      InstallAt(parent, id);
      return Ok;
    }

    method InstallAt(parent: Id, id: Id)
      requires Valid() && id in nodes && Member(shape, root, parent) && !Member(shape, root, id) && id !in dangling
      requires nodes[id].child == None && nodes[id].next == None
      modifies this`nodes, this`shape
      ensures Valid() && nodes.Keys == old(nodes).Keys
      ensures Undisturbed(old(nodes), nodes, old(shape), root, id)
      ensures forall x :: x in nodes ==> SameNode(old(nodes), nodes, x)
      ensures shape == Reshaped(old(shape), root, parent, Appended(KidsOf(old(shape), root, parent), id))
      ensures forall x :: x in Ids(shape) <==> x in Ids(old(shape)) || x == id
    {
      hide Rooted, Tidy, Appended, Reshaped, KidsOf, Ids, Linked, Search, SameNode, SameLinks;
      ghost var a, f, kids := nodes, shape, KidsOf(shape, root, parent);
      KidsFacts(parent);
      HookLast(parent, id, kids);
      Unmoved(a, nodes, f, root, parent, id, kids);
      AppendTidy(kids, id);
      Relinked(a, nodes, root, f, parent, Appended(kids, id));
      shape := Reshaped(f, root, parent, Appended(kids, id));
    }

    /** The pointer updates of an installation: in the parent or in its last child, and
        in the new node. */
    method HookLast(parent: Id, id: Id, ghost kids: Forest)
      requires parent in nodes && Linked(nodes, nodes[parent].child, parent, kids) && Tidy(kids)
      requires parent !in Ids(kids) && id !in Ids(kids) && id != parent && forall x :: x in Ids(kids) ==> x in nodes
      requires id in nodes && nodes[id].child == None && nodes[id].next == None
      modifies this`nodes
      ensures nodes.Keys == old(nodes).Keys && forall x :: x in nodes ==> SameNode(old(nodes), nodes, x)
      ensures Linked(nodes, nodes[parent].child, parent, Appended(kids, id))
      ensures nodes[parent].parent == old(nodes)[parent].parent && nodes[parent].next == old(nodes)[parent].next
      ensures forall x :: x in nodes && x != id && x != parent && x !in Ids(kids) ==> nodes[x] == old(nodes)[x]
    {
      ghost var a := nodes;
      LastPeerInside(kids);
      if nodes[parent].child == None {
        nodes := nodes[parent := nodes[parent].(child := Some(id))];
      } else {
        var prev := LastInList(parent, kids);
        nodes := nodes[prev := nodes[prev].(next := Some(id))];
      }
      nodes := nodes[id := nodes[id].(parent := Some(parent))];
      AppendLinked(a, nodes, a[parent].child, parent, kids, id);
    }

    lemma KidsFacts(parent: Id)
      requires Valid() && Member(shape, root, parent)
      ensures var kids := KidsOf(shape, root, parent);
        && parent in nodes && Linked(nodes, nodes[parent].child, parent, kids) && Tidy(kids)
        && root !in Ids(kids) && parent !in Ids(kids) && forall x :: x in Ids(kids) ==> x in Ids(shape)
      ensures forall x :: Member(shape, root, x) ==> x in nodes
    {
      LinkedIds(nodes, nodes[root].child, root, shape);
      MemberLinked(nodes, root, shape, parent);
      SearchInside(shape, parent);
    }

    /** The walk to the end of a child list. */
    method LastInList(parent: Id, ghost kids: Forest) returns (prev: Id)
      requires parent in nodes && Linked(nodes, nodes[parent].child, parent, kids) && kids.Tree?
      ensures LastPeer(kids) == Some(prev) && prev in nodes
    {
      prev := nodes[parent].child.value;
      ghost var rest := kids;
      while nodes[prev].next.Some?
        invariant prev in nodes && Linked(nodes, Some(prev), parent, rest) && rest.Tree?
        invariant LastPeer(rest) == LastPeer(kids)
        decreases rest
      {
        prev := nodes[prev].next.value;
        rest := rest.peers;
      }
    }

    /** `uacpi_namespace_node_uninstall`: a node without children is unlinked from the list
        it is in and flagged; its object goes even when it turns out not to be linked. */
    method Uninstall(id: Id) returns (status: LinkStatus)
      requires Valid() && id in nodes
      // a node outside the tree is flagged, or was just allocated and perhaps given a parent
      requires id !in dangling && !Member(shape, root, id) ==>
        nodes[id].child == None && (nodes[id].parent.Some? ==> Member(shape, root, nodes[id].parent.value))
      modifies this`nodes, this`dangling, this`shape
      ensures Valid() && nodes.Keys == old(nodes).Keys
      ensures Undisturbed(old(nodes), nodes, old(shape), root, id)
      ensures status == Ok <==> id !in old(dangling) && id in Ids(old(shape)) && old(nodes)[id].child == None
      ensures status == LinkStatus.Denied <==> id !in old(dangling) && old(nodes)[id].child != None
      ensures status != Dangling
      ensures status != Ok ==> dangling == old(dangling) && shape == old(shape)
      ensures status == Ok ==>
        && dangling == old(dangling) + {id} && nodes[id].kind == None
        && (forall x :: x in Ids(shape) <==> x in Ids(old(shape)) && x != id)
        && exists p :: old(nodes)[id].parent == Some(p) && Member(old(shape), root, p)
             && shape == Reshaped(old(shape), root, p, Dropped(KidsOf(old(shape), root, p), id))
      ensures forall x :: x in nodes && x != id ==> SameNode(old(nodes), nodes, x)
      ensures nodes[id].name == old(nodes)[id].name
    {
      if id in dangling {
        return InternalError;
      }
      if nodes[id].child != None {
        return LinkStatus.Denied;
      }
      ghost var a, f := nodes, shape;
      nodes := nodes[id := nodes[id].(kind := None)];
      ObjectKeeps(a, nodes, root, f, id);
      if nodes[id].parent == None {
        // the root, or a node never installed: there is no list to search
        ParentlessOutside(id);
        return InternalError;
      }
      if id in Ids(shape) {
        MemberLinked(nodes, root, shape, id);
      }
      status := Unlink(id);
    }

    /** The first half of a creation: look the name up and allocate the node, with its
        parent but in no list. */
    method Reserve(parent: Id, id: Id, name: seq<char>, temporary: bool) returns (reserved: bool)
      requires Valid() && Member(shape, root, parent) && id !in nodes
      modifies this`nodes, this`pending
      ensures Valid()
      ensures reserved <==> First(old(nodes), KidsOf(shape, root, parent), name) == None
      ensures !reserved ==> nodes == old(nodes) && pending == old(pending)
      ensures reserved ==>
        && nodes == old(nodes)[id := Node(name, Some(parent), None, None, None, temporary)]
        && pending == old(pending) + {id} && id !in Ids(shape) && id != root
    {
      hide Rooted, Tidy, Linked;
      KidsFacts(parent);
      var existing := FindSubNode(nodes, parent, name, KidsOf(shape, root, parent));
      if existing.Some? {
        return false;
      }
      ghost var a := nodes;
      nodes := nodes[id := Node(name, Some(parent), None, None, None, temporary)];
      AllocateKeeps(a, nodes, root, shape, id);
      pending := pending + {id};
      return true;
    }

    /** The second half, after the operands were evaluated: the operator gives the node its
        object and installs it, without looking the name up again. */
    method InstallReserved(id: Id, kind: Option<nat>)
      requires Valid() && id in pending && id !in dangling && Waiting(nodes, id) && !Member(shape, root, id)
      requires Member(shape, root, nodes[id].parent.value)
      modifies this`nodes, this`pending, this`shape
      ensures Valid() && nodes.Keys == old(nodes).Keys && pending == old(pending) - {id}
      ensures Undisturbed(old(nodes), nodes, old(shape), root, id) && nodes[id].kind == kind
      ensures forall x :: x in nodes ==> nodes[x].name == old(nodes)[x].name
      ensures forall x :: x in Ids(shape) <==> x in Ids(old(shape)) || x == id
      ensures var p := old(nodes)[id].parent.value;
        shape == Reshaped(old(shape), root, p, Appended(KidsOf(old(shape), root, p), id))
      // sibling names stay distinct exactly when the name is still free
      ensures old(WellNamed(nodes, shape)) ==>
        (WellNamed(nodes, shape) <==> !old(Taken(id)))
    {
      hide Rooted, Tidy, Appended, Linked, Reshaped, KidsOf, WellNamed, ValidName;
      ghost var a, f := nodes, shape;
      nodes := nodes[id := nodes[id].(kind := kind)];
      ObjectKeeps(a, nodes, root, f, id);
      var parent := nodes[id].parent.value;
      LinkedMembers();
      var status := Install(Some(parent), id);
      pending := pending - {id};
      if WellNamed(a, f) {
        InstallNames(a, nodes, root, f, parent, id);
      }
    }

    /** A sibling of that name was installed since the lookup. */
    ghost predicate Taken(id: Id)
      reads this
    {
      && id in nodes && nodes[id].parent.Some?
      && First(nodes, KidsOf(shape, root, nodes[id].parent.value), nodes[id].name) != None
    }

    lemma LinkedMembers()
      requires Valid()
      ensures forall x :: Member(shape, root, x) ==> x in nodes
    {
      LinkedIds(nodes, nodes[root].child, root, shape);
    }

    /** One operation, when its arguments make sense. */
    method Apply(op: LinkOp)
      requires Valid() && Settled()
      modifies this
      ensures Valid() && Settled()
      ensures old(WellNamed(nodes, shape)) ==> (WellNamed(nodes, shape) <==> !old(Clashes(op)))
    {
      hide Valid, Settled, WellNamed, Taken;
      match op
      case ReserveNode(parent, id, name, temporary) =>
        if && parent in nodes && parent !in dangling + pending && id !in nodes
           && |name| == 4 && (forall i :: 0 <= i < 4 ==> NameChar(name[i]))
        {
          ReserveStep(parent, id, name, temporary);
        }
      case InstallNode(id, kind) =>
        if id in pending && id in nodes && nodes[id].parent.Some? && nodes[id].parent.value !in dangling {
          InstallStep(id, kind);
        }
      case Remove(id) =>
        if id in nodes && id !in dangling + pending {
          RemoveStep(id);
        }
    }

    method ReserveStep(parent: Id, id: Id, name: seq<char>, temporary: bool)
      requires Valid() && Settled() && parent in nodes && parent !in dangling + pending
      requires id !in nodes && ValidName(name)
      modifies this
      ensures Valid() && Settled()
      ensures old(WellNamed(nodes, shape)) ==> WellNamed(nodes, shape)
    {
      hide Rooted, Tidy, Linked, KidsOf, WellNamed, First, ValidName;
      ghost var a := nodes;
      LinkedMembers();
      var reserved := Reserve(parent, id, name, temporary);
      NamesFrame(a, nodes, shape, []);
    }

    method InstallStep(id: Id, kind: Option<nat>)
      requires Valid() && Settled() && id in pending && id in nodes && nodes[id].parent.Some?
      requires nodes[id].parent.value !in dangling
      modifies this
      ensures Valid() && Settled()
      ensures old(WellNamed(nodes, shape)) ==> (WellNamed(nodes, shape) <==> !old(Taken(id)))
    {
      hide Rooted, Tidy, Linked, KidsOf, WellNamed, First, ValidName, Reshaped, Appended, Taken;
      LinkedMembers();
      InstallReserved(id, kind);
    }

    method RemoveStep(id: Id)
      requires Valid() && Settled() && id in nodes && id !in dangling + pending
      modifies this
      ensures Valid() && Settled()
      ensures old(WellNamed(nodes, shape)) ==> WellNamed(nodes, shape)
    {
      hide Rooted, Tidy, Linked, KidsOf, WellNamed, First, ValidName, Reshaped, Dropped, Waiting, Undisturbed;
      ghost var a, f := nodes, shape;
      LinkedMembers();
      var status := Uninstall(id);
      OutsideKept(a, nodes, f, root, id, pending);
      if WellNamed(a, f) {
        if status == Ok {
          UninstallKeepsNames(a, nodes, root, f, a[id].parent.value, id);
        } else {
          NamesFrame(a, nodes, f, []);
        }
      }
    }

    /** The operation installs a node next to a sibling of its name. */
    ghost predicate Clashes(op: LinkOp)
      reads this
    {
      op.InstallNode? && op.id in pending && op.id in nodes && nodes[op.id].parent.Some?
      && nodes[op.id].parent.value !in dangling && Taken(op.id)
    }

    method Unlink(id: Id) returns (status: LinkStatus)
      requires Valid() && id in nodes && id != root && id !in dangling
      requires nodes[id].child == None && nodes[id].parent.Some? && Member(shape, root, nodes[id].parent.value)
      modifies this`nodes, this`dangling, this`shape
      ensures Valid() && nodes.Keys == old(nodes).Keys
      ensures Undisturbed(old(nodes), nodes, old(shape), root, id)
      ensures forall x :: x in nodes ==> SameNode(old(nodes), nodes, x)
      ensures status == if id in Ids(old(shape)) then Ok else InternalError
      ensures status != Ok ==> dangling == old(dangling) && shape == old(shape)
      ensures status == Ok ==>
        && dangling == old(dangling) + {id}
        && (forall x :: x in Ids(shape) <==> x in Ids(old(shape)) && x != id)
        && var p := old(nodes)[id].parent.value;
           shape == Reshaped(old(shape), root, p, Dropped(KidsOf(old(shape), root, p), id))
    {
      hide Rooted, Tidy, Dropped, Reshaped, Linked, Ids, Tops, Search;
      var parent := nodes[id].parent.value;
      ghost var a, f := nodes, shape;
      ghost var kids := KidsOf(shape, root, parent);
      KidsFacts(parent);
      InListOfParent(id, parent, kids);
      var found := UnhookPeer(parent, id, kids);
      if !found {
        return InternalError;
      }
      NoKids(a, a[parent].child, parent, kids, id);
      DropTidy(kids, id);
      Relinked(a, nodes, root, f, parent, Dropped(kids, id));
      shape := Reshaped(f, root, parent, Dropped(kids, id));
      dangling := dangling + {id};
      return Ok;
    }

    lemma InListOfParent(id: Id, parent: Id, kids: Forest)
      requires Valid() && id in nodes && nodes[id].parent == Some(parent) && Member(shape, root, parent)
      requires kids == KidsOf(shape, root, parent)
      ensures id in Ids(shape) <==> id in Tops(kids)
    {
      KidsFacts(parent);
      TopsInside(kids);
      if id in Ids(shape) {
        var q := AmongKids(nodes, nodes[root].child, root, shape, id);
      }
    }

    lemma ParentlessOutside(id: Id)
      requires Valid() && id in nodes && nodes[id].parent == None
      ensures id !in Ids(shape)
    {
      if id in Ids(shape) {
        MemberLinked(nodes, root, shape, id);
        assert false;
      }
    }

    /** The pointer update of an uninstallation: in the parent, or in the peer before;
        none when the node is not in the list. */
    method UnhookPeer(parent: Id, id: Id, ghost kids: Forest) returns (found: bool)
      requires parent in nodes && id in nodes && Linked(nodes, nodes[parent].child, parent, kids) && Tidy(kids)
      requires parent !in Ids(kids) && forall x :: x in Ids(kids) ==> x in nodes
      modifies this`nodes
      ensures nodes.Keys == old(nodes).Keys && forall x :: x in nodes ==> SameNode(old(nodes), nodes, x)
      ensures found <==> id in Tops(kids)
      ensures !found ==> nodes == old(nodes)
      ensures found ==>
        && Linked(nodes, nodes[parent].child, parent, Dropped(kids, id))
        && nodes[parent].parent == old(nodes)[parent].parent && nodes[parent].next == old(nodes)[parent].next
        && forall x :: x in nodes && x != parent && x !in Ids(kids) ==> nodes[x] == old(nodes)[x]
    {
      ghost var a := nodes;
      TopsInside(kids);
      if nodes[parent].child == Some(id) {
        nodes := nodes[parent := nodes[parent].(child := nodes[id].next)];
        DropLinked(a, nodes, a[parent].child, parent, kids, id, None);
        return true;
      }
      var prev := PeerBefore(parent, id, kids);
      if prev.None? {
        return false;
      }
      nodes := nodes[prev.value := nodes[prev.value].(next := nodes[id].next)];
      DropLinked(a, nodes, a[parent].child, parent, kids, id, prev);
      return true;
    }

    method PeerBefore(parent: Id, id: Id, ghost kids: Forest) returns (prev: Option<Id>)
      requires parent in nodes && Linked(nodes, nodes[parent].child, parent, kids)
      requires nodes[parent].child != Some(id)
      ensures prev.Some? <==> id in Tops(kids)
      ensures prev.Some? ==> prev.value in nodes && prev.value in Tops(kids) && nodes[prev.value].next == Some(id)
    {
      prev := nodes[parent].child;
      ghost var rest := kids;
      while prev.Some? && nodes[prev.value].next != Some(id)
        invariant Linked(nodes, prev, parent, rest) && prev != Some(id)
        invariant (id in Tops(rest) <==> id in Tops(kids)) && forall x :: x in Tops(rest) ==> x in Tops(kids)
        decreases rest
      {
        prev := nodes[prev.value].next;
        rest := rest.peers;
      }
    }
  }

  lemma AllocateKeeps(a: Nodes, b: Nodes, root: Id, f: Forest, id: Id)
    requires Rooted(a, root, f) && id !in a && id in b && b == a[id := b[id]]
    ensures Rooted(b, root, f) && id !in Ids(f) && id != root && SameNames(a, b, f)
    ensures forall k: Forest, first: Option<Id>, p: Id, name: seq<char> ::
      Linked(a, first, p, k) ==> First(b, k, name) == First(a, k, name)
  {
    LinkedIds(a, a[root].child, root, f);
    LinkedFrame(a, b, a[root].child, root, f);
    forall k: Forest, first: Option<Id>, p: Id, name: seq<char> | Linked(a, first, p, k)
      ensures First(b, k, name) == First(a, k, name)
    {
      LinkedIds(a, first, p, k);
      NamesFrame(a, b, k, name);
    }
  }

  /** A node without children has none in the shape either. */
  lemma NoKids(a: Nodes, first: Option<Id>, parent: Id, f: Forest, id: Id)
    requires Linked(a, first, parent, f) && id in Tops(f) && id in a && a[id].child == None
    ensures id in Ids(f) && Search(f, id).Leaf?
  {
    TopsInside(f);
    SearchLinked(a, first, parent, f, id);
  }

  /** Giving a node an object, or taking it away, changes no link. */
  lemma ObjectKeeps(a: Nodes, b: Nodes, root: Id, f: Forest, id: Id)
    requires Rooted(a, root, f) && id in a && id in b && b == a[id := a[id].(kind := b[id].kind)]
    ensures Rooted(b, root, f)
  {
    LinkedIds(a, a[root].child, root, f);
    LinkedFrame(a, b, a[root].child, root, f);
  }

  // ----- names -----

  /** The same names on a forest. */
  ghost predicate SameNames(a: Nodes, b: Nodes, f: Forest) {
    forall x :: x in Ids(f) ==> x in a && x in b && b[x].name == a[x].name
  }

  lemma {:induction false} NamesFrame(a: Nodes, b: Nodes, f: Forest, name: seq<char>)
    requires SameNames(a, b, f)
    ensures First(b, f, name) == First(a, f, name) && (WellNamed(a, f) ==> WellNamed(b, f))
    decreases f
  {
    if f.Tree? {
      assert f.id in Ids(f);
      NamesFrame(a, b, f.peers, name);
      NamesFrame(a, b, f.kids, name);
      if f.id in a {
        NamesFrame(a, b, f.peers, a[f.id].name);
      }
    }
  }

  lemma {:induction false} AppendNamed(a: Nodes, b: Nodes, f: Forest, id: Id, name: seq<char>)
    requires WellNamed(a, f) && SameNames(a, b, f)
    requires id in b && ValidName(b[id].name) && First(a, f, b[id].name) == None
    ensures WellNamed(b, Appended(f, id))
    ensures First(a, f, name) == None && name != b[id].name ==> First(b, Appended(f, id), name) == None
    decreases f
  {
    if f.Tree? {
      assert f.id in Ids(f);
      NamesFrame(a, b, f.kids, name);
      AppendNamed(a, b, f.peers, id, name);
      AppendNamed(a, b, f.peers, id, a[f.id].name);
    }
  }

  lemma {:induction false} DropNamed(a: Nodes, b: Nodes, f: Forest, id: Id, name: seq<char>)
    requires WellNamed(a, f) && SameNames(a, b, f)
    ensures WellNamed(b, Dropped(f, id))
    ensures First(a, f, name) == None ==> First(b, Dropped(f, id), name) == None
    decreases f
  {
    if f.Tree? {
      assert f.id in Ids(f);
      NamesFrame(a, b, f.kids, name);
      NamesFrame(a, b, f.peers, name);
      DropNamed(a, b, f.peers, id, name);
      DropNamed(a, b, f.peers, id, a[f.id].name);
    }
  }

  lemma {:induction false} WithKidsNamed(a: Nodes, b: Nodes, f: Forest, parent: Id, k: Forest, name: seq<char>)
    requires WellNamed(a, f) && SameNames(a, b, f) && WellNamed(b, k)
    ensures WellNamed(b, WithKids(f, parent, k)) && First(b, WithKids(f, parent, k), name) == First(a, f, name)
    decreases f
  {
    if f.Tree? {
      assert f.id in Ids(f);
      NamesFrame(a, b, f, name);
      NamesFrame(a, b, f.peers, a[f.id].name);
      if f.id != parent {
        WithKidsNamed(a, b, f.kids, parent, k, name);
        WithKidsNamed(a, b, f.peers, parent, k, name);
        WithKidsNamed(a, b, f.peers, parent, k, a[f.id].name);
      }
    }
  }

  lemma {:induction false} SearchNamed(a: Nodes, f: Forest, id: Id)
    requires WellNamed(a, f)
    ensures WellNamed(a, Search(f, id))
    decreases f
  {
    if f.Tree? {
      SearchNamed(a, f.kids, id);
      SearchNamed(a, f.peers, id);
    }
  }

  /** A list with `id` at its end has distinct names only if the rest lacks the name of `id`. */
  lemma {:induction false} LastIsNew(b: Nodes, f: Forest, id: Id, name: seq<char>)
    requires WellNamed(b, Appended(f, id))
    ensures id in b && First(b, f, b[id].name) == None
    ensures First(b, Appended(f, id), name) == None ==> name != b[id].name
    decreases f
  {
    if f.Tree? {
      LastIsNew(b, f.peers, id, name);
      LastIsNew(b, f.peers, id, b[f.id].name);
    }
  }

  lemma {:induction false} NamedPart(b: Nodes, f: Forest, parent: Id, k: Forest)
    requires WellNamed(b, WithKids(f, parent, k)) && parent in Ids(f)
    ensures WellNamed(b, k)
    decreases f
  {
    if f.id != parent {
      NamedPart(b, if parent in Ids(f.kids) then f.kids else f.peers, parent, k);
    }
  }

  /** Installing a node keeps the names valid and distinct among siblings exactly when its
      new siblings do not have its name. */
  lemma InstallNames(a: Nodes, b: Nodes, root: Id, f: Forest, parent: Id, id: Id)
    requires WellNamed(a, f) && SameNames(a, b, f) && Member(f, root, parent)
    requires id in b && ValidName(b[id].name)
    ensures WellNamed(b, Reshaped(f, root, parent, Appended(KidsOf(f, root, parent), id))) <==>
      First(a, KidsOf(f, root, parent), b[id].name) == None
  {
    var kids := KidsOf(f, root, parent);
    var k := Appended(kids, id);
    SearchNamed(a, f, parent);
    SearchInside(f, parent);
    NamesFrame(a, b, kids, b[id].name);
    if First(a, kids, b[id].name) == None {
      AppendNamed(a, b, kids, id, []);
      if parent != root {
        WithKidsNamed(a, b, f, parent, k, []);
      }
    } else if WellNamed(b, Reshaped(f, root, parent, k)) {
      if parent != root {
        NamedPart(b, f, parent, k);
      }
      LastIsNew(b, kids, id, []);
      assert false;
    }
  }

  /** Uninstalling needs nothing for that. */
  lemma UninstallKeepsNames(a: Nodes, b: Nodes, root: Id, f: Forest, parent: Id, id: Id)
    requires WellNamed(a, f) && SameNames(a, b, f)
    ensures WellNamed(b, Reshaped(f, root, parent, Dropped(KidsOf(f, root, parent), id)))
  {
    var kids := KidsOf(f, root, parent);
    SearchNamed(a, f, parent);
    SearchInside(f, parent);
    DropNamed(a, b, kids, id, []);
    if parent != root {
      WithKidsNamed(a, b, f, parent, Dropped(kids, id), []);
    }
  }

  // ----- every reachable namespace -----

  /** The condition under which a walk visits each node once. */
  lemma {:induction false} TidyDistinct(f: Forest)
    requires Tidy(f)
    ensures NamespaceWalk.Distinct(Ids(f))
  {
    if f.Tree? {
      TidyDistinct(f.kids);
      TidyDistinct(f.peers);
      NamespaceWalk.DistinctJoin([f.id], Ids(f.kids), Ids(f.peers));
      Associative([f.id], Ids(f.kids), Ids(f.peers));
    }
  }

  datatype LinkOp =
    | ReserveNode(parent: Id, id: Id, name: seq<char>, temporary: bool)
    | InstallNode(id: Id, kind: Option<nat>)
    | Remove(id: Id)

  /** Any run of reservations, installations and removals, in any interleaving, leaves a
      tree; and as long as every installation found its name still free, names are valid
      and distinct among siblings: what path resolution relies on. */
  method Build(root: Id, ops: seq<LinkOp>) returns (t: NamespaceTree, ghost clashed: bool)
    ensures t.Valid() && t.Settled() && t.root == root
    ensures !clashed ==> WellNamed(t.nodes, t.shape)
  {
    t := new NamespaceTree(root);
    clashed := false;
    for n := 0 to |ops|
      invariant fresh(t) && t.Valid() && t.Settled() && t.root == root
      invariant !clashed ==> WellNamed(t.nodes, t.shape)
    {
      clashed := clashed || t.Clashes(ops[n]);
      t.Apply(ops[n]);
    }
  }

  /** The run behind `Name(AAAA, METH())` where METH creates AAAA too: the inner name is
      installed between the lookup and the installation of the outer one, and the root
      gets two children called AAAA. */
  method NestedCreation() returns (t: NamespaceTree)
    ensures t.Valid() && t.shape == Tree(2, Leaf, Tree(1, Leaf, Leaf))
    ensures 1 in t.nodes && 2 in t.nodes && t.nodes[1].name == t.nodes[2].name == ['A', 'A', 'A', 'A']
    ensures !WellNamed(t.nodes, t.shape)
  {
    t := new NamespaceTree(0);
    var name := ['A', 'A', 'A', 'A'];
    var outer := t.Reserve(0, 1, name, false);
    var inner := t.Reserve(0, 2, name, true);
    t.InstallReserved(2, Some(1));
    t.InstallReserved(1, Some(1));
  }
}
