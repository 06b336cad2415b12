/** The ACPI namespace tree as it is linked in memory (`external/uacpi/source/namespace.c`):
    each node points to its parent, its first child and its next peer. */
module Namespace {
  import opened Machine

  type Id = nat

  /** `kind` is the type of the attached object, if there is one. */
  datatype Node = Node(
    name: seq<char>, parent: Option<Id>, child: Option<Id>, next: Option<Id>,
    kind: Option<nat>, temporary: bool)

  type Nodes = map<Id, Node>

  /** The abstract shape: a list of peers, each with its children. */
  datatype Forest = Leaf | Tree(id: Id, kids: Forest, peers: Forest)

  /** `first` is the head of a well-linked list of peers below `parent` of shape `f`. */
  ghost predicate Linked(nodes: Nodes, first: Option<Id>, parent: Id, f: Forest)
    decreases f
  {
    match f
    case Leaf => first == None
    case Tree(id, kids, peers) =>
      && first == Some(id) && id in nodes && nodes[id].parent == Some(parent)
      && Linked(nodes, nodes[id].child, id, kids)
      && Linked(nodes, nodes[id].next, parent, peers)
  }

  function Size(f: Forest): nat {
    match f
    case Leaf => 0
    case Tree(_, kids, peers) => 1 + Size(kids) + Size(peers)
  }

  function Ids(f: Forest): seq<Id> {
    match f
    case Leaf => []
    case Tree(id, kids, peers) => [id] + Ids(kids) + Ids(peers)
  }

  /** The shape of a well-linked list is determined by the links. */
  lemma {:induction false} LinkedUnique(nodes: Nodes, first: Option<Id>, parent: Id, f: Forest, g: Forest)
    requires Linked(nodes, first, parent, f) && Linked(nodes, first, parent, g)
    ensures f == g
    decreases f
  {
    if f.Tree? {
      LinkedUnique(nodes, nodes[f.id].child, f.id, f.kids, g.kids);
      LinkedUnique(nodes, nodes[f.id].next, parent, f.peers, g.peers);
    }
  }

  /** The whole namespace: the root node and the shape below it. */
  ghost predicate Rooted(nodes: Nodes, root: Id, f: Forest) {
    root in nodes && nodes[root].parent == None && Linked(nodes, nodes[root].child, root, f)
  }

  /** The children of `id` somewhere in `f`. */
  function Search(f: Forest, id: Id): Forest {
    match f
    case Leaf => Leaf
    case Tree(i, kids, peers) =>
      if i == id then kids else if id in Ids(kids) then Search(kids, id) else Search(peers, id)
  }

  function KidsOf(f: Forest, root: Id, id: Id): Forest {
    if id == root then f else Search(f, id)
  }

  lemma {:induction false} SearchLinked(nodes: Nodes, first: Option<Id>, parent: Id, f: Forest, id: Id)
    requires Linked(nodes, first, parent, f) && id in Ids(f)
    ensures id in nodes && Linked(nodes, nodes[id].child, id, Search(f, id))
    ensures nodes[id].parent.Some? && (nodes[id].parent == Some(parent) || nodes[id].parent.value in Ids(f))
    ensures forall x :: x in Ids(Search(f, id)) ==> x in Ids(f)
    decreases f
  {
    if f.id == id {
    } else if id in Ids(f.kids) {
      SearchLinked(nodes, nodes[f.id].child, f.id, f.kids, id);
    } else {
      SearchLinked(nodes, nodes[f.id].next, parent, f.peers, id);
    }
  }

  ghost predicate Member(f: Forest, root: Id, id: Id) { id == root || id in Ids(f) }

  /** Every node of the namespace has a well-linked child list, whose nodes belong to
      the namespace, and only the root has no parent. */
  lemma MemberLinked(nodes: Nodes, root: Id, f: Forest, id: Id)
    requires Rooted(nodes, root, f) && Member(f, root, id)
    ensures id in nodes && Linked(nodes, nodes[id].child, id, KidsOf(f, root, id))
    ensures forall x :: x in Ids(KidsOf(f, root, id)) ==> Member(f, root, x)
    ensures id != root ==> nodes[id].parent.Some? && Member(f, root, nodes[id].parent.value)
  {
    if id != root {
      SearchLinked(nodes, nodes[root].child, root, f, id);
    }
  }

  /** The ancestors of a node, nearest first. */
  ghost predicate Lineage(nodes: Nodes, id: Id, up: seq<Id>)
    decreases |up|
  {
    && id in nodes
    && (if up == [] then nodes[id].parent == None
        else nodes[id].parent == Some(up[0]) && Lineage(nodes, up[0], up[1..]))
  }
}
