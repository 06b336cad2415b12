/** Absolute paths and path lookup (`external/uacpi/source/namespace.c`). */
module NamespacePath {
  import opened Machine
  import opened Namespace

  // ----- names -----

  predicate NameChar(c: char) { 'A' <= c <= 'Z' || '0' <= c <= '9' || c == '_' }

  predicate ValidName(name: seq<char>) { |name| == 4 && forall c :: c in name ==> NameChar(c) }

  /** The first peer called `name`. */
  function First(nodes: Nodes, f: Forest, name: seq<char>): Option<Id> {
    match f
    case Leaf => None
    case Tree(id, _, peers) =>
      if id in nodes && nodes[id].name == name then Some(id) else First(nodes, peers, name)
  }

  /** `uacpi_namespace_node_find_sub_node`. */
  method FindSubNode(nodes: Nodes, parent: Id, name: seq<char>, ghost kids: Forest) returns (r: Option<Id>)
    requires parent in nodes && Linked(nodes, nodes[parent].child, parent, kids)
    ensures r == First(nodes, kids, name)
  {
    var node := nodes[parent].child;
    ghost var rest := kids;
    while node.Some?
      invariant Linked(nodes, node, parent, rest)
      invariant First(nodes, kids, name) == First(nodes, rest, name)
      decreases rest
    {
      if nodes[node.value].name == name {
        return node;
      }
      node := nodes[node.value].next;
      rest := rest.peers;
    }
    return None;
  }

  predicate AtDot(text: seq<char>) { text == [] || text[0] == '.' }

  /** `segment_to_name`: up to `n` characters before a dot, padded with underscores ... */
  function SegmentName(text: seq<char>, n: nat): (r: seq<char>)
    ensures |r| == n
  {
    if n == 0 then []
    else if AtDot(text) then ['_'] + SegmentName(text, n - 1)
    else [text[0]] + SegmentName(text[1..], n - 1)
  }

  /** ... and what is left of the text. */
  function SegmentRest(text: seq<char>, n: nat): (r: seq<char>)
    ensures |r| <= |text|
    ensures n > 0 && !AtDot(text) ==> |r| < |text|
  {
    if n == 0 || AtDot(text) then text else SegmentRest(text[1..], n - 1)
  }

  /** With `left` characters to go, `name` has been read and `rest` is unread. */
  ghost predicate Partway(text: seq<char>, name: seq<char>, rest: seq<char>, left: nat) {
    && SegmentName(text, 4) == name + SegmentName(rest, left)
    && SegmentRest(text, 4) == SegmentRest(rest, left)
  }

  lemma PartwayStart(text: seq<char>)
    ensures Partway(text, [], text, 4)
  {
    assert [] + SegmentName(text, 4) == SegmentName(text, 4);
  }

  lemma PartwayStep(text: seq<char>, name: seq<char>, rest: seq<char>, left: nat)
    requires left > 0 && Partway(text, name, rest, left)
    ensures AtDot(rest) ==> Partway(text, name + ['_'], rest, left - 1)
    ensures !AtDot(rest) ==> Partway(text, name + [rest[0]], rest[1..], left - 1)
  {
    var c := if AtDot(rest) then '_' else rest[0];
    var after := if AtDot(rest) then rest else rest[1..];
    assert name + ([c] + SegmentName(after, left - 1)) == (name + [c]) + SegmentName(after, left - 1);
  }

  lemma PartwayEnd(text: seq<char>, name: seq<char>, rest: seq<char>)
    requires Partway(text, name, rest, 0)
    ensures name == SegmentName(text, 4) && rest == SegmentRest(text, 4)
  {
    assert name + [] == name;
  }

  method SegmentToName(text: seq<char>) returns (name: seq<char>, rest: seq<char>)
    ensures name == SegmentName(text, 4) && rest == SegmentRest(text, 4)
  {
    hide Partway, SegmentName, SegmentRest;
    name, rest := [], text;
    PartwayStart(text);
    for offset := 0 to 4
      invariant Partway(text, name, rest, 4 - offset)
    {
      PartwayStep(text, name, rest, 4 - offset);
      if rest == [] || rest[0] == '.' {
        name := name + ['_'];
      } else {
        name, rest := name + [rest[0]], rest[1..];
      }
    }
    PartwayEnd(text, name, rest);
  }

  lemma {:induction false} WholeSegment(name: seq<char>, rest: seq<char>)
    requires forall c :: c in name ==> c != '.'
    ensures SegmentName(name + rest, |name|) == name && SegmentRest(name + rest, |name|) == rest
  {
    if name == [] {
      assert name + rest == rest;
    } else {
      assert name[0] in name && (name + rest)[1..] == name[1..] + rest;
      assert [name[0]] + name[1..] == name;
      assert forall c :: c in name[1..] ==> c in name;
      WholeSegment(name[1..], rest);
    }
  }

  // ----- resolving a path -----

  /** `NullRead` is no status: the search above has gone through a NULL parent. */
  datatype Outcome = Found(id: Id) | NotFound | Denied | BadPath | NullRead

  /** The state after the leading `\\` and `^` characters. */
  datatype Prefix = Rejected | Resolved(cur: Id, rest: seq<char>, singleSegment: bool)

  function SkipPrefix(nodes: Nodes, root: Id, cur: Id, text: seq<char>, prev: char, single: bool): Prefix
    decreases |text|
  {
    if text == [] then Resolved(cur, text, single)
    else if text[0] == '\\' then
      if prev == '^' then Rejected else Resolved(root, text[1..], false)
    else if text[0] == '^' then
      if cur == root || cur !in nodes || nodes[cur].parent.None? then Rejected
      else SkipPrefix(nodes, root, nodes[cur].parent.value, text[1..], '^', false)
    else Resolved(cur, text, single)
  }

  /** The segments of the rest, and whether the one that failed was the only one. */
  datatype Descent = Arrived(id: Id) | Missing(name: seq<char>, singleSegment: bool)

  function SkipDot(text: seq<char>): seq<char> {
    if text != [] && text[0] == '.' then text[1..] else text
  }

  function Descend(nodes: Nodes, root: Id, f: Forest, cur: Id, text: seq<char>, single: bool): Descent
    decreases |text|
  {
    if text == [] then Arrived(cur)
    else
      var segment := SkipDot(text);
      var name, rest := SegmentName(segment, 4), SegmentRest(segment, 4);
      var only := single && rest == [];
      match First(nodes, KidsOf(f, root, cur), name)
      case None => Missing(name, only)
      case Some(id) => Descend(nodes, root, f, id, rest, only)
  }

  /** The nearest ancestor in `up` with a child called `name`. */
  function SearchAbove(nodes: Nodes, root: Id, f: Forest, up: seq<Id>, name: seq<char>): Option<Id> {
    if up == [] then None
    else
      match First(nodes, KidsOf(f, root, up[0]), name)
      case Some(id) => Some(id)
      case None => SearchAbove(nodes, root, f, up[1..], name)
  }

  /** The last checks of `uacpi_namespace_node_resolve`. */
  function Deliver(nodes: Nodes, id: Option<Id>, permanentOnly: bool): Outcome {
    match id
    case None => NotFound
    case Some(node) => if permanentOnly && node in nodes && nodes[node].temporary then Denied else Found(node)
  }

  /** What `uacpi_namespace_node_resolve` answers; `up` lists the ancestors of `parent`. */
  function Resolve(nodes: Nodes, root: Id, f: Forest, parent: Option<Id>, up: seq<Id>, text: seq<char>,
                   searchAbove: bool, permanentOnly: bool): Outcome
  {
    match SkipPrefix(nodes, root, if parent.Some? then parent.value else root, text, ' ', true)
    case Rejected => BadPath
    case Resolved(cur, rest, single) =>
      match Descend(nodes, root, f, cur, rest, single)
      case Arrived(id) => Deliver(nodes, Some(id), permanentOnly)
      case Missing(name, only) =>
        if !searchAbove || !only then NotFound
        else if parent.None? then NullRead
        else Deliver(nodes, SearchAbove(nodes, root, f, up, name), permanentOnly)
  }

  /** Past the first segment, or a prefix, nothing is searched for above. */
  lemma {:induction false} NoSearchLater(nodes: Nodes, root: Id, f: Forest, cur: Id, text: seq<char>)
    ensures var d := Descend(nodes, root, f, cur, text, false); d.Missing? ==> !d.singleSegment
    decreases |text|
  {
    if text != [] {
      var segment := SkipDot(text);
      var child := First(nodes, KidsOf(f, root, cur), SegmentName(segment, 4));
      if child.Some? {
        NoSearchLater(nodes, root, f, child.value, SegmentRest(segment, 4));
      }
    }
  }

  /** A NULL parent is read through exactly when the search above was asked for and the
      text is a single segment, with no prefix, that the root has no child for. */
  lemma NullReadExactly(nodes: Nodes, root: Id, f: Forest, parent: Option<Id>, up: seq<Id>, text: seq<char>,
                        searchAbove: bool, permanentOnly: bool)
    ensures Resolve(nodes, root, f, parent, up, text, searchAbove, permanentOnly) == NullRead <==>
      && searchAbove && parent.None? && text != [] && text[0] != '\\' && text[0] != '^'
      && SegmentRest(SkipDot(text), 4) == []
      && First(nodes, KidsOf(f, root, root), SegmentName(SkipDot(text), 4)) == None
  {
    if parent.None? && text != [] && text[0] != '^' {
      if text[0] == '\\' {
        NoSearchLater(nodes, root, f, root, text[1..]);
      } else {
        var segment := SkipDot(text);
        var name, rest := SegmentName(segment, 4), SegmentRest(segment, 4);
        assert SkipPrefix(nodes, root, root, text, ' ', true) == Resolved(root, text, true);
        match First(nodes, KidsOf(f, root, root), name)
        case None =>
          assert Descend(nodes, root, f, root, text, true) == Missing(name, rest == []);
        case Some(id) =>
          NoSearchLater(nodes, root, f, id, rest);
          assert Descend(nodes, root, f, root, text, true) == Descend(nodes, root, f, id, rest, rest == []);
      }
    }
  }

  /** Such an input: the empty namespace, no scope, and one name. */
  lemma NullScope(root: Id, nodes: Nodes, permanentOnly: bool)
    ensures Resolve(nodes, root, Leaf, None, [], "ABCD", true, permanentOnly) == NullRead
  {
    NullReadExactly(nodes, root, Leaf, None, [], "ABCD", true, permanentOnly);
    WholeSegment("ABCD", []);
    assert "ABCD" + [] == "ABCD";
  }

  /** `uacpi_namespace_node_resolve`, on the text before the terminator. */
  method NodeResolve(nodes: Nodes, root: Id, parent: Option<Id>, text: seq<char>, searchAbove: bool,
                     permanentOnly: bool, ghost f: Forest, ghost up: seq<Id>) returns (r: Outcome)
    requires Rooted(nodes, root, f)
    requires parent.Some? ==> Member(f, root, parent.value) && Lineage(nodes, parent.value, up)
    ensures r == Resolve(nodes, root, f, parent, up, text, searchAbove, permanentOnly)
  {
    var cur: Id := if parent.Some? then parent.value else root;
    var bad, rest, single;
    bad, cur, rest, single := ReadPrefix(nodes, root, cur, text, f);
    if bad {
      return BadPath;
    }
    while rest != []
      invariant Member(f, root, cur)
      invariant match SkipPrefix(nodes, root, if parent.Some? then parent.value else root, text, ' ', true)
        case Rejected => false
        case Resolved(cur0, rest0, single0) =>
          Descend(nodes, root, f, cur0, rest0, single0) == Descend(nodes, root, f, cur, rest, single)
      decreases |rest|
    {
      MemberLinked(nodes, root, f, cur);
      if rest[0] == '.' {
        rest := rest[1..];
      }
      var name;
      name, rest := SegmentToName(rest);
      if rest != [] && single {
        single := false;
      }
      var child := FindSubNode(nodes, cur, name, KidsOf(f, root, cur));
      if child.None? {
        if !searchAbove || !single {
          return NotFound;
        }
        if parent.None? {
          // `parent->parent`
          return NullRead;
        }
        var found := FindAbove(nodes, root, parent.value, name, f, up);
        if found.None? {
          return NotFound;
        }
        if permanentOnly && nodes[found.value].temporary {
          return Denied;
        }
        return Found(found.value);
      }
      FirstIsMember(nodes, KidsOf(f, root, cur), name);
      cur := child.value;
    }
    MemberLinked(nodes, root, f, cur);
    if permanentOnly && nodes[cur].temporary {
      return Denied;
    }
    return Found(cur);
  }

  lemma {:induction false} FirstIsMember(nodes: Nodes, f: Forest, name: seq<char>)
    ensures First(nodes, f, name).Some? ==>
      First(nodes, f, name).value in Ids(f) && First(nodes, f, name).value in nodes
  {
    if f.Tree? {
      FirstIsMember(nodes, f.peers, name);
    }
  }

  /** The first loop: `\\` and `^`. */
  method ReadPrefix(nodes: Nodes, root: Id, start: Id, text: seq<char>, ghost f: Forest)
    returns (bad: bool, cur: Id, rest: seq<char>, single: bool)
    requires Rooted(nodes, root, f) && Member(f, root, start)
    ensures SkipPrefix(nodes, root, start, text, ' ', true) ==
      if bad then Rejected else Resolved(cur, rest, single)
    ensures Member(f, root, cur)
  {
    cur, rest, single := start, text, true;
    var prev := ' ';
    while true
      invariant Member(f, root, cur)
      invariant SkipPrefix(nodes, root, start, text, ' ', true) == SkipPrefix(nodes, root, cur, rest, prev, single)
      decreases |rest|
    {
      MemberLinked(nodes, root, f, cur);
      if rest == [] {
        return false, cur, rest, single;
      }
      if rest[0] == '\\' {
        single := false;
        if prev == '^' {
          return true, cur, rest, single;
        }
        return false, root, rest[1..], single;
      } else if rest[0] == '^' {
        if cur == root {
          return true, cur, rest, single;
        }
        single := false;
        cur := nodes[cur].parent.value;
      } else {
        return false, cur, rest, single;
      }
      prev := rest[0];
      rest := rest[1..];
    }
  }

  /** The search through the ancestors of `parent`. */
  method FindAbove(nodes: Nodes, root: Id, parent: Id, name: seq<char>, ghost f: Forest, ghost up: seq<Id>)
    returns (r: Option<Id>)
    requires Rooted(nodes, root, f) && Member(f, root, parent) && Lineage(nodes, parent, up)
    ensures r == SearchAbove(nodes, root, f, up, name)
    ensures r.Some? ==> r.value in nodes
  {
    MemberLinked(nodes, root, f, parent);
    var above := nodes[parent].parent;
    ghost var rest := up;
    while above.Some?
      invariant above == if rest == [] then None else Some(rest[0])
      invariant above.Some? ==> Member(f, root, above.value) && Lineage(nodes, above.value, rest[1..])
      invariant SearchAbove(nodes, root, f, up, name) == SearchAbove(nodes, root, f, rest, name)
      decreases |rest|
    {
      MemberLinked(nodes, root, f, above.value);
      r := FindSubNode(nodes, above.value, name, KidsOf(f, root, above.value));
      FirstIsMember(nodes, KidsOf(f, root, above.value), name);
      if r.Some? {
        return;
      }
      above := nodes[above.value].parent;
      rest := rest[1..];
    }
    return None;
  }

  // ----- absolute paths -----

  function Dotted(names: seq<seq<char>>): seq<char> {
    if names == [] then [] else ['.'] + (names[0] + Dotted(names[1..]))
  }

  /** A backslash, then the names separated by dots. */
  function AbsolutePath(names: seq<seq<char>>): seq<char> {
    if names == [] then ['\\'] else ['\\'] + (names[0] + Dotted(names[1..]))
  }

  lemma {:induction false} DottedLength(names: seq<seq<char>>)
    requires forall n :: n in names ==> |n| == 4
    ensures |Dotted(names)| == 5 * |names|
  {
    if names != [] {
      assert names[0] in names && forall n :: n in names[1..] ==> n in names;
      DottedLength(names[1..]);
    }
  }

  lemma {:induction false} DottedAt(names: seq<seq<char>>, j: nat)
    requires (forall n :: n in names ==> |n| == 4) && j < |names| && |Dotted(names)| == 5 * |names|
    ensures Dotted(names)[5 * j] == '.'
    ensures |names[j]| == 4 && forall c :: 0 <= c < 4 ==> Dotted(names)[5 * j + 1 + c] == names[j][c]
  {
    var rest := names[1..];
    assert names[0] in names && forall n :: n in rest ==> n in names;
    var head := ['.'] + names[0];
    Associative(['.'], names[0], Dotted(rest));
    assert |head| == 5 && Dotted(names) == head + Dotted(rest);
    if j > 0 {
      DottedLength(rest);
      DottedAt(rest, j - 1);
      hide Dotted;
      assert forall i :: 5 <= i < |Dotted(names)| ==> Dotted(names)[i] == Dotted(rest)[i - 5];
    }
  }

  lemma PathAt(names: seq<seq<char>>, j: nat)
    requires (forall n :: n in names ==> |n| == 4) && j < |names|
    ensures |AbsolutePath(names)| == 5 * |names| && AbsolutePath(names)[0] == '\\'
    ensures j > 0 ==> AbsolutePath(names)[5 * j] == '.'
    ensures |names[j]| == 4 && forall c :: 0 <= c < 4 ==> AbsolutePath(names)[5 * j + 1 + c] == names[j][c]
  {
    DottedLength(names);
    DottedAt(names, j);
    AbsoluteIsDotted(names);
  }

  lemma AbsoluteIsDotted(names: seq<seq<char>>)
    requires names != []
    ensures |AbsolutePath(names)| == |Dotted(names)| && AbsolutePath(names)[0] == '\\'
    ensures forall i :: 0 < i < |Dotted(names)| ==> AbsolutePath(names)[i] == Dotted(names)[i]
  {
  }

  /** The node `n` steps down the path from the root. */
  function Along(root: Id, path: seq<Id>, n: nat): Id
    requires n <= |path|
  {
    if n == 0 then root else path[n - 1]
  }

  /** `path` leads down from the root along parent links. */
  ghost predicate Chain(nodes: Nodes, root: Id, path: seq<Id>) {
    && root in nodes && nodes[root].parent == None
    && forall j :: 0 <= j < |path| ==> path[j] in nodes && nodes[path[j]].parent == Some(Along(root, path, j))
  }

  function Names(nodes: Nodes, path: seq<Id>): (r: seq<seq<char>>)
    requires forall id :: id in path ==> id in nodes
    ensures |r| == |path| && forall j :: 0 <= j < |path| ==> r[j] == nodes[path[j]].name
  {
    seq(|path|, j requires 0 <= j < |path| => assert path[j] in path; nodes[path[j]].name)
  }

  /** `uacpi_namespace_node_depth`. */
  method NodeDepth(nodes: Nodes, root: Id, ghost path: seq<Id>, node: Id) returns (depth: nat)
    requires Chain(nodes, root, path) && node == Along(root, path, |path|)
    ensures depth == |path|
  {
    depth := 0;
    var at := node;
    while nodes[at].parent.Some?
      invariant depth <= |path| && at == Along(root, path, |path| - depth)
      decreases |path| - depth
    {
      depth := depth + 1;
      at := nodes[at].parent.value;
    }
  }

  /** `uacpi_namespace_node_generate_absolute_path`: the writer runs backwards and fills
      the buffer exactly; `memory` says whether the allocation succeeds. */
  method GenerateAbsolutePath(nodes: Nodes, root: Id, node: Id, memory: bool, ghost path: seq<Id>)
    returns (r: Option<array<char>>)
    requires Chain(nodes, root, path) && node == Along(root, path, |path|)
    requires forall id :: id in path ==> id in nodes && |nodes[id].name| == 4
    ensures r.Some? <==> memory
    ensures r.Some? ==> fresh(r.value) && r.value[..] == AbsolutePath(Names(nodes, path)) + ['\0']
  {
    var depth := NodeDepth(nodes, root, path, node);
    depth := depth + 1;
    var bytesNeeded := 1 + (depth - 1) * 4;
    bytesNeeded := bytesNeeded + (if depth > 2 then depth - 2 else 0);
    bytesNeeded := bytesNeeded + 1;
    if !memory {
      return None;
    }
    var text := new char[bytesNeeded];
    text[0] := '\\';
    var offset := bytesNeeded - 1;
    text[offset] := '\0';
    ghost var names := Names(nodes, path);
    ghost var full := AbsolutePath(names);
    assert forall j :: 0 <= j < |path| ==> path[j] in path;
    if node == root {
      RootOnly(nodes, root, path);
      assert text[..] == full + ['\0'];
    } else {
      PathAt(names, 0);
      WriteBackwards(nodes, root, node, text, path, names);
    }
    return Some(text);
  }

  lemma RootOnly(nodes: Nodes, root: Id, path: seq<Id>)
    requires Chain(nodes, root, path) && Along(root, path, |path|) == root
    ensures path == []
  {}

  /** The loop of the path writer. */
  method WriteBackwards(nodes: Nodes, root: Id, node: Id, text: array<char>,
                        ghost path: seq<Id>, ghost names: seq<seq<char>>)
    requires Chain(nodes, root, path) && node == Along(root, path, |path|) && path != []
    requires |names| == |path| && forall j :: 0 <= j < |path| ==> names[j] == nodes[path[j]].name
    requires forall n :: n in names ==> |n| == 4
    requires |AbsolutePath(names)| == 5 * |names| && text.Length == 5 * |names| + 1
    requires text[0] == '\\' == AbsolutePath(names)[0] && text[5 * |names|] == '\0'
    modifies text
    ensures text[..] == AbsolutePath(names) + ['\0']
  {
    WrittenNone(text[..], AbsolutePath(names));
    hide AbsolutePath, Written, Names, Chain, Along, SegmentAdded;
    ghost var full := AbsolutePath(names);
    StartOfPath(nodes, root, path);
    var at := node;
    var offset := text.Length - 1;
    ghost var k: nat := |path|;
    while at != root
      invariant k <= |path| && at == Along(root, path, k)
      invariant Written(text[..], full, offset) && offset == Offset(k)
      decreases k
    {
      OneUp(nodes, root, path, k);
      k := k - 1;
      at, offset := WriteName(nodes, at, root, text, offset, k, names);
    }
    WrittenAll(text[..], full);
  }

  /** Where the text of the first `k` names of a path ends. */
  function Offset(k: nat): nat { if k == 0 then 1 else 5 * k }

  /** One round: the name of `at` and the dot before it. */
  method WriteName(nodes: Nodes, at: Id, root: Id, text: array<char>, end: nat, ghost k: nat,
                   ghost names: seq<seq<char>>) returns (parent: Id, offset: nat)
    requires at in nodes && nodes[at].parent.Some? && (nodes[at].parent.value != root <==> k > 0)
    requires k < |names| && names[k] == nodes[at].name && end == Offset(k + 1)
    requires (forall n :: n in names ==> |n| == 4) && Written(text[..], AbsolutePath(names), end) && end < text.Length
    modifies text
    ensures parent == nodes[at].parent.value && offset == Offset(k)
    ensures Written(text[..], AbsolutePath(names), offset)
  {
    hide AbsolutePath, Written, SegmentAdded;
    ghost var before := text[..];
    parent := nodes[at].parent.value;
    offset := WriteSegment(text, end, nodes[at].name, parent != root);
    MoreWritten(before, text[..], names, k);
  }

  /** A node other than the root is the last of its path, below the one before. */
  lemma OneUp(nodes: Nodes, root: Id, path: seq<Id>, k: nat)
    requires Chain(nodes, root, path) && k <= |path| && Along(root, path, k) != root
    ensures k > 0 && path[k - 1] == Along(root, path, k) && path[k - 1] in nodes
    ensures nodes[path[k - 1]].parent == Some(Along(root, path, k - 1))
    ensures Along(root, path, k - 1) != root <==> k - 1 > 0
  {}

  lemma StartOfPath(nodes: Nodes, root: Id, path: seq<Id>)
    requires Chain(nodes, root, path)
    ensures forall k: nat :: k <= |path| ==> (Along(root, path, k) == root <==> k == 0)
  {}

  lemma WrittenNone(text: seq<char>, full: seq<char>)
    requires |text| == |full| + 1 && |full| > 0 && text[0] == full[0] && text[|full|] == '\0'
    ensures Written(text, full, |full|)
  {}

  lemma WrittenAll(text: seq<char>, full: seq<char>)
    requires Written(text, full, 1)
    ensures text == full + ['\0']
  {}

  /** The buffer agrees with the finished path from `offset` on. */
  ghost predicate Written(text: seq<char>, full: seq<char>, offset: int) {
    && |text| == |full| + 1 && |full| > 0 && text[0] == full[0] && text[|full|] == '\0'
    && forall i :: 0 <= offset <= i < |full| ==> text[i] == full[i]
  }

  /** `name`, and a dot before it if asked for, now stand in front of `end`. */
  ghost predicate SegmentAdded(before: seq<char>, after: seq<char>, end: nat, name: seq<char>, dot: bool) {
    && |after| == |before| && |name| == 4 && 5 <= end
    && forall i :: 0 <= i < |after| ==>
         after[i] == if end - 4 <= i < end then name[i - (end - 4)]
                     else if dot && i == end - 5 then '.' else before[i]
  }

  lemma MoreWritten(before: seq<char>, after: seq<char>, names: seq<seq<char>>, k: nat)
    requires k < |names| && forall n :: n in names ==> |n| == 4
    requires Written(before, AbsolutePath(names), 5 * k + 5)
    requires SegmentAdded(before, after, 5 * k + 5, names[k], k > 0)
    ensures Written(after, AbsolutePath(names), Offset(k))
  {
    PathAt(names, k);
    hide AbsolutePath;
    forall i | Offset(k) <= i < |AbsolutePath(names)|
      ensures after[i] == AbsolutePath(names)[i]
    {
      if 5 * k + 1 <= i < 5 * k + 5 {
        assert AbsolutePath(names)[5 * k + 1 + (i - (5 * k + 1))] == names[k][i - (5 * k + 1)];
      }
    }
  }

  /** One turn of the loop: the name, and the dot before it unless it is the first. */
  method WriteSegment(text: array<char>, end: nat, name: seq<char>, dot: bool) returns (offset: nat)
    requires |name| == 4 && 5 <= end < text.Length
    modifies text
    ensures offset == if dot then end - 5 else end - 4
    ensures SegmentAdded(old(text[..]), text[..], end, name, dot)
  {
    offset := end - 4;
    CopyName(text, offset, name);
    if dot {
      offset := offset - 1;
      text[offset] := '.';
    }
  }

  /** `uacpi_memcpy` of one name. */
  method CopyName(text: array<char>, offset: nat, name: seq<char>)
    requires |name| == 4 && offset + 4 <= text.Length
    modifies text
    ensures forall i :: 0 <= i < text.Length ==>
      text[i] == if offset <= i < offset + 4 then name[i - offset] else old(text[i])
  {
    for i := 0 to 4
      invariant forall j :: 0 <= j < text.Length ==>
        text[j] == if offset <= j < offset + i then name[j - offset] else old(text[j])
    {
      text[offset + i] := name[i];
    }
  }

  // ----- the absolute path leads back to its node -----

  /** Valid names, and no two peers of the same name, everywhere in the tree. */
  ghost predicate WellNamed(nodes: Nodes, f: Forest) {
    match f
    case Leaf => true
    case Tree(id, kids, peers) =>
      && id in nodes && ValidName(nodes[id].name) && First(nodes, peers, nodes[id].name) == None
      && WellNamed(nodes, kids) && WellNamed(nodes, peers)
  }

  /** `path` goes down through the tree, one child list at a time. */
  ghost predicate Located(f: Forest, path: seq<Id>)
    decreases f
  {
    match f
    case Leaf => path == []
    case Tree(id, kids, peers) =>
      path == [] || (path[0] == id && Located(kids, path[1..])) || Located(peers, path)
  }

  /** Every node of the tree has such a path. */
  lemma {:induction false} PathTo(f: Forest, id: Id) returns (path: seq<Id>)
    requires id in Ids(f)
    ensures Located(f, path) && path != [] && path[|path| - 1] == id
    decreases f
  {
    if f.id == id {
      path := [id];
      assert path[1..] == [] && (f.kids.Leaf? || Located(f.kids, []));
    } else if id in Ids(f.kids) {
      var below := PathTo(f.kids, id);
      path := [f.id] + below;
      assert path[1..] == below;
    } else {
      path := PathTo(f.peers, id);
    }
  }

  /** The first step of a path: the child it names, which is the one a lookup by name finds. */
  lemma {:induction false} FirstStep(nodes: Nodes, first: Option<Id>, parent: Id, f: Forest, path: seq<Id>)
    returns (kids: Forest)
    requires Linked(nodes, first, parent, f) && WellNamed(nodes, f) && Located(f, path) && path != []
    ensures path[0] in Ids(f) && path[0] in nodes && nodes[path[0]].parent == Some(parent)
    ensures ValidName(nodes[path[0]].name) && First(nodes, f, nodes[path[0]].name) == Some(path[0])
    ensures Linked(nodes, nodes[path[0]].child, path[0], kids) && WellNamed(nodes, kids) && Located(kids, path[1..])
    decreases f
  {
    if path[0] == f.id && Located(f.kids, path[1..]) {
      kids := f.kids;
    } else {
      kids := FirstStep(nodes, nodes[f.id].next, parent, f.peers, path);
    }
  }

  lemma {:induction false} LocatedChain(nodes: Nodes, first: Option<Id>, parent: Id, f: Forest, path: seq<Id>)
    requires Linked(nodes, first, parent, f) && WellNamed(nodes, f) && Located(f, path)
    ensures forall j :: 0 <= j < |path| ==>
      path[j] in nodes && nodes[path[j]].parent == Some(Along(parent, path, j)) && ValidName(nodes[path[j]].name)
    decreases |path|
  {
    if path != [] {
      var kids := FirstStep(nodes, first, parent, f, path);
      LocatedChain(nodes, nodes[path[0]].child, path[0], kids, path[1..]);
      forall j | 0 <= j < |path|
        ensures path[j] in nodes && nodes[path[j]].parent == Some(Along(parent, path, j))
        ensures ValidName(nodes[path[j]].name)
      {
        if j > 0 {
          assert path[j] == path[1..][j - 1];
        }
      }
    }
  }

  /** The text of a path below `cur`, with or without a dot in front. */
  ghost predicate Spells(nodes: Nodes, text: seq<char>, path: seq<Id>)
    requires forall id :: id in path ==> id in nodes
  {
    var names := Names(nodes, path);
    text == Dotted(names) || (path != [] && text == names[0] + Dotted(names[1..]))
  }

  lemma {:induction false} DescendFollows(nodes: Nodes, root: Id, f: Forest, cur: Id, path: seq<Id>,
                                          text: seq<char>, single: bool)
    requires Rooted(nodes, root, f) && Member(f, root, cur)
    requires WellNamed(nodes, KidsOf(f, root, cur)) && Located(KidsOf(f, root, cur), path)
    requires (forall id :: id in path ==> id in nodes) && Spells(nodes, text, path)
    ensures Descend(nodes, root, f, cur, text, single) == Arrived(Along(cur, path, |path|))
    decreases |path|
  {
    if path != [] {
      MemberLinked(nodes, root, f, cur);
      var here := KidsOf(f, root, cur);
      var kids := FirstStep(nodes, nodes[cur].child, cur, here, path);
      var next := path[0];
      MemberLinked(nodes, root, f, next);
      LinkedUnique(nodes, nodes[next].child, next, kids, KidsOf(f, root, next));
      var names := Names(nodes, path);
      assert names[1..] == Names(nodes, path[1..]);
      var rest := Dotted(names[1..]);
      SegmentOfName(names[0], rest);
      assert SkipDot(text) == names[0] + rest && text != [];
      var only := single && rest == [];
      DescendFollows(nodes, root, f, next, path[1..], rest, only);
      assert Along(next, path[1..], |path| - 1) == Along(cur, path, |path|);
    }
  }

  lemma SegmentOfName(name: seq<char>, rest: seq<char>)
    requires ValidName(name)
    ensures SegmentName(name + rest, 4) == name && SegmentRest(name + rest, 4) == rest
    ensures SkipDot(name + rest) == name + rest && SkipDot(['.'] + (name + rest)) == name + rest
  {
    WholeSegment(name, rest);
    assert name[0] in name && (name + rest)[0] == name[0];
    assert (['.'] + (name + rest))[1..] == name + rest;
  }

  /** From any starting node, with or without the search above, looking up the absolute
      path of a node finds that node; a temporary one is denied when only permanent
      nodes are asked for. */
  lemma AbsolutePathResolves(nodes: Nodes, root: Id, f: Forest, path: seq<Id>, start: Option<Id>, up: seq<Id>,
                             searchAbove: bool, permanentOnly: bool)
    requires Rooted(nodes, root, f) && WellNamed(nodes, f) && Located(f, path)
    requires forall id :: id in path ==> id in nodes
    ensures
      var node := Along(root, path, |path|);
      Resolve(nodes, root, f, start, up, AbsolutePath(Names(nodes, path)), searchAbove, permanentOnly)
        == Deliver(nodes, Some(node), permanentOnly)
  {
    var names := Names(nodes, path);
    var text := AbsolutePath(names);
    var rest := if names == [] then [] else names[0] + Dotted(names[1..]);
    assert text == ['\\'] + rest && text[1..] == rest;
    assert Spells(nodes, rest, path);
    DescendFollows(nodes, root, f, root, path, rest, false);
  }

  /** Every node below the root has an absolute path, and from any starting node that
      path resolves to it. */
  lemma EveryNodeResolves(nodes: Nodes, root: Id, f: Forest, id: Id, start: Option<Id>, up: seq<Id>,
                          searchAbove: bool, permanentOnly: bool) returns (path: seq<Id>)
    requires Rooted(nodes, root, f) && WellNamed(nodes, f) && id in Ids(f)
    ensures path != [] && path[|path| - 1] == id && forall x :: x in path ==> x in nodes
    ensures Resolve(nodes, root, f, start, up, AbsolutePath(Names(nodes, path)), searchAbove, permanentOnly)
         == Deliver(nodes, Some(id), permanentOnly)
  {
    hide Resolve, AbsolutePath, Deliver;
    path := PathTo(f, id);
    LocatedChain(nodes, nodes[root].child, root, f, path);
    AbsolutePathResolves(nodes, root, f, path, start, up, searchAbove, permanentOnly);
  }

  /** `uacpi_strlen`. */
  method StrLen(text: array<char>) returns (n: nat)
    requires '\0' in text[..]
    ensures n < text.Length && text[n] == '\0' && forall i :: 0 <= i < n ==> text[i] != '\0'
  {
    n := 0;
    while text[n] != '\0'
      invariant n < text.Length && '\0' in text[n..]
      invariant forall i :: 0 <= i < n ==> text[i] != '\0'
      decreases text.Length - n
    {
      n := n + 1;
    }
  }

  /** Generating the path of a node and looking it up again. */
  method PathRoundTrip(nodes: Nodes, root: Id, node: Id, start: Option<Id>, searchAbove: bool, permanentOnly: bool,
                       ghost f: Forest, ghost path: seq<Id>, ghost up: seq<Id>) returns (r: Outcome)
    requires Rooted(nodes, root, f) && WellNamed(nodes, f) && Located(f, path)
    requires node == Along(root, path, |path|)
    requires start.Some? ==> Member(f, root, start.value) && Lineage(nodes, start.value, up)
    ensures r == Deliver(nodes, Some(node), permanentOnly)
  {
    LocatedChain(nodes, nodes[root].child, root, f, path);
    forall id | id in path
      ensures id in nodes && ValidName(nodes[id].name)
    {
      var j :| 0 <= j < |path| && path[j] == id;
    }
    var text := GenerateAbsolutePath(nodes, root, node, true, path);
    ghost var names := Names(nodes, path);
    ghost var full := AbsolutePath(names);
    NoTerminatorInside(names);
    assert text.value[..][|full|] == '\0';
    var n := StrLen(text.value);
    EndsAtTerminator(text.value[..], full, n);
    assert text.value[..n] == text.value[..][..n];
    r := NodeResolve(nodes, root, start, text.value[..n], searchAbove, permanentOnly, f, up);
    AbsolutePathResolves(nodes, root, f, path, start, up, searchAbove, permanentOnly);
  }

  lemma EndsAtTerminator(text: seq<char>, full: seq<char>, n: nat)
    requires text == full + ['\0'] && '\0' !in full
    requires n < |text| && text[n] == '\0' && forall i :: 0 <= i < n ==> text[i] != '\0'
    ensures text[..n] == full
  {
    assert forall i :: 0 <= i < |full| ==> text[i] == full[i] && full[i] in full;
  }

  lemma {:induction false} NoTerminatorInside(names: seq<seq<char>>)
    requires forall n :: n in names ==> ValidName(n)
    ensures '\0' !in Dotted(names) && '\0' !in AbsolutePath(names)
  {
    if names != [] {
      assert names[0] in names && forall n :: n in names[1..] ==> n in names;
      NoTerminatorInside(names[1..]);
    }
  }
}
