/** Relative paths (`external/uacpi/source/namespace.c`): carets, names spelt down, and the
    search through the scopes above. */
module NamespaceScopes {
  import opened Machine
  import opened Namespace
  import opened NamespacePath

  function Carets(k: nat): seq<char> { if k == 0 then [] else ['^'] + Carets(k - 1) }

  ghost predicate NoPrefix(text: seq<char>) { text == [] || (text[0] != '\\' && text[0] != '^') }

  /** A node and its ancestors, nearest first. */
  function Scopes(start: Id, up: seq<Id>): seq<Id> { [start] + up }

  /** Only the root has no ancestors. */
  lemma {:induction false} LineageEnds(nodes: Nodes, root: Id, f: Forest, id: Id, up: seq<Id>)
    requires Rooted(nodes, root, f) && Member(f, root, id) && Lineage(nodes, id, up)
    ensures id == root <==> up == []
    ensures forall j :: 0 <= j < |up| ==> Member(f, root, up[j]) && Lineage(nodes, up[j], up[j + 1..])
    decreases |up|
  {
    MemberLinked(nodes, root, f, id);
    if up != [] {
      LineageEnds(nodes, root, f, up[0], up[1..]);
      forall j | 0 <= j < |up|
        ensures Member(f, root, up[j]) && Lineage(nodes, up[j], up[j + 1..])
      {
        if j > 0 {
          assert up[j] == up[1..][j - 1] && up[j + 1..] == up[1..][j..];
        } else {
          assert up[1..] == up[0 + 1..];
        }
      }
    }
  }

  /** What the prefix loop makes of carets: one ancestor each, and none beyond the root. */
  lemma {:induction false} CaretsClimb(nodes: Nodes, root: Id, f: Forest, id: Id, up: seq<Id>, k: nat,
                                       text: seq<char>, prev: char, single: bool)
    requires Rooted(nodes, root, f) && Member(f, root, id) && Lineage(nodes, id, up)
    ensures var r := SkipPrefix(nodes, root, id, Carets(k) + text, prev, single);
      && (k > |up| ==> r == Rejected)
      && (0 < k <= |up| && NoPrefix(text) ==> r == Resolved(up[k - 1], text, false))
      && (0 < k && text != [] && text[0] == '\\' ==> r == Rejected)
    decreases k
  {
    if k > 0 {
      LineageEnds(nodes, root, f, id, up);
      MemberLinked(nodes, root, f, id);
      var rest := Carets(k - 1) + text;
      assert Carets(k) + text == ['^'] + rest && (Carets(k) + text)[1..] == rest;
      if up != [] {
        CaretsClimb(nodes, root, f, up[0], up[1..], k - 1, text, '^', false);
        if k == 1 {
          assert rest == text;
        }
      }
    }
  }

  /** `k` carets and a text without prefix resolve as that text does from the `k`-th
      ancestor, with no search above; more carets than ancestors are refused. */
  lemma CaretsResolve(nodes: Nodes, root: Id, f: Forest, start: Id, up: seq<Id>, k: nat, text: seq<char>,
                      searchAbove: bool, permanentOnly: bool)
    requires Rooted(nodes, root, f) && Member(f, root, start) && Lineage(nodes, start, up) && k > 0
    ensures var r := Resolve(nodes, root, f, Some(start), up, Carets(k) + text, searchAbove, permanentOnly);
      && (k > |up| ==> r == BadPath)
      && (k <= |up| && NoPrefix(text) ==>
            r == Resolve(nodes, root, f, Some(up[k - 1]), up[k..], text, false, permanentOnly))
      && (text != [] && text[0] == '\\' ==> r == BadPath)
  {
    CaretsClimb(nodes, root, f, start, up, k, text, ' ', true);
    if k <= |up| && NoPrefix(text) {
      NoSearchLater(nodes, root, f, up[k - 1], text);
      SameDescent(nodes, root, f, up[k - 1], text);
    }
  }

  /** Whether it is the only segment matters for a missing name alone. */
  lemma {:induction false} SameDescent(nodes: Nodes, root: Id, f: Forest, cur: Id, text: seq<char>)
    ensures var a, b := Descend(nodes, root, f, cur, text, true), Descend(nodes, root, f, cur, text, false);
      (a.Arrived? ==> a == b) && (a.Missing? ==> b.Missing? && b.name == a.name)
    decreases |text|
  {
    if text != [] {
      var segment := SkipDot(text);
      var name, rest := SegmentName(segment, 4), SegmentRest(segment, 4);
      match First(nodes, KidsOf(f, root, cur), name)
      case None =>
      case Some(id) =>
        if rest == [] {
          assert Descend(nodes, root, f, id, rest, true) == Descend(nodes, root, f, id, rest, false);
        }
    }
  }

  /** Carets up to an ancestor, or none, then the names down from there: the way from any node
      to any other, through any node above both. */
  lemma RelativePath(nodes: Nodes, root: Id, f: Forest, start: Id, up: seq<Id>, k: nat, path: seq<Id>,
                     text: seq<char>, searchAbove: bool, permanentOnly: bool)
    requires Rooted(nodes, root, f) && WellNamed(nodes, f)
    requires Member(f, root, start) && Lineage(nodes, start, up) && k <= |up|
    requires Located(KidsOf(f, root, Scopes(start, up)[k]), path)
    requires (forall id :: id in path ==> id in nodes) && Spells(nodes, text, path)
    ensures Resolve(nodes, root, f, Some(start), up, Carets(k) + text, searchAbove, permanentOnly)
         == Deliver(nodes, Some(Along(Scopes(start, up)[k], path, |path|)), permanentOnly)
  {
    hide Resolve, Descend, Deliver, Spells, Located, WellNamed, Rooted, Names;
    LineageEnds(nodes, root, f, start, up);
    var from := Scopes(start, up)[k];
    WellNamedBelow(nodes, root, f, from);
    SpellsNoPrefix(nodes, root, f, from, path, text);
    DescendFollows(nodes, root, f, from, path, text, true);
    ArrivedResolves(nodes, root, f, from, up[k..], text, searchAbove && k == 0, permanentOnly);
    if k == 0 {
      assert Carets(0) + text == text && up[0..] == up;
    } else {
      CaretsResolve(nodes, root, f, start, up, k, text, searchAbove, permanentOnly);
    }
  }

  lemma ArrivedResolves(nodes: Nodes, root: Id, f: Forest, start: Id, up: seq<Id>, text: seq<char>,
                        searchAbove: bool, permanentOnly: bool)
    requires NoPrefix(text) && Descend(nodes, root, f, start, text, true).Arrived?
    ensures Resolve(nodes, root, f, Some(start), up, text, searchAbove, permanentOnly)
         == Deliver(nodes, Some(Descend(nodes, root, f, start, text, true).id), permanentOnly)
  {}

  lemma {:induction false} NamedBelow(nodes: Nodes, f: Forest, id: Id)
    requires WellNamed(nodes, f)
    ensures WellNamed(nodes, Search(f, id))
    decreases f
  {
    if f.Tree? {
      NamedBelow(nodes, f.kids, id);
      NamedBelow(nodes, f.peers, id);
    }
  }

  lemma WellNamedBelow(nodes: Nodes, root: Id, f: Forest, id: Id)
    requires WellNamed(nodes, f)
    ensures WellNamed(nodes, KidsOf(f, root, id))
  {
    NamedBelow(nodes, f, id);
  }

  lemma SpellsNoPrefix(nodes: Nodes, root: Id, f: Forest, from: Id, path: seq<Id>, text: seq<char>)
    requires Rooted(nodes, root, f) && Member(f, root, from) && WellNamed(nodes, KidsOf(f, root, from))
    requires Located(KidsOf(f, root, from), path)
    requires (forall id :: id in path ==> id in nodes) && Spells(nodes, text, path)
    ensures NoPrefix(text)
  {
    if path != [] {
      MemberLinked(nodes, root, f, from);
      var kids := FirstStep(nodes, nodes[from].child, from, KidsOf(f, root, from), path);
      var name := Names(nodes, path)[0];
      assert name[0] in name;
    }
  }

  /** A single segment finds the nearest scope, from the start outwards, that has the name. */
  lemma NearestScope(nodes: Nodes, root: Id, f: Forest, start: Id, up: seq<Id>, text: seq<char>, j: nat,
                     permanentOnly: bool)
    requires NoPrefix(text) && text != [] && SegmentRest(SkipDot(text), 4) == [] && j <= |up|
    requires var name := SegmentName(SkipDot(text), 4);
      && First(nodes, KidsOf(f, root, Scopes(start, up)[j]), name).Some?
      && forall i :: 0 <= i < j ==> First(nodes, KidsOf(f, root, Scopes(start, up)[i]), name) == None
    ensures Resolve(nodes, root, f, Some(start), up, text, true, permanentOnly)
         == Deliver(nodes, First(nodes, KidsOf(f, root, Scopes(start, up)[j]), SegmentName(SkipDot(text), 4)),
                    permanentOnly)
  {
    OneSegment(nodes, root, f, start, text);
    if j > 0 {
      assert First(nodes, KidsOf(f, root, Scopes(start, up)[0]), SegmentName(SkipDot(text), 4)) == None;
      assert forall i :: 0 <= i < |up| ==> Scopes(start, up)[i + 1] == up[i];
      NearestAbove(nodes, root, f, up, SegmentName(SkipDot(text), 4), j - 1);
    }
  }

  /** And when no scope has it, nothing. */
  lemma NoScope(nodes: Nodes, root: Id, f: Forest, start: Id, up: seq<Id>, text: seq<char>, permanentOnly: bool)
    requires NoPrefix(text) && text != [] && SegmentRest(SkipDot(text), 4) == []
    requires forall i :: 0 <= i <= |up| ==>
      First(nodes, KidsOf(f, root, Scopes(start, up)[i]), SegmentName(SkipDot(text), 4)) == None
    ensures Resolve(nodes, root, f, Some(start), up, text, true, permanentOnly) == NotFound
  {
    OneSegment(nodes, root, f, start, text);
    assert First(nodes, KidsOf(f, root, Scopes(start, up)[0]), SegmentName(SkipDot(text), 4)) == None;
    assert forall i :: 0 <= i < |up| ==> Scopes(start, up)[i + 1] == up[i];
    NoneAbove(nodes, root, f, up, SegmentName(SkipDot(text), 4));
  }

  lemma OneSegment(nodes: Nodes, root: Id, f: Forest, cur: Id, text: seq<char>)
    requires text != [] && SegmentRest(SkipDot(text), 4) == []
    ensures var name := SegmentName(SkipDot(text), 4);
      Descend(nodes, root, f, cur, text, true) ==
        match First(nodes, KidsOf(f, root, cur), name)
        case None => Missing(name, true)
        case Some(id) => Arrived(id)
  {}

  lemma {:induction false} NearestAbove(nodes: Nodes, root: Id, f: Forest, up: seq<Id>, name: seq<char>, j: nat)
    requires j < |up| && First(nodes, KidsOf(f, root, up[j]), name).Some?
    requires forall i :: 0 <= i < j ==> First(nodes, KidsOf(f, root, up[i]), name) == None
    ensures SearchAbove(nodes, root, f, up, name) == First(nodes, KidsOf(f, root, up[j]), name)
    decreases |up|
  {
    if j > 0 {
      NearestAbove(nodes, root, f, up[1..], name, j - 1);
    }
  }

  lemma {:induction false} NoneAbove(nodes: Nodes, root: Id, f: Forest, up: seq<Id>, name: seq<char>)
    requires forall i :: 0 <= i < |up| ==> First(nodes, KidsOf(f, root, up[i]), name) == None
    ensures SearchAbove(nodes, root, f, up, name) == None
    decreases |up|
  {
    if up != [] {
      NoneAbove(nodes, root, f, up[1..], name);
    }
  }

  /** The search above is for a single segment without prefix; it changes no other answer. */
  lemma SearchOnlySingle(nodes: Nodes, root: Id, f: Forest, start: Option<Id>, up: seq<Id>, text: seq<char>,
                         permanentOnly: bool)
    requires !NoPrefix(text) || text == [] || SegmentRest(SkipDot(text), 4) != []
    ensures Resolve(nodes, root, f, start, up, text, true, permanentOnly)
         == Resolve(nodes, root, f, start, up, text, false, permanentOnly)
  {
    var cur := if start.Some? then start.value else root;
    PrefixIsNotSingle(nodes, root, cur, text, ' ', true);
    match SkipPrefix(nodes, root, cur, text, ' ', true)
    case Rejected =>
    case Resolved(at, rest, single) =>
      if !single {
        NoSearchLater(nodes, root, f, at, rest);
      } else if rest != [] {
        var segment := SkipDot(rest);
        match First(nodes, KidsOf(f, root, at), SegmentName(segment, 4))
        case None =>
        case Some(id) => NoSearchLater(nodes, root, f, id, SegmentRest(segment, 4));
      }
  }

  lemma PrefixIsNotSingle(nodes: Nodes, root: Id, cur: Id, text: seq<char>, prev: char, single: bool)
    ensures var r := SkipPrefix(nodes, root, cur, text, prev, single);
      && (NoPrefix(text) ==> r == Resolved(cur, text, single))
      && (!NoPrefix(text) && r.Resolved? ==> !r.singleSegment)
  {
    if text != [] && text[0] == '^' && cur != root && cur in nodes && nodes[cur].parent.Some? {
      NeverSingleAgain(nodes, root, nodes[cur].parent.value, text[1..], '^');
    }
  }

  lemma {:induction false} NeverSingleAgain(nodes: Nodes, root: Id, cur: Id, text: seq<char>, prev: char)
    ensures var r := SkipPrefix(nodes, root, cur, text, prev, false); r.Resolved? ==> !r.singleSegment
    decreases |text|
  {
    if text != [] && text[0] == '^' && cur != root && cur in nodes && nodes[cur].parent.Some? {
      NeverSingleAgain(nodes, root, nodes[cur].parent.value, text[1..], '^');
    }
  }
}
