/**
 * The containment hierarchy read as a forest: which elements lie inside an
 * element, how a rank keeps the hierarchy acyclic when an element is dropped
 * into a container, and what BaseElement.move / Volume.move do to the
 * elements they reach.
 */
module Tree {
  import opened Wrappers
  import opened Arena

  /** x is r itself or lies inside r, at any depth. */
  ghost predicate InSubtree(nodes: map<Id, Node>, rank: map<Id, nat>, r: Id, x: Id)
    requires Ranked(nodes, rank) && r in nodes
    decreases rank[r]
  {
    r == x || exists c :: c in nodes[r].children && c in nodes && InSubtree(nodes, rank, c, x)
  }

  /** Everything inside r, r included. */
  ghost function Subtree(nodes: map<Id, Node>, rank: map<Id, nat>, r: Id): set<Id>
    requires Ranked(nodes, rank) && r in nodes
  {
    set x | x in nodes && InSubtree(nodes, rank, r, x)
  }

  /** The subtrees of the elements kids, together. */
  ghost function Covered(nodes: map<Id, Node>, rank: map<Id, nat>, kids: seq<Id>): set<Id>
    requires Ranked(nodes, rank) && forall k :: k in kids ==> k in nodes
  {
    if kids == [] then {} else Covered(nodes, rank, kids[..|kids| - 1]) + Subtree(nodes, rank, kids[|kids| - 1])
  }

  /** Whatever lies inside r exists and ranks no higher than r. */
  lemma {:induction false} SubtreeRank(nodes: map<Id, Node>, rank: map<Id, nat>, r: Id, x: Id)
    requires Ranked(nodes, rank) && r in nodes && InSubtree(nodes, rank, r, x)
    ensures x in nodes && x in rank && rank[x] <= rank[r]
    decreases rank[r]
  {
    if r != x {
      var c :| c in nodes[r].children && c in nodes && InSubtree(nodes, rank, c, x);
      SubtreeRank(nodes, rank, c, x);
    }
  }

  /** Inside a child is inside its container. */
  lemma ChildSubtree(nodes: map<Id, Node>, rank: map<Id, nat>, r: Id, c: Id, x: Id)
    requires Ranked(nodes, rank) && r in nodes && c in nodes[r].children && c in nodes
    requires InSubtree(nodes, rank, c, x)
    ensures InSubtree(nodes, rank, r, x)
  {
  }

  /** An element strictly inside r has a parent, and that parent is inside r too. */
  lemma {:induction false} SubtreeParent(nodes: map<Id, Node>, rank: map<Id, nat>, r: Id, x: Id)
    requires Ranked(nodes, rank) && ChildrenLinked(nodes) && r in nodes
    requires InSubtree(nodes, rank, r, x) && x != r
    ensures x in nodes && nodes[x].parent.Some?
    ensures var p := nodes[x].parent.value;
      p in nodes && x in nodes[p].children && InSubtree(nodes, rank, r, p)
    decreases rank[r]
  {
    var c :| c in nodes[r].children && c in nodes && InSubtree(nodes, rank, c, x);
    if c != x {
      SubtreeParent(nodes, rank, c, x);
      ChildSubtree(nodes, rank, r, c, nodes[x].parent.value);
    }
  }

  /** A parentless element lies inside nothing but itself. */
  lemma TopLevelInsideOnlyItself(nodes: map<Id, Node>, rank: map<Id, nat>, r: Id, t: Id)
    requires Ranked(nodes, rank) && ChildrenLinked(nodes) && r in nodes && t in nodes
    requires nodes[t].parent == None && InSubtree(nodes, rank, r, t)
    ensures r == t
  {
    if r != t {
      SubtreeParent(nodes, rank, r, t);
    }
  }

  /** Two elements that both contain x are nested one in the other. */
  lemma {:induction false} SubtreesNested(nodes: map<Id, Node>, rank: map<Id, nat>, a: Id, b: Id, x: Id)
    requires Ranked(nodes, rank) && ChildrenLinked(nodes) && a in nodes && b in nodes
    requires InSubtree(nodes, rank, a, x) && InSubtree(nodes, rank, b, x)
    ensures InSubtree(nodes, rank, a, b) || InSubtree(nodes, rank, b, a)
    decreases if x in rank && rank[x] <= rank[a] then rank[a] - rank[x] else 0
  {
    SubtreeRank(nodes, rank, a, x);
    if x != a && x != b {
      SubtreeParent(nodes, rank, a, x);
      SubtreeParent(nodes, rank, b, x);
      var p := nodes[x].parent.value;
      SubtreeRank(nodes, rank, a, p);
      SubtreesNested(nodes, rank, a, b, p);
    }
  }

  /** Two different children of one container have no element in common. */
  lemma SiblingsDisjoint(nodes: map<Id, Node>, rank: map<Id, nat>, p: Id, a: Id, b: Id, x: Id)
    requires Ranked(nodes, rank) && ChildrenLinked(nodes) && p in nodes
    requires a in nodes[p].children && b in nodes[p].children && a != b
    ensures !(InSubtree(nodes, rank, a, x) && InSubtree(nodes, rank, b, x))
  {
    if InSubtree(nodes, rank, a, x) && InSubtree(nodes, rank, b, x) {
      SubtreesNested(nodes, rank, a, b, x);
      if InSubtree(nodes, rank, a, b) {
        SubtreeParent(nodes, rank, a, b);
        SubtreeRank(nodes, rank, a, p);
      } else {
        SubtreeParent(nodes, rank, b, a);
        SubtreeRank(nodes, rank, b, p);
      }
    }
  }

  /** A container does not lie inside any of its children. */
  lemma NotInsideChild(nodes: map<Id, Node>, rank: map<Id, nat>, r: Id, c: Id)
    requires Ranked(nodes, rank) && r in nodes && c in nodes[r].children && c in nodes
    ensures !InSubtree(nodes, rank, c, r)
  {
    if InSubtree(nodes, rank, c, r) {
      SubtreeRank(nodes, rank, c, r);
    }
  }

  /** Membership in the subtrees of a list of elements. */
  lemma {:induction false} CoveredMembers(nodes: map<Id, Node>, rank: map<Id, nat>, kids: seq<Id>, x: Id)
    requires Ranked(nodes, rank) && forall k :: k in kids ==> k in nodes
    ensures x in Covered(nodes, rank, kids) <==> exists k :: k in kids && InSubtree(nodes, rank, k, x)
  {
    if kids != [] {
      var init, last := kids[..|kids| - 1], kids[|kids| - 1];
      assert forall k :: k in init ==> k in kids;
      CoveredMembers(nodes, rank, init, x);
      assert Covered(nodes, rank, kids) == Covered(nodes, rank, init) + Subtree(nodes, rank, last);
      if InSubtree(nodes, rank, last, x) {
        SubtreeRank(nodes, rank, last, x);
        assert x in Subtree(nodes, rank, last);
      }
      if exists k :: k in kids && InSubtree(nodes, rank, k, x) {
        var k :| k in kids && InSubtree(nodes, rank, k, x);
        if k != last {
          assert k in init by {
            assert kids == init + [last];
          }
        }
      }
    }
  }

  /** The subtree of r is r and the subtrees of its children. */
  lemma SubtreeSplits(nodes: map<Id, Node>, rank: map<Id, nat>, r: Id)
    requires Ranked(nodes, rank) && r in nodes && forall k :: k in nodes[r].children ==> k in nodes
    ensures Subtree(nodes, rank, r) == {r} + Covered(nodes, rank, nodes[r].children)
  {
    var kids := nodes[r].children;
    forall x ensures x in Subtree(nodes, rank, r) <==> x in {r} + Covered(nodes, rank, kids) {
      CoveredMembers(nodes, rank, kids, x);
      if x in Covered(nodes, rank, kids) {
        var k :| k in kids && InSubtree(nodes, rank, k, x);
        SubtreeRank(nodes, rank, k, x);
      }
    }
  }

  /**
   * The i-th child's subtree shares nothing with the container and the
   * subtrees of the children before it.
   */
  lemma ChildSubtreeFresh(nodes: map<Id, Node>, rank: map<Id, nat>, r: Id, i: nat)
    requires Ranked(nodes, rank) && ChildrenLinked(nodes) && r in nodes && i < |nodes[r].children|
    ensures var kids := nodes[r].children;
      Subtree(nodes, rank, kids[i]) !! {r} + Covered(nodes, rank, kids[..i])
  {
    var kids := nodes[r].children;
    NotInsideChild(nodes, rank, r, kids[i]);
    forall x | x in Covered(nodes, rank, kids[..i]) ensures !InSubtree(nodes, rank, kids[i], x) {
      EarlierSiblingCovers(nodes, rank, r, i, x);
    }
  }

  /** What an earlier sibling covers lies outside the later sibling's subtree. */
  lemma EarlierSiblingCovers(nodes: map<Id, Node>, rank: map<Id, nat>, r: Id, i: nat, x: Id)
    requires Ranked(nodes, rank) && ChildrenLinked(nodes) && r in nodes && i < |nodes[r].children|
    requires x in Covered(nodes, rank, nodes[r].children[..i])
    ensures !InSubtree(nodes, rank, nodes[r].children[i], x)
  {
    var kids := nodes[r].children;
    CoveredMembers(nodes, rank, kids[..i], x);
    var k :| k in kids[..i] && InSubtree(nodes, rank, k, x);
    var j :| 0 <= j < i && kids[j] == k;
    SiblingsDisjoint(nodes, rank, r, k, kids[i], x);
  }

  /** Growing the covered prefix by one child adds that child's subtree. */
  lemma CoveredStep(nodes: map<Id, Node>, rank: map<Id, nat>, kids: seq<Id>, i: nat)
    requires Ranked(nodes, rank) && i < |kids| && forall k :: k in kids ==> k in nodes
    ensures Covered(nodes, rank, kids[..i + 1]) == Covered(nodes, rank, kids[..i]) + Subtree(nodes, rank, kids[i])
  {
    assert kids[..i + 1][..i] == kids[..i];
  }

  /** Containment alone decides what lies inside what; the ranks witnessing it do not matter. */
  lemma {:induction false} InSubtreeRankFree(nodes: map<Id, Node>, rank1: map<Id, nat>, rank2: map<Id, nat>, r: Id, x: Id)
    requires Ranked(nodes, rank1) && Ranked(nodes, rank2) && r in nodes
    ensures InSubtree(nodes, rank1, r, x) == InSubtree(nodes, rank2, r, x)
    decreases rank1[r]
  {
    if r != x {
      if InSubtree(nodes, rank1, r, x) {
        var c :| c in nodes[r].children && c in nodes && InSubtree(nodes, rank1, c, x);
        InSubtreeRankFree(nodes, rank1, rank2, c, x);
      }
      if InSubtree(nodes, rank2, r, x) {
        var c :| c in nodes[r].children && c in nodes && InSubtree(nodes, rank2, c, x);
        InSubtreeRankFree(nodes, rank1, rank2, c, x);
      }
    }
  }

  /** Arenas with the same structure have the same subtrees. */
  lemma {:induction false} InSubtreeSameStructure(a: map<Id, Node>, b: map<Id, Node>, rank: map<Id, nat>, r: Id, x: Id)
    requires SameStructure(a, b) && Ranked(a, rank) && r in a
    ensures Ranked(b, rank) && InSubtree(a, rank, r, x) == InSubtree(b, rank, r, x)
    decreases rank[r]
  {
    SameStructureRanked(a, b, rank);
    SameStructureFields(a, b, r);
    if r != x {
      if InSubtree(a, rank, r, x) {
        var c :| c in a[r].children && c in a && InSubtree(a, rank, c, x);
        InSubtreeSameStructure(a, b, rank, c, x);
      }
      if InSubtree(b, rank, r, x) {
        var c :| c in b[r].children && c in b && InSubtree(b, rank, c, x);
        InSubtreeSameStructure(a, b, rank, c, x);
      }
    }
  }

  lemma SubtreeSameStructure(a: map<Id, Node>, b: map<Id, Node>, rank: map<Id, nat>, r: Id)
    requires SameStructure(a, b) && Ranked(a, rank) && r in a
    ensures Ranked(b, rank) && Subtree(a, rank, r) == Subtree(b, rank, r)
  {
    SameStructureRanked(a, b, rank);
    forall x ensures x in Subtree(a, rank, r) <==> x in Subtree(b, rank, r) {
      InSubtreeSameStructure(a, b, rank, r, x);
    }
  }

  // ----- dropping an element into a container keeps the hierarchy acyclic -----

  /**
   * The rank after e becomes a child of c: c and everything containing c move
   * up by rank[e] + 1, so that e, which does not contain c, ranks below c.
   */
  ghost function Bumped(nodes: map<Id, Node>, rank: map<Id, nat>, c: Id, e: Id): map<Id, nat>
    requires Ranked(nodes, rank) && e in nodes
  {
    map id | id in rank :: if id in nodes && InSubtree(nodes, rank, id, c) then rank[id] + rank[e] + 1 else rank[id]
  }

  /**
   * Attaching e to c keeps the hierarchy acyclic whenever e does not contain c,
   * which is what Volume.add_element needs of its caller.
   */
  lemma AttachRanked(nodes: map<Id, Node>, rank: map<Id, nat>, c: Id, e: Id)
    requires Ranked(nodes, rank) && c in nodes && e in nodes
    requires !InSubtree(nodes, rank, e, c)
    ensures Ranked(Attach(nodes, c, e), Bumped(nodes, rank, c, e))
  {
    var r, rank2 := Attach(nodes, c, e), Bumped(nodes, rank, c, e);
    assert InSubtree(nodes, rank, c, c);
    forall p | p in r
      ensures p in rank2 && forall k :: k in r[p].children && k in r ==> k in rank2 && rank2[k] < rank2[p]
    {
      forall k | k in r[p].children && k in r ensures k in rank2 && rank2[k] < rank2[p] {
        if k in nodes[p].children {
          if InSubtree(nodes, rank, k, c) {
            ChildSubtree(nodes, rank, p, k, c);
          }
        } else {
          assert p == c && k == e;
        }
      }
    }
  }

  /** The list and link step of Volume.add_element keeps a linked, acyclic arena a hierarchy under the bumped ranks. */
  lemma AttachHierarchy(nodes: map<Id, Node>, elements: seq<Id>, rank: map<Id, nat>, c: Id, e: Id)
    requires Linked(nodes, elements) && Ranked(nodes, rank) && c in nodes && e in nodes
    requires IsVolume(nodes[c].kind) && nodes[e].parent == None && !InSubtree(nodes, rank, e, c)
    ensures c != e && Hierarchy(Attach(nodes, c, e), Bumped(nodes, rank, c, e))
  {
    assert InSubtree(nodes, rank, e, e);
    AttachLinked(nodes, elements, c, e);
    AttachRanked(nodes, rank, c, e);
  }

  /** Taking a child out of a container keeps the hierarchy acyclic under the same rank. */
  lemma DetachRanked(nodes: map<Id, Node>, rank: map<Id, nat>, c: Id, e: Id)
    requires Ranked(nodes, rank) && c in nodes && e in nodes
    ensures Ranked(Detach(nodes, c, e), rank)
  {
    if e in nodes[c].children {
      RemoveFirstMembers(nodes[c].children, e);
    }
  }

  /** Two arenas that agree on every pointer field. */
  ghost predicate SamePointers(a: map<Id, Node>, b: map<Id, Node>)
  {
    a.Keys == b.Keys &&
    forall id :: id in a ==> a[id].pointers == b[id].pointers && a[id].target == b[id].target && a[id].kind == b[id].kind
  }

  lemma SamePointersTrans(a: map<Id, Node>, b: map<Id, Node>, c: map<Id, Node>)
    requires SamePointers(a, b) && SamePointers(b, c)
    ensures SamePointers(a, c)
  {
  }

  lemma SamePointersKeeps(a: map<Id, Node>, b: map<Id, Node>)
    requires SamePointers(a, b) && PointerLinks(a)
    ensures PointerLinks(b)
  {
    assert IncomingDistinct(b) by {
      forall t | t in b ensures NoDup(b[t].pointers) {
      }
    }
    assert IncomingTarget(b) by {
      forall t, p | t in b && p in b[t].pointers ensures p in b && b[p].target == Some(t) {
        assert p in a[t].pointers;
      }
    }
    assert TargetListed(b) by {
      forall p | p in b && b[p].target.Some?
        ensures b[p].kind == PointerCell && b[p].target.value in b && p in b[b[p].target.value].pointers
      {
        assert a[p].target == b[p].target;
      }
    }
  }

  lemma AttachPointerLinks(nodes: map<Id, Node>, c: Id, e: Id)
    requires PointerLinks(nodes) && c in nodes && e in nodes
    ensures PointerLinks(Attach(nodes, c, e))
  {
    var r := Attach(nodes, c, e);
    forall id | id in nodes ensures id in r && r[id].pointers == nodes[id].pointers && r[id].target == nodes[id].target && r[id].kind == nodes[id].kind {
    }
    SamePointersKeeps(nodes, r);
  }

  lemma DetachPointerLinks(nodes: map<Id, Node>, c: Id, e: Id)
    requires PointerLinks(nodes) && c in nodes && e in nodes
    ensures PointerLinks(Detach(nodes, c, e))
  {
    var r := Detach(nodes, c, e);
    forall id | id in nodes ensures id in r && r[id].pointers == nodes[id].pointers && r[id].target == nodes[id].target && r[id].kind == nodes[id].kind {
    }
    SamePointersKeeps(nodes, r);
  }

  /**
   * Volume.add_element on a parentless element that does not contain the
   * container keeps every invariant, once the element leaves the canvas list.
   */
  lemma AddElementKeeps(nodes: map<Id, Node>, elements: seq<Id>, rank: map<Id, nat>, c: Id, e: Id)
    requires Linked(nodes, elements) && PointerLinks(nodes) && Ranked(nodes, rank)
    requires c in nodes && e in nodes && IsVolume(nodes[c].kind) && nodes[e].parent == None
    requires !InSubtree(nodes, rank, e, c)
    ensures var r, rank2 := Relayout(Attach(nodes, c, e), c), Bumped(nodes, rank, c, e);
      && AddElement(nodes, c, e) == r && r.Keys == nodes.Keys
      && Linked(r, RemoveFirst(elements, e)) && PointerLinks(r) && Ranked(r, rank2)
      && (Partitioned(nodes, elements) ==> Partitioned(r, RemoveFirst(elements, e)))
  {
    var a, r := Attach(nodes, c, e), Relayout(Attach(nodes, c, e), c);
    var els, rank2 := RemoveFirst(elements, e), Bumped(nodes, rank, c, e);
    assert InSubtree(nodes, rank, e, e);
    assert AddElement(nodes, c, e) == r;
    assert r.Keys == nodes.Keys by {
      assert SameStructure(a, r);
      assert a.Keys == nodes.Keys by {
        var n1 := nodes[e := nodes[e].(parent := Some(c))];
        assert n1.Keys == nodes.Keys;
      }
    }
    assert Linked(a, els) && (Partitioned(nodes, elements) ==> Partitioned(a, els)) by {
      AttachLinked(nodes, elements, c, e);
    }
    assert Ranked(a, rank2) by {
      AttachRanked(nodes, rank, c, e);
    }
    assert PointerLinks(a) by {
      AttachPointerLinks(nodes, c, e);
    }
    assert Linked(r, els) && PointerLinks(r) && Ranked(r, rank2) && (Partitioned(a, els) ==> Partitioned(r, els)) by {
      SameStructureKeeps(a, r, els, rank2);
    }
  }

  /** Detaching a child keeps every invariant, with or without the child joining the canvas list. */
  lemma DetachKeeps(nodes: map<Id, Node>, elements: seq<Id>, rank: map<Id, nat>, c: Id, e: Id)
    requires Linked(nodes, elements) && PointerLinks(nodes) && Ranked(nodes, rank)
    requires c in nodes && e in nodes[c].children
    ensures var d := Detach(nodes, c, e);
      && e in nodes && d.Keys == nodes.Keys && d[e].parent == None && e !in elements && c in d
      && Linked(d, elements) && Linked(d, elements + [e]) && PointerLinks(d) && Ranked(d, rank)
      && (Partitioned(nodes, elements) ==> Partitioned(d, elements + [e]))
  {
    var d := Detach(nodes, c, e);
    assert e in nodes && c != e;
    assert d.Keys == nodes.Keys && d[e].parent == None && c in d by {
      var n1 := nodes[c := nodes[c].(children := RemoveFirst(nodes[c].children, e))];
      assert n1.Keys == nodes.Keys;
    }
    assert e !in elements && Linked(d, elements) && Linked(d, elements + [e])
      && (Partitioned(nodes, elements) ==> Partitioned(d, elements + [e])) by {
      DetachLinked(nodes, elements, c, e);
    }
    assert Ranked(d, rank) by { DetachRanked(nodes, rank, c, e); }
    assert PointerLinks(d) by { DetachPointerLinks(nodes, c, e); }
  }

  /** Volume.remove_element keeps every invariant, with or without the element joining the canvas list. */
  lemma RemoveElementKeeps(nodes: map<Id, Node>, elements: seq<Id>, rank: map<Id, nat>, c: Id, e: Id)
    requires Linked(nodes, elements) && PointerLinks(nodes) && Ranked(nodes, rank)
    requires c in nodes && e in nodes[c].children
    ensures var r := RemoveElement(nodes, c, e);
      && r.Keys == nodes.Keys && e in r && r[e].parent == None && e !in elements
      && Linked(r, elements) && Linked(r, elements + [e]) && PointerLinks(r) && Ranked(r, rank)
      && (Partitioned(nodes, elements) ==> Partitioned(r, elements + [e]))
  {
    DetachKeeps(nodes, elements, rank, c, e);
    var d := Detach(nodes, c, e);
    var r := Relayout(d, c);
    SameStructureKeeps(d, r, elements, rank);
    SameStructureKeeps(d, r, elements + [e], rank);
    SameStructureFields(d, r, e);
  }

  /** The arena StackQueue.remove_element lays out: the child at PopIndex taken out of c's list and off its parent. */
  function PopDetached(nodes: map<Id, Node>, c: Id): map<Id, Node>
    requires c in nodes && nodes[c].children != []
  {
    var k := nodes[c];
    var i := PopIndex(|k.children|, k.isStack);
    var e := k.children[i];
    var n1 := nodes[c := k.(children := k.children[..i] + k.children[i + 1..])];
    if e in n1 then n1[e := n1[e].(parent := None)] else n1
  }

  /**
   * Volume.add_element: an element that already has a parent is left where it
   * is; otherwise it gets c as its parent and becomes c's last child, the
   * other children keeping their order. No other parent link or child list
   * changes, and no target or incoming list does.
   */
  lemma AddElementSpec(nodes: map<Id, Node>, c: Id, e: Id)
    requires c in nodes && e in nodes
    ensures var r := AddElement(nodes, c, e);
      && SamePointers(nodes, r)
      && (nodes[e].parent.Some? ==> r == nodes)
      && (nodes[e].parent == None ==> r[e].parent == Some(c) && r[c].children == nodes[c].children + [e])
      && forall id :: id in nodes && id != c && id != e ==>
           r[id].parent == nodes[id].parent && r[id].children == nodes[id].children
  {
    if nodes[e].parent == None {
      var a := Attach(nodes, c, e);
      var r := Relayout(a, c);
      assert a.Keys == nodes.Keys by {
        var n1 := nodes[e := nodes[e].(parent := Some(c))];
        assert n1.Keys == nodes.Keys;
      }
      forall id | id in nodes
        ensures r[id].pointers == nodes[id].pointers && r[id].target == nodes[id].target && r[id].kind == nodes[id].kind
        ensures id != c && id != e ==> r[id].parent == nodes[id].parent && r[id].children == nodes[id].children
      {
        SameStructureFields(a, r, id);
      }
      SameStructureFields(a, r, e);
      SameStructureFields(a, r, c);
    }
  }

  /**
   * Volume.remove_element: if e is one of c's children it leaves c's list,
   * the others keeping their order, and loses its parent; otherwise nothing
   * changes. No other parent link or child list changes, and no target or
   * incoming list does.
   */
  lemma RemoveElementSpec(nodes: map<Id, Node>, c: Id, e: Id)
    requires c in nodes && e in nodes
    ensures var r := RemoveElement(nodes, c, e); var listed := e in nodes[c].children;
      && SamePointers(nodes, r)
      && (!listed ==> r == nodes)
      && forall id :: id in nodes ==>
           && r[id].parent == (if listed && id == e then None else nodes[id].parent)
           && r[id].children == (if listed && id == c then RemoveFirst(nodes[c].children, e) else nodes[id].children)
  {
    if e in nodes[c].children {
      var d := Detach(nodes, c, e);
      var r := Relayout(d, c);
      assert d.Keys == nodes.Keys by {
        var n1 := nodes[c := nodes[c].(children := RemoveFirst(nodes[c].children, e))];
        assert n1.Keys == nodes.Keys;
      }
      forall id | id in nodes
        ensures r[id].pointers == nodes[id].pointers && r[id].target == nodes[id].target && r[id].kind == nodes[id].kind
        ensures r[id].parent == (if id == e then None else nodes[id].parent)
        ensures r[id].children == (if id == c then RemoveFirst(nodes[c].children, e) else nodes[id].children)
      {
        DetachAt(nodes, c, e, id);
        SameStructureFields(d, r, id);
      }
    }
  }

  /** Each element after the list and link part of Volume.remove_element, field by field. */
  lemma DetachAt(nodes: map<Id, Node>, c: Id, e: Id, id: Id)
    requires c in nodes && e in nodes && id in nodes && e in nodes[c].children
    ensures var d := Detach(nodes, c, e);
      && id in d && d[id].pointers == nodes[id].pointers && d[id].target == nodes[id].target
      && d[id].kind == nodes[id].kind && d[id].arrow == nodes[id].arrow
      && d[id].parent == (if id == e then None else nodes[id].parent)
      && d[id].children == (if id == c then RemoveFirst(nodes[c].children, e) else nodes[id].children)
  {
  }

  /** StackQueue.remove_element on a non-empty container is Volume.remove_element of the child at PopIndex. */
  lemma PopShape(nodes: map<Id, Node>, elements: seq<Id>, rank: map<Id, nat>, c: Id)
    requires Linked(nodes, elements) && Ranked(nodes, rank)
    requires c in nodes && nodes[c].children != []
    ensures var e := nodes[c].children[PopIndex(|nodes[c].children|, nodes[c].isStack)];
      var d := PopDetached(nodes, c);
      && e in nodes && e !in elements && e in nodes[c].children && d == Detach(nodes, c, e)
      && Hierarchy(d, rank) && Pop(nodes, c) == (Relayout(d, c), Some(e))
  {
    var k := nodes[c];
    var i := PopIndex(|k.children|, k.isStack);
    var e := k.children[i];
    var d := PopDetached(nodes, c);
    assert c !in k.children && e in nodes && e !in elements;
    assert Pop(nodes, c) == (Relayout(d, c), Some(e)) && d == Detach(nodes, c, e) by {
      PopIsRemove(nodes, c);
      RemoveAtIndex(k.children, i);
    }
    assert Hierarchy(d, rank) by {
      DetachChildrenLinked(nodes, c, e);
      DetachRanked(nodes, rank, c, e);
    }
  }

  /** StackQueue.remove_element keeps every invariant, with or without the popped element joining the canvas list. */
  lemma PopKeeps(nodes: map<Id, Node>, elements: seq<Id>, rank: map<Id, nat>, c: Id)
    requires Linked(nodes, elements) && PointerLinks(nodes) && Ranked(nodes, rank)
    requires c in nodes && nodes[c].children != []
    ensures var e := nodes[c].children[PopIndex(|nodes[c].children|, nodes[c].isStack)];
      var r := Relayout(PopDetached(nodes, c), c);
      && r.Keys == nodes.Keys && r[e].parent == None
      && Linked(r, elements) && Linked(r, elements + [e]) && PointerLinks(r) && Ranked(r, rank)
      && (Partitioned(nodes, elements) ==> Partitioned(r, elements + [e]))
  {
    var k := nodes[c];
    var e := k.children[PopIndex(|k.children|, k.isStack)];
    var d := PopDetached(nodes, c);
    var r := Relayout(d, c);
    assert d == Detach(nodes, c, e) by { PopShape(nodes, elements, rank, c); }
    assert && d.Keys == nodes.Keys && d[e].parent == None
      && Linked(d, elements) && Linked(d, elements + [e]) && PointerLinks(d) && Ranked(d, rank)
      && (Partitioned(nodes, elements) ==> Partitioned(d, elements + [e])) by {
      DetachKeeps(nodes, elements, rank, c, e);
    }
    assert r.Keys == nodes.Keys && r[e].parent == None && Linked(r, elements) by {
      SameStructureKeeps(d, r, elements, rank);
      SameStructureFields(d, r, e);
    }
    assert Linked(r, elements + [e]) && PointerLinks(r) && Ranked(r, rank)
      && (Partitioned(d, elements + [e]) ==> Partitioned(r, elements + [e])) by {
      SameStructureKeeps(d, r, elements + [e], rank);
    }
  }

  lemma PlaceChildrenLinked(nodes: map<Id, Node>, id: Id, n: Node)
    requires ChildrenLinked(nodes) && id !in nodes && n.children == []
    ensures ChildrenLinked(nodes[id := n])
  {
    var r := nodes[id := n];
    forall p | p in r
      ensures NoDup(r[p].children) && (!IsVolume(r[p].kind) ==> r[p].children == [])
      ensures forall c :: c in r[p].children ==> c in r && r[c].parent == Some(p)
    {
    }
  }

  lemma PlaceParentsLinked(nodes: map<Id, Node>, id: Id, n: Node)
    requires ParentsLinked(nodes) && id !in nodes && n.parent == None
    ensures ParentsLinked(nodes[id := n])
  {
    var r := nodes[id := n];
    forall c | c in r && r[c].parent.Some?
      ensures r[c].parent.value in r && c in r[r[c].parent.value].children
    {
    }
  }

  lemma PlacePointerLinks(nodes: map<Id, Node>, id: Id, n: Node)
    requires PointerLinks(nodes) && id !in nodes && n.pointers == [] && n.target == None
    ensures PointerLinks(nodes[id := n])
  {
    var r := nodes[id := n];
    forall t | t in r ensures NoDup(r[t].pointers) {
    }
    forall t, q | t in r && q in r[t].pointers ensures q in r && r[q].target == Some(t) {
      assert t in nodes && q in nodes[t].pointers;
    }
    forall q | q in r && r[q].target.Some?
      ensures r[q].kind == PointerCell && r[q].target.value in r && q in r[r[q].target.value].pointers
    {
      assert q in nodes;
    }
  }

  lemma PlaceRanked(nodes: map<Id, Node>, rank: map<Id, nat>, id: Id, n: Node)
    requires Ranked(nodes, rank) && ChildrenLinked(nodes) && id !in nodes && n.children == []
    ensures Ranked(nodes[id := n], rank[id := 0])
  {
    var r, rank2 := nodes[id := n], rank[id := 0];
    forall p | p in r
      ensures p in rank2 && forall c :: c in r[p].children && c in r ==> c in rank2 && rank2[c] < rank2[p]
    {
      if p != id {
        forall c | c in r[p].children && c in r ensures c in rank2 && rank2[c] < rank2[p] {
          assert c in nodes;
        }
      }
    }
  }

  /** A new parentless, childless element with no pointers keeps the invariants while not on the canvas list. */
  lemma ConstructKeeps(nodes: map<Id, Node>, elements: seq<Id>, rank: map<Id, nat>, id: Id, n: Node)
    requires Linked(nodes, elements) && PointerLinks(nodes) && Ranked(nodes, rank) && id !in nodes
    requires n.parent == None && n.children == [] && n.pointers == [] && n.target == None
    ensures var r := nodes[id := n];
      Linked(r, elements) && PointerLinks(r) && Ranked(r, rank[id := 0])
  {
    var r := nodes[id := n];
    PlaceChildrenLinked(nodes, id, n);
    PlaceParentsLinked(nodes, id, n);
    PlacePointerLinks(nodes, id, n);
    PlaceRanked(nodes, rank, id, n);
    assert TopLevel(r, elements) by {
      forall x | x in elements ensures x in r && r[x].parent == None {
        assert x != id;
      }
    }
  }

  /** A new parentless, childless element with no pointers keeps the invariants once listed on the canvas. */
  lemma PlaceKeeps(nodes: map<Id, Node>, elements: seq<Id>, rank: map<Id, nat>, id: Id, n: Node)
    requires Linked(nodes, elements) && PointerLinks(nodes) && Ranked(nodes, rank) && id !in nodes
    requires n.parent == None && n.children == [] && n.pointers == [] && n.target == None
    ensures var r := nodes[id := n];
      && Linked(r, elements + [id]) && PointerLinks(r) && Ranked(r, rank[id := 0])
      && (Partitioned(nodes, elements) ==> Partitioned(r, elements + [id]))
  {
    var r := nodes[id := n];
    var els := elements + [id];
    assert id !in elements;
    assert NoDup(els) by {
      forall i, j | 0 <= i < j < |els| ensures els[i] != els[j] {
        if j == |elements| { assert els[i] == elements[i]; }
      }
    }
    PlaceChildrenLinked(nodes, id, n);
    PlaceParentsLinked(nodes, id, n);
    PlacePointerLinks(nodes, id, n);
    PlaceRanked(nodes, rank, id, n);
    assert TopLevel(r, els) by {
      forall x | x in els ensures x in r && r[x].parent == None {
      }
    }
    if Partitioned(nodes, elements) {
      forall x | x in r ensures r[x].parent.Some? || x in els {
      }
    }
  }


  /** A container on the canvas list does not lie inside any other element. */
  lemma TopLevelDropSafe(nodes: map<Id, Node>, rank: map<Id, nat>, elements: seq<Id>, c: Id, e: Id)
    requires Ranked(nodes, rank) && Linked(nodes, elements) && c in elements && e in nodes && e != c
    ensures !InSubtree(nodes, rank, e, c)
  {
    if InSubtree(nodes, rank, e, c) {
      TopLevelInsideOnlyItself(nodes, rank, e, c);
    }
  }

  // ----- moving (BaseElement.move, Volume.move, PointerCell.move) -----

  /**
   * One element after the elements of moved have each been moved by (dx, dy):
   * a moved element is shifted, and the arrow of a moved pointer cell and of
   * every pointer listed by a moved element is redrawn.
   */
  ghost function ShiftedNode(nodes: map<Id, Node>, moved: set<Id>, dx: real, dy: real, id: Id): Node
    requires id in nodes
  {
    var n := nodes[id];
    var n1 := if id in moved then n.(x := n.x + dx, y := n.y + dy) else n;
    if (id in moved && n.kind == PointerCell) || Listed(nodes, moved, id) then Redrawn(n1) else n1
  }

  /** id is an incoming pointer of one of the elements of moved. */
  ghost predicate Listed(nodes: map<Id, Node>, moved: set<Id>, id: Id)
  {
    exists t :: t in moved && t in nodes && id in nodes[t].pointers
  }

  lemma ListedUnion(nodes: map<Id, Node>, a: set<Id>, b: set<Id>, id: Id)
    ensures Listed(nodes, a + b, id) <==> Listed(nodes, a, id) || Listed(nodes, b, id)
  {
  }

  lemma ListedSameStructure(nodes: map<Id, Node>, m: map<Id, Node>, b: set<Id>, id: Id)
    requires SameStructure(nodes, m)
    ensures Listed(nodes, b, id) <==> Listed(m, b, id)
  {
    forall t | t in nodes ensures t in m && m[t].pointers == nodes[t].pointers {
      SameStructureFields(nodes, m, t);
    }
  }

  ghost function Shifted(nodes: map<Id, Node>, moved: set<Id>, dx: real, dy: real): (r: map<Id, Node>)
    ensures SameStructure(nodes, r)
  {
    map id | id in nodes :: ShiftedNode(nodes, moved, dx, dy, id)
  }

  /** Moving nothing changes nothing. */
  lemma ShiftedNothing(nodes: map<Id, Node>, dx: real, dy: real)
    ensures Shifted(nodes, {}, dx, dy) == nodes
  {
  }

  lemma ShiftedAt(nodes: map<Id, Node>, moved: set<Id>, dx: real, dy: real, id: Id)
    requires id in nodes
    ensures id in Shifted(nodes, moved, dx, dy) && Shifted(nodes, moved, dx, dy)[id] == ShiftedNode(nodes, moved, dx, dy, id)
  {
  }

  /** Two elements that agree on structure, geometry and arrow flag are the same. */
  lemma NodeEq(p: Node, q: Node)
    requires Skeleton(p) == Skeleton(q) && p.arrow == q.arrow
    requires p.x == q.x && p.y == q.y && p.width == q.width && p.height == q.height
    ensures p == q
  {
  }

  /** An element after a move, field by field. */
  lemma ShiftedNodeFields(nodes: map<Id, Node>, moved: set<Id>, dx: real, dy: real, id: Id)
    requires id in nodes
    ensures var r, n := ShiftedNode(nodes, moved, dx, dy, id), nodes[id];
      && Skeleton(r) == Skeleton(n) && r.width == n.width && r.height == n.height
      && r.x == (if id in moved then n.x + dx else n.x) && r.y == (if id in moved then n.y + dy else n.y)
      && r.arrow == (n.arrow || (n.target.Some? && ((id in moved && n.kind == PointerCell) || Listed(nodes, moved, id))))
  {
  }

  lemma ShiftedTwiceAt(nodes: map<Id, Node>, a: set<Id>, b: set<Id>, dx: real, dy: real, id: Id)
    requires a !! b && id in nodes
    ensures var m := Shifted(nodes, a, dx, dy);
      id in m && ShiftedNode(m, b, dx, dy, id) == ShiftedNode(nodes, a + b, dx, dy, id)
  {
    var m := Shifted(nodes, a, dx, dy);
    ShiftedAt(nodes, a, dx, dy, id);
    assert Listed(m, b, id) == Listed(nodes, b, id) by { ListedSameStructure(nodes, m, b, id); }
    assert Listed(nodes, a + b, id) == (Listed(nodes, a, id) || Listed(nodes, b, id)) by {
      ListedUnion(nodes, a, b, id);
    }
    ShiftedNodeFields(nodes, a, dx, dy, id);
    ShiftedNodeFields(m, b, dx, dy, id);
    ShiftedNodeFields(nodes, a + b, dx, dy, id);
    NodeEq(ShiftedNode(m, b, dx, dy, id), ShiftedNode(nodes, a + b, dx, dy, id));
  }

  /** Moving two disjoint groups one after the other is moving both at once. */
  lemma ShiftedTwice(nodes: map<Id, Node>, a: set<Id>, b: set<Id>, dx: real, dy: real)
    requires a !! b
    ensures Shifted(Shifted(nodes, a, dx, dy), b, dx, dy) == Shifted(nodes, a + b, dx, dy)
  {
    var m := Shifted(nodes, a, dx, dy);
    var r := Shifted(m, b, dx, dy);
    var s := Shifted(nodes, a + b, dx, dy);
    forall id | id in nodes ensures id in r && id in s && r[id] == s[id] {
      ShiftedTwiceAt(nodes, a, b, dx, dy, id);
      ShiftedAt(m, b, dx, dy, id);
      ShiftedAt(nodes, a + b, dx, dy, id);
    }
    assert r.Keys == s.Keys;
  }

  /** The subtree of the next child is new, and adding it covers one more child. */
  lemma CoveredNext(nodes: map<Id, Node>, rank: map<Id, nat>, e: Id, i: nat)
    requires Ranked(nodes, rank) && ChildrenLinked(nodes) && e in nodes && i < |nodes[e].children|
    ensures var kids := nodes[e].children;
      var done := {e} + Covered(nodes, rank, kids[..i]);
      var sub := Subtree(nodes, rank, kids[i]);
      && done !! sub
      && done + sub == {e} + Covered(nodes, rank, kids[..i + 1])
  {
    ChildSubtreeFresh(nodes, rank, e, i);
    CoveredStep(nodes, rank, nodes[e].children, i);
  }

  /** e together with the subtrees of its first i children. */
  ghost function MovedPrefix(nodes: map<Id, Node>, rank: map<Id, nat>, e: Id, i: nat): set<Id>
    requires Ranked(nodes, rank) && ChildrenLinked(nodes) && e in nodes && i <= |nodes[e].children|
  {
    {e} + Covered(nodes, rank, nodes[e].children[..i])
  }

  /** Before the first child, only e itself. */
  lemma MovedPrefixZero(nodes: map<Id, Node>, rank: map<Id, nat>, e: Id)
    requires Ranked(nodes, rank) && ChildrenLinked(nodes) && e in nodes
    ensures MovedPrefix(nodes, rank, e, 0) == {e}
  {
    assert nodes[e].children[..0] == [];
  }

  /** After the last child, the whole subtree of e. */
  lemma MovedPrefixAll(nodes: map<Id, Node>, rank: map<Id, nat>, e: Id)
    requires Ranked(nodes, rank) && ChildrenLinked(nodes) && e in nodes
    ensures MovedPrefix(nodes, rank, e, |nodes[e].children|) == Subtree(nodes, rank, e)
  {
    assert nodes[e].children[..|nodes[e].children|] == nodes[e].children;
    SubtreeSplits(nodes, rank, e);
  }

  /** Moving the first i children of e and then the next one moves the first i + 1. */
  lemma MoveChildStep(start: map<Id, Node>, rank: map<Id, nat>, e: Id, i: nat, before: map<Id, Node>, after: map<Id, Node>, dx: real, dy: real)
    requires Ranked(start, rank) && ChildrenLinked(start) && e in start && i < |start[e].children|
    requires before == Shifted(start, MovedPrefix(start, rank, e, i), dx, dy)
    requires Ranked(before, rank) && start[e].children[i] in before
    requires after == Shifted(before, Subtree(before, rank, start[e].children[i]), dx, dy)
    ensures after == Shifted(start, MovedPrefix(start, rank, e, i + 1), dx, dy)
  {
    var kids := start[e].children;
    var done := MovedPrefix(start, rank, e, i);
    var sub := Subtree(start, rank, kids[i]);
    CoveredNext(start, rank, e, i);
    SubtreeSameStructure(start, before, rank, kids[i]);
    ShiftedTwice(start, done, sub, dx, dy);
  }

  /** An element with no children is all there is of its subtree. */
  lemma LeafSubtree(nodes: map<Id, Node>, rank: map<Id, nat>, e: Id)
    requires Ranked(nodes, rank) && e in nodes && nodes[e].children == []
    ensures Subtree(nodes, rank, e) == {e}
  {
    SubtreeSplits(nodes, rank, e);
  }

  /**
   * What a move keeps: every moved element is shifted by exactly (dx, dy) and
   * keeps its size, so any two moved elements keep their offset; everything
   * else stays where it is, and arrows are only ever redrawn, never removed.
   */
  lemma ShiftedGeometry(nodes: map<Id, Node>, moved: set<Id>, dx: real, dy: real, id: Id)
    requires id in nodes
    ensures var r := Shifted(nodes, moved, dx, dy);
      && id in r
      && r[id].x == nodes[id].x + (if id in moved then dx else 0.0)
      && r[id].y == nodes[id].y + (if id in moved then dy else 0.0)
      && r[id].width == nodes[id].width && r[id].height == nodes[id].height
      && (nodes[id].arrow ==> r[id].arrow)
      && (id in moved && nodes[id].kind == PointerCell && nodes[id].target.Some? ==> r[id].arrow)
  {
  }

  // ----- the canvas list reaches every element -----

  /** A bound on the ranks of keys. */
  ghost function MaxRank(rank: map<Id, nat>, keys: set<Id>): (b: nat)
    requires keys <= rank.Keys
    ensures forall k :: k in keys ==> rank[k] <= b
    decreases keys
  {
    if keys == {} then 0
    else
      var k :| k in keys;
      var b := MaxRank(rank, keys - {k});
      if rank[k] > b then rank[k] else b
  }

  /** A child of an element inside r lies inside r. */
  lemma {:induction false} DescendantChild(nodes: map<Id, Node>, rank: map<Id, nat>, r: Id, p: Id, y: Id)
    requires Ranked(nodes, rank) && r in nodes && p in nodes && InSubtree(nodes, rank, r, p)
    requires y in nodes[p].children && y in nodes
    ensures InSubtree(nodes, rank, r, y)
    decreases rank[r]
  {
    if r == p {
      assert InSubtree(nodes, rank, y, y);
    } else {
      var c :| c in nodes[r].children && c in nodes && InSubtree(nodes, rank, c, p);
      DescendantChild(nodes, rank, c, p, y);
    }
  }

  /** Following parent links from y ends at an element of the canvas list, which therefore contains y. */
  lemma {:induction false} TopAncestor(nodes: map<Id, Node>, rank: map<Id, nat>, elements: seq<Id>, y: Id, b: nat)
    requires Partitioned(nodes, elements) && Ranked(nodes, rank) && y in nodes
    requires forall k :: k in nodes ==> rank[k] <= b
    ensures exists e :: e in elements && e in nodes && InSubtree(nodes, rank, e, y)
    decreases b - rank[y]
  {
    if y in elements {
      assert InSubtree(nodes, rank, y, y);
    } else {
      var p := nodes[y].parent.value;
      assert p in nodes && y in nodes[p].children;
      TopAncestor(nodes, rank, elements, p, b);
      var e :| e in elements && e in nodes && InSubtree(nodes, rank, e, p);
      DescendantChild(nodes, rank, e, p, y);
    }
  }

  /** In a partitioned arena the subtrees of the canvas list cover every element. */
  lemma CoveredAll(nodes: map<Id, Node>, rank: map<Id, nat>, elements: seq<Id>)
    requires Partitioned(nodes, elements) && Ranked(nodes, rank)
    ensures Covered(nodes, rank, elements) == nodes.Keys
  {
    var b := MaxRank(rank, nodes.Keys);
    forall y ensures y in Covered(nodes, rank, elements) <==> y in nodes {
      CoveredMembers(nodes, rank, elements, y);
      if y in nodes {
        TopAncestor(nodes, rank, elements, y, b);
      } else if y in Covered(nodes, rank, elements) {
        var e :| e in elements && InSubtree(nodes, rank, e, y);
        SubtreeRank(nodes, rank, e, y);
      }
    }
  }
}
