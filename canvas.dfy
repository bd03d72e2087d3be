/**
 * The whiteboard itself (DataStructureCanvas): the canvas list of top-level
 * elements, the arena of every element, the selection and the drag state,
 * and the operations behind the mouse bindings, as a class whose methods
 * update those fields in place.
 */
module Canvas {
  import opened Wrappers
  import opened Geometry
  import opened Arena
  import opened Tree
  import opened Layout
  import opened Document

  /** Every element of a stays, with its kind and its parent. */
  ghost predicate Kept(a: map<Id, Node>, b: map<Id, Node>)
  {
    forall y :: y in a ==> y in b && b[y].kind == a[y].kind && b[y].parent == a[y].parent
  }

  /** add_element of a new element e to c keeps every older element's kind and parent. */
  lemma AdoptKept(a: map<Id, Node>, b: map<Id, Node>, c: Id, e: Id)
    requires Kept(a, b) && c in b && e in b && e !in a && b[e].parent == None && c != e
    ensures AddElement(b, c, e).Keys == b.Keys && Kept(a, AddElement(b, c, e))
  {
    var r := AddElement(b, c, e);
    AddElementSkeleton(b, c, e);
    forall y | y in a ensures y in r && r[y].kind == a[y].kind && r[y].parent == a[y].parent {
      assert Skeleton(r[y]).kind == Skeleton(b[y]).kind && Skeleton(r[y]).parent == Skeleton(b[y]).parent;
    }
  }

  /** How far a drag has gone along one axis: the dx and dy of on_drag. */
  function Offset(from: real, to: real): real { to - from }

  // ----- deletion (BaseElement.delete and Volume.delete) -----

  /** The elements of ps, each with its arrow dropped. */
  ghost function Unarrowed(nodes: map<Id, Node>, ps: seq<Id>): (r: map<Id, Node>)
    ensures SameStructure(nodes, r)
  {
    map id | id in nodes :: if id in ps then nodes[id].(arrow := false) else nodes[id]
  }

  lemma UnarrowedStep(nodes: map<Id, Node>, ps: seq<Id>, j: nat)
    requires j < |ps|
    ensures var cur := Unarrowed(nodes, ps[..j]);
      (if ps[j] in cur && cur[ps[j]].arrow then cur[ps[j] := cur[ps[j]].(arrow := false)] else cur) == Unarrowed(nodes, ps[..j + 1])
  {
    var cur := Unarrowed(nodes, ps[..j]);
    var next := Unarrowed(nodes, ps[..j + 1]);
    assert ps[..j + 1] == ps[..j] + [ps[j]];
    var m := if ps[j] in cur && cur[ps[j]].arrow then cur[ps[j] := cur[ps[j]].(arrow := false)] else cur;
    forall id | id in nodes ensures id in m && m[id] == next[id] {
    }
  }

  /**
   * Whether BaseElement.delete takes e out of its container: e has one, and it
   * is not a stack or queue (StackQueue.remove_element takes no argument, so
   * the call fails and the failure is swallowed).
   */
  predicate LeavesParent(nodes: map<Id, Node>, e: Id)
  {
    e in nodes && nodes[e].parent.Some? && nodes[e].parent.value in nodes &&
    nodes[nodes[e].parent.value].kind != StackQueue
  }

  /** The arena after BaseElement.delete of e: arrows into e dropped, then e removed from its container if it can be. */
  ghost function Discarded(nodes: map<Id, Node>, e: Id): (r: map<Id, Node>)
    requires e in nodes
    ensures r.Keys == nodes.Keys
  {
    var s := Unarrowed(nodes, nodes[e].pointers);
    if LeavesParent(s, e) then Arena.RemoveElement(s, s[e].parent.value, e) else s
  }

  /**
   * BaseElement.delete changes only parent links and child lists, and only
   * those of e and of its container: e loses its parent and the container
   * lists e no more, unless that container is a stack or queue.
   */
  lemma DiscardedSpec(nodes: map<Id, Node>, elements: seq<Id>, rank: map<Id, nat>, e: Id)
    requires Linked(nodes, elements) && Ranked(nodes, rank) && e in nodes
    ensures var r := Discarded(nodes, e);
      && SamePointers(nodes, r)
      && r[e].children == nodes[e].children
      && r[e].parent == (if LeavesParent(nodes, e) then None else nodes[e].parent)
      && (nodes[e].parent.Some? ==>
           var p := nodes[e].parent.value;
           p in r && r[p].children == (if LeavesParent(nodes, e) then RemoveFirst(nodes[p].children, e) else nodes[p].children))
      && forall id :: id in nodes && id != e ==>
           r[id].parent == nodes[id].parent &&
           (nodes[e].parent != Some(id) ==> r[id].children == nodes[id].children)
  {
    if nodes[e].parent.Some? {
      var p := nodes[e].parent.value;
      assert p in nodes && e in nodes[p].children;
      assert p != e by {
        assert rank[e] < rank[p];
      }
    }
    var r := Discarded(nodes, e);
    DiscardedAt(nodes, e, e);
    if nodes[e].parent.Some? {
      DiscardedAt(nodes, e, nodes[e].parent.value);
    }
    assert SamePointers(nodes, r) by {
      forall id | id in nodes
        ensures r[id].pointers == nodes[id].pointers && r[id].target == nodes[id].target && r[id].kind == nodes[id].kind
      {
        DiscardedAt(nodes, e, id);
      }
    }
    forall id | id in nodes && id != e
      ensures r[id].parent == nodes[id].parent && (nodes[e].parent != Some(id) ==> r[id].children == nodes[id].children)
    {
      DiscardedAt(nodes, e, id);
    }
  }

  /** Each element after BaseElement.delete of e, field by field. */
  lemma DiscardedAt(nodes: map<Id, Node>, e: Id, id: Id)
    requires e in nodes && id in nodes
    requires nodes[e].parent.Some? ==>
      var p := nodes[e].parent.value;
      p in nodes && p != e && e in nodes[p].children
    ensures var r := Discarded(nodes, e); var leaves := LeavesParent(nodes, e);
      && r.Keys == nodes.Keys
      && r[id].pointers == nodes[id].pointers && r[id].target == nodes[id].target && r[id].kind == nodes[id].kind
      && r[id].parent == (if leaves && id == e then None else nodes[id].parent)
      && r[id].children == (if leaves && Some(id) == nodes[e].parent then RemoveFirst(nodes[id].children, e) else nodes[id].children)
  {
    var s := Unarrowed(nodes, nodes[e].pointers);
    SameStructureFields(nodes, s, id);
    SameStructureFields(nodes, s, e);
    if nodes[e].parent.Some? {
      var p := nodes[e].parent.value;
      SameStructureFields(nodes, s, p);
      assert LeavesParent(s, e) == LeavesParent(nodes, e);
      if LeavesParent(nodes, e) {
        RemoveElementSpec(s, p, e);
      }
    }
  }

  /** After BaseElement.delete of e, no pointer into e shows an arrow. */
  lemma DiscardedArrows(nodes: map<Id, Node>, elements: seq<Id>, rank: map<Id, nat>, e: Id, q: Id)
    requires Linked(nodes, elements) && PointerLinks(nodes) && Ranked(nodes, rank) && e in nodes && q in nodes[e].pointers
    ensures q in Discarded(nodes, e) && !Discarded(nodes, e)[q].arrow
  {
    var s := Unarrowed(nodes, nodes[e].pointers);
    assert q in nodes && nodes[q].target == Some(e);
    SameStructureFields(nodes, s, q);
    SameStructureFields(nodes, s, e);
    assert !s[q].arrow;
    if LeavesParent(s, e) {
      var p := s[e].parent.value;
      SameStructureFields(nodes, s, p);
      assert p != e by {
        assert e in nodes[p].children && rank[e] < rank[p];
      }
      SameStructurePointerLinks(nodes, s);
      SameStructureHierarchy(nodes, s, rank);
      RemoveElementKeepsArrow(s, rank, p, e, q);
    }
  }

  /**
   * The arena after element e is deleted, as element.delete() dispatches:
   * a container first deletes, one by one, the children on a copy of its
   * list, then BaseElement.delete runs on e. The rank only bounds the
   * recursion; on a ranked arena it never cuts it short.
   */
  ghost function Deleted(nodes: map<Id, Node>, rank: map<Id, nat>, e: Id): (r: map<Id, Node>)
    ensures r.Keys == nodes.Keys
    decreases if e in rank then rank[e] else 0, 1
  {
    if e !in nodes then nodes
    else
      var m := if IsVolume(nodes[e].kind) && e in rank then ChildrenDeleted(nodes, rank, e, nodes[e].children) else nodes;
      Discarded(m, e)
  }

  /** The loop of Volume.delete of e over kids, the copy of e's list taken before it starts. */
  ghost function ChildrenDeleted(nodes: map<Id, Node>, rank: map<Id, nat>, e: Id, kids: seq<Id>): (r: map<Id, Node>)
    requires e in rank
    ensures r.Keys == nodes.Keys
    decreases rank[e], 0, |kids|
  {
    if kids == [] then nodes
    else
      var m := ChildrenDeleted(nodes, rank, e, kids[..|kids| - 1]);
      var k := kids[|kids| - 1];
      if k in rank && rank[k] < rank[e] then Deleted(m, rank, k) else m
  }

  /**
   * Element d of a deleted subtree, before (a) and after (b): d has left its
   * container unless that is a stack or queue, and d's own list is empty
   * unless d is a stack or queue, whose children could not leave it.
   */
  ghost predicate Cleared(a: map<Id, Node>, b: map<Id, Node>, d: Id)
  {
    d in a && d in b
    && b[d].parent == (if LeavesParent(a, d) then None else a[d].parent)
    && b[d].children == (if a[d].kind == StackQueue then a[d].children else [])
  }

  /**
   * Element id outside the deleted subtree of e, before (a) and after (b):
   * its parent and its list are as they were, except that e's container
   * lists e no more if e could leave it.
   */
  ghost predicate Untouched(a: map<Id, Node>, b: map<Id, Node>, e: Id, id: Id)
  {
    e in a && id in a && id in b
    && b[id].parent == a[id].parent
    && b[id].children == (if LeavesParent(a, e) && a[e].parent == Some(id) then RemoveFirst(a[id].children, e) else a[id].children)
  }

  /** Two arenas whose links agree within the subtree of r see the same subtree there. */
  lemma {:induction false} InSubtreeKept(a: map<Id, Node>, b: map<Id, Node>, rank: map<Id, nat>, r: Id, x: Id)
    requires Ranked(a, rank) && Ranked(b, rank) && a.Keys == b.Keys && r in a
    requires forall y :: y in a && InSubtree(a, rank, r, y) ==> b[y].children == a[y].children
    ensures InSubtree(a, rank, r, x) <==> InSubtree(b, rank, r, x)
    decreases rank[r]
  {
    assert InSubtree(a, rank, r, r);
    if r != x {
      if InSubtree(a, rank, r, x) {
        var c :| c in a[r].children && c in a && InSubtree(a, rank, c, x);
        ChildSubtreeAll(a, rank, r, c);
        InSubtreeKept(a, b, rank, c, x);
      }
      if InSubtree(b, rank, r, x) {
        var c :| c in b[r].children && c in b && InSubtree(b, rank, c, x);
        ChildSubtreeAll(a, rank, r, c);
        InSubtreeKept(a, b, rank, c, x);
      }
    }
  }

  /** Everything inside a child is inside its container. */
  lemma ChildSubtreeAll(a: map<Id, Node>, rank: map<Id, nat>, r: Id, c: Id)
    requires Ranked(a, rank) && r in a && c in a[r].children && c in a
    ensures forall y :: InSubtree(a, rank, c, y) ==> InSubtree(a, rank, r, y)
  {
  }

  lemma SubtreeKept(a: map<Id, Node>, b: map<Id, Node>, rank: map<Id, nat>, r: Id)
    requires Ranked(a, rank) && Ranked(b, rank) && a.Keys == b.Keys && r in a
    requires forall y :: y in Subtree(a, rank, r) ==> b[y].children == a[y].children
    ensures Subtree(a, rank, r) == Subtree(b, rank, r)
  {
    forall x ensures x in Subtree(a, rank, r) <==> x in Subtree(b, rank, r) {
      InSubtreeKept(a, b, rank, r, x);
    }
  }

  /** A container lies in none of its children's subtrees. */
  lemma ContainerNotCovered(nodes: map<Id, Node>, rank: map<Id, nat>, e: Id, j: nat)
    requires Ranked(nodes, rank) && ChildrenLinked(nodes) && e in nodes && j <= |nodes[e].children|
    ensures e !in Covered(nodes, rank, nodes[e].children[..j])
  {
    var kids := nodes[e].children[..j];
    CoveredMembers(nodes, rank, kids, e);
    if e in Covered(nodes, rank, kids) {
      var k :| k in kids && InSubtree(nodes, rank, k, e);
      NotInsideChild(nodes, rank, e, k);
    }
  }

  /**
   * What deleting e did, between arenas a and b: every element of e's subtree
   * is cleared, and outside it only e's container changed.
   */
  ghost predicate SubtreeDeleted(a: map<Id, Node>, b: map<Id, Node>, rank: map<Id, nat>, e: Id)
    requires Ranked(a, rank) && e in a
  {
    && (forall d :: d in Subtree(a, rank, e) ==> Cleared(a, b, d))
    && (forall id :: id in a && id !in Subtree(a, rank, e) ==> Untouched(a, b, e, id))
  }

  /**
   * The loop of Volume.delete of e after i turns, between arenas a and b: the
   * subtrees of the first i children are cleared, e's list has lost them
   * unless e is a stack or queue, and nothing else changed.
   */
  ghost predicate ChildrenCleared(a: map<Id, Node>, b: map<Id, Node>, rank: map<Id, nat>, e: Id, i: nat)
    requires Ranked(a, rank) && ChildrenLinked(a) && e in a && i <= |a[e].children|
  {
    var kids := a[e].children;
    var done := Covered(a, rank, kids[..i]);
    && e in b
    && (forall d :: d in done ==> Cleared(a, b, d))
    && (forall id :: id in a && id !in done && id != e ==> id in b && b[id].parent == a[id].parent && b[id].children == a[id].children)
    && b[e].parent == a[e].parent
    && b[e].children == (if a[e].kind == StackQueue then kids else kids[i..])
  }

  /** What turn i of the loop of Volume.delete of e works on: the subtree of the i-th child, apart from the rest. */
  lemma DeleteTurnSets(s0: map<Id, Node>, rank: map<Id, nat>, e: Id, i: nat)
    requires Ranked(s0, rank) && ChildrenLinked(s0) && e in s0 && i < |s0[e].children|
    ensures var kids := s0[e].children; var k := kids[i];
      var done, sub := Covered(s0, rank, kids[..i]), Subtree(s0, rank, k);
      && k in s0 && k in sub && s0[k].parent == Some(e) && done !! sub && e !in done + sub
      && Covered(s0, rank, kids[..i + 1]) == done + sub
  {
    var kids := s0[e].children;
    var k := kids[i];
    CoveredNext(s0, rank, e, i);
    CoveredStep(s0, rank, kids, i);
    ContainerNotCovered(s0, rank, e, i);
    NotInsideChild(s0, rank, e, k);
    assert InSubtree(s0, rank, k, k);
  }

  /** Before turn i, the subtree of the i-th child is as it was at the start. */
  lemma DeleteTurnShape(s0: map<Id, Node>, before: map<Id, Node>, rank: map<Id, nat>, e: Id, i: nat)
    requires Ranked(s0, rank) && ChildrenLinked(s0) && e in s0 && i < |s0[e].children|
    requires Ranked(before, rank) && SamePointers(s0, before) && ChildrenCleared(s0, before, rank, e, i)
    ensures var kids := s0[e].children; var k := kids[i];
      && k in s0 && Subtree(before, rank, k) == Subtree(s0, rank, k)
      && before[k].parent == Some(e) && (LeavesParent(before, k) <==> s0[e].kind != StackQueue)
    ensures var sub := Subtree(s0, rank, s0[e].children[i]);
      forall d :: d in sub ==>
        && before[d].parent == s0[d].parent && before[d].children == s0[d].children
        && LeavesParent(before, d) == LeavesParent(s0, d)
  {
    var kids := s0[e].children;
    var k := kids[i];
    var sub := Subtree(s0, rank, k);
    DeleteTurnSets(s0, rank, e, i);
    assert forall y :: y in sub ==> before[y].parent == s0[y].parent && before[y].children == s0[y].children;
    SubtreeKept(s0, before, rank, k);
  }

  /** An element cleared from an unchanged start is cleared from the start. */
  lemma ClearedCarried(s0: map<Id, Node>, before: map<Id, Node>, after: map<Id, Node>, d: Id)
    requires SamePointers(s0, before) && Cleared(before, after, d)
    requires before[d].parent == s0[d].parent && before[d].children == s0[d].children
    requires LeavesParent(before, d) == LeavesParent(s0, d)
    ensures Cleared(s0, after, d)
  {
  }

  /** An element already cleared stays so when a deletion elsewhere leaves it untouched. */
  lemma ClearedKept(s0: map<Id, Node>, before: map<Id, Node>, after: map<Id, Node>, k: Id, d: Id)
    requires Cleared(s0, before, d) && Untouched(before, after, k, d) && before[k].parent != Some(d)
    ensures Cleared(s0, after, d)
  {
  }

  /**
   * One more turn of the loop of Volume.delete of e: the subtree of e's i-th
   * child joins the cleared part, and e's list loses that child unless e is
   * a stack or queue.
   */
  lemma DeleteChildStep(s0: map<Id, Node>, before: map<Id, Node>, after: map<Id, Node>, rank: map<Id, nat>, e: Id, i: nat)
    requires Ranked(s0, rank) && ChildrenLinked(s0) && e in s0 && i < |s0[e].children|
    requires Ranked(before, rank) && SamePointers(s0, before) && ChildrenCleared(s0, before, rank, e, i)
    requires SamePointers(before, after) && SubtreeDeleted(before, after, rank, s0[e].children[i])
    ensures ChildrenCleared(s0, after, rank, e, i + 1)
  {
    var kids := s0[e].children;
    DeleteTurnSets(s0, rank, e, i);
    DeleteTurnShape(s0, before, rank, e, i);
    DeleteStepCleared(s0, before, after, rank, e, i);
    DeleteStepRest(s0, before, after, rank, e, i);
    assert Untouched(before, after, kids[i], e);
    if s0[e].kind != StackQueue {
      assert kids[i..][1..] == kids[i + 1..];
    }
  }

  /** The cleared part of that turn: the subtrees of the first i + 1 children. */
  lemma DeleteStepCleared(s0: map<Id, Node>, before: map<Id, Node>, after: map<Id, Node>, rank: map<Id, nat>, e: Id, i: nat)
    requires Ranked(s0, rank) && ChildrenLinked(s0) && e in s0 && i < |s0[e].children|
    requires Ranked(before, rank) && SamePointers(s0, before) && ChildrenCleared(s0, before, rank, e, i)
    requires SamePointers(before, after) && SubtreeDeleted(before, after, rank, s0[e].children[i])
    ensures forall d :: d in Covered(s0, rank, s0[e].children[..i + 1]) ==> Cleared(s0, after, d)
  {
    var kids := s0[e].children;
    var k := kids[i];
    var done, sub := Covered(s0, rank, kids[..i]), Subtree(s0, rank, k);
    DeleteTurnSets(s0, rank, e, i);
    DeleteTurnShape(s0, before, rank, e, i);
    forall d | d in done + sub ensures Cleared(s0, after, d) {
      if d in sub {
        ClearedCarried(s0, before, after, d);
      } else {
        ClearedKept(s0, before, after, k, d);
      }
    }
  }

  /** The rest of that turn: nothing outside the cleared part changes, e aside. */
  lemma DeleteStepRest(s0: map<Id, Node>, before: map<Id, Node>, after: map<Id, Node>, rank: map<Id, nat>, e: Id, i: nat)
    requires Ranked(s0, rank) && ChildrenLinked(s0) && e in s0 && i < |s0[e].children|
    requires Ranked(before, rank) && SamePointers(s0, before) && ChildrenCleared(s0, before, rank, e, i)
    requires SamePointers(before, after) && SubtreeDeleted(before, after, rank, s0[e].children[i])
    ensures forall id :: id in s0 && id !in Covered(s0, rank, s0[e].children[..i + 1]) && id != e ==>
      id in after && after[id].parent == s0[id].parent && after[id].children == s0[id].children
  {
    var kids := s0[e].children;
    var k := kids[i];
    DeleteTurnSets(s0, rank, e, i);
    DeleteTurnShape(s0, before, rank, e, i);
    forall id | id in s0 && id !in Covered(s0, rank, kids[..i + 1]) && id != e
      ensures id in after && after[id].parent == s0[id].parent && after[id].children == s0[id].children
    {
      assert Untouched(before, after, k, id);
    }
  }

  /** The container of e lies outside e's subtree, and e lies outside its children's. */
  lemma DeleteFinishSets(s0: map<Id, Node>, rank: map<Id, nat>, e: Id)
    requires ChildrenLinked(s0) && ParentsLinked(s0) && Ranked(s0, rank) && e in s0
    ensures var kids := s0[e].children;
      && Subtree(s0, rank, e) == {e} + Covered(s0, rank, kids) && e !in Covered(s0, rank, kids)
      && (s0[e].parent.Some? ==> s0[e].parent.value in s0 && s0[e].parent.value !in Subtree(s0, rank, e))
      && (!IsVolume(s0[e].kind) ==> Covered(s0, rank, kids) == {})
  {
    var kids := s0[e].children;
    SubtreeSplits(s0, rank, e);
    ContainerNotCovered(s0, rank, e, |kids|);
    assert kids[..|kids|] == kids;
    if s0[e].parent.Some? {
      var p := s0[e].parent.value;
      assert p in s0 && e in s0[p].children && rank[p] > rank[e];
      if p in Subtree(s0, rank, e) {
        SubtreeRank(s0, rank, e, p);
      }
    }
  }

  /** BaseElement.delete, stated as the predicates of a deletion use. */
  lemma DiscardedUntouched(nodes: map<Id, Node>, elements: seq<Id>, rank: map<Id, nat>, e: Id)
    requires Linked(nodes, elements) && Ranked(nodes, rank) && e in nodes
    ensures var r := Discarded(nodes, e);
      && SamePointers(nodes, r) && e in r && r[e].children == nodes[e].children
      && r[e].parent == (if LeavesParent(nodes, e) then None else nodes[e].parent)
    ensures forall id :: id in nodes && id != e ==> Untouched(nodes, Discarded(nodes, e), e, id)
  {
    DiscardedSpec(nodes, elements, rank, e);
  }

  /** What the loop of Volume.delete leaves for BaseElement.delete to see. */
  lemma DeleteFinishShape(s0: map<Id, Node>, s: map<Id, Node>, rank: map<Id, nat>, e: Id)
    requires ChildrenLinked(s0) && ParentsLinked(s0) && Ranked(s0, rank) && e in s0 && SamePointers(s0, s)
    requires IsVolume(s0[e].kind) ==> ChildrenCleared(s0, s, rank, e, |s0[e].children|)
    requires !IsVolume(s0[e].kind) ==> s == s0
    ensures e in s && s[e].parent == s0[e].parent
    ensures s[e].children == (if s0[e].kind == StackQueue then s0[e].children else [])
    ensures LeavesParent(s, e) == LeavesParent(s0, e)
    ensures forall id :: id in s0 && id !in Subtree(s0, rank, e) ==> id in s && s[id].parent == s0[id].parent && s[id].children == s0[id].children
    ensures forall d :: d in Subtree(s0, rank, e) && d != e ==> Cleared(s0, s, d) && s[e].parent != Some(d)
  {
    var kids := s0[e].children;
    DeleteFinishSets(s0, rank, e);
    assert kids[..|kids|] == kids;
    if s0[e].parent.Some? {
      var p := s0[e].parent.value;
      assert s[p].children == s0[p].children && s[p].kind == s0[p].kind;
    }
  }

  /**
   * The end of element.delete(): once the children of e are dealt with,
   * BaseElement.delete of e completes the deletion of e's whole subtree.
   */
  lemma DeleteFinish(s0: map<Id, Node>, s: map<Id, Node>, r: map<Id, Node>, rank: map<Id, nat>, e: Id)
    requires ChildrenLinked(s0) && ParentsLinked(s0) && Ranked(s0, rank) && e in s0 && SamePointers(s0, s)
    requires IsVolume(s0[e].kind) ==> ChildrenCleared(s0, s, rank, e, |s0[e].children|)
    requires !IsVolume(s0[e].kind) ==> s == s0
    requires e in r && r[e].children == s[e].children
    requires r[e].parent == (if LeavesParent(s, e) then None else s[e].parent)
    requires forall id :: id in s && id != e ==> Untouched(s, r, e, id)
    ensures SubtreeDeleted(s0, r, rank, e)
  {
    DeleteFinishShape(s0, s, rank, e);
    forall d | d in Subtree(s0, rank, e) ensures Cleared(s0, r, d) {
      if d != e {
        ClearedKept(s0, s, r, e, d);
      }
    }
    forall id | id in s0 && id !in Subtree(s0, rank, e) ensures Untouched(s0, r, e, id) {
      assert Untouched(s, r, e, id);
    }
  }

  /** Deleted, one level unfolded on a ranked arena. */
  lemma DeletedUnfold(nodes: map<Id, Node>, rank: map<Id, nat>, e: Id)
    requires e in nodes && e in rank
    ensures Deleted(nodes, rank, e) ==
      Discarded(if IsVolume(nodes[e].kind) then ChildrenDeleted(nodes, rank, e, nodes[e].children) else nodes, e)
  {
  }

  /** ChildrenDeleted, one more child of a ranked arena. */
  lemma ChildrenDeletedStep(nodes: map<Id, Node>, rank: map<Id, nat>, e: Id, kids: seq<Id>, i: nat)
    requires e in rank && i < |kids| && kids[i] in rank && rank[kids[i]] < rank[e]
    ensures ChildrenDeleted(nodes, rank, e, kids[..i + 1]) == Deleted(ChildrenDeleted(nodes, rank, e, kids[..i]), rank, kids[i])
  {
    assert kids[..i + 1][..i] == kids[..i];
  }

  /** The whole of element.delete() of e, from the arena before (s0) to the one after (r). */
  lemma DeleteDone(s0: map<Id, Node>, s: map<Id, Node>, r: map<Id, Node>, elements: seq<Id>, rank: map<Id, nat>, e: Id)
    requires Linked(s0, elements) && Ranked(s0, rank) && e in s0
    requires Linked(s, elements) && PointerLinks(s) && Ranked(s, rank) && SamePointers(s0, s)
    requires IsVolume(s0[e].kind) ==> s == ChildrenDeleted(s0, rank, e, s0[e].children)
    requires IsVolume(s0[e].kind) ==> ChildrenCleared(s0, s, rank, e, |s0[e].children|)
    requires !IsVolume(s0[e].kind) ==> s == s0
    requires r == Discarded(s, e)
    ensures r == Deleted(s0, rank, e) && SamePointers(s0, r)
    ensures SubtreeDeleted(s0, r, rank, e)
    ensures forall q :: q in s0[e].pointers ==> q in r && !r[q].arrow
  {
    DeletedUnfold(s0, rank, e);
    DiscardedUntouched(s, elements, rank, e);
    DeleteFinish(s0, s, r, rank, e);
    SamePointersTrans(s0, s, r);
    forall q | q in s0[e].pointers ensures q in r && !r[q].arrow {
      DiscardedArrows(s, elements, rank, e, q);
    }
  }

  // ----- clear_canvas -----

  /** The arena after element.delete() of each of els in turn. */
  ghost function AllDeleted(nodes: map<Id, Node>, rank: map<Id, nat>, els: seq<Id>): (r: map<Id, Node>)
    ensures r.Keys == nodes.Keys
  {
    if els == [] then nodes else Deleted(AllDeleted(nodes, rank, els[..|els| - 1]), rank, els[|els| - 1])
  }

  /** Two different top-level elements have no element in common. */
  lemma RootsDisjoint(nodes: map<Id, Node>, rank: map<Id, nat>, a: Id, b: Id, x: Id)
    requires Ranked(nodes, rank) && ChildrenLinked(nodes) && a in nodes && b in nodes && a != b
    requires nodes[a].parent.None? && nodes[b].parent.None?
    ensures !(InSubtree(nodes, rank, a, x) && InSubtree(nodes, rank, b, x))
  {
    if InSubtree(nodes, rank, a, x) && InSubtree(nodes, rank, b, x) {
      SubtreesNested(nodes, rank, a, b, x);
      if InSubtree(nodes, rank, a, b) {
        SubtreeParent(nodes, rank, a, b);
      } else {
        SubtreeParent(nodes, rank, b, a);
      }
    }
  }

  /**
   * Part way through clear_canvas, after the first i elements of the canvas
   * list els: their subtrees are cleared, and every other element still has
   * its parent link and child list.
   */
  ghost predicate RootsCleared(s0: map<Id, Node>, m: map<Id, Node>, rank: map<Id, nat>, els: seq<Id>, i: nat)
    requires Ranked(s0, rank) && i <= |els| && forall e :: e in els ==> e in s0
  {
    var done := Covered(s0, rank, els[..i]);
    && (forall d :: d in done ==> Cleared(s0, m, d))
    && (forall id :: id in s0 && id !in done ==> id in m && m[id].parent == s0[id].parent && m[id].children == s0[id].children)
  }

  /** The subtree the next turn of clear_canvas deletes is the one it had at the start, apart from those before it. */
  lemma ClearTurnSets(s0: map<Id, Node>, before: map<Id, Node>, rank: map<Id, nat>, els: seq<Id>, i: nat)
    requires Linked(s0, els) && Ranked(s0, rank) && i < |els|
    requires Ranked(before, rank) && SamePointers(s0, before) && RootsCleared(s0, before, rank, els, i)
    ensures var t, done := els[i], Covered(s0, rank, els[..i]);
      && t in before && before[t].parent == None
      && Subtree(before, rank, t) == Subtree(s0, rank, t) && done !! Subtree(s0, rank, t)
      && Covered(s0, rank, els[..i + 1]) == done + Subtree(s0, rank, t)
  {
    var t, done := els[i], Covered(s0, rank, els[..i]);
    var sub := Subtree(s0, rank, t);
    forall y | y in sub ensures y !in done {
      EarlierRootsDisjoint(s0, rank, els, i, y);
    }
    assert t in sub;
    SubtreeKept(s0, before, rank, t);
    assert els[..i + 1][..i] == els[..i];
  }

  /** After the next turn of clear_canvas, the subtrees of the first i + 1 elements are cleared. */
  lemma ClearStepDone(s0: map<Id, Node>, before: map<Id, Node>, after: map<Id, Node>, rank: map<Id, nat>, els: seq<Id>, i: nat)
    requires Linked(s0, els) && Ranked(s0, rank) && i < |els|
    requires Ranked(before, rank) && SamePointers(s0, before) && RootsCleared(s0, before, rank, els, i)
    requires SamePointers(before, after) && SubtreeDeleted(before, after, rank, els[i])
    ensures forall d :: d in Covered(s0, rank, els[..i + 1]) ==> Cleared(s0, after, d)
  {
    var t, done := els[i], Covered(s0, rank, els[..i]);
    ClearTurnSets(s0, before, rank, els, i);
    forall d | d in Covered(s0, rank, els[..i + 1]) ensures Cleared(s0, after, d) {
      if d in done {
        assert Untouched(before, after, t, d);
        ClearedKept(s0, before, after, t, d);
      } else {
        assert Cleared(before, after, d);
        ClearedCarried(s0, before, after, d);
      }
    }
  }

  /** After the next turn of clear_canvas, the elements outside those subtrees are as they were. */
  lemma ClearStepRest(s0: map<Id, Node>, before: map<Id, Node>, after: map<Id, Node>, rank: map<Id, nat>, els: seq<Id>, i: nat)
    requires Linked(s0, els) && Ranked(s0, rank) && i < |els|
    requires Ranked(before, rank) && SamePointers(s0, before) && RootsCleared(s0, before, rank, els, i)
    requires SamePointers(before, after) && SubtreeDeleted(before, after, rank, els[i])
    ensures forall id :: id in s0 && id !in Covered(s0, rank, els[..i + 1]) ==>
      id in after && after[id].parent == s0[id].parent && after[id].children == s0[id].children
  {
    var t := els[i];
    ClearTurnSets(s0, before, rank, els, i);
    forall id | id in s0 && id !in Covered(s0, rank, els[..i + 1])
      ensures id in after && after[id].parent == s0[id].parent && after[id].children == s0[id].children
    {
      assert Untouched(before, after, t, id);
    }
  }

  /** An element inside the i-th top-level element lies inside none of those before it. */
  lemma EarlierRootsDisjoint(s0: map<Id, Node>, rank: map<Id, nat>, els: seq<Id>, i: nat, y: Id)
    requires ChildrenLinked(s0) && TopLevel(s0, els) && Ranked(s0, rank) && i < |els|
    requires InSubtree(s0, rank, els[i], y)
    ensures y !in Covered(s0, rank, els[..i])
  {
    CoveredMembers(s0, rank, els[..i], y);
    if y in Covered(s0, rank, els[..i]) {
      var k :| k in els[..i] && InSubtree(s0, rank, k, y);
      var j :| 0 <= j < i && els[j] == k;
      assert els[j] != els[i];
      RootsDisjoint(s0, rank, k, els[i], y);
    }
  }

  /** AllDeleted, one more element of the list. */
  lemma AllDeletedStep(nodes: map<Id, Node>, rank: map<Id, nat>, els: seq<Id>, i: nat)
    requires i < |els|
    ensures AllDeleted(nodes, rank, els[..i + 1]) == Deleted(AllDeleted(nodes, rank, els[..i]), rank, els[i])
  {
    assert els[..i + 1][..i] == els[..i];
  }

  /** One more turn of clear_canvas: the next top-level subtree joins the cleared part. */
  lemma ClearStep(s0: map<Id, Node>, before: map<Id, Node>, after: map<Id, Node>, rank: map<Id, nat>, els: seq<Id>, i: nat)
    requires Linked(s0, els) && Ranked(s0, rank) && i < |els|
    requires Ranked(before, rank) && SamePointers(s0, before) && RootsCleared(s0, before, rank, els, i)
    requires SamePointers(before, after) && SubtreeDeleted(before, after, rank, els[i])
    ensures RootsCleared(s0, after, rank, els, i + 1)
  {
    ClearStepDone(s0, before, after, rank, els, i);
    ClearStepRest(s0, before, after, rank, els, i);
  }

  // ----- the double click on a stack or queue -----

  /** The popped element e put 20 to the right of container c, level with c's top. */
  function Beside(nodes: map<Id, Node>, c: Id, e: Id): (r: map<Id, Node>)
    requires c in nodes && e in nodes
    ensures SameStructure(nodes, r)
    ensures r[e].x == nodes[c].x + nodes[c].width + 20.0 && r[e].y == nodes[c].y
  {
    var r := nodes[e := nodes[e].(x := nodes[c].x + nodes[c].width + 20.0, y := nodes[c].y)];
    assert Skeleton(r[e]) == Skeleton(nodes[e]);
    r
  }

  /**
   * The arena after on_double_click has popped e out of stack or queue c:
   * e is put beside c and drawn, which lays it out if it is a container.
   */
  ghost function Ejected(nodes: map<Id, Node>, c: Id, e: Id): (r: map<Id, Node>)
    requires c in nodes && e in nodes
    ensures SameStructure(nodes, r)
  {
    var b := Beside(nodes, c, e);
    var r := Drawn(b, e, {});
    SameStructureTrans(nodes, b, r);
    r
  }

  /** Placing and drawing the popped element keeps the invariants and the partition. */
  lemma EjectedKeeps(nodes: map<Id, Node>, elements: seq<Id>, rank: map<Id, nat>, c: Id, e: Id)
    requires Linked(nodes, elements) && PointerLinks(nodes) && Ranked(nodes, rank) && c in nodes && e in nodes
    ensures Hierarchy(Beside(nodes, c, e), rank)
    ensures var r := Ejected(nodes, c, e);
      && Linked(r, elements) && PointerLinks(r) && Ranked(r, rank) && r[e].parent == nodes[e].parent
      && (Partitioned(nodes, elements) ==> Partitioned(r, elements))
  {
    SameStructureHierarchy(nodes, Beside(nodes, c, e), rank);
    var r := Ejected(nodes, c, e);
    SameStructureKeeps(nodes, r, elements, rank);
    SameStructureFields(nodes, r, e);
  }

  // ----- hit testing (get_all_elements and the loops of the mouse handlers) -----

  /** One entry of get_all_elements: the element and, for a Volume, its direct children. */
  function Entry(nodes: map<Id, Node>, e: Id): seq<Id>
  {
    [e] + (if e in nodes && IsVolume(nodes[e].kind) then nodes[e].children else [])
  }

  /** DataStructureCanvas.get_all_elements: the top-level elements, each followed by its direct children. */
  function AllElements(nodes: map<Id, Node>, elements: seq<Id>): seq<Id>
  {
    if elements == [] then [] else AllElements(nodes, elements[..|elements| - 1]) + Entry(nodes, elements[|elements| - 1])
  }

  /**
   * What hit testing reaches: the top-level elements and their direct
   * children, and nothing nested deeper.
   */
  lemma {:induction false} AllElementsMembers(nodes: map<Id, Node>, elements: seq<Id>, x: Id)
    requires Linked(nodes, elements)
    ensures x in AllElements(nodes, elements) <==>
      x in elements || (x in nodes && nodes[x].parent.Some? && nodes[x].parent.value in elements)
  {
    if elements != [] {
      var init, e := elements[..|elements| - 1], elements[|elements| - 1];
      assert elements == init + [e];
      LinkedPrefix(nodes, init, e);
      AllElementsMembers(nodes, init, x);
      if x in nodes && nodes[x].parent == Some(e) {
        assert x in nodes[e].children;
      }
    }
  }

  /** The element at (px, py) in the sense of BaseElement.contains. */
  predicate Hits(nodes: map<Id, Node>, id: Id, px: real, py: real)
  {
    id in nodes && Contains(nodes[id].x, nodes[id].y, nodes[id].width, nodes[id].height, px, py)
  }

  /** The element a click picks: the last of ids under the point (the one drawn on top). */
  function TopHit(nodes: map<Id, Node>, ids: seq<Id>, px: real, py: real): (r: Option<Id>)
    ensures r.Some? ==> r.value in ids && Hits(nodes, r.value, px, py)
  {
    if ids == [] then None
    else if Hits(nodes, ids[|ids| - 1], px, py) then Some(ids[|ids| - 1])
    else TopHit(nodes, ids[..|ids| - 1], px, py)
  }

  /** TopHit finds the last element under the point, and None only when there is none. */
  lemma {:induction false} TopHitSpec(nodes: map<Id, Node>, ids: seq<Id>, px: real, py: real)
    ensures var h := TopHit(nodes, ids, px, py);
      && (h.None? <==> forall k :: 0 <= k < |ids| ==> !Hits(nodes, ids[k], px, py))
      && (h.Some? ==> exists k :: 0 <= k < |ids| && ids[k] == h.value && Hits(nodes, ids[k], px, py) &&
                        forall j :: k < j < |ids| ==> !Hits(nodes, ids[j], px, py))
  {
    if ids != [] {
      var last := |ids| - 1;
      var init := ids[..last];
      if Hits(nodes, ids[last], px, py) {
        assert ids[last] == TopHit(nodes, ids, px, py).value;
      } else {
        TopHitSpec(nodes, init, px, py);
        var h := TopHit(nodes, init, px, py);
        assert forall j :: 0 <= j < last ==> ids[j] == init[j];
        if h.Some? {
          var k :| 0 <= k < |init| && init[k] == h.value && Hits(nodes, init[k], px, py) &&
                   forall j :: k < j < |init| ==> !Hits(nodes, init[j], px, py);
          assert ids[k] == h.value && Hits(nodes, ids[k], px, py);
          assert forall j :: k < j < |ids| ==> !Hits(nodes, ids[j], px, py);
        }
      }
    }
  }

  /** What on_drag and on_release look for: a candidate other than skip, and a Volume when volumesOnly. */
  predicate Candidate(nodes: map<Id, Node>, id: Id, skip: Id, px: real, py: real, volumesOnly: bool)
  {
    id != skip && Hits(nodes, id, px, py) && (!volumesOnly || IsVolume(nodes[id].kind))
  }

  /** The first candidate in ids. */
  function FirstHit(nodes: map<Id, Node>, ids: seq<Id>, skip: Id, px: real, py: real, volumesOnly: bool): (r: Option<Id>)
    ensures r.Some? ==> r.value in ids && Candidate(nodes, r.value, skip, px, py, volumesOnly)
  {
    if ids == [] then None
    else if Candidate(nodes, ids[0], skip, px, py, volumesOnly) then Some(ids[0])
    else FirstHit(nodes, ids[1..], skip, px, py, volumesOnly)
  }

  /** FirstHit finds the first candidate, and None only when there is none. */
  lemma {:induction false} FirstHitSpec(nodes: map<Id, Node>, ids: seq<Id>, skip: Id, px: real, py: real, volumesOnly: bool)
    ensures var h := FirstHit(nodes, ids, skip, px, py, volumesOnly);
      && (h.None? <==> forall k :: 0 <= k < |ids| ==> !Candidate(nodes, ids[k], skip, px, py, volumesOnly))
      && (h.Some? ==> exists k :: 0 <= k < |ids| && ids[k] == h.value && Candidate(nodes, ids[k], skip, px, py, volumesOnly) &&
                        forall j :: 0 <= j < k ==> !Candidate(nodes, ids[j], skip, px, py, volumesOnly))
  {
    if ids != [] {
      FirstHitSpec(nodes, ids[1..], skip, px, py, volumesOnly);
      if !Candidate(nodes, ids[0], skip, px, py, volumesOnly) {
        var h := FirstHit(nodes, ids[1..], skip, px, py, volumesOnly);
        if h.Some? {
          var k :| 0 <= k < |ids[1..]| && ids[1..][k] == h.value && Candidate(nodes, ids[1..][k], skip, px, py, volumesOnly) &&
                   forall j :: 0 <= j < k ==> !Candidate(nodes, ids[1..][j], skip, px, py, volumesOnly);
          assert ids[k + 1] == h.value;
          forall j | 0 <= j < k + 1 ensures !Candidate(nodes, ids[j], skip, px, py, volumesOnly) {
            if j > 0 { assert ids[j] == ids[1..][j - 1]; }
          }
        }
      } 
    }
  }

  /** One element shifted by (dx, dy), with its own arrow redrawn if it is a pointer cell. */
  function ShiftedSelf(n: Node, dx: real, dy: real): Node
  {
    var n1 := n.(x := n.x + dx, y := n.y + dy);
    if n1.kind == PointerCell then Redrawn(n1) else n1
  }

  lemma ShiftedOneAt(nodes: map<Id, Node>, e: Id, dx: real, dy: real, id: Id)
    requires e in nodes && id in nodes
    ensures var m := RedrawnAmong(nodes, nodes[e].pointers);
      id in m && (if id == e then ShiftedSelf(m[e], dx, dy) else m[id]) == ShiftedNode(nodes, {e}, dx, dy, id)
  {
    var m := RedrawnAmong(nodes, nodes[e].pointers);
    assert id in m;
    if id in nodes[e].pointers {
      assert Listed(nodes, {e}, id);
    } else {
      assert !Listed(nodes, {e}, id);
    }
  }

  /** Moving one element alone: its incoming arrows redrawn, then itself shifted. */
  lemma ShiftedOne(nodes: map<Id, Node>, e: Id, dx: real, dy: real)
    requires e in nodes
    ensures var m := RedrawnAmong(nodes, nodes[e].pointers);
      e in m && Shifted(nodes, {e}, dx, dy) == m[e := ShiftedSelf(m[e], dx, dy)]
  {
    var m := RedrawnAmong(nodes, nodes[e].pointers);
    var m2 := m[e := ShiftedSelf(m[e], dx, dy)];
    var s := Shifted(nodes, {e}, dx, dy);
    forall id | id in nodes ensures id in m2 && s[id] == m2[id] {
      ShiftedAt(nodes, {e}, dx, dy, id);
      ShiftedOneAt(nodes, e, dx, dy, id);
    }
    forall id | id in m2 ensures id in nodes {
    }
  }

  /** Shifting one element keeps the invariants and its children, and is what Move does before recurring. */
  lemma ShiftedOneKeeps(nodes: map<Id, Node>, elements: seq<Id>, rank: map<Id, nat>, e: Id, dx: real, dy: real)
    requires e in nodes && Linked(nodes, elements) && PointerLinks(nodes) && Ranked(nodes, rank)
    ensures var m := RedrawnAmong(nodes, nodes[e].pointers);
      var r := Shifted(nodes, {e}, dx, dy);
      && e in m && r == m[e := ShiftedSelf(m[e], dx, dy)]
      && r.Keys == nodes.Keys && e in r && r[e].children == nodes[e].children
      && Linked(r, elements) && PointerLinks(r) && Ranked(r, rank)
  {
    var r := Shifted(nodes, {e}, dx, dy);
    ShiftedOne(nodes, e, dx, dy);
    SameStructureKeeps(nodes, r, elements, rank);
    SameStructureFields(nodes, r, e);
  }

  /** The canvas, its elements and the interaction state. */
  class Diagram {
    /** Every element ever created and not discarded, by uuid. */
    var nodes: map<Id, Node>
    /** DataStructureCanvas.elements: the top-level elements, in drawing order. */
    var elements: seq<Id>
    /** Witness that the containment hierarchy is acyclic. */
    ghost var rank: map<Id, nat>
    var selected: Option<Id>
    var dragStart: (real, real)
    var draggingPointer: bool

    /** The invariants with els standing for the canvas list. */
    ghost predicate Holds(els: seq<Id>)
      reads this`nodes, this`rank, this`selected
    {
      Linked(nodes, els) && PointerLinks(nodes) && Ranked(nodes, rank) &&
      (selected.Some? ==> selected.value in nodes)
    }

    ghost predicate Valid()
      reads this
    {
      Holds(elements)
    }

    /** A fresh, empty whiteboard. */
    constructor ()
      ensures Valid() && nodes == map[] && elements == [] && selected == None && !draggingPointer
    {
      nodes := map[];
      elements := [];
      rank := map[];
      selected := None;
      dragStart := (0.0, 0.0);
      draggingPointer := false;
    }

    lemma HoldsAt(r: map<Id, Node>, els: seq<Id>)
      requires nodes == r && Linked(r, els) && PointerLinks(r) && Ranked(r, rank)
      requires selected.Some? ==> selected.value in r
      ensures Holds(els)
    {
    }

    /** The canvas list becomes els, which meets the invariants with the current arena. */
    method Relist(els: seq<Id>)
      requires Holds(els)
      modifies this
      ensures elements == els && Valid()
      ensures nodes == old(nodes) && rank == old(rank) && selected == old(selected)
      ensures dragStart == old(dragStart) && draggingPointer == old(draggingPointer)
    {
      elements := els;
    }

    /** The arena becomes r, which meets the invariants with the current canvas list. */
    method Replace(r: map<Id, Node>)
      requires Linked(r, elements) && PointerLinks(r) && Ranked(r, rank)
      requires selected.Some? ==> selected.value in r
      modifies this
      ensures nodes == r && Valid()
      ensures elements == old(elements) && rank == old(rank) && selected == old(selected)
      ensures dragStart == old(dragStart) && draggingPointer == old(draggingPointer)
    {
      nodes := r;
    }

    /** A change to the arena alone that keeps its structure keeps the invariants. */
    lemma KeepsHolds(before: map<Id, Node>, els: seq<Id>)
      requires SameStructure(before, nodes)
      requires Linked(before, els) && PointerLinks(before) && Ranked(before, rank)
      requires selected.Some? ==> selected.value in before
      ensures Holds(els)
    {
      SameStructureKeeps(before, nodes, els, rank);
    }

    // ----- layout -----

    /** BaseElement.update_arrows: every pointer cell listed by t redraws its arrow. */
    method UpdateArrows(t: Id)
      requires t in nodes
      modifies this
      ensures nodes == RedrawnAmong(old(nodes), old(nodes)[t].pointers)
      ensures elements == old(elements) && rank == old(rank) && selected == old(selected)
      ensures dragStart == old(dragStart) && draggingPointer == old(draggingPointer)
    {
      var ps := nodes[t].pointers;
      for j := 0 to |ps|
        invariant nodes == RedrawnAmong(old(nodes), ps[..j])
        invariant elements == old(elements) && rank == old(rank) && selected == old(selected)
        invariant dragStart == old(dragStart) && draggingPointer == old(draggingPointer)
      {
        RedrawnAmongStep(old(nodes), ps, j);
        if ps[j] in nodes {
          Redraw(ps[j]);
        }
      }
      assert ps[..|ps|] == ps;
    }

    /** Pointer q's arrow is drawn again: update_arrow on one incoming pointer. */
    method Redraw(q: Id)
      requires q in nodes
      modifies this
      ensures nodes == old(nodes)[q := Redrawn(old(nodes)[q])]
      ensures elements == old(elements) && rank == old(rank) && selected == old(selected)
      ensures dragStart == old(dragStart) && draggingPointer == old(draggingPointer)
    {
      nodes := nodes[q := Redrawn(nodes[q])];
    }

    /**
     * draw() of element x: a StructBlock or StackQueue takes the size its
     * child count gives it and rearranges its children; for any other
     * element drawing changes nothing in the arena. `seen` holds the
     * containers whose drawing is under way further up the call chain.
     */
    method Draw(x: Id, ghost seen: set<Id>)
      requires Hierarchy(nodes, rank) && x in nodes && x !in seen && Above(rank, seen, x)
      modifies this
      ensures nodes == Drawn(old(nodes), x, seen)
      ensures elements == old(elements) && rank == old(rank) && selected == old(selected)
      ensures dragStart == old(dragStart) && draggingPointer == old(draggingPointer)
      decreases rank[x], 1
    {
      var k := nodes[x];
      if k.kind == StructBlock || k.kind == StackQueue {
        ghost var before := nodes;
        nodes := nodes[x := Resized(k)];
        SkeletonKept(k);
        SameStructureHierarchy(before, nodes, rank);
        RearrangeElements(x, seen);
      }
    }

    /**
     * rearrange_elements of a StructBlock or StackQueue: every child in turn
     * is put in its slot by its current size, drawn, and the arrows into it
     * redrawn.
     */
    method RearrangeElements(x: Id, ghost seen: set<Id>)
      requires Hierarchy(nodes, rank) && x in nodes && x !in seen && Above(rank, seen, x)
      modifies this
      ensures nodes == Rearranged(old(nodes), x, seen, |old(nodes)[x].children|)
      ensures elements == old(elements) && rank == old(rank) && selected == old(selected)
      ensures dragStart == old(dragStart) && draggingPointer == old(draggingPointer)
      decreases rank[x], 0, 1
    {
      var n := |nodes[x].children|;
      ghost var start := nodes;
      for i := 0 to n
        invariant nodes == Rearranged(start, x, seen, i)
        invariant elements == old(elements) && rank == old(rank) && selected == old(selected)
        invariant dragStart == old(dragStart) && draggingPointer == old(draggingPointer)
      {
        ArrangeChild(x, seen, i, start);
      }
    }

    /** Turn i of rearrange_elements of x: the i-th child is put in its slot, drawn, and the arrows into it redrawn. */
    method ArrangeChild(x: Id, ghost seen: set<Id>, i: nat, ghost start: map<Id, Node>)
      requires Hierarchy(start, rank) && x in start && x !in seen && Above(rank, seen, x) && i < |start[x].children|
      requires nodes == Rearranged(start, x, seen, i)
      modifies this
      ensures nodes == Rearranged(start, x, seen, i + 1)
      ensures elements == old(elements) && rank == old(rank) && selected == old(selected)
      ensures dragStart == old(dragStart) && draggingPointer == old(draggingPointer)
      decreases rank[x], 0, 0
    {
      ghost var m0 := nodes;
      var k := nodes[x].children[i];
      TurnReady(start, rank, x, seen, i, m0, k);
      nodes := nodes[k := Placed(nodes[x], i, nodes[k])];
      Draw(k, seen + {x});
      ghost var d := nodes;
      TurnDone(start, rank, x, seen, i, m0, k, d);
      UpdateArrows(k);
    }

    /**
     * Volume.update_size: rearrange_elements, then draw(). A StructBlock or
     * StackQueue lays out everything its drawing reaches; a plain Volume
     * rearranges nothing and changes nothing here.
     */
    method UpdateSize(c: Id)
      requires Hierarchy(nodes, rank) && c in nodes
      modifies this
      ensures nodes == Relayout(old(nodes), c)
      ensures elements == old(elements) && rank == old(rank) && selected == old(selected)
      ensures dragStart == old(dragStart) && draggingPointer == old(draggingPointer)
    {
      var k := nodes[c];
      if k.kind == StructBlock || k.kind == StackQueue {
        ghost var before := nodes;
        RearrangeElements(c, {});
        SameStructureHierarchy(before, nodes, rank);
        SameStructureFields(before, nodes, c);
        Draw(c, {});
      }
    }

    // ----- containment -----

    /**
     * Volume.add_element: an element that already has a parent stays where it
     * is; otherwise it becomes c's last child and c is laid out. Taking e off
     * the canvas list is the caller's business: the invariants hold for the
     * list without e. An element may not be dropped into something inside it.
     */
    method AddElement(c: Id, e: Id)
      requires Valid() && c in nodes && e in nodes && IsVolume(nodes[c].kind)
      requires nodes[e].parent == None ==> !InSubtree(nodes, rank, e, c)
      modifies this
      ensures nodes == Arena.AddElement(old(nodes), c, e)
      ensures Holds(RemoveFirst(elements, e))
      ensures Partitioned(old(nodes), elements) ==> Partitioned(nodes, RemoveFirst(elements, e))
      ensures old(nodes)[e].parent.Some? ==> RemoveFirst(elements, e) == elements
      ensures elements == old(elements) && selected == old(selected)
      ensures dragStart == old(dragStart) && draggingPointer == old(draggingPointer)
    {
      if nodes[e].parent.Some? {
        RemoveFirstCuts(elements, e);
        return;
      }
      AddElementKeeps(nodes, elements, rank, c, e);
      Adopt(c, e);
      UpdateSize(c);
      HoldsAt(nodes, RemoveFirst(elements, e));
    }

    /**
     * The list and link part of Volume.add_element: e names c as its parent and
     * joins the end of c's list. The layout that follows restores the invariants.
     */
    method Adopt(c: Id, e: Id)
      requires Valid() && c in nodes && e in nodes && IsVolume(nodes[c].kind)
      requires nodes[e].parent == None && !InSubtree(nodes, rank, e, c)
      modifies this
      ensures nodes == Attach(old(nodes), c, e) && Hierarchy(nodes, rank)
      ensures rank == Bumped(old(nodes), old(rank), c, e)
      ensures elements == old(elements) && selected == old(selected)
      ensures dragStart == old(dragStart) && draggingPointer == old(draggingPointer)
    {
      nodes := Attach(nodes, c, e);
      rank := Bumped(old(nodes), rank, c, e);
      AttachHierarchy(old(nodes), elements, old(rank), c, e);
    }

    method RemoveElement(c: Id, e: Id)
      requires Valid() && c in nodes && e in nodes
      modifies this
      ensures nodes == Arena.RemoveElement(old(nodes), c, e) && Valid()
      ensures e in old(nodes)[c].children ==>
        nodes[e].parent == None && e !in elements && Holds(elements + [e]) &&
        (Partitioned(old(nodes), elements) ==> Partitioned(nodes, elements + [e]))
      ensures elements == old(elements) && rank == old(rank) && selected == old(selected)
      ensures dragStart == old(dragStart) && draggingPointer == old(draggingPointer)
    {
      if e !in nodes[c].children {
        return;
      }
      RemoveChild(c, e);
    }

    /** Volume.remove_element on an element c lists. */
    method RemoveChild(c: Id, e: Id)
      requires Valid() && c in nodes && e in nodes[c].children
      modifies this
      ensures nodes == Arena.RemoveElement(old(nodes), c, e) && Valid()
      ensures e in nodes && nodes[e].parent == None && e !in elements && Holds(elements + [e])
      ensures Partitioned(old(nodes), elements) ==> Partitioned(nodes, elements + [e])
      ensures elements == old(elements) && rank == old(rank) && selected == old(selected)
      ensures dragStart == old(dragStart) && draggingPointer == old(draggingPointer)
    {
      assert e in nodes && Hierarchy(Detach(nodes, c, e), rank) by {
        DetachKeeps(nodes, elements, rank, c, e);
      }
      RemoveElementKeeps(nodes, elements, rank, c, e);
      Unlist(c, e);
      HoldsAt(nodes, elements);
      HoldsAt(nodes, elements + [e]);
    }

    /** The list and link part of Volume.remove_element, then the layout. */
    method Unlist(c: Id, e: Id)
      requires c in nodes && e in nodes && Hierarchy(Detach(nodes, c, e), rank)
      modifies this
      ensures nodes == Relayout(Detach(old(nodes), c, e), c)
      ensures elements == old(elements) && rank == old(rank) && selected == old(selected)
      ensures dragStart == old(dragStart) && draggingPointer == old(draggingPointer)
    {
      nodes := Detach(nodes, c, e);
      UpdateSize(c);
    }

    /**
     * StackQueue.remove_element: nothing on an empty container; otherwise the
     * last child of a stack or the first child of a queue leaves the list,
     * loses its parent and is returned, and the container is laid out.
     */
    method PopElement(c: Id) returns (out: Option<Id>)
      requires Valid() && c in nodes && nodes[c].kind == StackQueue
      modifies this
      ensures (nodes, out) == Pop(old(nodes), c) && Valid()
      ensures out.Some? ==>
        && out.value in nodes && out.value !in elements && Holds(elements + [out.value])
        && (Partitioned(old(nodes), elements) ==> Partitioned(nodes, elements + [out.value]))
      ensures elements == old(elements) && rank == old(rank) && selected == old(selected)
      ensures dragStart == old(dragStart) && draggingPointer == old(draggingPointer)
    {
      if nodes[c].children == [] {
        return None;
      }
      var e := PopChild(c);
      out := Some(e);
    }

    /** StackQueue.remove_element on a container that has children. */
    method PopChild(c: Id) returns (e: Id)
      requires Valid() && c in nodes && nodes[c].children != []
      modifies this
      ensures (nodes, Some(e)) == Pop(old(nodes), c) && Valid()
      ensures e in nodes && e !in elements && Holds(elements + [e])
      ensures Partitioned(old(nodes), elements) ==> Partitioned(nodes, elements + [e])
      ensures elements == old(elements) && rank == old(rank) && selected == old(selected)
      ensures dragStart == old(dragStart) && draggingPointer == old(draggingPointer)
    {
      var k := nodes[c];
      var i := if k.isStack then |k.children| - 1 else 0;
      e := k.children[i];
      PopShape(nodes, elements, rank, c);
      PopKeeps(nodes, elements, rank, c);
      Unlist(c, e);
      HoldsAt(nodes, elements);
      HoldsAt(nodes, elements + [e]);
    }

    // ----- pointers -----

    /**
     * PointerCell.create_arrow: p leaves its old target's incoming list,
     * targets t, joins t's incoming list and draws its arrow.
     */
    method CreateArrow(p: Id, t: Id)
      requires Valid() && p in nodes && t in nodes && nodes[p].kind == PointerCell
      modifies this
      ensures nodes == Link(old(nodes), p, t) && Valid()
      ensures Partitioned(old(nodes), elements) ==> Partitioned(nodes, elements)
      ensures elements == old(elements) && rank == old(rank) && selected == old(selected)
      ensures dragStart == old(dragStart) && draggingPointer == old(draggingPointer)
    {
      LinkKeeps(nodes, elements, rank, p, t);
      Replace(Link(nodes, p, t));
    }

    /**
     * The unlink in on_drag when the pointer's dot is dragged onto empty
     * canvas: only a pointer with a recorded arrow is affected; it loses the
     * arrow and, if it has a target, leaves the target's incoming list and
     * loses the target.
     */
    method DropArrow(p: Id)
      requires Valid() && p in nodes
      modifies this
      ensures nodes == Unlink(old(nodes), p) && Valid()
      ensures Partitioned(old(nodes), elements) ==> Partitioned(nodes, elements)
      ensures elements == old(elements) && rank == old(rank) && selected == old(selected)
      ensures dragStart == old(dragStart) && draggingPointer == old(draggingPointer)
    {
      UnlinkKeeps(nodes, elements, rank, p);
      Replace(Unlink(nodes, p));
    }

    // ----- the toolbar buttons -----

    /** Puts a freshly constructed element on the canvas list. */
    method Place(id: Id, n: Node)
      requires Valid() && id !in nodes
      requires n.parent == None && n.children == [] && n.pointers == [] && n.target == None
      modifies this
      ensures nodes == old(nodes)[id := n] && elements == old(elements) + [id] && Valid()
      ensures Partitioned(old(nodes), old(elements)) ==> Partitioned(nodes, elements)
      ensures selected == old(selected) && dragStart == old(dragStart) && draggingPointer == old(draggingPointer)
    {
      PlaceKeeps(nodes, elements, rank, id, n);
      nodes := nodes[id := n];
      elements := elements + [id];
      rank := rank[id := 0];
      HoldsAt(nodes, elements);
    }

    /** create_data_cell: a DataCell named "Data" with an empty value at (100, 100). */
    method CreateDataCell(id: Id)
      requires Valid() && id !in nodes
      modifies this
      ensures nodes == old(nodes)[id := NewDataCell(100.0, 100.0, "Data", "")] && elements == old(elements) + [id] && Valid()
      ensures selected == old(selected) && dragStart == old(dragStart) && draggingPointer == old(draggingPointer)
    {
      Place(id, NewDataCell(100.0, 100.0, "Data", ""));
    }

    /** create_pointer_cell: a PointerCell named "Pointer" without a target at (200, 100). */
    method CreatePointerCell(id: Id)
      requires Valid() && id !in nodes
      modifies this
      ensures nodes == old(nodes)[id := NewPointerCell(200.0, 100.0, "Pointer")] && elements == old(elements) + [id] && Valid()
      ensures selected == old(selected) && dragStart == old(dragStart) && draggingPointer == old(draggingPointer)
    {
      Place(id, NewPointerCell(200.0, 100.0, "Pointer"));
    }

    /** create_struct_block: an empty StructBlock named "Struct" at (300, 100). */
    method CreateStructBlock(id: Id)
      requires Valid() && id !in nodes
      modifies this
      ensures nodes == old(nodes)[id := NewStructBlock(300.0, 100.0, "Struct")] && elements == old(elements) + [id] && Valid()
      ensures selected == old(selected) && dragStart == old(dragStart) && draggingPointer == old(draggingPointer)
    {
      Place(id, NewStructBlock(300.0, 100.0, "Struct"));
    }

    /** create_stack: an empty stack named "Stack" at (500, 100). */
    method CreateStack(id: Id)
      requires Valid() && id !in nodes
      modifies this
      ensures nodes == old(nodes)[id := NewStackQueue(500.0, 100.0, "Stack", true)] && elements == old(elements) + [id] && Valid()
      ensures selected == old(selected) && dragStart == old(dragStart) && draggingPointer == old(draggingPointer)
    {
      Place(id, NewStackQueue(500.0, 100.0, "Stack", true));
    }

    /** create_queue: an empty queue named "Queue" at (700, 100). */
    method CreateQueue(id: Id)
      requires Valid() && id !in nodes
      modifies this
      ensures nodes == old(nodes)[id := NewStackQueue(700.0, 100.0, "Queue", false)] && elements == old(elements) + [id] && Valid()
      ensures selected == old(selected) && dragStart == old(dragStart) && draggingPointer == old(draggingPointer)
    {
      Place(id, NewStackQueue(700.0, 100.0, "Queue", false));
    }

    // ----- hit testing -----

    /** DataStructureCanvas.get_all_elements. */
    method GetAllElements() returns (all: seq<Id>)
      ensures all == AllElements(nodes, elements)
    {
      all := [];
      for i := 0 to |elements|
        invariant all == AllElements(nodes, elements[..i])
      {
        assert elements[..i + 1][..i] == elements[..i];
        all := all + [elements[i]];
        if elements[i] in nodes && IsVolume(nodes[elements[i]].kind) {
          all := all + nodes[elements[i]].children;
        }
      }
      assert elements[..|elements|] == elements;
    }

    /**
     * The loop of on_click and on_double_click: walk get_all_elements from the
     * end and stop at the first element under the point.
     */
    method PickTop(px: real, py: real) returns (hit: Option<Id>)
      ensures hit == TopHit(nodes, AllElements(nodes, elements), px, py)
      ensures hit.None? ==> forall x :: x in AllElements(nodes, elements) ==> !Hits(nodes, x, px, py)
      ensures hit.Some? ==> hit.value in AllElements(nodes, elements) && Hits(nodes, hit.value, px, py)
    {
      var all := GetAllElements();
      TopHitSpec(nodes, all, px, py);
      var i := |all|;
      assert all[..i] == all;
      while i > 0
        invariant 0 <= i <= |all|
        invariant TopHit(nodes, all, px, py) == TopHit(nodes, all[..i], px, py)
      {
        assert all[..i][..i - 1] == all[..i - 1];
        if Hits(nodes, all[i - 1], px, py) {
          return Some(all[i - 1]);
        }
        i := i - 1;
      }
      return None;
    }

    /**
     * The forward loops of on_drag (over get_all_elements) and on_release
     * (over the canvas list, Volumes only): the first candidate other than skip.
     */
    method PickFirst(ids: seq<Id>, skip: Id, px: real, py: real, volumesOnly: bool) returns (hit: Option<Id>)
      ensures hit == FirstHit(nodes, ids, skip, px, py, volumesOnly)
      ensures hit.None? ==> forall x :: x in ids ==> !Candidate(nodes, x, skip, px, py, volumesOnly)
      ensures hit.Some? ==> hit.value in ids && hit.value != skip && Hits(nodes, hit.value, px, py)
      ensures hit.Some? && volumesOnly ==> IsVolume(nodes[hit.value].kind)
    {
      FirstHitSpec(nodes, ids, skip, px, py, volumesOnly);
      for i := 0 to |ids|
        invariant FirstHit(nodes, ids, skip, px, py, volumesOnly) == FirstHit(nodes, ids[i..], skip, px, py, volumesOnly)
      {
        assert ids[i..][1..] == ids[i + 1..];
        if Candidate(nodes, ids[i], skip, px, py, volumesOnly) {
          return Some(ids[i]);
        }
      }
      return None;
    }

    // ----- moving -----

    /**
     * BaseElement.move and PointerCell.move: the arrows of the pointers into e
     * are redrawn, e shifts by (dx, dy), and a pointer cell redraws its own arrow.
     */
    method MoveSelf(e: Id, dx: real, dy: real)
      requires Valid() && e in nodes
      modifies this
      ensures elements == old(elements) && rank == old(rank) && selected == old(selected)
      ensures dragStart == old(dragStart) && draggingPointer == old(draggingPointer)
      ensures nodes == Shifted(old(nodes), {e}, dx, dy) && Valid()
    {
      ShiftedOneKeeps(nodes, elements, rank, e, dx, dy);
      UpdateArrows(e);
      Replace(nodes[e := ShiftedSelf(nodes[e], dx, dy)]);
    }

    /**
     * Volume.move on top of BaseElement.move: the element and, recursively,
     * everything inside it shift by (dx, dy), and the arrows of the pointer
     * cells among them and of the pointers into them are redrawn.
     */
    method Move(e: Id, dx: real, dy: real)
      requires Valid() && e in nodes
      modifies this
      ensures elements == old(elements) && rank == old(rank) && selected == old(selected)
      ensures nodes == Shifted(old(nodes), Subtree(old(nodes), old(rank), e), dx, dy) && Valid()
      ensures dragStart == old(dragStart) && draggingPointer == old(draggingPointer)
      decreases rank[e], 1
    {
      ghost var start := nodes;
      assert Ranked(start, rank) && ChildrenLinked(start);
      MoveSelf(e, dx, dy);
      if IsVolume(nodes[e].kind) {
        MoveChildren(e, dx, dy, start);
      } else {
        SameStructureFields(start, nodes, e);
        LeafSubtree(start, rank, e);
      }
    }

    /** The loop of Volume.move: each child in turn moves with everything inside it. */
    method MoveChildren(e: Id, dx: real, dy: real, ghost start: map<Id, Node>)
      requires Valid() && e in start && Ranked(start, rank) && ChildrenLinked(start)
      requires nodes == Shifted(start, {e}, dx, dy)
      modifies this
      ensures elements == old(elements) && rank == old(rank) && selected == old(selected)
      ensures dragStart == old(dragStart) && draggingPointer == old(draggingPointer)
      ensures nodes == Shifted(start, Subtree(start, rank, e), dx, dy) && Valid()
      decreases rank[e], 0
    {
      SameStructureFields(start, nodes, e);
      var kids := nodes[e].children;
      MovedPrefixZero(start, rank, e);
      for i := 0 to |kids|
        invariant Valid() && e in nodes && nodes[e].children == kids
        invariant elements == old(elements) && rank == old(rank) && selected == old(selected)
        invariant dragStart == old(dragStart) && draggingPointer == old(draggingPointer)
        invariant nodes == Shifted(start, MovedPrefix(start, rank, e, i), dx, dy)
      {
        ghost var before := nodes;
        assert kids[i] in nodes && rank[kids[i]] < old(rank)[e] by {
          assert kids[i] in nodes[e].children;
        }
        Move(kids[i], dx, dy);
        SameStructureFields(before, nodes, e);
        MoveChildStep(start, rank, e, i, before, nodes, dx, dy);
      }
      MovedPrefixAll(start, rank, e);
    }

    // ----- deleting -----

    /** The first loop of BaseElement.delete: every pointer into e that shows an arrow loses it. */
    method ClearArrows(e: Id)
      requires e in nodes
      modifies this
      ensures nodes == Unarrowed(old(nodes), old(nodes)[e].pointers)
      ensures elements == old(elements) && rank == old(rank) && selected == old(selected)
      ensures dragStart == old(dragStart) && draggingPointer == old(draggingPointer)
    {
      var ps := nodes[e].pointers;
      for j := 0 to |ps|
        invariant nodes == Unarrowed(old(nodes), ps[..j])
        invariant elements == old(elements) && rank == old(rank) && selected == old(selected)
        invariant dragStart == old(dragStart) && draggingPointer == old(draggingPointer)
      {
        UnarrowedStep(old(nodes), ps, j);
        if ps[j] in nodes && nodes[ps[j]].arrow {
          nodes := nodes[ps[j] := nodes[ps[j]].(arrow := false)];
        }
      }
      assert ps[..|ps|] == ps;
    }

    /** The last step of BaseElement.delete: e asks its container to remove it. */
    method Unparent(e: Id)
      requires Valid() && e in nodes
      modifies this
      ensures nodes == (if LeavesParent(old(nodes), e) then Arena.RemoveElement(old(nodes), old(nodes)[e].parent.value, e) else old(nodes))
      ensures Valid()
      ensures elements == old(elements) && rank == old(rank) && selected == old(selected)
      ensures dragStart == old(dragStart) && draggingPointer == old(draggingPointer)
    {
      if LeavesParent(nodes, e) {
        RemoveElement(nodes[e].parent.value, e);
      }
    }

    /** BaseElement.delete: the arrows into e are dropped, and e leaves its container if it can. */
    method Discard(e: Id)
      requires Valid() && e in nodes
      modifies this
      ensures nodes == Discarded(old(nodes), e) && Valid()
      ensures elements == old(elements) && rank == old(rank) && selected == old(selected)
      ensures dragStart == old(dragStart) && draggingPointer == old(draggingPointer)
    {
      ghost var s := nodes;
      ClearArrows(e);
      KeepsHolds(s, elements);
      Unparent(e);
    }

    /**
     * Deleting e, as element.delete() dispatches: for a container the loop of
     * Volume.delete first deletes its children, then BaseElement.delete runs.
     * Every element of e's subtree leaves its container unless that is a
     * stack or queue, and loses its children unless it is one; outside the
     * subtree only e's container changes; the arrows into e are dropped.
     */
    method Delete(e: Id)
      requires Valid() && e in nodes
      modifies this
      ensures elements == old(elements) && rank == old(rank) && selected == old(selected)
      ensures dragStart == old(dragStart) && draggingPointer == old(draggingPointer)
      ensures nodes == Deleted(old(nodes), rank, e)
      ensures Valid() && SamePointers(old(nodes), nodes)
      ensures SubtreeDeleted(old(nodes), nodes, rank, e)
      ensures forall q :: q in old(nodes)[e].pointers ==> q in nodes && !nodes[q].arrow
      decreases rank[e], 1
    {
      ghost var s0 := nodes;
      if IsVolume(nodes[e].kind) {
        DeleteChildren(e);
      }
      ghost var s := nodes;
      Discard(e);
      DeleteDone(s0, s, nodes, elements, rank, e);
      assert Valid() && SamePointers(s0, nodes);
    }

    /** The loop of Volume.delete, over a copy of the child list: each child is deleted in turn. */
    method DeleteChildren(e: Id)
      requires Valid() && e in nodes && IsVolume(nodes[e].kind)
      modifies this
      ensures elements == old(elements) && rank == old(rank) && selected == old(selected)
      ensures dragStart == old(dragStart) && draggingPointer == old(draggingPointer)
      ensures nodes == ChildrenDeleted(old(nodes), rank, e, old(nodes)[e].children)
      ensures Valid() && SamePointers(old(nodes), nodes)
      ensures ChildrenCleared(old(nodes), nodes, rank, e, |old(nodes)[e].children|)
      decreases rank[e], 0, 1
    {
      var kids := nodes[e].children;
      ghost var s0 := nodes;
      assert kids[..0] == [] && e in rank;
      for i := 0 to |kids|
        invariant elements == old(elements) && rank == old(rank) && selected == old(selected)
        invariant dragStart == old(dragStart) && draggingPointer == old(draggingPointer)
        invariant e in rank && Ranked(s0, rank) && ChildrenLinked(s0)
        invariant Valid() && SamePointers(s0, nodes)
        invariant nodes == ChildrenDeleted(s0, rank, e, kids[..i])
        invariant ChildrenCleared(s0, nodes, rank, e, i)
      {
        DeleteChild(e, kids, i, s0);
      }
      assert kids[..|kids|] == kids;
    }

    /** One turn of the loop of Volume.delete of e: its i-th child is deleted. */
    method DeleteChild(e: Id, kids: seq<Id>, i: nat, ghost s0: map<Id, Node>)
      requires e in s0 && e in rank && Ranked(s0, rank) && ChildrenLinked(s0) && kids == s0[e].children && i < |kids|
      requires Valid() && SamePointers(s0, nodes)
      requires nodes == ChildrenDeleted(s0, rank, e, s0[e].children[..i])
      requires ChildrenCleared(s0, nodes, rank, e, i)
      modifies this
      ensures elements == old(elements) && rank == old(rank) && selected == old(selected)
      ensures dragStart == old(dragStart) && draggingPointer == old(draggingPointer)
      ensures Valid() && SamePointers(s0, nodes)
      ensures nodes == ChildrenDeleted(s0, rank, e, s0[e].children[..i + 1])
      ensures ChildrenCleared(s0, nodes, rank, e, i + 1)
      decreases rank[e], 0, 0
    {
      ghost var before := nodes;
      var k := kids[i];
      assert k in nodes && rank[k] < rank[e];
      Delete(k);
      DeleteChildStep(s0, before, nodes, rank, e, i);
      ChildrenDeletedStep(s0, rank, e, s0[e].children, i);
      SamePointersTrans(s0, before, nodes);
    }

    /**
     * BaseElement.move_out. An element with a container asks it to remove the
     * element; the method then reads the container's position through the
     * parent link that was just cleared and fails, so e is left where it was,
     * with no parent and not on the canvas list. A stack or queue container
     * refuses the removal and nothing changes. An element without a container
     * skips all that and is drawn again, which lays out a StructBlock or
     * StackQueue and redraws the arrows into what its drawing reaches.
     */
    method MoveOut(e: Id)
      requires Valid() && e in nodes
      modifies this
      ensures nodes == (
        if old(nodes)[e].parent == None then Drawn(old(nodes), e, {})
        else if LeavesParent(old(nodes), e) then Arena.RemoveElement(old(nodes), old(nodes)[e].parent.value, e)
        else old(nodes))
      ensures Valid()
      ensures LeavesParent(old(nodes), e) ==>
        && nodes[e].parent == None && e !in elements
        && nodes[e].x == old(nodes)[e].x && nodes[e].y == old(nodes)[e].y
        && nodes[e].width == old(nodes)[e].width && nodes[e].height == old(nodes)[e].height
      ensures elements == old(elements) && rank == old(rank) && selected == old(selected)
      ensures dragStart == old(dragStart) && draggingPointer == old(draggingPointer)
    {
      if nodes[e].parent == None {
        ghost var before := nodes;
        Draw(e, {});
        KeepsHolds(before, elements);
        return;
      }
      if LeavesParent(nodes, e) {
        var p := nodes[e].parent.value;
        assert e in nodes[p].children && p != e by {
          assert rank[e] < rank[p];
        }
        RemoveElementKeepsPlace(nodes, rank, p, e);
      }
      Unparent(e);
    }

    // ----- the mouse handlers -----

    /**
     * on_click: the press point becomes the drag origin. A press on the dot
     * of the selected pointer cell starts dragging that pointer; otherwise
     * the topmost element under the point becomes the selection, or, over
     * empty canvas, nothing is selected. Whether the press is on the dot is
     * the canvas's answer and comes in as onDot.
     */
    method Click(px: real, py: real, onDot: bool)
      requires Valid()
      modifies this
      ensures nodes == old(nodes) && elements == old(elements) && rank == old(rank) && Valid()
      ensures dragStart == (px, py)
      ensures onDot && old(selected).Some? && nodes[old(selected).value].kind == PointerCell ==>
        selected == old(selected) && draggingPointer
      ensures !(onDot && old(selected).Some? && nodes[old(selected).value].kind == PointerCell) ==>
        selected == TopHit(nodes, AllElements(nodes, elements), px, py) && draggingPointer == old(draggingPointer)
    {
      dragStart := (px, py);
      if onDot && selected.Some? && nodes[selected.value].kind == PointerCell {
        draggingPointer := true;
        return;
      }
      selected := PickTop(px, py);
    }

    /**
     * on_drag. While the dot of a selected pointer cell is dragged, the first
     * element under the point other than the pointer becomes its target; over
     * empty canvas its arrow and target are dropped. Otherwise a selected
     * top-level element moves with everything inside it by the distance from
     * the drag origin, which then follows the point; a selected element
     * inside a container stays put.
     */
    method Drag(px: real, py: real)
      requires Valid()
      modifies this
      ensures Valid() && elements == old(elements) && rank == old(rank)
      ensures Partitioned(old(nodes), elements) ==> Partitioned(nodes, elements)
      ensures selected == old(selected) && draggingPointer == old(draggingPointer)
      ensures old(selected).None? ==> nodes == old(nodes) && dragStart == old(dragStart)
      ensures old(selected).Some? && draggingPointer && old(nodes)[old(selected).value].kind == PointerCell ==>
        var p := old(selected).value;
        var h := FirstHit(old(nodes), AllElements(old(nodes), elements), p, px, py, false);
        dragStart == old(dragStart) && nodes == (if h.Some? then Link(old(nodes), p, h.value) else Unlink(old(nodes), p))
      ensures old(selected).Some? && !(draggingPointer && old(nodes)[old(selected).value].kind == PointerCell) ==>
        var e := old(selected).value;
        if old(nodes)[e].parent.Some? then nodes == old(nodes) && dragStart == old(dragStart)
        else
          && dragStart == (px, py)
          && nodes == Shifted(old(nodes), Subtree(old(nodes), old(rank), e), Offset(old(dragStart).0, px), Offset(old(dragStart).1, py))
    {
      if selected.None? {
        return;
      }
      var e := selected.value;
      if draggingPointer && nodes[e].kind == PointerCell {
        DragPointer(e, px, py);
      } else if nodes[e].parent == None {
        DragElement(e, px, py);
      }
    }

    /** The pointer branch of on_drag: p's target becomes the first element under the point other than p, if any. */
    method DragPointer(p: Id, px: real, py: real)
      requires Valid() && p in nodes && nodes[p].kind == PointerCell
      modifies this
      ensures var h := FirstHit(old(nodes), AllElements(old(nodes), elements), p, px, py, false);
        nodes == (if h.Some? then Link(old(nodes), p, h.value) else Unlink(old(nodes), p))
      ensures Valid() && (Partitioned(old(nodes), elements) ==> Partitioned(nodes, elements))
      ensures elements == old(elements) && rank == old(rank) && selected == old(selected)
      ensures dragStart == old(dragStart) && draggingPointer == old(draggingPointer)
    {
      var all := GetAllElements();
      var hit := PickFirst(all, p, px, py, false);
      if hit.Some? {
        CreateArrow(p, hit.value);
      } else {
        DropArrow(p);
      }
    }

    /** The moving branch of on_drag: e moves with everything inside it, and the drag origin follows the point. */
    method DragElement(e: Id, px: real, py: real)
      requires Valid() && e in nodes
      modifies this
      ensures nodes == Shifted(old(nodes), Subtree(old(nodes), old(rank), e), Offset(old(dragStart).0, px), Offset(old(dragStart).1, py))
      ensures Valid() && dragStart == (px, py) && (Partitioned(old(nodes), elements) ==> Partitioned(nodes, elements))
      ensures elements == old(elements) && rank == old(rank) && selected == old(selected) && draggingPointer == old(draggingPointer)
    {
      Move(e, Offset(dragStart.0, px), Offset(dragStart.1, py));
      if Partitioned(old(nodes), elements) {
        SameStructurePartitioned(old(nodes), nodes, elements);
      }
      Follow(px, py);
    }

    /** The drag origin moves to the point: self.drag_start = (event.x, event.y). */
    method Follow(px: real, py: real)
      modifies this
      ensures dragStart == (px, py)
      ensures nodes == old(nodes) && elements == old(elements) && rank == old(rank) && selected == old(selected)
      ensures draggingPointer == old(draggingPointer) && (old(Valid()) ==> Valid())
    {
      dragStart := (px, py);
    }

    /**
     * The drop branch of on_release: top-level container t takes e (if e has
     * no parent yet), and e leaves the canvas list if it was on it.
     */
    method Drop(t: Id, e: Id)
      requires Valid() && t in elements && e in nodes && t != e && IsVolume(nodes[t].kind)
      modifies this
      ensures nodes == Arena.AddElement(old(nodes), t, e) && elements == RemoveFirst(old(elements), e) && Valid()
      ensures Partitioned(old(nodes), old(elements)) ==> Partitioned(nodes, elements)
      ensures selected == old(selected) && dragStart == old(dragStart) && draggingPointer == old(draggingPointer)
    {
      if nodes[e].parent == None && InSubtree(nodes, rank, e, t) {
        TopLevelInsideOnlyItself(nodes, rank, e, t);
        assert false;
      }
      AddElement(t, e);
      Relist(RemoveFirst(elements, e));
    }


    /**
     * The other branch of on_release, for an element inside a container: the
     * container removes it, it joins the canvas list and moves by (20, 40)
     * with everything inside it. A stack or queue refuses the removal (the
     * error is swallowed) and nothing changes.
     */
    method PullOut(e: Id)
      requires Valid() && e in nodes
      modifies this
      ensures Valid() && (Partitioned(old(nodes), old(elements)) ==> Partitioned(nodes, elements))
      ensures !LeavesParent(old(nodes), e) ==> nodes == old(nodes) && elements == old(elements)
      ensures LeavesParent(old(nodes), e) ==>
        var r := Arena.RemoveElement(old(nodes), old(nodes)[e].parent.value, e);
        elements == old(elements) + [e] && Ranked(r, rank) && nodes == Shifted(r, Subtree(r, rank, e), 20.0, 40.0)
      ensures rank == old(rank) && selected == old(selected)
      ensures dragStart == old(dragStart) && draggingPointer == old(draggingPointer)
    {
      if !LeavesParent(nodes, e) {
        return;
      }
      Extract(e);
      ghost var r := nodes;
      Move(e, 20.0, 40.0);
      if Partitioned(r, elements) {
        SameStructurePartitioned(r, nodes, elements);
      }
    }

    /** The first two steps of PullOut: the container removes e and e joins the canvas list. */
    method Extract(e: Id)
      requires Valid() && LeavesParent(nodes, e)
      modifies this
      ensures nodes == Arena.RemoveElement(old(nodes), old(nodes)[e].parent.value, e) && elements == old(elements) + [e]
      ensures Valid() && (Partitioned(old(nodes), old(elements)) ==> Partitioned(nodes, elements))
      ensures rank == old(rank) && selected == old(selected)
      ensures dragStart == old(dragStart) && draggingPointer == old(draggingPointer)
    {
      assert e in nodes[nodes[e].parent.value].children;
      RemoveChild(nodes[e].parent.value, e);
      Relist(elements + [e]);
    }


    /**
     * on_release: pointer dragging ends. Unless a pointer was being dragged,
     * the selected element is dropped into the first top-level container
     * under the point other than itself; with no such container, an element
     * inside a container is pulled out of it onto the canvas.
     */
    method Release(px: real, py: real)
      requires Valid()
      modifies this
      ensures Valid() && !draggingPointer && selected == old(selected) && dragStart == old(dragStart)
      ensures Partitioned(old(nodes), old(elements)) ==> Partitioned(nodes, elements)
      ensures old(selected).None? || old(draggingPointer) ==> nodes == old(nodes) && elements == old(elements)
      ensures old(selected).Some? && !old(draggingPointer) ==>
        var e := old(selected).value;
        var t := FirstHit(old(nodes), old(elements), e, px, py, true);
        && (t.Some? ==> nodes == Arena.AddElement(old(nodes), t.value, e) && elements == RemoveFirst(old(elements), e))
        && (t.None? && !LeavesParent(old(nodes), e) ==> nodes == old(nodes) && elements == old(elements))
        && (t.None? && LeavesParent(old(nodes), e) ==>
              var r := Arena.RemoveElement(old(nodes), old(nodes)[e].parent.value, e);
              elements == old(elements) + [e] && Ranked(r, rank) && nodes == Shifted(r, Subtree(r, rank, e), 20.0, 40.0))
    {
      var wasDragging := EndPointerDrag();
      if selected.None? || wasDragging {
        return;
      }
      var e := selected.value;
      var t := PickFirst(elements, e, px, py, true);
      if t.Some? {
        Drop(t.value, e);
      } else {
        PullOut(e);
      }
    }

    /** The first lines of on_release: whether a pointer was being dragged, which then stops. */
    method EndPointerDrag() returns (was: bool)
      modifies this
      ensures was == old(draggingPointer) && !draggingPointer
      ensures nodes == old(nodes) && elements == old(elements) && rank == old(rank) && selected == old(selected)
      ensures dragStart == old(dragStart) && (old(Valid()) ==> Valid())
    {
      was := draggingPointer;
      draggingPointer := false;
    }

    /**
     * The stack-or-queue branch of on_double_click: c's next element is
     * popped, placed beside c, added to the canvas list and drawn; an empty
     * c changes nothing.
     */
    method Eject(c: Id) returns (out: Option<Id>)
      requires Valid() && c in nodes && nodes[c].kind == StackQueue
      modifies this
      ensures var (m, o) := Pop(old(nodes), c);
        && out == o
        && (o.None? ==> nodes == old(nodes) && elements == old(elements))
        && (o.Some? ==> c in m && o.value in m && nodes == Ejected(m, c, o.value) && elements == old(elements) + [o.value])
      ensures out.Some? ==> nodes[out.value].parent == None && out.value !in old(elements)
      ensures Valid() && (Partitioned(old(nodes), old(elements)) ==> Partitioned(nodes, elements))
      ensures rank == old(rank) && selected == old(selected)
      ensures dragStart == old(dragStart) && draggingPointer == old(draggingPointer)
    {
      out := PopElement(c);
      if out.Some? {
        PutBeside(c, out.value);
      }
    }

    /** The rest of that branch: the popped element e is placed beside c, joins the canvas list and is drawn. */
    method PutBeside(c: Id, e: Id)
      requires c in nodes && e in nodes && e !in elements && Holds(elements + [e])
      modifies this
      ensures nodes == Ejected(old(nodes), c, e) && elements == old(elements) + [e] && Valid()
      ensures nodes[e].parent == old(nodes)[e].parent
      ensures Partitioned(old(nodes), old(elements) + [e]) ==> Partitioned(nodes, elements)
      ensures rank == old(rank) && selected == old(selected)
      ensures dragStart == old(dragStart) && draggingPointer == old(draggingPointer)
    {
      EjectedKeeps(nodes, elements + [e], rank, c, e);
      SetBeside(c, e);
      HoldsAt(nodes, elements + [e]);
      Relist(elements + [e]);
    }

    /** The placing and drawing part of PutBeside. */
    method SetBeside(c: Id, e: Id)
      requires c in nodes && e in nodes && Hierarchy(Beside(nodes, c, e), rank)
      modifies this
      ensures nodes == Ejected(old(nodes), c, e)
      ensures elements == old(elements) && rank == old(rank) && selected == old(selected)
      ensures dragStart == old(dragStart) && draggingPointer == old(draggingPointer)
    {
      nodes := Beside(nodes, c, e);
      Draw(e, {});
    }

    /**
     * on_double_click: a double click on a stack or queue pops its next
     * element out beside it; on any other element it opens a dialog, which
     * is not modelled, and elsewhere nothing happens.
     */
    method DoubleClick(px: real, py: real)
      requires Valid()
      modifies this
      ensures Valid() && (Partitioned(old(nodes), old(elements)) ==> Partitioned(nodes, elements))
      ensures var h := TopHit(old(nodes), AllElements(old(nodes), old(elements)), px, py);
        !(h.Some? && old(nodes)[h.value].kind == StackQueue) ==> nodes == old(nodes) && elements == old(elements)
      ensures var h := TopHit(old(nodes), AllElements(old(nodes), old(elements)), px, py);
        h.Some? && old(nodes)[h.value].kind == StackQueue ==>
          var (m, o) := Pop(old(nodes), h.value);
          (o.None? ==> nodes == old(nodes) && elements == old(elements)) &&
          (o.Some? ==> elements == old(elements) + [o.value] && nodes[o.value].parent == None)
      ensures var h := TopHit(old(nodes), AllElements(old(nodes), old(elements)), px, py);
        h.Some? && old(nodes)[h.value].kind == StackQueue ==>
          var (m, o) := Pop(old(nodes), h.value);
          o.Some? ==> h.value in m && o.value in m && nodes == Ejected(m, h.value, o.value)
      ensures rank == old(rank) && selected == old(selected)
      ensures dragStart == old(dragStart) && draggingPointer == old(draggingPointer)
    {
      var h := PickTop(px, py);
      if h.Some? && nodes[h.value].kind == StackQueue {
        var popped := Eject(h.value);
      }
    }

    /**
     * clear_canvas: every top-level element is deleted, over a copy of the
     * canvas list, and the list is emptied. The elements stay in the arena
     * and keep their pointer fields.
     */
    method ClearCanvas()
      requires Valid()
      modifies this
      ensures Valid() && elements == [] && SamePointers(old(nodes), nodes)
      ensures rank == old(rank) && selected == old(selected)
      ensures dragStart == old(dragStart) && draggingPointer == old(draggingPointer)
      ensures nodes == AllDeleted(old(nodes), rank, old(elements))
      ensures RootsCleared(old(nodes), nodes, rank, old(elements), |old(elements)|)
    {
      var els := elements;
      ghost var s0 := nodes;
      assert els[..0] == [];
      for i := 0 to |els|
        invariant elements == els && rank == old(rank) && selected == old(selected)
        invariant dragStart == old(dragStart) && draggingPointer == old(draggingPointer)
        invariant Linked(s0, els) && Ranked(s0, rank)
        invariant Valid() && SamePointers(s0, nodes)
        invariant nodes == AllDeleted(s0, rank, els[..i])
        invariant RootsCleared(s0, nodes, rank, els, i)
      {
        ClearOne(els, i, s0);
      }
      assert els[..|els|] == els;
      HoldsAt(nodes, []);
      Relist([]);
    }

    /** One turn of clear_canvas: the i-th element of the copied canvas list is deleted. */
    method ClearOne(els: seq<Id>, i: nat, ghost s0: map<Id, Node>)
      requires elements == els && i < |els| && Linked(s0, els) && Ranked(s0, rank)
      requires Valid() && SamePointers(s0, nodes)
      requires nodes == AllDeleted(s0, rank, els[..i])
      requires RootsCleared(s0, nodes, rank, els, i)
      modifies this
      ensures elements == old(elements) && rank == old(rank) && selected == old(selected)
      ensures dragStart == old(dragStart) && draggingPointer == old(draggingPointer)
      ensures Valid() && SamePointers(s0, nodes)
      ensures nodes == AllDeleted(s0, rank, els[..i + 1])
      ensures RootsCleared(s0, nodes, rank, els, i + 1)
    {
      ghost var before := nodes;
      Delete(els[i]);
      ClearStep(s0, before, nodes, rank, els, i);
      AllDeletedStep(s0, rank, els, i);
      SamePointersTrans(s0, before, nodes);
    }

    // ----- save_to_file and load_from_file -----

    /** save_to_file without the file: the records collect_elements makes of the canvas list. */
    method Save() returns (data: seq<Record>)
      requires Valid()
      ensures data == Encode(nodes, rank, elements)
    {
      data := Collect(elements, MaxRank(rank, nodes.Keys) + 1);
    }

    /** collect_elements on ids: each element's to_dict, with the records of a container's children under "elements". */
    method Collect(ids: seq<Id>, ghost bound: nat) returns (data: seq<Record>)
      requires Valid() && forall x :: x in ids ==> x in nodes && rank[x] < bound
      ensures data == Encode(nodes, rank, ids)
      decreases bound
    {
      data := [];
      for i := 0 to |ids|
        invariant data == Encode(nodes, rank, ids[..i])
      {
        var x := ids[i];
        var n := nodes[x];
        var rec := ToDict(x, n);
        if IsVolume(n.kind) {
          var kids := Collect(n.children, rank[x]);
          rec := rec.(elements := Present(kids));
        }
        RecordOfIs(nodes, rank, x);
        EncodeStep(nodes, rank, ids, i);
        data := data + [rec];
      }
      assert ids[..|ids|] == ids;
    }

    /** A fresh uuid_map: the arena load_from_file builds starts empty, and nothing is selected. */
    method Reset()
      requires elements == []
      modifies this
      ensures Valid() && nodes == map[] && elements == [] && selected == None
      ensures dragStart == old(dragStart) && draggingPointer == old(draggingPointer)
    {
      nodes := map[];
      rank := map[];
      selected := None;
    }

    /** An element constructed by from_dict joins the arena but not the canvas list. */
    method Construct(id: Id, n: Node)
      requires Valid() && id !in nodes
      requires n.parent == None && n.children == [] && n.pointers == [] && n.target == None
      modifies this
      ensures nodes == old(nodes)[id := n] && Valid()
      ensures elements == old(elements) && selected == old(selected)
      ensures dragStart == old(dragStart) && draggingPointer == old(draggingPointer)
    {
      ConstructKeeps(nodes, elements, rank, id, n);
      nodes := nodes[id := n];
      rank := rank[id := 0];
      HoldsAt(nodes, elements);
    }

    /**
     * create_element on one record, with all_elements and tmp threaded
     * through: the element is constructed and registered, then each child
     * record is created and, if it yields an element, added to it with
     * add_element.
     */
    method CreateElement(rec: Record, all: seq<Id>, targets: map<Id, Option<Id>>)
      returns (res: Result<Option<Id>>, all1: seq<Id>, targets1: map<Id, Option<Id>>)
      requires Valid() && elements == [] && Listing(Loading(nodes, all, targets))
      modifies this
      ensures Valid() && elements == [] && selected == old(selected)
      ensures dragStart == old(dragStart) && draggingPointer == old(draggingPointer)
      ensures Listing(Loading(nodes, all1, targets1)) && Kept(old(nodes), nodes)
      ensures res.Success? && res.value.Some? ==>
        res.value.value in nodes && res.value.value !in old(nodes) && nodes[res.value.value].parent == None
      ensures var r := Create(rec, Loading(old(nodes), all, targets));
        && (r.Failure? ==> res == Failure(r.error))
        && (r.Success? ==> res == Success(r.value.1) && r.value.0 == Loading(nodes, all1, targets1))
      decreases rec, 1
    {
      all1, targets1 := all, targets;
      var made := FromRecord(rec);
      if made.Failure? {
        return Failure(made.error), all1, targets1;
      }
      if made.value.None? {
        return Success(None), all1, targets1;
      }
      var (id, n) := made.value.value;
      if id in nodes {
        return Failure("duplicate uuid"), all1, targets1;
      }
      Construct(id, n);
      NoDupSnoc(all, id);
      all1 := all + [id];
      targets1 := if n.kind == PointerCell then targets[id := rec.targetUuid] else targets;
      if rec.elements.Missing? {
        return Success(Some(id)), all1, targets1;
      }
      ghost var s1 := Loading(nodes, all1, targets1);
      CreateWithChildren(rec, Loading(old(nodes), all, targets), id, n);
      var kids := rec.elements.list;
      for i := 0 to |kids|
        invariant Valid() && elements == [] && selected == old(selected)
        invariant dragStart == old(dragStart) && draggingPointer == old(draggingPointer)
        invariant Listing(Loading(nodes, all1, targets1)) && Kept(old(nodes), nodes)
        invariant id in nodes && id !in old(nodes) && nodes[id].parent == None
        invariant AddChildren(rec, id, i, Loading(nodes, all1, targets1)) == AddChildren(rec, id, 0, s1)
      {
        var failure;
        failure, all1, targets1 := CreateChild(rec, id, i, all1, targets1);
        if failure.Some? {
          return Failure(failure.value), all1, targets1;
        }
      }
      res := Success(Some(id));
    }

    /**
     * One turn of create_element's loop over the child records of container
     * c: the i-th child record is created and, if it yields an element, c
     * adopts it with add_element. The failure is the exception that ends the
     * load, if any.
     */
    method CreateChild(rec: Record, c: Id, i: nat, all: seq<Id>, targets: map<Id, Option<Id>>)
      returns (failure: Option<string>, all1: seq<Id>, targets1: map<Id, Option<Id>>)
      requires Valid() && elements == [] && Listing(Loading(nodes, all, targets))
      requires rec.elements.Present? && i < |rec.elements.list| && c in nodes && nodes[c].parent == None
      modifies this
      ensures Valid() && elements == [] && selected == old(selected)
      ensures dragStart == old(dragStart) && draggingPointer == old(draggingPointer)
      ensures Listing(Loading(nodes, all1, targets1)) && Kept(old(nodes), nodes)
      ensures var r := AddChildren(rec, c, i, Loading(old(nodes), all, targets));
        && (failure.Some? ==> r == Failure(failure.value))
        && (failure.None? ==> r == AddChildren(rec, c, i + 1, Loading(nodes, all1, targets1)))
      decreases rec, 0
    {
      ghost var cur := Loading(nodes, all, targets);
      AddChildrenTurn(rec, c, i, cur);
      var child;
      child, all1, targets1 := CreateElement(rec.elements.list[i], all, targets);
      if child.Failure? {
        return Some(child.error), all1, targets1;
      }
      if child.value.Some? {
        var e := child.value.value;
        if !IsVolume(nodes[c].kind) {
          return Some("AttributeError"), all1, targets1;
        }
        AddChildrenUnfold(rec, c, i, cur, Loading(nodes, all1, targets1), e);
        ParentlessOutside(c, e);
        ghost var before := nodes;
        AddElement(c, e);
        AdoptKept(old(nodes), before, c, e);
        ListingSameKeys(Loading(before, all1, targets1), Loading(nodes, all1, targets1));
      }
      failure := None;
    }

    /** A parentless element lies inside no element but itself. */
    lemma ParentlessOutside(c: Id, e: Id)
      requires Valid() && c in nodes && e in nodes && c != e && nodes[c].parent == None
      ensures !InSubtree(nodes, rank, e, c)
    {
      if InSubtree(nodes, rank, e, c) {
        SubtreeParent(nodes, rank, e, c);
      }
    }

    /** The first loop of load_from_file: create_element on every record of the file. */
    method CreateElements(recs: seq<Record>) returns (ok: bool, all: seq<Id>, targets: map<Id, Option<Id>>)
      requires Valid() && elements == [] && nodes == map[]
      modifies this
      ensures Valid() && elements == [] && selected == old(selected)
      ensures dragStart == old(dragStart) && draggingPointer == old(draggingPointer)
      ensures ok <==> CreateAll(recs, 0, Empty).Success?
      ensures ok ==> CreateAll(recs, 0, Empty).value == Loading(nodes, all, targets) && Listing(Loading(nodes, all, targets))
    {
      all, targets := [], map[];
      for i := 0 to |recs|
        invariant Valid() && elements == [] && selected == old(selected)
        invariant dragStart == old(dragStart) && draggingPointer == old(draggingPointer)
        invariant Listing(Loading(nodes, all, targets))
        invariant CreateAll(recs, i, Loading(nodes, all, targets)) == CreateAll(recs, 0, Empty)
      {
        CreateAllTurn(recs, i, Loading(nodes, all, targets));
        var res;
        res, all, targets := CreateElement(recs[i], all, targets);
        if res.Failure? {
          return false, all, targets;
        }
      }
      ok := true;
    }

    /**
     * The second loop of load_from_file: every pointer cell among all with a
     * non-empty saved target uuid gets create_arrow to the element of that
     * uuid; a uuid naming no element ends the load.
     */
    method LinkAll(all: seq<Id>, targets: map<Id, Option<Id>>) returns (ok: bool)
      requires Valid() && elements == []
      modifies this
      ensures Valid() && elements == [] && selected == old(selected) && nodes.Keys == old(nodes).Keys
      ensures dragStart == old(dragStart) && draggingPointer == old(draggingPointer)
      ensures ok <==> LinkFrom(old(nodes), all, targets, 0).Success?
      ensures ok ==> nodes == LinkFrom(old(nodes), all, targets, 0).value
    {
      for i := 0 to |all|
        invariant Valid() && elements == [] && selected == old(selected) && nodes.Keys == old(nodes).Keys
        invariant dragStart == old(dragStart) && draggingPointer == old(draggingPointer)
        invariant LinkFrom(nodes, all, targets, i) == LinkFrom(old(nodes), all, targets, 0)
      {
        LinkFromTurn(nodes, all, targets, i);
        ok := LinkPointer(all[i], targets);
        if !ok {
          return;
        }
      }
      ok := true;
    }

    /**
     * One turn of the second loop: pointer cell p with a non-empty saved
     * target uuid gets an arrow to that element, or the load fails when no
     * element has that uuid.
     */
    method LinkPointer(p: Id, targets: map<Id, Option<Id>>) returns (ok: bool)
      requires Valid()
      modifies this
      ensures Valid() && elements == old(elements) && selected == old(selected) && nodes.Keys == old(nodes).Keys
      ensures dragStart == old(dragStart) && draggingPointer == old(draggingPointer)
      ensures ok <==> LinkOne(old(nodes), p, targets).Success?
      ensures ok ==> nodes == LinkOne(old(nodes), p, targets).value
    {
      if p in nodes && nodes[p].kind == PointerCell && p in targets && targets[p].Some? && targets[p].value != "" {
        var t := targets[p].value;
        if t !in nodes {
          return false;
        }
        LinkKeys(nodes, p, t);
        CreateArrow(p, t);
      }
      ok := true;
    }

    /** `[elem for elem in all_elements if not elem.parent]`. */
    method ListRoots(all: seq<Id>) returns (top: seq<Id>)
      ensures top == Roots(nodes, all)
    {
      top := [];
      for i := 0 to |all|
        invariant top == Roots(nodes, all[..i])
      {
        RootsStep(nodes, all, i);
        if all[i] in nodes && nodes[all[i]].parent == None {
          top := top + [all[i]];
        }
      }
      assert all[..|all|] == all;
    }

    /** draw() on each of ids in turn. */
    method DrawList(ids: seq<Id>)
      requires Valid()
      modifies this
      ensures Valid() && nodes == DrawAll(old(nodes), ids)
      ensures Partitioned(old(nodes), elements) ==> Partitioned(nodes, elements)
      ensures elements == old(elements) && rank == old(rank) && selected == old(selected)
      ensures dragStart == old(dragStart) && draggingPointer == old(draggingPointer)
    {
      for i := 0 to |ids|
        invariant Valid() && nodes == DrawAll(old(nodes), ids[..i])
        invariant Partitioned(old(nodes), elements) ==> Partitioned(nodes, elements)
        invariant elements == old(elements) && rank == old(rank) && selected == old(selected)
        invariant dragStart == old(dragStart) && draggingPointer == old(draggingPointer)
      {
        DrawAllStep(old(nodes), ids, i);
        if ids[i] in nodes {
          ghost var before := nodes;
          Draw(ids[i], {});
          KeepsHolds(before, elements);
          SameStructureKeeps(before, nodes, elements, rank);
        }
      }
      assert ids[..|ids|] == ids;
    }

    /** refresh_all: the canvas list is drawn, then the children of each container on it. */
    method Refresh()
      requires Valid()
      modifies this
      ensures Valid() && nodes == RefreshAll(old(nodes), elements)
      ensures Partitioned(old(nodes), elements) ==> Partitioned(nodes, elements)
      ensures elements == old(elements) && rank == old(rank) && selected == old(selected)
      ensures dragStart == old(dragStart) && draggingPointer == old(draggingPointer)
    {
      var top := elements;
      TakeAll(top);
      DrawList(top);
      ghost var m1 := nodes;
      for i := 0 to |top|
        invariant elements == top && rank == old(rank) && selected == old(selected)
        invariant Valid() && nodes == DrawChildren(m1, top[..i])
        invariant Partitioned(old(nodes), top) ==> Partitioned(nodes, top)
        invariant dragStart == old(dragStart) && draggingPointer == old(draggingPointer)
      {
        DrawChildrenStep(m1, top, i);
        DrawContents(top[i]);
      }
    }

    /** draw() on the children of c, when c is a container. */
    method DrawContents(c: Id)
      requires Valid()
      modifies this
      ensures Valid()
      ensures nodes == if c in old(nodes) && IsVolume(old(nodes)[c].kind) then DrawAll(old(nodes), old(nodes)[c].children) else old(nodes)
      ensures Partitioned(old(nodes), elements) ==> Partitioned(nodes, elements)
      ensures elements == old(elements) && rank == old(rank) && selected == old(selected)
      ensures dragStart == old(dragStart) && draggingPointer == old(draggingPointer)
    {
      if c in nodes && IsVolume(nodes[c].kind) {
        DrawList(nodes[c].children);
      }
    }

    /**
     * load_from_file on the parsed file: the canvas is cleared, the three
     * passes run, and the canvas is refreshed. It fails exactly when the
     * load raises, leaving the canvas list empty; otherwise the arena and
     * the canvas list are what Decode gives, and every loaded element is on
     * the canvas list or inside a container.
     */
    method Load(recs: seq<Record>) returns (ok: bool)
      requires Valid()
      modifies this
      ensures Valid() && selected == None
      ensures dragStart == old(dragStart) && draggingPointer == old(draggingPointer)
      ensures ok <==> Decode(recs).Success?
      ensures ok ==> nodes == Decode(recs).value.0 && elements == Decode(recs).value.1 && Partitioned(nodes, elements)
      ensures !ok ==> elements == []
    {
      ClearCanvas();
      Reset();
      var all, targets;
      ok, all, targets := CreateElements(recs);
      if !ok {
        return;
      }
      ghost var s := Loading(nodes, all, targets);
      ok := LinkAll(all, targets);
      if !ok {
        return;
      }
      ghost var m := nodes;
      var top := ListRoots(all);
      RootsMembers(m, all);
      HoldsAt(nodes, top);
      Relist(top);
      assert Partitioned(nodes, elements) by {
        forall y | y in nodes ensures nodes[y].parent.Some? || y in elements {
          assert y in s.nodes;
        }
      }
      Refresh();
    }
  }
}
