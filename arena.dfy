/**
 * The in-memory diagram behind the whiteboard, as an arena: every element
 * lives in one map from its uuid to a Node record, and the parent link, the
 * child list of a container, the incoming pointers of an element and the
 * target of a pointer cell are uuids into that map.
 */
module Arena {
  import opened Wrappers
  import opened Geometry

  type Id = string

  /** The five element classes of the editor. */
  datatype Kind = DataCell | PointerCell | Volume | StructBlock | StackQueue

  /** Volume and its two subclasses hold children. */
  predicate IsVolume(k: Kind)
  {
    k == Volume || k == StructBlock || k == StackQueue
  }

  /**
   * The fields of one element. `children` is Volume.elements, `pointers` the
   * pointer cells whose target is this element, `target` and `arrow` the
   * PointerCell fields (whether an arrow is currently recorded), `value` the
   * DataCell payload and `isStack` the StackQueue discipline.
   */
  datatype Node = Node(
    kind: Kind,
    x: real, y: real, width: real, height: real,
    name: string,
    parent: Option<Id>,
    children: seq<Id>,
    pointers: seq<Id>,
    target: Option<Id>,
    arrow: bool,
    value: string,
    isStack: bool)

  // ----- element creation (the constructors of the element classes) -----

  function NewDataCell(x: real, y: real, name: string, value: string): Node
  {
    Node(DataCell, x, y, CellWidth, CellHeight, name, None, [], [], None, false, value, false)
  }

  function NewPointerCell(x: real, y: real, name: string): Node
  {
    Node(PointerCell, x, y, CellWidth, CellHeight, name, None, [], [], None, false, "", false)
  }

  function NewVolume(x: real, y: real, name: string, width: real, height: real): Node
  {
    Node(Volume, x, y, width, height, name, None, [], [], None, false, "", false)
  }

  /** A new StructBlock has already been drawn once, which sets its width for no children. */
  function NewStructBlock(x: real, y: real, name: string): Node
  {
    Node(StructBlock, x, y, StructWidth(0), StructHeight, name, None, [], [], None, false, "", false)
  }

  /** A new StackQueue has already been drawn once, which sets its height for no children. */
  function NewStackQueue(x: real, y: real, name: string, isStack: bool): Node
  {
    Node(StackQueue, x, y, StackWidth, StackHeight(0), name, None, [], [], None, false, "", isStack)
  }

  // ----- sequences -----

  predicate NoDup<T(==)>(s: seq<T>)
  {
    forall i, j :: 0 <= i < j < |s| ==> s[i] != s[j]
  }

  /** Python's list.remove: drop the first occurrence of x, if any. */
  function RemoveFirst<T(==)>(s: seq<T>, x: T): seq<T>
  {
    if s == [] then []
    else if s[0] == x then s[1..]
    else [s[0]] + RemoveFirst(s[1..], x)
  }

  /** Position of the first occurrence of x in s. */
  function IndexOf<T(==)>(s: seq<T>, x: T): (k: nat)
    requires x in s
    ensures k < |s| && s[k] == x && x !in s[..k]
  {
    if s[0] == x then 0 else 1 + IndexOf(s[1..], x)
  }

  /** list.remove cuts the first occurrence out and keeps the order of the rest. */
  lemma {:induction false} RemoveFirstCuts<T>(s: seq<T>, x: T)
    ensures x !in s ==> RemoveFirst(s, x) == s
    ensures x in s ==> RemoveFirst(s, x) == s[..IndexOf(s, x)] + s[IndexOf(s, x) + 1..]
  {
    if s == [] {
    } else if s[0] == x {
      assert IndexOf(s, x) == 0 && s[..0] + s[1..] == s[1..];
    } else {
      var t := s[1..];
      assert x in s <==> x in t by {
        assert s == [s[0]] + t;
      }
      RemoveFirstCuts(t, x);
      if x in t {
        var k := IndexOf(t, x);
        assert RemoveFirst(s, x) == s[..IndexOf(s, x)] + s[IndexOf(s, x) + 1..] by {
          assert IndexOf(s, x) == k + 1;
          assert s[..k + 1] == [s[0]] + t[..k];
          assert s[k + 2..] == t[k + 1..];
        }
      } else {
        assert RemoveFirst(s, x) == s by {
          assert s == [s[0]] + t;
        }
      }
    }
  }

  /** Every member other than x survives list.remove, and nothing else appears. */
  lemma {:induction false} RemoveFirstMembers<T>(s: seq<T>, x: T)
    ensures forall y :: y != x ==> (y in RemoveFirst(s, x) <==> y in s)
    ensures forall y :: y in RemoveFirst(s, x) ==> y in s
  {
    if s != [] && s[0] != x {
      RemoveFirstMembers(s[1..], x);
      assert s == [s[0]] + s[1..];
    }
  }

  /** On a list without duplicates, list.remove leaves no copy of x and no duplicates. */
  lemma {:induction false} RemoveFirstNoDup<T>(s: seq<T>, x: T)
    requires NoDup(s)
    ensures NoDup(RemoveFirst(s, x)) && x !in RemoveFirst(s, x)
  {
    if s != [] {
      NoDupTail(s);
      if s[0] != x {
        RemoveFirstNoDup(s[1..], x);
        RemoveFirstMembers(s[1..], x);
        NoDupCons(s[0], RemoveFirst(s[1..], x));
      }
    }
  }

  lemma NoDupTail<T>(s: seq<T>)
    requires NoDup(s) && s != []
    ensures NoDup(s[1..]) && s[0] !in s[1..]
  {
    forall i, j | 0 <= i < j < |s[1..]| ensures s[1..][i] != s[1..][j] {
      assert s[1..][i] == s[i + 1] && s[1..][j] == s[j + 1];
    }
    forall k | 0 <= k < |s[1..]| ensures s[1..][k] != s[0] {
      assert s[1..][k] == s[k + 1];
    }
  }

  lemma NoDupSnoc<T>(s: seq<T>, x: T)
    requires NoDup(s) && x !in s
    ensures NoDup(s + [x])
  {
    forall i, j | 0 <= i < j < |s + [x]| ensures (s + [x])[i] != (s + [x])[j] {
      if j == |s| { assert (s + [x])[i] == s[i]; }
    }
  }

  lemma NoDupCons<T>(a: T, t: seq<T>)
    requires NoDup(t) && a !in t
    ensures NoDup([a] + t)
  {
    forall i, j | 0 <= i < j < |[a] + t| ensures ([a] + t)[i] != ([a] + t)[j] {
      assert ([a] + t)[j] == t[j - 1];
      if i > 0 {
        assert ([a] + t)[i] == t[i - 1];
      }
    }
  }

  // ----- the invariants of the containment hierarchy -----

  /** Every listed child exists, points back to its container, and is listed once; only volumes list children. */
  ghost predicate ChildrenLinked(nodes: map<Id, Node>)
  {
    forall p :: p in nodes ==>
      NoDup(nodes[p].children) &&
      (!IsVolume(nodes[p].kind) ==> nodes[p].children == []) &&
      forall c :: c in nodes[p].children ==> c in nodes && nodes[c].parent == Some(p)
  }

  /** Every parent link names an existing container that lists the element. */
  ghost predicate ParentsLinked(nodes: map<Id, Node>)
  {
    forall c :: c in nodes && nodes[c].parent.Some? ==>
      nodes[c].parent.value in nodes && c in nodes[nodes[c].parent.value].children
  }

  /** The canvas list holds existing, parentless elements, each once. */
  ghost predicate TopLevel(nodes: map<Id, Node>, elements: seq<Id>)
  {
    NoDup(elements) &&
    forall e :: e in elements ==> e in nodes && nodes[e].parent == None
  }

  /**
   * The containment invariant: an element on the canvas list has no parent, an
   * element with a parent is listed by exactly that parent, and nothing is
   * listed twice. (An element may be neither: deletion leaves such orphans.)
   */
  ghost predicate Linked(nodes: map<Id, Node>, elements: seq<Id>)
  {
    ChildrenLinked(nodes) && ParentsLinked(nodes) && TopLevel(nodes, elements)
  }

  /** The partition: in addition, every element is top-level or has a parent. */
  ghost predicate Partitioned(nodes: map<Id, Node>, elements: seq<Id>)
  {
    Linked(nodes, elements) &&
    forall e :: e in nodes ==> nodes[e].parent.Some? || e in elements
  }

  /**
   * The pointer invariant: a pointer cell lists itself once among its target's
   * incoming pointers, and every incoming pointer targets the element listing it.
   */
  ghost predicate PointerLinks(nodes: map<Id, Node>)
  {
    IncomingDistinct(nodes) && IncomingTarget(nodes) && TargetListed(nodes)
  }

  /** No element lists the same incoming pointer twice. */
  ghost predicate IncomingDistinct(nodes: map<Id, Node>)
  {
    forall t :: t in nodes ==> NoDup(nodes[t].pointers)
  }

  /** Every incoming pointer targets the element listing it. */
  ghost predicate IncomingTarget(nodes: map<Id, Node>)
  {
    forall t, p :: t in nodes && p in nodes[t].pointers ==> p in nodes && nodes[p].target == Some(t)
  }

  /** A target is set only on a pointer cell, and the target lists the pointer. */
  ghost predicate TargetListed(nodes: map<Id, Node>)
  {
    forall p :: p in nodes && nodes[p].target.Some? ==>
      nodes[p].kind == PointerCell && nodes[p].target.value in nodes && p in nodes[nodes[p].target.value].pointers
  }

  /** A ranking witnessing that containment is acyclic: children rank below their container. */
  ghost predicate Ranked(nodes: map<Id, Node>, rank: map<Id, nat>)
  {
    forall p :: p in nodes ==>
      p in rank && forall c :: c in nodes[p].children && c in nodes ==> c in rank && rank[c] < rank[p]
  }

  /** What drawing needs of the arena: the child lists are linked and the containment is ranked. */
  ghost predicate Hierarchy(nodes: map<Id, Node>, rank: map<Id, nat>)
  {
    ChildrenLinked(nodes) && Ranked(nodes, rank)
  }

  /** Everything about an element except its geometry and its arrow flag. */
  function Skeleton(n: Node): Node
  {
    n.(x := 0.0, y := 0.0, width := 0.0, height := 0.0, arrow := false)
  }

  /** Two arenas that differ at most in geometry and arrow flags. */
  ghost predicate SameStructure(a: map<Id, Node>, b: map<Id, Node>)
  {
    a.Keys == b.Keys && forall id :: id in a ==> Skeleton(a[id]) == Skeleton(b[id])
  }

  lemma SameStructureTrans(a: map<Id, Node>, b: map<Id, Node>, c: map<Id, Node>)
    requires SameStructure(a, b) && SameStructure(b, c)
    ensures SameStructure(a, c)
  {
    forall id | id in a ensures Skeleton(a[id]) == Skeleton(c[id]) {
      assert Skeleton(a[id]) == Skeleton(b[id]);
    }
  }

  // ----- layout (draw, rearrange_elements and Volume.update_size) -----

  /** StructBlock and StackQueue lay their children out when drawn; the cells and a plain Volume do not. */
  predicate Lays(k: Kind)
  {
    k == StructBlock || k == StackQueue
  }

  /** The size a container takes when it is drawn (StructBlock.draw, StackQueue.draw). */
  function Resized(n: Node): Node
  {
    match n.kind
    case StructBlock => n.(width := StructWidth(|n.children|))
    case StackQueue => n.(height := StackHeight(|n.children|))
    case _ => n
  }

  /** Where container c puts its i-th child, by the child's current size. */
  function Placed(c: Node, i: nat, child: Node): Node
  {
    match c.kind
    case StructBlock => child.(x := StructChildX(c.x, i, child.width), y := StructChildY(c.y))
    case StackQueue =>
      child.(x := StackChildX(c.x, child.width), y := StackChildY(c.y, |c.children|, i, child.height, c.isStack))
    case _ => child
  }

  /** PointerCell.update_arrow: an arrow is recorded whenever the pointer has a target. */
  function Redrawn(n: Node): Node
  {
    if n.target.Some? then n.(arrow := true) else n
  }

  lemma RedrawnTwice(n: Node)
    ensures Redrawn(Redrawn(n)) == Redrawn(n)
  {
  }

  /** BaseElement.update_arrows on an element whose incoming pointers are ps: each of them is redrawn. */
  ghost function RedrawnAmong(nodes: map<Id, Node>, ps: seq<Id>): (r: map<Id, Node>)
    ensures SameStructure(nodes, r)
  {
    map id | id in nodes :: if id in ps then Redrawn(nodes[id]) else nodes[id]
  }

  lemma RedrawnAmongStep(nodes: map<Id, Node>, ps: seq<Id>, j: nat)
    requires j < |ps|
    ensures var cur := RedrawnAmong(nodes, ps[..j]);
      (if ps[j] in cur then cur[ps[j] := Redrawn(cur[ps[j]])] else cur) == RedrawnAmong(nodes, ps[..j + 1])
  {
    var cur := RedrawnAmong(nodes, ps[..j]);
    var next := RedrawnAmong(nodes, ps[..j + 1]);
    assert ps[..j + 1] == ps[..j] + [ps[j]];
    var m := if ps[j] in cur then cur[ps[j] := Redrawn(cur[ps[j]])] else cur;
    forall id | id in nodes ensures id in m && m[id] == next[id] {
      RedrawnTwice(nodes[id]);
    }
  }

  /** Resizing, placing and redrawing an element keep its structure. */
  lemma SkeletonKept(n: Node)
    ensures Skeleton(Resized(n)) == Skeleton(n) && Skeleton(Redrawn(n)) == Skeleton(n)
    ensures forall k: Node, i: nat {:trigger Placed(k, i, n)} :: Skeleton(Placed(k, i, n)) == Skeleton(n)
  {
  }

  /** One more element ruled out of a finite set of candidates leaves fewer of them. */
  lemma FewerUnseen(keys: set<Id>, seen: set<Id>, x: Id)
    requires x in keys && x !in seen
    ensures |keys - (seen + {x})| < |keys - seen|
  {
    assert keys - seen == (keys - (seen + {x})) + {x};
  }

  /**
   * draw() of element x: a StructBlock or StackQueue takes the size its child
   * count gives it and runs its rearrange_elements; a cell or a plain Volume
   * changes nothing here. `seen` holds the containers whose drawing is under
   * way further up the call chain; a child among them is not drawn again.
   * That never happens in an acyclic hierarchy, and it makes the definition
   * total without a ranking.
   */
  ghost function Drawn(nodes: map<Id, Node>, x: Id, seen: set<Id>): (r: map<Id, Node>)
    requires x in nodes && x !in seen
    ensures SameStructure(nodes, r)
    decreases |nodes.Keys - seen|, 1
  {
    if !Lays(nodes[x].kind) then nodes
    else
      var m := nodes[x := Resized(nodes[x])];
      SkeletonKept(nodes[x]);
      assert SameStructure(nodes, m);
      var r := Rearranged(m, x, seen, |m[x].children|);
      SameStructureTrans(nodes, m, r);
      r
  }

  /**
   * The first i turns of rearrange_elements of container x: the child is put
   * in its slot by its current size, drawn, and the arrows into it redrawn.
   */
  ghost function Rearranged(nodes: map<Id, Node>, x: Id, seen: set<Id>, i: nat): (r: map<Id, Node>)
    requires x in nodes && x !in seen && i <= |nodes[x].children|
    ensures SameStructure(nodes, r)
    decreases |nodes.Keys - seen|, 0, i
  {
    if i == 0 then nodes
    else
      var m := Rearranged(nodes, x, seen, i - 1);
      var k := nodes[x].children[i - 1];
      if k !in m then m
      else
        var m1 := m[k := Placed(m[x], i - 1, m[k])];
        SkeletonKept(m[k]);
        assert SameStructure(m, m1);
        SameStructureTrans(nodes, m, m1);
        FewerUnseen(nodes.Keys, seen, x);
        var m2 := if k in seen + {x} then m1 else Drawn(m1, k, seen + {x});
        SameStructureTrans(nodes, m1, m2);
        var r := RedrawnAmong(m2, m2[k].pointers);
        SameStructureTrans(nodes, m2, r);
        r
  }

  /**
   * Volume.update_size on container c: rearrange_elements, then draw(). For
   * a StructBlock or StackQueue this lays out everything its drawing reaches
   * (the children, theirs, and so on); for a plain Volume it does nothing.
   */
  ghost function Relayout(nodes: map<Id, Node>, c: Id): (r: map<Id, Node>)
    requires c in nodes
    ensures SameStructure(nodes, r)
  {
    if !Lays(nodes[c].kind) then nodes
    else
      var m := Rearranged(nodes, c, {}, |nodes[c].children|);
      var r := Drawn(m, c, {});
      SameStructureTrans(nodes, m, r);
      r
  }

  /** The slot a container gives to its i-th child, when that child is listed once before i. */
  lemma IndexOfFirst(kids: seq<Id>, i: nat)
    requires i < |kids| && kids[i] !in kids[..i]
    ensures IndexOf(kids, kids[i]) == i
  {
  }

  // ----- containment (Volume.add_element, Volume.remove_element, StackQueue.remove_element) -----

  /**
   * The list and link part of Volume.add_element: an element that already has
   * a parent is left alone; otherwise it gets container c as parent and
   * becomes c's last child.
   */
  function Attach(nodes: map<Id, Node>, c: Id, e: Id): map<Id, Node>
    requires c in nodes && e in nodes
  {
    if nodes[e].parent.Some? then nodes
    else
      var n1 := nodes[e := nodes[e].(parent := Some(c))];
      n1[c := n1[c].(children := n1[c].children + [e])]
  }

  /**
   * The list and link part of Volume.remove_element: if e is a child of c it
   * leaves c's list and loses its parent; otherwise nothing changes.
   */
  function Detach(nodes: map<Id, Node>, c: Id, e: Id): map<Id, Node>
    requires c in nodes && e in nodes
  {
    if e in nodes[c].children then
      var n1 := nodes[c := nodes[c].(children := RemoveFirst(nodes[c].children, e))];
      n1[e := n1[e].(parent := None)]
    else nodes
  }

  /** Volume.add_element: attach, then lay the container out. */
  ghost function AddElement(nodes: map<Id, Node>, c: Id, e: Id): (r: map<Id, Node>)
    requires c in nodes && e in nodes
    ensures r.Keys == nodes.Keys
  {
    if nodes[e].parent.Some? then nodes else Relayout(Attach(nodes, c, e), c)
  }

  /** Volume.remove_element: detach, then lay the container out. */
  ghost function RemoveElement(nodes: map<Id, Node>, c: Id, e: Id): (r: map<Id, Node>)
    requires c in nodes && e in nodes
    ensures r.Keys == nodes.Keys
  {
    if e in nodes[c].children then Relayout(Detach(nodes, c, e), c) else nodes
  }

  /** The child StackQueue.remove_element takes: the last one of a stack, the first one of a queue. */
  function PopIndex(n: nat, isStack: bool): nat
    requires n > 0
  {
    if isStack then n - 1 else 0
  }

  /**
   * StackQueue.remove_element: on an empty container nothing happens and None
   * is returned; otherwise the child at PopIndex leaves the list, loses its
   * parent, the container is laid out and the child is returned.
   */
  ghost function Pop(nodes: map<Id, Node>, c: Id): (r: (map<Id, Node>, Option<Id>))
    requires c in nodes
    ensures r.0.Keys == nodes.Keys
  {
    var k := nodes[c];
    if k.children == [] then (nodes, None)
    else
      var i := PopIndex(|k.children|, k.isStack);
      var e := k.children[i];
      var n1 := nodes[c := k.(children := k.children[..i] + k.children[i + 1..])];
      var n2 := if e in n1 then n1[e := n1[e].(parent := None)] else n1;
      (Relayout(n2, c), Some(e))
  }

  /**
   * Attaching a parentless element to a container keeps the containment
   * invariant once the element leaves the canvas list, and keeps the partition.
   */
  lemma AttachLinked(nodes: map<Id, Node>, elements: seq<Id>, c: Id, e: Id)
    requires Linked(nodes, elements) && c in nodes && e in nodes && c != e
    requires IsVolume(nodes[c].kind) && nodes[e].parent == None
    ensures Linked(Attach(nodes, c, e), RemoveFirst(elements, e))
    ensures Partitioned(nodes, elements) ==> Partitioned(Attach(nodes, c, e), RemoveFirst(elements, e))
  {
    var r := Attach(nodes, c, e);
    assert e !in nodes[c].children;
    NoDupSnoc(nodes[c].children, e);
    assert ChildrenLinked(r) by {
      forall p | p in r
        ensures NoDup(r[p].children) && (!IsVolume(r[p].kind) ==> r[p].children == [])
        ensures forall k :: k in r[p].children ==> k in r && r[k].parent == Some(p)
      {
        if p != c {
          forall k | k in r[p].children ensures k in r && r[k].parent == Some(p) {
            assert k != e;
          }
        }
      }
    }
    assert ParentsLinked(r) by {
      forall x | x in r && r[x].parent.Some?
        ensures r[x].parent.value in r && x in r[r[x].parent.value].children
      {
        if x != e {
          assert x in nodes[nodes[x].parent.value].children;
        }
      }
    }
    RemoveFirstNoDup(elements, e);
    RemoveFirstMembers(elements, e);
    assert TopLevel(r, RemoveFirst(elements, e));
    if Partitioned(nodes, elements) {
      forall x | x in r ensures r[x].parent.Some? || x in RemoveFirst(elements, e) {
        if x != e {
          assert nodes[x].parent.Some? || x in elements;
        }
      }
    }
  }

  lemma DetachChildrenLinked(nodes: map<Id, Node>, c: Id, e: Id)
    requires ChildrenLinked(nodes) && c in nodes && e in nodes[c].children && c != e
    ensures ChildrenLinked(Detach(nodes, c, e))
  {
    var r := Detach(nodes, c, e);
    RemoveFirstNoDup(nodes[c].children, e);
    RemoveFirstMembers(nodes[c].children, e);
    forall p | p in r
      ensures NoDup(r[p].children) && (!IsVolume(r[p].kind) ==> r[p].children == [])
      ensures forall q :: q in r[p].children ==> q in r && r[q].parent == Some(p)
    {
      if p != c {
        assert r[p].children == nodes[p].children;
        forall q | q in r[p].children ensures q in r && r[q].parent == Some(p) {
          assert q != e;
        }
      }
    }
  }

  lemma DetachParentsLinked(nodes: map<Id, Node>, c: Id, e: Id)
    requires ChildrenLinked(nodes) && ParentsLinked(nodes) && c in nodes && e in nodes[c].children && c != e
    ensures ParentsLinked(Detach(nodes, c, e))
  {
    var r := Detach(nodes, c, e);
    RemoveFirstMembers(nodes[c].children, e);
    forall q | q in r && r[q].parent.Some?
      ensures r[q].parent.value in r && q in r[r[q].parent.value].children
    {
      assert q != e;
      assert r[q].parent == nodes[q].parent;
    }
  }

  /**
   * Detaching a child keeps the containment invariant; the child is then
   * parentless, so putting it on the canvas list keeps the partition.
   */
  lemma DetachLinked(nodes: map<Id, Node>, elements: seq<Id>, c: Id, e: Id)
    requires Linked(nodes, elements) && c in nodes && e in nodes[c].children && c != e
    ensures e in nodes && e !in elements
    ensures Linked(Detach(nodes, c, e), elements)
    ensures Linked(Detach(nodes, c, e), elements + [e])
    ensures Partitioned(nodes, elements) ==> Partitioned(Detach(nodes, c, e), elements + [e])
  {
    var r := Detach(nodes, c, e);
    DetachChildrenLinked(nodes, c, e);
    DetachParentsLinked(nodes, c, e);
    assert e !in elements;
    assert TopLevel(r, elements);
    NoDupSnoc(elements, e);
    assert TopLevel(r, elements + [e]);
  }

  /** Detaching an element just attached restores the arena: the two are inverse. */
  lemma AttachDetachInverse(nodes: map<Id, Node>, c: Id, e: Id)
    requires c in nodes && e in nodes && c != e
    requires nodes[e].parent == None && e !in nodes[c].children
    ensures Detach(Attach(nodes, c, e), c, e) == nodes
  {
    var s := nodes[c].children;
    assert RemoveFirst(s + [e], e) == s by {
      RemoveFirstCuts(s + [e], e);
      assert IndexOf(s + [e], e) == |s|;
      assert (s + [e])[..|s|] == s;
      assert (s + [e])[|s| + 1..] == [];
    }
    var a := Attach(nodes, c, e);
    assert a == nodes[e := nodes[e].(parent := Some(c))][c := nodes[c].(children := s + [e])];
    var d := Detach(a, c, e);
    assert d == a[c := nodes[c]][e := nodes[e]];
  }


  /** Two arenas with the same structure agree on every structural field. */
  lemma SameStructureFields(a: map<Id, Node>, b: map<Id, Node>, id: Id)
    requires SameStructure(a, b) && id in a
    ensures a[id].kind == b[id].kind && a[id].parent == b[id].parent && a[id].children == b[id].children
    ensures a[id].pointers == b[id].pointers && a[id].target == b[id].target && a[id].name == b[id].name
    ensures a[id].value == b[id].value && a[id].isStack == b[id].isStack
  {
    assert Skeleton(a[id]) == Skeleton(b[id]);
  }

  lemma SameStructureLinked(a: map<Id, Node>, b: map<Id, Node>, elements: seq<Id>)
    requires SameStructure(a, b) && Linked(a, elements)
    ensures Linked(b, elements)
  {
    forall p | p in b
      ensures NoDup(b[p].children) && (!IsVolume(b[p].kind) ==> b[p].children == [])
      ensures forall c :: c in b[p].children ==> c in b && b[c].parent == Some(p)
    {
      SameStructureFields(a, b, p);
      forall c | c in b[p].children ensures c in b && b[c].parent == Some(p) {
        SameStructureFields(a, b, c);
      }
    }
    forall c | c in b && b[c].parent.Some?
      ensures b[c].parent.value in b && c in b[b[c].parent.value].children
    {
      SameStructureFields(a, b, c);
      SameStructureFields(a, b, b[c].parent.value);
    }
    forall e | e in elements ensures e in b && b[e].parent == None {
      SameStructureFields(a, b, e);
    }
  }

  lemma SameStructurePartitioned(a: map<Id, Node>, b: map<Id, Node>, elements: seq<Id>)
    requires SameStructure(a, b) && Partitioned(a, elements)
    ensures Partitioned(b, elements)
  {
    SameStructureLinked(a, b, elements);
    forall e | e in b ensures b[e].parent.Some? || e in elements {
      SameStructureFields(a, b, e);
    }
  }

  lemma SameStructurePointerLinks(a: map<Id, Node>, b: map<Id, Node>)
    requires SameStructure(a, b) && PointerLinks(a)
    ensures PointerLinks(b)
  {
    assert IncomingDistinct(b) by {
      forall t | t in b ensures NoDup(b[t].pointers) {
        SameStructureFields(a, b, t);
      }
    }
    assert IncomingTarget(b) by {
      forall t, p | t in b && p in b[t].pointers ensures p in b && b[p].target == Some(t) {
        SameStructureFields(a, b, t);
        SameStructureFields(a, b, p);
      }
    }
    assert TargetListed(b) by {
      forall p | p in b && b[p].target.Some?
        ensures b[p].kind == PointerCell && b[p].target.value in b && p in b[b[p].target.value].pointers
      {
        SameStructureFields(a, b, p);
        SameStructureFields(a, b, b[p].target.value);
      }
    }
  }

  lemma SameStructureRanked(a: map<Id, Node>, b: map<Id, Node>, rank: map<Id, nat>)
    requires SameStructure(a, b) && Ranked(a, rank)
    ensures Ranked(b, rank)
  {
    forall p | p in b
      ensures p in rank && forall c :: c in b[p].children && c in b ==> c in rank && rank[c] < rank[p]
    {
      SameStructureFields(a, b, p);
    }
  }

  /** A change of geometry and arrow flags alone keeps every structural invariant. */
  lemma SameStructureKeeps(a: map<Id, Node>, b: map<Id, Node>, elements: seq<Id>, rank: map<Id, nat>)
    requires SameStructure(a, b)
    ensures Linked(a, elements) ==> Linked(b, elements)
    ensures Partitioned(a, elements) ==> Partitioned(b, elements)
    ensures PointerLinks(a) ==> PointerLinks(b)
    ensures Ranked(a, rank) ==> Ranked(b, rank)
  {
    if Linked(a, elements) { SameStructureLinked(a, b, elements); }
    if Partitioned(a, elements) { SameStructurePartitioned(a, b, elements); }
    if PointerLinks(a) { SameStructurePointerLinks(a, b); }
    if Ranked(a, rank) { SameStructureRanked(a, b, rank); }
  }

  /** A change of geometry and arrow flags alone keeps what drawing needs. */
  lemma SameStructureHierarchy(a: map<Id, Node>, b: map<Id, Node>, rank: map<Id, nat>)
    requires SameStructure(a, b) && Hierarchy(a, rank)
    ensures Hierarchy(b, rank)
  {
    forall p | p in b
      ensures NoDup(b[p].children) && (!IsVolume(b[p].kind) ==> b[p].children == [])
      ensures forall c :: c in b[p].children ==> c in b && b[c].parent == Some(p)
    {
      SameStructureFields(a, b, p);
      forall c | c in b[p].children ensures c in b && b[c].parent == Some(p) {
        SameStructureFields(a, b, c);
      }
    }
    SameStructureRanked(a, b, rank);
  }

  /** On a list without duplicates, the child at index i is the one list.remove finds. */
  lemma RemoveAtIndex(s: seq<Id>, i: nat)
    requires NoDup(s) && i < |s|
    ensures RemoveFirst(s, s[i]) == s[..i] + s[i + 1..]
  {
    assert s[i] !in s[..i];
    IndexOfFirst(s, i);
    RemoveFirstCuts(s, s[i]);
  }

  /** Popping is removing the child at PopIndex through Volume.remove_element. */
  lemma PopIsRemove(nodes: map<Id, Node>, c: Id)
    requires c in nodes && nodes[c].children != [] && NoDup(nodes[c].children)
    requires nodes[c].children[PopIndex(|nodes[c].children|, nodes[c].isStack)] in nodes
    ensures var e := nodes[c].children[PopIndex(|nodes[c].children|, nodes[c].isStack)];
      Pop(nodes, c) == (RemoveElement(nodes, c, e), Some(e))
  {
    var k := nodes[c];
    var i := PopIndex(|k.children|, k.isStack);
    var e := k.children[i];
    RemoveAtIndex(k.children, i);
    var n1 := nodes[c := k.(children := k.children[..i] + k.children[i + 1..])];
    var n2 := if e in n1 then n1[e := n1[e].(parent := None)] else n1;
    assert n2 == Detach(nodes, c, e);
    assert Pop(nodes, c) == (Relayout(n2, c), Some(e));
  }

  /**
   * StackQueue.remove_element: on an empty container nothing happens and None
   * comes back; otherwise the last child (stack) or the first child (queue) is
   * returned, leaves the list, which keeps its order and is one shorter, loses
   * its parent and joins the canvas list without breaking the partition.
   */
  lemma PopSpec(nodes: map<Id, Node>, elements: seq<Id>, c: Id)
    requires Linked(nodes, elements) && c in nodes && c !in nodes[c].children
    ensures var (r, out) := Pop(nodes, c); var k := nodes[c];
      && (k.children == [] ==> out == None && r == nodes)
      && (k.children != [] ==>
            && out == Some(if k.isStack then k.children[|k.children| - 1] else k.children[0])
            && r[c].children == (if k.isStack then k.children[..|k.children| - 1] else k.children[1..])
            && r[out.value].parent == None
            && Linked(r, elements + [out.value])
            && (Partitioned(nodes, elements) ==> Partitioned(r, elements + [out.value])))
  {
    var k := nodes[c];
    if k.children != [] {
      var i := PopIndex(|k.children|, k.isStack);
      var e := k.children[i];
      PopIsRemove(nodes, c);
      DetachLinked(nodes, elements, c, e);
      RemoveAtIndex(k.children, i);
      var d := Detach(nodes, c, e);
      SameStructureKeeps(d, Relayout(d, c), elements + [e], map[]);
      assert Skeleton(Relayout(d, c)[c]) == Skeleton(d[c]);
      assert Skeleton(Relayout(d, c)[e]) == Skeleton(d[e]);
      if k.isStack {
        assert k.children[i + 1..] == [];
      } else {
        assert k.children[..i] == [];
      }
    }
  }

  /** What a pop returns and what is left in the container's list. */
  lemma PopChildren(nodes: map<Id, Node>, c: Id)
    requires c in nodes
    ensures var (r, out) := Pop(nodes, c); var k := nodes[c];
      && (k.children == [] ==> out == None && r == nodes)
      && (k.children != [] ==>
            var i := PopIndex(|k.children|, k.isStack);
            out == Some(k.children[i]) && r[c].children == k.children[..i] + k.children[i + 1..])
  {
    var k := nodes[c];
    if k.children != [] {
      var i := PopIndex(|k.children|, k.isStack);
      var e := k.children[i];
      var n1 := nodes[c := k.(children := k.children[..i] + k.children[i + 1..])];
      var n2 := if e in n1 then n1[e := n1[e].(parent := None)] else n1;
      assert n2[c].children == k.children[..i] + k.children[i + 1..];
      SameStructureFields(n2, Relayout(n2, c), c);
    }
  }

  /** After add_element of a parentless element, it is the container's last child. */
  lemma AttachedLast(nodes: map<Id, Node>, c: Id, e: Id)
    requires c in nodes && e in nodes && c != e && nodes[e].parent == None
    ensures var l := AddElement(nodes, c, e);
      c in l && l[c].children == nodes[c].children + [e] && l[c].isStack == nodes[c].isStack && l[c].kind == nodes[c].kind
  {
    var a := Attach(nodes, c, e);
    SameStructureFields(a, AddElement(nodes, c, e), c);
  }

  /**
   * The push/pop discipline: right after a parentless element is added to a
   * stack, popping returns it and restores the child list (last in, first
   * out); after an add to a non-empty queue, popping returns the oldest child
   * and the newcomer is now last (first in, first out).
   */
  lemma PushThenPop(nodes: map<Id, Node>, c: Id, e: Id)
    requires c in nodes && e in nodes && c != e && nodes[c].kind == StackQueue
    requires nodes[e].parent == None
    ensures var p := Pop(AddElement(nodes, c, e), c); var r, out, k := p.0, p.1, nodes[c];
      && (k.isStack ==> out == Some(e) && r[c].children == k.children)
      && (!k.isStack && k.children == [] ==> out == Some(e) && r[c].children == [])
      && (!k.isStack && k.children != [] ==> out == Some(k.children[0]) && r[c].children == k.children[1..] + [e])
  {
    var l := AddElement(nodes, c, e);
    AttachedLast(nodes, c, e);
    PopAfterAppend(l, c, nodes[c].children, e);
  }

  /** Popping a container whose list is kids followed by e. */
  lemma PopAfterAppend(l: map<Id, Node>, c: Id, kids: seq<Id>, e: Id)
    requires c in l && l[c].children == kids + [e]
    ensures var (r, out) := Pop(l, c);
      && (l[c].isStack ==> out == Some(e) && r[c].children == kids)
      && (!l[c].isStack && kids == [] ==> out == Some(e) && r[c].children == [])
      && (!l[c].isStack && kids != [] ==> out == Some(kids[0]) && r[c].children == kids[1..] + [e])
  {
    PopChildren(l, c);
    var s := kids + [e];
    assert s[..|s| - 1] == kids;
    assert s[|s|..] == [];
    assert s[..0] == [];
    if kids != [] {
      assert s[1..] == kids[1..] + [e] by {
        assert |s[1..]| == |kids[1..] + [e]|;
        forall j | 0 <= j < |s[1..]| ensures s[1..][j] == (kids[1..] + [e])[j] {
          if j < |kids| - 1 { assert s[1..][j] == kids[j + 1]; }
        }
      }
    }
  }

  // ----- pointer links (PointerCell.create_arrow and the unlink in on_drag) -----

  /**
   * PointerCell.create_arrow: the pointer leaves its old target's incoming
   * list, targets t, joins t's incoming list and records an arrow.
   */
  function Link(nodes: map<Id, Node>, p: Id, t: Id): map<Id, Node>
    requires p in nodes && t in nodes
  {
    var n1 := match nodes[p].target
      case Some(o) => if o in nodes then nodes[o := nodes[o].(pointers := RemoveFirst(nodes[o].pointers, p))] else nodes
      case None => nodes;
    var n2 := n1[p := n1[p].(target := Some(t))];
    var n3 := n2[t := n2[t].(pointers := n2[t].pointers + [p])];
    n3[p := Redrawn(n3[p])]
  }

  /**
   * The unlink on dragging a pointer's dot onto empty canvas: if an arrow is
   * recorded it is dropped, and a pointer with a target leaves the target's
   * incoming list and loses the target. Without an arrow nothing happens.
   */
  function Unlink(nodes: map<Id, Node>, p: Id): map<Id, Node>
    requires p in nodes
  {
    if !nodes[p].arrow then nodes
    else
      var n1 := nodes[p := nodes[p].(arrow := false)];
      match n1[p].target
      case None => n1
      case Some(t) =>
        var n2 := if t in n1 then n1[t := n1[t].(pointers := RemoveFirst(n1[t].pointers, p))] else n1;
        n2[p := n2[p].(target := None)]
  }

  /** Whether two arenas agree on containment and geometry everywhere. */
  ghost predicate SameContainment(a: map<Id, Node>, b: map<Id, Node>)
  {
    a.Keys == b.Keys &&
    forall id :: id in a ==>
      a[id].parent == b[id].parent && a[id].children == b[id].children &&
      a[id].x == b[id].x && a[id].y == b[id].y && a[id].kind == b[id].kind
  }

  /** The incoming list of t after create_arrow, before p is appended. */
  function LinkBase(nodes: map<Id, Node>, p: Id, t: Id): seq<Id>
    requires p in nodes && t in nodes
  {
    if nodes[p].target == Some(t) then RemoveFirst(nodes[t].pointers, p) else nodes[t].pointers
  }

  /** Each element after create_arrow, field by field. */
  lemma LinkAt(nodes: map<Id, Node>, p: Id, t: Id, q: Id)
    requires p in nodes && t in nodes && q in nodes
    ensures q in Link(nodes, p, t)
    ensures var r := Link(nodes, p, t);
      && r[q].target == (if q == p then Some(t) else nodes[q].target)
      && r[q].pointers == (if q == t then LinkBase(nodes, p, t) + [p]
                           else if nodes[p].target == Some(q) then RemoveFirst(nodes[q].pointers, p)
                           else nodes[q].pointers)
      && r[q].kind == nodes[q].kind && r[q].parent == nodes[q].parent && r[q].children == nodes[q].children
      && r[q].x == nodes[q].x && r[q].y == nodes[q].y
      && r[q].arrow == (if q == p then true else nodes[q].arrow)
  {
  }

  lemma LinkNoDup(nodes: map<Id, Node>, p: Id, t: Id)
    requires PointerLinks(nodes) && p in nodes && t in nodes
    ensures var r := Link(nodes, p, t); forall u :: u in r ==> NoDup(r[u].pointers)
  {
    var r := Link(nodes, p, t);
    var base := LinkBase(nodes, p, t);
    RemoveFirstNoDup(nodes[t].pointers, p);
    RemoveFirstMembers(nodes[t].pointers, p);
    assert p !in base && NoDup(base);
    NoDupSnoc(base, p);
    forall u | u in r ensures NoDup(r[u].pointers) {
      assert u in nodes;
      LinkAt(nodes, p, t, u);
      RemoveFirstNoDup(nodes[u].pointers, p);
    }
  }

  lemma LinkListedAt(nodes: map<Id, Node>, p: Id, t: Id, u: Id, q: Id)
    requires PointerLinks(nodes) && p in nodes && t in nodes && u in nodes
    requires q in Link(nodes, p, t)[u].pointers
    ensures q in Link(nodes, p, t) && Link(nodes, p, t)[q].target == Some(u)
  {
    if q == p {
      LinkListsOnlyTarget(nodes, p, t, u);
      LinkAt(nodes, p, t, p);
    } else {
      LinkAt(nodes, p, t, u);
      RemoveFirstMembers(nodes[u].pointers, p);
      assert q in nodes[u].pointers;
      LinkAt(nodes, p, t, q);
    }
  }

  /** After the link, the pointer is listed by its new target only. */
  lemma LinkListsOnlyTarget(nodes: map<Id, Node>, p: Id, t: Id, u: Id)
    requires PointerLinks(nodes) && p in nodes && t in nodes && u in nodes
    requires p in Link(nodes, p, t)[u].pointers
    ensures u == t
  {
    LinkAt(nodes, p, t, u);
    RemoveFirstNoDup(nodes[u].pointers, p);
  }

  lemma LinkListed(nodes: map<Id, Node>, p: Id, t: Id)
    requires PointerLinks(nodes) && p in nodes && t in nodes
    ensures var r := Link(nodes, p, t);
      forall u, q :: u in r && q in r[u].pointers ==> q in r && r[q].target == Some(u)
  {
    var r := Link(nodes, p, t);
    forall u, q | u in r && q in r[u].pointers ensures q in r && r[q].target == Some(u) {
      assert u in nodes;
      LinkListedAt(nodes, p, t, u, q);
    }
  }

  lemma LinkTargets(nodes: map<Id, Node>, p: Id, t: Id)
    requires PointerLinks(nodes) && p in nodes && t in nodes && nodes[p].kind == PointerCell
    ensures var r := Link(nodes, p, t);
      forall q :: q in r && r[q].target.Some? ==>
        r[q].kind == PointerCell && r[q].target.value in r && q in r[r[q].target.value].pointers
  {
    var r := Link(nodes, p, t);
    forall q | q in r && r[q].target.Some?
      ensures r[q].kind == PointerCell && r[q].target.value in r && q in r[r[q].target.value].pointers
    {
      assert q in nodes;
      LinkAt(nodes, p, t, q);
      if q != p {
        var u := nodes[q].target.value;
        LinkAt(nodes, p, t, u);
        RemoveFirstMembers(nodes[u].pointers, p);
      } else {
        LinkAt(nodes, p, t, t);
      }
    }
  }

  lemma LinkPointerLinks(nodes: map<Id, Node>, p: Id, t: Id)
    requires PointerLinks(nodes) && p in nodes && t in nodes && nodes[p].kind == PointerCell
    ensures PointerLinks(Link(nodes, p, t))
  {
    LinkNoDup(nodes, p, t);
    LinkListed(nodes, p, t);
    LinkTargets(nodes, p, t);
  }


  /**
   * After create_arrow(p, t) the pointer targets t, is listed exactly once
   * among t's incoming pointers, is no longer listed by its previous target,
   * and no other element's target or any containment or position changed.
   */
  lemma LinkSpec(nodes: map<Id, Node>, p: Id, t: Id)
    requires PointerLinks(nodes) && p in nodes && t in nodes && nodes[p].kind == PointerCell
    ensures var r := Link(nodes, p, t);
      && PointerLinks(r) && SameContainment(nodes, r)
      && r[p].target == Some(t) && r[p].arrow
      && p in r[t].pointers && NoDup(r[t].pointers)
      && (forall o :: o in r && o != t ==> p !in r[o].pointers)
      && (forall q :: q in r && q != p ==> r[q].target == nodes[q].target)
  {
    var r := Link(nodes, p, t);
    LinkPointerLinks(nodes, p, t);
    forall q | q in nodes
      ensures q in r && r[q].parent == nodes[q].parent && r[q].children == nodes[q].children
      ensures r[q].x == nodes[q].x && r[q].y == nodes[q].y && r[q].kind == nodes[q].kind
      ensures q != p ==> r[q].target == nodes[q].target
    {
      LinkAt(nodes, p, t, q);
    }
    assert r.Keys == nodes.Keys;
    LinkAt(nodes, p, t, p);
    LinkAt(nodes, p, t, t);
    forall o | o in r && o != t ensures p !in r[o].pointers {
      LinkAt(nodes, p, t, o);
      RemoveFirstNoDup(nodes[o].pointers, p);
    }
  }

  /** Each element after the unlink, field by field, when an arrow was recorded. */
  lemma UnlinkAt(nodes: map<Id, Node>, p: Id, q: Id)
    requires p in nodes && q in nodes && nodes[p].arrow
    ensures q in Unlink(nodes, p)
    ensures var r := Unlink(nodes, p);
      && r[q].target == (if q == p then None else nodes[q].target)
      && r[q].pointers == (if nodes[p].target == Some(q) then RemoveFirst(nodes[q].pointers, p) else nodes[q].pointers)
      && r[q].kind == nodes[q].kind && r[q].parent == nodes[q].parent && r[q].children == nodes[q].children
      && r[q].x == nodes[q].x && r[q].y == nodes[q].y
      && r[q].arrow == (if q == p then false else nodes[q].arrow)
  {
  }

  lemma UnlinkListed(nodes: map<Id, Node>, p: Id, u: Id, q: Id)
    requires PointerLinks(nodes) && p in nodes && nodes[p].arrow && u in nodes
    requires q in Unlink(nodes, p)[u].pointers
    ensures q in Unlink(nodes, p) && Unlink(nodes, p)[q].target == Some(u)
  {
    UnlinkAt(nodes, p, u);
    RemoveFirstMembers(nodes[u].pointers, p);
    RemoveFirstNoDup(nodes[u].pointers, p);
    assert q in nodes[u].pointers;
    UnlinkAt(nodes, p, q);
  }

  lemma UnlinkTargetListed(nodes: map<Id, Node>, p: Id, q: Id)
    requires PointerLinks(nodes) && p in nodes && nodes[p].arrow && q in nodes
    requires Unlink(nodes, p)[q].target.Some?
    ensures var r := Unlink(nodes, p);
      r[q].kind == PointerCell && r[q].target.value in r && q in r[r[q].target.value].pointers
  {
    UnlinkAt(nodes, p, q);
    var u := nodes[q].target.value;
    UnlinkAt(nodes, p, u);
    RemoveFirstMembers(nodes[u].pointers, p);
  }

  lemma UnlinkNoDup(nodes: map<Id, Node>, p: Id)
    requires PointerLinks(nodes) && p in nodes && nodes[p].arrow
    ensures var r := Unlink(nodes, p); forall t :: t in r ==> NoDup(r[t].pointers)
  {
    var r := Unlink(nodes, p);
    forall t | t in r ensures NoDup(r[t].pointers) {
      assert t in nodes;
      UnlinkAt(nodes, p, t);
      RemoveFirstNoDup(nodes[t].pointers, p);
    }
  }

  lemma UnlinkPointerLinks(nodes: map<Id, Node>, p: Id)
    requires PointerLinks(nodes) && p in nodes && nodes[p].arrow
    ensures PointerLinks(Unlink(nodes, p))
  {
    var r := Unlink(nodes, p);
    UnlinkNoDup(nodes, p);
    assert IncomingTarget(r) by {
      forall u, q | u in r && q in r[u].pointers ensures q in r && r[q].target == Some(u) {
        assert u in nodes;
        UnlinkListed(nodes, p, u, q);
      }
    }
    assert TargetListed(r) by {
      forall q | q in r && r[q].target.Some?
        ensures r[q].kind == PointerCell && r[q].target.value in r && q in r[r[q].target.value].pointers
      {
        assert q in nodes;
        UnlinkTargetListed(nodes, p, q);
      }
    }
  }

  /**
   * The unlink keeps the pointer invariant; when an arrow was recorded the
   * pointer ends with no target and in nobody's incoming list.
   */
  lemma UnlinkSpec(nodes: map<Id, Node>, p: Id)
    requires PointerLinks(nodes) && p in nodes
    ensures var r := Unlink(nodes, p);
      && PointerLinks(r) && SameContainment(nodes, r)
      && (!nodes[p].arrow ==> r == nodes)
      && (nodes[p].arrow ==> !r[p].arrow && r[p].target == None && forall t :: t in r ==> p !in r[t].pointers)
  {
    var r := Unlink(nodes, p);
    if nodes[p].arrow {
      UnlinkPointerLinks(nodes, p);
      forall q | q in nodes
        ensures q in r && r[q].parent == nodes[q].parent && r[q].children == nodes[q].children
        ensures r[q].x == nodes[q].x && r[q].y == nodes[q].y && r[q].kind == nodes[q].kind
      {
        UnlinkAt(nodes, p, q);
      }
      assert r.Keys == nodes.Keys;
      UnlinkAt(nodes, p, p);
      forall t | t in r ensures p !in r[t].pointers {
        UnlinkAt(nodes, p, t);
        RemoveFirstNoDup(nodes[t].pointers, p);
      }
    }
  }

  /** A change of pointer fields alone keeps the containment invariants. */
  lemma SameContainmentKeeps(a: map<Id, Node>, b: map<Id, Node>, elements: seq<Id>, rank: map<Id, nat>)
    requires SameContainment(a, b)
    ensures Linked(a, elements) ==> Linked(b, elements)
    ensures Partitioned(a, elements) ==> Partitioned(b, elements)
    ensures Ranked(a, rank) ==> Ranked(b, rank)
  {
    assert forall id :: id in b ==> a[id].parent == b[id].parent && a[id].children == b[id].children;
    assert forall id :: id in b ==> a[id].kind == b[id].kind;
  }

  /** Dropping the last entry of the canvas list keeps the containment invariant. */
  lemma LinkedPrefix(nodes: map<Id, Node>, elements: seq<Id>, e: Id)
    requires Linked(nodes, elements + [e])
    ensures Linked(nodes, elements)
  {
    forall i, j | 0 <= i < j < |elements| ensures elements[i] != elements[j] {
      assert (elements + [e])[i] == elements[i] && (elements + [e])[j] == elements[j];
    }
    forall x | x in elements ensures x in nodes && nodes[x].parent == None {
      assert x in elements + [e];
    }
  }

  /** create_arrow keeps every invariant. */
  lemma LinkKeeps(nodes: map<Id, Node>, elements: seq<Id>, rank: map<Id, nat>, p: Id, t: Id)
    requires Linked(nodes, elements) && PointerLinks(nodes) && Ranked(nodes, rank)
    requires p in nodes && t in nodes && nodes[p].kind == PointerCell
    ensures var r := Link(nodes, p, t);
      && r.Keys == nodes.Keys && Linked(r, elements) && PointerLinks(r) && Ranked(r, rank)
      && (Partitioned(nodes, elements) ==> Partitioned(r, elements))
  {
    LinkSpec(nodes, p, t);
    SameContainmentKeeps(nodes, Link(nodes, p, t), elements, rank);
  }

  /** The unlink keeps every invariant. */
  lemma UnlinkKeeps(nodes: map<Id, Node>, elements: seq<Id>, rank: map<Id, nat>, p: Id)
    requires Linked(nodes, elements) && PointerLinks(nodes) && Ranked(nodes, rank) && p in nodes
    ensures var r := Unlink(nodes, p);
      && r.Keys == nodes.Keys && Linked(r, elements) && PointerLinks(r) && Ranked(r, rank)
      && (Partitioned(nodes, elements) ==> Partitioned(r, elements))
  {
    UnlinkSpec(nodes, p);
    SameContainmentKeeps(nodes, Unlink(nodes, p), elements, rank);
  }
}
