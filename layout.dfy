/**
 * What draw() and Volume.update_size do to the geometry of the whiteboard:
 * which elements a drawing reaches, the sizes and places it gives them, the
 * arrows it redraws, and why update_size, which rearranges once before and
 * once after drawing, leaves every child of every reached container in the
 * slot its final size calls for.
 */
module Layout {
  import opened Wrappers
  import opened Geometry
  import opened Arena
  import opened Tree

  /** Where an element sits. */
  function Corner(n: Node): (real, real)
  {
    (n.x, n.y)
  }

  /** How large an element is. */
  function Size(n: Node): (real, real)
  {
    (n.width, n.height)
  }

  /** An element that already has the size its drawing gives it. */
  predicate Fresh(n: Node)
  {
    Size(Resized(n)) == Size(n)
  }

  /** The containers whose drawing is under way rank above x: they are x's ancestors. */
  ghost predicate Above(rank: map<Id, nat>, seen: set<Id>, x: Id)
  {
    x in rank && forall v :: v in seen ==> v in rank && rank[v] > rank[x]
  }

  /** x is r itself, or a child of a StructBlock or StackQueue that the drawing of r reaches. */
  ghost predicate Reached(nodes: map<Id, Node>, rank: map<Id, nat>, r: Id, x: Id)
    requires Ranked(nodes, rank) && r in nodes
    decreases rank[r]
  {
    r == x || (Lays(nodes[r].kind) && exists c :: c in nodes[r].children && c in nodes && Reached(nodes, rank, c, x))
  }

  /** x is reached by the drawing of one of ks. */
  ghost predicate ReachedAmong(nodes: map<Id, Node>, rank: map<Id, nat>, ks: seq<Id>, x: Id)
    requires Ranked(nodes, rank)
  {
    exists k :: k in ks && k in nodes && Reached(nodes, rank, k, x)
  }

  /** Pointer p is an incoming pointer of an element that the drawing of one of ks reaches. */
  ghost predicate PointsIntoReached(nodes: map<Id, Node>, rank: map<Id, nat>, ks: seq<Id>, p: Id)
    requires Ranked(nodes, rank)
  {
    exists k, t :: k in ks && k in nodes && t in nodes && Reached(nodes, rank, k, t) && p in nodes[t].pointers
  }

  /** The children of container p sit where p puts them, by their own sizes. */
  ghost predicate InSlots(nodes: map<Id, Node>, p: Id)
    requires p in nodes
  {
    forall i :: 0 <= i < |nodes[p].children| && nodes[p].children[i] in nodes ==>
      Corner(nodes[nodes[p].children[i]]) == Corner(Placed(nodes[p], i, nodes[nodes[p].children[i]]))
  }

  /**
   * The layout a drawing of r leaves when it is consistent: everything it
   * reaches has its drawn size, and every StructBlock or StackQueue it
   * reaches has its children in their slots.
   */
  ghost predicate Tidy(nodes: map<Id, Node>, rank: map<Id, nat>, r: Id)
    requires Ranked(nodes, rank) && r in nodes
  {
    forall p :: p in nodes && Reached(nodes, rank, r, p) ==> Fresh(nodes[p]) && (Lays(nodes[p].kind) ==> InSlots(nodes, p))
  }

  // ----- small facts about nodes -----

  /** The drawn size depends on the structure and the size only, and drawing twice gives it once. */
  lemma ResizedSize(a: Node, b: Node)
    requires Skeleton(a) == Skeleton(b) && Size(a) == Size(b)
    ensures Size(Resized(a)) == Size(Resized(b)) && Fresh(a) == Fresh(b)
    ensures Fresh(Resized(a)) && Skeleton(Resized(a)) == Skeleton(a) && Corner(Resized(a)) == Corner(a)
  {
    assert a.kind == b.kind && a.children == b.children by {
      assert Skeleton(a).kind == Skeleton(b).kind && Skeleton(a).children == Skeleton(b).children;
    }
  }

  /** The slot a container gives its i-th child depends on its corner, its structure and the child's size. */
  lemma PlacedCorner(c1: Node, c2: Node, i: nat, n1: Node, n2: Node)
    requires Skeleton(c1) == Skeleton(c2) && Corner(c1) == Corner(c2) && Size(n1) == Size(n2)
    ensures Lays(c1.kind) ==> Corner(Placed(c1, i, n1)) == Corner(Placed(c2, i, n2))
    ensures Size(Placed(c1, i, n1)) == Size(n1) && Skeleton(Placed(c1, i, n1)) == Skeleton(n1)
    ensures Placed(c1, i, n1).arrow == n1.arrow
  {
    assert c1.kind == c2.kind && c1.children == c2.children && c1.isStack == c2.isStack by {
      assert Skeleton(c1).kind == Skeleton(c2).kind && Skeleton(c1).children == Skeleton(c2).children;
      assert Skeleton(c1).isStack == Skeleton(c2).isStack;
    }
    assert c1.x == c2.x && c1.y == c2.y by { assert Corner(c1).0 == Corner(c2).0 && Corner(c1).1 == Corner(c2).1; }
    assert n1.width == n2.width && n1.height == n2.height by { assert Size(n1).0 == Size(n2).0 && Size(n1).1 == Size(n2).1; }
    match c1.kind
    case StructBlock =>
      assert Placed(c1, i, n1).x == StructChildX(c1.x, i, n1.width);
      assert Placed(c2, i, n2).x == StructChildX(c2.x, i, n2.width);
    case StackQueue =>
      assert Placed(c1, i, n1).y == StackChildY(c1.y, |c1.children|, i, n1.height, c1.isStack);
    case _ =>
  }

  // ----- what a drawing reaches -----

  /** Reaching depends on the structure only. */
  lemma {:induction false} ReachedSame(a: map<Id, Node>, b: map<Id, Node>, rank: map<Id, nat>, r: Id, x: Id)
    requires SameStructure(a, b) && Ranked(a, rank) && r in a
    ensures Ranked(b, rank) && r in b
    ensures Reached(a, rank, r, x) == Reached(b, rank, r, x)
    decreases rank[r]
  {
    SameStructureRanked(a, b, rank);
    SameStructureFields(a, b, r);
    forall c | c in a[r].children && c in a ensures Reached(a, rank, c, x) == Reached(b, rank, c, x) {
      ReachedSame(a, b, rank, c, x);
    }
  }

  /** What a drawing reaches lies inside the drawn element and ranks no higher. */
  lemma {:induction false} ReachedInside(nodes: map<Id, Node>, rank: map<Id, nat>, r: Id, x: Id)
    requires Ranked(nodes, rank) && r in nodes && Reached(nodes, rank, r, x)
    ensures InSubtree(nodes, rank, r, x) && x in nodes && x in rank && rank[x] <= rank[r]
    decreases rank[r]
  {
    if r != x {
      var c :| c in nodes[r].children && c in nodes && Reached(nodes, rank, c, x);
      ReachedInside(nodes, rank, c, x);
    }
  }

  /** A drawing of x that reaches child k reaches everything k's drawing reaches. */
  lemma ReachedThroughChild(nodes: map<Id, Node>, rank: map<Id, nat>, x: Id, k: Id, d: Id)
    requires Ranked(nodes, rank) && x in nodes && Lays(nodes[x].kind)
    requires k in nodes[x].children && k in nodes && Reached(nodes, rank, k, d)
    ensures Reached(nodes, rank, x, d)
  {
  }

  /** What the drawing of a StructBlock or StackQueue reaches: itself and what its children's drawings reach. */
  lemma ReachedUnfold(nodes: map<Id, Node>, rank: map<Id, nat>, x: Id, d: Id)
    requires Ranked(nodes, rank) && x in nodes && Lays(nodes[x].kind)
    ensures Reached(nodes, rank, x, d) <==> d == x || ReachedAmong(nodes, rank, nodes[x].children, d)
    ensures ReachedAmong(nodes, rank, nodes[x].children, x) ==> false
  {
    if ReachedAmong(nodes, rank, nodes[x].children, x) {
      var k :| k in nodes[x].children && k in nodes && Reached(nodes, rank, k, x);
      ReachedInside(nodes, rank, k, x);
    }
  }

  /** Nothing reached by one child's drawing is reached by an earlier child's. */
  lemma EarlierDisjoint(nodes: map<Id, Node>, rank: map<Id, nat>, x: Id, i: nat, d: Id)
    requires Hierarchy(nodes, rank) && x in nodes && i < |nodes[x].children|
    requires Reached(nodes, rank, nodes[x].children[i], d)
    ensures !ReachedAmong(nodes, rank, nodes[x].children[..i], d)
  {
    var kids := nodes[x].children;
    if ReachedAmong(nodes, rank, kids[..i], d) {
      var k :| k in kids[..i] && k in nodes && Reached(nodes, rank, k, d);
      assert k != kids[i] by {
        var j :| 0 <= j < i && kids[..i][j] == k;
        assert kids[j] == k;
      }
      ReachedInside(nodes, rank, k, d);
      ReachedInside(nodes, rank, kids[i], d);
      SiblingsDisjoint(nodes, rank, x, k, kids[i], d);
    }
  }

  /** One more child's drawing reaches what it reaches. */
  lemma AmongSnoc(nodes: map<Id, Node>, rank: map<Id, nat>, kids: seq<Id>, i: nat, d: Id)
    requires Ranked(nodes, rank) && i < |kids| && kids[i] in nodes
    ensures ReachedAmong(nodes, rank, kids[..i + 1], d) <==>
      ReachedAmong(nodes, rank, kids[..i], d) || Reached(nodes, rank, kids[i], d)
    ensures PointsIntoReached(nodes, rank, kids[..i + 1], d) <==>
      PointsIntoReached(nodes, rank, kids[..i], d) || PointsIntoReached(nodes, rank, [kids[i]], d)
  {
    assert kids[..i + 1] == kids[..i] + [kids[i]];
  }

  /** The pointers into what one element's drawing reaches: its own, and those into what its children's drawings reach. */
  lemma PointsIntoOne(nodes: map<Id, Node>, rank: map<Id, nat>, k: Id, p: Id)
    requires Ranked(nodes, rank) && k in nodes
    ensures PointsIntoReached(nodes, rank, [k], p) <==>
      p in nodes[k].pointers || (Lays(nodes[k].kind) && PointsIntoReached(nodes, rank, nodes[k].children, p))
  {
    if PointsIntoReached(nodes, rank, [k], p) && p !in nodes[k].pointers {
      var k', t :| k' in [k] && k' in nodes && t in nodes && Reached(nodes, rank, k', t) && p in nodes[t].pointers;
      assert t != k;
      var c :| c in nodes[k].children && c in nodes && Reached(nodes, rank, c, t);
    }
    if Lays(nodes[k].kind) && PointsIntoReached(nodes, rank, nodes[k].children, p) {
      var c, t :| c in nodes[k].children && c in nodes && t in nodes && Reached(nodes, rank, c, t) && p in nodes[t].pointers;
      assert Reached(nodes, rank, k, t);
    }
    if p in nodes[k].pointers {
      assert Reached(nodes, rank, k, k);
    }
  }

  /** Reaching and pointing into what is reached depend on the structure only. */
  lemma AmongSame(a: map<Id, Node>, b: map<Id, Node>, rank: map<Id, nat>, ks: seq<Id>, d: Id)
    requires SameStructure(a, b) && Ranked(a, rank)
    ensures Ranked(b, rank)
    ensures ReachedAmong(a, rank, ks, d) == ReachedAmong(b, rank, ks, d)
    ensures PointsIntoReached(a, rank, ks, d) == PointsIntoReached(b, rank, ks, d)
  {
    SameStructureRanked(a, b, rank);
    forall k, t | k in ks && k in a ensures Reached(a, rank, k, t) == Reached(b, rank, k, t) {
      ReachedSame(a, b, rank, k, t);
    }
    forall t | t in a ensures a[t].pointers == b[t].pointers {
      SameStructureFields(a, b, t);
    }
  }

  // ----- what a drawing changes -----

  /** The elements the drawing of x reaches. */
  ghost function ReachSet(nodes: map<Id, Node>, rank: map<Id, nat>, x: Id): set<Id>
    requires Ranked(nodes, rank) && x in nodes
  {
    set d | d in nodes && Reached(nodes, rank, x, d)
  }

  /** The elements the drawings of ks reach. */
  ghost function AmongSet(nodes: map<Id, Node>, rank: map<Id, nat>, ks: seq<Id>): set<Id>
    requires Ranked(nodes, rank)
  {
    set d | d in nodes && ReachedAmong(nodes, rank, ks, d)
  }

  /** The pointers into the elements the drawings of ks reach. */
  ghost function PointSet(nodes: map<Id, Node>, rank: map<Id, nat>, ks: seq<Id>): set<Id>
    requires Ranked(nodes, rank)
  {
    set p | p in nodes && PointsIntoReached(nodes, rank, ks, p)
  }

  /**
   * b is a after the elements in sized took their drawn size, those in moved
   * were placed anew and the pointers in pointed redrew their arrows; the
   * structure, and everything else, is as in a.
   */
  ghost predicate Effect(a: map<Id, Node>, b: map<Id, Node>, sized: set<Id>, moved: set<Id>, pointed: set<Id>)
  {
    SameStructure(a, b) &&
    (forall d :: d in a ==> Size(b[d]) == if d in sized then Size(Resized(a[d])) else Size(a[d])) &&
    (forall d :: d in a && d !in moved ==> Corner(b[d]) == Corner(a[d])) &&
    (forall d :: d in a ==> b[d].arrow == (a[d].arrow || (d in pointed && a[d].target.Some?)))
  }

  /** Two effects in a row are one effect; drawing an element twice gives the size of drawing it once. */
  lemma EffectTrans(a: map<Id, Node>, b: map<Id, Node>, c: map<Id, Node>,
                    s1: set<Id>, m1: set<Id>, p1: set<Id>, s2: set<Id>, m2: set<Id>, p2: set<Id>)
    requires Effect(a, b, s1, m1, p1) && Effect(b, c, s2, m2, p2)
    ensures Effect(a, c, s1 + s2, m1 + m2, p1 + p2)
  {
    SameStructureTrans(a, b, c);
    forall d | d in a ensures Size(c[d]) == if d in s1 + s2 then Size(Resized(a[d])) else Size(a[d]) {
      assert Skeleton(a[d]) == Skeleton(b[d]);
      ResizedSize(a[d], a[d]);
      if d in s1 && d in s2 {
        ResizedSize(b[d], Resized(a[d]));
      } else if d in s2 {
        ResizedSize(b[d], a[d]);
      }
    }
    forall d | d in a ensures c[d].arrow == (a[d].arrow || (d in p1 + p2 && a[d].target.Some?)) {
      SameStructureFields(a, b, d);
    }
  }

  /** draw() of a StructBlock or StackQueue first gives it its drawn size. */
  lemma ResizeEffect(m: map<Id, Node>, x: Id)
    requires x in m
    ensures Effect(m, m[x := Resized(m[x])], {x}, {}, {})
  {
    var r := m[x := Resized(m[x])];
    SkeletonKept(m[x]);
    assert SameStructure(m, r);
    ResizedSize(m[x], m[x]);
  }

  /** Putting child k in a slot moves k only. */
  lemma PlaceEffect(m: map<Id, Node>, x: Id, i: nat, k: Id)
    requires x in m && k in m
    ensures Effect(m, m[k := Placed(m[x], i, m[k])], {}, {k}, {})
  {
    var r := m[k := Placed(m[x], i, m[k])];
    PlacedCorner(m[x], m[x], i, m[k], m[k]);
    assert SameStructure(m, r);
  }

  /** update_arrows redraws the arrows of the given pointers only. */
  lemma RedrawEffect(m: map<Id, Node>, ps: seq<Id>)
    ensures Effect(m, RedrawnAmong(m, ps), {}, {}, set p | p in m && p in ps)
  {
  }

  /** Doing nothing is an effect. */
  lemma NoEffect(m: map<Id, Node>)
    ensures Effect(m, m, {}, {}, {})
  {
  }

  /** The drawing of a cell or a plain Volume reaches nothing but the element itself. */
  lemma ReachedFlat(nodes: map<Id, Node>, rank: map<Id, nat>, x: Id)
    requires Ranked(nodes, rank) && x in nodes && !Lays(nodes[x].kind)
    ensures ReachSet(nodes, rank, x) == {x}
  {
  }

  /** What the drawing of a StructBlock or StackQueue reaches, as sets. */
  lemma ReachSetUnfold(nodes: map<Id, Node>, rank: map<Id, nat>, x: Id)
    requires Ranked(nodes, rank) && x in nodes && Lays(nodes[x].kind)
    ensures ReachSet(nodes, rank, x) == {x} + AmongSet(nodes, rank, nodes[x].children)
    ensures x !in AmongSet(nodes, rank, nodes[x].children)
  {
    forall d ensures Reached(nodes, rank, x, d) <==> d == x || ReachedAmong(nodes, rank, nodes[x].children, d) {
      ReachedUnfold(nodes, rank, x, d);
    }
    ReachedUnfold(nodes, rank, x, x);
  }

  /** The sets depend on the structure only. */
  lemma SetsSame(a: map<Id, Node>, b: map<Id, Node>, rank: map<Id, nat>, ks: seq<Id>)
    requires SameStructure(a, b) && Ranked(a, rank)
    ensures Ranked(b, rank)
    ensures AmongSet(a, rank, ks) == AmongSet(b, rank, ks) && PointSet(a, rank, ks) == PointSet(b, rank, ks)
  {
    forall d ensures ReachedAmong(a, rank, ks, d) == ReachedAmong(b, rank, ks, d)
      && PointsIntoReached(a, rank, ks, d) == PointsIntoReached(b, rank, ks, d) {
      AmongSame(a, b, rank, ks, d);
    }
  }

  /** One more child's drawing: the sets grow by what it reaches and the pointers into that. */
  lemma SetsSnoc(nodes: map<Id, Node>, rank: map<Id, nat>, kids: seq<Id>, i: nat)
    requires Ranked(nodes, rank) && i < |kids| && kids[i] in nodes
    ensures AmongSet(nodes, rank, kids[..i + 1]) == AmongSet(nodes, rank, kids[..i]) + ReachSet(nodes, rank, kids[i])
    ensures PointSet(nodes, rank, kids[..i + 1]) == PointSet(nodes, rank, kids[..i])
      + (if Lays(nodes[kids[i]].kind) then PointSet(nodes, rank, nodes[kids[i]].children) else {})
      + (set p | p in nodes && p in nodes[kids[i]].pointers)
  {
    forall d ensures ReachedAmong(nodes, rank, kids[..i + 1], d) <==>
      ReachedAmong(nodes, rank, kids[..i], d) || Reached(nodes, rank, kids[i], d)
    {
      AmongSnoc(nodes, rank, kids, i, d);
    }
    forall p ensures PointsIntoReached(nodes, rank, kids[..i + 1], p) <==>
      PointsIntoReached(nodes, rank, kids[..i], p)
      || (Lays(nodes[kids[i]].kind) && PointsIntoReached(nodes, rank, nodes[kids[i]].children, p))
      || p in nodes[kids[i]].pointers
    {
      AmongSnoc(nodes, rank, kids, i, p);
      PointsIntoOne(nodes, rank, kids[i], p);
    }
  }

  /** A child of x is drawn with x added to the containers under way, and it ranks below all of them. */
  lemma ChildAbove(nodes: map<Id, Node>, rank: map<Id, nat>, seen: set<Id>, x: Id, k: Id)
    requires Ranked(nodes, rank) && x in nodes && Above(rank, seen, x) && k in nodes[x].children && k in nodes
    ensures Above(rank, seen + {x}, k) && k !in seen + {x} && rank[k] < rank[x]
  {
  }

  /**
   * draw() of x: everything its drawing reaches takes its drawn size, all of
   * it but x is placed anew, and the arrows into what its children's
   * drawings reach are redrawn.
   */
  lemma {:induction false} DrawnEffect(m: map<Id, Node>, rank: map<Id, nat>, x: Id, seen: set<Id>)
    requires Hierarchy(m, rank) && x in m && x !in seen && Above(rank, seen, x)
    ensures Effect(m, Drawn(m, x, seen), ReachSet(m, rank, x), ReachSet(m, rank, x) - {x},
      if Lays(m[x].kind) then PointSet(m, rank, m[x].children) else {})
    decreases rank[x], 1
  {
    if !Lays(m[x].kind) {
      ReachedFlat(m, rank, x);
      NoEffect(m);
    } else {
      var m1 := m[x := Resized(m[x])];
      ResizeEffect(m, x);
      SameStructureHierarchy(m, m1, rank);
      var kids := m[x].children;
      assert m1[x].children == kids;
      RearrangedEffect(m1, rank, x, seen, |kids|);
      var r := Rearranged(m1, x, seen, |kids|);
      DrawnUnfold(m, x, seen);
      WholeList(m1, rank, kids);
      DrawSets(m, m1, rank, x);
      var a, pa := AmongSet(m1, rank, kids), PointSet(m1, rank, kids);
      EffectTrans(m, m1, r, {x}, {}, {}, a, a, pa);
    }
  }

  /** The sets of draw() of a StructBlock or StackQueue x, in terms of the arena before it was resized. */
  lemma DrawSets(m: map<Id, Node>, m1: map<Id, Node>, rank: map<Id, nat>, x: Id)
    requires Ranked(m, rank) && SameStructure(m, m1) && x in m && Lays(m[x].kind)
    ensures Ranked(m1, rank) && m1[x].children == m[x].children
    ensures var a := AmongSet(m1, rank, m[x].children);
      {x} + a == ReachSet(m, rank, x) && {} + a == ReachSet(m, rank, x) - {x}
      && {} + PointSet(m1, rank, m[x].children) == PointSet(m, rank, m[x].children)
  {
    SameStructureFields(m, m1, x);
    SetsSame(m, m1, rank, m[x].children);
    ReachSetUnfold(m, rank, x);
  }

  /** The first i turns of rearrange_elements: what the first i children's drawings reach is sized and placed anew. */
  lemma {:induction false} RearrangedEffect(m: map<Id, Node>, rank: map<Id, nat>, x: Id, seen: set<Id>, i: nat)
    requires Hierarchy(m, rank) && x in m && x !in seen && Above(rank, seen, x) && i <= |m[x].children|
    ensures Effect(m, Rearranged(m, x, seen, i), AmongSet(m, rank, m[x].children[..i]),
      AmongSet(m, rank, m[x].children[..i]), PointSet(m, rank, m[x].children[..i]))
    decreases rank[x], 0, i, 1
  {
    if i == 0 {
      NoTurns(m, rank, m[x].children);
    } else {
      var j := i - 1;
      RearrangedEffect(m, rank, x, seen, j);
      TurnEffect(m, rank, x, seen, j);
      NextTurn(m, x, seen, j, i);
    }
  }

  /** No turn of rearrange_elements yet: nothing has changed. */
  lemma NoTurns(m: map<Id, Node>, rank: map<Id, nat>, kids: seq<Id>)
    requires Ranked(m, rank)
    ensures Effect(m, m, AmongSet(m, rank, kids[..0]), AmongSet(m, rank, kids[..0]), PointSet(m, rank, kids[..0]))
  {
    assert AmongSet(m, rank, kids[..0]) == {} && PointSet(m, rank, kids[..0]) == {};
  }

  /** Turn i of rearrange_elements, added to the turns before it. */
  lemma {:induction false} TurnEffect(m: map<Id, Node>, rank: map<Id, nat>, x: Id, seen: set<Id>, i: nat)
    requires Hierarchy(m, rank) && x in m && x !in seen && Above(rank, seen, x) && 0 < i + 1 <= |m[x].children|
    requires Effect(m, Rearranged(m, x, seen, i), AmongSet(m, rank, m[x].children[..i]),
      AmongSet(m, rank, m[x].children[..i]), PointSet(m, rank, m[x].children[..i]))
    ensures Effect(m, Rearranged(m, x, seen, i + 1), AmongSet(m, rank, m[x].children[..i + 1]),
      AmongSet(m, rank, m[x].children[..i + 1]), PointSet(m, rank, m[x].children[..i + 1]))
    decreases rank[x], 0, i + 1, 0
  {
    var kids := m[x].children;
    var m0 := Rearranged(m, x, seen, i);
    var k := kids[i];
    ChildAbove(m, rank, seen, x, k);
    var m1 := m0[k := Placed(m0[x], i, m0[k])];
    PlaceEffect(m0, x, i, k);
    SameStructureTrans(m, m0, m1);
    SameStructureHierarchy(m, m1, rank);
    SameStructureFields(m, m1, k);
    DrawnEffect(m1, rank, k, seen + {x});
    var m2 := Drawn(m1, k, seen + {x});
    SameStructureFields(m1, m2, k);
    var r := RedrawnAmong(m2, m2[k].pointers);
    RedrawEffect(m2, m2[k].pointers);
    RearrangedTurn(m, x, seen, i);
    var a, pa := AmongSet(m, rank, kids[..i]), PointSet(m, rank, kids[..i]);
    var rk, pk := ReachSet(m1, rank, k), if Lays(m1[k].kind) then PointSet(m1, rank, m1[k].children) else {};
    var q := set p | p in m2 && p in m2[k].pointers;
    assert k in rk;
    StepEffect(m, m0, m1, m2, r, a, pa, k, rk, pk, q);
    StepSets(m, m1, m2, rank, kids, i);
  }

  /** Turn i of rearrange_elements of x, for a child that is in the arena and not under way. */
  lemma RearrangedTurn(m: map<Id, Node>, x: Id, seen: set<Id>, i: nat)
    requires x in m && x !in seen && i < |m[x].children|
    requires m[x].children[i] in m && m[x].children[i] !in seen + {x}
    ensures var m0 := Rearranged(m, x, seen, i); var k := m[x].children[i];
      k in m0 && x in m0 &&
      var m1 := m0[k := Placed(m0[x], i, m0[k])];
      Rearranged(m, x, seen, i + 1) == RedrawnAmong(Drawn(m1, k, seen + {x}), Drawn(m1, k, seen + {x})[k].pointers)
  {
  }

  /** What turn i of rearrange_elements of x needs, on an acyclic arena: m0 is the arena after i turns and k the i-th child. */
  lemma TurnReady(m: map<Id, Node>, rank: map<Id, nat>, x: Id, seen: set<Id>, i: nat, m0: map<Id, Node>, k: Id)
    requires Hierarchy(m, rank) && x in m && x !in seen && Above(rank, seen, x) && i < |m[x].children|
    requires m0 == Rearranged(m, x, seen, i) && k == m[x].children[i]
    ensures x in m0 && m0[x].children == m[x].children
    ensures k in m0 && k !in seen + {x} && Above(rank, seen + {x}, k)
    ensures Hierarchy(m0[k := Placed(m0[x], i, m0[k])], rank)
  {
    ChildAbove(m, rank, seen, x, k);
    SameStructureHierarchy(m, m0, rank);
    SameStructureFields(m, m0, x);
    SameStructureFields(m, m0, k);
    var m1 := m0[k := Placed(m0[x], i, m0[k])];
    SkeletonKept(m0[k]);
    assert SameStructure(m0, m1);
    SameStructureHierarchy(m0, m1, rank);
  }

  /** What turn i of rearrange_elements of x gives: placing k, drawing it and redrawing the arrows into it is turn i + 1. */
  lemma TurnDone(m: map<Id, Node>, rank: map<Id, nat>, x: Id, seen: set<Id>, i: nat, m0: map<Id, Node>, k: Id, d: map<Id, Node>)
    requires Hierarchy(m, rank) && x in m && x !in seen && Above(rank, seen, x) && i < |m[x].children|
    requires m0 == Rearranged(m, x, seen, i) && k == m[x].children[i] && k in m0 && x in m0
    requires d == Drawn(m0[k := Placed(m0[x], i, m0[k])], k, seen + {x})
    ensures k in d && Rearranged(m, x, seen, i + 1) == RedrawnAmong(d, d[k].pointers)
  {
    TurnReady(m, rank, x, seen, i, m0, k);
    RearrangedTurn(m, x, seen, i);
  }

  /** One turn of rearrange_elements, as one effect: place the child, draw it, redraw the arrows into it. */
  lemma StepEffect(m: map<Id, Node>, m0: map<Id, Node>, m1: map<Id, Node>, m2: map<Id, Node>, r: map<Id, Node>,
                   a: set<Id>, pa: set<Id>, k: Id, rk: set<Id>, pk: set<Id>, q: set<Id>)
    requires Effect(m, m0, a, a, pa) && Effect(m0, m1, {}, {k}, {})
    requires Effect(m1, m2, rk, rk - {k}, pk) && Effect(m2, r, {}, {}, q) && k in rk
    ensures Effect(m, r, a + rk, a + rk, pa + pk + q)
  {
    EffectTrans(m, m0, m1, a, a, pa, {}, {k}, {});
    EffectTrans(m, m1, m2, a, a + {k}, pa, rk, rk - {k}, pk);
    EffectTrans(m, m2, r, a + rk, a + {k} + (rk - {k}), pa + pk, {}, {}, q);
    assert a + rk + {} == a + rk && a + {k} + (rk - {k}) + {} == a + rk;
  }

  /** The sets of one turn of rearrange_elements, in terms of the arena before the turn. */
  lemma StepSets(m: map<Id, Node>, m1: map<Id, Node>, m2: map<Id, Node>, rank: map<Id, nat>, kids: seq<Id>, i: nat)
    requires Ranked(m, rank) && SameStructure(m, m1) && SameStructure(m1, m2) && i < |kids| && kids[i] in m
    ensures Ranked(m1, rank) && kids[i] in m1 && kids[i] in m2
    ensures AmongSet(m, rank, kids[..i + 1]) == AmongSet(m, rank, kids[..i]) + ReachSet(m1, rank, kids[i])
    ensures PointSet(m, rank, kids[..i + 1]) == PointSet(m, rank, kids[..i])
      + (if Lays(m1[kids[i]].kind) then PointSet(m1, rank, m1[kids[i]].children) else {})
      + (set p | p in m2 && p in m2[kids[i]].pointers)
  {
    var k := kids[i];
    ReachSetsSame(m, m1, rank, k);
    SetsSnoc(m, rank, kids, i);
    SameStructureFields(m1, m2, k);
    SameStructureFields(m, m1, k);
    assert (set p | p in m2 && p in m2[k].pointers) == set p | p in m && p in m[k].pointers;
  }

  /** What one element's drawing reaches, and the pointers into its children's, depend on the structure only. */
  lemma ReachSetsSame(a: map<Id, Node>, b: map<Id, Node>, rank: map<Id, nat>, k: Id)
    requires SameStructure(a, b) && Ranked(a, rank) && k in a
    ensures Ranked(b, rank) && ReachSet(a, rank, k) == ReachSet(b, rank, k)
    ensures a[k].kind == b[k].kind && a[k].children == b[k].children
    ensures PointSet(a, rank, a[k].children) == PointSet(b, rank, b[k].children)
  {
    SameStructureFields(a, b, k);
    forall d ensures Reached(a, rank, k, d) == Reached(b, rank, k, d) {
      ReachedSame(a, b, rank, k, d);
    }
    SetsSame(a, b, rank, a[k].children);
  }

  // ----- why the drawing leaves a consistent layout -----

  /** a and b give the same corner and size to every element of s. */
  ghost predicate Agree(a: map<Id, Node>, b: map<Id, Node>, s: set<Id>)
  {
    forall d :: d in s ==> d in a && d in b && Corner(a[d]) == Corner(b[d]) && Size(a[d]) == Size(b[d])
  }

  /** An effect leaves alone what it neither sizes nor moves. */
  lemma EffectAgree(a: map<Id, Node>, b: map<Id, Node>, sized: set<Id>, moved: set<Id>, pointed: set<Id>, s: set<Id>)
    requires Effect(a, b, sized, moved, pointed) && s <= a.Keys && s !! sized && s !! moved
    ensures Agree(a, b, s)
  {
  }

  /** Being tidy depends on the structure and on the corners and sizes of what the drawing reaches. */
  lemma TidyFrame(a: map<Id, Node>, b: map<Id, Node>, rank: map<Id, nat>, r: Id)
    requires SameStructure(a, b) && Ranked(a, rank) && r in a
    requires Agree(a, b, ReachSet(a, rank, r)) && Tidy(a, rank, r)
    ensures Ranked(b, rank) && Tidy(b, rank, r)
  {
    SameStructureRanked(a, b, rank);
    forall p | p in b && Reached(b, rank, r, p) ensures Fresh(b[p]) && (Lays(b[p].kind) ==> InSlots(b, p)) {
      ReachedSame(a, b, rank, r, p);
      SameStructureFields(a, b, p);
      ResizedSize(a[p], b[p]);
      if Lays(b[p].kind) {
        forall i | 0 <= i < |b[p].children| && b[p].children[i] in b
          ensures Corner(b[b[p].children[i]]) == Corner(Placed(b[p], i, b[b[p].children[i]]))
        {
          var k := b[p].children[i];
          ReachedSame(a, b, rank, k, k);
          ReachedThroughChild(a, rank, p, k, k);
          ReachedTrans(a, rank, r, p, k);
          PlacedCorner(a[p], b[p], i, a[k], b[k]);
        }
      }
    }
  }

  /** Reaching is transitive. */
  lemma {:induction false} ReachedTrans(nodes: map<Id, Node>, rank: map<Id, nat>, r: Id, p: Id, d: Id)
    requires Ranked(nodes, rank) && r in nodes && p in nodes && Reached(nodes, rank, r, p) && Reached(nodes, rank, p, d)
    ensures Reached(nodes, rank, r, d)
    decreases rank[r]
  {
    if r != p {
      var c :| c in nodes[r].children && c in nodes && Reached(nodes, rank, c, p);
      ReachedTrans(nodes, rank, c, p, d);
    }
  }

  /** Child j of x sits in its slot and its own drawing is tidy. */
  ghost predicate Slotted(nodes: map<Id, Node>, rank: map<Id, nat>, x: Id, j: nat)
    requires Ranked(nodes, rank) && x in nodes && j < |nodes[x].children|
  {
    var k := nodes[x].children[j];
    k in nodes && Corner(nodes[k]) == Corner(Placed(nodes[x], j, nodes[k])) && Tidy(nodes, rank, k)
  }

  /** The first i children of x are slotted. */
  ghost predicate TidyPrefix(nodes: map<Id, Node>, rank: map<Id, nat>, x: Id, i: nat)
    requires Ranked(nodes, rank) && x in nodes && i <= |nodes[x].children|
  {
    forall j :: 0 <= j < i ==> Slotted(nodes, rank, x, j)
  }

  /** A child stays slotted when neither x nor anything the child's drawing reaches changes corner or size. */
  lemma SlottedKept(a: map<Id, Node>, b: map<Id, Node>, rank: map<Id, nat>, x: Id, j: nat)
    requires SameStructure(a, b) && Ranked(a, rank) && x in a && j < |a[x].children|
    requires a[x].children[j] in a && Agree(a, b, ReachSet(a, rank, a[x].children[j]) + {x})
    requires Slotted(a, rank, x, j)
    ensures Ranked(b, rank) && x in b && j < |b[x].children| && Slotted(b, rank, x, j)
  {
    SameStructureFields(a, b, x);
    var k := a[x].children[j];
    assert Reached(a, rank, k, k);
    TidyFrame(a, b, rank, k);
    PlacedCorner(a[x], b[x], j, a[k], b[k]);
  }

  /** A drawing of x whose children are all slotted and whose own size is drawn is tidy. */
  lemma TidyFromPrefix(nodes: map<Id, Node>, rank: map<Id, nat>, x: Id)
    requires Ranked(nodes, rank) && x in nodes && Lays(nodes[x].kind) && Fresh(nodes[x])
    requires TidyPrefix(nodes, rank, x, |nodes[x].children|)
    ensures Tidy(nodes, rank, x)
  {
    var kids := nodes[x].children;
    forall p | p in nodes && Reached(nodes, rank, x, p) ensures Fresh(nodes[p]) && (Lays(nodes[p].kind) ==> InSlots(nodes, p)) {
      if p == x {
        forall i | 0 <= i < |kids| && kids[i] in nodes ensures Corner(nodes[kids[i]]) == Corner(Placed(nodes[x], i, nodes[kids[i]])) {
          assert Slotted(nodes, rank, x, i);
        }
      } else {
        var c :| c in kids && c in nodes && Reached(nodes, rank, c, p);
        var j :| 0 <= j < |kids| && kids[j] == c;
        assert Slotted(nodes, rank, x, j);
      }
    }
  }

  /**
   * draw() of x leaves a tidy layout when everything it reaches below x
   * already has its drawn size: x takes its own, and each child is put in
   * its slot before it draws itself.
   */
  lemma {:induction false} DrawnTidy(m: map<Id, Node>, rank: map<Id, nat>, x: Id, seen: set<Id>)
    requires Hierarchy(m, rank) && x in m && x !in seen && Above(rank, seen, x)
    requires forall d :: d in ReachSet(m, rank, x) && d != x ==> Fresh(m[d])
    ensures Ranked(Drawn(m, x, seen), rank) && Tidy(Drawn(m, x, seen), rank, x)
    decreases rank[x], 1
  {
    if !Lays(m[x].kind) {
      ReachedFlat(m, rank, x);
      assert Drawn(m, x, seen) == m;
    } else {
      var m1 := m[x := Resized(m[x])];
      ResizedFresh(m, m1, rank, x);
      var kids := m[x].children;
      RearrangedTidy(m1, rank, x, seen, |kids|);
      RearrangedEffect(m1, rank, x, seen, |kids|);
      var r := Rearranged(m1, x, seen, |kids|);
      DrawnUnfold(m, x, seen);
      DrawnFinish(m, m1, r, rank, x);
    }
  }

  /** All the turns of rearrange_elements cover the whole child list. */
  lemma WholeList(m: map<Id, Node>, rank: map<Id, nat>, kids: seq<Id>)
    requires Ranked(m, rank)
    ensures AmongSet(m, rank, kids[..|kids|]) == AmongSet(m, rank, kids)
    ensures PointSet(m, rank, kids[..|kids|]) == PointSet(m, rank, kids)
  {
    assert kids[..|kids|] == kids;
  }

  /** draw() of a StructBlock or StackQueue: take the drawn size, then run every turn of rearrange_elements. */
  lemma DrawnUnfold(m: map<Id, Node>, x: Id, seen: set<Id>)
    requires x in m && x !in seen && Lays(m[x].kind)
    ensures Drawn(m, x, seen) == Rearranged(m[x := Resized(m[x])], x, seen, |m[x].children|)
  {
  }

  /** After x takes its drawn size, what its children's drawings reach still has theirs. */
  lemma ResizedFresh(m: map<Id, Node>, m1: map<Id, Node>, rank: map<Id, nat>, x: Id)
    requires Hierarchy(m, rank) && x in m && Lays(m[x].kind) && m1 == m[x := Resized(m[x])]
    requires forall d :: d in ReachSet(m, rank, x) && d != x ==> Fresh(m[d])
    ensures Hierarchy(m1, rank) && m1[x].children == m[x].children
    ensures forall d :: d in AmongSet(m1, rank, m[x].children) ==> Fresh(m1[d])
  {
    ResizeEffect(m, x);
    SameStructureHierarchy(m, m1, rank);
    DrawSets(m, m1, rank, x);
    forall d | d in AmongSet(m1, rank, m[x].children) ensures Fresh(m1[d]) {
      assert d in ReachSet(m, rank, x) && d != x;
    }
  }

  /** draw() of x ends tidy: x keeps the drawn size it took first, and its children are slotted. */
  lemma DrawnFinish(m: map<Id, Node>, m1: map<Id, Node>, r: map<Id, Node>, rank: map<Id, nat>, x: Id)
    requires Ranked(m, rank) && x in m && Lays(m[x].kind) && m1 == m[x := Resized(m[x])]
    requires var kids := m[x].children; var a := AmongSet(m1, rank, kids[..|kids|]);
      Effect(m1, r, a, a, PointSet(m1, rank, kids[..|kids|]))
    requires SameStructure(m, m1) && Ranked(r, rank) && TidyPrefix(r, rank, x, |m[x].children|)
    ensures Tidy(r, rank, x)
  {
    WholeList(m1, rank, m[x].children);
    DrawSets(m, m1, rank, x);
    ResizedSize(m[x], m[x]);
    assert Skeleton(m1[x]) == Skeleton(r[x]) && Size(m1[x]) == Size(r[x]);
    ResizedSize(m1[x], r[x]);
    TidyFromPrefix(r, rank, x);
  }

  /** The first i turns of rearrange_elements slot the first i children, when all the children's drawings find drawn sizes. */
  lemma {:induction false} RearrangedTidy(m: map<Id, Node>, rank: map<Id, nat>, x: Id, seen: set<Id>, i: nat)
    requires Hierarchy(m, rank) && x in m && x !in seen && Above(rank, seen, x) && i <= |m[x].children|
    requires forall d :: d in AmongSet(m, rank, m[x].children) ==> Fresh(m[d])
    ensures Ranked(Rearranged(m, x, seen, i), rank) && TidyPrefix(Rearranged(m, x, seen, i), rank, x, i)
    decreases rank[x], 0, i, 1
  {
    if i == 0 {
      NoTurnsTidy(m, rank, x, seen);
      assert TidyPrefix(Rearranged(m, x, seen, i), rank, x, i);
    } else {
      var j := i - 1;
      RearrangedTidy(m, rank, x, seen, j);
      TurnTidy(m, rank, x, seen, j);
      NextTurn(m, x, seen, j, i);
    }
  }

  /** The turns up to j + 1 are the turns up to i. */
  lemma NextTurn(m: map<Id, Node>, x: Id, seen: set<Id>, j: nat, i: nat)
    requires x in m && x !in seen && j + 1 == i <= |m[x].children|
    ensures Rearranged(m, x, seen, j + 1) == Rearranged(m, x, seen, i)
  {
  }

  /** Before any turn of rearrange_elements, no child needs to be slotted. */
  lemma NoTurnsTidy(m: map<Id, Node>, rank: map<Id, nat>, x: Id, seen: set<Id>)
    requires Ranked(m, rank) && x in m && x !in seen
    ensures Ranked(Rearranged(m, x, seen, 0), rank) && TidyPrefix(Rearranged(m, x, seen, 0), rank, x, 0)
  {
    assert Rearranged(m, x, seen, 0) == m;
  }

  /** Turn i of rearrange_elements slots child i and keeps the children before it slotted. */
  lemma {:induction false} TurnTidy(m: map<Id, Node>, rank: map<Id, nat>, x: Id, seen: set<Id>, i: nat)
    requires Hierarchy(m, rank) && x in m && x !in seen && Above(rank, seen, x) && 0 < i + 1 <= |m[x].children|
    requires forall d :: d in AmongSet(m, rank, m[x].children) ==> Fresh(m[d])
    requires Ranked(Rearranged(m, x, seen, i), rank) && TidyPrefix(Rearranged(m, x, seen, i), rank, x, i)
    ensures Ranked(Rearranged(m, x, seen, i + 1), rank) && TidyPrefix(Rearranged(m, x, seen, i + 1), rank, x, i + 1)
    decreases rank[x], 0, i + 1, 0
  {
    var kids := m[x].children;
    var m0, k := Rearranged(m, x, seen, i), kids[i];
    var m1, m2, pk, q := TurnShape(m, rank, x, seen, i);
    var r := Rearranged(m, x, seen, i + 1);
    TurnFresh(m, m0, m1, rank, x, i);
    DrawnTidy(m1, rank, k, seen + {x});
    PrefixKept(m0, r, rank, x, i, pk + q);
    NewSlotted(m0, m1, m2, r, rank, x, i, pk, q);
    PrefixExtend(r, rank, x, i);
  }

  /** Slotting child i extends a slotted prefix by one. */
  lemma PrefixExtend(nodes: map<Id, Node>, rank: map<Id, nat>, x: Id, i: nat)
    requires Ranked(nodes, rank) && x in nodes && i < |nodes[x].children|
    requires TidyPrefix(nodes, rank, x, i) && Slotted(nodes, rank, x, i)
    ensures TidyPrefix(nodes, rank, x, i + 1)
  {
  }

  /** The arenas of turn i of rearrange_elements: child i placed (m1), drawn (m2), and the arrows into it redrawn. */
  lemma TurnShape(m: map<Id, Node>, rank: map<Id, nat>, x: Id, seen: set<Id>, i: nat)
      returns (m1: map<Id, Node>, m2: map<Id, Node>, pk: set<Id>, q: set<Id>)
    requires Hierarchy(m, rank) && x in m && x !in seen && Above(rank, seen, x) && i < |m[x].children|
    ensures var m0, k := Rearranged(m, x, seen, i), m[x].children[i];
      Hierarchy(m0, rank) && x in m0 && k in m0 && k !in seen + {x} && Above(rank, seen + {x}, k)
      && m1 == m0[k := Placed(m0[x], i, m0[k])] && Hierarchy(m1, rank) && m2 == Drawn(m1, k, seen + {x})
    ensures var a := AmongSet(m, rank, m[x].children[..i]);
      Effect(m, Rearranged(m, x, seen, i), a, a, PointSet(m, rank, m[x].children[..i]))
    ensures Effect(Rearranged(m, x, seen, i), m1, {}, {m[x].children[i]}, {})
    ensures var s := ReachSet(m1, rank, m[x].children[i]); Effect(m1, m2, s, s - {m[x].children[i]}, pk)
    ensures Ranked(m2, rank) && Effect(m2, Rearranged(m, x, seen, i + 1), {}, {}, q)
    ensures var m0, k := Rearranged(m, x, seen, i), m[x].children[i];
      Effect(m0, Rearranged(m, x, seen, i + 1), ReachSet(m0, rank, k), ReachSet(m0, rank, k), pk + q)
  {
    var kids := m[x].children;
    var m0 := Rearranged(m, x, seen, i);
    RearrangedEffect(m, rank, x, seen, i);
    var k := kids[i];
    ChildAbove(m, rank, seen, x, k);
    m1 := m0[k := Placed(m0[x], i, m0[k])];
    PlaceEffect(m0, x, i, k);
    SameStructureTrans(m, m0, m1);
    SameStructureHierarchy(m, m0, rank);
    SameStructureHierarchy(m, m1, rank);
    SameStructureFields(m, m0, x);
    SameStructureFields(m, m1, k);
    DrawnEffect(m1, rank, k, seen + {x});
    m2 := Drawn(m1, k, seen + {x});
    SameStructureRanked(m1, m2, rank);
    SameStructureFields(m1, m2, k);
    var r := RedrawnAmong(m2, m2[k].pointers);
    RedrawEffect(m2, m2[k].pointers);
    RearrangedTurn(m, x, seen, i);
    var rk := ReachSet(m1, rank, k);
    pk := if Lays(m1[k].kind) then PointSet(m1, rank, m1[k].children) else {};
    q := set p | p in m2 && p in m2[k].pointers;
    assert Reached(m1, rank, k, k);
    TurnOnly(m0, m1, m2, r, k, rk, pk, q);
    ReachSetsSame(m0, m1, rank, k);
  }

  /** One turn of rearrange_elements, on its own: it sizes and moves only what child k's drawing reaches. */
  lemma TurnOnly(m0: map<Id, Node>, m1: map<Id, Node>, m2: map<Id, Node>, r: map<Id, Node>,
                 k: Id, rk: set<Id>, pk: set<Id>, q: set<Id>)
    requires Effect(m0, m1, {}, {k}, {}) && Effect(m1, m2, rk, rk - {k}, pk) && Effect(m2, r, {}, {}, q) && k in rk
    ensures Effect(m0, r, rk, rk, pk + q)
  {
    EffectTrans(m0, m1, m2, {}, {k}, {}, rk, rk - {k}, pk);
    EffectTrans(m0, m2, r, rk, {k} + (rk - {k}), pk, {}, {}, q);
    assert {} + rk + {} == rk && {k} + (rk - {k}) + {} == rk && {} + pk + q == pk + q;
  }

  /** Before its turn, everything child i's drawing reaches still has the drawn size it was given to start with. */
  lemma TurnFresh(m: map<Id, Node>, m0: map<Id, Node>, m1: map<Id, Node>, rank: map<Id, nat>, x: Id, i: nat)
    requires Hierarchy(m, rank) && x in m && i < |m[x].children| && m[x].children[i] in m
    requires forall d :: d in AmongSet(m, rank, m[x].children) ==> Fresh(m[d])
    requires var a := AmongSet(m, rank, m[x].children[..i]); Effect(m, m0, a, a, PointSet(m, rank, m[x].children[..i]))
    requires Effect(m0, m1, {}, {m[x].children[i]}, {})
    ensures Ranked(m1, rank) && m[x].children[i] in m0 && m[x].children[i] in m1
    ensures Fresh(m0[m[x].children[i]]) && forall d :: d in ReachSet(m1, rank, m[x].children[i]) ==> Fresh(m1[d])
  {
    var k := m[x].children[i];
    var s := ReachSet(m, rank, k);
    forall d | d in s ensures d in m0 && Fresh(m0[d]) {
      FreshBefore(m, m0, rank, x, i, d);
    }
    assert k in s;
    FreshMoved(m0, m1, {k}, {}, s);
    SameStructureTrans(m, m0, m1);
    ReachSetsSame(m, m1, rank, k);
  }

  /** Moving elements keeps their sizes, and so keeps them drawn. */
  lemma FreshMoved(a: map<Id, Node>, b: map<Id, Node>, moved: set<Id>, pointed: set<Id>, s: set<Id>)
    requires Effect(a, b, {}, moved, pointed) && forall d :: d in s ==> d in a && Fresh(a[d])
    ensures forall d :: d in s ==> d in b && Fresh(b[d])
  {
    forall d | d in s ensures d in b && Fresh(b[d]) {
      assert Skeleton(a[d]) == Skeleton(b[d]);
      ResizedSize(a[d], b[d]);
    }
  }

  /** What child i's drawing reaches has not been sized or moved by the turns before i. */
  lemma FreshBefore(m: map<Id, Node>, m0: map<Id, Node>, rank: map<Id, nat>, x: Id, i: nat, d: Id)
    requires Hierarchy(m, rank) && x in m && i < |m[x].children| && m[x].children[i] in m
    requires forall d :: d in AmongSet(m, rank, m[x].children) ==> Fresh(m[d])
    requires var a := AmongSet(m, rank, m[x].children[..i]); Effect(m, m0, a, a, PointSet(m, rank, m[x].children[..i]))
    requires Reached(m, rank, m[x].children[i], d)
    ensures d in m0 && Fresh(m0[d])
  {
    var kids := m[x].children;
    ReachedInside(m, rank, kids[i], d);
    assert d in AmongSet(m, rank, kids);
    EarlierDisjoint(m, rank, x, i, d);
    assert d !in AmongSet(m, rank, kids[..i]);
    assert Skeleton(m[d]) == Skeleton(m0[d]) && Size(m[d]) == Size(m0[d]);
    ResizedSize(m[d], m0[d]);
  }

  /** A turn that sizes and moves only what child i's drawing reaches keeps the children before it slotted. */
  lemma PrefixKept(a: map<Id, Node>, b: map<Id, Node>, rank: map<Id, nat>, x: Id, i: nat, pointed: set<Id>)
    requires Hierarchy(a, rank) && x in a && i < |a[x].children| && a[x].children[i] in a
    requires var s := ReachSet(a, rank, a[x].children[i]); Effect(a, b, s, s, pointed)
    requires TidyPrefix(a, rank, x, i)
    ensures Ranked(b, rank) && x in b && i < |b[x].children| && TidyPrefix(b, rank, x, i)
  {
    var kids := a[x].children;
    var s := ReachSet(a, rank, kids[i]);
    SameStructureRanked(a, b, rank);
    SameStructureFields(a, b, x);
    forall j | 0 <= j < i ensures Slotted(b, rank, x, j) {
      EarlierKept(a, b, rank, x, i, j, pointed);
    }
  }

  /** Child j before child i keeps its slot through turn i. */
  lemma EarlierKept(a: map<Id, Node>, b: map<Id, Node>, rank: map<Id, nat>, x: Id, i: nat, j: nat, pointed: set<Id>)
    requires Hierarchy(a, rank) && x in a && j < i < |a[x].children| && a[x].children[i] in a
    requires var s := ReachSet(a, rank, a[x].children[i]); Effect(a, b, s, s, pointed)
    requires Slotted(a, rank, x, j)
    ensures Ranked(b, rank) && x in b && j < |b[x].children| && Slotted(b, rank, x, j)
  {
    var kids := a[x].children;
    var s := ReachSet(a, rank, kids[i]);
    var t := ReachSet(a, rank, kids[j]) + {x};
    EarlierApart(a, rank, x, i, j);
    EffectAgree(a, b, s, s, pointed, t);
    SlottedKept(a, b, rank, x, j);
  }

  /** Neither x nor what an earlier child's drawing reaches is reached by the drawing of child i. */
  lemma EarlierApart(a: map<Id, Node>, rank: map<Id, nat>, x: Id, i: nat, j: nat)
    requires Hierarchy(a, rank) && x in a && j < i < |a[x].children| && a[x].children[i] in a && a[x].children[j] in a
    ensures var kids := a[x].children;
      ReachSet(a, rank, kids[j]) + {x} <= a.Keys && (ReachSet(a, rank, kids[j]) + {x}) !! ReachSet(a, rank, kids[i])
  {
    var kids := a[x].children;
    forall d | d in ReachSet(a, rank, kids[j]) + {x} && d in ReachSet(a, rank, kids[i]) ensures false {
      ReachedInside(a, rank, kids[i], d);
      if d != x {
        assert kids[j] in kids[..i];
        EarlierDisjoint(a, rank, x, i, d);
      }
    }
  }

  /** After its turn, child i sits in its slot: it was placed there, and its drawing keeps its corner and size. */
  lemma NewSlotted(m0: map<Id, Node>, m1: map<Id, Node>, m2: map<Id, Node>, r: map<Id, Node>,
                   rank: map<Id, nat>, x: Id, i: nat, pk: set<Id>, q: set<Id>)
    requires Ranked(m0, rank) && x in m0 && i < |m0[x].children| && m0[x].children[i] in m0
    requires Fresh(m0[m0[x].children[i]])
    requires m1 == m0[m0[x].children[i] := Placed(m0[x], i, m0[m0[x].children[i]])]
    requires var s := ReachSet(m1, rank, m0[x].children[i]); Effect(m1, m2, s, s - {m0[x].children[i]}, pk)
    requires Ranked(m2, rank) && Tidy(m2, rank, m0[x].children[i])
    requires Effect(m2, r, {}, {}, q)
    ensures Ranked(r, rank) && x in r && i < |r[x].children| && Slotted(r, rank, x, i)
  {
    var k := m0[x].children[i];
    ChildPlaced(m0, m1, m2, rank, x, i, pk);
    TidyArrows(m2, r, rank, q, k);
    SameStructureTrans(m0, m2, r);
    SameStructureFields(m0, r, x);
    PlacedCorner(m0[x], r[x], i, m0[k], r[k]);
  }

  /** Child i keeps the corner its slot gave it and its size while it draws itself; x stays where it is. */
  lemma ChildPlaced(m0: map<Id, Node>, m1: map<Id, Node>, m2: map<Id, Node>, rank: map<Id, nat>, x: Id, i: nat, pk: set<Id>)
    requires Ranked(m0, rank) && x in m0 && i < |m0[x].children| && m0[x].children[i] in m0
    requires Fresh(m0[m0[x].children[i]])
    requires m1 == m0[m0[x].children[i] := Placed(m0[x], i, m0[m0[x].children[i]])]
    requires var s := ReachSet(m1, rank, m0[x].children[i]); Effect(m1, m2, s, s - {m0[x].children[i]}, pk)
    ensures SameStructure(m0, m2) && x in m2 && m0[x].children[i] in m2
    ensures var k := m0[x].children[i];
      Corner(m2[k]) == Corner(Placed(m0[x], i, m0[k])) && Size(m2[k]) == Size(m0[k]) && Corner(m2[x]) == Corner(m0[x])
  {
    var k := m0[x].children[i];
    PlacedCorner(m0[x], m0[x], i, m0[k], m0[k]);
    assert SameStructure(m0, m1);
    SameStructureRanked(m0, m1, rank);
    SameStructureTrans(m0, m1, m2);
    var s := ReachSet(m1, rank, k);
    assert x !in s by {
      if x in s {
        ReachedInside(m1, rank, k, x);
      }
    }
    ResizedSize(m0[k], m1[k]);
    assert m1[x] == m0[x];
  }

  /** Redrawing arrows keeps a tidy layout tidy. */
  lemma TidyArrows(a: map<Id, Node>, b: map<Id, Node>, rank: map<Id, nat>, q: set<Id>, r: Id)
    requires Effect(a, b, {}, {}, q) && Ranked(a, rank) && r in a && Tidy(a, rank, r)
    ensures Ranked(b, rank) && Tidy(b, rank, r)
  {
    TidyFrame(a, b, rank, r);
  }

  // ----- update_size -----

  /**
   * Volume.update_size on c (rearrange_elements, then draw()) resizes
   * exactly what the drawing of c reaches, moves all of it but c, and
   * redraws the arrows into what the children's drawings reach; the rest of
   * the arena keeps its geometry and arrows, and no link changes.
   */
  lemma RelayoutEffect(nodes: map<Id, Node>, rank: map<Id, nat>, c: Id)
    requires Hierarchy(nodes, rank) && c in nodes
    ensures Effect(nodes, Relayout(nodes, c), ReachSet(nodes, rank, c), ReachSet(nodes, rank, c) - {c},
      if Lays(nodes[c].kind) then PointSet(nodes, rank, nodes[c].children) else {})
  {
    if !Lays(nodes[c].kind) {
      ReachedFlat(nodes, rank, c);
      NoEffect(nodes);
    } else {
      var kids := nodes[c].children;
      var m := Rearranged(nodes, c, {}, |kids|);
      RearrangedEffect(nodes, rank, c, {}, |kids|);
      WholeList(nodes, rank, kids);
      SameStructureHierarchy(nodes, m, rank);
      DrawnEffect(m, rank, c, {});
      var r := Drawn(m, c, {});
      RelayoutUnfold(nodes, c);
      ReachSetsSame(nodes, m, rank, c);
      ReachSetUnfold(nodes, rank, c);
      TwoPasses(nodes, m, r, AmongSet(nodes, rank, kids), PointSet(nodes, rank, kids), ReachSet(nodes, rank, c), c);
    }
  }

  /** update_size of a StructBlock or StackQueue: every turn of rearrange_elements, then draw(). */
  lemma RelayoutUnfold(nodes: map<Id, Node>, c: Id)
    requires c in nodes && Lays(nodes[c].kind)
    ensures Rearranged.requires(nodes, c, {}, |nodes[c].children|)
    ensures Relayout(nodes, c) == Drawn(Rearranged(nodes, c, {}, |nodes[c].children|), c, {})
  {
  }

  /** The first rearrange's effect is contained in the drawing's that follows it. */
  lemma TwoPasses(n: map<Id, Node>, m: map<Id, Node>, r: map<Id, Node>, a: set<Id>, pa: set<Id>, rc: set<Id>, c: Id)
    requires Effect(n, m, a, a, pa) && Effect(m, r, rc, rc - {c}, pa) && rc == {c} + a && c !in a
    ensures Effect(n, r, rc, rc - {c}, pa)
  {
    EffectTrans(n, m, r, a, a, pa, rc, rc - {c}, pa);
    assert a + rc == rc && a + (rc - {c}) == rc - {c} && pa + pa == pa;
  }

  /**
   * After update_size on c, the layout c's drawing reaches is tidy: each
   * element has its drawn size and each StructBlock or StackQueue has its
   * children in their slots. The first rearrange gives the children (and
   * theirs) their drawn sizes, so the placing done by draw() uses them.
   */
  lemma RelayoutLaysOut(nodes: map<Id, Node>, rank: map<Id, nat>, c: Id)
    requires Hierarchy(nodes, rank) && c in nodes
    ensures Ranked(Relayout(nodes, c), rank) && Tidy(Relayout(nodes, c), rank, c)
  {
    if !Lays(nodes[c].kind) {
      ReachedFlat(nodes, rank, c);
      assert Relayout(nodes, c) == nodes;
    } else {
      var kids := nodes[c].children;
      var m := Rearranged(nodes, c, {}, |kids|);
      RearrangedEffect(nodes, rank, c, {}, |kids|);
      WholeList(nodes, rank, kids);
      SameStructureHierarchy(nodes, m, rank);
      FirstPassFresh(nodes, m, rank, c);
      DrawnTidy(m, rank, c, {});
      RelayoutUnfold(nodes, c);
    }
  }

  /** After the first rearrange, everything below c that its drawing reaches has its drawn size. */
  lemma FirstPassFresh(nodes: map<Id, Node>, m: map<Id, Node>, rank: map<Id, nat>, c: Id)
    requires Ranked(nodes, rank) && c in nodes && Lays(nodes[c].kind)
    requires var a := AmongSet(nodes, rank, nodes[c].children); Effect(nodes, m, a, a, PointSet(nodes, rank, nodes[c].children))
    ensures Ranked(m, rank) && c in m && forall d :: d in ReachSet(m, rank, c) && d != c ==> Fresh(m[d])
  {
    ReachSetsSame(nodes, m, rank, c);
    ReachSetUnfold(nodes, rank, c);
    forall d | d in ReachSet(m, rank, c) && d != c ensures Fresh(m[d]) {
      assert d in AmongSet(nodes, rank, nodes[c].children);
      ResizedSize(nodes[d], nodes[d]);
      assert Skeleton(m[d]) == Skeleton(nodes[d]);
      ResizedSize(Resized(nodes[d]), m[d]);
    }
  }

  /** Two tidy layouts of the same structure that agree on a reached element's corner and on all reached sizes agree on the corners below it. */
  lemma {:induction false} TidyUnique(a: map<Id, Node>, b: map<Id, Node>, rank: map<Id, nat>, c: Id, p: Id, d: Id)
    requires SameStructure(a, b) && Ranked(a, rank) && Ranked(b, rank) && c in a && p in a
    requires Tidy(a, rank, c) && Tidy(b, rank, c) && Reached(a, rank, c, p)
    requires forall t :: t in ReachSet(a, rank, c) ==> Size(a[t]) == Size(b[t])
    requires Corner(a[p]) == Corner(b[p]) && Reached(a, rank, p, d)
    ensures d in a && Corner(a[d]) == Corner(b[d])
    decreases rank[p]
  {
    ReachedInside(a, rank, p, d);
    if p != d {
      var j := ChildToward(a, rank, p, d);
      var k := a[p].children[j];
      ChildSlotSame(a, b, rank, c, p, j);
      ReachedThroughChild(a, rank, p, k, k);
      ReachedTrans(a, rank, c, p, k);
      TidyUnique(a, b, rank, c, k, d);
    }
  }

  /** The child of p through which p's drawing reaches d. */
  lemma ChildToward(nodes: map<Id, Node>, rank: map<Id, nat>, p: Id, d: Id) returns (j: nat)
    requires Ranked(nodes, rank) && p in nodes && Reached(nodes, rank, p, d) && p != d
    ensures Lays(nodes[p].kind) && j < |nodes[p].children| && nodes[p].children[j] in nodes
    ensures Reached(nodes, rank, nodes[p].children[j], d)
  {
    var k :| k in nodes[p].children && k in nodes && Reached(nodes, rank, k, d);
    j :| 0 <= j < |nodes[p].children| && nodes[p].children[j] == k;
  }

  /** In two tidy layouts, a reached container with the same corner puts child j at the same corner. */
  lemma ChildSlotSame(a: map<Id, Node>, b: map<Id, Node>, rank: map<Id, nat>, c: Id, p: Id, j: nat)
    requires SameStructure(a, b) && Ranked(a, rank) && Ranked(b, rank) && c in a && p in a
    requires Tidy(a, rank, c) && Tidy(b, rank, c) && Reached(a, rank, c, p)
    requires forall t :: t in ReachSet(a, rank, c) ==> Size(a[t]) == Size(b[t])
    requires Corner(a[p]) == Corner(b[p]) && Lays(a[p].kind) && j < |a[p].children| && a[p].children[j] in a
    ensures Corner(a[a[p].children[j]]) == Corner(b[a[p].children[j]])
  {
    var k := a[p].children[j];
    SameStructureFields(a, b, p);
    ReachedSame(a, b, rank, c, p);
    assert InSlots(a, p) && InSlots(b, p);
    ReachedThroughChild(a, rank, p, k, k);
    ReachedTrans(a, rank, c, p, k);
    assert k in ReachSet(a, rank, c);
    PlacedCorner(a[p], b[p], j, a[k], b[k]);
  }

  /** Laying a container out twice gives the same arena as laying it out once. */
  lemma RelayoutIdempotent(nodes: map<Id, Node>, rank: map<Id, nat>, c: Id)
    requires Hierarchy(nodes, rank) && c in nodes
    ensures Relayout(Relayout(nodes, c), c) == Relayout(nodes, c)
  {
    var r1 := Relayout(nodes, c);
    SameStructureHierarchy(nodes, r1, rank);
    var r2 := Relayout(r1, c);
    SameStructureRanked(r1, r2, rank);
    RelayoutEffect(nodes, rank, c);
    RelayoutEffect(r1, rank, c);
    RelayoutLaysOut(nodes, rank, c);
    RelayoutLaysOut(r1, rank, c);
    ReachSetsSame(nodes, r1, rank, c);
    var rc := ReachSet(r1, rank, c);
    var pc := if Lays(r1[c].kind) then PointSet(r1, rank, r1[c].children) else {};
    assert Effect(nodes, r1, rc, rc - {c}, pc) && Effect(r1, r2, rc, rc - {c}, pc);
    SizesKept(r1, r2, rank, c, pc);
    forall t | t in r1 ensures t in r2 && r2[t] == r1[t] {
      NodeKept(nodes, r1, r2, rank, c, pc, t);
    }
    ArenaEq(r1, r2);
  }

  /** Two arenas with the same elements, each the same node, are equal. */
  lemma ArenaEq(a: map<Id, Node>, b: map<Id, Node>)
    requires a.Keys == b.Keys && forall t :: t in a ==> a[t] == b[t]
    ensures a == b
  {
  }

  /** A second update_size finds every reached element at its drawn size and leaves it so. */
  lemma SizesKept(r1: map<Id, Node>, r2: map<Id, Node>, rank: map<Id, nat>, c: Id, pc: set<Id>)
    requires Ranked(r1, rank) && c in r1 && Tidy(r1, rank, c)
    requires Effect(r1, r2, ReachSet(r1, rank, c), ReachSet(r1, rank, c) - {c}, pc)
    ensures forall t :: t in ReachSet(r1, rank, c) ==> Size(r1[t]) == Size(r2[t])
  {
    forall t | t in ReachSet(r1, rank, c) ensures Size(r1[t]) == Size(r2[t]) {
      assert Reached(r1, rank, c, t);
    }
  }

  /** A second update_size changes no element: sizes, corners and arrows are already what it gives. */
  lemma NodeKept(nodes: map<Id, Node>, r1: map<Id, Node>, r2: map<Id, Node>, rank: map<Id, nat>, c: Id, pc: set<Id>, t: Id)
    requires Ranked(r1, rank) && Ranked(r2, rank) && c in r1 && t in nodes
    requires Effect(nodes, r1, ReachSet(r1, rank, c), ReachSet(r1, rank, c) - {c}, pc)
    requires Effect(r1, r2, ReachSet(r1, rank, c), ReachSet(r1, rank, c) - {c}, pc)
    requires Tidy(r1, rank, c) && Tidy(r2, rank, c)
    requires forall t :: t in ReachSet(r1, rank, c) ==> Size(r1[t]) == Size(r2[t])
    ensures t in r1 && t in r2 && r2[t] == r1[t]
  {
    SameStructureFields(nodes, r1, t);
    SameStructureFields(r1, r2, t);
    if t in ReachSet(r1, rank, c) {
      assert Reached(r1, rank, c, c);
      TidyUnique(r1, r2, rank, c, c, t);
    }
    NodeEq(r1[t], r2[t]);
  }

  /** After update_size on a StructBlock or StackQueue c, child i sits in slot i by its drawn size, and has that size. */
  lemma RelayoutPlacesChild(nodes: map<Id, Node>, rank: map<Id, nat>, c: Id, i: nat)
    requires Hierarchy(nodes, rank) && c in nodes && Lays(nodes[c].kind) && i < |nodes[c].children|
    ensures var r, k := Relayout(nodes, c), nodes[c].children[i];
      k in nodes && k in r && Size(r[k]) == Size(Resized(nodes[k]))
      && Corner(r[k]) == Corner(Placed(nodes[c], i, Resized(nodes[k])))
  {
    var r, k := Relayout(nodes, c), nodes[c].children[i];
    RelayoutEffect(nodes, rank, c);
    RelayoutLaysOut(nodes, rank, c);
    SameStructureFields(nodes, r, c);
    ReachedThroughChild(nodes, rank, c, k, k);
    assert k in ReachSet(nodes, rank, c);
    assert Reached(r, rank, c, c);
    assert InSlots(r, c);
    ResizedSize(nodes[c], nodes[c]);
    PlacedCorner(r[c], nodes[c], i, r[k], Resized(nodes[k]));
  }

  /** An element without a container is reached by no other element's drawing. */
  lemma {:induction false} OrphanNotReached(nodes: map<Id, Node>, rank: map<Id, nat>, c: Id, e: Id)
    requires Hierarchy(nodes, rank) && c in nodes && e in nodes && nodes[e].parent == None && c != e
    ensures !Reached(nodes, rank, c, e)
    decreases rank[c]
  {
    if Reached(nodes, rank, c, e) {
      var k :| k in nodes[c].children && k in nodes && Reached(nodes, rank, k, e);
      OrphanNotReached(nodes, rank, k, e);
    }
  }

  /**
   * Volume.remove_element leaves the removed element where it was, with its
   * size: the element has left the container, so laying the container out
   * does not reach it.
   */
  lemma RemoveElementKeepsPlace(nodes: map<Id, Node>, rank: map<Id, nat>, c: Id, e: Id)
    requires Hierarchy(nodes, rank) && c in nodes && e in nodes && c != e
    ensures var r := RemoveElement(nodes, c, e); e in r && Corner(r[e]) == Corner(nodes[e]) && Size(r[e]) == Size(nodes[e])
  {
    if e in nodes[c].children {
      var d := Detach(nodes, c, e);
      DetachChildrenLinked(nodes, c, e);
      DetachRanked(nodes, rank, c, e);
      DetachAt(nodes, c, e, e);
      OrphanNotReached(d, rank, c, e);
      RelayoutEffect(d, rank, c);
    }
  }

  /**
   * Volume.remove_element redraws no arrow that points at the removed
   * element: laying the container out afterwards reaches neither it nor,
   * through it, its pointers.
   */
  lemma RemoveElementKeepsArrow(nodes: map<Id, Node>, rank: map<Id, nat>, c: Id, e: Id, q: Id)
    requires Hierarchy(nodes, rank) && PointerLinks(nodes) && c in nodes && e in nodes && c != e
    requires q in nodes && nodes[q].target == Some(e)
    ensures var r := RemoveElement(nodes, c, e); q in r && r[q].arrow == nodes[q].arrow
  {
    if e in nodes[c].children {
      var d := Detach(nodes, c, e);
      DetachChildrenLinked(nodes, c, e);
      DetachRanked(nodes, rank, c, e);
      DetachAt(nodes, c, e, q);
      DetachAt(nodes, c, e, c);
      RelayoutEffect(d, rank, c);
      if Lays(d[c].kind) && q in PointSet(d, rank, d[c].children) {
        var k, t :| k in d[c].children && k in d && t in d && Reached(d, rank, k, t) && q in d[t].pointers;
        DetachAt(nodes, c, e, t);
        assert IncomingTarget(nodes);
        assert nodes[q].target == Some(t);
        ReachedThroughChild(d, rank, c, k, e);
        DetachAt(nodes, c, e, e);
        OrphanNotReached(d, rank, c, e);
      }
    }
  }
}
