/**
 * The JSON document of DataStructureCanvas.save_to_file and load_from_file:
 * one record per element (BaseElement.to_dict and the subclasses' additions),
 * the element classes' from_dict constructors, and the load as three passes
 * over a growing arena: create every element depth first, adding each child
 * to its container as soon as the child exists; link every pointer cell to
 * the element its saved target uuid names; keep the parentless elements as
 * the canvas list, and draw it once more (refresh_all).
 */
module Document {
  import opened Wrappers
  import opened Geometry
  import opened Arena
  import opened Tree

  /**
   * One JSON object of the file. `None` stands for a key the object does not
   * have (or whose value is null); `kind` is the "type" key, `parentUuid`
   * "parent_uuid", `targetUuid` "target_uuid", `isStack` "is_stack" and
   * `elements` the list of child objects that Volume.to_dict adds.
   */
  datatype Record = Record(
    kind: Option<string>,
    uuid: Option<Id>,
    x: Option<real>, y: Option<real>,
    name: Option<string>,
    width: Option<real>, height: Option<real>,
    parentUuid: Option<Id>,
    value: Option<string>,
    targetUuid: Option<Id>,
    isStack: Option<bool>,
    elements: ElementsKey)

  /** The "elements" key of a record and the child records it lists. */
  datatype ElementsKey = Missing | Present(list: seq<Record>)

  /** The "type" key: the class name of the element. */
  function KindName(k: Kind): (s: string)
    ensures ParseKind(Some(s)) == Some(k)
  {
    match k
    case DataCell => "DataCell"
    case PointerCell => "PointerCell"
    case Volume => "Volume"
    case StructBlock => "StructBlock"
    case StackQueue => "StackQueue"
  }

  /** The class create_element picks for a "type" key; None for any other value. */
  function ParseKind(t: Option<string>): Option<Kind>
  {
    if t == Some("DataCell") then Some(DataCell)
    else if t == Some("PointerCell") then Some(PointerCell)
    else if t == Some("StructBlock") then Some(StructBlock)
    else if t == Some("StackQueue") then Some(StackQueue)
    else if t == Some("Volume") then Some(Volume)
    else None
  }

  /** dict.get(key, default). */
  function GetOr<T>(o: Option<T>, d: T): T
  {
    if o.Some? then o.value else d
  }

  /** The keys the from_dict of class k reads with `data[key]`, so that a missing one raises KeyError. */
  predicate HasRequiredKeys(k: Kind, rec: Record)
  {
    rec.uuid.Some? && rec.x.Some? && rec.y.Some? &&
    (k != StackQueue ==> rec.name.Some?) &&
    (k == DataCell ==> rec.value.Some?) &&
    (k == Volume ==> rec.width.Some? && rec.height.Some?)
  }

  /** What the element constructors leave unset: no parent, no children, no incoming pointers, no target. */
  predicate Unlinked(n: Node)
  {
    n.parent == None && n.children == [] && n.pointers == [] && n.target == None
  }

  /**
   * The from_dict of the class named by the record's "type" key (DataCell,
   * PointerCell, StructBlock, StackQueue, Volume): None for any other type,
   * a KeyError for a missing key the class reads with `data[key]`, and
   * otherwise the element under its saved uuid.
   */
  function FromRecord(rec: Record): (r: Result<Option<(Id, Node)>>)
    ensures ParseKind(rec.kind).None? <==> r == Success(None)
    ensures r.Failure? <==> ParseKind(rec.kind).Some? && !HasRequiredKeys(ParseKind(rec.kind).value, rec)
    ensures r.Success? && r.value.Some? ==>
      var (id, n) := r.value.value;
      && rec.uuid == Some(id) && Unlinked(n) && Some(n.kind) == ParseKind(rec.kind)
      && rec.x == Some(n.x) && rec.y == Some(n.y) && !n.arrow
  {
    var k := ParseKind(rec.kind);
    if k.None? then Success(None)
    else if !HasRequiredKeys(k.value, rec) then Failure("KeyError")
    else
      var id, x, y := rec.uuid.value, rec.x.value, rec.y.value;
      match k.value
      case DataCell => Success(Some((id, NewDataCell(x, y, rec.name.value, rec.value.value))))
      case PointerCell => Success(Some((id, NewPointerCell(x, y, rec.name.value))))
      case StructBlock =>
        var n := NewStructBlock(x, y, rec.name.value);
        Success(Some((id, n.(width := GetOr(rec.width, 230.0), height := GetOr(rec.height, 120.0)))))
      case StackQueue =>
        var s := GetOr(rec.isStack, true);
        var n := NewStackQueue(x, y, GetOr(rec.name, if s then "Stack" else "Queue"), s);
        Success(Some((id, n.(width := GetOr(rec.width, 150.0), height := GetOr(rec.height, 100.0)))))
      case Volume => Success(Some((id, NewVolume(x, y, rec.name.value, rec.width.value, rec.height.value))))
  }

  // ----- load_from_file, pass 1: create_element -----

  /**
   * The state create_element builds up: the arena standing for uuid_map and
   * the element objects, all_elements in creation order, and `tmp`, the saved
   * target uuid of every pointer cell.
   */
  datatype Loading = Loading(nodes: map<Id, Node>, all: seq<Id>, targets: map<Id, Option<Id>>)

  /**
   * create_element on one record: an unknown type gives None and its children
   * are never looked at; a missing key raises; otherwise the element is
   * registered and its children are created one after the other, each added
   * to it as soon as it exists. Two records with one uuid are refused (the
   * arena keeps one element per uuid).
   */
  ghost function Create(rec: Record, s: Loading): (r: Result<(Loading, Option<Id>)>)
    ensures r.Success? ==> s.nodes.Keys <= r.value.0.nodes.Keys
    ensures r.Success? && r.value.1.Some? ==> r.value.1.value in r.value.0.nodes && r.value.1.value !in s.nodes
    decreases rec, 1
  {
    match FromRecord(rec)
    case Failure(err) => Failure(err)
    case Success(None) => Success((s, None))
    case Success(Some((id, n))) =>
      if id in s.nodes then Failure("duplicate uuid")
      else
        var targets := if n.kind == PointerCell then s.targets[id := rec.targetUuid] else s.targets;
        var s1 := Loading(s.nodes[id := n], s.all + [id], targets);
        if rec.elements.Missing? then Success((s1, Some(id)))
        else
          match AddChildren(rec, id, 0, s1)
          case Failure(err) => Failure(err)
          case Success(s2) => Success((s2, Some(id)))
  }

  /**
   * The loop over a record's "elements" from the i-th child on: each child
   * record is created and, unless its type was unknown, added to container c
   * with Volume.add_element. A cell has no add_element, so a cell record whose
   * list yields an element raises AttributeError.
   */
  ghost function AddChildren(rec: Record, c: Id, i: nat, s: Loading): (r: Result<Loading>)
    requires rec.elements.Present? && i <= |rec.elements.list| && c in s.nodes
    ensures r.Success? ==> s.nodes.Keys <= r.value.nodes.Keys
    decreases rec, 0, |rec.elements.list| - i
  {
    var kids := rec.elements.list;
    if i == |kids| then Success(s)
    else
      match Create(kids[i], s)
      case Failure(err) => Failure(err)
      case Success((s1, None)) => AddChildren(rec, c, i + 1, s1)
      case Success((s1, Some(e))) =>
        if !IsVolume(s1.nodes[c].kind) then Failure("AttributeError")
        else
          AddElementKeys(s1.nodes, c, e);
          AddChildren(rec, c, i + 1, s1.(nodes := AddElement(s1.nodes, c, e)))
  }

  /** Volume.add_element neither creates nor removes an element. */
  lemma AddElementKeys(nodes: map<Id, Node>, c: Id, e: Id)
    requires c in nodes && e in nodes
    ensures AddElement(nodes, c, e).Keys == nodes.Keys
  {
    if nodes[e].parent == None {
      var n1 := nodes[e := nodes[e].(parent := Some(c))];
      assert n1.Keys == nodes.Keys;
    }
  }

  /** The top-level loop of pass 1 from the i-th record on. */
  ghost function CreateAll(recs: seq<Record>, i: nat, s: Loading): (r: Result<Loading>)
    requires i <= |recs|
    decreases |recs| - i
  {
    if i == |recs| then Success(s)
    else
      match Create(recs[i], s)
      case Failure(err) => Failure(err)
      case Success((s1, _)) => CreateAll(recs, i + 1, s1)
  }

  // ----- pass 2: the arrows -----

  /**
   * One step of the second loop: a pointer cell whose saved target uuid is
   * set and non-empty (Python truthiness) gets create_arrow to the element of
   * that uuid; a uuid that names no loaded element hands None to create_arrow,
   * which raises. Every other element is left alone.
   */
  function LinkOne(m: map<Id, Node>, p: Id, targets: map<Id, Option<Id>>): (r: Result<map<Id, Node>>)
    ensures r.Success? ==> r.value.Keys == m.Keys
  {
    if p in m && m[p].kind == PointerCell && p in targets && targets[p].Some? && targets[p].value != "" then
      var t := targets[p].value;
      if t in m then LinkKeys(m, p, t); Success(Link(m, p, t)) else Failure("AttributeError")
    else Success(m)
  }

  lemma LinkKeys(m: map<Id, Node>, p: Id, t: Id)
    requires p in m && t in m
    ensures Link(m, p, t).Keys == m.Keys
  {
    forall q | q in m ensures q in Link(m, p, t) {
      LinkAt(m, p, t, q);
    }
  }

  /** The second loop from the i-th created element on. */
  function LinkFrom(m: map<Id, Node>, all: seq<Id>, targets: map<Id, Option<Id>>, i: nat): (r: Result<map<Id, Node>>)
    requires i <= |all|
    ensures r.Success? ==> r.value.Keys == m.Keys
    decreases |all| - i
  {
    if i == |all| then Success(m)
    else
      match LinkOne(m, all[i], targets)
      case Failure(err) => Failure(err)
      case Success(m1) => LinkFrom(m1, all, targets, i + 1)
  }

  // ----- pass 3: the canvas list and refresh_all -----

  /** `[elem for elem in all_elements if not elem.parent]`. */
  function Roots(m: map<Id, Node>, all: seq<Id>): (r: seq<Id>)
    ensures forall x :: x in r ==> x in all && x in m && m[x].parent == None
  {
    if all == [] then []
    else
      var x := all[|all| - 1];
      Roots(m, all[..|all| - 1]) + if x in m && m[x].parent == None then [x] else []
  }

  /** draw() on each of ids in turn: a StructBlock or StackQueue takes its size and lays its children out. */
  ghost function DrawAll(m: map<Id, Node>, ids: seq<Id>): (r: map<Id, Node>)
    ensures SameStructure(m, r)
  {
    if ids == [] then m
    else
      var m1 := DrawAll(m, ids[..|ids| - 1]);
      var c := ids[|ids| - 1];
      if c in m1 then SameStructureTrans(m, m1, Drawn(m1, c, {})); Drawn(m1, c, {}) else m1
  }

  /** The second loop of refresh_all: draw() on the children of each container of ids. */
  ghost function DrawChildren(m: map<Id, Node>, ids: seq<Id>): (r: map<Id, Node>)
    ensures SameStructure(m, r)
  {
    if ids == [] then m
    else
      var m1 := DrawChildren(m, ids[..|ids| - 1]);
      var c := ids[|ids| - 1];
      if c in m1 && IsVolume(m1[c].kind) then
        var m2 := DrawAll(m1, m1[c].children);
        SameStructureTrans(m, m1, m2);
        m2
      else m1
  }

  /** refresh_all: draw the canvas list, then the children of its containers (the arrows are only lifted). */
  ghost function RefreshAll(m: map<Id, Node>, elements: seq<Id>): (r: map<Id, Node>)
    ensures SameStructure(m, r)
  {
    var m1 := DrawAll(m, elements);
    var m2 := DrawChildren(m1, elements);
    SameStructureTrans(m, m1, m2);
    m2
  }

  /** The arena before a load: load_from_file starts from nothing but the file. */
  const Empty := Loading(map[], [], map[])

  /**
   * load_from_file on the parsed file: the arena after the three passes and
   * the new canvas list, or the exception that stops the load.
   */
  ghost function Decode(recs: seq<Record>): Result<(map<Id, Node>, seq<Id>)>
  {
    match CreateAll(recs, 0, Empty)
    case Failure(err) => Failure(err)
    case Success(s) =>
      match LinkFrom(s.nodes, s.all, s.targets, 0)
      case Failure(err) => Failure(err)
      case Success(m) =>
        var top := Roots(m, s.all);
        Success((RefreshAll(m, top), top))
  }

  // ----- one turn of each loop, for the methods that run them -----

  /** One turn of the top-level loop of pass 1. */
  lemma CreateAllTurn(recs: seq<Record>, i: nat, s: Loading)
    requires i < |recs|
    ensures var r := Create(recs[i], s);
      && (r.Failure? ==> CreateAll(recs, i, s) == Failure(r.error))
      && (r.Success? ==> CreateAll(recs, i, s) == CreateAll(recs, i + 1, r.value.0))
  {
  }

  /** One turn of the child loop of create_element that does not add a child. */
  lemma AddChildrenTurn(rec: Record, c: Id, i: nat, s: Loading)
    requires rec.elements.Present? && i < |rec.elements.list| && c in s.nodes
    ensures var r := Create(rec.elements.list[i], s);
      && (r.Failure? ==> AddChildren(rec, c, i, s) == Failure(r.error))
      && (r.Success? && r.value.1.None? ==> AddChildren(rec, c, i, s) == AddChildren(rec, c, i + 1, r.value.0))
      && (r.Success? && r.value.1.Some? && !IsVolume(r.value.0.nodes[c].kind) ==>
            AddChildren(rec, c, i, s) == Failure("AttributeError"))
  {
  }

  /** create_element on a record of a known type with a fresh uuid and an "elements" key: the element, then its children. */
  lemma CreateWithChildren(rec: Record, s: Loading, id: Id, n: Node)
    requires FromRecord(rec) == Success(Some((id, n))) && id !in s.nodes && rec.elements.Present?
    ensures var targets := if n.kind == PointerCell then s.targets[id := rec.targetUuid] else s.targets;
      var r := AddChildren(rec, id, 0, Loading(s.nodes[id := n], s.all + [id], targets));
      && (r.Failure? ==> Create(rec, s) == Failure(r.error))
      && (r.Success? ==> Create(rec, s) == Success((r.value, Some(id))))
  {
  }

  /** One turn of the second loop. */
  lemma LinkFromTurn(m: map<Id, Node>, all: seq<Id>, targets: map<Id, Option<Id>>, i: nat)
    requires i < |all|
    ensures var r := LinkOne(m, all[i], targets);
      && (r.Failure? ==> LinkFrom(m, all, targets, i) == Failure(r.error))
      && (r.Success? ==> LinkFrom(m, all, targets, i) == LinkFrom(r.value, all, targets, i + 1))
  {
  }

  /** One more element considered by the list comprehension of pass 3. */
  lemma RootsStep(m: map<Id, Node>, all: seq<Id>, i: nat)
    requires i < |all|
    ensures Roots(m, all[..i + 1]) == Roots(m, all[..i]) + if all[i] in m && m[all[i]].parent == None then [all[i]] else []
  {
    assert all[..i + 1][..i] == all[..i];
  }

  /** The comprehension keeps every parentless element it is given, each once if it was given once. */
  lemma {:induction false} RootsMembers(m: map<Id, Node>, all: seq<Id>)
    ensures NoDup(all) ==> NoDup(Roots(m, all))
    ensures forall y :: y in all && y in m && m[y].parent == None ==> y in Roots(m, all)
  {
    if all != [] {
      var init, x := all[..|all| - 1], all[|all| - 1];
      RootsMembers(m, init);
      InitLast(all);
      if NoDup(all) {
        NoDupTail(all);
        if x in m && m[x].parent == None {
          assert x !in init;
          NoDupSnoc(Roots(m, init), x);
        }
      }
    }
  }

  /** draw() on one more element of ids. */
  lemma DrawAllStep(m: map<Id, Node>, ids: seq<Id>, i: nat)
    requires i < |ids|
    ensures var m1 := DrawAll(m, ids[..i]);
      DrawAll(m, ids[..i + 1]) == if ids[i] in m1 then Drawn(m1, ids[i], {}) else m1
  {
    assert ids[..i + 1][..i] == ids[..i];
  }

  /** The children of one more container of ids drawn. */
  lemma DrawChildrenStep(m: map<Id, Node>, ids: seq<Id>, i: nat)
    requires i < |ids|
    ensures var m1 := DrawChildren(m, ids[..i]);
      DrawChildren(m, ids[..i + 1]) == if ids[i] in m1 && IsVolume(m1[ids[i]].kind) then DrawAll(m1, m1[ids[i]].children) else m1
  {
    assert ids[..i + 1][..i] == ids[..i];
  }

  // ----- save_to_file: to_dict and collect_elements -----

  /**
   * to_dict of element id: the base keys, "value" for a DataCell,
   * "target_uuid" for a PointerCell (null without a target) and "is_stack"
   * for a StackQueue; the child records are collect_elements' business.
   */
  function ToDict(id: Id, n: Node): (r: Record)
    ensures r.uuid == Some(id) && ParseKind(r.kind) == Some(n.kind) && r.parentUuid == n.parent
    ensures r.targetUuid.Some? <==> n.kind == PointerCell && n.target.Some?
    ensures r.elements.Missing?
  {
    Record(Some(KindName(n.kind)), Some(id), Some(n.x), Some(n.y), Some(n.name), Some(n.width), Some(n.height),
      n.parent,
      if n.kind == DataCell then Some(n.value) else None,
      if n.kind == PointerCell then n.target else None,
      if n.kind == StackQueue then Some(n.isStack) else None,
      Missing)
  }

  /** The record collect_elements writes for element id: to_dict, with the records of a container's children under "elements". */
  ghost function RecordOf(nodes: map<Id, Node>, rank: map<Id, nat>, id: Id): (r: Record)
    requires ChildrenLinked(nodes) && Ranked(nodes, rank) && id in nodes
    ensures r.uuid == Some(id) && ParseKind(r.kind) == Some(nodes[id].kind)
    ensures r.elements.Present? <==> IsVolume(nodes[id].kind)
    ensures r.elements.Present? ==> |r.elements.list| == |nodes[id].children|
    decreases rank[id]
  {
    var n := nodes[id];
    if IsVolume(n.kind) then
      ToDict(id, n).(elements := Present(seq(|n.children|, i requires 0 <= i < |n.children| => RecordOf(nodes, rank, n.children[i]))))
    else ToDict(id, n)
  }

  /** collect_elements on the list ids. */
  ghost function Encode(nodes: map<Id, Node>, rank: map<Id, nat>, ids: seq<Id>): (r: seq<Record>)
    requires ChildrenLinked(nodes) && Ranked(nodes, rank) && forall x :: x in ids ==> x in nodes
    ensures |r| == |ids| && forall i :: 0 <= i < |ids| ==> r[i].uuid == Some(ids[i])
  {
    seq(|ids|, i requires 0 <= i < |ids| => RecordOf(nodes, rank, ids[i]))
  }

  /** The record of a container holds the records of its children in order. */
  lemma RecordOfIs(nodes: map<Id, Node>, rank: map<Id, nat>, id: Id)
    requires ChildrenLinked(nodes) && Ranked(nodes, rank) && id in nodes
    ensures var n := nodes[id];
      RecordOf(nodes, rank, id) ==
        if IsVolume(n.kind) then ToDict(id, n).(elements := Present(Encode(nodes, rank, n.children))) else ToDict(id, n)
  {
  }

  /** collect_elements on one more element. */
  lemma EncodeStep(nodes: map<Id, Node>, rank: map<Id, nat>, ids: seq<Id>, i: nat)
    requires ChildrenLinked(nodes) && Ranked(nodes, rank) && i < |ids| && forall x :: x in ids ==> x in nodes
    ensures Encode(nodes, rank, ids[..i + 1]) == Encode(nodes, rank, ids[..i]) + [RecordOf(nodes, rank, ids[i])]
  {
  }

  // ----- what save and load keep: one element -----

  /** The fields no operation of the editor changes for the wrong kind: only a DataCell holds a value, only a StackQueue is a stack. */
  predicate Canonical(n: Node)
  {
    (n.kind != DataCell ==> n.value == "") && (n.kind != StackQueue ==> !n.isStack)
  }

  ghost predicate AllCanonical(nodes: map<Id, Node>)
  {
    forall id :: id in nodes ==> Canonical(nodes[id])
  }

  /**
   * from_dict(to_dict(e)) rebuilds element e under its own uuid, with its
   * kind, name, value, stack flag and position, and, for a container, its
   * size; only the links (parent, children, pointers, target) are left for
   * the load to restore.
   */
  lemma FromRecordOf(nodes: map<Id, Node>, rank: map<Id, nat>, id: Id)
    requires ChildrenLinked(nodes) && Ranked(nodes, rank) && id in nodes && Canonical(nodes[id])
    ensures var r := FromRecord(RecordOf(nodes, rank, id));
      && r.Success? && r.value.Some? && r.value.value.0 == id
      && Skeleton(r.value.value.1) == Skeleton(nodes[id]).(parent := None, children := [], pointers := [], target := None)
      && r.value.value.1.x == nodes[id].x && r.value.value.1.y == nodes[id].y
      && (IsVolume(nodes[id].kind) ==> r.value.value.1.width == nodes[id].width && r.value.value.1.height == nodes[id].height)
  {
  }

  // ----- what save and load keep: pass 1 -----

  /** An element without its geometry, arrow flag and pointer links. */
  function Bare(n: Node): Node
  {
    Skeleton(n).(pointers := [], target := None)
  }

  /** Element y as pass 1 rebuilds it: everything the arena says except the pointer links. */
  ghost function Final(orig: map<Id, Node>, y: Id): Node
    requires y in orig
  {
    Bare(orig[y])
  }

  /**
   * Element y while the subtree of x is being created and x holds its first
   * k children: x itself has no parent yet.
   */
  ghost function Expected(orig: map<Id, Node>, x: Id, k: nat, y: Id): Node
    requires x in orig && y in orig && k <= |orig[x].children|
  {
    if y == x then Final(orig, x).(parent := None, children := orig[x].children[..k]) else Final(orig, y)
  }

  /** The saved target uuids of the pointer cells among keys: the `tmp` of load_from_file. */
  ghost function TargetsOf(orig: map<Id, Node>, keys: set<Id>): map<Id, Option<Id>>
  {
    map y | y in keys && y in orig && orig[y].kind == PointerCell :: orig[y].target
  }

  /** The elements inside x in the order create_element reaches them: x, then each child's subtree. */
  ghost function PreOrder(orig: map<Id, Node>, rank: map<Id, nat>, x: Id): seq<Id>
    requires ChildrenLinked(orig) && Ranked(orig, rank) && x in orig
    decreases rank[x], 1
  {
    [x] + PreOrderKids(orig, rank, x, |orig[x].children|)
  }

  /** The subtrees of x's first k children, in order. */
  ghost function PreOrderKids(orig: map<Id, Node>, rank: map<Id, nat>, x: Id, k: nat): seq<Id>
    requires ChildrenLinked(orig) && Ranked(orig, rank) && x in orig && k <= |orig[x].children|
    decreases rank[x], 0, k
  {
    if k == 0 then [] else PreOrderKids(orig, rank, x, k - 1) + PreOrder(orig, rank, orig[x].children[k - 1])
  }

  /** The subtrees of the elements ids, in order. */
  ghost function PreOrderAll(orig: map<Id, Node>, rank: map<Id, nat>, ids: seq<Id>): seq<Id>
    requires ChildrenLinked(orig) && Ranked(orig, rank) && forall y :: y in ids ==> y in orig
  {
    if ids == [] then [] else PreOrderAll(orig, rank, ids[..|ids| - 1]) + PreOrder(orig, rank, ids[|ids| - 1])
  }

  /** all_elements lists each created element once. */
  ghost predicate Listing(s: Loading)
  {
    NoDup(s.all) && forall y :: y in s.all <==> y in s.nodes
  }

  /**
   * The state once the subtree of x has been created from s0 up to x's k-th
   * child: the subtree so far is new, nothing older changed, every new
   * element is as Expected, and all_elements and tmp grew accordingly.
   */
  ghost predicate Built(orig: map<Id, Node>, rank: map<Id, nat>, x: Id, k: nat, s0: Loading, s: Loading)
    requires ChildrenLinked(orig) && Ranked(orig, rank) && x in orig && k <= |orig[x].children|
  {
    var made := {x} + Covered(orig, rank, orig[x].children[..k]);
    && s.nodes.Keys == s0.nodes.Keys + made
    && (forall y :: y in s0.nodes ==> y in s.nodes && Skeleton(s.nodes[y]) == Skeleton(s0.nodes[y]))
    && (forall y :: y in made ==> y in orig && y in s.nodes && Skeleton(s.nodes[y]) == Expected(orig, x, k, y))
    && s.all == s0.all + [x] + PreOrderKids(orig, rank, x, k)
    && s.targets == TargetsOf(orig, s.nodes.Keys)
    && Listing(s)
  }

  /** What pass 1 needs of the arena being saved. */
  ghost predicate Saveable(orig: map<Id, Node>, rank: map<Id, nat>)
  {
    ChildrenLinked(orig) && Ranked(orig, rank) && AllCanonical(orig)
  }

  lemma TargetsOfAdd(orig: map<Id, Node>, keys: set<Id>, x: Id)
    requires x in orig
    ensures TargetsOf(orig, keys + {x}) ==
      if orig[x].kind == PointerCell then TargetsOf(orig, keys)[x := orig[x].target] else TargetsOf(orig, keys)
  {
  }

  /**
   * Volume.add_element of a parentless e to c: e gets c as parent, c lists e
   * last, and nothing else changes but geometry and arrow flags.
   */
  lemma AddElementSkeleton(nodes: map<Id, Node>, c: Id, e: Id)
    requires c in nodes && e in nodes && nodes[e].parent == None && c != e
    ensures var r := AddElement(nodes, c, e);
      && r.Keys == nodes.Keys
      && Skeleton(r[e]) == Skeleton(nodes[e]).(parent := Some(c))
      && Skeleton(r[c]) == Skeleton(nodes[c]).(children := nodes[c].children + [e])
      && forall y :: y in nodes && y != c && y != e ==> Skeleton(r[y]) == Skeleton(nodes[y])
  {
    AddElementKeys(nodes, c, e);
    var a := Attach(nodes, c, e);
    assert a.Keys == nodes.Keys;
    assert SameStructure(a, AddElement(nodes, c, e));
  }

  /** The element create_element makes of x's record, before its children. */
  lemma CreateFirst(orig: map<Id, Node>, rank: map<Id, nat>, x: Id, s: Loading)
    requires Saveable(orig, rank) && x in orig && x !in s.nodes && Listing(s)
    requires s.targets == TargetsOf(orig, s.nodes.Keys)
    ensures var rec := RecordOf(orig, rank, x);
      var (_, n) := FromRecord(rec).value.value;
      var targets := if n.kind == PointerCell then s.targets[x := rec.targetUuid] else s.targets;
      && FromRecord(rec).Success? && FromRecord(rec).value == Some((x, n))
      && Built(orig, rank, x, 0, s, Loading(s.nodes[x := n], s.all + [x], targets))
  {
    var rec := RecordOf(orig, rank, x);
    FromRecordOf(orig, rank, x);
    var n := FromRecord(rec).value.value.1;
    var targets := if n.kind == PointerCell then s.targets[x := rec.targetUuid] else s.targets;
    var s1 := Loading(s.nodes[x := n], s.all + [x], targets);
    var kids := orig[x].children;
    assert kids[..0] == [];
    assert Covered(orig, rank, kids[..0]) == {};
    assert s1.nodes.Keys == s.nodes.Keys + {x};
    TargetsOfAdd(orig, s.nodes.Keys, x);
    assert x !in s.all;
    NoDupSnoc(s.all, x);
    assert Listing(s1);
    assert Skeleton(s1.nodes[x]) == Expected(orig, x, 0, x);
    assert n.kind == PointerCell ==> rec.targetUuid == orig[x].target;
    assert s1.targets == TargetsOf(orig, s1.nodes.Keys);
    assert s1.all == s.all + [x] + PreOrderKids(orig, rank, x, 0);
    BuiltIntro(orig, rank, x, 0, s, s1);
  }

  lemma TakeSnoc<T>(s: seq<T>, k: nat)
    requires k < |s|
    ensures s[..k + 1] == s[..k] + [s[k]]
  {
  }

  lemma Assoc<T>(a: seq<T>, b: seq<T>, c: seq<T>)
    ensures (a + b) + c == a + (b + c)
  {
  }

  lemma UnionStep<T>(k0: set<T>, k: set<T>, k1: set<T>, k2: set<T>, m: set<T>, m1: set<T>, sub: set<T>)
    requires k == k0 + m && k1 == k + sub && k2 == k1 && m1 == m + sub
    ensures k2 == k0 + m1
  {
  }

  lemma InitLast<T>(s: seq<T>)
    requires s != []
    ensures s == s[..|s| - 1] + [s[|s| - 1]]
  {
  }

  lemma TakeAll<T>(s: seq<T>)
    ensures s[..|s|] == s
  {
  }

  /** Expected with all children added, for an element other than the root, or the root once its parent adds it. */
  lemma ExpectedDone(orig: map<Id, Node>, x: Id, y: Id)
    requires x in orig && y in orig && y != x
    ensures Expected(orig, x, |orig[x].children|, y) == Final(orig, y)
  {
  }

  /** One element after x's k-th child c has been created and added to x. */
  lemma AddedChildAt(orig: map<Id, Node>, rank: map<Id, nat>, x: Id, k: nat, s: Loading, s1: Loading, y: Id)
    requires Saveable(orig, rank) && x in orig && k < |orig[x].children|
    requires var c := orig[x].children[k];
      && c in orig && c != x && x in s.nodes && c !in s.nodes
      && Built(orig, rank, c, |orig[c].children|, s, s1) && s1.nodes[c].parent == None
    requires y in {x} + Covered(orig, rank, orig[x].children[..k]) ==> y in orig && y in s.nodes && Skeleton(s.nodes[y]) == Expected(orig, x, k, y)
    requires y in Subtree(orig, rank, orig[x].children[k]) || y in {x} + Covered(orig, rank, orig[x].children[..k])
    ensures var c := orig[x].children[k];
      var r := AddElement(s1.nodes, x, c);
      y in orig && y in r && Skeleton(r[y]) == Expected(orig, x, k + 1, y)
  {
    var kids := orig[x].children;
    var c := kids[k];
    var kc := |orig[c].children|;
    AddElementSkeleton(s1.nodes, x, c);
    SubtreeSplits(orig, rank, c);
    TakeAll(orig[c].children);
    TakeSnoc(kids, k);
    if y == c {
      assert orig[c].parent == Some(x);
      assert Skeleton(s1.nodes[c]) == Expected(orig, c, kc, c);
    } else if y == x {
      assert Skeleton(s1.nodes[x]) == Skeleton(s.nodes[x]);
    } else if y in Subtree(orig, rank, c) {
      assert Skeleton(s1.nodes[y]) == Expected(orig, c, kc, y);
    } else {
      assert y in s.nodes;
      assert Skeleton(s1.nodes[y]) == Skeleton(s.nodes[y]);
    }
  }

  /** Adding the k-th child, once its subtree has been created, extends what Built says by that subtree. */
  lemma AddChildrenStep(orig: map<Id, Node>, rank: map<Id, nat>, x: Id, k: nat, s0: Loading, s: Loading, s1: Loading)
    requires Saveable(orig, rank) && x in orig && k < |orig[x].children|
    requires s0.nodes.Keys !! Subtree(orig, rank, x)
    requires Built(orig, rank, x, k, s0, s)
    requires var c := orig[x].children[k];
      c in orig && s.nodes.Keys !! Subtree(orig, rank, c) && Built(orig, rank, c, |orig[c].children|, s, s1)
    ensures var c := orig[x].children[k];
      && x in s1.nodes && c in s1.nodes && c != x && s1.nodes[c].parent == None
      && Skeleton(s1.nodes[x]) == Skeleton(s.nodes[x]) && s1.nodes[x].kind == orig[x].kind
      && Built(orig, rank, x, k + 1, s0, s1.(nodes := AddElement(s1.nodes, x, c)))
  {
    var kids := orig[x].children;
    var c := kids[k];
    var kc := |orig[c].children|;
    var madeK := {x} + Covered(orig, rank, kids[..k]);
    var madeK1 := {x} + Covered(orig, rank, kids[..k + 1]);
    var s2 := s1.(nodes := AddElement(s1.nodes, x, c));
    assert c in orig[x].children;
    BuiltRoot(orig, rank, x, k, s0, s);
    BuiltRoot(orig, rank, c, kc, s, s1);
    assert Skeleton(s1.nodes[x]) == Skeleton(s.nodes[x]);
    MadeStep(orig, rank, x, k);
    assert c !in s.nodes;
    assert s1.nodes[c].parent == None;
    AddElementSkeleton(s1.nodes, x, c);
    UnionStep(s0.nodes.Keys, s.nodes.Keys, s1.nodes.Keys, s2.nodes.Keys, madeK, madeK1, Subtree(orig, rank, c));
    OlderKept(orig, rank, x, c, s0.nodes, s.nodes, s1.nodes, s2.nodes);
    forall y | y in madeK1 ensures y in orig && y in s2.nodes && Skeleton(s2.nodes[y]) == Expected(orig, x, k + 1, y) {
      assert y in Subtree(orig, rank, c) || y in madeK;
      AddedChildAt(orig, rank, x, k, s, s1, y);
    }
    assert s2.all == s0.all + [x] + PreOrderKids(orig, rank, x, k + 1) by {
      var pk, pc := PreOrderKids(orig, rank, x, k), PreOrder(orig, rank, c);
      assert PreOrderKids(orig, rank, x, k + 1) == pk + pc;
      Assoc(s.all, [c], PreOrderKids(orig, rank, c, kc));
      assert s1.all == s.all + pc;
      Assoc(s0.all + [x], pk, pc);
    }
    ListingSameKeys(s1, s2);
    assert s2.nodes.Keys == s1.nodes.Keys;
    assert s2.targets == TargetsOf(orig, s2.nodes.Keys);
    BuiltIntro(orig, rank, x, k + 1, s0, s2);
  }

  /** Creating and adding a child of x changes nothing that existed before x. */
  lemma OlderKept(orig: map<Id, Node>, rank: map<Id, nat>, x: Id, c: Id, n0: map<Id, Node>, n: map<Id, Node>, n1: map<Id, Node>, n2: map<Id, Node>)
    requires ChildrenLinked(orig) && Ranked(orig, rank) && x in orig && c in orig[x].children && c in orig
    requires n0.Keys !! Subtree(orig, rank, x)
    requires forall y :: y in n0 ==> y in n && Skeleton(n[y]) == Skeleton(n0[y])
    requires forall y :: y in n ==> y in n1 && Skeleton(n1[y]) == Skeleton(n[y])
    requires n2.Keys == n1.Keys && forall y :: y in n1 && y != x && y != c ==> Skeleton(n2[y]) == Skeleton(n1[y])
    ensures forall y :: y in n0 ==> y in n2 && Skeleton(n2[y]) == Skeleton(n0[y])
  {
    assert InSubtree(orig, rank, x, x);
    assert InSubtree(orig, rank, c, c);
    ChildSubtree(orig, rank, x, c, c);
    assert x !in n0 && c !in n0;
  }

  /** The element whose subtree Built describes exists and is as Expected. */
  lemma BuiltRoot(orig: map<Id, Node>, rank: map<Id, nat>, x: Id, k: nat, s0: Loading, s: Loading)
    requires ChildrenLinked(orig) && Ranked(orig, rank) && x in orig && k <= |orig[x].children|
    requires Built(orig, rank, x, k, s0, s)
    ensures x in s.nodes && Skeleton(s.nodes[x]) == Expected(orig, x, k, x)
  {
    assert x in {x} + Covered(orig, rank, orig[x].children[..k]);
  }

  /** What x's first k + 1 children cover is what the first k cover plus the whole subtree of the (k+1)-th. */
  lemma MadeStep(orig: map<Id, Node>, rank: map<Id, nat>, x: Id, k: nat)
    requires ChildrenLinked(orig) && Ranked(orig, rank) && x in orig && k < |orig[x].children|
    ensures var kids := orig[x].children;
      var c := kids[k];
      && c in orig && c != x && !InSubtree(orig, rank, c, x) && c in Subtree(orig, rank, c)
      && Subtree(orig, rank, c) == {c} + Covered(orig, rank, orig[c].children[..|orig[c].children|])
      && {x} + Covered(orig, rank, kids[..k + 1]) == ({x} + Covered(orig, rank, kids[..k])) + Subtree(orig, rank, c)
  {
    var kids := orig[x].children;
    var c := kids[k];
    assert c in kids;
    NotInsideChild(orig, rank, x, c);
    SubtreeSplits(orig, rank, c);
    TakeAll(orig[c].children);
    CoveredStep(orig, rank, kids, k);
  }

  lemma BuiltIntro(orig: map<Id, Node>, rank: map<Id, nat>, x: Id, k: nat, s0: Loading, s: Loading)
    requires ChildrenLinked(orig) && Ranked(orig, rank) && x in orig && k <= |orig[x].children|
    requires var made := {x} + Covered(orig, rank, orig[x].children[..k]);
      && s.nodes.Keys == s0.nodes.Keys + made
      && (forall y :: y in s0.nodes ==> y in s.nodes && Skeleton(s.nodes[y]) == Skeleton(s0.nodes[y]))
      && (forall y :: y in made ==> y in orig && y in s.nodes && Skeleton(s.nodes[y]) == Expected(orig, x, k, y))
    requires s.all == s0.all + [x] + PreOrderKids(orig, rank, x, k)
    requires s.targets == TargetsOf(orig, s.nodes.Keys) && Listing(s)
    ensures Built(orig, rank, x, k, s0, s)
  {
  }

  lemma ListingSameKeys(s1: Loading, s2: Loading)
    requires Listing(s1) && s2.all == s1.all && s2.nodes.Keys == s1.nodes.Keys
    ensures Listing(s2)
  {
    forall y ensures y in s2.all <==> y in s2.nodes {
      assert y in s2.nodes <==> y in s1.nodes;
    }
  }

  /** The subtree of x's k-th child is still to be created once the first k are. */
  lemma NextChildFresh(orig: map<Id, Node>, rank: map<Id, nat>, x: Id, k: nat, s0: Loading, s: Loading)
    requires Saveable(orig, rank) && x in orig && k < |orig[x].children|
    requires s0.nodes.Keys !! Subtree(orig, rank, x)
    requires s.nodes.Keys == s0.nodes.Keys + ({x} + Covered(orig, rank, orig[x].children[..k]))
    ensures orig[x].children[k] in orig && s.nodes.Keys !! Subtree(orig, rank, orig[x].children[k])
  {
    var c := orig[x].children[k];
    ChildSubtreeFresh(orig, rank, x, k);
    forall y | y in Subtree(orig, rank, c) ensures y !in s0.nodes {
      ChildSubtree(orig, rank, x, c, y);
    }
  }

  /**
   * create_element on the record to_dict gives element x, in an arena where
   * nothing of x's subtree exists yet: the whole subtree is created, as
   * Built says, and x is returned.
   */
  lemma CreateSpec(orig: map<Id, Node>, rank: map<Id, nat>, x: Id, s: Loading)
    requires Saveable(orig, rank) && x in orig && s.nodes.Keys !! Subtree(orig, rank, x)
    requires s.targets == TargetsOf(orig, s.nodes.Keys) && Listing(s)
    ensures var r := Create(RecordOf(orig, rank, x), s);
      r.Success? && r.value.1 == Some(x) && Built(orig, rank, x, |orig[x].children|, s, r.value.0)
    decreases rank[x], 1
  {
    var rec := RecordOf(orig, rank, x);
    assert InSubtree(orig, rank, x, x);
    CreateFirst(orig, rank, x, s);
    var n := FromRecord(rec).value.value.1;
    var targets := if n.kind == PointerCell then s.targets[x := rec.targetUuid] else s.targets;
    var s1 := Loading(s.nodes[x := n], s.all + [x], targets);
    if IsVolume(orig[x].kind) {
      AddChildrenSpec(orig, rank, x, 0, s, s1);
    } else {
      assert orig[x].children == [];
    }
  }

  /** The loop over x's child records from the k-th on completes the subtree of x. */
  lemma AddChildrenSpec(orig: map<Id, Node>, rank: map<Id, nat>, x: Id, k: nat, s0: Loading, s: Loading)
    requires Saveable(orig, rank) && x in orig && IsVolume(orig[x].kind) && k <= |orig[x].children|
    requires s0.nodes.Keys !! Subtree(orig, rank, x)
    requires Built(orig, rank, x, k, s0, s)
    ensures x in s.nodes
    ensures var r := AddChildren(RecordOf(orig, rank, x), x, k, s);
      r.Success? && Built(orig, rank, x, |orig[x].children|, s0, r.value)
    decreases rank[x], 0, |orig[x].children| - k
  {
    var kids := orig[x].children;
    assert x in s.nodes;
    if k < |kids| {
      var rec := RecordOf(orig, rank, x);
      var c := kids[k];
      assert rec.elements.list[k] == RecordOf(orig, rank, c);
      NextChildFresh(orig, rank, x, k, s0, s);
      CreateSpec(orig, rank, c, s);
      var s1 := Create(RecordOf(orig, rank, c), s).value.0;
      AddChildrenStep(orig, rank, x, k, s0, s, s1);
      var s2 := s1.(nodes := AddElement(s1.nodes, x, c));
      AddChildrenUnfold(rec, x, k, s, s1, c);
      AddChildrenSpec(orig, rank, x, k + 1, s0, s2);
    }
  }

  /** One turn of the child loop that creates a child element and adds it to c. */
  lemma AddChildrenUnfold(rec: Record, c: Id, i: nat, s: Loading, s1: Loading, e: Id)
    requires rec.elements.Present? && i < |rec.elements.list| && c in s.nodes
    requires Create(rec.elements.list[i], s) == Success((s1, Some(e)))
    requires c in s1.nodes && IsVolume(s1.nodes[c].kind)
    ensures e in s1.nodes
    ensures AddChildren(rec, c, i, s) == AddChildren(rec, c, i + 1, s1.(nodes := AddElement(s1.nodes, c, e)))
  {
    AddElementKeys(s1.nodes, c, e);
  }

  // ----- what save and load keep: the top-level loop of pass 1 -----

  /**
   * The state once the records of the first i top-level elements have been
   * created: exactly their subtrees exist, each element as it will stay
   * until pass 2, listed in creation order.
   */
  ghost predicate TopBuilt(orig: map<Id, Node>, rank: map<Id, nat>, top: seq<Id>, i: nat, s: Loading)
    requires ChildrenLinked(orig) && Ranked(orig, rank) && TopLevel(orig, top) && i <= |top|
  {
    && s.nodes.Keys == Covered(orig, rank, top[..i])
    && (forall y :: y in s.nodes ==> y in orig && Skeleton(s.nodes[y]) == Final(orig, y))
    && s.all == PreOrderAll(orig, rank, top[..i])
    && s.targets == TargetsOf(orig, s.nodes.Keys)
    && Listing(s)
  }

  /** The subtree of the i-th top-level element shares nothing with those of the earlier ones. */
  lemma TopFresh(orig: map<Id, Node>, rank: map<Id, nat>, top: seq<Id>, i: nat)
    requires ChildrenLinked(orig) && Ranked(orig, rank) && TopLevel(orig, top) && i < |top|
    ensures Covered(orig, rank, top[..i]) !! Subtree(orig, rank, top[i])
  {
    forall y | y in Covered(orig, rank, top[..i]) ensures !InSubtree(orig, rank, top[i], y) {
      CoveredMembers(orig, rank, top[..i], y);
      var e :| e in top[..i] && InSubtree(orig, rank, e, y);
      var j :| 0 <= j < i && top[j] == e;
      if InSubtree(orig, rank, top[i], y) {
        SubtreesNested(orig, rank, e, top[i], y);
        if InSubtree(orig, rank, e, top[i]) {
          TopLevelInsideOnlyItself(orig, rank, e, top[i]);
        } else {
          TopLevelInsideOnlyItself(orig, rank, top[i], e);
        }
        assert false;
      }
    }
  }

  /** The creation order after one more top-level element. */
  lemma PreOrderAllStep(orig: map<Id, Node>, rank: map<Id, nat>, top: seq<Id>, i: nat)
    requires ChildrenLinked(orig) && Ranked(orig, rank) && i < |top| && forall y :: y in top ==> y in orig
    ensures PreOrderAll(orig, rank, top[..i + 1]) == PreOrderAll(orig, rank, top[..i]) + PreOrder(orig, rank, top[i])
  {
    assert top[..i + 1][..i] == top[..i];
  }

  /** Once a parentless element's subtree is complete, every element made is as it will stay until pass 2. */
  lemma BuiltFinal(orig: map<Id, Node>, rank: map<Id, nat>, x: Id, s0: Loading, s: Loading, y: Id)
    requires ChildrenLinked(orig) && Ranked(orig, rank) && x in orig && orig[x].parent == None
    requires Built(orig, rank, x, |orig[x].children|, s0, s)
    requires y in s.nodes && y !in s0.nodes
    ensures y in orig && Skeleton(s.nodes[y]) == Final(orig, y)
  {
    TakeAll(orig[x].children);
    assert y in {x} + Covered(orig, rank, orig[x].children[..|orig[x].children|]);
  }

  /** Creating the i-th top-level element's subtree keeps TopBuilt. */
  lemma TopStep(orig: map<Id, Node>, rank: map<Id, nat>, top: seq<Id>, i: nat, s: Loading, s1: Loading)
    requires Saveable(orig, rank) && TopLevel(orig, top) && i < |top|
    requires TopBuilt(orig, rank, top, i, s)
    requires top[i] in orig && Built(orig, rank, top[i], |orig[top[i]].children|, s, s1)
    ensures TopBuilt(orig, rank, top, i + 1, s1)
  {
    var x := top[i];
    var kids := orig[x].children;
    assert orig[x].parent == None;
    SubtreeSplits(orig, rank, x);
    TakeAll(kids);
    CoveredStep(orig, rank, top, i);
    UnionStep(Covered(orig, rank, top[..i]), s.nodes.Keys, s1.nodes.Keys, s1.nodes.Keys, {}, Subtree(orig, rank, x), Subtree(orig, rank, x));
    forall y | y in s1.nodes ensures y in orig && Skeleton(s1.nodes[y]) == Final(orig, y) {
      if y !in s.nodes {
        BuiltFinal(orig, rank, x, s, s1, y);
      }
    }
    PreOrderAllStep(orig, rank, top, i);
    Assoc(s.all, [x], PreOrderKids(orig, rank, x, |kids|));
  }

  /** The top-level loop of pass 1 over the records collect_elements wrote, from the i-th on. */
  lemma CreateAllSpec(orig: map<Id, Node>, rank: map<Id, nat>, top: seq<Id>, i: nat, s: Loading)
    requires Saveable(orig, rank) && TopLevel(orig, top) && i <= |top|
    requires TopBuilt(orig, rank, top, i, s)
    ensures var r := CreateAll(Encode(orig, rank, top), i, s);
      r.Success? && TopBuilt(orig, rank, top, |top|, r.value)
    decreases |top| - i
  {
    if i < |top| {
      var x := top[i];
      assert Encode(orig, rank, top)[i] == RecordOf(orig, rank, x);
      TopFresh(orig, rank, top, i);
      CreateSpec(orig, rank, x, s);
      var s1 := Create(RecordOf(orig, rank, x), s).value.0;
      TopStep(orig, rank, top, i, s, s1);
      CreateAllSpec(orig, rank, top, i + 1, s1);
    }
  }

  // ----- what save and load keep: pass 2 -----

  /** The pointer cells among ps, in order, whose saved target is y. */
  ghost function Incoming(orig: map<Id, Node>, ps: seq<Id>, y: Id): seq<Id>
  {
    if ps == [] then []
    else
      var p := ps[|ps| - 1];
      Incoming(orig, ps[..|ps| - 1], y) + if p in orig && orig[p].target == Some(y) then [p] else []
  }

  lemma {:induction false} IncomingMembers(orig: map<Id, Node>, ps: seq<Id>, y: Id, p: Id)
    ensures p in Incoming(orig, ps, y) <==> p in ps && p in orig && orig[p].target == Some(y)
  {
    if ps != [] {
      IncomingMembers(orig, ps[..|ps| - 1], y, p);
      assert ps == ps[..|ps| - 1] + [ps[|ps| - 1]];
    }
  }

  /**
   * The arena once the second loop has visited the first i created
   * elements: every link is restored for exactly the pointers visited, in
   * visiting order, and nothing else differs from the saved arena.
   */
  ghost predicate Relinked(orig: map<Id, Node>, all: seq<Id>, i: nat, m: map<Id, Node>)
    requires i <= |all|
  {
    && m.Keys == orig.Keys
    && (forall y :: y in m ==> Bare(m[y]) == Bare(orig[y]))
    && (forall y :: y in m ==> m[y].target == if y in all[..i] then orig[y].target else None)
    && (forall y :: y in m ==> m[y].pointers == Incoming(orig, all[..i], y))
  }

  /** create_arrow changes only links and arrow flags. */
  lemma LinkBare(m: map<Id, Node>, p: Id, t: Id, q: Id)
    requires p in m && t in m && q in m
    ensures q in Link(m, p, t) && Bare(Link(m, p, t)[q]) == Bare(m[q])
  {
    LinkAt(m, p, t, q);
  }

  /** One element after the i-th turn of the second loop. */
  lemma LinkStepAt(orig: map<Id, Node>, all: seq<Id>, i: nat, m: map<Id, Node>, r: map<Id, Node>, q: Id)
    requires i < |all| && all[i] !in all[..i] && q in m && Relinked(orig, all, i, m)
    requires var p := all[i];
      && p in m && r.Keys == m.Keys
      && (if orig[p].target.Some? && orig[p].target.value in m then r == Link(m, p, orig[p].target.value)
          else r == m && orig[p].target == None)
    ensures Bare(r[q]) == Bare(orig[q])
    ensures r[q].target == if q in all[..i + 1] then orig[q].target else None
    ensures r[q].pointers == Incoming(orig, all[..i + 1], q)
  {
    var p := all[i];
    TakeSnoc(all, i);
    assert Incoming(orig, all[..i + 1], q) == Incoming(orig, all[..i], q) + if orig[p].target == Some(q) then [p] else [];
    if orig[p].target.Some? && orig[p].target.value in m {
      var t := orig[p].target.value;
      LinkAt(m, p, t, q);
      LinkBare(m, p, t, q);
    }
  }

  /** The turn of the second loop for saved element p links it to its saved target, if any. */
  lemma LinkOneIs(orig: map<Id, Node>, m: map<Id, Node>, p: Id, targets: map<Id, Option<Id>>)
    requires TargetListed(orig) && "" !in orig && targets == TargetsOf(orig, orig.Keys)
    requires p in orig && m.Keys == orig.Keys && m[p].kind == orig[p].kind
    ensures var r := LinkOne(m, p, targets);
      && r.Success? && r.value.Keys == m.Keys
      && (if orig[p].target.Some? && orig[p].target.value in m then r.value == Link(m, p, orig[p].target.value)
          else r.value == m && orig[p].target == None)
  {
    if orig[p].target.Some? {
      assert orig[p].target.value in m && orig[p].target.value != "";
    }
  }

  /** The i-th turn of the second loop succeeds and restores the links of the i-th element. */
  lemma LinkStep(orig: map<Id, Node>, all: seq<Id>, i: nat, m: map<Id, Node>, targets: map<Id, Option<Id>>)
    requires TargetListed(orig) && "" !in orig && targets == TargetsOf(orig, orig.Keys)
    requires i < |all| && NoDup(all) && all[i] in orig && Relinked(orig, all, i, m)
    ensures var r := LinkOne(m, all[i], targets);
      r.Success? && Relinked(orig, all, i + 1, r.value)
  {
    var p := all[i];
    assert all[i] !in all[..i];
    assert m[p].kind == Bare(m[p]).kind == orig[p].kind;
    LinkOneIs(orig, m, p, targets);
    var r := LinkOne(m, p, targets).value;
    forall q | q in m
      ensures Bare(r[q]) == Bare(orig[q])
      ensures r[q].target == if q in all[..i + 1] then orig[q].target else None
      ensures r[q].pointers == Incoming(orig, all[..i + 1], q)
    {
      LinkStepAt(orig, all, i, m, r, q);
    }
  }

  /** The second loop from the i-th element on restores every link of the saved arena. */
  lemma LinkFromSpec(orig: map<Id, Node>, all: seq<Id>, i: nat, m: map<Id, Node>, targets: map<Id, Option<Id>>)
    requires TargetListed(orig) && "" !in orig && targets == TargetsOf(orig, orig.Keys)
    requires i <= |all| && NoDup(all) && (forall y :: y in all ==> y in orig) && Relinked(orig, all, i, m)
    ensures var r := LinkFrom(m, all, targets, i);
      r.Success? && Relinked(orig, all, |all|, r.value)
    decreases |all| - i
  {
    if i < |all| {
      LinkStep(orig, all, i, m, targets);
      LinkFromSpec(orig, all, i + 1, LinkOne(m, all[i], targets).value, targets);
    }
  }

  // ----- what save and load keep: pass 3 -----

  lemma {:induction false} RootsAppend(m: map<Id, Node>, a: seq<Id>, b: seq<Id>)
    ensures Roots(m, a + b) == Roots(m, a) + Roots(m, b)
    decreases |b|
  {
    if b == [] {
      assert a + b == a;
    } else {
      var init := b[..|b| - 1];
      assert (a + b)[..|a + b| - 1] == a + init;
      assert (a + b)[|a + b| - 1] == b[|b| - 1];
      RootsAppend(m, a, init);
    }
  }

  /** Everything created for the record of x lies inside x. */
  lemma PreOrderInside(orig: map<Id, Node>, rank: map<Id, nat>, x: Id, y: Id)
    requires ChildrenLinked(orig) && Ranked(orig, rank) && x in orig && y in PreOrder(orig, rank, x)
    ensures InSubtree(orig, rank, x, y)
    decreases rank[x], 1
  {
    if y != x {
      PreOrderKidsInside(orig, rank, x, |orig[x].children|, y);
    }
  }

  /** Everything created for the first k child records of x lies strictly inside x. */
  lemma PreOrderKidsInside(orig: map<Id, Node>, rank: map<Id, nat>, x: Id, k: nat, y: Id)
    requires ChildrenLinked(orig) && Ranked(orig, rank) && x in orig && k <= |orig[x].children|
    requires y in PreOrderKids(orig, rank, x, k)
    ensures InSubtree(orig, rank, x, y) && y != x
    decreases rank[x], 0, k
  {
    var c := orig[x].children[k - 1];
    if y in PreOrderKids(orig, rank, x, k - 1) {
      PreOrderKidsInside(orig, rank, x, k - 1, y);
    } else {
      assert c in orig[x].children;
      PreOrderInside(orig, rank, c, y);
      ChildSubtree(orig, rank, x, c, y);
      NotInsideChild(orig, rank, x, c);
    }
  }

  /** Of the elements created for a top-level record, only the first has no parent. */
  lemma RootsPreOrder(orig: map<Id, Node>, rank: map<Id, nat>, m: map<Id, Node>, x: Id)
    requires ChildrenLinked(orig) && Ranked(orig, rank) && x in orig && orig[x].parent == None
    requires forall y :: y in orig ==> y in m && m[y].parent == orig[y].parent
    ensures Roots(m, PreOrder(orig, rank, x)) == [x]
  {
    var kids := PreOrderKids(orig, rank, x, |orig[x].children|);
    RootsAppend(m, [x], kids);
    assert [x][..0] == [];
    var r := Roots(m, kids);
    if r != [] {
      var y := r[0];
      PreOrderKidsInside(orig, rank, x, |orig[x].children|, y);
      SubtreeParent(orig, rank, x, y);
      assert false;
    }
  }

  /** The parentless elements among all_elements are the saved canvas list, in order. */
  lemma {:induction false} RootsTop(orig: map<Id, Node>, rank: map<Id, nat>, m: map<Id, Node>, top: seq<Id>)
    requires ChildrenLinked(orig) && Ranked(orig, rank) && TopLevel(orig, top)
    requires forall y :: y in orig ==> y in m && m[y].parent == orig[y].parent
    ensures Roots(m, PreOrderAll(orig, rank, top)) == top
  {
    if top != [] {
      var init, x := top[..|top| - 1], top[|top| - 1];
      assert TopLevel(orig, init) by {
        NoDupTail(top);
        assert forall y :: y in init ==> y in top;
      }
      RootsTop(orig, rank, m, init);
      RootsAppend(m, PreOrderAll(orig, rank, init), PreOrder(orig, rank, x));
      RootsPreOrder(orig, rank, m, x);
      InitLast(top);
    }
  }

  // ----- the round trip -----

  /** What save_to_file asks of the arena it writes: the invariants the editor keeps, and no empty uuid. */
  ghost predicate Savable(nodes: map<Id, Node>, elements: seq<Id>, rank: map<Id, nat>)
  {
    Partitioned(nodes, elements) && PointerLinks(nodes) && Ranked(nodes, rank) && AllCanonical(nodes) && "" !in nodes
  }

  /** Once every top-level record has been created, pass 2 starts from the saved arena without its links. */
  lemma Pass1Done(orig: map<Id, Node>, rank: map<Id, nat>, top: seq<Id>, s: Loading)
    requires ChildrenLinked(orig) && Ranked(orig, rank) && TopLevel(orig, top)
    requires TopBuilt(orig, rank, top, |top|, s) && Covered(orig, rank, top) == orig.Keys
    ensures s.all == PreOrderAll(orig, rank, top) && NoDup(s.all) && (forall y :: y in s.all <==> y in orig)
    ensures s.targets == TargetsOf(orig, orig.Keys) && Relinked(orig, s.all, 0, s.nodes)
  {
    TakeAll(top);
    assert s.nodes.Keys == orig.Keys;
    forall y ensures y in s.all <==> y in orig {
      assert y in s.all <==> y in s.nodes;
    }
    var none := s.all[..0];
    assert none == [];
    forall y | y in s.nodes
      ensures Bare(s.nodes[y]) == Bare(orig[y])
      ensures s.nodes[y].target == (if y in none then orig[y].target else None)
      ensures s.nodes[y].pointers == Incoming(orig, none, y)
    {
      assert Skeleton(s.nodes[y]) == Final(orig, y);
    }
  }

  /** Pass 1 on the saved records creates every saved element, unlinked, in pre-order. */
  lemma LoadPass1(nodes: map<Id, Node>, elements: seq<Id>, rank: map<Id, nat>)
    requires Partitioned(nodes, elements) && Ranked(nodes, rank) && AllCanonical(nodes)
    ensures var r := CreateAll(Encode(nodes, rank, elements), 0, Empty);
      && r.Success? && r.value.all == PreOrderAll(nodes, rank, elements)
      && NoDup(r.value.all) && (forall y :: y in r.value.all <==> y in nodes)
      && r.value.targets == TargetsOf(nodes, nodes.Keys)
      && Relinked(nodes, r.value.all, 0, r.value.nodes)
  {
    assert elements[..0] == [];
    assert TopBuilt(nodes, rank, elements, 0, Empty);
    CreateAllSpec(nodes, rank, elements, 0, Empty);
    CoveredAll(nodes, rank, elements);
    Pass1Done(nodes, rank, elements, CreateAll(Encode(nodes, rank, elements), 0, Empty).value);
  }

  lemma PointerOf(orig: map<Id, Node>, y: Id, p: Id)
    requires IncomingTarget(orig) && y in orig && p in orig[y].pointers
    ensures p in orig && orig[p].target == Some(y)
  {
  }

  /** After the second loop and the redraw, element y has all its saved fields and links but geometry. */
  lemma RestoredAt(orig: map<Id, Node>, all: seq<Id>, m: map<Id, Node>, r: map<Id, Node>, y: Id)
    requires IncomingTarget(orig) && TargetListed(orig) && y in orig
    requires Relinked(orig, all, |all|, m) && (forall q :: q in all <==> q in orig) && SameStructure(m, r)
    ensures y in r && Bare(r[y]) == Bare(orig[y]) && r[y].target == orig[y].target
    ensures forall p :: p in r[y].pointers <==> p in orig[y].pointers
  {
    TakeAll(all);
    assert Skeleton(r[y]) == Skeleton(m[y]);
    var ps := r[y].pointers;
    assert ps == Incoming(orig, all, y);
    forall p ensures p in ps <==> p in orig[y].pointers {
      IncomingMembers(orig, all, y, p);
      if p in orig[y].pointers {
        PointerOf(orig, y, p);
      }
    }
  }

  /**
   * Saving a diagram and loading the file gives the same diagram back: the
   * same canvas list, the same elements under the same uuids, each with its
   * kind, name, value, stack flag, parent, children in order and target, and
   * the same incoming pointers. Only geometry and arrow flags are redrawn,
   * and incoming pointers may come back in another order.
   */
  lemma SaveThenLoad(nodes: map<Id, Node>, elements: seq<Id>, rank: map<Id, nat>)
    requires Savable(nodes, elements, rank)
    ensures var d := Decode(Encode(nodes, rank, elements));
      && d.Success? && d.value.1 == elements && d.value.0.Keys == nodes.Keys
      && forall y :: y in nodes ==>
        && Bare(d.value.0[y]) == Bare(nodes[y]) && d.value.0[y].target == nodes[y].target
        && forall p :: p in d.value.0[y].pointers <==> p in nodes[y].pointers
  {
    LoadPass1(nodes, elements, rank);
    var s := CreateAll(Encode(nodes, rank, elements), 0, Empty).value;
    LinkFromSpec(nodes, s.all, 0, s.nodes, s.targets);
    var m := LinkFrom(s.nodes, s.all, s.targets, 0).value;
    RootsTop(nodes, rank, m, elements);
    var r := RefreshAll(m, elements);
    forall y | y in nodes
      ensures Bare(r[y]) == Bare(nodes[y]) && r[y].target == nodes[y].target
      ensures forall p :: p in r[y].pointers <==> p in nodes[y].pointers
    {
      RestoredAt(nodes, s.all, m, r, y);
    }
  }

  // ----- what a load refuses -----

  /** The second loop will call create_arrow for pointer cell p, with the saved target uuid of p. */
  predicate WantsArrow(m: map<Id, Node>, p: Id, targets: map<Id, Option<Id>>)
  {
    p in m && m[p].kind == PointerCell && p in targets && targets[p].Some? && targets[p].value != ""
  }

  /** create_arrow changes the kind of no element. */
  lemma LinkKinds(m: map<Id, Node>, p: Id, t: Id)
    requires p in m && t in m
    ensures Link(m, p, t).Keys == m.Keys && forall q :: q in m ==> Link(m, p, t)[q].kind == m[q].kind
  {
    LinkKeys(m, p, t);
    forall q | q in m ensures Link(m, p, t)[q].kind == m[q].kind {
      LinkAt(m, p, t, q);
    }
  }

  /**
   * The second loop gets through only if every pointer cell it reaches with
   * a non-empty saved target uuid finds that uuid among the loaded elements:
   * a dangling target_uuid raises.
   */
  lemma {:induction false} LinkFromNeedsTargets(m: map<Id, Node>, all: seq<Id>, targets: map<Id, Option<Id>>, i: nat)
    requires i <= |all|
    ensures LinkFrom(m, all, targets, i).Success? ==>
      forall j :: i <= j < |all| && WantsArrow(m, all[j], targets) ==> targets[all[j]].value in m
    decreases |all| - i
  {
    if i < |all| && LinkOne(m, all[i], targets).Success? {
      var p := all[i];
      var m1 := LinkOne(m, p, targets).value;
      if WantsArrow(m, p, targets) && targets[p].value in m {
        LinkKinds(m, p, targets[p].value);
      }
      assert forall q :: WantsArrow(m1, q, targets) <==> WantsArrow(m, q, targets);
      LinkFromNeedsTargets(m1, all, targets, i + 1);
    }
  }

  /** A load succeeds only if every pointer record's non-empty target_uuid names a loaded element. */
  lemma DecodeNeedsTargets(recs: seq<Record>)
    ensures Decode(recs).Success? ==>
      && CreateAll(recs, 0, Empty).Success?
      && var s := CreateAll(recs, 0, Empty).value;
        forall j :: 0 <= j < |s.all| && WantsArrow(s.nodes, s.all[j], s.targets) ==> s.targets[s.all[j]].value in s.nodes
  {
    if CreateAll(recs, 0, Empty).Success? {
      var s := CreateAll(recs, 0, Empty).value;
      LinkFromNeedsTargets(s.nodes, s.all, s.targets, 0);
    }
  }

  /** The record to_dict writes for a parentless pointer cell at the origin. */
  function PointerRecord(id: Id, target: Option<Id>): Record
  {
    Record(Some("PointerCell"), Some(id), Some(0.0), Some(0.0), Some("Pointer"), None, None, None, None, target, None, Missing)
  }

  /**
   * Deleting an element leaves the pointers at it with their target, so a
   * saved file can name a target that was not saved: loading it raises in
   * create_arrow.
   */
  lemma DanglingTargetFails()
    ensures Decode([PointerRecord("p", Some("t"))]) == Failure("AttributeError")
  {
    var n := NewPointerCell(0.0, 0.0, "Pointer");
    var s := Loading(map["p" := n], ["p"], map["p" := Some("t")]);
    var rec := PointerRecord("p", Some("t"));
    assert FromRecord(rec) == Success(Some(("p", n)));
    assert Empty.nodes["p" := n] == s.nodes && Empty.all + ["p"] == s.all;
    assert Empty.targets["p" := Some("t")] == s.targets;
    assert Create(rec, Empty) == Success((s, Some("p")));
    assert CreateAll([rec], 1, s) == Success(s);
    assert CreateAll([rec], 0, Empty) == Success(s);
    assert LinkOne(s.nodes, "p", s.targets) == Failure("AttributeError");
  }

  /**
   * An empty target_uuid is false to Python: in pass 2 a pointer cell whose
   * saved target is "" is treated exactly like one with no target at all.
   */
  lemma {:induction false} EmptyTargetIgnored(s: Loading, p: Id, i: nat)
    requires i <= |s.all|
    ensures LinkFrom(s.nodes, s.all, s.targets[p := Some("")], i) == LinkFrom(s.nodes, s.all, s.targets[p := None], i)
    decreases |s.all| - i
  {
    if i < |s.all| {
      var q := s.all[i];
      assert LinkOne(s.nodes, q, s.targets[p := Some("")]) == LinkOne(s.nodes, q, s.targets[p := None]);
      match LinkOne(s.nodes, q, s.targets[p := None])
      case Failure(_) =>
      case Success(m1) => EmptyTargetIgnored(s.(nodes := m1), p, i + 1);
    }
  }

  /** A data or pointer cell. */
  predicate IsCell(k: Option<Kind>)
  {
    k == Some(DataCell) || k == Some(PointerCell)
  }

  /** Every element of a keeps its kind in b. */
  ghost predicate KindsKept(a: map<Id, Node>, b: map<Id, Node>)
  {
    forall id :: id in a ==> id in b && b[id].kind == a[id].kind
  }

  /** create_element changes the kind of no element that already exists. */
  lemma {:induction false} CreateKinds(rec: Record, s: Loading)
    ensures Create(rec, s).Success? ==> KindsKept(s.nodes, Create(rec, s).value.0.nodes)
    decreases rec, 1
  {
    match FromRecord(rec)
    case Failure(_) =>
    case Success(None) =>
    case Success(Some((id, n))) =>
      if id !in s.nodes && rec.elements.Present? {
        var targets := if n.kind == PointerCell then s.targets[id := rec.targetUuid] else s.targets;
        var s1 := Loading(s.nodes[id := n], s.all + [id], targets);
        AddChildrenKinds(rec, id, 0, s1);
      }
  }

  /** Nor does the loop over a record's child records. */
  lemma {:induction false} AddChildrenKinds(rec: Record, c: Id, i: nat, s: Loading)
    requires rec.elements.Present? && i <= |rec.elements.list| && c in s.nodes
    ensures AddChildren(rec, c, i, s).Success? ==> KindsKept(s.nodes, AddChildren(rec, c, i, s).value.nodes)
    decreases rec, 0, |rec.elements.list| - i
  {
    var kids := rec.elements.list;
    if i < |kids| {
      assert kids[i] < rec;
      CreateKinds(kids[i], s);
      match Create(kids[i], s)
      case Failure(_) =>
      case Success((s1, None)) => AddChildrenKinds(rec, c, i + 1, s1);
      case Success((s1, Some(e))) =>
        if IsVolume(s1.nodes[c].kind) {
          var s2 := s1.(nodes := AddElement(s1.nodes, c, e));
          AddElementSpec(s1.nodes, c, e);
          AddChildrenKinds(rec, c, i + 1, s2);
        }
    }
  }

  /**
   * The child loop of a cell from the i-th child record on: as soon as a
   * record of a known type comes (and loads), add_element is missing, so the
   * loop fails if such a record is still to come.
   */
  lemma {:induction false} CellChildrenFail(rec: Record, c: Id, i: nat, s: Loading, j: nat)
    requires rec.elements.Present? && i <= j < |rec.elements.list| && c in s.nodes && !IsVolume(s.nodes[c].kind)
    requires ParseKind(rec.elements.list[j].kind).Some?
    ensures AddChildren(rec, c, i, s).Failure?
    decreases |rec.elements.list| - i
  {
    var kids := rec.elements.list;
    match Create(kids[i], s)
    case Failure(_) =>
    case Success((s1, None)) =>
      assert FromRecord(kids[i]) == Success(None) && s1 == s;
      CellChildrenFail(rec, c, i + 1, s1, j);
    case Success((s1, Some(e))) =>
      CreateKinds(kids[i], s);
  }

  /** The top-level loop of pass 1 fails once a record that always fails is still to come. */
  lemma {:induction false} CreateAllFails(recs: seq<Record>, i: nat, s: Loading, j: nat)
    requires i <= j < |recs|
    requires forall t: Loading :: Create(recs[j], t).Failure?
    ensures CreateAll(recs, i, s).Failure?
    decreases |recs| - i
  {
    if i < j {
      match Create(recs[i], s)
      case Failure(_) =>
      case Success((s1, _)) => CreateAllFails(recs, i + 1, s1, j);
    }
  }

  /**
   * A cell has no add_element: a file whose top-level cell record lists a
   * child record of a known type does not load, whatever else it holds.
   */
  lemma CellWithChildrenFails(recs: seq<Record>, j: nat, k: nat)
    requires j < |recs| && IsCell(ParseKind(recs[j].kind)) && recs[j].elements.Present?
    requires k < |recs[j].elements.list| && ParseKind(recs[j].elements.list[k].kind).Some?
    ensures Decode(recs).Failure?
  {
    var rec := recs[j];
    forall t: Loading ensures Create(rec, t).Failure? {
      match FromRecord(rec)
      case Failure(_) =>
      case Success(None) =>
      case Success(Some((id, n))) =>
        if id !in t.nodes {
          var targets := if n.kind == PointerCell then t.targets[id := rec.targetUuid] else t.targets;
          var s1 := Loading(t.nodes[id := n], t.all + [id], targets);
          CellChildrenFail(rec, id, 0, s1, k);
        }
    }
    CreateAllFails(recs, 0, Empty, j);
  }

  /** A record of an unknown type leaves the state of pass 1 as it was. */
  lemma UnknownCreates(u: Record, s: Loading)
    requires ParseKind(u.kind).None?
    ensures Create(u, s) == Success((s, None))
  {
  }

  /** The top-level loop of pass 1 over a list with one record inserted at i, from past that record. */
  lemma {:induction false} CreateAllShifted(recs: seq<Record>, ins: seq<Record>, j: nat, s: Loading)
    requires |ins| == |recs| + 1 && j <= |recs|
    requires forall k :: j <= k < |recs| ==> ins[k + 1] == recs[k]
    ensures CreateAll(ins, j + 1, s) == CreateAll(recs, j, s)
    decreases |recs| - j
  {
    if j < |recs| {
      match Create(recs[j], s)
      case Failure(_) =>
      case Success((s1, _)) => CreateAllShifted(recs, ins, j + 1, s1);
    }
  }

  /** The same loop over the records before the inserted one. */
  lemma {:induction false} CreateAllInserted(recs: seq<Record>, u: Record, i: nat, j: nat, s: Loading)
    requires j <= i <= |recs| && ParseKind(u.kind).None?
    ensures CreateAll(recs[..i] + [u] + recs[i..], j, s) == CreateAll(recs, j, s)
    decreases i - j
  {
    var ins := recs[..i] + [u] + recs[i..];
    if j < i {
      assert ins[j] == recs[j];
      match Create(recs[j], s)
      case Failure(_) =>
      case Success((s1, _)) => CreateAllInserted(recs, u, i, j + 1, s1);
    } else {
      assert ins[i] == u;
      UnknownCreates(u, s);
      CreateAllShifted(recs, ins, i, s);
    }
  }

  /** create_element returns None for an unknown type: such a record anywhere in the top-level list changes nothing. */
  lemma UnknownTypeIgnored(recs: seq<Record>, u: Record, i: nat)
    requires i <= |recs| && ParseKind(u.kind).None?
    ensures Decode(recs[..i] + [u] + recs[i..]) == Decode(recs)
  {
    CreateAllInserted(recs, u, i, 0, Empty);
  }
}
