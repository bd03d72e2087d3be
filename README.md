# Data-structure whiteboard: a verified model of the diagram core

`final.py` is a Tkinter whiteboard for drawing data structures. The user
places data cells, pointer cells, struct blocks, stacks and queues on a
canvas. They drag elements into containers and pull them out again, pop
the next element off a stack or queue with a double click, and point a
pointer cell at another element by dragging its dot. The diagram is saved
to a JSON file and loaded back from it.

This project models the part of the program that decides what the diagram
is, as opposed to how it is drawn:

- **Geometry** (`geometry.dfy`): `BaseElement.contains`, and the slot
  arithmetic of `StructBlock` and `StackQueue` (sizes and child positions).
- **Arena** (`arena.dfy`): the elements as a map from uuid to element
  record (`Node`). The record holds the kind, name, value, position, size,
  parent, children, incoming pointers, target and arrow flag. This part
  also gives the invariants that tie parent and child links and pointer and
  target links together, and the pure versions of `add_element`,
  `remove_element`, the `StackQueue` pop, `draw()`, `rearrange_elements`,
  `update_size`, `create_arrow` and the arrow unlink of `on_drag`.
- **Tree** (`tree.dfy`): the containment hierarchy and its acyclicity,
  witnessed by a rank. It covers subtrees (what `Volume.move` carries
  along), the proofs that every containment operation keeps the
  invariants, and the recursive shift of a moved element.
- **Layout** (`layout.dfy`): what `draw()` and `update_size` do to the
  geometry. Drawing a `StructBlock` or `StackQueue` resizes it and
  rearranges its children, and each child draws itself in turn, so a
  layout reaches nested containers at any depth. The module proves which
  elements a layout moves and resizes and which arrows it redraws. It also
  proves that after `update_size` every container reached is sized and has
  its children in their slots, and that a second `update_size` changes
  nothing.
- **Document** (`document.dfy`): the JSON records of `to_dict` and
  `collect_elements`, the class-dispatching `from_dict`, and the three
  passes of `load_from_file`. These are `create_element` depth first, the
  arrow loop, and the root filter followed by `refresh_all`. It also proves
  that saving and then loading gives the same diagram back.
- **Canvas** (`canvas.dfy`): `DataStructureCanvas` as the class
  `Diagram`. Its fields are the arena, the canvas list (`elements`), the
  selection, the drag origin and the pointer-dragging flag. Its methods are
  the mouse handlers, creation, deletion, `clear_canvas`, save and load.
  Every method is proved against the pure functions above and keeps
  `Valid()`: the containment links agree, the pointer links agree, the
  hierarchy is acyclic, and the selection exists.

A Python object reference becomes a uuid into the arena. Where the program
raises and the exception is swallowed or ends the operation, the model says
so explicitly (a `Result`, or an unchanged state).

Behaviour of the program that the model keeps on purpose:

- `StackQueue` overrides `remove_element` with a pop that takes no
  argument, so every `parent.remove_element(elem)` on a stack or queue
  raises `TypeError` before anything changes. `on_release` and `delete`
  swallow it, and `move_out` stops there. An element can therefore never be
  pulled, deleted or moved out of a stack or queue; only a double click
  pops it (`Canvas.LeavesParent`, `Canvas.Diagram.PullOut`,
  `Canvas.Diagram.Delete`, `Canvas.Diagram.MoveOut`).
- `BaseElement.delete` drops the arrows into the deleted element but leaves
  each pointer's `target` set (`Canvas.Diagram.Delete`).
- `move_out` reads its parent's position after the parent link has been
  cleared and fails. The element is left where it was, parentless and off
  the canvas list. An element without a parent is only drawn again
  (`Canvas.Diagram.MoveOut`).
- A saved `target_uuid` that names no element makes the arrow loop of
  `load_from_file` fail, and the load is abandoned
  (`Document.DanglingTargetFails`).
- A cell record that lists a child record of a known type fails the load
  as well, because cells have no `add_element`. A child record of an
  unknown type is skipped before `add_element` would be called
  (`Document.CellWithChildrenFails`).

## Model

| member | source | states |
|---|---|---|
| Geometry.EdgesNotContained | final.py:51-53 | contains uses strict inequalities: no point on any of the four edges of an element is inside it |
| Geometry.CentreContained | final.py:51-53 | the centre of an element of positive size is inside it |
| Geometry.StructPitch | final.py:420-427 | two StructBlock slots for equal-width children lie a whole number of pitches (width + 10) apart |
| Geometry.StructSlotsOrdered | final.py:420-427 | StructBlock children of equal width are laid out strictly left to right in list order, with a gap of at least 10 |
| Geometry.StructCellsFitIff | final.py:402-427 | with n 120-wide cells, the last cell ends inside the block exactly when n <= 7; from the eighth cell on, the row overruns the block's right edge |
| Geometry.StackDepthIsPermutation | final.py:458-465 | stack/queue depths form a permutation of the slots 0..n-1; the top slot holds the last child of a stack and the first child of a queue |
| Geometry.StackSlotsOrdered | final.py:458-465 | a later child sits strictly above an earlier one in a stack and strictly below it in a queue, never overlapping |
| Geometry.StackCellsFit | final.py:439-465 | a cell is centred horizontally in a stack/queue, and every one of its n cells lies within the container's height |
| Arena.IndexOf | final.py:196-197 | finds the first occurrence of the element in the list |
| Arena.RemoveFirstCuts | final.py:197 | list.remove cuts out exactly the first occurrence and keeps the order of the rest; with no occurrence the list is unchanged |
| Arena.RemoveFirstMembers | final.py:197 | list.remove keeps every other member and adds none |
| Arena.RemoveFirstNoDup | final.py:197 | on a duplicate-free list, list.remove leaves no copy of the removed element |
| Arena.AttachLinked | final.py:186-193 | adding a parentless element to a container keeps the containment invariant and the partition, once the element leaves the canvas list |
| Arena.DetachLinked | final.py:195-205 | removing a child keeps the containment invariant; the child is parentless and may join the canvas list |
| Arena.AttachDetachInverse | final.py:186-205 | detaching an element just attached gives back the arena as it was: the links of add_element are undone by those of remove_element (the layout step is not part of this) |
| Arena.SameStructureKeeps | final.py:58-65 | changes to geometry and arrow flags alone (moves, redraws, layout) keep every structural invariant |
| Arena.PopIsRemove | final.py:467-473 | the pop of a stack/queue is remove_element applied to its next element |
| Arena.PopSpec | final.py:467-473 | an empty container pops nothing and is unchanged; otherwise a stack pops its last child and a queue its first, the rest stay in order, the popped element is parentless and may join the canvas list |
| Arena.PopChildren | final.py:467-473 | the pop returns the child at the pop index and leaves the others in order |
| Arena.PushThenPop | final.py:467-473 | pushing then popping a stack returns the pushed element and restores the list; a queue returns its oldest element and keeps the pushed one at the back (after add_element) |
| Arena.LinkPointerLinks | final.py:333-338 | create_arrow keeps every pointer listed by exactly its target, once, and nowhere else |
| Arena.LinkSpec | final.py:333-338 | after create_arrow, p targets t with an arrow and t lists p once; no other element lists p; no other pointer's target and no containment link change |
| Arena.UnlinkPointerLinks | final.py:615-620 | the unlink in on_drag keeps the pointer links consistent |
| Arena.UnlinkSpec | final.py:615-620 | a pointer without an arrow is untouched; otherwise it loses arrow and target and no element lists it any more; containment does not change |
| Arena.SameContainmentKeeps | final.py:333-338 | changes to pointer fields alone keep the containment invariants |
| Arena.LinkKeeps | final.py:333-338 | create_arrow keeps all invariants and the partition of the canvas |
| Arena.UnlinkKeeps | final.py:615-620 | the unlink keeps all invariants and the partition of the canvas |
| Tree.SubtreeRank | final.py:216-219 | whatever lies inside an element exists and ranks no higher, so Volume.move's recursion terminates |
| Tree.SubtreeParent | final.py:216-219 | an element strictly inside r has a parent, which lists it and is itself inside r |
| Tree.TopLevelInsideOnlyItself | final.py:640-651 | a parentless element lies inside nothing but itself |
| Tree.SubtreesNested | final.py:216-219 | two elements that both contain x are nested one in the other |
| Tree.SiblingsDisjoint | final.py:216-219 | two different children of one container share no element, so Volume.move moves each element once |
| Tree.NotInsideChild | final.py:186-193 | a container never lies inside one of its own children |
| Tree.CoveredMembers | final.py:216-219 | x is in the subtrees of a list exactly when some member of the list contains x |
| Tree.SubtreeSplits | final.py:216-219 | an element's subtree is itself plus the subtrees of its children |
| Tree.AttachRanked | final.py:186-193 | adding e to c keeps the hierarchy acyclic when c is not inside e |
| Tree.DetachRanked | final.py:195-205 | taking a child out keeps the hierarchy acyclic |
| Tree.AddElementKeeps | final.py:186-193 | add_element of a parentless e into a container outside e keeps all invariants and the partition, with e off the canvas list |
| Tree.DetachKeeps | final.py:195-205 | unlisting a child keeps all invariants; the child is parentless and may join the canvas list |
| Tree.RemoveElementKeeps | final.py:195-205 | remove_element keeps all invariants and the partition once the child joins the canvas list |
| Tree.AddElementSpec | final.py:186-193 | an element that already has a parent is left alone; otherwise it gets c as parent and joins the end of c's list; no other link changes |
| Tree.RemoveElementSpec | final.py:195-205 | an unlisted element changes nothing; a listed one loses its parent and its first occurrence in c's list; no other link changes |
| Tree.PopShape | final.py:467-473 | the popped element exists, is a listed child and not on the canvas list; the pop is a detach followed by a layout |
| Tree.PopKeeps | final.py:467-473 | popping keeps all invariants and the partition once the popped element joins the canvas list |
| Tree.ConstructKeeps | final.py:20-32 | a freshly constructed, unlinked element joins the arena without breaking any invariant |
| Tree.PlaceKeeps | final.py:697-710 | a created element put on the canvas list keeps all invariants and the partition |
| Tree.TopLevelDropSafe | final.py:640-651 | dropping an element into a top-level container cannot create a cycle |
| Tree.Shifted | final.py:58-65 | shifting a set of elements changes only geometry and arrow flags |
| Tree.ShiftedTwice | final.py:216-219 | shifting two disjoint sets one after the other is shifting their union |
| Tree.ShiftedGeometry | final.py:58-65 | moved elements shift by (dx, dy), so a moved element and everything inside it keep their relative positions, and others stay; sizes are kept; arrows stay drawn; a moved pointer with a target shows its arrow; PointerCell.move also redraws its own arrow |
| Tree.TopAncestor | final.py:548-554 | in a partitioned arena, every element lies inside some element of the canvas list |
| Tree.CoveredAll | final.py:548-554 | the subtrees of the canvas list cover the whole arena |
| Layout.DrawnEffect | final.py:406-418 | draw() of a StructBlock (and likewise StackQueue.draw, 444-456) resizes exactly the elements its drawing reaches: itself and, at any depth, the children of every StructBlock or StackQueue reached. It moves all of them but itself, and redraws the arrows into what its children reach. No other element changes geometry or arrow, and no link changes |
| Layout.DrawnTidy | final.py:406-427 | when everything below x that its drawing reaches already has its drawn size, draw() of x leaves each reached element at its drawn size, with every reached container's children in their slots |
| Layout.RelayoutEffect | final.py:207-209 | update_size on c (rearrange, then draw) resizes exactly the elements the drawing of c reaches and moves all of them but c. It redraws the arrows into what c's children reach. Every other element keeps its geometry and arrow, and no link changes |
| Layout.RelayoutLaysOut | final.py:207-209 | after update_size the layout c reaches is tidy at every depth: each element has its drawn size and each StructBlock or StackQueue has its children in their slots. The first rearrange sizes the children before the second places them |
| Layout.RelayoutIdempotent | final.py:207-209 | a second update_size of the same container changes nothing, so the source's rearrange-then-draw reaches a fixed point |
| Layout.RelayoutPlacesChild | final.py:420-427 | after update_size, child i of a StructBlock or StackQueue has its drawn size and sits in slot i computed from that size |
| Layout.TidyUnique | final.py:420-427 | two tidy layouts with the same sizes and the same corner for a reached element put everything below it at the same corners: the slots determine the layout |
| Layout.OrphanNotReached | final.py:195-205 | an element without a container is reached by no other element's drawing |
| Layout.RemoveElementKeepsPlace | final.py:195-205 | a removed element keeps its position and size; the layout of its old container does not reach it |
| Layout.RemoveElementKeepsArrow | final.py:195-205 | remove_element leaves the arrow flag of every pointer into the removed element as it was |
| Document.KindName | final.py:34-45 | the "type" written for a kind is read back as that kind |
| Document.FromRecord | final.py:735-749 | an unknown type gives nothing; a known type fails exactly when a key its class reads is missing; otherwise it gives an unlinked element with the saved uuid, kind and position; each known type goes to its class's from_dict |
| Document.Create | final.py:735-757 | create_element only adds elements; an element it returns is new |
| Document.AddChildren | final.py:752-756 | the child loop of create_element only adds elements |
| Document.LinkOne | final.py:763-769 | one turn of the arrow loop keeps the set of elements |
| Document.LinkFrom | final.py:762-769 | the arrow loop keeps the set of elements |
| Document.Roots | final.py:772 | the root filter keeps only parentless elements that were loaded |
| Document.ToDict | final.py:34-45 | a record carries the element's uuid, a type read back as its kind, and its parent, and a target_uuid exactly for a pointer with a target. The subclasses add their own keys. It has no "elements" key: the one Volume.to_dict writes (line 145) is always overwritten by collect_elements (line 717) |
| Document.RecordOf | final.py:712-719 | collect_elements gives an element's record its uuid and kind, and an "elements" list exactly for containers, one entry per child |
| Document.Encode | final.py:712-719 | one record per element of the list, in order, under its uuid |
| Document.FromRecordOf | final.py:34-50 | from_dict(to_dict(e)) rebuilds e under its uuid with kind, name, value, stack flag and position, and for a container its size, across all subclasses' to_dict and from_dict |
| Document.CreateSpec | final.py:735-757 | create_element on a saved element's record succeeds and rebuilds its whole subtree, children in order |
| Document.AddChildrenSpec | final.py:752-756 | the child loop rebuilds every remaining child subtree and adds each child to its container |
| Document.TopFresh | final.py:759-760 | the subtrees of different top-level elements are disjoint, so no uuid is created twice |
| Document.CreateAllSpec | final.py:759-760 | the first loop of the load succeeds on saved records and rebuilds every top-level subtree |
| Document.LinkFromSpec | final.py:762-769 | on a saved arena the arrow loop never fails and restores every target and incoming list |
| Document.RootsMembers | final.py:772 | x survives the root filter exactly when it was loaded and has no parent |
| Document.RootsPreOrder | final.py:772 | of a saved element's subtree in pre-order, only the element itself is a root |
| Document.RootsTop | final.py:772 | the root filter over all loaded elements gives back the saved canvas list, in order |
| Document.Pass1Done | final.py:759-760 | after the first loop every saved element exists once, with its containment, and pointers are not yet linked |
| Document.LoadPass1 | final.py:759-760 | the first loop on saved records succeeds, lists each element once in pre-order, and records every pointer's saved target |
| Document.RestoredAt | final.py:762-773 | after the arrow loop and the redraw, each element has its saved fields and target, and the same incoming pointers |
| Document.SaveThenLoad | final.py:711-773 | loading a saved diagram succeeds and gives the same canvas list and uuids; each element keeps kind, name, value, stack flag, parent, children in order and target, and the same set of incoming pointers |
| Document.LinkFromNeedsTargets | final.py:762-769 | the arrow loop succeeds only if every non-empty saved target uuid names a loaded element |
| Document.DecodeNeedsTargets | final.py:725-773 | a load succeeds only if every non-empty saved target uuid names a loaded element |
| Document.DanglingTargetFails | final.py:762-769 | a pointer saved with a target uuid that names no element makes the load fail |
| Document.EmptyTargetIgnored | final.py:767 | for any state after pass 1, an empty saved target uuid gives the arrow loop exactly the result that no target gives |
| Document.CellWithChildrenFails | final.py:752-756 | a file whose top-level list holds a cell record listing a child record of a known type does not load, whatever the other records are, since cells have no add_element |
| Document.CellChildrenFail | final.py:753-756 | the child loop of a cell fails once a child record of a known type is still to come |
| Document.CreateAllFails | final.py:759-760 | the top-level loop of the load fails once a record that always fails is still to come |
| Document.CreateKinds | final.py:735-757 | create_element changes the kind of no element that already exists |
| Document.UnknownCreates | final.py:748-749 | a record of an unknown type creates nothing and leaves the load state as it was |
| Document.CreateAllInserted | final.py:759-760 | the top-level loop over a list with an unknown-type record inserted gives the result of the loop over the list without it |
| Document.UnknownTypeIgnored | final.py:748-749 | inserting a record of an unknown type anywhere in the top-level list does not change the result of the load |
| Canvas.AdoptKept | final.py:186-193 | adding a new element to a container keeps the kind and parent of every older element |
| Canvas.DiscardedSpec | final.py:111-129 | delete keeps pointer links and targets; a child of a container that is not a stack or queue leaves it; every other parent link and child list stays |
| Canvas.DiscardedAt | final.py:111-129 | delete described element by element: arrows into e are dropped, and e's container loses e if it can |
| Canvas.DiscardedArrows | final.py:111-129 | after delete, no pointer into the deleted element shows an arrow |
| Canvas.DiscardedUntouched | final.py:111-129 | BaseElement.delete keeps pointer links; e keeps its children and leaves its container if it can; every other element keeps its links, except that e's container no longer lists e |
| Canvas.SubtreeKept | final.py:211-214 | two arenas with the same child lists inside r give r the same subtree |
| Canvas.ContainerNotCovered | final.py:211-214 | a container lies in none of its children's subtrees |
| Canvas.DeleteTurnSets | final.py:212-213 | the next child deleted by Volume.delete lists e as its parent, and its subtree is disjoint from the part already deleted and does not contain e |
| Canvas.DeleteChildStep | final.py:212-213 | one more turn of Volume.delete's loop: the subtree of the i-th child joins the cleared part, e's list loses that child unless e is a stack or queue, and nothing else changes |
| Canvas.DeleteFinish | final.py:125-129 | once the children are dealt with, BaseElement.delete of e completes the deletion of its whole subtree |
| Canvas.DeleteDone | final.py:111-129 | the whole of element.delete(): the result is the recursive Deleted, the subtree is deleted, pointer links are kept and arrows into e are dropped |
| Canvas.DeletedUnfold | final.py:211-214 | a container's delete is its children loop followed by BaseElement.delete; for any other element it is BaseElement.delete alone |
| Canvas.RootsDisjoint | final.py:692-694 | the subtrees of two different top-level elements share no element |
| Canvas.EarlierRootsDisjoint | final.py:692-694 | an element inside the i-th element of the canvas list lies inside none of the earlier ones |
| Canvas.ClearTurnSets | final.py:693-694 | the subtree the next turn of clear_canvas deletes is unchanged by the earlier turns and disjoint from what they deleted |
| Canvas.ClearStep | final.py:693-694 | after one more turn of clear_canvas, the subtrees of the first i + 1 top-level elements are cleared and every other element keeps its links |
| Canvas.AllDeletedStep | final.py:693-694 | the fold of deletions over one more element is one more deletion |
| Canvas.Beside | final.py:668-669 | the popped element is put 20 to the right of its container, level with its top |
| Canvas.EjectedKeeps | final.py:665-671 | placing and drawing the popped element keeps every invariant and the partition |
| Canvas.Ejected | final.py:668-671 | placing and drawing the popped element changes no link, kind or pointer field |
| Canvas.AllElementsMembers | final.py:548-554 | get_all_elements lists exactly the top-level elements and the direct children of top-level containers |
| Canvas.TopHit | final.py:596-602 | the element a click picks is one of the candidates and lies under the point |
| Canvas.TopHitSpec | final.py:596-602 | the pick is the last element under the point, and there is none exactly when no element is under the point |
| Canvas.FirstHit | final.py:611-614 | the element on_drag and on_release pick is a candidate other than the dragged one |
| Canvas.FirstHitSpec | final.py:611-614 | the pick is the first candidate, and there is none exactly when no candidate exists |
| Canvas.ShiftedOne | final.py:58-65 | redrawing the incoming arrows and then shifting the element is the shift of that one element |
| Canvas.ShiftedOneKeeps | final.py:58-65 | moving one element keeps every invariant and its children |
| Canvas.Diagram.constructor | final.py:496-517 | a new canvas is empty, with nothing selected and no pointer being dragged |
| Canvas.Diagram.UpdateArrows | final.py:134-136 | every pointer that lists the element redraws its arrow |
| Canvas.Diagram.Draw | final.py:406-418 | draw() of x leaves the arena the pure drawing gives: for a StructBlock or StackQueue, resized and rearranged with each child drawn in turn; other elements are unchanged. Layout.DrawnEffect and Layout.DrawnTidy state its effect. Nothing else of the canvas changes |
| Canvas.Diagram.RearrangeElements | final.py:420-427 | the rearrange loop (and StackQueue's, 458-465) leaves the arena of the pure rearrange. Each child is put in its slot, then drawn, which lays out a nested container at any depth, and the arrows into it are redrawn |
| Canvas.Diagram.ArrangeChild | final.py:424-427 | one turn of the rearrange loop places child i, draws it and redraws the arrows into it |
| Canvas.Diagram.UpdateSize | final.py:207-209 | the arena becomes the pure update_size of c, whose effect, tidy result and idempotence are Layout.RelayoutEffect, Layout.RelayoutLaysOut and Layout.RelayoutIdempotent |
| Canvas.Diagram.AddElement | final.py:186-193 | the arena becomes add_element's result; the invariants hold once e leaves the canvas list, which is untouched if e had a parent |
| Canvas.Diagram.RemoveElement | final.py:195-205 | the arena becomes remove_element's result; a removed child is parentless and may join the canvas list |
| Canvas.Diagram.RemoveChild | final.py:195-205 | removing a listed child leaves it parentless and off the canvas list, which it may join |
| Canvas.Diagram.PopElement | final.py:467-473 | the arena and the result are those of the pure pop; a popped element is off the canvas list, which it may join |
| Canvas.Diagram.PopChild | final.py:467-473 | a non-empty container pops its next child, which may join the canvas list |
| Canvas.Diagram.CreateArrow | final.py:333-338 | the arena becomes the link of p to t; invariants and partition are kept |
| Canvas.Diagram.DropArrow | final.py:615-620 | the arena becomes the unlink of p; invariants and partition are kept |
| Canvas.Diagram.Place | final.py:697-710 | a new element joins the arena and the end of the canvas list, keeping the partition |
| Canvas.Diagram.CreateDataCell | final.py:697-698 | a DataCell "Data" with an empty value at (100, 100) is added at the end of the canvas list |
| Canvas.Diagram.CreatePointerCell | final.py:700-701 | a PointerCell "Pointer" without a target at (200, 100) is added at the end of the canvas list |
| Canvas.Diagram.CreateStructBlock | final.py:703-704 | an empty StructBlock "Struct" at (300, 100) is added at the end of the canvas list |
| Canvas.Diagram.CreateStack | final.py:706-707 | an empty stack "Stack" at (500, 100) is added at the end of the canvas list |
| Canvas.Diagram.CreateQueue | final.py:709-710 | an empty queue "Queue" at (700, 100) is added at the end of the canvas list |
| Canvas.Diagram.GetAllElements | final.py:548-554 | the result is the list of top-level elements, each followed by its direct children |
| Canvas.Diagram.PickTop | final.py:596-602 | the backward loop returns the last element under the point, or none when no element is under it |
| Canvas.Diagram.PickFirst | final.py:611-614 | the forward loop returns the first hit other than the skipped element (a container when asked), or none when there is none |
| Canvas.Diagram.MoveSelf | final.py:58-65 | the arena becomes the shift of that one element, and the invariants are kept |
| Canvas.Diagram.Move | final.py:216-219 | the element and everything inside it shift by (dx, dy) with their arrows redrawn; nothing else moves |
| Canvas.Diagram.MoveChildren | final.py:216-219 | after the children loop, the whole subtree has shifted |
| Canvas.Diagram.ClearArrows | final.py:117-120 | every pointer into e loses its arrow |
| Canvas.Diagram.Unparent | final.py:125-129 | e leaves its container unless that container is a stack or queue (whose refusal is swallowed) |
| Canvas.Diagram.Discard | final.py:111-129 | the arena becomes the pure delete of e; the invariants are kept |
| Canvas.Diagram.Delete | final.py:111-129 | the arena becomes the recursive Deleted (a container first deletes its children, Volume.delete at 211-214). Every element of e's subtree leaves its container unless that is a stack or queue, and ends childless unless it is one. Outside the subtree, only e's container changes, losing e if it can. Pointer links and targets are kept, arrows into e are dropped, and the invariants hold |
| Canvas.Diagram.DeleteChildren | final.py:211-214 | the children loop leaves the fold of deletions over the copied list. Every child's subtree is cleared, e keeps its parent and its list empties unless e is a stack or queue, and every other element keeps its links |
| Canvas.Diagram.DeleteChild | final.py:212-213 | one turn of the loop deletes the i-th child and extends the cleared part by its subtree |
| Canvas.Diagram.MoveOut | final.py:80-90 | an element that can leave its container ends parentless, off the canvas list, at its old position and size. An element with a stack or queue container changes nothing. An element without a container is drawn again: the arena becomes its Drawn, whose effect and tidy result are Layout.DrawnEffect and Layout.DrawnTidy |
| Canvas.Diagram.Click | final.py:588-606 | the drag origin is the point; a press on the selected pointer's dot starts pointer dragging; otherwise the top element under the point (or none) becomes the selection |
| Canvas.Diagram.Drag | final.py:608-630 | with no selection nothing changes; a dragged pointer targets the first hit or is unlinked; a top-level element moves with its subtree by the drag offset; a contained element stays |
| Canvas.Diagram.DragPointer | final.py:610-621 | the pointer is linked to the first hit other than itself, or unlinked over empty canvas |
| Canvas.Diagram.DragElement | final.py:626-630 | the element and its subtree shift by the drag offset, and the drag origin follows the point |
| Canvas.Diagram.Follow | final.py:630 | the drag origin becomes the point; nothing else changes |
| Canvas.Diagram.Drop | final.py:640-650 | the arena becomes add_element into the container, e leaves the canvas list, and invariants and partition are kept |
| Canvas.Diagram.PullOut | final.py:652-658 | an element that can leave its container does so, joins the canvas list and moves with its subtree by (20, 40); a stack/queue child stays |
| Canvas.Diagram.Extract | final.py:652-655 | the container removes e and e joins the canvas list, keeping the partition |
| Canvas.Diagram.Release | final.py:632-658 | pointer dragging ends; the selection drops into the first top-level container under the point, or is pulled out of its container; nothing changes without a selection |
| Canvas.Diagram.EndPointerDrag | final.py:634-638 | reports whether a pointer was being dragged and clears the flag |
| Canvas.Diagram.Eject | final.py:665-671 | the container pops as the pure pop does; a popped element is put beside it, parentless, at the end of the canvas list |
| Canvas.Diagram.PutBeside | final.py:668-671 | the popped element is placed beside its container, joins the canvas list and is drawn |
| Canvas.Diagram.DoubleClick | final.py:660-674 | a double click on a stack/queue pops its next element, and the arena becomes that pop followed by placing the element beside the container and drawing it; the element joins the end of the canvas list. An empty stack/queue, or a click anywhere else, changes nothing |
| Canvas.Diagram.ClearCanvas | final.py:692-695 | the arena becomes the fold of deletions over the old canvas list, whose subtrees are all cleared, and the canvas list is emptied. Every element outside those subtrees keeps its links, and every pointer link and target is kept |
| Canvas.Diagram.ClearOne | final.py:693-694 | one turn of clear_canvas deletes the next top-level element and extends the cleared part by its subtree |
| Canvas.Diagram.Save | final.py:711-723 | the saved records are the encoding of the canvas list |
| Canvas.Diagram.Collect | final.py:712-719 | collect_elements on a list gives its encoding |
| Canvas.Diagram.Reset | final.py:726-733 | the load starts from an empty arena with nothing selected |
| Canvas.Diagram.Construct | final.py:737-751 | a constructed element joins the arena but not the canvas list |
| Canvas.Diagram.CreateElement | final.py:735-757 | create_element fails exactly when the pure Create fails, and otherwise leaves the arena, element list and saved targets that Create gives |
| Canvas.Diagram.CreateChild | final.py:753-756 | one turn of the child loop does what one step of the pure AddChildren does |
| Canvas.Diagram.ParentlessOutside | final.py:753-756 | a parentless container never lies inside the element added to it |
| Canvas.Diagram.CreateElements | final.py:759-760 | the first loop succeeds exactly when the pure CreateAll does, and then leaves its result |
| Canvas.Diagram.LinkAll | final.py:762-769 | the arrow loop succeeds exactly when the pure LinkFrom does, and then leaves its result |
| Canvas.Diagram.LinkPointer | final.py:763-769 | one turn of the arrow loop fails exactly on a dangling target, and otherwise links the pointer |
| Canvas.Diagram.ListRoots | final.py:772 | the list comprehension gives the pure root filter |
| Canvas.Diagram.DrawList | final.py:556-565 | draw() on each element changes only geometry and arrow flags |
| Canvas.Diagram.Refresh | final.py:556-565 | refresh_all draws the canvas list and the children of each container on it, keeping the invariants and the partition |
| Canvas.Diagram.DrawContents | final.py:559-562 | a container's children are drawn; any other element changes nothing |
| Canvas.Diagram.Load | final.py:725-773 | the load succeeds exactly when the pure Decode does, and then leaves Decode's arena and canvas list, partitioned; on failure the canvas list is empty; the selection is cleared |

## Left out

- Drawing: Tk canvas items, colours, fonts, text and the `draw()` bodies of cells. Geometry fields and an `arrow` flag stand for what is drawn.
- `update_arrow` geometry: where the arrow line runs is not modelled, only whether the pointer shows an arrow.
- Dialogs (`rename`, `edit_value`, the context menus), `set_highlight` and the grid. They touch only names, values and drawing.
- File I/O and the `json` module: `Save` returns records and `Load` takes them. Parsing and writing JSON text are not modelled.
- `uuid4`: fresh uuids are parameters of the create methods.
- Copy and paste, and the `safe` helper.
- Whether the press is on a pointer's dot is the canvas's answer; `Canvas.Diagram.Click` takes it as the parameter `onDot`.
- Canvas.Diagram.Load: the source leaves `selected_element` pointing at an element from before the load; the model clears the selection. The model also starts from an empty arena, since the old elements are unreachable once `clear_canvas` has run. On failure the model states only that the canvas list is empty; the elements created before the failure are not described.
- Document.Create: two records with the same uuid are a failure in the model; the source overwrites its uuid_map entry.
- Document.FromRecord: a JSON `null` is treated like a missing key, and the types of values are not checked.
- Document.SaveThenLoad: the round trip is proved for partitioned arenas only, where every element is on the canvas list or has a container. The toolbar Delete can leave orphans: the children of a deleted container keep no container and are not on the canvas list. Save does not write them, and a pointer whose target is one makes the load fail (`Document.DanglingTargetFails`).
- Document.SaveThenLoad: incoming pointer lists come back as the same set, not necessarily in the same order. Positions and sizes after the load are not compared, because the load lays containers out again. It requires uuids that are not empty (an empty string is false in Python and skips the arrow) and canonical elements (no stray value on a non-cell, no stack flag on a non-stack).
- Canvas.Diagram.Delete: arrows into e are proved dropped. For the other elements of e's subtree, each one's own deletion drops the arrows into it. That no later layout in the same deletion redraws them is not proved.
- `refresh_all` lifting arrows above other items (`tag_raise`) is a drawing detail and is not modelled.
