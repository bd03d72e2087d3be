/**
 * The integer-and-real arithmetic of the whiteboard: hit testing and the
 * closed-form layout rules of StructBlock and StackQueue containers.
 * Coordinates are reals, because StackQueue centring divides by two.
 */
module Geometry {

  /** Strict point-in-rectangle test of BaseElement.contains. */
  predicate Contains(x: real, y: real, w: real, h: real, px: real, py: real)
  {
    x < px < x + w && y < py < y + h
  }

  /** A point on any of the four edges of a box is never inside it. */
  lemma EdgesNotContained(x: real, y: real, w: real, h: real, t: real)
    ensures !Contains(x, y, w, h, x, t) && !Contains(x, y, w, h, x + w, t)
    ensures !Contains(x, y, w, h, t, y) && !Contains(x, y, w, h, t, y + h)
  {
  }

  /** The centre of a box of positive size is inside it. */
  lemma CentreContained(x: real, y: real, w: real, h: real)
    requires w > 0.0 && h > 0.0
    ensures Contains(x, y, w, h, x + w / 2.0, y + h / 2.0)
  {
  }

  // ----- StructBlock: one horizontal row of slots -----

  const StructMinWidth: real := 200.0
  const StructHeight: real := 120.0
  const CellWidth: real := 120.0
  const CellHeight: real := 60.0

  /** Width of a StructBlock holding n children. */
  function StructWidth(n: nat): real
  {
    if 120.0 * n as real + 80.0 < StructMinWidth then StructMinWidth else 120.0 * n as real + 80.0
  }

  /** Left edge of child i (of width w) in a StructBlock whose left edge is ox. */
  function StructChildX(ox: real, i: nat, w: real): real
  {
    ox + 20.0 + i as real * (w + 10.0)
  }

  /** Top edge of every child of a StructBlock whose top edge is oy. */
  function StructChildY(oy: real): real
  {
    oy + 40.0
  }

  /** The distance between two slots of equal width w is a multiple of the pitch w + 10. */
  lemma {:induction false} StructPitch(ox: real, w: real, i: nat, j: nat)
    requires i <= j
    ensures StructChildX(ox, j, w) - StructChildX(ox, i, w) == (j - i) as real * (w + 10.0)
  {
    if i < j {
      StructPitch(ox, w, i, j - 1);
      assert (j - i) as real * (w + 10.0) == (j - 1 - i) as real * (w + 10.0) + (w + 10.0);
    }
  }

  /**
   * Children of equal, non-negative width are placed strictly left to right in
   * insertion order, and neighbouring slots never overlap (a gap of 10 separates them).
   */
  lemma StructSlotsOrdered(ox: real, w: real, i: nat, j: nat)
    requires w >= 0.0 && i < j
    ensures StructChildX(ox, i, w) < StructChildX(ox, j, w)
    ensures StructChildX(ox, i, w) + w + 10.0 <= StructChildX(ox, j, w)
  {
    StructPitch(ox, w, i, j);
    assert (j - i) as real * (w + 10.0) >= w + 10.0 by {
      assert (j - i) as real >= 1.0;
    }
  }

  /**
   * With the 120-wide cells that the editor creates, the last of n children
   * ends inside the StructBlock exactly when n is at most 7; from the eighth
   * child on, the row overruns the block's right edge.
   */
  lemma StructCellsFitIff(ox: real, n: nat)
    requires n >= 1
    ensures StructChildX(ox, n - 1, CellWidth) + CellWidth <= ox + StructWidth(n) <==> n <= 7
  {
    StructPitch(ox, CellWidth, 0, n - 1);
  }

  // ----- StackQueue: one vertical column -----

  const StackWidth: real := 150.0
  const StackMinHeight: real := 100.0

  /** Height of a StackQueue holding n children. */
  function StackHeight(n: nat): real
  {
    if 90.0 + n as real * 65.0 < StackMinHeight then StackMinHeight else 90.0 + n as real * 65.0
  }

  /**
   * Slot, counted from the top, of child i among n: a stack shows the last
   * pushed child on top, a queue the first one.
   */
  function StackDepth(n: nat, i: nat, isStack: bool): int
  {
    if isStack then n - i - 1 else i
  }

  /** Left edge of a child of width w, centred in a StackQueue whose left edge is ox. */
  function StackChildX(ox: real, w: real): real
  {
    ox + (StackWidth - w) / 2.0
  }

  /** Top edge of child i (of height h) among n in a StackQueue whose top edge is oy. */
  function StackChildY(oy: real, n: nat, i: nat, h: real, isStack: bool): real
  {
    oy + 80.0 + StackDepth(n, i, isStack) as real * (h + 5.0)
  }

  /** The depths of the n children are exactly the slots 0 .. n-1, each used once. */
  lemma StackDepthIsPermutation(n: nat, isStack: bool)
    ensures forall i :: 0 <= i < n ==> 0 <= StackDepth(n, i, isStack) < n
    ensures forall i, j :: 0 <= i < j < n ==> StackDepth(n, i, isStack) != StackDepth(n, j, isStack)
    ensures n > 0 ==> StackDepth(n, if isStack then n - 1 else 0, isStack) == 0
  {
  }

  /**
   * A later child of a stack sits strictly above an earlier one, and a later
   * child of a queue strictly below, when all children share a height.
   */
  lemma StackSlotsOrdered(oy: real, n: nat, i: nat, j: nat, h: real, isStack: bool)
    requires i < j < n && h >= 0.0
    ensures isStack ==> StackChildY(oy, n, j, h, isStack) + h + 5.0 <= StackChildY(oy, n, i, h, isStack)
    ensures !isStack ==> StackChildY(oy, n, i, h, isStack) + h + 5.0 <= StackChildY(oy, n, j, h, isStack)
  {
    var di, dj := StackDepth(n, i, isStack), StackDepth(n, j, isStack);
    var lo, hi := if isStack then dj else di, if isStack then di else dj;
    assert lo < hi;
    assert hi as real * (h + 5.0) - lo as real * (h + 5.0) == (hi - lo) as real * (h + 5.0);
    assert (hi - lo) as real * (h + 5.0) >= h + 5.0 by {
      assert (hi - lo) as real >= 1.0;
    }
  }

  /**
   * A 120 by 60 cell sits horizontally centred in a StackQueue, and every one
   * of n such cells lies within the StackQueue's height.
   */
  lemma StackCellsFit(ox: real, oy: real, n: nat, i: nat, isStack: bool)
    requires i < n
    ensures StackChildX(ox, CellWidth) - ox == (ox + StackWidth) - (StackChildX(ox, CellWidth) + CellWidth)
    ensures oy < StackChildY(oy, n, i, CellHeight, isStack)
    ensures StackChildY(oy, n, i, CellHeight, isStack) + CellHeight <= oy + StackHeight(n)
  {
    var d := StackDepth(n, i, isStack);
    assert 0 <= d < n;
    assert d as real * 65.0 <= (n - 1) as real * 65.0;
  }
}
