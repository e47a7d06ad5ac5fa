/**
 * The swipe gesture of a history row: a horizontal drag to the left moves
 * the row by the drag distance, up to a limit, and letting go settles it as
 * one of three actions according to how far it was moved.
 */
module Swipe {
  import opened Optional

  /** Offsets are in pixels; negative is to the left. */
  const EditThreshold: int := -80
  const DeleteThreshold: int := -160
  const MaxSwipe: int := -200

  /**
   * What letting go does: delete the entry, open it for editing, move the
   * row back, or (in the edit zone of a row without an edit callback)
   * nothing at all.
   */
  datatype Action = Delete | Edit | Reset | Stay

  function Max(a: int, b: int): int {
    if a >= b then a else b
  }

  /**
   * The offset after a move to `x` during a drag that started at `startX`:
   * a move left of the start sets the offset to the distance, held at the
   * limit; any other move leaves the offset where it was.
   */
  function MoveOffset(offset: int, startX: int, x: int): (r: int)
    ensures x >= startX ==> r == offset
    ensures x < startX ==> MaxSwipe <= r < 0 && r >= x - startX && (r == x - startX || r == MaxSwipe)
    ensures MaxSwipe <= offset <= 0 ==> MaxSwipe <= r <= 0
  {
    var diff := x - startX;
    if diff < 0 then Max(diff, MaxSwipe) else offset
  }

  /** The action of letting go at an offset; the zones are closed on the far side. */
  function Classify(offset: int, hasEdit: bool): (a: Action)
    ensures a == Delete <==> offset <= DeleteThreshold
    ensures a == Edit <==> DeleteThreshold < offset <= EditThreshold && hasEdit
    ensures a == Stay <==> DeleteThreshold < offset <= EditThreshold && !hasEdit
    ensures a == Reset <==> EditThreshold < offset
  {
    if offset <= DeleteThreshold then Delete
    else if offset <= EditThreshold then (if hasEdit then Edit else Stay)
    else Reset
  }

  /** The offset after letting go: back to rest, except when nothing happened. */
  function Settled(offset: int, hasEdit: bool): (r: int)
    ensures Classify(offset, hasEdit) != Stay ==> r == 0
    ensures Classify(offset, hasEdit) == Stay ==> r == offset
  {
    if offset <= DeleteThreshold then 0
    else if offset <= EditThreshold then (if hasEdit then 0 else offset)
    else 0
  }

  /** How strong an action is: pulling further never yields a weaker one. */
  function Strength(a: Action): int {
    match a
    case Reset => 0
    case Stay => 1
    case Edit => 1
    case Delete => 2
  }

  lemma DeeperIsStronger(o1: int, o2: int, hasEdit: bool)
    requires o1 <= o2
    ensures Strength(Classify(o1, hasEdit)) >= Strength(Classify(o2, hasEdit))
  {
  }

  /** With an edit callback every release returns the row to rest. */
  lemma ReleaseReturnsToRest(offset: int)
    ensures Settled(offset, true) == 0
  {
  }

  /**
   * Without an edit callback a row let go in the edit zone stays open there,
   * and letting go again without a move to the left keeps it there.
   */
  lemma StaysOpenWithoutEdit(offset: int, startX: int, x: int)
    requires DeleteThreshold < offset <= EditThreshold
    requires x >= startX
    ensures Settled(offset, false) == offset
    ensures var again := MoveOffset(Settled(offset, false), startX, x);
      Classify(again, false) == Stay && Settled(again, false) == offset
  {
  }

  /** The offset after a run of moves of one drag, in order. */
  function Drag(offset: int, startX: int, xs: seq<int>): int {
    if xs == [] then offset
    else MoveOffset(Drag(offset, startX, xs[..|xs| - 1]), startX, xs[|xs| - 1])
  }

  /** However long the drag, the offset stays between the limit and rest. */
  lemma {:induction false} DragInRange(offset: int, startX: int, xs: seq<int>)
    requires MaxSwipe <= offset <= 0
    ensures MaxSwipe <= Drag(offset, startX, xs) <= 0
  {
    if xs != [] {
      DragInRange(offset, startX, xs[..|xs| - 1]);
    }
  }

  /** A drag with no move left of its start leaves the offset where it was. */
  lemma {:induction false} DragNoLeftMove(offset: int, startX: int, xs: seq<int>)
    requires forall i :: 0 <= i < |xs| ==> xs[i] >= startX
    ensures Drag(offset, startX, xs) == offset
  {
    if xs != [] {
      DragNoLeftMove(offset, startX, xs[..|xs| - 1]);
    }
  }

  /**
   * Only the last move left of the start counts: the offset after a drag is
   * the distance of that move, held at the limit, whatever came before.
   */
  lemma {:induction false} DragLastLeftMove(offset: int, startX: int, xs: seq<int>, k: int)
    requires 0 <= k < |xs| && xs[k] < startX
    requires forall i :: k < i < |xs| ==> xs[i] >= startX
    ensures Drag(offset, startX, xs) == Max(xs[k] - startX, MaxSwipe)
  {
    if k < |xs| - 1 {
      var init := xs[..|xs| - 1];
      assert init[k] == xs[k];
      DragLastLeftMove(offset, startX, init, k);
    }
  }

  /** Pulling into the delete zone and back into the edit zone before letting go edits. */
  lemma OvershootThenRetract()
    ensures Drag(0, 300, [100]) <= DeleteThreshold
    ensures Classify(Drag(0, 300, [100, 200]), true) == Edit
  {
    assert [100, 200][..1] == [100];
    assert [100][..0] == [];
  }

  /**
   * One row's gesture state: the offset the row is drawn at, whether a drag
   * is under way, and where it started. The touch and mouse handlers share
   * these operations.
   */
  class SwipeableEntry {
    var swipeX: int
    var isDragging: bool
    var startX: int
    const hasEdit: bool

    ghost predicate Valid()
      reads this
    {
      MaxSwipe <= swipeX <= 0
    }

    constructor(hasEdit: bool)
      ensures Valid()
      ensures swipeX == 0 && !isDragging && startX == 0 && this.hasEdit == hasEdit
    {
      swipeX := 0;
      isDragging := false;
      startX := 0;
      this.hasEdit := hasEdit;
    }

    /** Touch start or mouse down at `x`; the offset is kept as it is. */
    method Press(x: int)
      requires Valid()
      modifies this
      ensures Valid()
      ensures startX == x && isDragging && swipeX == old(swipeX)
    {
      startX := x;
      isDragging := true;
    }

    /** Touch move or mouse move to `x`, ignored unless a drag is under way. */
    method Move(x: int)
      requires Valid()
      modifies this
      ensures Valid()
      ensures swipeX == (if old(isDragging) then MoveOffset(old(swipeX), old(startX), x) else old(swipeX))
      ensures isDragging == old(isDragging) && startX == old(startX)
    {
      if !isDragging {
        return;
      }
      var diff := x - startX;
      if diff < 0 {
        swipeX := Max(diff, MaxSwipe);
      }
    }

    /**
     * Touch end or mouse up: the drag ends and the action of the offset
     * reached is taken. The handlers do not check that a drag was under way.
     * The offset judged is the one the last `Move` left; a release that React
     * runs before re-rendering after that move is not modelled.
     */
    method Release() returns (action: Action)
      requires Valid()
      modifies this
      ensures Valid()
      ensures action == Classify(old(swipeX), hasEdit)
      ensures swipeX == Settled(old(swipeX), hasEdit)
      ensures !isDragging && startX == old(startX)
    {
      isDragging := false;
      if swipeX <= DeleteThreshold {
        action := Delete;
        swipeX := 0;
      } else if swipeX <= EditThreshold {
        if hasEdit {
          action := Edit;
          swipeX := 0;
        } else {
          action := Stay;
        }
      } else {
        action := Reset;
        swipeX := 0;
      }
    }

    /** The pointer leaving the row ends a drag under way as a release would. */
    method Leave() returns (action: Option<Action>)
      requires Valid()
      modifies this
      ensures Valid()
      ensures old(isDragging) ==>
        action == Some(Classify(old(swipeX), hasEdit)) && swipeX == Settled(old(swipeX), hasEdit) && !isDragging
      ensures !old(isDragging) ==> action == None && swipeX == old(swipeX) && !isDragging
      ensures startX == old(startX)
    {
      if isDragging {
        var a := Release();
        action := Some(a);
      } else {
        action := None;
      }
    }
  }
}
