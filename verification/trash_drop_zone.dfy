/** The trash target shown at the top of the viewport while a card is
    dragged (`src/components/Cards/TrashDropZone.tsx`). Its effect hit-tests
    the pointer against the zone's bounding box and keeps the drag state's
    trash flag in step, dispatching only on a change. */
module TrashDropZone {
  import opened Common
  import opened DragSlice

  /** A client-space bounding box. */
  datatype Rect = Rect(left: real, top: real, right: real, bottom: real)

  /** Containment, inclusive on every edge. */
  predicate Contains(r: Rect, p: Point) {
    r.left <= p.x && p.x <= r.right && r.top <= p.y && p.y <= r.bottom
  }

  /** Nothing is rendered unless a drag is active. */
  predicate Renders(s: DragState) {
    s.isDragging
  }

  /** The zone's element exists only while it is rendered; `layout` is where
      the browser placed it. */
  function ElementRect(s: DragState, layout: Rect): (r: Option<Rect>)
    ensures r.Some? <==> Renders(s)
  {
    if Renders(s) then Some(layout) else None
  }

  /** What the flag should say: dragging, with a position and an element,
      and the position inside the element's box. */
  predicate Over(s: DragState, rect: Option<Rect>) {
    s.isDragging && s.dragPosition.Some? && rect.Some? && Contains(rect.value, s.dragPosition.value)
  }

  /** The effect: the action it dispatches, if any. */
  function HitTest(s: DragState, rect: Option<Rect>): (a: Option<DragAction>)
    ensures a.None? <==> s.isHoveringTrash == Over(s, rect)
    ensures a.Some? ==> a.value == SetHoveringTrash(Over(s, rect))
  {
    if !s.isDragging || s.dragPosition.None? || rect.None? then
      if s.isHoveringTrash then Some(SetHoveringTrash(false)) else None
    else
      var isOver := Contains(rect.value, s.dragPosition.value);
      if isOver != s.isHoveringTrash then Some(SetHoveringTrash(isOver)) else None
  }

  /** The state after the effect has run once. */
  function Settle(s: DragState, rect: Option<Rect>): DragState {
    match HitTest(s, rect)
    case None => s
    case Some(a) => Reduce(s, a)
  }

  /** The effect touches only the trash flag and leaves it equal to `Over`;
      running it again dispatches nothing. */
  lemma SettleIsIdempotent(s: DragState, rect: Option<Rect>)
    ensures Settle(s, rect) == s.(isHoveringTrash := Over(s, rect))
    ensures HitTest(Settle(s, rect), rect).None?
  {
  }

  /** Without a drag, a position or an element the flag is driven to false. */
  lemma IdleDrivesFlagFalse(s: DragState, rect: Option<Rect>)
    requires !s.isDragging || s.dragPosition.None? || rect.None?
    ensures !Settle(s, rect).isHoveringTrash
  {
  }

  /** A pointer exactly on the zone's left or right edge, during a drag,
      leaves the trash flag set once the effect has run. */
  lemma EdgeIsOverTrash(s: DragState, layout: Rect, p: Point)
    requires s.isDragging && s.dragPosition == Some(p)
    requires p.x == layout.left || p.x == layout.right
    requires layout.left <= layout.right && layout.top <= p.y <= layout.bottom
    ensures Settle(s, ElementRect(s, layout)).isHoveringTrash
  {
  }

  /** After `endDrag` the zone stays mounted while its exit animation runs
      (it sits under `AnimatePresence`), renders nothing, and its effect
      clears the flag, so together they reach exactly the slice's initial
      state. */
  lemma ReleaseSettlesToInitial(s: DragState, layout: Rect)
    ensures var e := Reduce(s, EndDrag);
            Settle(e, ElementRect(e, layout)) == Initial && !Renders(e)
  {
    EndDragResets(s);
  }
}
