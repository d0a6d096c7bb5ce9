/** The drag session reducer (`src/store/slices/dragSlice.ts`). The state also
    carries `isHoveringTrash`: the card and trash components read and write
    it, but the slice itself neither declares it nor resets it. */
module DragSlice {
  import opened Common
  import opened Types

  /** A pointer position in client coordinates. */
  datatype Point = Point(x: real, y: real)

  datatype DragState = DragState(
    isDragging: bool,
    draggedCard: Option<Card>,
    sourceStackId: Option<string>,
    hoveredStackId: Option<string>,
    dragPosition: Option<Point>,
    isHoveringTrash: bool)

  const Initial: DragState := DragState(false, None, None, None, None, false)

  datatype DragAction =
    | StartDrag(card: Card)
    | UpdateDragPosition(position: Point)
    | SetHoveredStack(stackId: Option<string>)
    | SetHoveringTrash(hovering: bool)
    | EndDrag

  /** The slice's reducer: total over every state and action. */
  function Reduce(s: DragState, action: DragAction): DragState {
    match action
    case StartDrag(card) => s.(isDragging := true, draggedCard := Some(card), sourceStackId := Some(card.stackId))
    case UpdateDragPosition(p) => s.(dragPosition := Some(p))
    case SetHoveredStack(id) => s.(hoveredStackId := id)
    case SetHoveringTrash(b) => s.(isHoveringTrash := b)
    case EndDrag =>
      s.(isDragging := false, draggedCard := None, sourceStackId := None, hoveredStackId := None, dragPosition := None)
  }

  /** Dispatching a sequence of actions in order. */
  function Run(s: DragState, actions: seq<DragAction>): DragState
    decreases |actions|
  {
    if actions == [] then s else Run(Reduce(s, actions[0]), actions[1..])
  }

  /** The initial state: no drag, and every optional field empty. */
  lemma InitialIsIdle()
    ensures !Initial.isDragging && !Initial.isHoveringTrash
    ensures Initial.draggedCard.None? && Initial.sourceStackId.None?
    ensures Initial.hoveredStackId.None? && Initial.dragPosition.None?
  {
  }

  /** `startDrag` takes the card and its stack, and leaves hover and position. */
  lemma StartDragFrame(s: DragState, card: Card)
    ensures var r := Reduce(s, StartDrag(card));
            && r.isDragging && r.draggedCard == Some(card) && r.sourceStackId == Some(card.stackId)
            && r.hoveredStackId == s.hoveredStackId && r.dragPosition == s.dragPosition
            && r.isHoveringTrash == s.isHoveringTrash
  {
  }

  /** There is no guard against a second drag: `startDrag` during an active
      session replaces the dragged card and its source stack. */
  lemma StartDragOverwritesActiveSession(s: DragState, card: Card)
    requires s.isDragging && s.draggedCard.Some? && s.draggedCard.value != card
    ensures Reduce(s, StartDrag(card)).draggedCard != s.draggedCard
  {
  }

  /** `updateDragPosition` changes only the position, dragging or not. */
  lemma UpdateDragPositionFrame(s: DragState, p: Point)
    ensures Reduce(s, UpdateDragPosition(p)) == s.(dragPosition := Some(p))
  {
  }

  /** `setHoveredStack` changes only the hovered stack. */
  lemma SetHoveredStackFrame(s: DragState, id: Option<string>)
    ensures Reduce(s, SetHoveredStack(id)) == s.(hoveredStackId := id)
  {
  }

  /** The trash setter changes only the trash flag. */
  lemma SetHoveringTrashFrame(s: DragState, b: bool)
    ensures Reduce(s, SetHoveringTrash(b)) == s.(isHoveringTrash := b)
  {
  }

  /** `endDrag` resets every field the slice declares, from any state, so it
      is idempotent; the undeclared trash flag is left as it was. */
  lemma EndDragResets(s: DragState)
    ensures Reduce(s, EndDrag) == Initial.(isHoveringTrash := s.isHoveringTrash)
    ensures Reduce(Reduce(s, EndDrag), EndDrag) == Reduce(s, EndDrag)
  {
  }

  /** A session is consistent when a card is held exactly while dragging and
      the source stack is that card's stack. */
  predicate Consistent(s: DragState) {
    && (s.isDragging <==> s.draggedCard.Some?)
    && (s.draggedCard.Some? ==> s.sourceStackId == Some(s.draggedCard.value.stackId))
    && (s.draggedCard.None? ==> s.sourceStackId.None?)
  }

  lemma ReduceKeepsConsistent(s: DragState, action: DragAction)
    requires Consistent(s)
    ensures Consistent(Reduce(s, action))
  {
  }

  /** Consistency is kept along any run of actions. */
  lemma {:induction false} RunKeepsConsistent(s: DragState, actions: seq<DragAction>)
    requires Consistent(s)
    ensures Consistent(Run(s, actions))
    decreases |actions|
  {
    if actions != [] {
      ReduceKeepsConsistent(s, actions[0]);
      RunKeepsConsistent(Reduce(s, actions[0]), actions[1..]);
    }
  }

  /** The initial state is consistent, so every state reachable from it is:
      while a drag is active, `sourceStackId` is the dragged card's stack. */
  lemma ReachableConsistent(actions: seq<DragAction>)
    ensures Consistent(Initial)
    ensures Consistent(Run(Initial, actions))
  {
    RunKeepsConsistent(Initial, actions);
  }
}
