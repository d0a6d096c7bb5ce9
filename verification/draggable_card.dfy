/** The drag handle and release decision of a card in the dock
    (`src/components/Cards/DraggableCard.tsx`). The component keeps the
    latest hover values and callbacks in refs, so the release handler sees
    the drag state current at release; the model passes that state in. */
module DraggableCard {
  import opened Common
  import opened Types
  import opened DragSlice

  /** The card is the one currently dragged (compared by id). */
  predicate IsBeingDragged(s: DragState, card: Card) {
    s.isDragging && s.draggedCard.Some? && s.draggedCard.value.id == card.id
  }

  /** Pressing the drag handle: `startDrag(card)`, then the pointer position. */
  function PointerDown(s: DragState, card: Card, p: Point): (r: DragState)
    ensures IsBeingDragged(r, card)
    ensures r.draggedCard == Some(card) && r.sourceStackId == Some(card.stackId) && r.dragPosition == Some(p)
    ensures r.hoveredStackId == s.hoveredStackId && r.isHoveringTrash == s.isHoveringTrash
  {
    Reduce(Reduce(s, StartDrag(card)), UpdateDragPosition(p))
  }

  /** The global listeners exist only while this card is the dragged one, so
      only that card reacts to a release. */
  predicate ListensForRelease(s: DragState, card: Card) {
    s.isDragging && IsBeingDragged(s, card)
  }

  datatype ReleaseEvent = PointerUp | PointerCancel

  /** The callback a release fires, if any. */
  datatype DropCallback = TrashDrop(trashed: Card) | StackDrop(moved: Card, targetStackId: string)

  /** Trash first (when a trash handler is given); otherwise a stack drop when
      the hovered stack is non-empty, differs from the card's own stack, and a
      drop handler is given. */
  function ReleaseDecision(card: Card, hoveringTrash: bool, hovered: Option<string>,
                           hasTrashHandler: bool, hasDropHandler: bool): (c: Option<DropCallback>)
    ensures (c.Some? && c.value.TrashDrop?) <==> hoveringTrash && hasTrashHandler
    ensures (c.Some? && c.value.StackDrop?) <==>
              && !(hoveringTrash && hasTrashHandler)
              && Truthy(hovered) && hovered.value != card.stackId && hasDropHandler
    ensures c.Some? && c.value.TrashDrop? ==> c.value.trashed == card
    ensures c.Some? && c.value.StackDrop? ==> c.value == StackDrop(card, hovered.value)
  {
    if hoveringTrash && hasTrashHandler then Some(TrashDrop(card))
    else if Truthy(hovered) && hovered.value != card.stackId && hasDropHandler then Some(StackDrop(card, hovered.value))
    else None
  }

  /** `handleGlobalUp`, registered for both `pointerup` and `pointercancel`:
      at most one callback, then `endDrag` whatever happened. */
  function HandleGlobalUp(s: DragState, card: Card, event: ReleaseEvent,
                          hasTrashHandler: bool, hasDropHandler: bool): (r: (Option<DropCallback>, DragState))
    ensures !r.1.isDragging && r.1.draggedCard.None? && r.1.hoveredStackId.None?
    ensures r.1.isHoveringTrash == s.isHoveringTrash
  {
    (ReleaseDecision(card, s.isHoveringTrash, s.hoveredStackId, hasTrashHandler, hasDropHandler), Reduce(s, EndDrag))
  }

  /** Pressing a card's handle makes exactly the cards with its id listen
      for the release, whoever was dragged before. */
  lemma PointerDownListens(s: DragState, card: Card, p: Point, other: Card)
    ensures ListensForRelease(PointerDown(s, card, p), other) <==> other.id == card.id
  {
  }

  /** After a release no card listens any more. */
  lemma ReleaseStopsListening(s: DragState, card: Card, event: ReleaseEvent,
                              hasTrashHandler: bool, hasDropHandler: bool, other: Card)
    ensures !ListensForRelease(HandleGlobalUp(s, card, event, hasTrashHandler, hasDropHandler).1, other)
    ensures !IsBeingDragged(HandleGlobalUp(s, card, event, hasTrashHandler, hasDropHandler).1, other)
  {
  }

  /** A cancelled pointer is released exactly like a lifted one. */
  lemma CancelIsRelease(s: DragState, card: Card, hasTrashHandler: bool, hasDropHandler: bool)
    ensures HandleGlobalUp(s, card, PointerCancel, hasTrashHandler, hasDropHandler)
         == HandleGlobalUp(s, card, PointerUp, hasTrashHandler, hasDropHandler)
  {
  }

  /** Over the trash with a trash handler, the trash wins whatever stack is hovered. */
  lemma TrashBeatsStack(s: DragState, card: Card, event: ReleaseEvent, hasDropHandler: bool)
    requires s.isHoveringTrash
    ensures HandleGlobalUp(s, card, event, true, hasDropHandler).0 == Some(TrashDrop(card))
  {
  }

  /** A card is never dropped back onto its own stack, and a drop always
      carries the released card. */
  lemma NoSelfDrop(s: DragState, card: Card, event: ReleaseEvent, hasTrashHandler: bool, hasDropHandler: bool)
    ensures var c := HandleGlobalUp(s, card, event, hasTrashHandler, hasDropHandler).0;
            c.Some? && c.value.StackDrop? ==> c.value.moved == card && c.value.targetStackId != card.stackId
  {
  }

  /** The release ends the session with the slice's own fields reset. */
  lemma ReleaseEndsSession(s: DragState, card: Card, event: ReleaseEvent, hasTrashHandler: bool, hasDropHandler: bool)
    ensures HandleGlobalUp(s, card, event, hasTrashHandler, hasDropHandler).1 == Initial.(isHoveringTrash := s.isHoveringTrash)
  {
    EndDragResets(s);
  }

  /** Nothing in the program dispatches `setHoveredStack`: along any run of
      the other actions from the initial state no stack is hovered, so a
      release can only ever reach the trash. */
  lemma {:induction false} NoHoverRegistry(s: DragState, actions: seq<DragAction>)
    requires s.hoveredStackId.None?
    requires forall i :: 0 <= i < |actions| ==> !actions[i].SetHoveredStack?
    ensures Run(s, actions).hoveredStackId.None?
    decreases |actions|
  {
    if actions != [] {
      NoHoverRegistry(Reduce(s, actions[0]), actions[1..]);
    }
  }

  /** Consequently, in such a run a release never fires a stack drop. */
  lemma OnlyTrashDropsWithoutRegistry(actions: seq<DragAction>, card: Card, event: ReleaseEvent,
                                      hasTrashHandler: bool, hasDropHandler: bool)
    requires forall i :: 0 <= i < |actions| ==> !actions[i].SetHoveredStack?
    ensures var c := HandleGlobalUp(Run(Initial, actions), card, event, hasTrashHandler, hasDropHandler).0;
            c.Some? ==> c.value.TrashDrop?
  {
    NoHoverRegistry(Initial, actions);
  }
}
