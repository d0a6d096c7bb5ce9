# Wishlist dock: a Dafny model of its logic

The wishlist dock is an embeddable widget. A bar at the bottom of the page holds
*stacks* (named collections with a cover), and each stack holds *cards* (wish
items with a name, an optional description, a cover and a position). The user
opens a stack as a swipeable deck, drags cards onto a trash target or into
other stacks, searches stacks by name, and opens a full-screen overview. The
widget ships as the custom element `<wishlist-dock>`.

This project models the parts of the widget that make decisions, as pure
functions over immutable values, and proves what they guarantee:

- **The store** (`MockApi`). The stack/card store is two sequences. Every
  operation returns a new store or a `StoreError` in place of the exception.
  Two invariants are stated and proved preserved by every operation:
  - no orphan cards;
  - each stack's `cardCount` equals its actual number of cards.

  `updateCard` does not check that a move target exists. It is modelled as
  written, with a counterexample lemma showing that such a move creates an
  orphan.
- **The reducers** (`DragSlice`, `UiSlice`). Each is a total function of
  state and action. Frame lemmas state what each action changes. Trace lemmas
  state the invariants that every reachable state keeps.
- **The data layer** (`ApiSlice`). This covers the error wrapping of each
  endpoint and the cache-tag relation: which mutations refetch which queries.
  A coherence lemma connects the tags to the store: no cached list survives a
  change to its collection.
- **Drag and drop** (`DraggableCard`, `TrashDropZone`). This covers the
  release decision, the trash hit-test and its write-on-change effect.
- **The swipe gesture** (`SwipeableCard`). This covers the commit/snap-back
  decision and the re-entrancy guard. A trace lemma shows that `onSwipe`
  fires once per commit, in order.
- **Views and forms** (`CardView`, `Dock`, `FullScreenView`, `CardDialog`,
  `StackDialog`). This covers filters, selection, navigation bounds, drop
  routing, form defaults, validation and trimming. It also covers how a saved
  form becomes a store mutation.
- **The embedding shell** (`WishlistDockElement`, `WishlistDockRoot`). This
  covers attribute parsing and the queue of operations requested before the
  app is ready, which runs in FIFO order and is dropped on unmount. It also
  covers `addCard`'s choice of target stack.

Helper modules: `Common` (Option, Result), `Seqs` (order-preserving filter,
first-match search, removal at an index), `Types` (the shared records) and
`Text` (lower-casing, substring test, whitespace trim).

Behaviour of the code worth knowing:
- `startDrag` overwrites an active drag; there is no guard against a second one.
- Arrow navigation stops at the first and the last card; it does not wrap.
- No code dispatches `setHoveredStack`, so a release can only reach the trash
  (`DraggableCard.OnlyTrashDropsWithoutRegistry`).
- Deleting a stack does not clear the active selection.
- The drag state read by the components has an `isHoveringTrash` flag, which
  `src/store/slices/dragSlice.ts` neither declares nor resets. The model adds
  it with a plain setter, and `endDrag` leaves it alone. The trash zone's
  effect, still running while the zone's exit animation plays, clears it after
  release (`TrashDropZone.ReleaseSettlesToInitial`).

## Model

| member | source | states |
|---|---|---|
| MockApi.LoadFromStorage | src/utils/mockApi.ts:36-53 | Nothing stored gives the empty store. A stored field that is not an array becomes empty. The cards kept are, in order, the stored cards whose stack was stored, each as often as it was stored, so none is an orphan. |
| MockApi.SyncStackCardCounts | src/utils/mockApi.ts:63-69 | Every count becomes the actual number of cards in that stack. Cards, stack order and every other stack field are unchanged. |
| MockApi.InitializeValid | src/utils/mockApi.ts:36-74 | After start-up, no card is an orphan and every count is right, given stored stack ids are distinct. |
| MockApi.CreateStack | src/utils/mockApi.ts:83-96 | Appends a stack with the fresh id, the request's name and cover, and no cards. Cards are unchanged. |
| MockApi.UpdateStack | src/utils/mockApi.ts:98-114 | Fails exactly when no stack has the id. Otherwise it replaces the first such stack with the request merged in, keeping its id and count. Cards and other stacks are unchanged. |
| MockApi.DeleteStack | src/utils/mockApi.ts:116-126 | Fails exactly when no stack has the id. Otherwise it removes the first stack with that id and every card naming it, and keeps every other card, as often as it occurred, in order. |
| MockApi.InsertByPosition | src/utils/mockApi.ts:135 | Inserting into a position-sorted list keeps it sorted and adds exactly that one card. |
| MockApi.SortByPosition | src/utils/mockApi.ts:135 | The result is sorted by ascending position and is a permutation of the input. |
| MockApi.GetCards | src/utils/mockApi.ts:129-139 | With a non-empty stack id, returns every card of that stack, each as often as it is stored, in ascending position. Otherwise returns every card in storage order. |
| MockApi.MaxPosition | src/utils/mockApi.ts:151-154 | The fold from -1 is at least every position, and is -1 or one of them. |
| MockApi.NextPosition | src/utils/mockApi.ts:150-162 | The new position is non-negative and above every position in the stack. It is 0 or one past an existing position. |
| MockApi.CreateCard | src/utils/mockApi.ts:141-175 | Fails exactly when the stack is unknown. Otherwise it appends the card at the stack's next position and increments that stack's count. |
| MockApi.DecrementCount | src/utils/mockApi.ts:233-241 | Only the first stack with the id changes: its count drops by one but not below 0. |
| MockApi.IncrementCount | src/utils/mockApi.ts:206-210 | Only the first stack with the id, if any, changes: its count grows by one. |
| MockApi.UpdateCard | src/utils/mockApi.ts:177-222 | Fails exactly when the card is unknown. Otherwise the first card with the id has every field merged, keeping its id and position. Counts move only when the new stack id is non-empty and differs: the source is decremented (clamped at 0), then the target is incremented if it exists. |
| MockApi.DeleteCard | src/utils/mockApi.ts:224-245 | Fails exactly when the card is unknown. Otherwise it removes the first card with the id and decrements its stack's count, never below 0. |
| MockApi.CountIsCardsOf | src/utils/mockApi.ts:66 | The recursive card count equals the length of the stack's filtered card list. |
| Seqs.FilterCounts | src/utils/mockApi.ts:124 | `filter` keeps every occurrence of a value its test accepts and none of one it rejects. |
| MockApi.CountWithout | src/utils/mockApi.ts:124 | Dropping one stack's cards leaves every other stack's actual count unchanged. |
| MockApi.CreateStackPreservesValid | src/utils/mockApi.ts:83-96 | With a fresh id, both invariants and id uniqueness survive `createStack`. |
| MockApi.UpdateStackPreservesValid | src/utils/mockApi.ts:98-114 | Both invariants survive `updateStack`. |
| MockApi.DeleteStackPreservesValid | src/utils/mockApi.ts:116-126 | Both invariants survive `deleteStack`, because its cascade removes every card of the deleted stack. |
| MockApi.CreateCardPreservesValid | src/utils/mockApi.ts:141-175 | Both invariants survive `createCard`. |
| MockApi.UpdateCardKeepsStackIds | src/utils/mockApi.ts:190-211 | `updateCard` changes counts only: every stack keeps its place and id. |
| MockApi.UpdateCardKeepsNoOrphans | src/utils/mockApi.ts:187-218 | No card becomes an orphan, provided a requested stack id is non-empty and live. |
| MockApi.MoveCountAt | src/utils/mockApi.ts:190-211 | Moving one unit of count from a card's stack to a target leaves each stack with its actual count minus the card if it was there, plus the card if it is the target. |
| MockApi.UpdateCardCountAt | src/utils/mockApi.ts:190-211 | Under the same proviso, every stack's count after a move equals its actual count. |
| MockApi.UpdateCardPreservesValid | src/utils/mockApi.ts:177-222 | Both invariants survive `updateCard` when the move target exists. |
| MockApi.UpdateCardToMissingStackOrphans | src/utils/mockApi.ts:188-218 | A move to an unknown stack id succeeds and leaves an orphan card: the target is never checked. |
| MockApi.DeleteCardPreservesValid | src/utils/mockApi.ts:224-245 | Both invariants survive `deleteCard`. |
| MockApi.DecrementUndoesIncrement | src/utils/mockApi.ts:233-241 | The clamped decrement undoes an increment of a non-negative count. |
| MockApi.CreateThenDeleteCard | src/utils/mockApi.ts:141-175 | Creating a card with a fresh id and then deleting it restores the exact store. |
| MockApi.CreateThenDeleteStack | src/utils/mockApi.ts:83-96 | Creating a stack with a fresh id and then deleting it restores the exact store. |
| DragSlice.InitialIsIdle | src/store/slices/dragSlice.ts:12-18 | The initial state is not dragging, and card, source, hover and position are all empty. |
| DragSlice.StartDragFrame | src/store/slices/dragSlice.ts:24-28 | `startDrag` sets dragging, the card and its stack as source. Hover, position and the trash flag are unchanged. |
| DragSlice.StartDragOverwritesActiveSession | src/store/slices/dragSlice.ts:24-28 | During an active drag, `startDrag` of another card replaces the dragged card; there is no guard. |
| DragSlice.UpdateDragPositionFrame | src/store/slices/dragSlice.ts:29-34 | Only the position changes, whether or not a drag is active. |
| DragSlice.SetHoveredStackFrame | src/store/slices/dragSlice.ts:35-37 | Only the hovered stack changes. |
| DragSlice.SetHoveringTrashFrame | src/components/Cards/TrashDropZone.tsx:39-41 | The trash setter that the components use changes only the trash flag. |
| DragSlice.EndDragResets | src/store/slices/dragSlice.ts:38-44 | From any state, `endDrag` yields the initial state apart from the undeclared trash flag, and it is idempotent. |
| DragSlice.ReduceKeepsConsistent | src/store/slices/dragSlice.ts:20-46 | Every action keeps this rule: a card is held exactly while dragging, and the source is that card's stack. |
| DragSlice.RunKeepsConsistent | src/store/slices/dragSlice.ts:24-44 | The same rule holds after any sequence of actions from a consistent state. |
| DragSlice.ReachableConsistent | src/store/slices/dragSlice.ts:12-44 | The initial state is consistent, and so is every state reachable from it. |
| UiSlice.SimpleSettersFrame | src/store/slices/uiSlice.ts:46-54 | `setExpanded`, `setActiveStack` and `setSearchQuery` each change only their own field. |
| UiSlice.SetSearchOpenClearsOnClose | src/store/slices/uiSlice.ts:55-60 | Closing the search also clears the query; opening keeps it. Nothing else changes. |
| UiSlice.SetFullScreenClearsActiveStack | src/store/slices/uiSlice.ts:75-80 | Entering full screen clears the active stack; leaving does not. Nothing else changes. |
| UiSlice.OpenDialogsFrame | src/store/slices/uiSlice.ts:61-68 | Each dialog opener sets only its own flag and edited entity. |
| UiSlice.CloseDialogsClearsBoth | src/store/slices/uiSlice.ts:69-74 | Both dialogs close and both edited entities are cleared. Nothing else changes. |
| UiSlice.ProjectedViewOpenClose | src/store/slices/uiSlice.ts:81-97 | Opening records the stack and index. Closing restores the initial projection. Nothing else changes. |
| UiSlice.ReduceKeepsWellFormed | src/store/slices/uiSlice.ts:42-99 | Every action keeps two rules. An edited entity exists only while its dialog is open. The projection names a stack exactly while open and is reset while closed. |
| UiSlice.RunKeepsWellFormed | src/store/slices/uiSlice.ts:24-97 | The same rules hold after any sequence of actions from a well-formed state. |
| UiSlice.ReachableWellFormed | src/store/slices/uiSlice.ts:24-97 | The initial state is well formed, and so is every state reachable from it. |
| ApiSlice.Wrap | src/store/api/apiSlice.ts:19-25 | An endpoint never throws. Success becomes data; a store error becomes an error value carrying the error's string form. |
| ApiSlice.ErrorMessageNamesId | src/utils/mockApi.ts:103-106 | The error text starts with "Error: " and ends with the missing id. |
| ApiSlice.ProvidesTags | src/store/api/apiSlice.ts:27-33 | A query provides its collection tag always, plus one tag per returned id when there is a result, and no other tags. |
| ApiSlice.EveryMutationRefetchesStacks | src/store/api/apiSlice.ts:36-141 | Every mutation, including each one that can change a card count, invalidates the Stack LIST tag, so the stack list is refetched. |
| ApiSlice.CardQueriesRefetchedIffTouchesCards | src/store/api/apiSlice.ts:36-141 | A card query is refetched exactly after `deleteStack` and the three card mutations; `createStack` and `updateStack` spare it. |
| ApiSlice.InvalidationCoversChanges | src/store/api/apiSlice.ts:12-143 | Whenever a successful mutation changes the cards (or the stacks) in the store, every card (or stack) query is refetched. |
| ApiSlice.GetCardsEndpoint | src/store/api/apiSlice.ts:79-87 | An empty stack id reads every card in storage order. A non-empty one reads every card of that stack, each as often as it is stored, in ascending position. |
| ApiSlice.GetStacksEndpoint | src/store/api/apiSlice.ts:18-26 | The stack query answers with the store's stack list. |
| DraggableCard.PointerDown | src/components/Cards/DraggableCard.tsx:41-44 | Pressing the handle makes this card the dragged one, from its own stack, at the pointer position. |
| DraggableCard.IsBeingDragged | src/components/Cards/DraggableCard.tsx:35 | A card is being dragged when a drag is active and the dragged card has its id. |
| DraggableCard.ListensForRelease | src/components/Cards/DraggableCard.tsx:69-70 | The global release listeners are installed only while this card is being dragged. |
| DraggableCard.PointerDownListens | src/components/Cards/DraggableCard.tsx:35-44 | After a card's handle is pressed, exactly the cards with its id listen for the release. |
| DraggableCard.ReleaseStopsListening | src/components/Cards/DraggableCard.tsx:69-103 | After a release, no card is being dragged and none listens any more. |
| DraggableCard.ReleaseDecision | src/components/Cards/DraggableCard.tsx:76-90 | Trash wins when hovered with a handler. Otherwise a stack drop happens exactly for a non-empty hovered stack other than the card's own, when a drop handler exists. At most one callback fires. |
| DraggableCard.HandleGlobalUp | src/components/Cards/DraggableCard.tsx:76-92 | Whatever the outcome, the release ends the session. |
| DraggableCard.CancelIsRelease | src/components/Cards/DraggableCard.tsx:94-96 | A cancelled pointer has the same outcome as a lifted one. |
| DraggableCard.TrashBeatsStack | src/components/Cards/DraggableCard.tsx:78-79 | Over the trash with a trash handler, the trash callback fires whatever stack is hovered. |
| DraggableCard.NoSelfDrop | src/components/Cards/DraggableCard.tsx:82-89 | A card is never dropped onto its own stack. |
| DraggableCard.ReleaseEndsSession | src/components/Cards/DraggableCard.tsx:91 | After the release, the slice's fields are back at their initial values. |
| DraggableCard.NoHoverRegistry | src/store/slices/dragSlice.ts:35-37 | Without a `setHoveredStack` dispatch, no stack is ever hovered. |
| DraggableCard.OnlyTrashDropsWithoutRegistry | src/components/Cards/DraggableCard.tsx:76-92 | Since no code dispatches `setHoveredStack`, a release can only fire the trash callback. |
| TrashDropZone.ElementRect | src/components/Cards/TrashDropZone.tsx:44-46 | The zone, and so its box, exists exactly while a drag is active. |
| TrashDropZone.HitTest | src/components/Cards/TrashDropZone.tsx:24-42 | The effect dispatches only when the flag differs from inclusive containment of the position, and then dispatches that value. |
| TrashDropZone.SettleIsIdempotent | src/components/Cards/TrashDropZone.tsx:39-41 | The effect changes only the flag, and running it again dispatches nothing. |
| TrashDropZone.IdleDrivesFlagFalse | src/components/Cards/TrashDropZone.tsx:25-30 | With no drag, no position or no element, the flag ends up false. |
| TrashDropZone.EdgeIsOverTrash | src/components/Cards/TrashDropZone.tsx:33-41 | During a drag, a pointer exactly on the zone's left or right edge leaves the trash flag set once the effect has run. |
| TrashDropZone.ReleaseSettlesToInitial | src/components/Cards/DragOverlay.tsx:63-65 | After `endDrag` the zone, kept mounted by `AnimatePresence` for its exit, renders nothing while the exit runs, and its effect clears the flag, which gives exactly the initial drag state. |
| SwipeableCard.DirectionOf | src/components/Cards/SwipeableCard.tsx:92 | The direction is right exactly for a positive offset. |
| SwipeableCard.TargetX | src/components/Cards/SwipeableCard.tsx:93-96 | The card flies out to plus or minus two card widths. |
| SwipeableCard.HandleDragEnd | src/components/Cards/SwipeableCard.tsx:81-108 | A drag end is ignored while animating. It commits exactly when either magnitude strictly exceeds its threshold, and otherwise snaps back to 0 with no swipe. |
| SwipeableCard.CompleteAnimation | src/components/Cards/SwipeableCard.tsx:100-103 | Completion reports the committed direction once and clears the guard. |
| SwipeableCard.OnDragEnd | src/components/Cards/SwipeableCard.tsx:138-140 | Only the top card reacts to a drag end. |
| SwipeableCard.OneSwipePerCommit | src/components/Cards/SwipeableCard.tsx:81-108 | Over any event sequence, the swipes reported plus the one in flight are exactly the commits, in order. |
| SwipeableCard.SwipesFollowCommits | src/components/Cards/SwipeableCard.tsx:98-104 | From rest, `onSwipe` is called once per commit, in commit order. |
| SwipeableCard.NonTopNeverSwipes | src/components/Cards/SwipeableCard.tsx:138-140 | A card below the top, at rest, ignores every event: it keeps its state, never flies out and never reports a swipe. |
| SwipeableCard.MirroredDragEnd | src/components/Cards/SwipeableCard.tsx:84-96 | From rest, a mirrored drag end commits exactly when the original does, and with a non-zero offset it flies to the opposite side. |
| SwipeableCard.CommitIsMonotone | src/components/Cards/SwipeableCard.tsx:87-90 | A larger offset magnitude never turns a commit into a snap-back. |
| SwipeableCard.DepthIndex | src/components/Cards/SwipeableCard.tsx:110-113 | For a non-empty table, the depth index is in range and equals the card's depth or the last index. |
| SwipeableCard.DeepCardsShareLastConfig | src/components/Cards/SwipeableCard.tsx:110-113 | Cards deeper than the table use its last entry. |
| CardView.CurrentCard | src/components/Cards/CardView.tsx:80 | The current card exists exactly when the active index is in range. |
| CardView.Counter | src/components/Cards/CardView.tsx:161-168 | The counter shows "index + 1 / count", and only when there are cards. |
| CardView.CounterAfterKeys | src/components/Cards/CardView.tsx:84-168 | After any key presses the counter reads a position from 1 up to the number of cards. |
| CardView.SlidePrev | src/components/Cards/CardView.tsx:183 | The previous move goes back one and stops at the first card. |
| CardView.SlideNext | src/components/Cards/CardView.tsx:261 | The next move goes forward one and stops at the last card, staying in range. |
| CardView.ArrowsDisabledAtEnds | src/components/Cards/CardView.tsx:181-273 | Each arrow is disabled exactly where its move would do nothing: there is no wrap-around. |
| CardView.ArrowsShown | src/components/Cards/CardView.tsx:181 | The arrow buttons exist only in modal mode with at least one card. |
| CardView.ArrowsMatchKeys | src/components/Cards/CardView.tsx:181-261 | Wherever the arrow buttons are shown, the arrow keys make the same moves as the buttons. |
| CardView.HandleKey | src/components/Cards/CardView.tsx:84-94 | Keys act only in modal mode, by their `key` string: "Escape" closes, "ArrowLeft" goes back, "ArrowRight" goes forward, and every other string does nothing. |
| CardView.IndexAfterKey | src/components/Cards/CardView.tsx:87-91 | A key press keeps the active index in range. |
| CardView.IndexAfterKeys | src/components/Cards/CardView.tsx:84-94 | Any sequence of key presses keeps the active index in range. |
| CardView.KeysNeverMoveInDockMode | src/components/Cards/CardView.tsx:84-85 | In dock mode, no sequence of key presses moves the active card. |
| CardView.BackdropClickCloses | src/components/Cards/CardView.tsx:104-108 | A click closes the view only in modal mode and only on the container itself. |
| CardView.BackdropLikeEscape | src/components/Cards/CardView.tsx:84-108 | A click on the backdrop itself closes exactly where Escape closes; a click inside never does. |
| CardView.OtherStacks | src/components/Cards/CardView.tsx:81 | The result is every stack except the shown one, each as often as it occurs, in order; all stacks when none is shown. |
| CardView.AllowTouchMove | src/components/Cards/CardView.tsx:206 | Swiping is off exactly while a drag is active. |
| CardView.TouchFollowsDrag | src/components/Cards/CardView.tsx:78-206 | Pressing a card's drag handle turns swiping off, and every release turns it back on. |
| CardView.DropRoute | src/components/Cards/CardView.tsx:220 | Drops go to the move handler exactly in modal mode, and to the dock's drop handler otherwise. |
| CardView.ModalDropMatchesMenu | src/components/Cards/CardView.tsx:220-312 | In the modal, dragging the current card onto another stack calls `onMoveCard` with the same card and target as picking that stack in the move menu. |
| CardView.MoveMenuChoice | src/components/Cards/CardView.tsx:306-312 | A menu choice moves the current card to the chosen stack, and needs a current card. |
| CardView.MoveMenuVisible | src/components/Cards/CardView.tsx:277 | The move menu shows in modal mode with a current card and at least one other stack. |
| CardView.MenuVisibleIff | src/components/Cards/CardView.tsx:81-277 | The menu is visible exactly in modal mode, with the active index in range, when some stack other than the shown one exists. |
| CardView.VisibleMenuMoves | src/components/Cards/CardView.tsx:277-312 | While the menu is visible, every entry moves the current card to a live stack other than the shown one. |
| CardView.MenuNeverTargetsShownStack | src/components/Cards/CardView.tsx:305-312 | The move menu never offers the shown stack as a target. |
| Dock.ToggleActive | src/components/Dock/Dock.tsx:52-54 | Clicking the active stack deselects it; clicking any other stack selects it. |
| Dock.ToggleTwice | src/components/Dock/Dock.tsx:52-54 | Two clicks restore an empty selection or the same stack. From another selected stack they leave nothing selected. |
| Dock.FilteredStacks | src/components/Dock/Dock.tsx:122-124 | An order-preserving sublist holding every stack whose lower-cased name contains the lower-cased query, as often as it occurs, and no other. |
| Dock.EmptyQueryKeepsAll | src/components/Dock/Dock.tsx:122-124 | An empty query keeps every stack. |
| Dock.ActiveStack | src/components/Dock/Dock.tsx:126 | The first stack with the active id, or none exactly when no stack has it. |
| Dock.ActiveStackCards | src/components/Dock/Dock.tsx:127 | Every card of the active stack, as often as it occurs, in order, and none when nothing is active. |
| Dock.Render | src/components/Dock/Dock.tsx:126-151 | Minimized exactly when collapsed or loading. The deck shows exactly when a non-empty active id names a loaded stack; it then holds the first stack with that id and that stack's cards in storage order, each as often as it occurs. |
| Dock.ClickOpensDeck | src/components/Dock/Dock.tsx:52-151 | In the expanded, loaded dock, clicking a stack that is not active shows the deck of the first stack with that id, holding its cards in storage order; clicking it again closes the deck. |
| Dock.SaveStack | src/components/Dock/Dock.tsx:60-70 | Saving updates the edited stack when there is one, and creates a stack otherwise. |
| Dock.SaveStackStoresForm | src/components/Dock/Dock.tsx:60-70 | Through the store, the saved name and cover end up on the edited stack or on the new one. |
| Dock.DescriptionOf | src/components/Dock/Dock.tsx:96 | An empty description is sent as absent. |
| Dock.SaveCard | src/components/Dock/Dock.tsx:84-112 | Saving updates the edited card when there is one, and creates a card otherwise. |
| Dock.SaveCardStoresForm | src/components/Dock/Dock.tsx:84-112 | Through the store, the saved card carries exactly the form's fields, and an emptied description is removed. |
| FullScreenView.FilteredStacks | src/components/FullScreen/FullScreenView.tsx:73-77 | An empty deferred query shows every stack. Otherwise the result is the case-insensitive substring filter, in order, keeping every matching stack as often as it occurs. |
| FullScreenView.SameFilterAsDock | src/components/FullScreen/FullScreenView.tsx:73-77 | The overview and the dock filter stacks identically for every query. |
| FullScreenView.SectionCards | src/components/FullScreen/FullScreenView.tsx:133 | Each section receives every card of its own stack, as often as it occurs, in order. |
| FullScreenView.ProjectedStack | src/components/FullScreen/FullScreenView.tsx:79-82 | A stack is projected only while the view is open with a non-empty id. It is the first stack with that id, and none exists exactly when no stack has the id. |
| FullScreenView.ProjectedCards | src/components/FullScreen/FullScreenView.tsx:84-87 | The projected stack's cards while open, and none otherwise. |
| FullScreenView.ClickOpensSection | src/components/FullScreen/FullScreenView.tsx:133-150 | Clicking a card in a listed stack shows the modal for that stack, with the section's cards from the clicked index, and Escape stops leaving full screen. Expanding a section is clicking its first card. |
| FullScreenView.CloseHidesModal | src/components/FullScreen/FullScreenView.tsx:67-69 | Closing the projected view hides the modal and lets Escape leave full screen again. |
| FullScreenView.EmptyState | src/components/FullScreen/FullScreenView.tsx:117-127 | The empty state shows exactly when no stack passes the filter. Its action clears the search when a query was typed, and creates a stack otherwise. |
| FullScreenView.EmptyStateWithoutSearchMeansNoStacks | src/components/FullScreen/FullScreenView.tsx:117-127 | With no search, the create-stack empty state appears exactly when there are no stacks. |
| CardDialog.InitialStackId | src/components/Dialogs/CardDialog.tsx:55-57 | The initial stack is the edited card's, else the given initial one, else the first stack's, else empty. |
| CardDialog.InitialForm | src/components/Dialogs/CardDialog.tsx:52-57 | The fields start from the edited card (with no description as empty), or empty for a new card. |
| CardDialog.NewCardDefaultsToFirstStack | src/components/Dialogs/CardDialog.tsx:55-57 | A new card with no initial stack goes to the first stack. |
| CardDialog.Save | src/components/Dialogs/CardDialog.tsx:63-71 | The name and description are trimmed: only whitespace is removed, from either end, and neither result starts or ends with whitespace. Each is empty exactly when its field is all whitespace. Cover and stack are unchanged. |
| CardDialog.SavedFormIsClean | src/components/Dialogs/CardDialog.tsx:63-74 | A savable form yields a non-blank name and a cover, and saving is idempotent. |
| CardDialog.BlankNameCannotSave | src/components/Dialogs/CardDialog.tsx:74 | A name made only of whitespace disables Save. |
| CardDialog.IsEditMode | src/components/Dialogs/CardDialog.tsx:73 | The dialog edits a card exactly when one is given. |
| CardDialog.Title | src/components/Dialogs/CardDialog.tsx:78 | The title is "Edit Card" exactly in edit mode and "Add Card" otherwise. |
| CardDialog.OpenedDialogTitle | src/store/slices/uiSlice.ts:65-68 | Opening the card dialog with a card shows "Edit Card"; opening it with none shows "Add Card". |
| CardDialog.EditModeStartsFromCard | src/components/Dialogs/CardDialog.tsx:52-78 | Editing starts from the card's values and can be saved at once when the card has a non-blank name and a cover. Adding starts blank and cannot be saved yet. |
| FormDialog.Step | src/components/Dialogs/CardDialog.tsx:156-176 | Opening a closed dialog mounts a fresh form holding the initial values, reopening an open one changes nothing, closing unmounts the form, and typing reaches only a mounted form. |
| FormDialog.RunKeepsMounted | src/components/Dialogs/StackDialog.tsx:104-112 | Along any run of events the form exists exactly while the dialog is open. |
| FormDialog.ReopenReinitialises | src/components/Dialogs/CardDialog.tsx:45-58 | Whatever was typed, closing and reopening shows the initial values again. |
| StackDialog.InitialForm | src/components/Dialogs/StackDialog.tsx:29-32 | The form starts with the edited stack's name and cover, or an empty name and the first gradient. |
| StackDialog.Save | src/components/Dialogs/StackDialog.tsx:34-37 | The name is trimmed: only whitespace is removed, from either end; the result neither starts nor ends with whitespace, and is empty exactly when the name is all whitespace. The cover is the selected one. |
| StackDialog.SavedStackIsClean | src/components/Dialogs/StackDialog.tsx:34-37 | A savable form yields a non-blank name, and saving is idempotent. |
| StackDialog.NewStackHasCover | src/components/Dialogs/StackDialog.tsx:29-32 | A new stack starts with a cover, and Save stays disabled until a name is typed. |
| StackDialog.ReopenShowsStack | src/components/Dialogs/StackDialog.tsx:28-32 | Reopening the dialog for a stack shows that stack's name and cover again, whatever was typed before. |
| StackDialog.IsEditMode | src/components/Dialogs/StackDialog.tsx:39 | The dialog edits a stack exactly when one is given. |
| StackDialog.Title | src/components/Dialogs/StackDialog.tsx:43 | The title is "Edit Stack" exactly in edit mode and "Create Stack" otherwise. |
| StackDialog.OpenedDialogTitle | src/store/slices/uiSlice.ts:61-64 | Opening the stack dialog with a stack shows "Edit Stack"; opening it with none shows "Create Stack". |
| WishlistDockElement.ParsePosition | src/web-component/WishlistDockElement.ts:129-134 | The two recognised values map to themselves; anything else, including no attribute, gives the centre. |
| WishlistDockElement.ParseTheme | src/web-component/WishlistDockElement.ts:57 | Dark exactly for the value "dark". |
| WishlistDockElement.AttributeValuesRoundTrip | src/web-component/WishlistDockElement.ts:129-172 | Every position and theme written by the setters parses back to itself. |
| WishlistDockElement.SettersTakeEffect | src/web-component/WishlistDockElement.ts:154-172 | While the parsed fields mirror the attributes, the getters read back what the `theme` and `position` setters wrote, and the queue is untouched. |
| WishlistDockElement.Connected | src/web-component/WishlistDockElement.ts:17-34 | A freshly constructed element, once connected, is not ready, has an empty queue, and has its theme and position parsed. Attribute callbacks for the initial attributes are later events. |
| WishlistDockElement.WhenReady | src/web-component/WishlistDockElement.ts:146-152 | An operation runs at once when ready, and otherwise joins the back of the queue. |
| WishlistDockElement.HandleReady | src/web-component/WishlistDockElement.ts:119-127 | The element becomes ready, runs the queue front to back, and leaves it empty. |
| WishlistDockElement.Unmount | src/web-component/WishlistDockElement.ts:95-103 | The element stops being ready and drops every queued operation unrun. |
| WishlistDockElement.AttributeChanged | src/web-component/WishlistDockElement.ts:48-76 | An unchanged value has no effect. |
| WishlistDockElement.AttributeChangeFrame | src/web-component/WishlistDockElement.ts:53-74 | A changed theme or position is re-parsed. A changed `open` queues, or runs, the sync to the attribute's presence. Nothing else changes. |
| WishlistDockElement.StepKeepsOrder | src/web-component/WishlistDockElement.ts:119-152 | Each event other than unmount appends its request, if any, to the operations run followed by those queued. |
| WishlistDockElement.RequestsRunInOrder | src/web-component/WishlistDockElement.ts:119-152 | Without an unmount, the operations run followed by those queued are exactly the requests, in order, and the queue is empty whenever ready. |
| WishlistDockElement.ReadyRunsAllRequests | src/web-component/WishlistDockElement.ts:119-127 | At the ready signal, every earlier request has run, in FIFO order. |
| WishlistDockElement.DisconnectDropsQueue | src/web-component/WishlistDockElement.ts:95-103 | An operation queued before an unmount never runs. |
| WishlistDockElement.RunSyncOpen | src/web-component/WishlistDockElement.ts:66-72 | `setExpanded` is dispatched only when the state differs, and afterwards the state matches the attribute. |
| WishlistDockElement.ApplyOperation | src/web-component/WishlistDockElement.ts:190-208 | An `open` sync or `openDock`/`closeDock` sets the expanded state; a queued `toggle()` flips the state it finds; other requests leave the UI state alone. |
| WishlistDockElement.LastOpenChangeWins | src/web-component/WishlistDockElement.ts:66-74 | When only other requests (no toggle) follow the last operation that sets the expanded state, that operation decides whether the dock ends up expanded. |
| WishlistDockElement.ToggleAfterwardsFlips | src/web-component/WishlistDockElement.ts:200-208 | A `toggle()` queued after any operations ends in the opposite of the state they leave. |
| WishlistDockElement.OpenThenToggleCollapses | src/web-component/WishlistDockElement.ts:200-208 | The `open` attribute followed by `toggle()` before the app is ready ends collapsed. |
| WishlistDockElement.Register | src/web-component/WishlistDockElement.ts:231-235 | An already defined tag is left alone. Otherwise the tag is defined for the element class. This fails with `SyntaxError` exactly when the name is not a valid custom element name, and with `NotSupportedError` when the class is already defined under another tag. |
| WishlistDockElement.RegisterDefinesOnce | src/web-component/WishlistDockElement.ts:231-235 | Registering keeps the registry well formed (only valid names defined), and repeating it changes nothing. Once the class is defined, registering a second, unused name fails, with `NotSupportedError` when that name is valid. |
| WishlistDockElement.NameExamples | src/web-component/WishlistDockElement.ts:231-233 | The default tag "wishlist-dock" is a valid custom element name; "dock", "Wish-list" and "font-face" are not. |
| WishlistDockElement.DefaultRegistration | src/web-component/WishlistDockElement.ts:231-235 | On a page with nothing defined, `register()` defines "wishlist-dock" for the element. |
| WishlistDockRoot.AddCardTarget | src/web-component/WishlistDockRoot.tsx:78-85 | The target is the given non-empty stack id, else the first cached stack's. It fails with "No stack available" exactly when neither gives a non-empty id. |
| WishlistDockRoot.AddCard | src/web-component/WishlistDockRoot.tsx:74-101 | Without a target, it fails before any create. Every failure carries one of the two fixed messages. |
| WishlistDockRoot.AddCardOutcome | src/web-component/WishlistDockRoot.tsx:87-100 | It succeeds exactly when the target is a live stack, and returns the stored card in that stack. Otherwise it fails with "Failed to create card". |
| WishlistDockRoot.GetStacks | src/web-component/WishlistDockRoot.tsx:102-105 | The cached stack list, or an empty list before the first answer. |
| WishlistDockRoot.GetStacksReadsStore | src/web-component/WishlistDockRoot.tsx:102-105 | Once the stack query has answered, `getStacks` returns the store's stacks. |
| WishlistDockRoot.ToggleTheme | src/web-component/WishlistDockRoot.tsx:111-113 | The toggle always changes the theme. |
| WishlistDockRoot.ToggleThemeTwice | src/web-component/WishlistDockRoot.tsx:111-113 | Toggling twice restores the theme. |
| WishlistDockRoot.InitialOpen | src/web-component/WishlistDockRoot.tsx:61-65 | With `initialOpen` the store is expanded, and nothing else changes. |
| WishlistDockRoot.InitiallyOpenReportsExpanded | src/web-component/WishlistDockRoot.tsx:61-72 | A fresh widget's `isExpanded` reports exactly `initialOpen`. |

## Left out

- Persistence, latency and identity are left out: the `localStorage` read and write, JSON parsing, the random `delay` and the random or time-based `generateId`. Fresh ids are parameters, and the lemmas that need freshness require it.
- Timestamps are left out: `createdAt` and `updatedAt` are never read by the modelled logic.
- Copies are left out: the copies returned by `getStacks` and `getCards` are identities on immutable values.
- MockApi.UpdateCard: a request key explicitly set to `undefined` is modelled only for `description`, where it clears the field. An `undefined` name, cover or stack id would write `undefined` into a string field, and no caller sends one.
- MockApi.CreateCard: `cardCount || 0` is the count itself, because counts are integers here. A missing or non-numeric stored count is not modelled.
- MockApi.SortByPosition: the sort is an insertion sort that keeps equal positions in storage order, but only sortedness and permutation are stated, not stability.
- MockApi.InitializeValid: it assumes stored stack ids are distinct. They were generated by `generateId`, whose randomness is not modelled.
- Number semantics are left out. Positions, counts and indices are unbounded integers; pointer coordinates, offsets and velocities are reals. Floating-point rounding is not modelled.
- The RTK Query cache machinery is left out: subscriptions, loading flags (a parameter of `Dock.Render`) and the store wiring in `src/store/index.ts`. Only the tag relation is modelled, with the refetch rule that a query is refetched when a provided tag meets an invalidated one.
- Animation and carousel libraries are left out: framer-motion's springs and motion-value interpolation, and the carousel's slide mechanics, initial `slideTo` and dot indicators.
- CardView.SlidePrev: the carousel's previous and next moves (without `loop`) are taken to be one bounded step. The library is not part of this model.
- The deck's `zIndex` of `10 - stackIndex` is presentation only and is left out.
- SwipeableCard.CompleteAnimation: it assumes the animation library reports completion once per started animation. The threshold constants and the depth table are parameters, because they are missing from `src/constants/index.ts`.
- Text.ToLower: lower-casing covers ASCII letters only. The substring test is exact; full Unicode case mapping is not modelled.
- Text.Trim: whitespace is the ASCII set plus no-break space and the byte-order mark, not every Unicode space separator.
- Presentation-only components are left out: they hold styling and render conditions only, or repeat filters that are already modelled. These are `CardDeck`, `CardSwiper`, `DotIndicators`, `StackSection`, `CardThumbnail`, `Card`, `DockExpanded`, `DockMinimized`, `StackThumbnail`, `SearchBar`, `EmptyState`, `ConfirmDialog`, `FullScreenHeader` and `DragOverlay`.
- Dock's other handlers (add, edit, delete card; search toggles) are single dispatches or mutations. Their errors are only logged, so they are left out.
- The custom element's DOM work is left out: shadow-root mounting, style injection, custom events (`dock-ready`, `theme-changed`), `handle.setTheme`, the `open` property accessors, and the attribute writes of `openDock`, `closeDock` and `toggle`, and `addCard`'s promise. Their queued effects on the expanded state are modelled (`WishlistDockElement.ApplyOperation`), and `addCard` is an opaque queued request.
- WishlistDockElement.ValidCustomElementName: the name rule is the `PotentialCustomElementName` production with its reserved names; a later relaxation of that rule, if the browser implements one, is not modelled.
- The element's "Widget not initialized" path is left out, as is the promise plumbing of `addCard`.
- Theme, build and bootstrap code is left out: it is configuration with no decisions.
- The `notification` field of the UI state is carried, but no reducer in `src/store/slices/uiSlice.ts` sets it.
