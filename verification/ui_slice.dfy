/** The UI reducer (`src/store/slices/uiSlice.ts`): expansion, active stack,
    search, dialogs, full-screen mode and the projected card view. */
module UiSlice {
  import opened Common
  import opened Types

  datatype ProjectedCardView = ProjectedCardView(isOpen: bool, stackId: Option<string>, initialCardIndex: int)

  const ClosedProjection: ProjectedCardView := ProjectedCardView(false, None, 0)

  datatype UiState = UiState(
    isExpanded: bool,
    isFullScreen: bool,
    activeStackId: Option<string>,
    searchQuery: string,
    isSearchOpen: bool,
    stackDialogOpen: bool,
    cardDialogOpen: bool,
    editingStack: Option<Stack>,
    editingCard: Option<Card>,
    notification: Option<Notification>,
    projectedCardView: ProjectedCardView)

  const Initial: UiState :=
    UiState(false, false, None, "", false, false, false, None, None, None, ClosedProjection)

  datatype UiAction =
    | SetExpanded(expanded: bool)
    | SetActiveStack(stackId: Option<string>)
    | SetSearchQuery(query: string)
    | SetSearchOpen(open: bool)
    | OpenStackDialog(stack: Option<Stack>)
    | OpenCardDialog(card: Option<Card>)
    | CloseDialogs
    | SetFullScreen(fullScreen: bool)
    | OpenProjectedCardView(projectedStackId: string, cardIndex: int)
    | CloseProjectedCardView

  /** The slice's reducer: total over every state and action. */
  function Reduce(s: UiState, action: UiAction): UiState {
    match action
    case SetExpanded(b) => s.(isExpanded := b)
    case SetActiveStack(id) => s.(activeStackId := id)
    case SetSearchQuery(q) => s.(searchQuery := q)
    case SetSearchOpen(b) => if b then s.(isSearchOpen := b) else s.(isSearchOpen := b, searchQuery := "")
    case OpenStackDialog(stack) => s.(stackDialogOpen := true, editingStack := stack)
    case OpenCardDialog(card) => s.(cardDialogOpen := true, editingCard := card)
    case CloseDialogs => s.(stackDialogOpen := false, cardDialogOpen := false, editingStack := None, editingCard := None)
    case SetFullScreen(b) => if b then s.(isFullScreen := b, activeStackId := None) else s.(isFullScreen := b)
    case OpenProjectedCardView(id, index) => s.(projectedCardView := ProjectedCardView(true, Some(id), index))
    case CloseProjectedCardView => s.(projectedCardView := ClosedProjection)
  }

  /** Dispatching a sequence of actions in order. */
  function Run(s: UiState, actions: seq<UiAction>): UiState
    decreases |actions|
  {
    if actions == [] then s else Run(Reduce(s, actions[0]), actions[1..])
  }

  /** `setExpanded`, `setActiveStack` and `setSearchQuery` each change only their own field. */
  lemma SimpleSettersFrame(s: UiState, b: bool, id: Option<string>, q: string)
    ensures Reduce(s, SetExpanded(b)) == s.(isExpanded := b)
    ensures Reduce(s, SetActiveStack(id)) == s.(activeStackId := id)
    ensures Reduce(s, SetSearchQuery(q)) == s.(searchQuery := q)
  {
  }

  /** Closing the search also clears the query; opening it keeps the query. */
  lemma SetSearchOpenClearsOnClose(s: UiState, b: bool)
    ensures var r := Reduce(s, SetSearchOpen(b));
            && r.isSearchOpen == b
            && r.searchQuery == (if b then s.searchQuery else "")
            && r.(isSearchOpen := s.isSearchOpen, searchQuery := s.searchQuery) == s
  {
  }

  /** Entering full screen clears the active stack; leaving it does not. */
  lemma SetFullScreenClearsActiveStack(s: UiState, b: bool)
    ensures var r := Reduce(s, SetFullScreen(b));
            && r.isFullScreen == b
            && r.activeStackId == (if b then None else s.activeStackId)
            && r.(isFullScreen := s.isFullScreen, activeStackId := s.activeStackId) == s
  {
  }

  /** Each dialog opener sets only its own flag and entity. */
  lemma OpenDialogsFrame(s: UiState, stack: Option<Stack>, card: Option<Card>)
    ensures Reduce(s, OpenStackDialog(stack)) == s.(stackDialogOpen := true, editingStack := stack)
    ensures Reduce(s, OpenCardDialog(card)) == s.(cardDialogOpen := true, editingCard := card)
  {
  }

  /** `closeDialogs` closes both dialogs and forgets both edited entities. */
  lemma CloseDialogsClearsBoth(s: UiState)
    ensures var r := Reduce(s, CloseDialogs);
            && !r.stackDialogOpen && !r.cardDialogOpen && r.editingStack.None? && r.editingCard.None?
            && r.(stackDialogOpen := s.stackDialogOpen, cardDialogOpen := s.cardDialogOpen,
                  editingStack := s.editingStack, editingCard := s.editingCard) == s
  {
  }

  /** Opening the projected view records the stack and index; closing it
      restores the initial projection; neither touches anything else. */
  lemma ProjectedViewOpenClose(s: UiState, id: string, index: int)
    ensures var r := Reduce(s, OpenProjectedCardView(id, index));
            r.projectedCardView.isOpen && r.projectedCardView.stackId == Some(id)
            && r.projectedCardView.initialCardIndex == index
            && r.(projectedCardView := s.projectedCardView) == s
    ensures Reduce(s, CloseProjectedCardView).projectedCardView == Initial.projectedCardView
    ensures Reduce(s, CloseProjectedCardView).(projectedCardView := s.projectedCardView) == s
  {
  }

  /** An edited entity is held only while its dialog is open, and the
      projected view names a stack exactly while it is open. */
  predicate WellFormed(s: UiState) {
    && (!s.stackDialogOpen ==> s.editingStack.None?)
    && (!s.cardDialogOpen ==> s.editingCard.None?)
    && (s.projectedCardView.isOpen <==> s.projectedCardView.stackId.Some?)
    && (!s.projectedCardView.isOpen ==> s.projectedCardView == ClosedProjection)
  }

  lemma ReduceKeepsWellFormed(s: UiState, action: UiAction)
    requires WellFormed(s)
    ensures WellFormed(Reduce(s, action))
  {
  }

  /** Well-formedness is kept along any run of actions. */
  lemma {:induction false} RunKeepsWellFormed(s: UiState, actions: seq<UiAction>)
    requires WellFormed(s)
    ensures WellFormed(Run(s, actions))
    decreases |actions|
  {
    if actions != [] {
      ReduceKeepsWellFormed(s, actions[0]);
      RunKeepsWellFormed(Reduce(s, actions[0]), actions[1..]);
    }
  }

  /** The initial state is well formed, so every state reachable from it is. */
  lemma ReachableWellFormed(actions: seq<UiAction>)
    ensures WellFormed(Initial)
    ensures WellFormed(Run(Initial, actions))
  {
    RunKeepsWellFormed(Initial, actions);
  }
}
