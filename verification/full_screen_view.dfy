/** The full-screen overview of every stack
    (`src/components/FullScreen/FullScreenView.tsx`): the deferred search
    filter, one section per stack, and the modal card view of the projected
    stack. */
module FullScreenView {
  import opened Common
  import opened Types
  import opened Seqs
  import opened Text
  import UiSlice
  import Dock

  /** An empty (deferred) query shows every stack; otherwise the name filter applies. */
  function FilteredStacks(stacks: seq<Stack>, deferredQuery: string): (r: seq<Stack>)
    ensures IsSublist(r, stacks)
    ensures forall s :: s in r <==> s in stacks && NameMatches(s.name, deferredQuery)
    ensures forall s :: multiset(r)[s] == if NameMatches(s.name, deferredQuery) then multiset(stacks)[s] else 0
    ensures deferredQuery == "" ==> r == stacks
  {
    if deferredQuery == "" then
      Dock.EmptyQueryKeepsAll(stacks);
      stacks
    else Dock.FilteredStacks(stacks, deferredQuery)
  }

  /** The overview and the dock filter stacks identically for every query. */
  lemma SameFilterAsDock(stacks: seq<Stack>, query: string)
    ensures FilteredStacks(stacks, query) == Dock.FilteredStacks(stacks, query)
  {
    if query == "" {
      Dock.EmptyQueryKeepsAll(stacks);
    }
  }

  /** The cards each section receives: those of its own stack. */
  function SectionCards(cards: seq<Card>, stackId: string): (r: seq<Card>)
    ensures IsSublist(r, cards)
    ensures forall c :: c in r <==> c in cards && c.stackId == stackId
    ensures forall c :: multiset(r)[c] == if c.stackId == stackId then multiset(cards)[c] else 0
  {
    var keep := (c: Card) => c.stackId == stackId;
    FilterCounts(cards, keep);
    Filter(cards, keep)
  }

  /** The projected stack: looked up only while the view is open with a non-empty id. */
  function ProjectedStack(stacks: seq<Stack>, view: UiSlice.ProjectedCardView): (r: Option<Stack>)
    ensures r.Some? ==> view.isOpen && Truthy(view.stackId) && r.value in stacks && r.value.id == view.stackId.value
    ensures r.Some? ==> exists k :: && 0 <= k < |stacks| && stacks[k] == r.value
                                    && forall j :: 0 <= j < k ==> stacks[j].id != view.stackId.value
    ensures r.None? <==> !view.isOpen || !Truthy(view.stackId) || forall s :: s in stacks ==> s.id != view.stackId.value
  {
    if view.isOpen && Truthy(view.stackId) then Dock.ActiveStack(stacks, view.stackId) else None
  }

  /** The projected stack's cards while open, else none. */
  function ProjectedCards(cards: seq<Card>, view: UiSlice.ProjectedCardView): (r: seq<Card>)
    ensures !(view.isOpen && Truthy(view.stackId)) ==> r == []
    ensures view.isOpen && Truthy(view.stackId) ==> r == SectionCards(cards, view.stackId.value)
  {
    if view.isOpen && Truthy(view.stackId) then SectionCards(cards, view.stackId.value) else []
  }

  /** The modal card view renders only while open and with its stack found. */
  predicate ModalShown(stacks: seq<Stack>, view: UiSlice.ProjectedCardView) {
    view.isOpen && ProjectedStack(stacks, view).Some?
  }

  /** Escape leaves full screen only when no card view is projected. */
  predicate EscapeClosesFullScreen(view: UiSlice.ProjectedCardView) {
    !view.isOpen
  }

  /** Expanding a section opens its stack at the first card. */
  function ExpandStack(stack: Stack): UiSlice.UiAction {
    UiSlice.OpenProjectedCardView(stack.id, 0)
  }

  /** Clicking a card opens its stack at that card's index. */
  function ClickCard(stack: Stack, cardIndex: int): UiSlice.UiAction {
    UiSlice.OpenProjectedCardView(stack.id, cardIndex)
  }

  /** After clicking a card in a listed stack, the modal shows a stack with
      that id, exactly the section's cards, from the clicked index, and
      Escape no longer leaves full screen; expanding is clicking the first card. */
  lemma ClickOpensSection(ui: UiSlice.UiState, stacks: seq<Stack>, cards: seq<Card>, stack: Stack, cardIndex: int)
    requires stack in stacks && stack.id != ""
    ensures var view := UiSlice.Reduce(ui, ClickCard(stack, cardIndex)).projectedCardView;
            && ModalShown(stacks, view)
            && ProjectedStack(stacks, view).value.id == stack.id
            && ProjectedCards(cards, view) == SectionCards(cards, stack.id)
            && view.initialCardIndex == cardIndex
            && !EscapeClosesFullScreen(view)
    ensures ExpandStack(stack) == ClickCard(stack, 0)
  {
  }

  /** Closing the projected view hides the modal and re-enables Escape. */
  lemma CloseHidesModal(ui: UiSlice.UiState, stacks: seq<Stack>, cards: seq<Card>)
    ensures var view := UiSlice.Reduce(ui, UiSlice.CloseProjectedCardView).projectedCardView;
            !ModalShown(stacks, view) && ProjectedCards(cards, view) == [] && EscapeClosesFullScreen(view)
  {
  }

  datatype EmptyStateAction = ClearSearch | CreateStack

  /** With no stack to list: clear a typed search, else offer to create a stack. */
  function EmptyState(stacks: seq<Stack>, searchQuery: string, deferredQuery: string): (r: Option<EmptyStateAction>)
    ensures r.Some? <==> |FilteredStacks(stacks, deferredQuery)| == 0
    ensures r == Some(ClearSearch) <==> |FilteredStacks(stacks, deferredQuery)| == 0 && searchQuery != ""
  {
    if |FilteredStacks(stacks, deferredQuery)| == 0 then
      Some(if searchQuery != "" then ClearSearch else CreateStack)
    else None
  }

  /** Once the search has settled and is empty, the empty state means there are no stacks. */
  lemma EmptyStateWithoutSearchMeansNoStacks(stacks: seq<Stack>)
    ensures EmptyState(stacks, "", "") == Some(CreateStack) <==> stacks == []
  {
  }
}
