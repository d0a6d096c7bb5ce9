/** The dock bar's container logic (`src/components/Dock/Dock.tsx`): stack
    selection, the name filter, the deck of the active stack, the render
    mode, and how the dialogs' save payloads become store mutations. */
module Dock {
  import opened Common
  import opened Types
  import opened Seqs
  import opened Text
  import MockApi
  import ApiSlice
  import CardDialog

  /** `handleStackClick`: clicking the active stack deselects it, any other selects it. */
  function ToggleActive(active: Option<string>, clicked: string): (r: Option<string>)
    ensures r.None? <==> active == Some(clicked)
    ensures r.Some? ==> r.value == clicked
  {
    if active == Some(clicked) then None else Some(clicked)
  }

  /** Two clicks on the same stack restore the selection when it was empty
      or that stack; from another selected stack they leave none. */
  lemma ToggleTwice(active: Option<string>, clicked: string)
    ensures active.None? || active == Some(clicked) ==> ToggleActive(ToggleActive(active, clicked), clicked) == active
    ensures active.Some? && active != Some(clicked) ==> ToggleActive(ToggleActive(active, clicked), clicked).None?
  {
  }

  /** The stacks whose lower-cased name contains the lower-cased query, in order. */
  function FilteredStacks(stacks: seq<Stack>, query: string): (r: seq<Stack>)
    ensures IsSublist(r, stacks)
    ensures forall s :: s in r <==> s in stacks && NameMatches(s.name, query)
    ensures forall s :: multiset(r)[s] == if NameMatches(s.name, query) then multiset(stacks)[s] else 0
  {
    var keep := (s: Stack) => NameMatches(s.name, query);
    FilterCounts(stacks, keep);
    Filter(stacks, keep)
  }

  /** An empty query keeps every stack. */
  lemma EmptyQueryKeepsAll(stacks: seq<Stack>)
    ensures FilteredStacks(stacks, "") == stacks
  {
    forall i | 0 <= i < |stacks| ensures NameMatches(stacks[i].name, "") {
      EmptyQueryMatches(stacks[i].name);
    }
    FilterKeepsAll(stacks, (s: Stack) => NameMatches(s.name, ""));
  }

  /** `stacks.find(s => s.id === activeStackId)`. */
  function ActiveStack(stacks: seq<Stack>, active: Option<string>): (r: Option<Stack>)
    ensures r.Some? ==> active.Some? && r.value in stacks && r.value.id == active.value
    ensures r.Some? ==> exists k :: && 0 <= k < |stacks| && stacks[k] == r.value
                                    && forall j :: 0 <= j < k ==> stacks[j].id != active.value
    ensures r.None? <==> active.None? || forall s :: s in stacks ==> s.id != active.value
  {
    if active.None? then None
    else match FindIndex(stacks, (s: Stack) => s.id == active.value)
      case None =>
        assert forall i :: 0 <= i < |stacks| ==> stacks[i].id != active.value;
        None
      case Some(k) => Some(stacks[k])
  }

  /** The cards whose stack is the active one (none when nothing is active). */
  function ActiveStackCards(cards: seq<Card>, active: Option<string>): (r: seq<Card>)
    ensures IsSublist(r, cards)
    ensures forall c :: c in r <==> c in cards && active == Some(c.stackId)
    ensures forall c :: multiset(r)[c] == if active == Some(c.stackId) then multiset(cards)[c] else 0
  {
    var keep := (c: Card) => active == Some(c.stackId);
    FilterCounts(cards, keep);
    Filter(cards, keep)
  }

  datatype Deck = Deck(stack: Stack, cards: seq<Card>)

  datatype DockView = Minimized | Expanded(deck: Option<Deck>)

  /** Collapsed or loading shows the minimized dock; otherwise the expanded
      bar, with the deck when a non-empty active id names a loaded stack. */
  function Render(isExpanded: bool, isLoading: bool, stacks: seq<Stack>, cards: seq<Card>, active: Option<string>): (v: DockView)
    ensures v.Minimized? <==> !isExpanded || isLoading
    ensures v.Expanded? && v.deck.Some? ==>
              && Truthy(active) && v.deck.value.stack in stacks && v.deck.value.stack.id == active.value
              && (forall c :: c in v.deck.value.cards <==> c in cards && c.stackId == active.value)
              && Some(v.deck.value.stack) == ActiveStack(stacks, active)
              && v.deck.value.cards == ActiveStackCards(cards, active)
    ensures v.Expanded? && v.deck.None? ==> !Truthy(active) || forall s :: s in stacks ==> s.id != active.value
  {
    if !isExpanded then Minimized
    else if isLoading then Minimized
    else if Truthy(active) && ActiveStack(stacks, active).Some? then
      Expanded(Some(Deck(ActiveStack(stacks, active).value, ActiveStackCards(cards, active))))
    else Expanded(None)
  }

  /** In the expanded, loaded dock, clicking a stack that is not active
      shows the deck of the first stack with that id, holding its cards in
      storage order; clicking it again closes the deck. */
  lemma ClickOpensDeck(stacks: seq<Stack>, cards: seq<Card>, active: Option<string>, k: nat)
    requires k < |stacks| && stacks[k].id != ""
    requires forall j :: 0 <= j < k ==> stacks[j].id != stacks[k].id
    requires active != Some(stacks[k].id)
    ensures var selected := ToggleActive(active, stacks[k].id);
            && Render(true, false, stacks, cards, selected)
                 == Expanded(Some(Deck(stacks[k], Filter(cards, (c: Card) => c.stackId == stacks[k].id))))
            && Render(true, false, stacks, cards, ToggleActive(selected, stacks[k].id)) == Expanded(None)
  {
    var id := stacks[k].id;
    var found := ActiveStack(stacks, Some(id));
    var i :| 0 <= i < |stacks| && stacks[i] == found.value && forall j :: 0 <= j < i ==> stacks[j].id != id;
    assert i == k;
    var keep := (c: Card) => Some(id) == Some(c.stackId);
    var same := (c: Card) => c.stackId == id;
    FilterSamePredicate(cards, keep, same);
  }

  /** Filtering with two tests that agree on every element gives the same list. */
  lemma {:induction false} FilterSamePredicate(s: seq<Card>, p: Card -> bool, q: Card -> bool)
    requires forall c :: p(c) == q(c)
    ensures Filter(s, p) == Filter(s, q)
    decreases |s|
  {
    if s != [] {
      FilterSamePredicate(s[1..], p, q);
    }
  }

  /** `handleSaveStack`: update the edited stack, else create one. */
  function SaveStack(editing: Option<Stack>, name: string, coverUrl: string): (m: ApiSlice.Mutation)
    ensures m.UpdateStackMutation? <==> editing.Some?
    ensures m.CreateStackMutation? <==> editing.None?
  {
    match editing
    case Some(s) => ApiSlice.UpdateStackMutation(s.id, UpdateStackRequest(Put(name), Put(coverUrl)))
    case None => ApiSlice.CreateStackMutation(CreateStackRequest(name, coverUrl))
  }

  /** Saving a stack stores the dialog's name and cover: under the edited
      stack's id, or under the fresh id. */
  lemma SaveStackStoresForm(db: MockApi.Db, editing: Option<Stack>, name: string, coverUrl: string, newId: string)
    requires editing.Some? ==> editing.value.id in MockApi.StackIds(db.stacks)
    ensures var r := ApiSlice.ApplyMutation(db, SaveStack(editing, name, coverUrl), newId);
            && r.Success?
            && exists s :: s in r.value.stacks && s.name == name && s.coverUrl == coverUrl
                           && s.id == (if editing.Some? then editing.value.id else newId)
  {
    var r := ApiSlice.ApplyMutation(db, SaveStack(editing, name, coverUrl), newId);
    match editing
    case None =>
      var s := Stack(newId, name, coverUrl, 0);
      assert r.value.stacks == db.stacks + [s];
      assert s in r.value.stacks;
    case Some(e) =>
      var u := MockApi.UpdateStack(db, e.id, UpdateStackRequest(Put(name), Put(coverUrl)));
      var k :| 0 <= k < |db.stacks| && db.stacks[k].id == e.id
               && u.value.1 == Stack(e.id, name, coverUrl, db.stacks[k].cardCount)
               && u.value.0.stacks == db.stacks[k := u.value.1];
      assert r.value.stacks[k] == u.value.1;
  }

  /** `data.description || undefined`: an empty description is absent. */
  function DescriptionOf(text: string): (d: Option<string>)
    ensures d.None? <==> text == ""
    ensures d.Some? ==> d.value == text
  {
    if text == "" then None else Some(text)
  }

  /** `handleSaveCard`: update the edited card with every field, else create one. */
  function SaveCard(editing: Option<Card>, data: CardDialog.CardForm): (m: ApiSlice.Mutation)
    ensures m.UpdateCardMutation? <==> editing.Some?
    ensures m.CreateCardMutation? <==> editing.None?
  {
    match editing
    case Some(c) =>
      ApiSlice.UpdateCardMutation(c.id, UpdateCardRequest(Put(data.stackId), Put(data.name), Put(DescriptionOf(data.description)), Put(data.coverUrl)))
    case None =>
      ApiSlice.CreateCardMutation(CreateCardRequest(data.stackId, data.name, DescriptionOf(data.description), data.coverUrl))
  }

  /** Saving a card stores exactly the form's fields; an emptied description
      is removed from an edited card rather than kept. */
  lemma SaveCardStoresForm(db: MockApi.Db, editing: Option<Card>, data: CardDialog.CardForm, newId: string)
    requires editing.Some? ==> editing.value.id in MockApi.CardIds(db.cards)
    requires editing.None? ==> data.stackId in MockApi.StackIds(db.stacks)
    ensures var r := ApiSlice.ApplyMutation(db, SaveCard(editing, data), newId);
            && r.Success?
            && exists c :: c in r.value.cards && c.name == data.name && c.coverUrl == data.coverUrl
                           && c.stackId == data.stackId && c.description == DescriptionOf(data.description)
                           && c.id == (if editing.Some? then editing.value.id else newId)
  {
    var r := ApiSlice.ApplyMutation(db, SaveCard(editing, data), newId);
    match editing
    case None =>
      var req := CreateCardRequest(data.stackId, data.name, DescriptionOf(data.description), data.coverUrl);
      var u := MockApi.CreateCard(db, newId, req);
      assert u.value.0.cards == db.cards + [u.value.1];
      assert u.value.1 in r.value.cards;
    case Some(e) =>
      var req := UpdateCardRequest(Put(data.stackId), Put(data.name), Put(DescriptionOf(data.description)), Put(data.coverUrl));
      var u := MockApi.UpdateCard(db, e.id, req);
      var k :| 0 <= k < |db.cards| && db.cards[k].id == e.id && u.value.1.id == e.id
               && u.value.1.stackId == data.stackId && u.value.1.name == data.name
               && u.value.1.description == DescriptionOf(data.description) && u.value.1.coverUrl == data.coverUrl
               && u.value.0.cards == db.cards[k := u.value.1];
      assert r.value.cards[k] == u.value.1;
  }
}
