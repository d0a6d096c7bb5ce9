/** The in-memory stack/card store behind the widget (`src/utils/mockApi.ts`).
    The store is the value `Db(stacks, cards)`; every operation returns the
    new value, or a `StoreError` in place of the exception the source throws
    before touching the data. Fresh ids are parameters; latency, persistence
    and timestamps are not modelled. */
module MockApi {
  import opened Common
  import opened Seqs
  import opened Types

  datatype Db = Db(stacks: seq<Stack>, cards: seq<Card>)

  datatype StoreError = StackNotFound(id: string) | CardNotFound(id: string)

  /** What `localStorage` held after `JSON.parse`: each field is None when it
      was not an array. */
  datatype StoredData = StoredData(stacks: Option<seq<Stack>>, cards: Option<seq<Card>>)

  // ---------------------------------------------------------------------
  // Queries over the two sequences
  // ---------------------------------------------------------------------

  function HasId(id: string): Stack -> bool {
    (s: Stack) => s.id == id
  }

  function IsCard(id: string): Card -> bool {
    (c: Card) => c.id == id
  }

  function InStack(sid: string): Card -> bool {
    (c: Card) => c.stackId == sid
  }

  function NotInStack(sid: string): Card -> bool {
    (c: Card) => c.stackId != sid
  }

  /** The ids of the live stacks (`new Set(stacks.map(s => s.id))`). */
  function StackIds(stacks: seq<Stack>): set<string> {
    set s | s in stacks :: s.id
  }

  function CardIds(cards: seq<Card>): set<string> {
    set c | c in cards :: c.id
  }

  /** The cards of stack `sid`, in storage order. */
  function CardsOf(cards: seq<Card>, sid: string): seq<Card> {
    Filter(cards, InStack(sid))
  }

  /** The actual number of cards in stack `sid` (`CountIsCardsOf` relates it
      to the filtered list). */
  function Count(cards: seq<Card>, sid: string): nat
    decreases |cards|
  {
    if cards == [] then 0
    else (if cards[0].stackId == sid then 1 else 0) + Count(cards[1..], sid)
  }

  /** Index of the first stack with id `id` (`stacks.findIndex`). */
  function FirstStack(stacks: seq<Stack>, id: string): Option<nat> {
    FindIndex(stacks, HasId(id))
  }

  /** Index of the first card with id `id` (`cards.findIndex`). */
  function FirstCard(cards: seq<Card>, id: string): Option<nat> {
    FindIndex(cards, IsCard(id))
  }

  // ---------------------------------------------------------------------
  // Invariants
  // ---------------------------------------------------------------------

  predicate UniqueStackIds(stacks: seq<Stack>) {
    forall i, j :: 0 <= i < j < |stacks| ==> stacks[i].id != stacks[j].id
  }

  /** No card references a missing stack. */
  predicate NoOrphans(db: Db) {
    forall c :: c in db.cards ==> c.stackId in StackIds(db.stacks)
  }

  /** Every stack's `cardCount` is the number of cards that name it. */
  predicate CountsAgree(db: Db) {
    forall i :: 0 <= i < |db.stacks| ==> db.stacks[i].cardCount == Count(db.cards, db.stacks[i].id)
  }

  predicate Valid(db: Db) {
    UniqueStackIds(db.stacks) && NoOrphans(db) && CountsAgree(db)
  }

  // ---------------------------------------------------------------------
  // Initialisation (mockApi.ts:36-53, 63-73)
  // ---------------------------------------------------------------------

  /** `loadFromStorage`: nothing stored (or unparseable) gives the empty seed;
      a non-array field becomes empty; cards naming no stored stack are
      dropped. */
  function LoadFromStorage(stored: Option<StoredData>): (db: Db)
    ensures NoOrphans(db)
    ensures stored.None? ==> db == Db([], [])
    ensures stored.Some? ==> db.stacks == stored.value.stacks.GetOr([])
    ensures stored.Some? ==> IsSublist(db.cards, stored.value.cards.GetOr([]))
    ensures stored.Some? ==>
              forall c :: c in stored.value.cards.GetOr([]) && c.stackId in StackIds(db.stacks) ==> c in db.cards
    ensures stored.Some? ==>
              forall c :: multiset(db.cards)[c] == if c.stackId in StackIds(db.stacks) then multiset(stored.value.cards.GetOr([]))[c] else 0
  {
    match stored
    case None => Db([], [])
    case Some(data) =>
      var stacks := data.stacks.GetOr([]);
      var ids := StackIds(stacks);
      var keep := (c: Card) => c.stackId in ids;
      FilterCounts(data.cards.GetOr([]), keep);
      Db(stacks, Filter(data.cards.GetOr([]), keep))
  }

  /** `syncStackCardCounts`: overwrite every stack's count with the actual one. */
  function SyncStackCardCounts(db: Db): (r: Db)
    ensures CountsAgree(r)
    ensures r.cards == db.cards
    ensures |r.stacks| == |db.stacks|
    ensures forall i :: 0 <= i < |r.stacks| ==> r.stacks[i] == db.stacks[i].(cardCount := r.stacks[i].cardCount)
  {
    db.(stacks := seq(|db.stacks|, i requires 0 <= i < |db.stacks| =>
                      db.stacks[i].(cardCount := Count(db.cards, db.stacks[i].id))))
  }

  /** The module's start-up: load, then synchronise the counts. */
  function Initialize(stored: Option<StoredData>): Db {
    SyncStackCardCounts(LoadFromStorage(stored))
  }

  /** After initialisation no card is an orphan and every count is right,
      provided the stored stacks have distinct ids (they were generated). */
  lemma InitializeValid(stored: Option<StoredData>)
    requires stored.Some? ==> UniqueStackIds(stored.value.stacks.GetOr([]))
    ensures Valid(Initialize(stored))
  {
    var loaded := LoadFromStorage(stored);
    var db := Initialize(stored);
    SameIdsSameStackIds(loaded.stacks, db.stacks);
  }

  // ---------------------------------------------------------------------
  // Stack operations (mockApi.ts:77-126)
  // ---------------------------------------------------------------------

  /** `getStacks`: a copy of the stack list. */
  function GetStacks(db: Db): seq<Stack> {
    db.stacks
  }

  /** `createStack`: append a stack with the fresh id `newId` and no cards. */
  function CreateStack(db: Db, newId: string, request: CreateStackRequest): (r: (Db, Stack))
    ensures r.1 == Stack(newId, request.name, request.coverUrl, 0)
    ensures r.0.cards == db.cards
    ensures r.0.stacks == db.stacks + [r.1]
  {
    var stack := Stack(newId, request.name, request.coverUrl, 0);
    (Db(db.stacks + [stack], db.cards), stack)
  }

  function PatchStack(stack: Stack, request: UpdateStackRequest): Stack {
    stack.(name := request.name.ApplyTo(stack.name), coverUrl := request.coverUrl.ApplyTo(stack.coverUrl))
  }

  /** `updateStack`: fails on an unknown id; otherwise merges the request into
      the first stack with that id, keeping its id and count. */
  function UpdateStack(db: Db, id: string, request: UpdateStackRequest): (r: Result<(Db, Stack), StoreError>)
    ensures r.Failure? <==> id !in StackIds(db.stacks)
    ensures r.Failure? ==> r.error == StackNotFound(id)
    ensures r.Success? ==>
      var (db', stack) := r.value;
      && db'.cards == db.cards
      && |db'.stacks| == |db.stacks|
      && exists k :: && 0 <= k < |db.stacks| && db.stacks[k].id == id
                     && (forall j :: 0 <= j < k ==> db.stacks[j].id != id)
                     && stack == Stack(id, request.name.ApplyTo(db.stacks[k].name),
                                       request.coverUrl.ApplyTo(db.stacks[k].coverUrl), db.stacks[k].cardCount)
                     && db'.stacks == db.stacks[k := stack]
  {
    match FirstStack(db.stacks, id)
    case None =>
      assert forall s :: s in db.stacks ==> s.id != id;
      Failure(StackNotFound(id))
    case Some(k) =>
      var stack := PatchStack(db.stacks[k], request);
      Success((Db(db.stacks[k := stack], db.cards), stack))
  }

  /** `deleteStack`: fails on an unknown id; otherwise removes the stack and
      exactly the cards that name it. */
  function DeleteStack(db: Db, id: string): (r: Result<Db, StoreError>)
    ensures r.Failure? <==> id !in StackIds(db.stacks)
    ensures r.Failure? ==> r.error == StackNotFound(id)
    ensures r.Success? ==>
      && |r.value.stacks| == |db.stacks| - 1
      && IsSublist(r.value.cards, db.cards)
      && (forall c :: c in r.value.cards <==> c in db.cards && c.stackId != id)
      && (forall c :: multiset(r.value.cards)[c] == if c.stackId != id then multiset(db.cards)[c] else 0)
      && exists k :: && 0 <= k < |db.stacks| && db.stacks[k].id == id
                     && (forall j :: 0 <= j < k ==> db.stacks[j].id != id)
                     && r.value.stacks == RemoveAt(db.stacks, k)
  {
    match FirstStack(db.stacks, id)
    case None =>
      assert forall s :: s in db.stacks ==> s.id != id;
      Failure(StackNotFound(id))
    case Some(k) =>
      FilterCounts(db.cards, NotInStack(id));
      Success(Db(RemoveAt(db.stacks, k), Filter(db.cards, NotInStack(id))))
  }

  // ---------------------------------------------------------------------
  // Card operations (mockApi.ts:129-245)
  // ---------------------------------------------------------------------

  predicate SortedByPosition(cards: seq<Card>) {
    forall i, j :: 0 <= i < j < |cards| ==> cards[i].position <= cards[j].position
  }

  /** Insert `c` before the first card whose position is not below it. */
  function InsertByPosition(c: Card, sorted: seq<Card>): (r: seq<Card>)
    requires SortedByPosition(sorted)
    ensures SortedByPosition(r)
    ensures multiset(r) == multiset(sorted) + multiset{c}
    ensures |r| == |sorted| + 1
    ensures forall x :: x in r ==> x == c || x in sorted
    decreases |sorted|
  {
    if sorted == [] || c.position <= sorted[0].position then [c] + sorted
    else
      var rest := InsertByPosition(c, sorted[1..]);
      assert sorted == [sorted[0]] + sorted[1..];
      var r := [sorted[0]] + rest;
      assert forall j :: 1 <= j < |r| ==> r[j] == rest[j - 1];
      assert forall j :: 0 <= j < |rest| ==> sorted[0].position <= rest[j].position by {
        forall j | 0 <= j < |rest| ensures sorted[0].position <= rest[j].position {
          assert rest[j] in rest;
        }
      }
      r
  }

  /** `sort((a, b) => a.position - b.position)`: stable ascending order. */
  function SortByPosition(cards: seq<Card>): (r: seq<Card>)
    ensures SortedByPosition(r)
    ensures multiset(r) == multiset(cards)
    decreases |cards|
  {
    if cards == [] then []
    else
      assert cards == [cards[0]] + cards[1..];
      InsertByPosition(cards[0], SortByPosition(cards[1..]))
  }

  /** `getCards`: with a non-empty stack id, that stack's cards in ascending
      position; otherwise every card in storage order. */
  function GetCards(db: Db, stackId: Option<string>): (r: seq<Card>)
    ensures Truthy(stackId) ==> SortedByPosition(r) && multiset(r) == multiset(CardsOf(db.cards, stackId.value))
    ensures Truthy(stackId) ==> forall c :: c in r <==> c in db.cards && c.stackId == stackId.value
    ensures Truthy(stackId) ==> forall c :: multiset(r)[c] == if c.stackId == stackId.value then multiset(db.cards)[c] else 0
    ensures !Truthy(stackId) ==> r == db.cards
  {
    if Truthy(stackId) then
      FilterCounts(db.cards, InStack(stackId.value));
      var r := SortByPosition(CardsOf(db.cards, stackId.value));
      assert forall c :: c in r <==> c in multiset(r);
      r
    else db.cards
  }

  /** `stackCards.reduce((max, c) => Math.max(max, c.position), -1)`. */
  function MaxPosition(cards: seq<Card>): (m: int)
    ensures m >= -1
    ensures forall c :: c in cards ==> c.position <= m
    ensures m == -1 || exists c :: c in cards && c.position == m
    decreases |cards|
  {
    if cards == [] then -1
    else
      var init := cards[..|cards| - 1];
      assert cards == init + [cards[|cards| - 1]];
      Max(MaxPosition(init), cards[|cards| - 1].position)
  }

  /** The position `createCard` gives a new card of stack `sid`: above every
      position in that stack, never negative, and the least such value
      (0, or one past an existing position). */
  function NextPosition(cards: seq<Card>, sid: string): (p: int)
    ensures p >= 0
    ensures forall c :: c in cards && c.stackId == sid ==> c.position < p
    ensures p == 0 || exists c :: c in cards && c.stackId == sid && c.position + 1 == p
  {
    MaxPosition(CardsOf(cards, sid)) + 1
  }

  /** `createCard`: fails on an unknown stack; otherwise appends a card at
      `NextPosition` in its stack and bumps that stack's count. */
  function CreateCard(db: Db, newId: string, request: CreateCardRequest): (r: Result<(Db, Card), StoreError>)
    ensures r.Failure? <==> request.stackId !in StackIds(db.stacks)
    ensures r.Failure? ==> r.error == StackNotFound(request.stackId)
    ensures r.Success? ==>
      var (db', card) := r.value;
      && card == Card(newId, request.stackId, request.name, request.description, request.coverUrl,
                      NextPosition(db.cards, request.stackId))
      && db'.cards == db.cards + [card]
      && FirstStack(db.stacks, request.stackId).Some?
      && db'.stacks == IncrementCount(db.stacks, request.stackId)
  {
    match FirstStack(db.stacks, request.stackId)
    case None =>
      assert forall s :: s in db.stacks ==> s.id != request.stackId;
      Failure(StackNotFound(request.stackId))
    case Some(k) =>
      var card := Card(newId, request.stackId, request.name, request.description, request.coverUrl,
                       NextPosition(db.cards, request.stackId));
      Success((Db(IncrementCount(db.stacks, request.stackId), db.cards + [card]), card))
  }

  /** The first stack named `sid` loses one card, never going below 0. */
  function DecrementCount(stacks: seq<Stack>, sid: string): (r: seq<Stack>)
    ensures |r| == |stacks|
    ensures forall i :: 0 <= i < |stacks| ==>
              r[i] == stacks[i].(cardCount := if Some(i) == FirstStack(stacks, sid)
                                              then Max(0, stacks[i].cardCount - 1)
                                              else stacks[i].cardCount)
  {
    match FirstStack(stacks, sid)
    case None => stacks
    case Some(k) => stacks[k := stacks[k].(cardCount := Max(0, stacks[k].cardCount - 1))]
  }

  /** The first stack named `sid`, if any, gains one card. */
  function IncrementCount(stacks: seq<Stack>, sid: string): (r: seq<Stack>)
    ensures |r| == |stacks|
    ensures forall i :: 0 <= i < |stacks| ==>
              r[i] == stacks[i].(cardCount := if Some(i) == FirstStack(stacks, sid)
                                              then stacks[i].cardCount + 1
                                              else stacks[i].cardCount)
  {
    match FirstStack(stacks, sid)
    case None => stacks
    case Some(k) => stacks[k := stacks[k].(cardCount := stacks[k].cardCount + 1)]
  }

  /** The count adjustment of `updateCard` happens only for a non-empty
      `stackId` that differs from the card's current one. */
  predicate IsMove(request: UpdateCardRequest, card: Card) {
    request.stackId.Put? && request.stackId.value != "" && request.stackId.value != card.stackId
  }

  function PatchCard(card: Card, request: UpdateCardRequest): Card {
    card.(stackId := request.stackId.ApplyTo(card.stackId),
          name := request.name.ApplyTo(card.name),
          description := request.description.ApplyTo(card.description),
          coverUrl := request.coverUrl.ApplyTo(card.coverUrl))
  }

  /** `updateCard`: fails on an unknown card id; otherwise merges the request
      into the card (its id and position are kept) and, on a move, moves one
      unit of count from the old stack (clamped at 0) to the new one. The
      target stack is NOT checked to exist. */
  function UpdateCard(db: Db, id: string, request: UpdateCardRequest): (r: Result<(Db, Card), StoreError>)
    ensures r.Failure? <==> id !in CardIds(db.cards)
    ensures r.Failure? ==> r.error == CardNotFound(id)
    ensures r.Success? ==>
      var (db', card) := r.value;
      && |db'.cards| == |db.cards|
      && exists k :: && 0 <= k < |db.cards| && db.cards[k].id == id
                     && (forall j :: 0 <= j < k ==> db.cards[j].id != id)
                     && card.id == id && card.position == db.cards[k].position
                     && card.stackId == request.stackId.ApplyTo(db.cards[k].stackId)
                     && card.name == request.name.ApplyTo(db.cards[k].name)
                     && card.description == request.description.ApplyTo(db.cards[k].description)
                     && card.coverUrl == request.coverUrl.ApplyTo(db.cards[k].coverUrl)
                     && db'.cards == db.cards[k := card]
                     && db'.stacks == if IsMove(request, db.cards[k])
                                      then IncrementCount(DecrementCount(db.stacks, db.cards[k].stackId), request.stackId.value)
                                      else db.stacks
  {
    match FirstCard(db.cards, id)
    case None =>
      assert forall c :: c in db.cards ==> c.id != id;
      Failure(CardNotFound(id))
    case Some(k) =>
      var current := db.cards[k];
      var stacks := if IsMove(request, current)
                    then IncrementCount(DecrementCount(db.stacks, current.stackId), request.stackId.value)
                    else db.stacks;
      var card := PatchCard(current, request);
      Success((Db(stacks, db.cards[k := card]), card))
  }

  /** `deleteCard`: fails on an unknown card id; otherwise removes the first
      card with that id and decrements its stack's count, never below 0. */
  function DeleteCard(db: Db, id: string): (r: Result<Db, StoreError>)
    ensures r.Failure? <==> id !in CardIds(db.cards)
    ensures r.Failure? ==> r.error == CardNotFound(id)
    ensures r.Success? ==>
      exists k :: && 0 <= k < |db.cards| && db.cards[k].id == id
                  && (forall j :: 0 <= j < k ==> db.cards[j].id != id)
                  && r.value.cards == RemoveAt(db.cards, k)
                  && r.value.stacks == DecrementCount(db.stacks, db.cards[k].stackId)
  {
    match FirstCard(db.cards, id)
    case None =>
      assert forall c :: c in db.cards ==> c.id != id;
      Failure(CardNotFound(id))
    case Some(k) =>
      Success(Db(DecrementCount(db.stacks, db.cards[k].stackId), RemoveAt(db.cards, k)))
  }

  // ---------------------------------------------------------------------
  // Counting lemmas
  // ---------------------------------------------------------------------

  /** The count is the length of the stack's filtered card list. */
  lemma {:induction false} CountIsCardsOf(cards: seq<Card>, sid: string)
    ensures Count(cards, sid) == |CardsOf(cards, sid)|
    decreases |cards|
  {
    if cards != [] {
      CountIsCardsOf(cards[1..], sid);
    }
  }

  lemma {:induction false} CountConcat(a: seq<Card>, b: seq<Card>, sid: string)
    ensures Count(a + b, sid) == Count(a, sid) + Count(b, sid)
    decreases |a|
  {
    if a == [] {
      assert a + b == b;
    } else {
      assert (a + b)[1..] == a[1..] + b;
      CountConcat(a[1..], b, sid);
    }
  }

  lemma CountOne(c: Card, sid: string)
    ensures Count([c], sid) == if c.stackId == sid then 1 else 0
  {
    assert [c][1..] == [];
  }

  /** Replacing the card at `k` moves at most one unit of count. */
  lemma CountReplace(cards: seq<Card>, k: nat, c: Card, sid: string)
    requires k < |cards|
    ensures Count(cards[k := c], sid)
            == Count(cards, sid) - (if cards[k].stackId == sid then 1 else 0) + (if c.stackId == sid then 1 else 0)
  {
    assert cards == cards[..k] + [cards[k]] + cards[k + 1..];
    assert cards[k := c] == cards[..k] + [c] + cards[k + 1..];
    CountConcat(cards[..k] + [cards[k]], cards[k + 1..], sid);
    CountConcat(cards[..k], [cards[k]], sid);
    CountConcat(cards[..k] + [c], cards[k + 1..], sid);
    CountConcat(cards[..k], [c], sid);
    CountOne(cards[k], sid);
    CountOne(c, sid);
  }

  /** Removing the card at `k` removes one unit from its own stack only. */
  lemma CountRemove(cards: seq<Card>, k: nat, sid: string)
    requires k < |cards|
    ensures Count(RemoveAt(cards, k), sid) == Count(cards, sid) - (if cards[k].stackId == sid then 1 else 0)
  {
    assert cards == cards[..k] + [cards[k]] + cards[k + 1..];
    CountConcat(cards[..k] + [cards[k]], cards[k + 1..], sid);
    CountConcat(cards[..k], [cards[k]], sid);
    CountConcat(cards[..k], cards[k + 1..], sid);
    CountOne(cards[k], sid);
  }

  /** Dropping the cards of stack `id` leaves every other stack's count. */
  lemma {:induction false} CountWithout(cards: seq<Card>, id: string, sid: string)
    requires sid != id
    ensures Count(Filter(cards, NotInStack(id)), sid) == Count(cards, sid)
    decreases |cards|
  {
    if cards != [] {
      CountWithout(cards[1..], id, sid);
      assert cards == [cards[0]] + cards[1..];
      CountConcat([cards[0]], cards[1..], sid);
      CountOne(cards[0], sid);
      FilterConcat([cards[0]], cards[1..], NotInStack(id));
      if cards[0].stackId != id {
        assert Filter([cards[0]], NotInStack(id)) == [cards[0]];
        CountConcat([cards[0]], Filter(cards[1..], NotInStack(id)), sid);
      } else {
        assert Filter([cards[0]], NotInStack(id)) == [];
        assert Filter(cards, NotInStack(id)) == Filter(cards[1..], NotInStack(id));
      }
    }
  }

  /** A card in a stack makes that stack's count positive. */
  lemma CountPositive(cards: seq<Card>, k: nat)
    requires k < |cards|
    ensures Count(cards, cards[k].stackId) >= 1
  {
    assert cards[k] in CardsOf(cards, cards[k].stackId);
    CountIsCardsOf(cards, cards[k].stackId);
  }

  // ---------------------------------------------------------------------
  // Stack-id lemmas
  // ---------------------------------------------------------------------

  lemma SameIdsSameStackIds(a: seq<Stack>, b: seq<Stack>)
    requires |a| == |b|
    requires forall i :: 0 <= i < |a| ==> a[i].id == b[i].id
    ensures StackIds(a) == StackIds(b)
    ensures UniqueStackIds(a) ==> UniqueStackIds(b)
  {
    forall id | id in StackIds(a) ensures id in StackIds(b) {
      var s :| s in a && s.id == id;
      var i :| 0 <= i < |a| && a[i] == s;
      assert b[i] in b;
    }
    forall id | id in StackIds(b) ensures id in StackIds(a) {
      var s :| s in b && s.id == id;
      var i :| 0 <= i < |b| && b[i] == s;
      assert a[i] in a;
    }
  }

  /** With distinct ids, the first stack with an id is the only one. */
  lemma FirstStackIsOnly(stacks: seq<Stack>, i: nat)
    requires UniqueStackIds(stacks)
    requires i < |stacks|
    ensures FirstStack(stacks, stacks[i].id) == Some(i)
  {
    assert HasId(stacks[i].id)(stacks[i]);
  }

  /** `findIndex` by id only looks at ids. */
  lemma FirstStackSameIds(a: seq<Stack>, b: seq<Stack>, id: string)
    requires |a| == |b|
    requires forall i :: 0 <= i < |a| ==> a[i].id == b[i].id
    ensures FirstStack(a, id) == FirstStack(b, id)
  {
    assert forall j :: 0 <= j < |a| ==> HasId(id)(a[j]) == HasId(id)(b[j]);
  }

  /** No card names stack `sid`, so its count is 0. */
  lemma {:induction false} CountAbsent(cards: seq<Card>, sid: string)
    requires forall c :: c in cards ==> c.stackId != sid
    ensures Count(cards, sid) == 0
    decreases |cards|
  {
    if cards != [] {
      assert cards[0] in cards;
      CountAbsent(cards[1..], sid);
    }
  }

  lemma InStackIds(stacks: seq<Stack>, id: string) returns (i: nat)
    requires id in StackIds(stacks)
    ensures i < |stacks| && stacks[i].id == id
  {
    var s :| s in stacks && s.id == id;
    i :| 0 <= i < |stacks| && stacks[i] == s;
  }

  // ---------------------------------------------------------------------
  // Invariant preservation
  // ---------------------------------------------------------------------

  /** Creating a stack with a fresh id keeps the store valid. */
  lemma CreateStackPreservesValid(db: Db, newId: string, request: CreateStackRequest)
    requires Valid(db)
    requires newId !in StackIds(db.stacks)
    ensures Valid(CreateStack(db, newId, request).0)
  {
    var db' := CreateStack(db, newId, request).0;
    assert StackIds(db'.stacks) == StackIds(db.stacks) + {newId};
    forall i, j | 0 <= i < j < |db'.stacks| ensures db'.stacks[i].id != db'.stacks[j].id {
      if j == |db.stacks| {
        assert db.stacks[i] in db.stacks;
      }
    }
    CountAbsent(db.cards, newId);
  }

  /** Updating a stack keeps the store valid. */
  lemma UpdateStackPreservesValid(db: Db, id: string, request: UpdateStackRequest)
    requires Valid(db)
    requires id in StackIds(db.stacks)
    ensures Valid(UpdateStack(db, id, request).value.0)
  {
    var db' := UpdateStack(db, id, request).value.0;
    SameIdsSameStackIds(db.stacks, db'.stacks);
  }

  /** Deleting a stack (with its cards) keeps the store valid. */
  lemma DeleteStackPreservesValid(db: Db, id: string)
    requires Valid(db)
    requires id in StackIds(db.stacks)
    ensures Valid(DeleteStack(db, id).value)
  {
    var db' := DeleteStack(db, id).value;
    var k := FirstStack(db.stacks, id).value;
    assert db'.stacks == RemoveAt(db.stacks, k);
    forall i, j | 0 <= i < j < |db'.stacks| ensures db'.stacks[i].id != db'.stacks[j].id {
      var i0 := if i < k then i else i + 1;
      var j0 := if j < k then j else j + 1;
      assert db'.stacks[i] == db.stacks[i0] && db'.stacks[j] == db.stacks[j0];
    }
    forall c | c in db'.cards ensures c.stackId in StackIds(db'.stacks) {
      var i := InStackIds(db.stacks, c.stackId);
      assert i != k;
      var i' := if i < k then i else i - 1;
      assert db'.stacks[i'] == db.stacks[i];
      assert db'.stacks[i'] in db'.stacks;
    }
    forall i | 0 <= i < |db'.stacks| ensures db'.stacks[i].cardCount == Count(db'.cards, db'.stacks[i].id) {
      var i0 := if i < k then i else i + 1;
      assert db'.stacks[i] == db.stacks[i0];
      assert db.stacks[i0].id != id;
      CountWithout(db.cards, id, db.stacks[i0].id);
    }
  }

  /** Creating a card in an existing stack keeps the store valid. */
  lemma CreateCardPreservesValid(db: Db, newId: string, request: CreateCardRequest)
    requires Valid(db)
    requires request.stackId in StackIds(db.stacks)
    ensures Valid(CreateCard(db, newId, request).value.0)
  {
    var (db', card) := CreateCard(db, newId, request).value;
    var k := FirstStack(db.stacks, request.stackId).value;
    SameIdsSameStackIds(db.stacks, db'.stacks);
    forall i | 0 <= i < |db'.stacks| ensures db'.stacks[i].cardCount == Count(db'.cards, db'.stacks[i].id) {
      CountConcat(db.cards, [card], db.stacks[i].id);
      CountOne(card, db.stacks[i].id);
      if i != k {
        FirstStackIsOnly(db.stacks, i);
      }
    }
  }

  /** What `updateCard` needs so that the store stays valid: a request that
      moves the card names a live, non-empty stack id. */
  predicate MoveTargetExists(db: Db, request: UpdateCardRequest) {
    request.stackId.Put? ==> request.stackId.value != "" && request.stackId.value in StackIds(db.stacks)
  }

  /** `updateCard` changes counts only: the stack ids stay where they were. */
  lemma {:induction false} UpdateCardKeepsStackIds(db: Db, id: string, request: UpdateCardRequest)
    requires id in CardIds(db.cards)
    ensures var db' := UpdateCard(db, id, request).value.0;
            && |db'.stacks| == |db.stacks|
            && (forall i :: 0 <= i < |db.stacks| ==> db'.stacks[i].id == db.stacks[i].id)
            && StackIds(db'.stacks) == StackIds(db.stacks)
            && (UniqueStackIds(db.stacks) ==> UniqueStackIds(db'.stacks))
  {
    var db' := UpdateCard(db, id, request).value.0;
    assert forall i :: 0 <= i < |db.stacks| ==> db'.stacks[i].id == db.stacks[i].id;
    SameIdsSameStackIds(db.stacks, db'.stacks);
  }

  /** `updateCard` keeps every card's stack live when the move target exists. */
  lemma UpdateCardKeepsNoOrphans(db: Db, id: string, request: UpdateCardRequest)
    requires NoOrphans(db)
    requires MoveTargetExists(db, request)
    requires id in CardIds(db.cards)
    ensures NoOrphans(UpdateCard(db, id, request).value.0)
  {
    var (db', card) := UpdateCard(db, id, request).value;
    var k := FirstCard(db.cards, id).value;
    assert db.cards[k] in db.cards;
    UpdateCardKeepsStackIds(db, id, request);
    forall c | c in db'.cards ensures c.stackId in StackIds(db'.stacks) {
      var j :| 0 <= j < |db'.cards| && db'.cards[j] == c;
      if j != k {
        assert db.cards[j] in db.cards;
      }
    }
  }

  /** Moving one unit of count from card `k`'s stack to `target` gives each
      stack the count it will have once the card itself is moved. */
  lemma MoveCountAt(db: Db, k: nat, target: string, i: nat)
    requires Valid(db)
    requires k < |db.cards| && i < |db.stacks|
    ensures var sid := db.stacks[i].id;
            var moved := IncrementCount(DecrementCount(db.stacks, db.cards[k].stackId), target);
            && moved[i].id == sid
            && moved[i].cardCount == Count(db.cards, sid) - (if db.cards[k].stackId == sid then 1 else 0)
                                     + (if target == sid then 1 else 0)
  {
    var down := DecrementCount(db.stacks, db.cards[k].stackId);
    FirstStackIsOnly(db.stacks, i);
    FirstStackSameIds(db.stacks, down, target);
    if db.stacks[i].id == db.cards[k].stackId {
      CountPositive(db.cards, k);
    }
  }

  /** One stack's count after a move: the source loses the card, the target
      gains it, every other stack keeps its count. */
  lemma UpdateCardCountAt(db: Db, id: string, request: UpdateCardRequest, i: nat)
    requires Valid(db)
    requires MoveTargetExists(db, request)
    requires id in CardIds(db.cards)
    requires i < |db.stacks|
    ensures var db' := UpdateCard(db, id, request).value.0;
            i < |db'.stacks| && db'.stacks[i].id == db.stacks[i].id
            && db'.stacks[i].cardCount == Count(db'.cards, db.stacks[i].id)
  {
    assert UpdateCard(db, id, request).Success?;
    var (db', card) := UpdateCard(db, id, request).value;
    var k := FirstCard(db.cards, id).value;
    var current := db.cards[k];
    var sid := db.stacks[i].id;
    assert db'.cards == db.cards[k := card];
    CountReplace(db.cards, k, card, sid);
    if IsMove(request, current) {
      MoveCountAt(db, k, request.stackId.value, i);
    }
  }

  /** `updateCard` keeps the store valid when the move target exists. */
  lemma UpdateCardPreservesValid(db: Db, id: string, request: UpdateCardRequest)
    requires Valid(db)
    requires MoveTargetExists(db, request)
    requires id in CardIds(db.cards)
    ensures Valid(UpdateCard(db, id, request).value.0)
  {
    var db' := UpdateCard(db, id, request).value.0;
    UpdateCardKeepsNoOrphans(db, id, request);
    UpdateCardKeepsStackIds(db, id, request);
    forall i | 0 <= i < |db'.stacks| ensures db'.stacks[i].cardCount == Count(db'.cards, db'.stacks[i].id) {
      UpdateCardCountAt(db, id, request, i);
    }
  }

  /** `updateCard` never checks the target: moving a card to a stack id that
      is not live succeeds and leaves an orphan card. */
  lemma UpdateCardToMissingStackOrphans(db: Db, id: string, request: UpdateCardRequest)
    requires id in CardIds(db.cards)
    requires request.stackId.Put? && request.stackId.value !in StackIds(db.stacks)
    ensures UpdateCard(db, id, request).Success?
    ensures !NoOrphans(UpdateCard(db, id, request).value.0)
  {
    var (db', card) := UpdateCard(db, id, request).value;
    var k := FirstCard(db.cards, id).value;
    var down := DecrementCount(db.stacks, db.cards[k].stackId);
    SameIdsSameStackIds(db.stacks, down);
    SameIdsSameStackIds(down, IncrementCount(down, request.stackId.value));
    SameIdsSameStackIds(db.stacks, db'.stacks);
    assert db'.cards[k] == card && card in db'.cards;
  }

  /** Deleting a card keeps the store valid. */
  lemma DeleteCardPreservesValid(db: Db, id: string)
    requires Valid(db)
    requires id in CardIds(db.cards)
    ensures Valid(DeleteCard(db, id).value)
  {
    assert DeleteCard(db, id).Success?;
    var db' := DeleteCard(db, id).value;
    var k := FirstCard(db.cards, id).value;
    var gone := db.cards[k];
    SameIdsSameStackIds(db.stacks, db'.stacks);
    forall c | c in db'.cards ensures c.stackId in StackIds(db'.stacks) {
      var j :| 0 <= j < |db'.cards| && db'.cards[j] == c;
      var j0 := if j < k then j else j + 1;
      assert db.cards[j0] in db.cards;
    }
    forall i | 0 <= i < |db'.stacks| ensures db'.stacks[i].cardCount == Count(db'.cards, db'.stacks[i].id) {
      CountRemove(db.cards, k, db.stacks[i].id);
      FirstStackIsOnly(db.stacks, i);
      if db.stacks[i].id == gone.stackId {
        CountPositive(db.cards, k);
      }
    }
  }

  // ---------------------------------------------------------------------
  // Round trips
  // ---------------------------------------------------------------------

  /** A fresh card appended last is the one `findIndex` finds, and removing
      it gives back the old list. */
  lemma FreshCardIsLast(cards: seq<Card>, card: Card)
    requires card.id !in CardIds(cards)
    ensures FirstCard(cards + [card], card.id) == Some(|cards|)
    ensures RemoveAt(cards + [card], |cards|) == cards
  {
    var all := cards + [card];
    forall j | 0 <= j < |cards| ensures !IsCard(card.id)(all[j]) {
      assert all[j] == cards[j] && cards[j] in cards;
    }
    assert IsCard(card.id)(all[|cards|]);
  }

  /** Decrementing undoes incrementing a non-negative count. */
  lemma DecrementUndoesIncrement(stacks: seq<Stack>, sid: string)
    requires FirstStack(stacks, sid).Some?
    requires stacks[FirstStack(stacks, sid).value].cardCount >= 0
    ensures DecrementCount(IncrementCount(stacks, sid), sid) == stacks
  {
    FirstStackSameIds(stacks, IncrementCount(stacks, sid), sid);
  }

  /** Creating a card with a fresh id and deleting it again restores the
      store exactly. */
  lemma {:induction false} CreateThenDeleteCard(db: Db, newId: string, request: CreateCardRequest)
    requires Valid(db)
    requires newId !in CardIds(db.cards)
    requires request.stackId in StackIds(db.stacks)
    ensures DeleteCard(CreateCard(db, newId, request).value.0, newId) == Success(db)
  {
    var (db', card) := CreateCard(db, newId, request).value;
    FreshCardIsLast(db.cards, card);
    var k := FirstStack(db.stacks, request.stackId).value;
    assert db.stacks[k].cardCount >= 0;
    DecrementUndoesIncrement(db.stacks, request.stackId);
  }

  /** A fresh stack appended last is the one `findIndex` finds. */
  lemma FreshStackIsLast(stacks: seq<Stack>, stack: Stack)
    requires stack.id !in StackIds(stacks)
    ensures FirstStack(stacks + [stack], stack.id) == Some(|stacks|)
    ensures RemoveAt(stacks + [stack], |stacks|) == stacks
  {
    var all := stacks + [stack];
    forall j | 0 <= j < |stacks| ensures !HasId(stack.id)(all[j]) {
      assert all[j] == stacks[j] && stacks[j] in stacks;
    }
    assert HasId(stack.id)(all[|stacks|]);
  }

  /** Creating a stack with a fresh id and deleting it again restores the
      store exactly. */
  lemma CreateThenDeleteStack(db: Db, newId: string, request: CreateStackRequest)
    requires Valid(db)
    requires newId !in StackIds(db.stacks)
    ensures DeleteStack(CreateStack(db, newId, request).0, newId) == Success(db)
  {
    var (db', stack) := CreateStack(db, newId, request);
    FreshStackIsLast(db.stacks, stack);
    forall i | 0 <= i < |db.cards| ensures NotInStack(newId)(db.cards[i]) {
      assert db.cards[i] in db.cards;
    }
    FilterKeepsAll(db.cards, NotInStack(newId));
  }
}
