/** The RTK Query endpoints over the store (`src/store/api/apiSlice.ts`):
    each endpoint wraps one store operation, turns a thrown error into an
    error value, and names the cache tags it provides or invalidates. The
    cache itself is left out; a query is refetched after a mutation exactly
    when one of the tags it provided is among the tags the mutation
    invalidates. */
module ApiSlice {
  import opened Common
  import opened Types
  import MockApi

  datatype TagType = StackTag | CardTag

  /** A tag names one entity or, with `List`, the whole collection (`id: "LIST"`). */
  datatype TagId = Entity(id: string) | List

  datatype Tag = Tag(kind: TagType, id: TagId)

  datatype Query = StacksQuery | CardsQuery(stackId: Option<string>)

  datatype Mutation =
    | CreateStackMutation(createStack: CreateStackRequest)
    | UpdateStackMutation(stackId: string, updateStack: UpdateStackRequest)
    | DeleteStackMutation(deletedStackId: string)
    | CreateCardMutation(createCard: CreateCardRequest)
    | UpdateCardMutation(cardId: string, updateCard: UpdateCardRequest)
    | DeleteCardMutation(deletedCardId: string)

  /** An endpoint's answer: the data, or `{ error: { message } }`. */
  datatype Outcome<T> = Data(value: T) | QueryError(message: string)

  /** `String(error)` of the store's `Error`: its name, a colon, its message. */
  function ErrorMessage(e: MockApi.StoreError): string {
    match e
    case StackNotFound(id) => "Error: Stack not found: " + id
    case CardNotFound(id) => "Error: Card not found: " + id
  }

  /** The `try`/`catch` around every store call. */
  function Wrap<T>(r: Result<T, MockApi.StoreError>): (o: Outcome<T>)
    ensures o.Data? <==> r.Success?
    ensures r.Success? ==> o.value == r.value
    ensures r.Failure? ==> o.message == ErrorMessage(r.error)
  {
    match r
    case Success(v) => Data(v)
    case Failure(e) => QueryError(ErrorMessage(e))
  }

  /** Every error message names the missing id after the fixed prefix. */
  lemma ErrorMessageNamesId(e: MockApi.StoreError)
    ensures var m := ErrorMessage(e);
            && m[..7] == "Error: "
            && m[|m| - |e.id|..] == e.id
  {
  }

  function QueryKind(q: Query): TagType {
    match q
    case StacksQuery => StackTag
    case CardsQuery(_) => CardTag
  }

  /** `providesTags`: one tag per returned id plus the collection tag; after
      an error (`result` absent) only the collection tag. */
  function ProvidesTags(q: Query, result: Option<seq<string>>): (r: seq<Tag>)
    ensures Tag(QueryKind(q), List) in r
    ensures forall t :: t in r ==> t.kind == QueryKind(q)
    ensures forall id :: Tag(QueryKind(q), Entity(id)) in r <==> result.Some? && id in result.value
  {
    var ids := if result.Some? then result.value else [];
    var r := seq(|ids|, i requires 0 <= i < |ids| => Tag(QueryKind(q), Entity(ids[i]))) + [Tag(QueryKind(q), List)];
    assert forall i :: 0 <= i < |ids| ==> r[i] == Tag(QueryKind(q), Entity(ids[i]));
    r
  }

  /** `invalidatesTags` of each mutation. */
  function InvalidatesTags(m: Mutation): seq<Tag> {
    match m
    case CreateStackMutation(_) => [Tag(StackTag, List)]
    case UpdateStackMutation(id, _) => [Tag(StackTag, Entity(id)), Tag(StackTag, List)]
    case DeleteStackMutation(_) => [Tag(StackTag, List), Tag(CardTag, List)]
    case CreateCardMutation(_) => [Tag(CardTag, List), Tag(StackTag, List)]
    case UpdateCardMutation(id, _) => [Tag(CardTag, Entity(id)), Tag(CardTag, List), Tag(StackTag, List)]
    case DeleteCardMutation(_) => [Tag(CardTag, List), Tag(StackTag, List)]
  }

  /** The cache refetches a query whose provided tags meet the invalidated ones. */
  predicate Refetches(m: Mutation, q: Query, result: Option<seq<string>>) {
    exists t :: t in InvalidatesTags(m) && t in ProvidesTags(q, result)
  }

  /** A mutation that can change the card collection. */
  predicate TouchesCards(m: Mutation) {
    !m.CreateStackMutation? && !m.UpdateStackMutation?
  }

  /** Every mutation refetches every stack query, successful or not. */
  lemma EveryMutationRefetchesStacks(m: Mutation, result: Option<seq<string>>)
    ensures Refetches(m, StacksQuery, result)
  {
    assert Tag(StackTag, List) in InvalidatesTags(m);
  }

  /** A card query is refetched exactly after the card mutations and
      `deleteStack`; creating or renaming a stack leaves card queries cached. */
  lemma CardQueriesRefetchedIffTouchesCards(m: Mutation, stackId: Option<string>, result: Option<seq<string>>)
    ensures Refetches(m, CardsQuery(stackId), result) <==> TouchesCards(m)
  {
    var q := CardsQuery(stackId);
    if TouchesCards(m) {
      assert Tag(CardTag, List) in InvalidatesTags(m);
      assert Tag(CardTag, List) in ProvidesTags(q, result);
    } else {
      forall t | t in InvalidatesTags(m) ensures t !in ProvidesTags(q, result) {
        assert t.kind == StackTag;
      }
    }
  }

  /** The store effect of one mutation, `newId` standing for the generated id. */
  function ApplyMutation(db: MockApi.Db, m: Mutation, newId: string): Result<MockApi.Db, MockApi.StoreError> {
    match m
    case CreateStackMutation(req) => Success(MockApi.CreateStack(db, newId, req).0)
    case UpdateStackMutation(id, req) =>
      (match MockApi.UpdateStack(db, id, req)
       case Success(v) => Success(v.0)
       case Failure(e) => Failure(e))
    case DeleteStackMutation(id) => MockApi.DeleteStack(db, id)
    case CreateCardMutation(req) =>
      (match MockApi.CreateCard(db, newId, req)
       case Success(v) => Success(v.0)
       case Failure(e) => Failure(e))
    case UpdateCardMutation(id, req) =>
      (match MockApi.UpdateCard(db, id, req)
       case Success(v) => Success(v.0)
       case Failure(e) => Failure(e))
    case DeleteCardMutation(id) => MockApi.DeleteCard(db, id)
  }

  /** The tags are sufficient: whenever a mutation changes the cards, every
      card query is refetched, and whenever it changes the stacks, every
      stack query is. No cached list survives a change to its collection. */
  lemma InvalidationCoversChanges(db: MockApi.Db, m: Mutation, newId: string, q: Query, result: Option<seq<string>>)
    requires ApplyMutation(db, m, newId).Success?
    requires var db' := ApplyMutation(db, m, newId).value;
             (q.CardsQuery? && db'.cards != db.cards) || (q.StacksQuery? && db'.stacks != db.stacks)
    ensures Refetches(m, q, result)
  {
    match q
    case StacksQuery => EveryMutationRefetchesStacks(m, result);
    case CardsQuery(sid) =>
      CardQueriesRefetchedIffTouchesCards(m, sid, result);
  }

  /** `getCards` passes `stackId || undefined`: an empty id reads every card. */
  function GetCardsEndpoint(db: MockApi.Db, stackId: Option<string>): (o: Outcome<seq<Card>>)
    ensures o.Data?
    ensures Truthy(stackId) ==> forall c :: c in o.value <==> c in db.cards && c.stackId == stackId.value
    ensures Truthy(stackId) ==> forall c :: multiset(o.value)[c] == if c.stackId == stackId.value then multiset(db.cards)[c] else 0
    ensures Truthy(stackId) ==> MockApi.SortedByPosition(o.value)
    ensures !Truthy(stackId) ==> o.value == db.cards
  {
    Data(MockApi.GetCards(db, if Truthy(stackId) then stackId else None))
  }

  /** `getStacks` never fails. */
  function GetStacksEndpoint(db: MockApi.Db): (o: Outcome<seq<Stack>>)
    ensures o == Data(db.stacks)
  {
    Data(MockApi.GetStacks(db))
  }
}
