/** The `<wishlist-dock>` custom element (`src/web-component/WishlistDockElement.ts`):
    attribute parsing, and the queue that holds operations requested before
    the embedded app has handed over its control handle. Shadow-DOM mounting,
    style injection and event dispatch are not modelled. An operation is a
    value: either the `open` attribute's synchronisation or any other
    queued request, identified by a tag. */
module WishlistDockElement {
  import opened Common
  import opened Types
  import UiSlice

  datatype DockPosition = BottomCenter | BottomLeft | BottomRight

  /** `parsePosition`: the two recognised values, else the centre (also for a missing attribute). */
  function ParsePosition(value: Option<string>): (p: DockPosition)
    ensures p == BottomLeft <==> value == Some("bottom-left")
    ensures p == BottomRight <==> value == Some("bottom-right")
  {
    if value == Some("bottom-left") then BottomLeft
    else if value == Some("bottom-right") then BottomRight
    else BottomCenter
  }

  /** The `theme` attribute: dark exactly for `"dark"`. */
  function ParseTheme(value: Option<string>): (t: ThemeMode)
    ensures t == Dark <==> value == Some("dark")
  {
    if value == Some("dark") then Dark else Light
  }

  /** The string the `position` setter writes into the attribute. */
  function PositionValue(p: DockPosition): string {
    match p
    case BottomCenter => "bottom-center"
    case BottomLeft => "bottom-left"
    case BottomRight => "bottom-right"
  }

  /** The string the `theme` setter writes into the attribute. */
  function ThemeValue(t: ThemeMode): string {
    match t
    case Light => "light"
    case Dark => "dark"
  }

  /** Every value the setters write parses back to itself. */
  lemma AttributeValuesRoundTrip(p: DockPosition, t: ThemeMode)
    ensures ParsePosition(Some(PositionValue(p))) == p
    ensures ParseTheme(Some(ThemeValue(t))) == t
  {
  }

  /** The operations the element queues: the `open` attribute's
      synchronisation, the `setExpanded` of `openDock`/`closeDock`, a
      `toggle()`, or any other request (`addCard`), identified by a tag. */
  datatype Operation = SyncOpen(shouldBeOpen: bool) | SetOpen(open: bool) | Toggle | Other(tag: nat)

  /** `_isReady`, `_pendingOperations`, the operations already run (in
      order), and the parsed attributes. */
  datatype Element = Element(ready: bool, pending: seq<Operation>, ran: seq<Operation>,
                             theme: ThemeMode, position: DockPosition)

  /** `connectedCallback`'s attribute reads on a freshly constructed element.
      The platform delivers `attributeChangedCallback` for the markup's initial
      attributes before this callback; here they are `AttributeChanged` calls applied
      to its result. Both orders end in the same state, because connecting only
      re-reads `theme` and `position`, which those callbacks also set from the
      same values, and an `open` sync is queued the same way either way. */
  function Connected(theme: Option<string>, position: Option<string>): (e: Element)
    ensures !e.ready && e.pending == [] && e.ran == []
    ensures e.theme == ParseTheme(theme) && e.position == ParsePosition(position)
  {
    Element(false, [], [], ParseTheme(theme), ParsePosition(position))
  }

  /** `whenReady`: run now when ready, else queue at the back. */
  function WhenReady(e: Element, op: Operation): (r: Element)
    ensures r.ready == e.ready && r.theme == e.theme && r.position == e.position
    ensures e.ready ==> r.ran == e.ran + [op] && r.pending == e.pending
    ensures !e.ready ==> r.pending == e.pending + [op] && r.ran == e.ran
  {
    if e.ready then e.(ran := e.ran + [op]) else e.(pending := e.pending + [op])
  }

  /** `handleReady`: become ready and run the queue front to back, emptying it. */
  function HandleReady(e: Element): (r: Element)
    ensures r.ready && r.pending == []
    ensures r.ran == e.ran + e.pending
  {
    e.(ready := true, ran := e.ran + e.pending, pending := [])
  }

  /** `unmount`: not ready, and queued operations are dropped unrun. */
  function Unmount(e: Element): (r: Element)
    ensures !r.ready && r.pending == [] && r.ran == e.ran
  {
    e.(ready := false, pending := [])
  }

  datatype Attribute = ThemeAttr | PositionAttr | OpenAttr | OtherAttr(name: string)

  /** `attributeChangedCallback`: nothing when the value is unchanged;
      otherwise re-parse the attribute, and for `open` queue (or run) the
      synchronisation of the expanded state with the attribute's presence. */
  function AttributeChanged(e: Element, attr: Attribute, oldValue: Option<string>, newValue: Option<string>): (r: Element)
    ensures oldValue == newValue ==> r == e
  {
    if oldValue == newValue then e
    else match attr
      case ThemeAttr => e.(theme := ParseTheme(newValue))
      case PositionAttr => e.(position := ParsePosition(newValue))
      case OpenAttr => WhenReady(e, SyncOpen(newValue.Some?))
      case OtherAttr(_) => e
  }

  /** Toggling the `open` attribute before the app is ready only queues; the
      theme and position are parsed at once. */
  lemma AttributeChangeFrame(e: Element, attr: Attribute, oldValue: Option<string>, newValue: Option<string>)
    requires oldValue != newValue
    ensures var r := AttributeChanged(e, attr, oldValue, newValue);
            && (attr == ThemeAttr ==> r == e.(theme := ParseTheme(newValue)))
            && (attr == PositionAttr ==> r == e.(position := ParsePosition(newValue)))
            && (attr == OpenAttr && !e.ready ==> r == e.(pending := e.pending + [SyncOpen(newValue.Some?)]))
            && (attr == OpenAttr && e.ready ==> r == e.(ran := e.ran + [SyncOpen(newValue.Some?)]))
  {
  }

  /** The `theme` setter: when the value differs from the parsed theme,
      write its string into the attribute, which re-parses it. */
  function SetTheme(e: Element, attrValue: Option<string>, value: ThemeMode): Element {
    if e.theme != value then AttributeChanged(e, ThemeAttr, attrValue, Some(ThemeValue(value))) else e
  }

  /** The `position` setter, likewise. */
  function SetPosition(e: Element, attrValue: Option<string>, value: DockPosition): Element {
    if e.position != value then AttributeChanged(e, PositionAttr, attrValue, Some(PositionValue(value))) else e
  }

  /** While the parsed fields mirror the attributes, a setter's value is
      what the getter reads back, and the queue is untouched. */
  lemma SettersTakeEffect(e: Element, themeAttr: Option<string>, positionAttr: Option<string>,
                          theme: ThemeMode, position: DockPosition)
    requires e.theme == ParseTheme(themeAttr) && e.position == ParsePosition(positionAttr)
    ensures SetTheme(e, themeAttr, theme).theme == theme
    ensures SetPosition(e, positionAttr, position).position == position
    ensures SetTheme(e, themeAttr, theme).pending == e.pending
    ensures SetPosition(e, positionAttr, position).pending == e.pending
  {
    AttributeValuesRoundTrip(position, theme);
  }

  /** Once ready, nothing waits in the queue. */
  predicate QueueDrained(e: Element) {
    e.ready ==> e.pending == []
  }

  datatype ElementEvent = Request(op: Operation) | Ready | Disconnect

  function Step(e: Element, ev: ElementEvent): Element {
    match ev
    case Request(op) => WhenReady(e, op)
    case Ready => HandleReady(e)
    case Disconnect => Unmount(e)
  }

  function Run(e: Element, evs: seq<ElementEvent>): Element
    decreases |evs|
  {
    if evs == [] then e else Run(Step(e, evs[0]), evs[1..])
  }

  /** The operations requested along some events, in order. */
  function Requested(evs: seq<ElementEvent>): seq<Operation>
    decreases |evs|
  {
    if evs == [] then [] else (if evs[0].Request? then [evs[0].op] else []) + Requested(evs[1..])
  }

  /** One event other than a disconnect appends its request, if any, to
      what has run followed by what waits. */
  lemma StepKeepsOrder(e: Element, ev: ElementEvent)
    requires QueueDrained(e) && !ev.Disconnect?
    ensures Step(e, ev).ran + Step(e, ev).pending == e.ran + e.pending + (if ev.Request? then [ev.op] else [])
    ensures QueueDrained(Step(e, ev))
  {
  }

  /** Without a disconnect, nothing is lost or reordered: what has run
      followed by what waits is exactly what was requested, in request
      order; and the queue is empty whenever the element is ready. */
  lemma {:induction false} RequestsRunInOrder(e: Element, evs: seq<ElementEvent>)
    requires QueueDrained(e)
    requires forall i :: 0 <= i < |evs| ==> !evs[i].Disconnect?
    ensures Run(e, evs).ran + Run(e, evs).pending == e.ran + e.pending + Requested(evs)
    ensures QueueDrained(Run(e, evs))
    decreases |evs|
  {
    if evs != [] {
      var e1 := Step(e, evs[0]);
      var head := if evs[0].Request? then [evs[0].op] else [];
      StepKeepsOrder(e, evs[0]);
      assert forall i :: 0 <= i < |evs[1..]| ==> evs[1..][i] == evs[i + 1];
      RequestsRunInOrder(e1, evs[1..]);
      var t := Run(e1, evs[1..]);
      assert Run(e, evs) == t;
      assert Requested(evs) == head + Requested(evs[1..]);
      calc {
        t.ran + t.pending;
        e1.ran + e1.pending + Requested(evs[1..]);
        (e.ran + e.pending + head) + Requested(evs[1..]);
        e.ran + e.pending + (head + Requested(evs[1..]));
      }
    }
  }

  /** After the ready signal every request so far has run, first come first served. */
  lemma {:induction false} ReadyRunsAllRequests(theme: Option<string>, position: Option<string>, evs: seq<ElementEvent>)
    requires forall i :: 0 <= i < |evs| ==> !evs[i].Disconnect?
    ensures Run(Connected(theme, position), evs + [Ready]).ran == Requested(evs)
  {
    var e := Connected(theme, position);
    RequestsRunInOrder(e, evs);
    RunConcat(e, evs, [Ready]);
  }

  lemma {:induction false} RunConcat(e: Element, a: seq<ElementEvent>, b: seq<ElementEvent>)
    ensures Run(e, a + b) == Run(Run(e, a), b)
    decreases |a|
  {
    if a == [] {
      assert a + b == b;
    } else {
      assert (a + b)[0] == a[0];
      assert (a + b)[1..] == a[1..] + b;
      RunConcat(Step(e, a[0]), a[1..], b);
    }
  }

  /** A disconnect before the ready signal discards what was queued. */
  lemma DisconnectDropsQueue(e: Element, op: Operation)
    requires !e.ready
    ensures HandleReady(Unmount(WhenReady(e, op))).ran == e.ran
  {
  }

  /** Running the `open` synchronisation against the app's UI state:
      `setExpanded` is dispatched only when the state differs. */
  function RunSyncOpen(ui: UiSlice.UiState, shouldBeOpen: bool): (r: (Option<UiSlice.UiAction>, UiSlice.UiState))
    ensures r.0.Some? <==> ui.isExpanded != shouldBeOpen
    ensures r.0.Some? ==> r.0.value == UiSlice.SetExpanded(shouldBeOpen)
    ensures r.1 == ui.(isExpanded := shouldBeOpen)
  {
    if shouldBeOpen != ui.isExpanded then
      (Some(UiSlice.SetExpanded(shouldBeOpen)), UiSlice.Reduce(ui, UiSlice.SetExpanded(shouldBeOpen)))
    else (None, ui)
  }

  /** One operation's effect on the UI state when it runs. `setExpanded`
      from `openDock`/`closeDock` sets the state; a `toggle()` reads the
      state at that moment and runs `closeDock` or `openDock`, which flips
      it; other requests leave it. */
  function ApplyOperation(ui: UiSlice.UiState, op: Operation): (r: UiSlice.UiState)
    ensures op.SyncOpen? ==> r.isExpanded == op.shouldBeOpen
    ensures op.SetOpen? ==> r.isExpanded == op.open
    ensures op.Toggle? ==> r.isExpanded == !ui.isExpanded
    ensures op.Other? ==> r == ui
    ensures r == ui.(isExpanded := r.isExpanded)
  {
    match op
    case SyncOpen(b) => RunSyncOpen(ui, b).1
    case SetOpen(b) => UiSlice.Reduce(ui, UiSlice.SetExpanded(b))
    case Toggle => UiSlice.Reduce(ui, UiSlice.SetExpanded(!ui.isExpanded))
    case Other(_) => ui
  }

  /** The UI state after running some operations in order. */
  function ApplyOperations(ui: UiSlice.UiState, ops: seq<Operation>): UiSlice.UiState
    decreases |ops|
  {
    if ops == [] then ui else ApplyOperations(ApplyOperation(ui, ops[0]), ops[1..])
  }

  /** An operation that sets the expanded state outright. */
  predicate SetsOpen(op: Operation) {
    op.SyncOpen? || op.SetOpen?
  }

  function OpenValue(op: Operation): bool
    requires SetsOpen(op)
  {
    if op.SyncOpen? then op.shouldBeOpen else op.open
  }

  /** When only other requests follow the last operation that sets the
      expanded state, that operation decides whether the dock ends up
      expanded. */
  lemma {:induction false} LastOpenChangeWins(ui: UiSlice.UiState, ops: seq<Operation>, k: nat)
    requires k < |ops| && SetsOpen(ops[k])
    requires forall i :: k < i < |ops| ==> ops[i].Other?
    ensures ApplyOperations(ui, ops).isExpanded == OpenValue(ops[k])
    decreases |ops|
  {
    var next := ApplyOperation(ui, ops[0]);
    if k == 0 {
      OthersKeepExpanded(next, ops[1..]);
    } else {
      LastOpenChangeWins(next, ops[1..], k - 1);
    }
  }

  lemma {:induction false} OthersKeepExpanded(ui: UiSlice.UiState, ops: seq<Operation>)
    requires forall i :: 0 <= i < |ops| ==> ops[i].Other?
    ensures ApplyOperations(ui, ops) == ui
    decreases |ops|
  {
    if ops != [] {
      OthersKeepExpanded(ui, ops[1..]);
    }
  }

  /** A `toggle()` queued after any operations flips the state they leave. */
  lemma {:induction false} ToggleAfterwardsFlips(ui: UiSlice.UiState, ops: seq<Operation>)
    ensures ApplyOperations(ui, ops + [Toggle]).isExpanded == !ApplyOperations(ui, ops).isExpanded
    decreases |ops|
  {
    if ops == [] {
      assert ops + [Toggle] == [Toggle];
    } else {
      assert (ops + [Toggle])[1..] == ops[1..] + [Toggle];
      ToggleAfterwardsFlips(ApplyOperation(ui, ops[0]), ops[1..]);
    }
  }

  /** `<wishlist-dock open>` followed by `toggle()` before the app is ready
      ends collapsed. */
  lemma OpenThenToggleCollapses(ui: UiSlice.UiState)
    ensures ApplyOperations(ui, [SyncOpen(true), Toggle]).isExpanded == false
  {
    ToggleAfterwardsFlips(ui, [SyncOpen(true)]);
    assert [SyncOpen(true)] + [Toggle] == [SyncOpen(true), Toggle];
  }

  /** `PCENChar` of the `PotentialCustomElementName` production in the HTML
      Standard ("Custom elements", core concepts). */
  predicate NameChar(c: char) {
    || c == '-' || c == '.' || c == '_' || ('0' <= c <= '9') || ('a' <= c <= 'z')
    || var n := c as int;
       || n == 0xB7 || 0xC0 <= n <= 0xD6 || 0xD8 <= n <= 0xF6 || 0xF8 <= n <= 0x37D
       || 0x37F <= n <= 0x1FFF || 0x200C <= n <= 0x200D || 0x203F <= n <= 0x2040
       || 0x2070 <= n <= 0x218F || 0x2C00 <= n <= 0x2FEF || 0x3001 <= n <= 0xD7FF
       || 0xF900 <= n <= 0xFDCF || 0xFDF0 <= n <= 0xFFFD || 0x10000 <= n <= 0xEFFFF
  }

  /** The hyphenated names the standard reserves for SVG and MathML. */
  const ReservedNames: set<string> :=
    {"annotation-xml", "color-profile", "font-face", "font-face-src", "font-face-uri",
     "font-face-format", "font-face-name", "missing-glyph"}

  /** A valid custom element name: a lower-case ASCII letter first, a hyphen
      somewhere, only name characters (so no upper-case ASCII), and not reserved. */
  predicate ValidCustomElementName(name: string) {
    && |name| > 0 && 'a' <= name[0] <= 'z'
    && (exists i :: 0 <= i < |name| && name[i] == '-')
    && (forall i :: 0 <= i < |name| ==> NameChar(name[i]))
    && name !in ReservedNames
  }

  /** The default tag is valid; a name without a hyphen, with an upper-case
      letter, or on the reserved list is not. */
  lemma NameExamples()
    ensures ValidCustomElementName(DefaultTag)
    ensures !ValidCustomElementName("dock")
    ensures !ValidCustomElementName("Wish-list")
    ensures !ValidCustomElementName("font-face")
  {
    assert DefaultTag[8] == '-';
    assert forall i :: 0 <= i < |"dock"| ==> "dock"[i] != '-';
  }

  /** `register`'s default tag name. */
  const DefaultTag: string := "wishlist-dock"

  /** The page's custom-element registry as far as `register` can observe
      it: every defined tag name, and the tag (if any) under which this
      element class is defined. */
  datatype Registry = Registry(defined: set<string>, dockTag: Option<string>)

  /** Only valid names are ever defined, and the element's tag is one of them. */
  predicate RegistryValid(reg: Registry) {
    && (forall t :: t in reg.defined ==> ValidCustomElementName(t))
    && (reg.dockTag.Some? ==> reg.dockTag.value in reg.defined)
  }

  /** `customElements.define` throws `SyntaxError` for a name that is not a
      valid custom element name, and `NotSupportedError` when the class is
      already defined under another name. */
  datatype DefineError = InvalidName | NotSupported

  /** `register`: nothing when the tag is already defined (by any class);
      otherwise define it for this class, which fails on an invalid name and
      when the class is already defined under another tag. */
  function Register(reg: Registry, tagName: string): (r: Result<Registry, DefineError>)
    ensures tagName in reg.defined ==> r == Success(reg)
    ensures r.Failure? <==> tagName !in reg.defined && (!ValidCustomElementName(tagName) || reg.dockTag.Some?)
    ensures r == Failure(InvalidName) <==> tagName !in reg.defined && !ValidCustomElementName(tagName)
    ensures r.Success? ==> r.value.defined == reg.defined + {tagName}
    ensures r.Success? && tagName !in reg.defined ==> r.value.dockTag == Some(tagName)
  {
    if tagName in reg.defined then Success(reg)
    else if !ValidCustomElementName(tagName) then Failure(InvalidName)
    else if reg.dockTag.Some? then Failure(NotSupported)
    else Success(Registry(reg.defined + {tagName}, Some(tagName)))
  }

  /** Registering keeps the registry well formed, repeating a registration
      changes nothing, and once the element is defined a second, unused tag
      name is refused. */
  lemma RegisterDefinesOnce(reg: Registry, tagName: string, other: string)
    requires RegistryValid(reg)
    ensures Register(reg, tagName).Success? ==> RegistryValid(Register(reg, tagName).value)
    ensures Register(reg, tagName).Success? ==>
              Register(Register(reg, tagName).value, tagName) == Register(reg, tagName)
    ensures Register(reg, tagName).Success? && tagName !in reg.defined && other !in reg.defined && other != tagName ==>
              Register(Register(reg, tagName).value, other).Failure?
    ensures Register(reg, tagName).Success? && tagName !in reg.defined && other !in reg.defined && other != tagName
              && ValidCustomElementName(other) ==>
              Register(Register(reg, tagName).value, other) == Failure(NotSupported)
  {
  }

  /** On a page with nothing defined, `register()` defines the default tag. */
  lemma DefaultRegistration()
    ensures Register(Registry({}, None), DefaultTag) == Success(Registry({DefaultTag}, Some(DefaultTag)))
  {
    NameExamples();
    var none: set<string> := {};
    assert none + {DefaultTag} == {DefaultTag};
  }
}

/** The app root behind the element's control handle
    (`src/web-component/WishlistDockRoot.tsx`). The handle reads the cached
    stack list, which is absent until the stack query has answered. */
module WishlistDockRoot {
  import opened Common
  import opened Types
  import MockApi
  import ApiSlice
  import UiSlice

  const NoStackMessage: string := "No stack available. Create a stack first."
  const FailedMessage: string := "Failed to create card"

  /** `addCard`'s input: a card request whose stack is optional. */
  datatype AddCardData = AddCardData(stackId: Option<string>, name: string, description: Option<string>, coverUrl: string)

  /** The given non-empty stack id, else the first cached stack's id; it must end up non-empty. */
  function AddCardTarget(data: AddCardData, cached: Option<seq<Stack>>): (r: Result<string, string>)
    ensures Truthy(data.stackId) ==> r == Success(data.stackId.value)
    ensures !Truthy(data.stackId) && cached.Some? && |cached.value| > 0 && cached.value[0].id != "" ==>
              r == Success(cached.value[0].id)
    ensures r.Failure? <==> !Truthy(data.stackId) && (cached.None? || |cached.value| == 0 || cached.value[0].id == "")
    ensures r.Failure? ==> r.error == NoStackMessage
  {
    var stacks := cached.GetOr([]);
    var target := if !Truthy(data.stackId) && |stacks| > 0 then Some(stacks[0].id) else data.stackId;
    if Truthy(target) then Success(target.value) else Failure(NoStackMessage)
  }

  /** `addCard`: choose the target, run `createCard` through its endpoint,
      and hand back the card or fail with a fixed message. */
  function AddCard(db: MockApi.Db, cached: Option<seq<Stack>>, data: AddCardData, newId: string): (r: Result<(MockApi.Db, Card), string>)
    ensures r.Failure? ==> r.error == NoStackMessage || r.error == FailedMessage
    ensures AddCardTarget(data, cached).Failure? ==> r == Failure(NoStackMessage)
  {
    match AddCardTarget(data, cached)
    case Failure(e) => Failure(e)
    case Success(target) =>
      var request := CreateCardRequest(target, data.name, data.description, data.coverUrl);
      match ApiSlice.Wrap(MockApi.CreateCard(db, newId, request))
      case Data(v) => Success(v)
      case QueryError(_) => Failure(FailedMessage)
  }

  /** `addCard` succeeds exactly when a target is found and the store knows
      it; the card returned is the one stored, in that stack. */
  lemma AddCardOutcome(db: MockApi.Db, cached: Option<seq<Stack>>, data: AddCardData, newId: string)
    ensures var t := AddCardTarget(data, cached);
            AddCard(db, cached, data, newId).Success? <==> t.Success? && t.value in MockApi.StackIds(db.stacks)
    ensures var r := AddCard(db, cached, data, newId);
            r.Success? ==> && r.value.1 in r.value.0.cards
                           && r.value.1.stackId == AddCardTarget(data, cached).value
                           && r.value.1.id == newId && r.value.1.name == data.name
    ensures var t := AddCardTarget(data, cached);
            t.Success? && t.value !in MockApi.StackIds(db.stacks) ==> AddCard(db, cached, data, newId) == Failure(FailedMessage)
  {
    var t := AddCardTarget(data, cached);
    if t.Success? {
      var request := CreateCardRequest(t.value, data.name, data.description, data.coverUrl);
      var c := MockApi.CreateCard(db, newId, request);
      if c.Success? {
        assert c.value.0.cards == db.cards + [c.value.1];
        assert c.value.1 in c.value.0.cards;
      }
    }
  }

  /** The handle's `getStacks`: the cached list, or none before the first answer. */
  function GetStacks(cached: Option<seq<Stack>>): (r: seq<Stack>)
    ensures cached.Some? ==> r == cached.value
    ensures cached.None? ==> r == []
  {
    cached.GetOr([])
  }

  /** Once the stack query has answered from the store, the handle's
      `getStacks` returns the store's stacks. */
  lemma GetStacksReadsStore(db: MockApi.Db)
    ensures GetStacks(Some(ApiSlice.GetStacksEndpoint(db).value)) == db.stacks
  {
  }

  /** The theme button flips between light and dark. */
  function ToggleTheme(mode: ThemeMode): (r: ThemeMode)
    ensures r != mode
  {
    if mode == Light then Dark else Light
  }

  lemma ToggleThemeTwice(mode: ThemeMode)
    ensures ToggleTheme(ToggleTheme(mode)) == mode
  {
  }

  /** The mount effect: with `initialOpen` the store is expanded. */
  function InitialOpen(ui: UiSlice.UiState, initialOpen: bool): (r: UiSlice.UiState)
    ensures initialOpen ==> r == ui.(isExpanded := true)
    ensures !initialOpen ==> r == ui
  {
    if initialOpen then UiSlice.Reduce(ui, UiSlice.SetExpanded(true)) else ui
  }

  /** The handle's `isExpanded` reads the store: a freshly opened widget reports open. */
  lemma InitiallyOpenReportsExpanded(initialOpen: bool)
    ensures InitialOpen(UiSlice.Initial, initialOpen).isExpanded == initialOpen
  {
  }
}
