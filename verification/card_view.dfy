/** The card carousel shown under the dock or as a modal over the full-screen
    view (`src/components/Cards/CardView.tsx`). The carousel library is not
    modelled; without its `loop` option its previous/next moves are taken as
    one step that stops at either end. */
module CardView {
  import opened Common
  import opened Types
  import opened Seqs
  import DragSlice
  import DraggableCard

  datatype DisplayMode = DockMode | ModalMode

  /** `cards[activeIndex]`, absent when the index is out of range. */
  function CurrentCard(cards: seq<Card>, activeIndex: int): (c: Option<Card>)
    ensures c.Some? <==> 0 <= activeIndex < |cards|
    ensures c.Some? ==> c.value == cards[activeIndex]
  {
    if 0 <= activeIndex < |cards| then Some(cards[activeIndex]) else None
  }

  /** The "i / n" counter, shown only when there are cards. */
  function Counter(activeIndex: int, count: nat): (r: Option<(int, nat)>)
    ensures r.Some? <==> count > 0
    ensures r.Some? ==> r.value.0 == activeIndex + 1 && r.value.1 == count
  {
    if count > 0 then Some((activeIndex + 1, count)) else None
  }

  /** Whatever keys were pressed, the counter reads a position from 1 up to
      the number of cards. */
  lemma CounterAfterKeys(mode: DisplayMode, i: nat, count: nat, keys: seq<string>)
    requires i < count
    ensures var r := Counter(IndexAfterKeys(mode, i, count, keys), count);
            r.Some? && 1 <= r.value.0 <= r.value.1 && r.value.1 == count
  {
  }

  /** The arrows exist only in modal mode with at least one card. */
  predicate ArrowsShown(mode: DisplayMode, count: nat) {
    mode == ModalMode && count > 0
  }

  predicate PrevDisabled(activeIndex: int) {
    activeIndex == 0
  }

  predicate NextDisabled(activeIndex: int, count: nat) {
    activeIndex == count - 1
  }

  /** The carousel's previous move, stopping at the first card. */
  function SlidePrev(i: nat): (r: nat)
    ensures r == if i == 0 then 0 else i - 1
  {
    if i > 0 then i - 1 else i
  }

  /** The carousel's next move, stopping at the last card. */
  function SlideNext(i: nat, count: nat): (r: nat)
    requires i < count
    ensures r < count
    ensures r == if i + 1 == count then i else i + 1
  {
    if i + 1 < count then i + 1 else i
  }

  /** The arrows are disabled exactly where their move would do nothing:
      navigation stops at both ends instead of wrapping around. */
  lemma ArrowsDisabledAtEnds(i: nat, count: nat)
    requires i < count
    ensures PrevDisabled(i) <==> SlidePrev(i) == i
    ensures NextDisabled(i, count) <==> SlideNext(i, count) == i
  {
  }

  datatype KeyAction = CloseView | PrevSlide | NextSlide

  /** The keyboard handler, installed only in modal mode; `key` is the
      event's `key` string. */
  function HandleKey(mode: DisplayMode, key: string): (a: Option<KeyAction>)
    ensures mode == DockMode ==> a.None?
    ensures mode == ModalMode ==>
              && (a == Some(CloseView) <==> key == "Escape")
              && (a == Some(PrevSlide) <==> key == "ArrowLeft")
              && (a == Some(NextSlide) <==> key == "ArrowRight")
              && (a.None? <==> key !in {"Escape", "ArrowLeft", "ArrowRight"})
  {
    if mode == DockMode then None
    else if key == "Escape" then Some(CloseView)
    else if key == "ArrowLeft" then Some(PrevSlide)
    else if key == "ArrowRight" then Some(NextSlide)
    else None
  }

  /** Where the arrow buttons are shown, the arrow keys do what they do. */
  lemma ArrowsMatchKeys(mode: DisplayMode, i: nat, count: nat)
    requires ArrowsShown(mode, count) && i < count
    ensures HandleKey(mode, "ArrowLeft") == Some(PrevSlide)
    ensures HandleKey(mode, "ArrowRight") == Some(NextSlide)
    ensures IndexAfterKey(mode, i, count, "ArrowLeft") == SlidePrev(i)
    ensures IndexAfterKey(mode, i, count, "ArrowRight") == SlideNext(i, count)
  {
  }

  /** The active index after a key press. */
  function IndexAfterKey(mode: DisplayMode, i: nat, count: nat, key: string): (r: nat)
    requires i < count
    ensures r < count
  {
    match HandleKey(mode, key)
    case Some(PrevSlide) => SlidePrev(i)
    case Some(NextSlide) => SlideNext(i, count)
    case _ => i
  }

  function IndexAfterKeys(mode: DisplayMode, i: nat, count: nat, keys: seq<string>): (r: nat)
    requires i < count
    ensures r < count
    decreases |keys|
  {
    if keys == [] then i else IndexAfterKeys(mode, IndexAfterKey(mode, i, count, keys[0]), count, keys[1..])
  }

  /** Any run of key presses keeps the active card in range, and in dock
      mode keys never move it. */
  lemma {:induction false} KeysNeverMoveInDockMode(i: nat, count: nat, keys: seq<string>)
    requires i < count
    ensures IndexAfterKeys(DockMode, i, count, keys) == i
    decreases |keys|
  {
    if keys != [] {
      KeysNeverMoveInDockMode(i, count, keys[1..]);
    }
  }

  /** A backdrop click closes only in modal mode and only on the container itself. */
  predicate BackdropClickCloses(mode: DisplayMode, targetIsContainer: bool) {
    mode == ModalMode && targetIsContainer
  }

  /** Clicking the backdrop itself closes exactly where Escape closes. */
  lemma BackdropLikeEscape(mode: DisplayMode)
    ensures BackdropClickCloses(mode, true) <==> HandleKey(mode, "Escape") == Some(CloseView)
    ensures !BackdropClickCloses(mode, false)
  {
  }

  /** Every stack except the one shown, in order (all of them when none is shown). */
  function OtherStacks(all: seq<Stack>, shown: Option<Stack>): (r: seq<Stack>)
    ensures IsSublist(r, all)
    ensures forall s :: s in r <==> s in all && (shown.None? || s.id != shown.value.id)
    ensures forall s :: multiset(r)[s] == if shown.None? || s.id != shown.value.id then multiset(all)[s] else 0
  {
    var keep := (s: Stack) => shown.None? || s.id != shown.value.id;
    FilterCounts(all, keep);
    Filter(all, keep)
  }

  /** Touch swiping is off exactly while a drag session is active. */
  function AllowTouchMove(isDragging: bool): (b: bool)
    ensures b <==> !isDragging
  {
    !isDragging
  }

  /** Pressing a card's drag handle turns swiping off, and releasing it,
      however the release ends, turns swiping back on. */
  lemma TouchFollowsDrag(s: DragSlice.DragState, card: Card, p: DragSlice.Point, event: DraggableCard.ReleaseEvent,
                         hasTrashHandler: bool, hasDropHandler: bool)
    ensures !AllowTouchMove(DraggableCard.PointerDown(s, card, p).isDragging)
    ensures var released := DraggableCard.HandleGlobalUp(DraggableCard.PointerDown(s, card, p), card, event,
                                                         hasTrashHandler, hasDropHandler).1;
            AllowTouchMove(released.isDragging)
  {
  }

  datatype DropHandler = MoveCardHandler | CardDropHandler

  /** The drop handler handed to each draggable card. */
  function DropRoute(mode: DisplayMode): (h: DropHandler)
    ensures h == MoveCardHandler <==> mode == ModalMode
  {
    if mode == ModalMode then MoveCardHandler else CardDropHandler
  }

  /** The move menu: modal mode, a current card, and some other stack. */
  predicate MoveMenuVisible(mode: DisplayMode, cards: seq<Card>, activeIndex: int, all: seq<Stack>, shown: Option<Stack>) {
    mode == ModalMode && CurrentCard(cards, activeIndex).Some? && |OtherStacks(all, shown)| > 0
  }

  /** Picking a menu entry moves the current card to that stack. */
  function MoveMenuChoice(cards: seq<Card>, activeIndex: int, target: Stack): (r: Option<(Card, string)>)
    ensures r.Some? <==> 0 <= activeIndex < |cards|
    ensures r.Some? ==> r.value == (cards[activeIndex], target.id)
  {
    match CurrentCard(cards, activeIndex)
    case None => None
    case Some(c) => Some((c, target.id))
  }

  /** In the modal, dragging the current card onto another stack reaches
      `onMoveCard` with the same card and target as picking that stack in
      the move menu. */
  lemma ModalDropMatchesMenu(cards: seq<Card>, activeIndex: int, target: Stack,
                             hoveringTrash: bool, hasTrashHandler: bool)
    requires 0 <= activeIndex < |cards|
    requires !(hoveringTrash && hasTrashHandler)
    requires target.id != "" && target.id != cards[activeIndex].stackId
    ensures DropRoute(ModalMode) == MoveCardHandler
    ensures var drop := DraggableCard.ReleaseDecision(cards[activeIndex], hoveringTrash, Some(target.id), hasTrashHandler, true);
            && drop.Some? && drop.value.StackDrop?
            && MoveMenuChoice(cards, activeIndex, target) == Some((drop.value.moved, drop.value.targetStackId))
  {
  }

  /** While the menu is visible every entry it offers yields a move of the
      current card to a stack other than the shown one. */
  lemma VisibleMenuMoves(cards: seq<Card>, activeIndex: int, all: seq<Stack>, shown: Option<Stack>, target: Stack)
    requires MoveMenuVisible(ModalMode, cards, activeIndex, all, shown)
    requires target in OtherStacks(all, shown)
    ensures MoveMenuChoice(cards, activeIndex, target) == Some((cards[activeIndex], target.id))
    ensures shown.Some? ==> target.id != shown.value.id
    ensures target in all
  {
  }

  /** The menu is visible only in modal mode with a current card and some
      other stack to offer. */
  lemma MenuVisibleIff(mode: DisplayMode, cards: seq<Card>, activeIndex: int, all: seq<Stack>, shown: Option<Stack>)
    ensures MoveMenuVisible(mode, cards, activeIndex, all, shown) <==>
              mode == ModalMode && 0 <= activeIndex < |cards|
              && exists s :: s in all && (shown.None? || s.id != shown.value.id)
  {
    var others := OtherStacks(all, shown);
    if |others| > 0 {
      assert others[0] in others;
    }
    if exists s :: s in all && (shown.None? || s.id != shown.value.id) {
      var s :| s in all && (shown.None? || s.id != shown.value.id);
      assert s in others;
    }
  }

  /** The menu never offers the shown stack itself as a target. */
  lemma MenuNeverTargetsShownStack(cards: seq<Card>, activeIndex: int, all: seq<Stack>, shown: Stack, target: Stack)
    requires target in OtherStacks(all, Some(shown))
    requires 0 <= activeIndex < |cards|
    ensures MoveMenuChoice(cards, activeIndex, target).value.1 != shown.id
  {
  }
}
