/** The swipe gesture of the top card in the deck
    (`src/components/Cards/SwipeableCard.tsx`). The spring animation is not
    modelled: a commit starts an animation, and its completion arrives later
    as a separate event. The swipe thresholds and the depth table are not
    among the program's constants, so they are parameters here. */
module SwipeableCard {
  import opened Common

  datatype Direction = Left | Right

  datatype SwipeConfig = SwipeConfig(threshold: real, velocityThreshold: real)

  /** `CARD_DECK.CARD_WIDTH`. */
  const CardWidth: real := 280.0

  function Abs(x: real): (r: real)
    ensures r >= 0.0 && (r == x || r == -x)
  {
    if x < 0.0 then -x else x
  }

  /** A drag end commits when either magnitude strictly exceeds its threshold. */
  predicate Commits(config: SwipeConfig, offset: real, velocity: real) {
    Abs(offset) > config.threshold || Abs(velocity) > config.velocityThreshold
  }

  /** The direction follows the offset's sign; a zero offset counts as left. */
  function DirectionOf(offset: real): (d: Direction)
    ensures d == Right <==> offset > 0.0
  {
    if offset > 0.0 then Right else Left
  }

  /** Where the card flies: two card widths off to that side. */
  function TargetX(d: Direction): (x: real)
    ensures d == Right ==> x == 2.0 * CardWidth
    ensures d == Left ==> x == -2.0 * CardWidth
  {
    match d
    case Right => CardWidth * 2.0
    case Left => -CardWidth * 2.0
  }

  /** The `isAnimating` guard (as the direction in flight) and the
      `onSwipe` calls made so far. */
  datatype Swiper = Swiper(animating: Option<Direction>, swiped: seq<Direction>)

  const Idle: Swiper := Swiper(None, [])

  datatype Reaction =
    | Ignored
    | FlyOut(direction: Direction, targetX: real)
    | SnapBack(restX: real)
    | Swiped(direction: Direction)

  /** `handleDragEnd`. A drag end during a commit animation is ignored. */
  function HandleDragEnd(s: Swiper, config: SwipeConfig, offset: real, velocity: real): (r: (Swiper, Reaction))
    ensures s.animating.Some? ==> r == (s, Ignored)
    ensures s.animating.None? && Commits(config, offset, velocity) ==>
              var d := DirectionOf(offset);
              r == (s.(animating := Some(d)), FlyOut(d, TargetX(d)))
    ensures s.animating.None? && !Commits(config, offset, velocity) ==> r == (s, SnapBack(0.0))
  {
    if s.animating.Some? then (s, Ignored)
    else if Abs(offset) > config.threshold || Abs(velocity) > config.velocityThreshold then
      var d := if offset > 0.0 then Right else Left;
      (s.(animating := Some(d)), FlyOut(d, TargetX(d)))
    else (s, SnapBack(0.0))
  }

  /** The fly-out's `onComplete`: call `onSwipe(direction)`, then clear the guard. */
  function CompleteAnimation(s: Swiper): (r: (Swiper, Reaction))
    ensures s.animating.Some? ==> r == (Swiper(None, s.swiped + [s.animating.value]), Swiped(s.animating.value))
    ensures s.animating.None? ==> r == (s, Ignored)
  {
    match s.animating
    case None => (s, Ignored)
    case Some(d) => (Swiper(None, s.swiped + [d]), Swiped(d))
  }

  /** Only the top card is draggable, so only it receives drag ends. */
  function OnDragEnd(isTop: bool, s: Swiper, config: SwipeConfig, offset: real, velocity: real): (r: (Swiper, Reaction))
    ensures !isTop ==> r == (s, Ignored)
    ensures isTop ==> r == HandleDragEnd(s, config, offset, velocity)
  {
    if isTop then HandleDragEnd(s, config, offset, velocity) else (s, Ignored)
  }

  datatype SwipeEvent = DragEnd(offset: real, velocity: real) | AnimationDone

  /** One event reaching a card at the top of the deck (`isTop`) or below it. */
  function Step(isTop: bool, s: Swiper, config: SwipeConfig, e: SwipeEvent): (Swiper, Reaction) {
    match e
    case DragEnd(offset, velocity) => OnDragEnd(isTop, s, config, offset, velocity)
    case AnimationDone => CompleteAnimation(s)
  }

  /** Feeding events in order; returns the final state and every reaction. */
  function Run(isTop: bool, s: Swiper, config: SwipeConfig, events: seq<SwipeEvent>): (Swiper, seq<Reaction>)
    decreases |events|
  {
    if events == [] then (s, [])
    else
      var (s1, r1) := Step(isTop, s, config, events[0]);
      var (s2, rs) := Run(isTop, s1, config, events[1..]);
      (s2, [r1] + rs)
  }

  /** The directions of the commits among some reactions, in order. */
  function CommittedDirections(rs: seq<Reaction>): seq<Direction>
    decreases |rs|
  {
    if rs == [] then []
    else (if rs[0].FlyOut? then [rs[0].direction] else []) + CommittedDirections(rs[1..])
  }

  function InFlight(s: Swiper): seq<Direction> {
    if s.animating.Some? then [s.animating.value] else []
  }

  /** Exactly one `onSwipe` per commit, in commit order: the calls made plus
      the one still in flight are the committed directions. */
  lemma {:induction false} OneSwipePerCommit(isTop: bool, s: Swiper, config: SwipeConfig, events: seq<SwipeEvent>)
    ensures var (t, rs) := Run(isTop, s, config, events);
            t.swiped + InFlight(t) == s.swiped + InFlight(s) + CommittedDirections(rs)
    decreases |events|
  {
    if events != [] {
      var (s1, r1) := Step(isTop, s, config, events[0]);
      OneSwipePerCommit(isTop, s1, config, events[1..]);
      var (t, rs) := Run(isTop, s1, config, events[1..]);
      assert Run(isTop, s, config, events) == (t, [r1] + rs);
      assert ([r1] + rs)[1..] == rs;
      assert s1.swiped + InFlight(s1) == s.swiped + InFlight(s) + (if r1.FlyOut? then [r1.direction] else []);
    }
  }

  /** From rest, the `onSwipe` calls never outrun the commits. */
  lemma SwipesFollowCommits(isTop: bool, config: SwipeConfig, events: seq<SwipeEvent>)
    ensures var (t, rs) := Run(isTop, Idle, config, events);
            t.swiped + InFlight(t) == CommittedDirections(rs)
  {
    OneSwipePerCommit(isTop, Idle, config, events);
  }

  /** A card below the top, at rest, ignores every event: it never flies out
      and never reports a swipe, whatever is done to it. */
  lemma {:induction false} NonTopNeverSwipes(s: Swiper, config: SwipeConfig, events: seq<SwipeEvent>)
    requires s.animating.None?
    ensures var (t, rs) := Run(false, s, config, events);
            t == s && |rs| == |events| && forall i :: 0 <= i < |rs| ==> rs[i] == Ignored
    decreases |events|
  {
    if events != [] {
      NonTopNeverSwipes(s, config, events[1..]);
      var (t, rs) := Run(false, s, config, events[1..]);
      assert Run(false, s, config, events) == (t, [Ignored] + rs);
    }
  }

  /** A mirrored drag end (offset and velocity negated) from rest commits
      exactly when the original does, and a commit with a non-zero offset
      flies to the opposite side. */
  lemma MirroredDragEnd(s: Swiper, config: SwipeConfig, offset: real, velocity: real)
    requires s.animating.None?
    ensures HandleDragEnd(s, config, -offset, -velocity).1.FlyOut? <==> HandleDragEnd(s, config, offset, velocity).1.FlyOut?
    ensures offset != 0.0 && HandleDragEnd(s, config, offset, velocity).1.FlyOut? ==>
              HandleDragEnd(s, config, -offset, -velocity).1.targetX == -HandleDragEnd(s, config, offset, velocity).1.targetX
  {
  }

  /** A drag that commits keeps committing when its offset grows in magnitude. */
  lemma CommitIsMonotone(config: SwipeConfig, offset: real, larger: real, velocity: real)
    requires Abs(offset) <= Abs(larger)
    requires Commits(config, offset, velocity)
    ensures Commits(config, larger, velocity)
  {
  }

  /** A card's depth presentation (`STACK_CONFIG` entry). */
  datatype DepthConfig = DepthConfig(x: real, y: real, rotate: real, scale: real)

  /** `Math.min(stackIndex, STACK_CONFIG.length - 1)`. */
  function DepthIndex(stackIndex: nat, tableLength: nat): (i: nat)
    requires tableLength > 0
    ensures i < tableLength
    ensures i <= stackIndex
    ensures i == stackIndex || i == tableLength - 1
  {
    if stackIndex < tableLength - 1 then stackIndex else tableLength - 1
  }

  function DepthConfigFor(table: seq<DepthConfig>, stackIndex: nat): DepthConfig
    requires |table| > 0
  {
    table[DepthIndex(stackIndex, |table|)]
  }

  /** Cards deeper than the table share its last entry. */
  lemma DeepCardsShareLastConfig(table: seq<DepthConfig>, stackIndex: nat)
    requires |table| > 0 && stackIndex >= |table| - 1
    ensures DepthConfigFor(table, stackIndex) == table[|table| - 1]
  {
  }
}
