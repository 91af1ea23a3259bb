/** The draggable panel of the map search screen
    (components/search/BottomSheet.tsx). The panel keeps `isDragging`,
    `startY` and `dragDelta` itself; its resting position belongs to the page
    and changes through `onPositionChange`, so here the position travels with
    the panel's own state. Pointer coordinates are integer pixels. */
module BottomSheet {
  import opened Types

  datatype Position = Collapsed | Half | Full

  datatype Sheet = Sheet(position: Position, dragging: bool, startY: int, dragDelta: int)

  /** The distance a gesture must exceed to move the panel. */
  const Threshold: int := 80

  /** How open a position is: 0 for collapsed, 1 for half, 2 for full. */
  function Rank(p: Position): nat {
    match p
    case Collapsed => 0
    case Half => 1
    case Full => 2
  }

  /** The transition table of `handleDragEnd` (lines 52-66): upwards (negative
      delta) beyond the threshold opens one step, downwards beyond it closes
      one step, and from the extremes the step past the end is not taken. */
  function Settle(p: Position, delta: int): (q: Position)
  {
    match p
    case Half => if delta < -Threshold then Full else if delta > Threshold then Collapsed else Half
    case Full => if delta > Threshold then Half else Full
    case Collapsed => if delta < -Threshold then Half else Collapsed
  }

  /** The step a gesture asks for, independent of where the panel is. */
  function Step(delta: int): int {
    if delta < -Threshold then 1 else if delta > Threshold then -1 else 0
  }

  function Clamp(n: int): nat {
    if n < 0 then 0 else if n > 2 then 2 else n
  }

  /** Reference definition: settling moves the rank by the requested step,
      clamped to the three positions. */
  lemma SettleIsClampedStep(p: Position, delta: int)
    ensures Rank(Settle(p, delta)) == Clamp(Rank(p) + Step(delta))
  {
  }

  /** A gesture within the threshold leaves the panel where it was; no single
      gesture goes between collapsed and full; the panel never moves against
      the direction of the gesture. */
  lemma SettleProperties(p: Position, delta: int)
    ensures -Threshold <= delta <= Threshold ==> Settle(p, delta) == p
    ensures !(p == Collapsed && Settle(p, delta) == Full)
    ensures !(p == Full && Settle(p, delta) == Collapsed)
    ensures delta <= 0 ==> Rank(Settle(p, delta)) >= Rank(p)
    ensures delta >= 0 ==> Rank(Settle(p, delta)) <= Rank(p)
    ensures Settle(p, delta) != p <==> Step(delta) != 0 && 0 <= Rank(p) + Step(delta) <= 2
  {
    SettleIsClampedStep(p, delta);
  }

  /** The panel's state when the page first shows it. */
  function Initial(p: Position): (s: Sheet)
    ensures s.position == p && !s.dragging && s.dragDelta == 0
  {
    Sheet(p, false, 0, 0)
  }

  /** Between gestures the accumulated delta is zero. */
  predicate Idle(s: Sheet) {
    !s.dragging ==> s.dragDelta == 0
  }

  /** `handleDragStart(clientY)`: a start while already dragging begins a new
      gesture from the new point. */
  function DragStart(s: Sheet, y: int): (r: Sheet)
    ensures r.dragging && r.startY == y && r.dragDelta == 0 && r.position == s.position
  {
    s.(dragging := true, startY := y, dragDelta := 0)
  }

  /** `handleDragMove(clientY)`: the delta is measured from the start point,
      not accumulated from the previous move; ignored when not dragging. */
  function DragMove(s: Sheet, y: int): (r: Sheet)
    ensures !s.dragging ==> r == s
    ensures s.dragging ==> r.dragDelta + s.startY == y && r.(dragDelta := s.dragDelta) == s
  {
    if !s.dragging then s else s.(dragDelta := y - s.startY)
  }

  /** `handleDragEnd()`: apply the transition table to the delta, then stop
      dragging and clear the delta, whether or not the position changed. */
  function DragEnd(s: Sheet): (r: Sheet)
    ensures !r.dragging && r.dragDelta == 0 && r.startY == s.startY
    ensures Rank(r.position) == Clamp(Rank(s.position) + Step(s.dragDelta))
  {
    SettleIsClampedStep(s.position, s.dragDelta);
    Sheet(Settle(s.position, s.dragDelta), false, s.startY, 0)
  }

  /** The handle's `onClick`, attached only while collapsed
      (`handleExpand`, line 139). */
  function Tap(s: Sheet): (r: Sheet)
    ensures s.position == Collapsed ==> r.position == Half
    ensures s.position != Collapsed ==> r == s
    ensures r.(position := s.position) == s
  {
    if s.position == Collapsed then s.(position := Half) else s
  }

  /** Every handler keeps the delta at zero between gestures, and a stray end
      event outside a gesture never moves the panel. */
  lemma IdlePreserved(s: Sheet, y: int)
    requires Idle(s)
    ensures Idle(DragStart(s, y)) && Idle(DragMove(s, y)) && Idle(DragEnd(s)) && Idle(Tap(s))
    ensures !s.dragging ==> DragEnd(s).position == s.position
  {
  }

  /** The pointer moves of one gesture, in order. */
  function Moves(s: Sheet, ys: seq<int>): Sheet
    decreases |ys|
  {
    if |ys| == 0 then s else Moves(DragMove(s, ys[0]), ys[1..])
  }

  /** During a gesture only the last pointer position counts. */
  lemma {:induction false} MovesKeepLast(s: Sheet, ys: seq<int>)
    requires s.dragging && |ys| > 0
    ensures Moves(s, ys) == s.(dragDelta := ys[|ys| - 1] - s.startY)
    decreases |ys|
  {
    if |ys| > 1 {
      MovesKeepLast(DragMove(s, ys[0]), ys[1..]);
    }
  }

  /** A whole gesture: press at `y0`, move through `ys`, release. The panel
      settles by the distance from the press to the last move, and a press
      released without a move does nothing. */
  lemma {:induction false} Gesture(s: Sheet, y0: int, ys: seq<int>)
    ensures var r := DragEnd(Moves(DragStart(s, y0), ys));
            && !r.dragging && r.dragDelta == 0
            && r.position == (if |ys| == 0 then s.position else Settle(s.position, ys[|ys| - 1] - y0))
  {
    if |ys| > 0 {
      MovesKeepLast(DragStart(s, y0), ys);
    }
  }

  /** Worked gestures from half: up by 90 opens fully, down by 90 collapses,
      30 either way stays; a tap on the collapsed handle opens half. */
  lemma Scenarios()
    ensures DragEnd(Moves(DragStart(Initial(Half), 500), [450, 410])).position == Full
    ensures DragEnd(Moves(DragStart(Initial(Half), 500), [590])).position == Collapsed
    ensures DragEnd(Moves(DragStart(Initial(Half), 500), [530])).position == Half
    ensures Tap(Initial(Collapsed)).position == Half
  {
    Gesture(Initial(Half), 500, [450, 410]);
    Gesture(Initial(Half), 500, [590]);
    Gesture(Initial(Half), 500, [530]);
  }

  /** `getHeight()`: each position has its own CSS height. */
  function Height(p: Position): (h: string)
    ensures p == Collapsed <==> h == "80px"
    ensures p == Half <==> h == "50%"
    ensures p == Full <==> h == "100%"
  {
    match p
    case Collapsed => "80px"
    case Half => "50%"
    case Full => "100%"
  }

  /** What the panel body shows (lines 145-171). */
  datatype Content =
    | EventsOnly
    | NoFavorites
    | NoResults
    | Cards(stores: seq<Store>)

  function Body(p: Position, stores: seq<Store>, showFavoritesOnly: bool, hasFavorites: bool): (c: Content)
    ensures p == Collapsed <==> c == EventsOnly
    ensures c == NoFavorites <==> p != Collapsed && showFavoritesOnly && !hasFavorites
    ensures c.Cards? ==> c.stores == stores && |stores| > 0
    ensures p != Collapsed && |stores| > 0 && !(showFavoritesOnly && !hasFavorites) ==> c == Cards(stores)
  {
    if p == Collapsed then EventsOnly
    else if showFavoritesOnly && !hasFavorites then NoFavorites
    else if |stores| == 0 then NoResults
    else Cards(stores)
  }
}
