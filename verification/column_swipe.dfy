/** The column navigation of the mobile board (src/hooks/use-column-swipe.ts):
    the stored active index, the direction of the last navigation, the
    clamped index that is actually shown, and the rule that turns the end
    of a horizontal drag into a step forward or back. The column count is
    passed to each step because it is read afresh on every render. */
module ColumnSwipe {

  /** Minimum horizontal drag distance, in pixels. */
  const SwipeThreshold: real := 50.0

  /** Minimum horizontal speed of a flick, in pixels per second. */
  const VelocityThreshold: real := 300.0

  /** The direction of the last navigation: -1, 0 (none yet) or 1. */
  datatype Direction = Back | Still | Forward

  /** The number the hook stores for a direction. */
  function DirectionValue(d: Direction): (v: int)
    ensures -1 <= v <= 1
    ensures v == 0 <==> d == Still
  {
    match d
    case Back => -1
    case Still => 0
    case Forward => 1
  }

  /** The two state cells of the hook. */
  datatype Nav = Nav(activeIndex: int, direction: Direction)

  /** `useState(0)` for the index and `useState(0)` for the direction. */
  const Start: Nav := Nav(0, Still)

  function Max(a: int, b: int): int { if a >= b then a else b }

  function Min(a: int, b: int): int { if a <= b then a else b }

  /** `Math.min(activeIndex, Math.max(0, totalColumns - 1))`: the stored
      index, pulled back onto the last column when columns went away. */
  function SafeIndex(activeIndex: int, total: int): (r: int)
    ensures r <= activeIndex && r <= Max(0, total - 1)
    ensures r == activeIndex || r == Max(0, total - 1)
    ensures total >= 1 && activeIndex >= 0 ==> 0 <= r < total
    ensures 0 <= activeIndex < total ==> r == activeIndex
  {
    Min(activeIndex, Max(0, total - 1))
  }

  /** goToPrev: direction -1, and one step back from the stored index,
      never below 0. */
  function GoToPrev(nav: Nav): (r: Nav)
    ensures r.direction == Back && DirectionValue(r.direction) == -1
    ensures r.activeIndex >= 0
    ensures nav.activeIndex > 0 ==> r.activeIndex == nav.activeIndex - 1
    ensures nav.activeIndex <= 0 ==> r.activeIndex == 0
  {
    Nav(Max(0, nav.activeIndex - 1), Back)
  }

  /** goToNext: direction 1, and one step forward from the stored index,
      never past the last column. */
  function GoToNext(nav: Nav, total: int): (r: Nav)
    ensures r.direction == Forward && DirectionValue(r.direction) == 1
    ensures r.activeIndex <= total - 1
    ensures nav.activeIndex < total - 1 ==> r.activeIndex == nav.activeIndex + 1
    ensures nav.activeIndex >= total - 1 ==> r.activeIndex == total - 1
  {
    Nav(Min(total - 1, nav.activeIndex + 1), Forward)
  }

  /** goTo: the target clamped onto the columns; the direction is forward
      exactly when the clamped target lies past the shown index. */
  function GoTo(nav: Nav, total: int, index: int): (r: Nav)
    ensures total >= 1 ==> 0 <= r.activeIndex < total
    ensures total >= 1 && 0 <= index < total ==> r.activeIndex == index
    ensures total >= 1 && index < 0 ==> r.activeIndex == 0
    ensures total >= 1 && index >= total ==> r.activeIndex == total - 1
    ensures r.direction == Forward <==> r.activeIndex > SafeIndex(nav.activeIndex, total)
    ensures r.direction != Still
    ensures DirectionValue(r.direction) == if r.activeIndex > SafeIndex(nav.activeIndex, total) then 1 else -1
  {
    var clamped := Max(0, Min(total - 1, index));
    Nav(clamped, if clamped > SafeIndex(nav.activeIndex, total) then Forward else Back)
  }

  /** A drag ending with this offset or speed counts as a swipe to the
      left (towards the next column). */
  predicate SwipedLeft(offset: real, velocity: real)
  {
    offset < -SwipeThreshold || velocity < -VelocityThreshold
  }

  /** A drag ending with this offset or speed counts as a swipe to the
      right (towards the previous column). */
  predicate SwipedRight(offset: real, velocity: real)
  {
    offset > SwipeThreshold || velocity > VelocityThreshold
  }

  /** onDragEnd: a left swipe advances unless the last column is shown;
      failing that, a right swipe goes back unless the first is shown;
      anything else leaves the state alone. */
  function DragEnd(nav: Nav, total: int, offset: real, velocity: real): (r: Nav)
  {
    var safe := SafeIndex(nav.activeIndex, total);
    if SwipedLeft(offset, velocity) && safe < total - 1 then GoToNext(nav, total)
    else if SwipedRight(offset, velocity) && safe > 0 then GoToPrev(nav)
    else nav
  }

  /** The threshold rule, stated on the column that is shown: with a
      stored index on the columns, a left swipe shows the next column, a
      right swipe (when no left swipe applies) the previous one, and every
      other gesture changes nothing. */
  lemma DragEndRule(nav: Nav, total: int, offset: real, velocity: real)
    requires 0 <= nav.activeIndex < total
    ensures var r := DragEnd(nav, total, offset, velocity);
            var advance := SwipedLeft(offset, velocity) && nav.activeIndex < total - 1;
            var back := SwipedRight(offset, velocity) && nav.activeIndex > 0;
            && (advance ==> r == Nav(nav.activeIndex + 1, Forward))
            && (!advance && back ==> r == Nav(nav.activeIndex - 1, Back))
            && (!advance && !back ==> r == nav)
            && 0 <= SafeIndex(r.activeIndex, total) < total
  {
  }

  /** A gesture that is both a left and a right swipe (say, dragged far to
      the right but flicked fast to the left) is taken as a left swipe
      whenever there is a next column; only on the last column does its
      right half step back. */
  lemma LeftWins(nav: Nav, total: int, offset: real, velocity: real)
    requires 0 <= nav.activeIndex < total
    requires SwipedLeft(offset, velocity) && SwipedRight(offset, velocity)
    ensures nav.activeIndex < total - 1 ==>
              DragEnd(nav, total, offset, velocity) == Nav(nav.activeIndex + 1, Forward)
    ensures 0 < nav.activeIndex == total - 1 ==>
              DragEnd(nav, total, offset, velocity) == Nav(nav.activeIndex - 1, Back)
  {
  }

  /** A short, slow drag does nothing. */
  lemma SmallDragIgnored(nav: Nav, total: int, offset: real, velocity: real)
    requires -SwipeThreshold <= offset <= SwipeThreshold
    requires -VelocityThreshold <= velocity <= VelocityThreshold
    ensures DragEnd(nav, total, offset, velocity) == nav
  {
  }

  /** When columns went away, the stored index can lie past the last
      column. A right swipe then steps the stored index back by one, which
      can leave the shown column as it was: here three columns, a stored
      index of 5, and the shown column stays the last one. */
  lemma StaleIndexSwipeBack()
    ensures var r := DragEnd(Nav(5, Forward), 3, 100.0, 0.0);
            r == Nav(4, Back) && SafeIndex(r.activeIndex, 3) == SafeIndex(5, 3) == 2
  {
  }

  // ---------------------------------------------------------------------------
  // Any sequence of navigations
  // ---------------------------------------------------------------------------

  /** One navigation, with the column count at the time it happens. */
  datatype Step =
    | Prev
    | Next(total: int)
    | Jump(total: int, index: int)
    | Drag(total: int, offset: real, velocity: real)

  function ApplyStep(nav: Nav, step: Step): (r: Nav)
  {
    match step
    case Prev => GoToPrev(nav)
    case Next(total) => GoToNext(nav, total)
    case Jump(total, index) => GoTo(nav, total, index)
    case Drag(total, offset, velocity) => DragEnd(nav, total, offset, velocity)
  }

  /** The column count a step sees; `Prev` does not read it. */
  predicate SeesColumns(step: Step)
  {
    step.Prev? || step.total >= 1
  }

  function Run(nav: Nav, steps: seq<Step>): (r: Nav)
    decreases |steps|
  {
    if |steps| == 0 then nav else Run(ApplyStep(nav, steps[0]), steps[1..])
  }

  /** From the start, however the column count changes between steps (as
      long as the board shows at least one column), the stored index never
      becomes negative, so the shown index always names a column. */
  lemma {:induction false} RunKeepsIndex(nav: Nav, steps: seq<Step>, total: int)
    requires nav.activeIndex >= 0
    requires forall i :: 0 <= i < |steps| ==> SeesColumns(steps[i])
    requires total >= 1
    ensures Run(nav, steps).activeIndex >= 0
    ensures 0 <= SafeIndex(Run(nav, steps).activeIndex, total) < total
    decreases |steps|
  {
    if |steps| > 0 {
      var next := ApplyStep(nav, steps[0]);
      assert SeesColumns(steps[0]);
      assert next.activeIndex >= 0;
      assert forall i :: 0 <= i < |steps[1..]| ==> SeesColumns(steps[1..][i]) by {
        forall i | 0 <= i < |steps[1..]| ensures SeesColumns(steps[1..][i]) {
          assert steps[1..][i] == steps[i + 1];
        }
      }
      RunKeepsIndex(next, steps[1..], total);
    }
  }

  /** The shown index of the hook's start state names a column whatever the
      steps taken. */
  lemma SafeIndexAlwaysInRange(steps: seq<Step>, total: int)
    requires forall i :: 0 <= i < |steps| ==> SeesColumns(steps[i])
    requires total >= 1
    ensures 0 <= SafeIndex(Run(Start, steps).activeIndex, total) < total
  {
    RunKeepsIndex(Start, steps, total);
  }
}
