/**
  Swipe-to-dismiss for the panel: whether a finger movement inside the panel, measured
  from where the touch started, is a swipe that closes the panel, given the side of the
  screen the panel is attached to.
*/
module Swipe {
  import opened Wrappers

  /** Largest drift across the swipe direction that still counts as a straight swipe (exclusive). */
  const Boundary: real := 20.0
  /** Distance the finger must travel toward the closing direction (exclusive). */
  const Delta: real := 50.0

  /** The classification as the touchmove handler writes it: a switch over the configured
      side, where `diffX`/`diffY` are the start coordinates minus the current ones (so a
      positive `diffX` is a movement to the left). A side other than the four names, and
      the default `null`, never dismisses. */
  function Dismisses(side: Option<string>, diffX: real, diffY: real): (r: bool)
    ensures r <==> ClosesPanel(side, diffX, diffY)
  {
    if side == Some("left") then
      (diffY < Boundary && diffY > -1.0 * Boundary) && diffX > Delta
    else if side == Some("right") then
      (diffY < Boundary && diffY > -1.0 * Boundary) && diffX < -1.0 * Delta
    else if side == Some("top") then
      (diffX < Boundary && diffX > -1.0 * Boundary) && diffY > Delta
    else if side == Some("bottom") then
      (diffX < Boundary && diffX > -1.0 * Boundary) && diffY < -1.0 * Delta
    else
      false
  }

  // ---------------------------------------------------------------------------
  // An independent statement of the rule: turn the movement into the frame of the
  // side the panel is attached to, then apply one test.

  /** A movement seen from the side the panel is attached to: how far it went in the
      direction that pushes the panel off screen, and how far it drifted across. */
  datatype Frame = Frame(travel: real, drift: real)

  /** The frame of an attached side; `None` for a panel not attached to a side. */
  function FrameOf(side: Option<string>, diffX: real, diffY: real): Option<Frame> {
    if side == Some("left") then Some(Frame(diffX, diffY))
    else if side == Some("right") then Some(Frame(-diffX, diffY))
    else if side == Some("top") then Some(Frame(diffY, diffX))
    else if side == Some("bottom") then Some(Frame(-diffY, diffX))
    else None
  }

  function Abs(x: real): real {
    if x < 0.0 then -x else x
  }

  /** A swipe closes the panel when it stays within the boundary across and goes
      beyond the minimum distance toward the panel's own edge. */
  predicate ClosesPanel(side: Option<string>, diffX: real, diffY: real) {
    match FrameOf(side, diffX, diffY)
    case None => false
    case Some(f) => Abs(f.drift) < Boundary && f.travel > Delta
  }

  // ---------------------------------------------------------------------------
  // Consequences.

  const AttachedSides: set<string> := {"left", "right", "top", "bottom"}

  /** No movement closes panels attached to two different sides. */
  lemma AtMostOneSide(s1: string, s2: string, diffX: real, diffY: real)
    requires Dismisses(Some(s1), diffX, diffY) && Dismisses(Some(s2), diffX, diffY)
    ensures s1 == s2
  {
  }

  /** Only the four side names ever dismiss. */
  lemma OnlyAttachedSides(side: Option<string>, diffX: real, diffY: real)
    requires Dismisses(side, diffX, diffY)
    ensures side.Some? && side.value in AttachedSides
  {
  }

  /** Going further in the closing direction, with the same drift, still closes the panel. */
  lemma FartherStillDismisses(side: Option<string>, diffX: real, diffY: real, more: real)
    requires more >= 0.0
    requires Dismisses(side, diffX, diffY)
    ensures side == Some("left") ==> Dismisses(side, diffX + more, diffY)
    ensures side == Some("right") ==> Dismisses(side, diffX - more, diffY)
    ensures side == Some("top") ==> Dismisses(side, diffX, diffY + more)
    ensures side == Some("bottom") ==> Dismisses(side, diffX, diffY - more)
  {
  }

  /** The rule is the same for opposite sides up to a mirror image, and the same for
      horizontal and vertical sides up to swapping the axes. */
  lemma Symmetric(diffX: real, diffY: real)
    ensures Dismisses(Some("left"), diffX, diffY) == Dismisses(Some("right"), -diffX, diffY)
    ensures Dismisses(Some("top"), diffX, diffY) == Dismisses(Some("bottom"), diffX, -diffY)
    ensures Dismisses(Some("left"), diffX, diffY) == Dismisses(Some("top"), diffY, diffX)
  {
  }

  /** Both thresholds are strict, down to fractions of a pixel. */
  lemma ThresholdsAreStrict()
    ensures !Dismisses(Some("left"), Delta, 0.0) && Dismisses(Some("left"), Delta + 0.5, 0.0)
    ensures !Dismisses(Some("left"), Delta + 0.5, Boundary) && Dismisses(Some("left"), Delta + 0.5, Boundary - 0.5)
    ensures !Dismisses(Some("left"), Delta + 0.5, -Boundary) && Dismisses(Some("left"), Delta + 0.5, 0.5 - Boundary)
  {
  }

  /** Worked cases: a short-drift leftward swipe closes a left panel, too much drift does
      not, a rightward swipe closes a right panel, and a downward swipe does not close a
      top panel. */
  lemma Examples()
    ensures Dismisses(Some("left"), 60.0, 5.0)
    ensures !Dismisses(Some("left"), 60.0, 25.0)
    ensures Dismisses(Some("right"), -60.0, 0.0)
    ensures !Dismisses(Some("top"), 0.0, -60.0)
    ensures !Dismisses(None, 100.0, 0.0)
  {
  }
}
