/**
 * What happens when the finger leaves the screen (`onEnd` in Topics.js): the
 * drag bounds come from the widest row, and the release offset selects one of
 * three animations. The animations are described by their targets and clamps;
 * the spring and decay physics are not modelled.
 */
module Release {
  import opened TopicsConfig
  import opened Measurer

  /** The animation that takes over `translateX` after a release. */
  datatype Animation =
    | SpringTo(target: real, velocity: real)
    | Decay(velocity: real, lo: real, hi: real)

  /**
   * How far left the grid may be dragged: the screen width less the widest row,
   * the container padding and the chip margin.
   */
  function RightBound(screenWidth: real, levelWidth: map<real, real>): (b: real)
    requires |levelWidth| > 0
    ensures forall w :: w in levelWidth.Values ==>
              b <= screenWidth - w - ContainerPaddingHorizontal - TopicContainerMargin
    ensures exists w :: w in levelWidth.Values &&
              b == screenWidth - w - ContainerPaddingHorizontal - TopicContainerMargin
  {
    screenWidth - MaxRowWidth(levelWidth) - ContainerPaddingHorizontal - TopicContainerMargin
  }

  /**
   * The three-way decision on release, tried in order: past the left bound
   * springs back to it, past the right bound springs back to that, and in
   * between the grid coasts with a decay clamped between the release offset and
   * the bound it is moving towards.
   */
  function Settle(offset: real, velocity: real, rightBound: real): (a: Animation)
    ensures a.velocity == velocity
    ensures a.Decay? <==> rightBound <= offset <= LeftBound
    ensures a.SpringTo? ==> a.target == if offset > LeftBound then LeftBound else rightBound
    ensures a.Decay? ==> rightBound <= a.lo <= offset <= a.hi <= LeftBound
    ensures a.Decay? ==> (if velocity < 0.0 then a.hi == offset else a.lo == offset)
    ensures a.Decay? ==> (if velocity < 0.0 then a.lo == rightBound else a.hi == LeftBound)
  {
    if offset > LeftBound then
      SpringTo(LeftBound, velocity)
    else if offset < rightBound then
      SpringTo(rightBound, velocity)
    else
      Decay(velocity,
            if velocity < 0.0 then rightBound else offset,
            if velocity < 0.0 then offset else 0.0)
  }

  /** `p` is a place where `a` may leave the grid: the spring's target, or any point of the decay's clamp. */
  predicate MayRestAt(a: Animation, p: real) {
    match a
    case SpringTo(target, _) => p == target
    case Decay(_, lo, hi) => lo <= p <= hi
  }

  /**
   * When the grid is wider than the screen (`rightBound <= 0`), every release
   * leaves the grid within the bounds, and a second release from wherever it
   * came to rest never springs: settling is idempotent.
   */
  lemma SettleRestsWithinBounds(offset: real, velocity: real, rightBound: real, p: real, velocity': real)
    requires rightBound <= LeftBound
    requires MayRestAt(Settle(offset, velocity, rightBound), p)
    ensures rightBound <= p <= LeftBound
    ensures Settle(p, velocity', rightBound).Decay?
  {
    var a := Settle(offset, velocity, rightBound);
    if a.Decay? {
      assert a.lo <= p <= a.hi;
    }
  }
}
