/**
 * The pan gesture handler of Topics.js (`onStart`, `onActive`, `onEnd` and the
 * completion callback of the decay) over the handler's context object and the
 * shared value `translateX`. The context is kept from one gesture to the next,
 * which is how `offset` carries the grid's position across drags.
 */
module Gesture {
  import opened Wrappers
  import opened Release

  class GestureContext {
    /** The width of the screen (`Dimensions.get('screen').width`). */
    const screenWidth: real
    /** `context.offset`; `None` while it is still undefined. */
    var offset: Option<real>
    /** `context.isDecayAnimationRunning`. */
    var isDecayAnimationRunning: bool
    /** The current number held by the shared value `translateX`. */
    var translateX: real
    /** The animation that currently drives `translateX`, if any. */
    var animation: Option<Animation>

    /** A decay animation only ever runs while the context says so, so `OnStart` can cancel it. */
    ghost predicate Valid()
      reads this
    {
      animation.Some? && animation.value.Decay? ==> isDecayAnimationRunning
    }

    /** `context.offset || 0`. */
    function BaseOffset(): (base: real)
      reads this
    {
      offset.GetOr(0.0)
    }

    constructor (screenWidth: real)
      ensures Valid()
      ensures this.screenWidth == screenWidth
      ensures offset == None && !isDecayAnimationRunning && translateX == 0.0 && animation == None
    {
      this.screenWidth := screenWidth;
      offset := None;
      isDecayAnimationRunning := false;
      translateX := 0.0;
      animation := None;
    }

    /**
     * A new drag begins: a running decay is cancelled where it stands, and
     * nothing else is touched. A spring that is still running is not cancelled
     * here.
     */
    method OnStart()
      requires Valid()
      modifies this
      ensures Valid()
      ensures !isDecayAnimationRunning
      ensures !(animation.Some? && animation.value.Decay?)
      ensures offset == old(offset) && translateX == old(translateX)
      ensures old(isDecayAnimationRunning) ==> animation == None
      ensures !old(isDecayAnimationRunning) ==> animation == old(animation)
    {
      if isDecayAnimationRunning {
        isDecayAnimationRunning := false;
        // cancelAnimation(translateX)
        animation := None;
      }
    }

    /**
     * The finger moves by `translationX` since the drag began: the grid follows
     * it from the stored offset, without any clamping. Writing a plain number to
     * `translateX` replaces whatever animation was driving it.
     */
    method OnActive(translationX: real)
      requires Valid()
      modifies this
      ensures Valid()
      ensures translateX == old(BaseOffset()) + translationX
      ensures animation == None
      ensures offset == old(offset) && isDecayAnimationRunning == old(isDecayAnimationRunning)
    {
      translateX := BaseOffset() + translationX;
      animation := None;
    }

    /**
     * The finger leaves the screen with `velocityX`. The current position is
     * stored as the offset first; without row widths (`levelWidth` undefined)
     * the handler throws right after that, which is the `None` result. Otherwise
     * the animation chosen by `Settle` starts, a spring stores its target as the
     * offset and a decay raises the flag.
     */
    method OnEnd(velocityX: real, levelWidth: Option<map<real, real>>) returns (started: Option<Animation>)
      requires Valid()
      requires levelWidth.Some? ==> |levelWidth.value| > 0
      modifies this
      ensures Valid()
      ensures translateX == old(translateX)
      ensures levelWidth.None? ==>
                && started == None
                && offset == Some(old(translateX))
                && isDecayAnimationRunning == old(isDecayAnimationRunning)
                && animation == old(animation)
      ensures levelWidth.Some? ==>
                && started == Some(Settle(old(translateX), velocityX, RightBound(screenWidth, levelWidth.value)))
                && animation == started
      ensures started.Some? && started.value.SpringTo? ==>
                offset == Some(started.value.target) && isDecayAnimationRunning == old(isDecayAnimationRunning)
      ensures started.Some? && started.value.Decay? ==>
                offset == Some(old(translateX)) && isDecayAnimationRunning
    {
      offset := Some(translateX);
      if levelWidth.None? {
        // Object.values(undefined) throws
        return None;
      }
      var rightBound := RightBound(screenWidth, levelWidth.value);
      var a := Settle(translateX, velocityX, rightBound);
      if a.SpringTo? {
        offset := Some(a.target);
      } else {
        isDecayAnimationRunning := true;
      }
      animation := Some(a);
      started := Some(a);
    }

    /**
     * The decay comes to rest with `translateX` at `finalValue`: the flag is
     * cleared and the resting place becomes the offset of the next drag.
     */
    method OnDecayFinish(finalValue: real)
      requires Valid()
      modifies this
      ensures Valid()
      ensures !isDecayAnimationRunning && animation == None
      ensures translateX == finalValue && offset == Some(finalValue)
    {
      translateX := finalValue;
      animation := None;
      isDecayAnimationRunning := false;
      offset := Some(translateX);
    }
  }

  /**
   * A drag that begins after a decay came to rest picks the grid up where the
   * decay left it: the rest position became the stored offset.
   */
  method ResumeAfterDecay(g: GestureContext, finalValue: real, translationX: real)
    requires g.Valid()
    modifies g
    ensures g.Valid()
    ensures g.translateX == finalValue + translationX
    ensures g.offset == Some(finalValue) && !g.isDecayAnimationRunning
  {
    g.OnDecayFinish(finalValue);
    g.OnStart();
    g.OnActive(translationX);
  }
}
