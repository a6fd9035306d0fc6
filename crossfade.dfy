/**
 The `SwitchImage` component of App.js (App.js:14-41): the new photo is drawn
 underneath, the previous one on top, and the top one fades out. The effect
 starts a fade when the incoming uri differs from the one on top and no fade
 is running; the completion callback puts the uri the fade started with on
 top and shows it fully again.
 */
module Crossfade {
  import Pollers

  class SwitchImage {
    /** The uri drawn on top, fading out while a fade runs. */
    var prevSourceUri: string
    var isAnimationRunning: bool
    /** The top layer's resting opacity, 0 or 1; values during a fade are left out. */
    var opacity: int
    /** The uri the running fade will put on top when it completes (the one its callback captured). */
    var fadingUri: string

    /** A running fade always moves to a uri other than the one on top. */
    predicate Valid()
      reads this
    {
      (opacity == 0 || opacity == 1)
      && (isAnimationRunning ==> fadingUri != prevSourceUri)
    }

    /** `useState(blankImageUri)`, `useState(false)`, `new Animated.Value(0)`. */
    constructor()
      ensures Valid()
      ensures prevSourceUri == Pollers.BlankImageUri && !isAnimationRunning && opacity == 0
      ensures fadingUri == Pollers.BlankImageUri
    {
      prevSourceUri := Pollers.BlankImageUri;
      isAnimationRunning := false;
      opacity := 0;
      fadingUri := Pollers.BlankImageUri;
    }

    /**
     The effect run on a new `source`: a fade starts exactly when `uri` is not
     the one on top and no fade is running; otherwise nothing changes.
     */
    method OnSource(uri: string) returns (started: bool)
      requires Valid()
      modifies this
      ensures Valid()
      ensures started <==> uri != old(prevSourceUri) && !old(isAnimationRunning)
      ensures started ==> isAnimationRunning && fadingUri == uri
      ensures prevSourceUri == old(prevSourceUri) && opacity == old(opacity)
      ensures !started ==> isAnimationRunning == old(isAnimationRunning) && fadingUri == old(fadingUri)
    {
      started := false;
      if uri != prevSourceUri && !isAnimationRunning {
        isAnimationRunning := true;
        fadingUri := uri;
        started := true;
      }
    }

    /**
     The completion callback of the fade: the uri it started with goes on
     top, the top layer is fully shown again, and the next fade may start.
     */
    method OnAnimationComplete()
      requires Valid() && isAnimationRunning
      modifies this
      ensures Valid()
      ensures prevSourceUri == old(fadingUri) && opacity == 1 && !isAnimationRunning
      ensures prevSourceUri != old(prevSourceUri)
      ensures fadingUri == old(fadingUri)
    {
      prevSourceUri := fadingUri;
      opacity := 1;
      isAnimationRunning := false;
    }
  }

  /**
   A fade to `uri` runs to completion; the same uri arriving again afterwards
   starts nothing, and while the fade runs no other uri starts one either.
   */
  method FadeOnce(s: SwitchImage, uri: string, other: string) returns (first: bool, during: bool, again: bool)
    requires s.Valid() && !s.isAnimationRunning && uri != s.prevSourceUri
    modifies s
    ensures first && !during && !again
    ensures s.Valid() && s.prevSourceUri == uri && !s.isAnimationRunning && s.opacity == 1
  {
    first := s.OnSource(uri);
    during := s.OnSource(other);
    s.OnAnimationComplete();
    again := s.OnSource(uri);
  }
}
