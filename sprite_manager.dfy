/** The animation controller: the current sprite, its frame list, the cursor into
    it and the repeating tick timer. Two states, Idle (no timer, cursor at 0) and
    Animating (timer installed, cursor cycling). The timer is a presence flag; each
    of its ticks is an explicit call of `NextFrame`. */
module SpriteAnimation {
  import opened Wrappers
  import opened SpriteGeometry

  class SpriteManager {
    var currentFrame: Option<Frame>
    var currentSprite: SpriteModel
    var alwaysAnimate: bool
    var frames: seq<Frame>
    /** A repeating tick timer is installed. */
    var timer: bool
    var frameIndex: nat
    var isAnimating: bool
    /** Tick timers scheduled and not yet invalidated. */
    ghost var liveTimers: nat

    /** Animating exactly when one timer is live; the cursor is in range and names
        the shown frame; when idle the cursor rests on frame 0. */
    ghost predicate Valid()
      reads this
    {
      isAnimating == timer &&
      liveTimers == (if timer then 1 else 0) &&
      (frames == [] ==> frameIndex == 0) &&
      (frames != [] ==> frameIndex < |frames| && currentFrame == Some(frames[frameIndex])) &&
      (!isAnimating ==> frameIndex == 0)
    }

    /** Starts idle on the first catalog sprite, loaded from `sheet`. */
    constructor (sheet: Option<Sheet>)
      ensures Valid()
      ensures currentSprite == AvailableSprites()[0]
      ensures frames == LoadedFrames(AvailableSprites()[0], sheet)
      ensures currentFrame == if frames != [] then Some(frames[0]) else None
      ensures !isAnimating && !alwaysAnimate
    {
      currentFrame := None;
      currentSprite := AvailableSprites()[0];
      alwaysAnimate := false;
      frames := [];
      timer := false;
      frameIndex := 0;
      isAnimating := false;
      liveTimers := 0;
      new;
      LoadSprites(currentSprite, sheet);
    }

    /** Swaps in another sprite: stops the animation, then loads the new frames. */
    method ChangeSprite(sprite: SpriteModel, sheet: Option<Sheet>)
      requires Valid() && Loadable(sprite, sheet)
      modifies this
      ensures Valid()
      ensures currentSprite == sprite && alwaysAnimate == old(alwaysAnimate)
      ensures !isAnimating && !timer && frameIndex == 0
      ensures frames == LoadedFrames(sprite, sheet)
      ensures frames != [] ==> currentFrame == Some(frames[0])
      ensures frames == [] ==>
        currentFrame == if old(frames) != [] then Some(old(frames)[0]) else old(currentFrame)
    {
      StopAnimation();
      currentSprite := sprite;
      LoadSprites(sprite, sheet);
    }

    /** Clears the frame list, then appends the frame of every index in
        `0 .. frameCount-1` whose crop succeeds; shows frame 0 if there is one. */
    method LoadSprites(sprite: SpriteModel, sheet: Option<Sheet>)
      requires Loadable(sprite, sheet)
      modifies this`frames, this`currentFrame
      ensures frames == LoadedFrames(sprite, sheet)
      ensures currentFrame == if frames != [] then Some(frames[0]) else old(currentFrame)
    {
      frames := [];
      if sheet.None? {
        return;
      }
      var image := sheet.value;
      var frameHeight := FrameHeightOf(sprite, image);
      var frameWidth := FrameWidthOf(sprite, image);
      var frameCount := image.width / frameWidth;
      for i := 0 to frameCount
        modifies this`frames
        invariant frames == FramesUpTo(sprite, frameWidth, frameHeight, image.badCrops, i)
      {
        if i !in image.badCrops {
          frames := frames + [MakeFrame(sprite, frameWidth, frameHeight, i)];
        }
      }
      if frames != [] {
        currentFrame := Some(frames[0]);
      }
    }

    /** Installs the tick timer unless already animating. */
    method StartAnimation()
      requires Valid()
      modifies this`isAnimating, this`timer, this`liveTimers
      ensures Valid()
      ensures isAnimating && timer && liveTimers == 1
      ensures old(isAnimating) ==> unchanged(this)
    {
      if isAnimating {
        return;
      }
      isAnimating := true;
      // An existing timer would be cancelled here before the new one is installed;
      // idle means none is installed, so there is nothing to cancel.
      assert !timer;
      timer := true;
      liveTimers := liveTimers + 1;
    }

    /** Cancels the timer and returns to the rest pose, whatever the state. */
    method StopAnimation()
      requires Valid()
      modifies this`isAnimating, this`timer, this`liveTimers, this`frameIndex, this`currentFrame
      ensures Valid()
      ensures !isAnimating && !timer && liveTimers == 0 && frameIndex == 0
      ensures currentFrame == if frames != [] then Some(frames[0]) else old(currentFrame)
    {
      isAnimating := false;
      if timer {
        liveTimers := liveTimers - 1;
      }
      timer := false;
      frameIndex := 0;
      if frames != [] {
        currentFrame := Some(frames[0]);
      }
    }

    /** One tick of the installed timer: advances the cursor cyclically. */
    method NextFrame()
      requires Valid() && timer
      modifies this`frameIndex, this`currentFrame
      ensures Valid()
      ensures frames == [] ==> frameIndex == old(frameIndex) && currentFrame == old(currentFrame)
      ensures frames != [] ==>
        frameIndex == (old(frameIndex) + 1) % |frames| && currentFrame == Some(frames[frameIndex])
    {
      if frames == [] {
        return;
      }
      frameIndex := (frameIndex + 1) % |frames|;
      currentFrame := Some(frames[frameIndex]);
    }

    /** The `alwaysAnimate` setter: true starts the animation, false stops it. */
    method SetAlwaysAnimate(value: bool)
      requires Valid()
      modifies this`alwaysAnimate, this`isAnimating, this`timer, this`liveTimers, this`frameIndex, this`currentFrame
      ensures Valid()
      ensures alwaysAnimate == value && isAnimating == value
      ensures value ==> frameIndex == old(frameIndex) && currentFrame == old(currentFrame)
      ensures !value ==> frameIndex == 0
      ensures !value ==> currentFrame == if frames != [] then Some(frames[0]) else old(currentFrame)
    {
      alwaysAnimate := value;
      if value {
        StartAnimation();
      } else {
        StopAnimation();
      }
    }

    /** The frames another sprite would have, computed exactly as a load does but
        into a fresh list; no field of the manager changes. */
    method GetPreviewFrames(sprite: SpriteModel, sheet: Option<Sheet>) returns (previewFrames: seq<Frame>)
      requires Loadable(sprite, sheet)
      ensures previewFrames == LoadedFrames(sprite, sheet)
      ensures sheet.Some? ==> |previewFrames| <= sheet.value.width / FrameWidthOf(sprite, sheet.value)
      ensures sheet.Some? ==> forall k :: 0 <= k < |previewFrames| ==>
        previewFrames[k].dest == DestOf(sprite, FrameWidthOf(sprite, sheet.value), FrameHeightOf(sprite, sheet.value))
    {
      previewFrames := [];
      if sheet.None? {
        return;
      }
      var image := sheet.value;
      var frameHeight := FrameHeightOf(sprite, image);
      var frameWidth := FrameWidthOf(sprite, image);
      var frameCount := image.width / frameWidth;
      for i := 0 to frameCount
        invariant previewFrames == FramesUpTo(sprite, frameWidth, frameHeight, image.badCrops, i)
      {
        if i !in image.badCrops {
          previewFrames := previewFrames + [MakeFrame(sprite, frameWidth, frameHeight, i)];
        }
      }
    }
  }
}
