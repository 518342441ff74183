/** The app's coordinator forwards the monitor's `onMouseMove` to `startAnimation`
    and its `onMouseStop` to `stopAnimation`. This module composes the two models. */
module Coordinator {
  import opened Wrappers
  import opened SpriteGeometry
  import opened SpriteAnimation
  import opened Motion

  /** `alwaysAnimate` does not shield the animation from the motion pipeline:
      switched on, then a movement and the expiry of its debounce, the manager is
      idle on frame 0 while `alwaysAnimate` still reads true. */
  method AlwaysAnimateThenMouseStop(sheet: Option<Sheet>, here: Point, there: Point)
    returns (alwaysAnimate: bool, animating: bool, frameIndex: nat)
    requires here != there
    ensures alwaysAnimate && !animating && frameIndex == 0
  {
    var manager := new SpriteManager(sheet);
    var monitor := new MouseMonitor();
    monitor.StartMonitoring(here);
    manager.SetAlwaysAnimate(true);
    monitor.CheckMouse(there);
    assert monitor.events == [MouseMove];
    manager.StartAnimation();
    monitor.DebounceFire();
    assert monitor.events == [MouseMove, MouseStop];
    manager.StopAnimation();
    alwaysAnimate, animating, frameIndex := manager.alwaysAnimate, manager.isAnimating, manager.frameIndex;
  }
}
