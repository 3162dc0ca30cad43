/** Several ticks in a row: how the update and the flag commit together play
    an animation, and the concrete situations the engine is designed for. */
module Playback {
  import opened Wrappers
  import opened Direction
  import opened Clip
  import opened Timing
  import opened Config
  import opened Animation

  /** `k` ticks during which the movement code leaves the motion flags, the
      facing and the animation kind as they are. */
  function Ticks(c: Character, delta: nat, k: nat): (r: Character)
    requires CurrentHasFrames(c.controller, c.config)
    ensures r.controller == c.controller && r.config == c.config
    ensures r.state == if k == 0 then c.state else CommitFlags(c.state)
    ensures r.atlas.Some? <==> c.atlas.Some?
    ensures k > 0 && c.atlas.Some? && c.controller.currentAnimation in c.config.animations ==>
      Contains(GetClip(c.controller, c.config).value, r.atlas.value)
    decreases k
  {
    if k == 0 then c else Ticks(TickCharacter(c, delta), delta, k - 1)
  }

  /** While motion continues and each tick is one frame time long, every tick
      shows the next frame of the clip, whatever part of a frame time the
      timer had already accumulated. */
  lemma {:induction false} SteadyPlayback(c: Character, delta: nat, k: nat)
    requires CurrentHasFrames(c.controller, c.config)
    requires c.atlas.Some? && c.controller.currentAnimation in c.config.animations
    requires ShouldAnimate(c.state) && !AnimationChanged(c.state)
    requires c.timer.duration == delta && c.timer.elapsed < delta
    requires Contains(GetClip(c.controller, c.config).value, c.atlas.value)
    ensures Ticks(c, delta, k).atlas == Some(NextN(GetClip(c.controller, c.config).value, c.atlas.value, k))
    decreases k
  {
    if k > 0 {
      var clip := GetClip(c.controller, c.config).value;
      var c' := TickCharacter(c, delta);
      StepAdvancesOnElapse(c, delta);
      TickOneFrame(c.timer);
      assert c'.atlas == Some(Next(clip, c.atlas.value));
      assert c'.state == c.state;
      SteadyPlayback(c', delta, k - 1);
    }
  }

  /** A character that starts walking shows, on the tick that starts it, the
      first frame of its clip, and `k` frame times later the frame at offset
      `k` modulo the frame count: the walk cycle loops without skips. */
  lemma {:induction false} WalkCycle(c: Character, k: nat)
    requires CurrentHasFrames(c.controller, c.config)
    requires c.atlas.Some? && c.controller.currentAnimation in c.config.animations
    requires c.state == AnimationState(true, false, false, false)
    requires c.config.animations[c.controller.currentAnimation].frameTime > 0
    ensures var def := c.config.animations[c.controller.currentAnimation];
      var clip := GetClip(c.controller, c.config).value;
      Ticks(c, def.frameTime, k + 1).atlas == Some(clip.first + k % def.frameCount)
  {
    var def := c.config.animations[c.controller.currentAnimation];
    var clip := GetClip(c.controller, c.config).value;
    var c' := TickCharacter(c, def.frameTime);
    StepTransitionResets(c, def.frameTime);
    assert c'.atlas == Some(clip.first) && c'.timer == Timer(def.frameTime, 0, false);
    assert c'.state == AnimationState(true, true, false, false);
    assert Ticks(c, def.frameTime, k + 1) == Ticks(c', def.frameTime, k);
    SteadyPlayback(c', def.frameTime, k);
    NextNCycles(clip, 0, k);
    assert Size(clip) == def.frameCount;
    assert NextN(clip, clip.first, k) == clip.first + k % def.frameCount;
  }

  /** A stopped character stays on its clip's first frame on every tick. */
  lemma {:induction false} IdleStaysOnFirstFrame(c: Character, delta: nat, k: nat)
    requires CurrentHasFrames(c.controller, c.config)
    requires c.atlas.Some? && c.controller.currentAnimation in c.config.animations
    requires !ShouldAnimate(c.state)
    ensures Ticks(c, delta, k + 1).atlas == Some(GetClip(c.controller, c.config).value.first)
    decreases k
  {
    var c' := TickCharacter(c, delta);
    if AnimationChanged(c.state) {
      StepTransitionResets(c, delta);
    } else {
      IdleStepIdempotent(c, delta, delta);
    }
    if k > 0 {
      IdleStaysOnFirstFrame(c', delta, k - 1);
    }
  }

  // A catalogue with a directional walk in rows 0..3 of a six-column atlas.
  const WalkDef := AnimationDefinition(0, 4, 1, true)
  const Catalogue := CharacterEntry(6, map[Walk := WalkDef])

  /** Facing Up selects row 0, frames 0 to 3; Left row 1, frames 6 to 9;
      Down row 2, frames 12 to 15; Right row 3, frames 18 to 21. */
  lemma ScenarioClipRanges()
    ensures GetClip(AnimationController(Walk, Up), Catalogue) == Some(AnimationClip(0, 3))
    ensures GetClip(AnimationController(Walk, Left), Catalogue) == Some(AnimationClip(6, 9))
    ensures GetClip(AnimationController(Walk, Down), Catalogue) == Some(AnimationClip(12, 15))
    ensures GetClip(AnimationController(Walk, Right), Catalogue) == Some(AnimationClip(18, 21))
  {
  }

  /** Walking steadily on frame 14, an elapse shows 15; the next wraps to 12. */
  lemma ScenarioWalkWraps()
    ensures var c := Character(AnimationController(Walk, Down), AnimationState(true, true, false, false),
                               Timer(1, 0, false), Some(14), Catalogue);
      Step(c, 1).atlas == Some(15) && Step(Step(c, 1), 1).atlas == Some(12)
  {
  }

  /** Turning from Down to Right mid-walk: frame 14 is outside the new clip,
      so the safety clamp puts it on 18 even though no flag changed. */
  lemma ScenarioFacingChangeClamps()
    ensures var c := Character(AnimationController(Walk, Right), AnimationState(true, true, false, false),
                               Timer(1, 0, false), Some(14), Catalogue);
      Step(c, 0).atlas == Some(18)
  {
  }
}
