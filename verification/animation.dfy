/** Animation Resolver, the per-tick Animation Update Procedure
    (`animate_characters`) and the Flag Commit step (`update_animation_flags`). */
module Animation {
  import opened Wrappers
  import opened Direction
  import opened Clip
  import opened Timing
  import opened Config

  /** What a character is playing and which way it faces. */
  datatype AnimationController = AnimationController(currentAnimation: AnimationKind, facing: Facing)

  /** `AnimationController::default`: a freshly spawned character walks and
      faces the way a motionless character resolves to (Down). */
  function DefaultController(): (ctrl: AnimationController)
    ensures ctrl.currentAnimation == Walk
    ensures ctrl.facing == FromDirection(0.0, 0.0)
  {
    AnimationController(Walk, Down)
  }

  /** The motion flags of this tick (`is_*`, written by the movement code) and
      of the previous tick (`was_*`, written only by the flag commit). */
  datatype AnimationState = AnimationState(isMoving: bool, wasMoving: bool, isJumping: bool, wasJumping: bool)

  /** One character entity with the components the two systems read and
      write. `atlas` is the sprite's texture atlas frame index, `None` while the
      sprite has no atlas yet. */
  datatype Character = Character(
    controller: AnimationController,
    state: AnimationState,
    timer: Timer,
    atlas: Option<nat>,
    config: CharacterEntry)

  /** The current animation, if the catalogue has it, has at least one frame. */
  predicate CurrentHasFrames(ctrl: AnimationController, config: CharacterEntry) {
    ctrl.currentAnimation in config.animations ==> config.animations[ctrl.currentAnimation].frameCount >= 1
  }

  /** `AnimationController::get_clip`: absent exactly when the catalogue has no
      definition for the current kind; otherwise a directional definition
      uses the row of the current facing inside its four-row block, and any
      other definition its start row. */
  function GetClip(ctrl: AnimationController, config: CharacterEntry): (r: Option<AnimationClip>)
    requires CurrentHasFrames(ctrl, config)
    ensures r.None? <==> ctrl.currentAnimation !in config.animations
    ensures r.Some? ==>
      var def := config.animations[ctrl.currentAnimation];
      var offset := if def.directional then DirectionIndex(ctrl.facing) else 0;
      r.value.first == (def.startRow + offset) * config.atlasColumns &&
      r.value.first <= r.value.last && Size(r.value) == def.frameCount
  {
    if ctrl.currentAnimation !in config.animations then None
    else
      var def := config.animations[ctrl.currentAnimation];
      var row := if def.directional then def.startRow + DirectionIndex(ctrl.facing) else def.startRow;
      Some(New(row, def.frameCount, config.atlasColumns))
  }

  /** A single-row animation plays the same clip whatever the facing. */
  lemma NonDirectionalIgnoresFacing(ctrl: AnimationController, config: CharacterEntry, f: Facing)
    requires CurrentHasFrames(ctrl, config)
    requires ctrl.currentAnimation in config.animations
    requires !config.animations[ctrl.currentAnimation].directional
    ensures GetClip(ctrl.(facing := f), config) == GetClip(ctrl, config)
  {
  }

  /** The four facings of a directional animation address four pairwise
      disjoint clips, provided a clip fits in one atlas row. */
  lemma {:induction false} DirectionalClipsDisjoint(ctrl: AnimationController, config: CharacterEntry, f: Facing, g: Facing)
    requires CurrentHasFrames(ctrl, config)
    requires ctrl.currentAnimation in config.animations
    requires config.animations[ctrl.currentAnimation].directional
    requires config.animations[ctrl.currentAnimation].frameCount <= config.atlasColumns
    requires f != g
    ensures forall i: nat :: !(Contains(GetClip(ctrl.(facing := f), config).value, i) &&
                               Contains(GetClip(ctrl.(facing := g), config).value, i))
  {
    var def := config.animations[ctrl.currentAnimation];
    DirectionIndexBijective(f, g);
    RowsDisjoint(def.startRow + DirectionIndex(f), def.startRow + DirectionIndex(g), def.frameCount, config.atlasColumns);
  }

  /** A transition: a motion flag differs from its value at the last commit
      (started or stopped moving, started or stopped jumping). */
  function AnimationChanged(s: AnimationState): (b: bool)
    ensures b <==> s.isMoving != s.wasMoving || s.isJumping != s.wasJumping
  {
    var justStartedMoving := s.isMoving && !s.wasMoving;
    var justStoppedMoving := !s.isMoving && s.wasMoving;
    var justStartedJumping := s.isJumping && !s.wasJumping;
    var justStoppedJumping := !s.isJumping && s.wasJumping;
    justStartedMoving || justStartedJumping || justStoppedMoving || justStoppedJumping
  }

  /** `should_animate`: moving or jumping now. Without a transition, motion
      now means motion was already under way last tick, and rest now means
      rest last tick. */
  predicate ShouldAnimate(s: AnimationState)
    ensures ShouldAnimate(s) && !AnimationChanged(s) ==> s.wasMoving || s.wasJumping
    ensures !ShouldAnimate(s) && !AnimationChanged(s) ==> !s.wasMoving && !s.wasJumping
  {
    s.isJumping || s.isMoving
  }

  /** The safety clamp: an index outside the clip goes back to its start and
      the timer's accumulator is cleared; an index inside is left alone. */
  function Clamp(clip: AnimationClip, index: nat, timer: Timer): (r: (nat, Timer))
    requires clip.first <= clip.last
    ensures Contains(clip, r.0)
    ensures Contains(clip, index) ==> r == (index, timer)
    ensures !Contains(clip, index) ==> r.0 == Start(clip) && r.1 == Reset(timer)
    ensures !Contains(clip, index) ==> r.1.duration == timer.duration && r.1.elapsed == 0 && !r.1.justFinished
  {
    if !Contains(clip, index) then (Start(clip), Reset(timer)) else (index, timer)
  }

  /** The body of `animate_characters` for one entity, as a function of the
      entity before the tick and the tick's time step. Only the frame index and
      the timer change; an entity without an atlas or without a definition
      for its current animation is left as it is; every other entity ends the
      tick on a frame of its resolved clip. */
  function Step(c: Character, delta: nat): (r: Character)
    requires CurrentHasFrames(c.controller, c.config)
    ensures r.controller == c.controller && r.state == c.state && r.config == c.config
    ensures r.atlas.Some? <==> c.atlas.Some?
    ensures c.atlas.None? || c.controller.currentAnimation !in c.config.animations ==> r == c
    ensures c.atlas.Some? && c.controller.currentAnimation in c.config.animations ==>
      Contains(GetClip(c.controller, c.config).value, r.atlas.value)
  {
    if c.atlas.None? then c
    else match GetClip(c.controller, c.config)
      case None => c
      case Some(clip) =>
        // The second lookup of the definition cannot fail once the clip resolved.
        var def := c.config.animations[c.controller.currentAnimation];
        var (index, timer) := Clamp(clip, c.atlas.value, c.timer);
        if AnimationChanged(c.state) then
          c.(atlas := Some(Start(clip)), timer := Reset(SetDuration(timer, def.frameTime)))
        else if ShouldAnimate(c.state) then
          var ticked := Tick(timer, delta);
          c.(atlas := Some(if ticked.justFinished then Next(clip, index) else index), timer := ticked)
        else
          c.(atlas := Some(Start(clip)), timer := timer)
  }

  /** Transition priority: any transition, whatever the other flags say, puts
      the frame on the clip's start and restarts the timer with the current
      animation's frame time. */
  lemma StepTransitionResets(c: Character, delta: nat)
    requires CurrentHasFrames(c.controller, c.config)
    requires c.atlas.Some? && c.controller.currentAnimation in c.config.animations
    requires AnimationChanged(c.state)
    ensures Step(c, delta).atlas == Some(GetClip(c.controller, c.config).value.first)
    ensures Step(c, delta).timer == Timer(c.config.animations[c.controller.currentAnimation].frameTime, 0, false)
  {
  }

  /** Simultaneous transitions give the same single reset as one transition:
      the outcome does not depend on which flags changed. */
  lemma SimultaneousTransitionsSingleReset(c: Character, other: AnimationState, delta: nat)
    requires CurrentHasFrames(c.controller, c.config)
    requires AnimationChanged(c.state) && AnimationChanged(other)
    ensures Step(c.(state := other), delta) == Step(c, delta).(state := other)
  {
  }

  /** Steady motion (no transition, moving or jumping): the timer ticks once,
      and the frame moves to `next` of the clamped frame exactly when the timer
      reports that it just finished. */
  lemma StepAdvancesOnElapse(c: Character, delta: nat)
    requires CurrentHasFrames(c.controller, c.config)
    requires c.atlas.Some? && c.controller.currentAnimation in c.config.animations
    requires !AnimationChanged(c.state) && ShouldAnimate(c.state)
    ensures var clip := GetClip(c.controller, c.config).value;
      var (index, timer) := Clamp(clip, c.atlas.value, c.timer);
      Step(c, delta).timer == Tick(timer, delta) &&
      Step(c, delta).atlas == Some(if Tick(timer, delta).justFinished then Next(clip, index) else index)
  {
  }

  /** Idle (no transition, neither moving nor jumping): the frame is pinned to
      the clip's start and the timer is touched only by the safety clamp, so a
      second idle step changes nothing. */
  lemma IdleStepIdempotent(c: Character, delta: nat, delta': nat)
    requires CurrentHasFrames(c.controller, c.config)
    requires c.atlas.Some? && c.controller.currentAnimation in c.config.animations
    requires !AnimationChanged(c.state) && !ShouldAnimate(c.state)
    ensures Step(c, delta).atlas == Some(GetClip(c.controller, c.config).value.first)
    ensures Contains(GetClip(c.controller, c.config).value, c.atlas.value) ==> Step(c, delta).timer == c.timer
    ensures Step(Step(c, delta), delta') == Step(c, delta)
  {
  }

  /** `animate_characters`: one update of every entity, in order, in place. */
  method AnimateCharacters(world: array<Character>, delta: nat)
    requires forall i :: 0 <= i < world.Length ==> CurrentHasFrames(world[i].controller, world[i].config)
    modifies world
    ensures forall i :: 0 <= i < world.Length ==> world[i] == Step(old(world[i]), delta)
  {
    for i := 0 to world.Length
      invariant forall j :: 0 <= j < i ==> world[j] == Step(old(world[j]), delta)
      invariant forall j :: i <= j < world.Length ==> world[j] == old(world[j])
    {
      var c := world[i];
      if c.atlas.None? {
        continue;
      }
      var found := GetClip(c.controller, c.config);
      if found.None? {
        continue;
      }
      var clip := found.value;
      var def := c.config.animations[c.controller.currentAnimation];
      var index := c.atlas.value;
      var timer := c.timer;

      // Safety clamp.
      if !Contains(clip, index) {
        index := Start(clip);
        timer := Reset(timer);
      }

      var s := c.state;
      var justStartedMoving := s.isMoving && !s.wasMoving;
      var justStoppedMoving := !s.isMoving && s.wasMoving;
      var justStartedJumping := s.isJumping && !s.wasJumping;
      var justStoppedJumping := !s.isJumping && s.wasJumping;
      var shouldAnimate := s.isJumping || s.isMoving;
      var animationChanged := justStartedMoving || justStartedJumping || justStoppedMoving || justStoppedJumping;

      if animationChanged {
        index := Start(clip);
        timer := SetDuration(timer, def.frameTime);
        timer := Reset(timer);
      } else if shouldAnimate {
        timer := Tick(timer, delta);
        if timer.justFinished {
          index := Next(clip, index);
        }
      } else {
        if index != Start(clip) {
          index := Start(clip);
        }
      }
      world[i] := c.(atlas := Some(index), timer := timer);
    }
  }

  /** The flag commit for one entity: the current flags become the previous
      ones, so that the next tick sees no transition unless the movement code
      changes a flag in between. */
  function CommitFlags(s: AnimationState): (r: AnimationState)
    ensures r.isMoving == s.isMoving && r.isJumping == s.isJumping
    ensures r.wasMoving == s.isMoving && r.wasJumping == s.isJumping
    ensures !AnimationChanged(r)
    ensures ShouldAnimate(r) == ShouldAnimate(s)
  {
    s.(wasMoving := s.isMoving, wasJumping := s.isJumping)
  }

  /** Committing twice is committing once. */
  lemma CommitFlagsIdempotent(s: AnimationState)
    ensures CommitFlags(CommitFlags(s)) == CommitFlags(s)
  {
  }

  /** `update_animation_flags`: commit every entity's flags, in place; nothing
      but the `was_*` flags changes. */
  method UpdateAnimationFlags(world: array<Character>)
    modifies world
    ensures forall i :: 0 <= i < world.Length ==> world[i] == old(world[i]).(state := CommitFlags(old(world[i].state)))
  {
    for i := 0 to world.Length
      invariant forall j :: 0 <= j < i ==> world[j] == old(world[j]).(state := CommitFlags(old(world[j].state)))
      invariant forall j :: i <= j < world.Length ==> world[j] == old(world[j])
    {
      var s := world[i].state;
      s := s.(wasMoving := s.isMoving);
      s := s.(wasJumping := s.isJumping);
      world[i] := world[i].(state := s);
    }
  }

  /** One entity over one whole tick: update, then commit. */
  function TickCharacter(c: Character, delta: nat): (r: Character)
    requires CurrentHasFrames(c.controller, c.config)
    ensures r.controller == c.controller && r.config == c.config && r.state == CommitFlags(c.state)
    ensures r.atlas == Step(c, delta).atlas && r.timer == Step(c, delta).timer
  {
    var s := Step(c, delta);
    s.(state := CommitFlags(s.state))
  }

  /** A tick of the two systems, under the assumption that the scheduler runs
      the update of every entity before the flag commit of any. */
  method RunTick(world: array<Character>, delta: nat)
    requires forall i :: 0 <= i < world.Length ==> CurrentHasFrames(world[i].controller, world[i].config)
    modifies world
    ensures forall i :: 0 <= i < world.Length ==> world[i] == TickCharacter(old(world[i]), delta)
  {
    AnimateCharacters(world, delta);
    UpdateAnimationFlags(world);
  }
}
