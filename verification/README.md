# Sprite-sheet animation engine, modelled in Dafny

This project models the animation core of the chapter 3 character code
(`chapter3/src/characters/animation.rs`). Each character's motion state is
mapped onto frame indices of a shared texture atlas, and those frames are
advanced once per tick. The model covers:

- **Direction resolution.** A motion vector becomes one of four facings
  (`Facing::from_direction`). Each facing is a row offset in a four-row
  directional block, in the order Up, Left, Down, Right (`direction_index`).
- **Clip addressing.** `AnimationClip` is the inclusive range `first..=last`
  derived from (row, frame count, atlas columns). It has a membership test, a
  looping `next`, a `start` and an `is_complete` test.
- **Clip resolution.** `AnimationController::get_clip` looks the current kind
  up in the character's catalogue entry and picks the row for the facing.
- **The per-tick update.** `animate_characters` runs, per entity in order:
  - a safety clamp;
  - transition detection from the `is_*`/`was_*` flags;
  - one of three branches: a hard reset, a timer-driven advance, or
    pinning to the first frame.
- **The flag commit.** `update_animation_flags` copies `is_*` into `was_*`.

Layout:

- `wrappers.dfy`: `Option`.
- `arithmetic.dfy`: remainder and product facts used by the clip and timer proofs.
- `direction.dfy`: `Facing`.
- `clip.dfy`: `AnimationClip`.
- `timing.dfy`: an abstract repeating timer.
- `config.dfy`: the catalogue interface.
- `animation.dfy`: `get_clip`, the update, the commit, and a tick made of the two.
- `playback.dfy`: several ticks in a row, plus concrete situations.

The pure parts are functions with lemmas. The two systems are loops over an
array of entity records, updated in place. Each loop is proved equal, entity by
entity, to the specification function `Step` (update) or `CommitFlags`
(commit). The properties are proved about those two functions.

The scheduler, the movement code and the renderer are parameters:

- the tick's time step is the `delta` argument;
- the motion flags, facing and animation kind are fields of the entity record,
  which the movement code writes before the update;
- the render-facing frame index is the `atlas` field.

A zero frame count is not a valid animation. The clip's last index is
computed as `first + frame_count - 1` (chapter3/src/characters/animation.rs:74).
With zero frames that underflows when `first` is 0. Otherwise it yields an empty
clip, which the safety clamp cannot restore, because its `start()` is outside it.
So the model requires the current animation to have at least one frame
(`CurrentHasFrames`).

## Model

| member | source | states |
|---|---|---|
| `Direction.FromDirection` | chapter3/src/characters/animation.rs:18-24 | Right iff \|x\| > \|y\| and x > 0; Left iff \|x\| > \|y\| and x ≤ 0; Up iff \|x\| ≤ \|y\| and y > 0; Down iff \|x\| ≤ \|y\| and y ≤ 0 (ties go to the vertical axis) |
| `Direction.ZeroVectorIsDown` | chapter3/src/characters/animation.rs:18-24 | the zero vector resolves to Down |
| `Direction.FromUnitVector` | chapter3/src/characters/animation.rs:18-24 | the unit vector of each facing resolves back to that facing |
| `Direction.FromDirectionScaleInvariant` | chapter3/src/characters/animation.rs:18-24 | scaling a vector by a positive factor does not change its facing: only signs and relative magnitudes matter |
| `Direction.DirectionIndex` | chapter3/src/characters/animation.rs:27-34 | every row offset is below 4 |
| `Direction.FacingAt` | chapter3/src/characters/animation.rs:27-34 | the inverse of the row offset: the facing at offset i has offset i |
| `Direction.DirectionIndexBijective` | chapter3/src/characters/animation.rs:27-34 | the row offset is a bijection between the four facings and 0..3 |
| `Clip.New` | chapter3/src/characters/animation.rs:70-76 | with at least one frame: first = row * columns, first ≤ last, the clip holds exactly frameCount indices, and i is in it iff row * columns ≤ i < row * columns + frameCount |
| `Clip.Start` | chapter3/src/characters/animation.rs:78-80 | the start lies in every well-formed clip and no index of the clip is below it |
| `Clip.Contains` | chapter3/src/characters/animation.rs:82-85 | no index outside `first..=last` is in the clip, and a clip that contains an index is non-empty |
| `Clip.Next` | chapter3/src/characters/animation.rs:87-94 | `next` of an index in the clip stays in the clip; any index below `last` goes to the index plus one; at or beyond `last` it goes to the start |
| `Clip.IsComplete` | chapter3/src/characters/animation.rs:96-99 | a clip never completes without a timer elapse, and it completes only where `next` loops back to the start |
| `Clip.IsCompleteOnLastFrame` | chapter3/src/characters/animation.rs:96-99 | within a clip, `is_complete` holds iff the index is `last` and the timer finished; with a finished timer it holds exactly when `next` loops back to the start |
| `Clip.NextNCycles` | chapter3/src/characters/animation.rs:87-94 | k steps of `next` from offset j land on offset (j + k) mod size, so the clip loops with no skip and no overshoot |
| `Clip.RowsDisjoint` | chapter3/src/characters/animation.rs:70-76 | clips on different rows never share an index when the frame count is at most the atlas width |
| `Timing.Reset` | chapter3/src/characters/animation.rs:142 | `reset` zeroes the accumulator, clears "just finished" and keeps the duration |
| `Timing.SetDuration` | chapter3/src/characters/animation.rs:158 | `set_duration` changes the duration and nothing else |
| `Timing.Tick` | chapter3/src/characters/animation.rs:162-163 | a tick keeps the duration; "just finished" holds iff the accumulated time reaches the duration; a positive duration keeps the accumulator below it, and the accumulator grows by delta when the timer does not finish; on an elapse it keeps (elapsed + delta) mod duration, as a repeating timer does (chapter3/src/characters/spawn.rs:97) |
| `Timing.TickOneFrame` | chapter3/src/characters/animation.rs:162-163 | ticking a timer with a positive duration by exactly that duration finishes it once and leaves its accumulated time unchanged |
| `Animation.DefaultController` | chapter3/src/characters/animation.rs:43-50 | a new controller plays Walk and faces the way the zero vector resolves (Down) |
| `Animation.GetClip` | chapter3/src/characters/animation.rs:103-116 | None iff the current kind is absent from the catalogue; otherwise the clip starts at (start row + facing offset if directional, else start row) * columns and spans the definition's frame count |
| `Animation.NonDirectionalIgnoresFacing` | chapter3/src/characters/animation.rs:108-112 | a single-row animation resolves to the same clip for every facing |
| `Animation.DirectionalClipsDisjoint` | chapter3/src/characters/animation.rs:108-115 | the clips of two different facings of a directional animation are disjoint when a clip fits in a row |
| `Animation.AnimationChanged` | chapter3/src/characters/animation.rs:146-153 | the four started/stopped tests together hold iff some `is_*` flag differs from its `was_*` flag |
| `Animation.Clamp` | chapter3/src/characters/animation.rs:139-143 | after the safety clamp the index lies in the clip; an index already in the clip and the timer are untouched; an index outside goes to the clip's `start()` and the timer is `reset` (accumulator zeroed, "just finished" cleared, duration kept) |
| `Animation.ShouldAnimate` | chapter3/src/characters/animation.rs:151 | without a transition, moving or jumping now means moving or jumping last tick, and resting now means resting last tick |
| `Animation.Step` | chapter3/src/characters/animation.rs:129-172 | only the frame index and the timer change; an entity with no atlas or no definition for its kind is unchanged; every other entity ends the update on a frame of its resolved clip |
| `Animation.StepTransitionResets` | chapter3/src/characters/animation.rs:155-159 | on any transition, even while moving or jumping, the frame becomes the clip's start and the timer becomes (the kind's frame time, 0 elapsed, not finished) |
| `Animation.SimultaneousTransitionsSingleReset` | chapter3/src/characters/animation.rs:146-159 | the outcome is the same whichever and however many transitions occur |
| `Animation.StepAdvancesOnElapse` | chapter3/src/characters/animation.rs:160-165 | moving or jumping with no transition: the clamped timer ticks once, and the frame becomes `next` of the clamped frame exactly when the tick reports "just finished" |
| `Animation.IdleStepIdempotent` | chapter3/src/characters/animation.rs:166-171 | idle with no transition: the frame becomes the clip's start, the timer is unchanged when the frame was in the clip, and a second idle update changes nothing |
| `Animation.AnimateCharacters` | chapter3/src/characters/animation.rs:119-173 | the in-place loop leaves every entity equal to `Step` of its state before the loop |
| `Animation.CommitFlags` | chapter3/src/characters/animation.rs:176-181 | `was_moving := is_moving`, `was_jumping := is_jumping`, `is_*` unchanged, afterwards no transition is pending, and whether to animate is unchanged |
| `Animation.CommitFlagsIdempotent` | chapter3/src/characters/animation.rs:176-181 | committing twice is the same as committing once |
| `Animation.UpdateAnimationFlags` | chapter3/src/characters/animation.rs:176-181 | the in-place loop commits every entity's flags and changes nothing else |
| `Animation.TickCharacter` | chapter3/src/characters/mod.rs:17-24 | over one tick (update, then commit), the controller and catalogue are unchanged, the flags are committed, and the frame and timer are those of the update |
| `Animation.RunTick` | chapter3/src/characters/mod.rs:17-24 | running the update over all entities, then the commit, gives each entity its `TickCharacter` |
| `Playback.Ticks` | chapter3/src/characters/animation.rs:129-181 | over k ticks with unchanged input the flags are committed, the atlas stays present, and after at least one tick the frame lies in the resolved clip |
| `Playback.SteadyPlayback` | chapter3/src/characters/animation.rs:160-165 | while motion continues with one frame time per tick, from a frame in the clip and a timer part-way (below its duration) through a frame, k ticks show the frame k steps of `next` further on |
| `Playback.WalkCycle` | chapter3/src/characters/animation.rs:146-165 | after starting to walk, the character shows the start of its clip; k frame times later it shows offset k mod frame count |
| `Playback.IdleStaysOnFirstFrame` | chapter3/src/characters/animation.rs:166-171 | a character that is neither moving nor jumping shows its clip's first frame after every tick |
| `Playback.ScenarioClipRanges` | chapter3/src/characters/animation.rs:103-116 | walking directionally in a 6-column atlas: Up gives frames 0..3, Left 6..9, Down 12..15 and Right 18..21 |
| `Playback.ScenarioWalkWraps` | chapter3/src/characters/animation.rs:160-165 | walking on frame 14, an elapse shows 15 and the next one wraps to 12 |
| `Playback.ScenarioFacingChangeClamps` | chapter3/src/characters/animation.rs:139-143 | after turning Down to Right mid-walk, frame 14 is clamped to 18 with no flag change |

## Left out

- Floating point. Vector components are modelled as `real`, so NaN and f32 rounding are not modelled. Times are whole ticks of the host clock; the f32 `frame_time`, `Duration::from_secs_f32` and its panic on negative or non-finite values are not modelled.
- The engine timer is modelled abstractly (`Timing`): a repeating timer with a duration, an accumulator and a "just finished" flag. Pausing, the "finished" state (distinct from "just finished") and the count of elapses per tick are not modelled, because the source reads none of them.
- Fixed-width integers. `usize` indices are unbounded `nat`, so overflow of `row * atlas_columns` or `first + frame_count - 1` is not modelled. A zero frame count, whose `- 1` underflows, is excluded by precondition.
- ECS queries. One array of entity records stands for both systems' queries. Entities that have `AnimationState` but lack the other components `animate_characters` needs are not distinguished. Iteration order over the query is the array order.
- Scheduling. The systems are registered as an unchained tuple (chapter3/src/characters/mod.rs:17-24), so the code does not guarantee that the update runs before the commit. `RunTick`, `TickCharacter` and the `Playback` lemmas assume that order; they do not claim the source enforces it.
- Movement. `Playback.Ticks` covers ticks in which the movement code changes no flag, facing or kind. The movement system itself (`movement.rs`) is not part of this model.
- The catalogue (`config.rs`) is not part of this model, apart from the fields the engine reads. `AnimationType` is an opaque `AnimationKind`, and `calculate_max_animation_row` is not modelled.
- `spawn.rs` is not modelled: asset loading, atlas layout creation and character switching. 
- `main.rs`, the performance monitor and the profiling setup are not modelled: rendering, camera, fog, depth sorting, wall-clock timing and logging.
- Direction.DirectionIndex: its own contract states only the range 0..3. The bijection is in `DirectionIndexBijective`. The concrete Up/Left/Down/Right order (0, 1, 2, 3) is fixed by its definition, and `ScenarioClipRanges` checks all four offsets.
