/** Clip Addressing: a contiguous, inclusive range `first..=last` of frame
    indices inside a shared texture atlas whose rows are `atlasColumns` wide. */
module Clip {
  import opened Arithmetic

  datatype AnimationClip = AnimationClip(first: nat, last: nat)

  /** Inclusive range membership (`contains`): nothing outside `first..=last`
      belongs to the clip, and a clip that contains anything is non-empty. */
  predicate Contains(c: AnimationClip, index: nat)
    ensures Contains(c, index) ==> c.first <= c.last
    ensures index < c.first || c.last < index ==> !Contains(c, index)
  {
    c.first <= index <= c.last
  }

  /** The number of frames a well-formed clip spans. */
  function Size(c: AnimationClip): nat
    requires c.first <= c.last
  {
    c.last - c.first + 1
  }

  /** `AnimationClip::new`: the clip starts at the first column of `row` and
      holds exactly `frameCount` consecutive indices. A zero frame count would
      underflow in the source, so at least one frame is required. */
  function New(row: nat, frameCount: nat, atlasColumns: nat): (c: AnimationClip)
    requires frameCount >= 1
    ensures c.first == row * atlasColumns
    ensures c.first <= c.last && Size(c) == frameCount
    ensures forall i: nat :: Contains(c, i) <==> row * atlasColumns <= i < row * atlasColumns + frameCount
  {
    var first := row * atlasColumns;
    AnimationClip(first, first + frameCount - 1)
  }

  /** `start`: the first frame, which lies in every well-formed clip. */
  function Start(c: AnimationClip): (i: nat)
    ensures c.first <= c.last ==> Contains(c, i)
    ensures forall j: nat :: Contains(c, j) ==> i <= j
  {
    c.first
  }

  /** `next`: the following frame, looping back to the first frame from the
      last one (or from anything at or beyond it). */
  function Next(c: AnimationClip, index: nat): (j: nat)
    ensures Contains(c, index) ==> Contains(c, j)
    ensures index < c.last ==> j == index + 1
    ensures index >= c.last ==> j == Start(c)
  {
    if index >= c.last then c.first else index + 1
  }

  /** `is_complete`: the timer elapsed on (or beyond) the last frame. A clip
      never completes without an elapse, and it completes only where `next`
      loops back to the start. */
  predicate IsComplete(c: AnimationClip, index: nat, timerFinished: bool)
    ensures IsComplete(c, index, timerFinished) ==> timerFinished
    ensures IsComplete(c, index, timerFinished) ==> Next(c, index) == Start(c)
  {
    index >= c.last && timerFinished
  }

  /** Inside a clip, completion happens exactly on the last frame of a tick
      whose timer elapsed, and that is exactly when `next` loops back. */
  lemma IsCompleteOnLastFrame(c: AnimationClip, index: nat, timerFinished: bool)
    requires Contains(c, index)
    ensures IsComplete(c, index, timerFinished) <==> index == c.last && timerFinished
    ensures IsComplete(c, index, true) <==> Next(c, index) == Start(c)
  {
  }

  /** `k` successive applications of `next`. */
  function NextN(c: AnimationClip, index: nat, k: nat): nat
    decreases k
  {
    if k == 0 then index else NextN(c, Next(c, index), k - 1)
  }

  /** Looping without skips or overshoot: starting at offset `j` of a clip,
      `k` steps of `next` land at offset `(j + k) mod Size`. In particular
      the clip returns to its first frame after exactly `Size` steps. */
  lemma {:induction false} NextNCycles(c: AnimationClip, j: nat, k: nat)
    requires c.first <= c.last && j < Size(c)
    ensures NextN(c, c.first + j, k) == c.first + (j + k) % Size(c)
    decreases k
  {
    var n := Size(c);
    if k == 0 {
      ModUnique(j, n, 0, j);
    } else {
      var j' := (j + 1) % n;
      if j + 1 < n {
        ModUnique(j + 1, n, 0, j + 1);
        assert c.first + j < c.last;
      } else {
        ModUnique(j + 1, n, 1, 0);
        assert c.first + j == c.last;
      }
      assert Next(c, c.first + j) == c.first + j';
      assert NextN(c, c.first + j, k) == NextN(c, c.first + j', k - 1);
      NextNCycles(c, j', k - 1);
      ModShift(j, k, n);
    }
  }

  /** Clips of distinct rows never overlap as long as a clip is no longer
      than a row of the atlas. */
  lemma {:induction false} RowsDisjoint(row1: nat, row2: nat, frameCount: nat, atlasColumns: nat)
    requires 1 <= frameCount <= atlasColumns && row1 != row2
    ensures forall i: nat :: !(Contains(New(row1, frameCount, atlasColumns), i) && Contains(New(row2, frameCount, atlasColumns), i))
  {
    var lo, hi := if row1 < row2 then row1 else row2, if row1 < row2 then row2 else row1;
    MulMonotone(lo + 1, hi, atlasColumns);
    assert (lo + 1) * atlasColumns == lo * atlasColumns + atlasColumns;
  }
}
