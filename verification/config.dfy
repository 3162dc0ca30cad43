/** The character catalogue, seen only at the interface the animation engine
    reads: the atlas width and a map from animation kind to its definition. */
module Config {

  /** An animation category of the external catalogue, compared by value. */
  datatype AnimationKind = AnimationKind(name: string)

  /** The kind a freshly spawned character plays. */
  const Walk := AnimationKind("Walk")

  /** One catalogue entry: the first atlas row of the animation, its number of
      frames, the time per frame in ticks, and whether it occupies four rows
      (one per facing) or a single row. */
  datatype AnimationDefinition = AnimationDefinition(
    startRow: nat, frameCount: nat, frameTime: nat, directional: bool)

  /** `CharacterEntry` as far as the engine reads it. */
  datatype CharacterEntry = CharacterEntry(
    atlasColumns: nat, animations: map<AnimationKind, AnimationDefinition>)
}
