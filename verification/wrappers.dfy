/** The optional value the animation engine uses for "not found": a missing
    texture atlas on a sprite, or an animation kind absent from a character's
    catalogue. */
module Wrappers {
  datatype Option<+T> = None | Some(value: T)
}
