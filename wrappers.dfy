/** The optional value used for a post's cover image and for the selected post
    (JavaScript's `null` becomes `None`). */
module Wrappers {
  datatype Option<+T> = None | Some(value: T)
}
