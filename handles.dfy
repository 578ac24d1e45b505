/** Small shared vocabulary: a nullable reference, as the components' `useRef(... | null)` slots hold. */
module Handles {

  datatype Option<+T> = None | Some(value: T)

  /** An animation handle (a GSAP tween or timeline) is an opaque identity. */
  type Handle = nat
}
