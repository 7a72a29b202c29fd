/** The closed set of actions the tool can apply to an image. */
module ActionKinds {
  datatype ActionKind = Clockwise | CounterClockwise | Flip | Mirror
}
