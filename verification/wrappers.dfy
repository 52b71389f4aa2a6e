/** Small failure-carrying datatypes shared by the acquisition model. */
module Wrappers {

  /** A value that may be missing: a failed parse, or a write past the end of the buffer. */
  datatype Option<+T> = None | Some(value: T)

  /** How one acquisition cycle ends.
      - Complete: the buffer was filled;
      - Exhausted: the given lines ran out before the frame was full;
      - IndexError: a write went past the last slot of the buffer. */
  datatype Outcome<+T> = Complete(value: T) | Exhausted | IndexError
}
