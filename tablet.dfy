/** The tablet sample the editor consumes; reading samples from the device
    is not part of this model. */
module Tablet {

  /** One pen sample: a position in surface pixels and a pressure level. */
  datatype TabletEvent = TabletEvent(x: int, y: int, pressure: int)
}
