/** The optional value of the model. `None` plays three roles: the `null` of
    a dropped neighbour, the `undefined` of an out-of-range board read, and
    the `NaN` that adding such a read makes of the neighbour count. */
module Wrappers {

  datatype Option<+T> = None | Some(value: T)
}
