/** The conventional optional value: `None` stands for PHP's `null` or a failed parse. */
module Wrappers {

  datatype Option<+T> = None | Some(value: T)
}
