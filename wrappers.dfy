/** An optional value: `None` stands for pandas' NaN ("missing"). */
module Wrappers {
  datatype Option<+T> = None | Some(value: T)
}
