/** The optional value used for the nullable columns of the data frame
    (a `None` stands for pandas' NaN / NaT). */
module Wrappers {

  datatype Option<+T> = None | Some(value: T)
}
