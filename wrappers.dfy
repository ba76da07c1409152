/** An optional value: `None` stands for "nothing came back". */
module Wrappers {

  datatype Option<+T> = None | Some(value: T)
}
