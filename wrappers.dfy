/** Option, standing in for the nullable pointers of the add-on. */
module Wrappers {

  datatype Option<+T> = None | Some(value: T)

}
