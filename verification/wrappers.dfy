/** The optional value used for a cell's element and for a slot's child
    dimension (`boost::optional` and a possibly-null `unique_ptr` in the
    `InfinityMatrix.cpp`). */
module Wrappers {

  datatype Option<+T> = None | Some(value: T)

}
