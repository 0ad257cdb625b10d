/** The optional-argument idiom of the translator: a C++ `nullptr` default
    parameter becomes `None`. */
module Wrappers {

  datatype Option<+T> = None | Some(value: T)
}
