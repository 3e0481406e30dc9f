/** The nullable values of the translator: a C# reference that may be `null`
    is modelled as `None`, a present value as `Some`. */
module Wrappers {

  datatype Option<+T> = None | Some(value: T)
}
