/** The optional value used for C#'s nullable references: a missing caller
    message (`string? errorMessage = null`), an unset condition
    (`Func<T, bool>? _condition`) and a check that passed
    (`ValidationFailure?` returned as null). */
module Wrappers {

  datatype Option<+T> = None | Some(value: T)
}
