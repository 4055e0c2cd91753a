/** Option and Result values, and the exceptions the build-configuration code raises. */
module Wrappers {

  datatype Option<+T> = None | Some(value: T)

  /** A value, or the exception that aborted the computation of it. Usable with `:-`. */
  datatype Result<+T, +E> = Ok(value: T) | Err(error: E) {

    predicate IsFailure() {
      Err?
    }

    function PropagateFailure<U>(): Result<U, E>
      requires Err?
    {
      Err(error)
    }

    function Extract(): T
      requires Ok?
    {
      value
    }
  }

  /** The exceptions of the configuration resolver, one constructor per `throw` site or runtime failure. */
  datatype Error =
    | DuplicateKey(key: string)                        // Dictionary.Add on a key already present
    | KeyNotFound(key: string)                         // Dictionary indexer on a missing key
    | ReferenceSelf(name: string, key: string, startKey: string)
    | LoopReference(name: string, startKey: string)
    | NotFoundKey(name: string)                        // template names neither a config key nor a global
    | FormatError(format: string)                      // string.Format / IFormattable.ToString rejected the format
    | TooDeep                                          // template recursion deeper than the depth bound
    | IndexOutOfRange
    | NotKey(name: string)                             // Get<T>(name) without a default on a missing key
    | NotEnumType(typeName: string)
    | EnumParseError(value: string)
    | ArgumentNull(parameter: string)
    | NotParameterless(methodName: string)
}
