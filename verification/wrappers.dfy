/** Failure-compatible result types and the error conditions the ingestion
    code raises. Each `Error` constructor stands for one Python exception
    class (or one distinct cause of it) that the modelled code can raise. */
module Wrappers {

  datatype Option<+T> = None | Some(value: T)

  /** The exceptions of the modelled code, one constructor per cause. */
  datatype Error =
    | FileNotFound(path: string)          // FileNotFoundError
    | IsADirectory(path: string)          // IsADirectoryError from open()
    | InvalidValue(reason: string)        // ValueError
    | WrongType(reason: string)           // TypeError
    | ImportFailure(package: string)       // ImportError
    | MissingKey(key: string)             // KeyError on a dict lookup
    | IndexOutOfRange                     // IndexError
    | UnboundStatement                    // UnboundLocalError: `stmt` never assigned
    | MultipleRows                        // MultipleResultsFound from one_or_none()
    | MissingAttribute(name: string)      // AttributeError / NameError
    | ToolFailure(tool: string)           // an error raised inside an external tool

  /** Success carries a value; failure carries the raised error. Usable with `:-`. */
  datatype Result<+T> = Ok(value: T) | Err(error: Error) {

    predicate IsFailure() {
      Err?
    }

    function PropagateFailure<U>(): Result<U>
      requires Err?
    {
      Err(error)
    }

    function Extract(): T
      requires Ok?
    {
      value
    }
  }
}
