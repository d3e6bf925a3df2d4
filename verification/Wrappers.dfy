/** Results, options, and the errors the modelled functions return. */
module Wrappers {
  datatype Option<+T> = None | Some(value: T)

  datatype Error =
    | Truncated          // the data ends in the middle of a value
    | NotUtf8
    | UnknownType        // type tag of a column
    | UnknownRecord      // tag of a log record
    | UnknownTable
    | TableExists
    | BadDimension
    | BadOffsets
    | BadSchema
    | BadArity
    | BadType
    | BadColumns
    | BadMagic
    | BadVersion
    | BadChecksum
    | BadRowCount
    | LsnGap
    | Unreachable        // the other node does not answer
    | ReadOnly
    | NotPersistent
    | UnknownColumn
    | DuplicateColumn

  datatype Result<+T> = Ok(value: T) | Err(error: Error) {
    predicate IsFailure() {
      Err?
    }

    function PropagateFailure<U>(): Result<U>
      requires Err?
    {
      Err(error)
    }

    function Extract(): T
      requires Ok?
    {
      value
    }
  }
}
