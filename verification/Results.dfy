/** Error results shared by the storage layers. */
module Results {
  /** `OutOfBounds` stands for the index panic of reading past the end of a page. */
  datatype Error =
    | Io
    | OutOfBounds
    | CorruptNode
    | CorruptMeta
    | CorruptRecord
    | KeyTooLarge(len: nat)
    | ValueTooLarge(len: nat)
    | TreeNotFound(tree: nat)
    | NodeNotFound(node: nat)
    | InvalidDatabase
    | LexError(position: nat)
    | ParseError(position: nat)
    | ExecutionError

  datatype Result<+T> = Ok(value: T) | Err(error: Error) {
    predicate IsFailure() {
      Err?
    }

    function PropagateFailure<U>(): Result<U>
      requires Err?
    {
      Err(error)
    }

    function Extract(): T
      requires Ok?
    {
      value
    }
  }
}
