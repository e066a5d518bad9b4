/** Results, errors and injected engine failures shared by the whole model. */
module Wrappers {

  datatype Option<+T> = None | Some(value: T)

  /** The ways an operation of the layer can fail. The source boxes every error into one
      dynamic error type; the variants here only name where the failure came from. */
  datatype Error =
    | TransactionFailed     // a transaction could not be begun or committed
    | TableOpenFailed       // opening, creating or deleting a table failed
    | StorageFailed         // the engine failed while reading or writing an entry
    | TableDoesNotExist     // a multimap table was opened for reading but does not exist
    | KeyNotFound           // `update` on a key that is not in the table
    | SavepointNotFound(key: nat)

  datatype Result<+T> = Ok(value: T) | Err(error: Error) {
    predicate IsFailure() { Err? }

    function PropagateFailure<U>(): Result<U>
      requires Err?
    {
      Err(error)
    }

    function Extract(): T
      requires Ok?
    {
      value
    }
  }

  /** Where the storage engine fails during one call of the layer, if anywhere.
      The engine itself is not part of the model; this parameter lets every
      error path of the layer be exercised. */
  datatype Fault =
    | NoFault
    | BeginFails            // the first transaction of the call cannot be begun
    | OpenFails             // opening (or deleting) the table fails for a reason other than its absence
    | StepFails(step: nat)  // the engine fails while the call handles its step-th input element
    | CommitFails           // the write transaction of the call cannot be committed
    | CreateFails           // read path only: the write that creates a missing table fails
    | ReopenFails           // read path only: the read that follows the creation of a table fails

  /** True when a write transaction that handles `steps` input elements is aborted by `f`
      before it commits: a failure to begin, to open the table, at one of its steps, or to commit. */
  predicate WriteAborts(f: Fault, steps: nat) {
    f.BeginFails? || f.OpenFails? || (f.StepFails? && f.step < steps) || f.CommitFails?
  }
}
