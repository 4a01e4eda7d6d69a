/** Outcomes shared by both stores: results, optional values, the storage
    engine's errors, and the abstract fault model that stands in for the
    database file. */
module Storage {

  datatype Option<+T> = None | Some(value: T)

  datatype Result<+T, +E> = Ok(value: T) | Err(error: E)

  /** The kinds of `rusqlite::Error` the model distinguishes. */
  datatype StorageError =
    | IoFailure            // the file, a lock or the engine failed
    | NoSuchTable          // a statement named a table the schema lacks
    | NoSuchColumn         // a statement named a column the schema lacks
    | ConstraintViolation  // a PRIMARY KEY was violated

  /** What the storage engine does during one operation. Every operation
      numbers its steps (opening the connection is step 0; later steps are
      listed on each method), and `FaultAt(k)` makes step `k` fail with an
      I/O error. A fault at a step the operation never reaches has no effect. */
  datatype Io = Healthy | FaultAt(step: nat)

  predicate FaultsAt(io: Io, step: nat) {
    io == FaultAt(step)
  }

  /** Some step before `n` fails. */
  predicate FaultsBefore(io: Io, n: nat) {
    io.FaultAt? && io.step < n
  }
}
