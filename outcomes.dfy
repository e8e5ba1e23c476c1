/** Failure-compatible wrappers and the error taxonomy of the validation engine.

    The engine raises two kinds of programmer-facing faults: configuration errors from the
    builder and usage errors from the validator. Validation failures are never errors: they
    are data, reported through the results presenter and a boolean. */
module Outcomes {

  datatype Option<+T> = None | Some(value: T)

  datatype Result<+T> = Ok(value: T) | Err(error: Error)

  /** One constructor per exception the engine throws. */
  datatype Error =
    /** `ArgumentNullException` for the named parameter. */
    | ArgumentNull(parameter: string)
    /** `AddProperty` before `WithViewModel`. */
    | ViewModelMissing
    /** `AddProperty` of a name that is already registered. */
    | PropertyAlreadyAdded(property: string)
    /** `AddProperty` of a name that is not a public property of the view-model's type. */
    | ViewModelMissingProperty(property: string)
    /** `AddProperty` of a property without a getter. */
    | PropertyGetterMissing(property: string)
    /** `Build` before `WithResultsPresenter`. */
    | ResultsPresenterMissing
    /** `Validate` of a name that was never added to the validator. */
    | PropertyNeverAdded(property: string)
    /** `ObjectDisposedException`: any operation on a disposed validator. */
    | ObjectDisposed
}
