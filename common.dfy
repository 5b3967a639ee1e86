/** Shared wrappers: optional values, and results that may be an exception. */
module Common {

  datatype Option<+T> = None | Some(value: T)

  /** The exceptions the modelled code raises, one case per throw site,
      and one for any exception raised by code outside the model. */
  datatype Fault =
    /** `current.Count` on a failed `as IReadOnlyDictionary` cast in ExtractData */
    | NullReference
    /** the remote client answered with something that is not a query result */
    | OnlyQueryResults
    /** a selection path names a field the current remote type does not have */
    | PathElementInvalid(field: string, typeName: string)
    /** a non-final selection path field whose type is not complex */
    | PathElementTypeUnexpected
    /** a selection path argument the remote field does not declare */
    | ArgumentNotFound(argument: string)
    /** ImmutableDictionary.Builder.AddRange met a key already present with another value */
    | DuplicateKeyWithDifferentValue
    /** an exception from code outside the model, such as the client's transport */
    | RemoteFailure(name: string)

  /** What a call yields: a value, or the exception it throws. */
  datatype Outcome<+T> = Returned(value: T) | Throws(fault: Fault)
}
