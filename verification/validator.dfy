/** The duplicate check's verdict. The validator's own code lies outside the
    service; the model assumes it rejects exactly when a duplicate identifier
    was found, that is, when it is handed a non-null value. */
module DuplicationValidator {
  import opened Wrappers
  import opened Domain

  /** Passes on `None`; fails with `DuplicateEntity` on any identifier. */
  function Accept(duplicate: Option<Id>): (r: Result<(), Error>)
    ensures r.Failure? <==> duplicate.Some?
    ensures r.Failure? ==> r.error == DuplicateEntity
  {
    if duplicate.Some? then Failure(DuplicateEntity) else Success(())
  }
}
