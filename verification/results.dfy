/** Failure-carrying values shared by the modules of the model. A Python
    exception that the source raises is modelled as a `Failure` carrying the
    text `str(e)` would have produced. */
module Results {

  datatype Option<+T> = None | Some(value: T)

  datatype Result<+T> = Success(value: T) | Failure(error: string)
}
