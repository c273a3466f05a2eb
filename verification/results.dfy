/** Optional values and success-or-error results, used wherever the harvester
    can come up empty (a missing reading) or fail (a malformed export). */
module Results {

  datatype Option<+T> = None | Some(value: T)

  datatype Result<+T, +E> = Success(value: T) | Failure(error: E)
}
