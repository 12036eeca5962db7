/** Optional values, the encoders' error kinds and call results. */
module Results {

  datatype Option<+T> = None | Some(value: T) {

    function GetOr(default: T): T
    {
      match this
      case Some(v) => v
      case None => default
    }
  }

  /** The `InvalidArgumentException`s the encoders throw, by cause. */
  datatype Error =
    | InvalidConfiguration   // the character set is not 32 unique characters
    | InvalidCharacters      // decode input holds a character outside alphabet and padding
    | EmptyInput             // `decodeInteger` of an empty string

  datatype Result<+T> = Success(value: T) | Failure(error: Error)
}
