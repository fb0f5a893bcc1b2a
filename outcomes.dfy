/** Optional values, results, and the failures the encoder signals.

    Every failure of the encoder is an exception that carries a numeric code;
    the model keeps one constructor per failure kind and its code, and nothing
    of the exception class or message text. The two throw sites of an unknown
    group (in convertString and in detectEncoding) share `UnknownGroup`. */
module Outcomes {

  datatype Option<+T> = None | Some(value: T)

  /** The kinds of failure of the encoder. */
  datatype Error =
    | UnknownDefaultGroup    // the constructor's default group is not in the group table
    | UnsupportedTarget      // convertString: the target encoding is not in the catalog
    | UnknownGroup           // convertString, detectEncoding: the group is not in the group table
    | DetectionFailed        // detectEncoding: no candidate of the detect order matched
    | UnsupportedSourceHint  // convertString: the source encoding is not in the catalog
  {
    /** The numeric code of the exception thrown for this failure. */
    function Code(): (code: int)
      ensures code in {1001, 5001, 6001, 6002}
      ensures code == 6002 <==> (DetectionFailed? || UnsupportedSourceHint?)
    {
      match this
      case UnknownDefaultGroup => 1001
      case UnsupportedTarget => 5001
      case UnknownGroup => 6001
      case DetectionFailed => 6002
      case UnsupportedSourceHint => 6002
    }
  }

  datatype Result<+T> = Ok(value: T) | Err(error: Error)
}
