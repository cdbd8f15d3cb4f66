/** Optional values, and results that may carry one of the Python exceptions
    the modelled code raises. */
module Wrappers {

  datatype Option<+T> = None | Some(value: T)

  /** The exceptions a command can end in: ValueError for a bad int()
      literal, and also for OpenCV's cv2.error when copyMakeBorder is given a
      negative border; IndexError for an index past the end of a token list,
      a string or a frame's channel axis; TypeError for an argument of the
      wrong type, such as a text mode that cv2.threshold rejects. */
  datatype Error = ValueError | IndexError | TypeError

  datatype Result<+T> = Ok(value: T) | Err(error: Error)
}
