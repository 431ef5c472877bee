/** Failure values for the two lookups that can fail in bag_of_words.py:
    a label lookup with `.loc` (KeyError) and a positional lookup with `.iloc` (IndexError). */
module Outcomes {

  datatype Option<+T> = None | Some(value: T)

  datatype Error =
    | KeyNotFound(key: string)      // `.loc[:, key]` on a frame without that column
    | IndexOutOfRange(index: int)   // `.iloc[index]` outside the frame's rows

  datatype Result<+T> = Ok(value: T) | Err(error: Error)
}
