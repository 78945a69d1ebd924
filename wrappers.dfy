/** Failure-carrying result types shared by the pipeline. */
module Wrappers {

  datatype Option<+T> = None | Some(value: T)

  datatype Result<+T, +E> = Ok(value: T) | Err(error: E)

  /** The ValueErrors the core raises: a seed length other than 12 or 24,
      and a seed string that bytes.fromhex refuses. */
  datatype Error = InvalidSeedLength | InvalidHex
}
