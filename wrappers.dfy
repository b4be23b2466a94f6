/** Option and Result values shared by every module of the model. */
module Wrappers {
  datatype Option<+T> = None | Some(value: T)

  /** Err carries the message the C code passes to lwerror or the Java code
      puts in its exception. In both systems the error aborts the operation. */
  datatype Result<+T> = Ok(value: T) | Err(msg: string)
  {
    predicate IsFailure() { Err? }
  }
}
