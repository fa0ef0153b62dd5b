/** Shared result types for the magazine-ocr model. */
module Common {

  datatype Option<+T> = None | Some(value: T)

  /** How a run of the tool ends when it does not return normally.
      `Exit(status)` is an explicit `sys.exit(status)`; `NameError(name)` is the
      exception Python raises when it evaluates an undefined name. */
  datatype Abort = Exit(status: int) | NameError(name: string)

  datatype Result<+T> = Ok(value: T) | Err(abort: Abort)
}
