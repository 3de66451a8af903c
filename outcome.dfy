/** The two shapes a remote call or a fallible step can end in. An `Err`
    stands for a thrown exception; its text is the diagnostic that the
    source would log. */
module Outcome {

  datatype Option<+T> = None | Some(value: T)

  datatype Result<+T> = Ok(value: T) | Err(error: string)
}
