/** Optional values and results, used wherever the source returns null,
    undefined, -1 or throws. */
module Base {

  /** `None` stands for JavaScript's null or undefined. */
  datatype Option<+T> = None | Some(value: T)

  /** `Err` stands for a thrown exception and carries its message. */
  datatype Result<+T> = Ok(value: T) | Err(message: string)
}
