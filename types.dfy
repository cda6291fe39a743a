/** Small value types shared by every module of the model. */
module Types {

  /** One octet of a downloaded body or of a file on local storage. */
  type Byte = b: int | 0 <= b < 256

  datatype Option<+T> = None | Some(value: T)

  datatype Result<+T, +E> = Ok(value: T) | Err(error: E)
}
